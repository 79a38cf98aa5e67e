/** Work-order records and the module-level id counter
    (src/features/workOrders/api/workOrdersApi.ts). */
module WorkOrdersApi {
  import opened Records
  import Seqs

  /** What local storage holds under the work-orders key: nothing (or an
      empty string), text that does not parse, or a parsed list. */
  datatype StoredOrders = Missing | Unreadable | Orders(orders: seq<WorkOrderInfo>)

  /** `Math.max(...orders.map(wo => wo.id), 0)`. */
  function MaxId(os: seq<WorkOrderInfo>): (m: int)
    ensures m >= 0
    ensures forall i :: 0 <= i < |os| ==> os[i].id <= m
    ensures m == 0 || exists i :: 0 <= i < |os| && os[i].id == m
  {
    if os == [] then 0
    else
      var rest := MaxId(os[1..]);
      if os[0].id > rest then os[0].id else rest
  }

  /** The record `create` builds around the counter value `id`. */
  function NewWorkOrder(id: int, number: string, owner: string, location: string, date: string): (r: WorkOrderInfo)
    ensures r.id == id && r.workOrderNumber == number && r.owner == owner
    ensures r.location == location && r.date == date
    ensures r.status == Some("Not started") && r.notes.None?
  {
    WorkOrderInfo(id, number, owner, location, date, Some("Not started"), None)
  }

  function NotId(id: int): WorkOrderInfo -> bool
  {
    (wo: WorkOrderInfo) => wo.id != id
  }

  /** `delete`: every order with `id` goes, the others stay. */
  function Delete(id: int, all: seq<WorkOrderInfo>): (r: seq<WorkOrderInfo>)
    ensures forall i :: 0 <= i < |r| ==> r[i].id != id
    ensures forall x :: multiset(r)[x] == if x.id != id then multiset(all)[x] else 0
    ensures (forall i :: 0 <= i < |all| ==> all[i].id != id) ==> r == all
  {
    Seqs.FilterKeepsAll(all, NotId(id));
    Seqs.Filter(all, NotId(id))
  }

  /** `delete` keeps the other orders in their original order. */
  lemma DeleteKeepsOrder(id: int, a: seq<WorkOrderInfo>, b: seq<WorkOrderInfo>)
    ensures Delete(id, a + b) == Delete(id, a) + Delete(id, b)
  {
    Seqs.FilterConcat(a, b, NotId(id));
  }

  /** The module-level `nextId` that `getAll` re-seeds and `create` bumps. */
  class WorkOrderCounter {
    var nextId: int

    constructor ()
      ensures nextId == 1
    {
      nextId := 1;
    }

    /** `getAll`: parsed data re-seeds the counter past every stored id;
        missing or unreadable data gives no orders and leaves it alone. */
    method GetAll(stored: StoredOrders) returns (orders: seq<WorkOrderInfo>)
      modifies this
      ensures stored.Orders? ==> orders == stored.orders && nextId == MaxId(orders) + 1
      ensures !stored.Orders? ==> orders == [] && nextId == old(nextId)
      ensures stored.Orders? ==> forall i :: 0 <= i < |orders| ==> orders[i].id < nextId
    {
      if stored.Orders? {
        orders := stored.orders;
        nextId := MaxId(orders) + 1;
      } else {
        orders := [];
      }
    }

    /** `create`: the record takes the counter's value, which then grows by one. */
    method Create(number: string, owner: string, location: string, date: string) returns (wo: WorkOrderInfo)
      modifies this
      ensures wo == NewWorkOrder(old(nextId), number, owner, location, date)
      ensures nextId == old(nextId) + 1
    {
      wo := NewWorkOrder(nextId, number, owner, location, date);
      nextId := nextId + 1;
    }
  }
}
