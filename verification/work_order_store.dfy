/** The work-order list state (src/features/workOrders/hooks/useWorkOrders.ts). */
module WorkOrderHooks {
  import opened Records
  import WorkOrdersApi

  /** One per `update*` operation of the hook. */
  datatype WorkOrderEdit =
    | Number(number: string)
    | Owner(owner: string)
    | Location(location: string)
    | Date(date: string)
    | Status(status: string)

  predicate SameField(e: WorkOrderEdit, f: WorkOrderEdit)
  {
    (e.Number? && f.Number?) || (e.Owner? && f.Owner?) || (e.Location? && f.Location?) ||
    (e.Date? && f.Date?) || (e.Status? && f.Status?)
  }

  predicate Holds(wo: WorkOrderInfo, e: WorkOrderEdit)
  {
    match e
    case Number(v) => wo.workOrderNumber == v
    case Owner(v) => wo.owner == v
    case Location(v) => wo.location == v
    case Date(v) => wo.date == v
    case Status(v) => wo.status == Some(v)
  }

  /** `{ ...wo, field: value }`: the edited field holds the new value, the
      rest (id and notes included) is as before. */
  function ApplyEdit(wo: WorkOrderInfo, e: WorkOrderEdit): (r: WorkOrderInfo)
    ensures Holds(r, e)
    ensures r.id == wo.id && r.notes == wo.notes
    ensures forall f :: !SameField(e, f) ==> (Holds(r, f) <==> Holds(wo, f))
  {
    match e
    case Number(v) => wo.(workOrderNumber := v)
    case Owner(v) => wo.(owner := v)
    case Location(v) => wo.(location := v)
    case Date(v) => wo.(date := v)
    case Status(v) => wo.(status := Some(v))
  }

  function UpdateOrders(os: seq<WorkOrderInfo>, id: int, e: WorkOrderEdit): (r: seq<WorkOrderInfo>)
    ensures |r| == |os|
    ensures forall i :: 0 <= i < |os| ==> r[i] == if os[i].id == id then ApplyEdit(os[i], e) else os[i]
  {
    seq(|os|, i requires 0 <= i < |os| => if os[i].id == id then ApplyEdit(os[i], e) else os[i])
  }

  /** Updates keep length, order and ids; an unknown id changes nothing. */
  lemma UpdateKeepsIds(os: seq<WorkOrderInfo>, id: int, e: WorkOrderEdit)
    ensures forall i :: 0 <= i < |os| ==> UpdateOrders(os, id, e)[i].id == os[i].id
    ensures (forall i :: 0 <= i < |os| ==> os[i].id != id) ==> UpdateOrders(os, id, e) == os
  {
  }

  class WorkOrderStore {
    var workOrders: seq<WorkOrderInfo>
    const counter: WorkOrdersApi.WorkOrderCounter

    /** Every held id is below the counter, so the next created id is new. */
    ghost predicate Valid()
      reads this, counter
    {
      forall i :: 0 <= i < |workOrders| ==> workOrders[i].id < counter.nextId
    }

    /** Initial state from `getAll`. */
    constructor (counter: WorkOrdersApi.WorkOrderCounter, stored: WorkOrdersApi.StoredOrders)
      modifies counter
      ensures this.counter == counter
      ensures stored.Orders? ==> workOrders == stored.orders
      ensures !stored.Orders? ==> workOrders == []
      ensures Valid()
    {
      this.counter := counter;
      var orders := counter.GetAll(stored);
      workOrders := orders;
    }

    /** `createWorkOrder`: append a record with a fresh id and return that id. */
    method CreateWorkOrder(number: string, owner: string, location: string, date: string) returns (id: int)
      requires Valid()
      modifies this, counter
      ensures Valid()
      ensures workOrders == old(workOrders) + [WorkOrdersApi.NewWorkOrder(old(counter.nextId), number, owner, location, date)]
      ensures id == old(counter.nextId)
      ensures forall i :: 0 <= i < |old(workOrders)| ==> old(workOrders)[i].id < id
    {
      var wo := counter.Create(number, owner, location, date);
      workOrders := workOrders + [wo];
      id := wo.id;
    }

    method Update(id: int, e: WorkOrderEdit)
      requires Valid()
      modifies this
      ensures Valid()
      ensures workOrders == UpdateOrders(old(workOrders), id, e)
    {
      workOrders := UpdateOrders(workOrders, id, e);
    }

    method UpdateWorkOrderNumber(id: int, number: string)
      requires Valid()
      modifies this
      ensures Valid() && workOrders == UpdateOrders(old(workOrders), id, Number(number))
    {
      Update(id, Number(number));
    }

    method UpdateOwner(id: int, owner: string)
      requires Valid()
      modifies this
      ensures Valid() && workOrders == UpdateOrders(old(workOrders), id, Owner(owner))
    {
      Update(id, Owner(owner));
    }

    method UpdateWorkOrderLocation(id: int, location: string)
      requires Valid()
      modifies this
      ensures Valid() && workOrders == UpdateOrders(old(workOrders), id, Location(location))
    {
      Update(id, Location(location));
    }

    method UpdateWorkOrderDate(id: int, date: string)
      requires Valid()
      modifies this
      ensures Valid() && workOrders == UpdateOrders(old(workOrders), id, Date(date))
    {
      Update(id, Date(date));
    }

    method UpdateWorkOrderStatus(id: int, status: string)
      requires Valid()
      modifies this
      ensures Valid() && workOrders == UpdateOrders(old(workOrders), id, Status(status))
    {
      Update(id, Status(status));
    }

    /** `deleteWorkOrder`: a plain filter; teams that point at the order are
        not touched. */
    method DeleteWorkOrder(id: int)
      requires Valid()
      modifies this
      ensures Valid()
      ensures workOrders == WorkOrdersApi.Delete(id, old(workOrders))
    {
      var before := workOrders;
      workOrders := WorkOrdersApi.Delete(id, workOrders);
      forall i | 0 <= i < |workOrders| ensures workOrders[i].id < counter.nextId {
        assert workOrders[i] in multiset(before);
      }
    }
  }
}
