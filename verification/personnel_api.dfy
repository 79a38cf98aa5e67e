/** Record construction and removal for personnel
    (src/features/personnel/api/personnelApi.ts). */
module PersonnelApi {
  import opened Records
  import Seqs

  /** The caller's view of a person: everything but `id` and `teamId`. */
  function Strip(p: Personnel): NewPerson
  {
    NewPerson(p.name, p.phone, p.discipline, p.helmetColor)
  }

  /** `add`: the caller's fields, the clock reading `now` as id, no team. */
  function Add(p: NewPerson, now: int): (r: Personnel)
    ensures r.id == now && r.teamId == None
    ensures Strip(r) == p
  {
    Personnel(now, p.name, p.phone, None, p.discipline, p.helmetColor)
  }

  /** `update` hands its argument back. */
  function Update(p: Personnel): (r: Personnel)
    ensures r == p
  {
    p
  }

  function NotId(id: int): Personnel -> bool
  {
    (p: Personnel) => p.id != id
  }

  /** `delete`: the records whose id differs from `id`, each as often as in
      `all`; nothing is removed when `id` is absent. */
  function Delete(id: int, all: seq<Personnel>): (r: seq<Personnel>)
    ensures forall i :: 0 <= i < |r| ==> r[i].id != id
    ensures forall x :: multiset(r)[x] == if x.id != id then multiset(all)[x] else 0
    ensures (forall i :: 0 <= i < |all| ==> all[i].id != id) ==> r == all
  {
    Seqs.FilterKeepsAll(all, NotId(id));
    Seqs.Filter(all, NotId(id))
  }

  /** `delete` keeps the survivors in their original order. */
  lemma DeleteKeepsOrder(id: int, a: seq<Personnel>, b: seq<Personnel>)
    ensures Delete(id, a + b) == Delete(id, a) + Delete(id, b)
  {
    Seqs.FilterConcat(a, b, NotId(id));
  }
}
