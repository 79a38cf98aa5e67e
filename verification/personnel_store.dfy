/** The personnel list state and its four operations
    (src/features/personnel/hooks/usePersonnel.ts). */
module PersonnelHooks {
  import opened Records
  import opened Seqs
  import Text
  import PersonnelApi

  /** The order `a.name.localeCompare(b.name)` sorts by. */
  predicate NameLe(a: Personnel, b: Personnel)
  {
    Text.LexLe(a.name, b.name)
  }

  lemma NameOrder()
    ensures Total(NameLe) && Transitive(NameLe)
  {
    forall a: Personnel, b: Personnel ensures NameLe(a, b) || NameLe(b, a) {
      Text.LexTotal(a.name, b.name);
    }
    forall a: Personnel, b: Personnel, c: Personnel | NameLe(a, b) && NameLe(b, c)
      ensures NameLe(a, c)
    {
      Text.LexTransitive(a.name, b.name, c.name);
    }
  }

  predicate SortedByName(ps: seq<Personnel>)
  {
    SortedBy(ps, NameLe)
  }

  /** `.sort((a, b) => a.name.localeCompare(b.name))`. */
  function SortByName(ps: seq<Personnel>): (r: seq<Personnel>)
    ensures |r| == |ps| && multiset(r) == multiset(ps)
    ensures SortedByName(r)
  {
    NameOrder();
    SortBy(ps, NameLe)
  }

  /** The `map` of `updatePersonnel`: the record with `up`'s id becomes `up`. */
  function ReplaceById(ps: seq<Personnel>, up: Personnel): (r: seq<Personnel>)
    ensures |r| == |ps|
    ensures forall i :: 0 <= i < |ps| ==> r[i] == if ps[i].id == up.id then up else ps[i]
  {
    seq(|ps|, i requires 0 <= i < |ps| =>
      if ps[i].id == up.id then PersonnelApi.Update(up) else ps[i])
  }

  /** The `map` of `assignToTeam`: the records with id `pid` get team `t`. */
  function AssignTeam(ps: seq<Personnel>, pid: int, t: Option<int>): (r: seq<Personnel>)
    ensures |r| == |ps|
    ensures forall i :: 0 <= i < |ps| ==> r[i] == if ps[i].id == pid then ps[i].(teamId := t) else ps[i]
  {
    seq(|ps|, i requires 0 <= i < |ps| =>
      if ps[i].id == pid then ps[i].(teamId := t) else ps[i])
  }

  /** Only `teamId` of the matching records changes; every other field and
      every other record stays, and the team id is stored unchecked. */
  lemma AssignOnlyTeamId(ps: seq<Personnel>, pid: int, t: Option<int>)
    ensures var r := AssignTeam(ps, pid, t);
      forall i :: 0 <= i < |ps| ==>
        r[i].(teamId := ps[i].teamId) == ps[i] &&
        r[i].teamId == (if ps[i].id == pid then t else ps[i].teamId)
  {
  }

  /** Assignment keeps length and order, so a name-sorted list stays sorted. */
  lemma AssignKeepsSorted(ps: seq<Personnel>, pid: int, t: Option<int>)
    requires SortedByName(ps)
    ensures SortedByName(AssignTeam(ps, pid, t))
  {
    var r := AssignTeam(ps, pid, t);
    forall i | 0 < i < |r| ensures NameLe(r[i - 1], r[i]) {
      assert r[i - 1].name == ps[i - 1].name && r[i].name == ps[i].name;
    }
  }

  /** Deletion keeps a name-sorted list sorted. */
  lemma DeleteKeepsSorted(ps: seq<Personnel>, id: int)
    requires SortedByName(ps)
    ensures SortedByName(PersonnelApi.Delete(id, ps))
  {
    NameOrder();
    FilterSorted(ps, PersonnelApi.NotId(id), NameLe);
  }

  /** An update whose id matches no record only re-sorts the list. */
  lemma UpdateUnknownId(ps: seq<Personnel>, up: Personnel)
    requires forall i :: 0 <= i < |ps| ==> ps[i].id != up.id
    ensures multiset(SortByName(ReplaceById(ps, up))) == multiset(ps)
  {
    assert ReplaceById(ps, up) == ps;
  }

  class PersonnelStore {
    var personnel: seq<Personnel>

    /** The list as loaded from storage (or the fixture when nothing is stored). */
    constructor (loaded: seq<Personnel>)
      ensures personnel == loaded
    {
      personnel := loaded;
    }

    /** `addPersonnel`: one more record, the new one unassigned, sorted by name. */
    method AddPersonnel(np: NewPerson, now: int)
      modifies this
      ensures personnel == SortByName(old(personnel) + [PersonnelApi.Add(np, now)])
      ensures |personnel| == |old(personnel)| + 1 && SortedByName(personnel)
      ensures multiset(personnel) == multiset(old(personnel)) + multiset{PersonnelApi.Add(np, now)}
    {
      var person := PersonnelApi.Add(np, now);
      personnel := SortByName(personnel + [person]);
    }

    /** `updatePersonnel`: replace the record with the same id, then re-sort. */
    method UpdatePersonnel(up: Personnel)
      modifies this
      ensures personnel == SortByName(ReplaceById(old(personnel), up))
      ensures |personnel| == |old(personnel)| && SortedByName(personnel)
    {
      personnel := SortByName(ReplaceById(personnel, up));
    }

    /** `deletePersonnel`: drop exactly the records with that id. */
    method DeletePersonnel(id: int)
      modifies this
      ensures personnel == PersonnelApi.Delete(id, old(personnel))
      ensures old(SortedByName(personnel)) ==> SortedByName(personnel)
    {
      if SortedByName(personnel) {
        DeleteKeepsSorted(personnel, id);
      }
      personnel := PersonnelApi.Delete(id, personnel);
    }

    /** `assignToTeam`: set `teamId` on the matching records, nothing else. */
    method AssignToTeam(pid: int, t: Option<int>)
      modifies this
      ensures personnel == AssignTeam(old(personnel), pid, t)
      ensures old(SortedByName(personnel)) ==> SortedByName(personnel)
    {
      if SortedByName(personnel) {
        AssignKeepsSorted(personnel, pid, t);
      }
      personnel := AssignTeam(personnel, pid, t);
    }
  }
}
