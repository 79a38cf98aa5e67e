/** The create-team form (src/features/teams/components/CreateTeamModal.tsx;
    components/CreateTeamModal.tsx, the older revision, has the same
    logic): the selection toggle, the submit guard and the reset. */
module CreateTeamModal {
  import opened Records
  import Seqs

  /** A JavaScript `Set` of ids, read in insertion order. */
  predicate NoDuplicates(s: seq<int>)
  {
    forall i, j :: 0 <= i < j < |s| ==> s[i] != s[j]
  }

  function NotEq(id: int): int -> bool
  {
    (x: int) => x != id
  }

  lemma {:induction false} FilterNoDuplicates(s: seq<int>, f: int -> bool)
    ensures NoDuplicates(s) ==> NoDuplicates(Seqs.Filter(s, f))
  {
    if s != [] && NoDuplicates(s) {
      FilterNoDuplicates(s[1..], f);
      var rest := Seqs.Filter(s[1..], f);
      Seqs.FilterMembers(s[1..], f);
      assert s[0] !in s[1..];
      assert s[0] !in rest;
    }
  }

  /** `handleSelectPersonnel`: a selected id is removed, any other id is
      added at the end. */
  function Toggle(sel: seq<int>, id: int): (r: seq<int>)
    ensures forall x :: x in r <==> if x == id then id !in sel else x in sel
    ensures NoDuplicates(sel) ==> NoDuplicates(r)
  {
    if id in sel then
      Seqs.FilterMembers(sel, NotEq(id));
      FilterNoDuplicates(sel, NotEq(id));
      Seqs.Filter(sel, NotEq(id))
    else sel + [id]
  }

  /** Toggling an id twice gives back the same set of ids; when the id was
      not selected, the very same list. */
  lemma ToggleTwice(sel: seq<int>, id: int)
    requires NoDuplicates(sel)
    ensures forall x :: x in Toggle(Toggle(sel, id), id) <==> x in sel
    ensures id !in sel ==> Toggle(Toggle(sel, id), id) == sel
  {
    if id !in sel {
      var once := sel + [id];
      Seqs.FilterSnoc(once, |sel|, NotEq(id));
      assert once[..|sel|] == sel && once[..|sel| + 1] == once;
      forall i | 0 <= i < |sel| ensures NotEq(id)(sel[i]) {
        assert sel[i] in sel;
      }
      Seqs.FilterKeepsAll(sel, NotEq(id));
    }
  }

  /** The arguments of `onCreateTeam`: the name and `Array.from(set)`. */
  datatype Request = Request(teamName: string, memberIds: seq<int>)

  class FormState {
    var teamName: string
    var selected: seq<int>

    ghost predicate Valid()
      reads this
    {
      NoDuplicates(selected)
    }

    constructor ()
      ensures teamName == "" && selected == [] && Valid()
    {
      teamName := "";
      selected := [];
    }

    /** Copies the set, then deletes or adds the id. */
    method HandleSelectPersonnel(id: int)
      requires Valid()
      modifies this
      ensures Valid()
      ensures selected == Toggle(old(selected), id) && teamName == old(teamName)
    {
      // Names Toggle(selected, id) so that its contract (the result stays
      // duplicate-free) is in scope for Valid() below.
      ghost var toggled := Toggle(selected, id);
      var newSelection := selected;
      if id in newSelection {
        newSelection := Seqs.Filter(newSelection, NotEq(id));
      } else {
        newSelection := newSelection + [id];
      }
      selected := newSelection;
    }

    /** With a name the request goes out, carrying each selected id once,
        and the form is cleared (and closed); without one nothing happens. */
    method HandleSubmit() returns (request: Option<Request>)
      requires Valid()
      modifies this
      ensures Valid()
      ensures request.Some? <==> old(teamName) != ""
      ensures request.Some? ==>
        request.value == Request(old(teamName), old(selected)) && NoDuplicates(request.value.memberIds) &&
        teamName == "" && selected == []
      ensures request.None? ==> teamName == old(teamName) && selected == old(selected)
    {
      if teamName != "" {
        request := Some(Request(teamName, selected));
        teamName := "";
        selected := [];
      } else {
        request := None;
      }
    }

    method HandleClose()
      modifies this
      ensures teamName == "" && selected == [] && Valid()
    {
      teamName := "";
      selected := [];
    }
  }
}
