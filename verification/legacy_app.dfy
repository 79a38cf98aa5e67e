/** The older single-file revision of the app shell (App.tsx): its own role
    labels and search, and handlers that replace the two lists directly. */
module LegacyApp {
  import opened Records
  import Seqs
  import Text
  import PersonnelApi
  import PersonnelHooks
  import PersonnelFilters
  import PersonnelHelpers
  import TeamHooks
  import Projection
  import AppShell
  import TeamDragDrop

  /** `getRoleName` of this revision, which knows a green safety helmet. */
  function LegacyRoleName(p: Personnel): (r: string)
    ensures p.helmetColor == Blue ==> r == p.discipline + " Foreman"
    ensures p.helmetColor == Green ==> r == "Safety"
    ensures p.helmetColor != Blue && p.helmetColor != Green ==> r == p.discipline
  {
    if p.helmetColor == Blue then p.discipline + " Foreman"
    else if p.helmetColor == Green then "Safety"
    else p.discipline
  }

  /** Both revisions label the white and blue helmets alike, and they
      differ on a bass helmet whose discipline is not `Bass`. */
  lemma RoleNameRevisions(p: Personnel)
    ensures p.helmetColor == White || p.helmetColor == Blue ==>
      LegacyRoleName(p) == PersonnelHelpers.RoleName(p)
    ensures p.helmetColor == Bass && p.discipline != "Bass" ==>
      LegacyRoleName(p) != PersonnelHelpers.RoleName(p)
  {
  }

  /** The filter callback as written: `p.phone.includes(...)` is reached
      only when the name does not match, and then a null phone throws
      (`None`). A result that is present agrees with the null-safe test. */
  function LegacyMatches(p: Personnel, search: string, disciplineFilter: string, helmetFilter: string): (r: Option<bool>)
    ensures r.None? <==> !Text.Contains(Text.Lower(p.name), Text.Lower(search)) && p.phone.None?
    ensures r.Some? ==> r.value == Keep(search, disciplineFilter, helmetFilter)(p)
  {
    if Text.Contains(Text.Lower(p.name), Text.Lower(search)) then
      Some(PersonnelFilters.DisciplineOk(p, disciplineFilter) && PersonnelFilters.HelmetOk(p, helmetFilter))
    else if p.phone.None? then None
    else
      Some(PersonnelFilters.SearchMatches(p, search, LegacyRoleName(p)) &&
        PersonnelFilters.DisciplineOk(p, disciplineFilter) && PersonnelFilters.HelmetOk(p, helmetFilter))
  }

  /** The intended test of this revision: null-safe phone search with its
      own role labels. */
  function Keep(search: string, disciplineFilter: string, helmetFilter: string): Personnel -> bool
  {
    (p: Personnel) =>
      PersonnelFilters.SearchMatches(p, search, LegacyRoleName(p)) &&
      PersonnelFilters.DisciplineOk(p, disciplineFilter) && PersonnelFilters.HelmetOk(p, helmetFilter)
  }

  predicate Throws(p: Personnel, search: string)
  {
    !Text.Contains(Text.Lower(p.name), Text.Lower(search)) && p.phone.None?
  }

  /** `personnel.filter(...)` as written: the first throwing callback aborts
      the whole computation. */
  function FilterAsWritten(ps: seq<Personnel>, search: string, disciplineFilter: string, helmetFilter: string): (r: Option<seq<Personnel>>)
    ensures r.None? <==> exists i :: 0 <= i < |ps| && Throws(ps[i], search)
    ensures r.Some? ==> r.value == Seqs.Filter(ps, Keep(search, disciplineFilter, helmetFilter))
  {
    if ps == [] then Some([])
    else
      var rest := FilterAsWritten(ps[1..], search, disciplineFilter, helmetFilter);
      ThrowsSomewhere(ps, search);
      match LegacyMatches(ps[0], search, disciplineFilter, helmetFilter)
      case None => None
      case Some(b) =>
        if rest.None? then None
        else Some((if b then [ps[0]] else []) + rest.value)
  }

  /** Some person throws exactly when the first one does or a later one
      does. */
  lemma ThrowsSomewhere(ps: seq<Personnel>, search: string)
    requires ps != []
    ensures (exists i :: 0 <= i < |ps| && Throws(ps[i], search)) <==>
      Throws(ps[0], search) || exists i :: 0 <= i < |ps[1..]| && Throws(ps[1..][i], search)
  {
    if exists i :: 0 <= i < |ps| && Throws(ps[i], search) {
      var i :| 0 <= i < |ps| && Throws(ps[i], search);
      if i > 0 {
        assert ps[1..][i - 1] == ps[i];
      }
    }
  }

  /** `filteredPersonnel` of this revision as written: absent when some
      person without a phone fails the name test. */
  function FilteredPersonnelAsWritten(ps: seq<Personnel>, search: string, disciplineFilter: string, helmetFilter: string): (r: Option<seq<Personnel>>)
    ensures r.None? <==> exists i :: 0 <= i < |ps| && Throws(ps[i], search)
    ensures r.Some? ==> r.value == FilteredPersonnel(ps, search, disciplineFilter, helmetFilter)
  {
    var f := FilterAsWritten(ps, search, disciplineFilter, helmetFilter);
    if f.None? then None else Some(PersonnelHooks.SortByName(f.value))
  }

  /** A roster with one person who has no phone, searched for a digit,
      makes the view throw instead of listing nobody. */
  lemma NullPhoneThrows()
    ensures var ps := [Personnel(1, "Ann", None, None, "Rigger", White)];
      FilteredPersonnelAsWritten(ps, "5", "All", "All").None? &&
      FilteredPersonnel(ps, "5", "All", "All") == []
  {
    var p := Personnel(1, "Ann", None, None, "Rigger", White);
    var ps := [p];
    assert Text.Lower("Ann") == "ann";
    assert Text.Lower("5") == "5";
    assert !Text.Contains("ann", "5") by {
      forall i | 0 <= i <= 2 ensures !Text.MatchesAt("ann", "5", i) {
        assert "ann"[i..i + 1] == ["ann"[i]];
      }
    }
    assert Throws(ps[0], "5");
    assert Text.Lower("Rigger") == "rigger";
    assert !Text.Contains("rigger", "5") by {
      forall i | 0 <= i <= 5 ensures !Text.MatchesAt("rigger", "5", i) {
        assert "rigger"[i..i + 1] == ["rigger"[i]];
      }
    }
    assert !Keep("5", "All", "All")(p);
    var filtered := Seqs.Filter(ps, Keep("5", "All", "All"));
    assert filtered == [];
  }

  /** The null-safe view of this revision: total, sorted by name, listing
      exactly the matching persons. */
  function FilteredPersonnel(ps: seq<Personnel>, search: string, disciplineFilter: string, helmetFilter: string): (r: seq<Personnel>)
    ensures forall x ::
      multiset(r)[x] == if Keep(search, disciplineFilter, helmetFilter)(x) then multiset(ps)[x] else 0
    ensures PersonnelHooks.SortedByName(r)
  {
    PersonnelHooks.SortByName(Seqs.Filter(ps, Keep(search, disciplineFilter, helmetFilter)))
  }

  /** In the null-safe view a person without a phone is listed only when
      the search finds their name, discipline or role. */
  lemma ListedWithoutPhone(ps: seq<Personnel>, search: string, disciplineFilter: string, helmetFilter: string, x: Personnel)
    requires x in FilteredPersonnel(ps, search, disciplineFilter, helmetFilter) && x.phone.None?
    ensures x in ps
    ensures Text.Contains(Text.Lower(x.name), Text.Lower(search)) ||
      Text.Contains(Text.Lower(x.discipline), Text.Lower(search)) ||
      Text.Contains(Text.Lower(LegacyRoleName(x)), Text.Lower(search))
  {
    var r := FilteredPersonnel(ps, search, disciplineFilter, helmetFilter);
    assert x in multiset(r);
  }

  /** A team record as this revision creates it: id and name only. */
  function NewTeamInfo(id: int, name: string): (t: TeamInfo)
    ensures t.id == id && t.name == name
    ensures t.date.None? && t.tasks.None? && t.assignedTo.None? && t.teamLeader.None?
    ensures t.location.None? && t.jobCode.None? && t.workOrder.None? && t.status.None?
    ensures t.notes.None? && t.workOrderId.None?
  {
    TeamInfo(id, name, None, None, None, None, None, None, None, None, None, None)
  }

  /** The guard of `handleSaveTeamName`: a truthy edit id and a name that
      is not all white space. */
  predicate SaveApplies(editingTeamId: Option<int>, editingTeamName: string)
  {
    editingTeamId.Some? && editingTeamId.value != 0 && Text.Trim(editingTeamName) != ""
  }

  /** The team list `handleSaveTeamName` leaves: renamed when the guard
      holds, as it was otherwise. */
  function SaveTeamName(ts: seq<TeamInfo>, editingTeamId: Option<int>, editingTeamName: string): (r: seq<TeamInfo>)
    ensures |r| == |ts|
  {
    if SaveApplies(editingTeamId, editingTeamName)
    then TeamHooks.UpdateTeams(ts, editingTeamId.value, TeamHooks.Name(Text.Trim(editingTeamName)))
    else ts
  }

  class LegacyShell {
    var personnel: seq<Personnel>
    var teamInfo: seq<TeamInfo>
    var editingTeamId: Option<int>
    var editingTeamName: string
    const drag: TeamDragDrop.DragState

    /** Starts from the fixture lists, nothing being edited. */
    constructor (personnel: seq<Personnel>, teamInfo: seq<TeamInfo>, drag: TeamDragDrop.DragState)
      ensures this.personnel == personnel && this.teamInfo == teamInfo && this.drag == drag
      ensures editingTeamId.None? && editingTeamName == ""
    {
      this.personnel := personnel;
      this.teamInfo := teamInfo;
      this.drag := drag;
      editingTeamId := None;
      editingTeamName := "";
    }

    /** The `teams` and `unassignedPersonnel` values of this revision are
        computed by the same code as the current one. */
    method Teams() returns (teams: seq<Team>, unassigned: seq<Personnel>)
      ensures teams == Projection.Teams(teamInfo, personnel)
      ensures unassigned == Projection.Unassigned(personnel)
    {
      teams := Projection.ProjectTeams(teamInfo, personnel);
      unassigned := Projection.Unassigned(personnel);
    }

    /** `handleAddPersonnel`: append the person unassigned, sorted by name. */
    method HandleAddPersonnel(np: NewPerson, now: int)
      modifies this
      ensures personnel == PersonnelHooks.SortByName(old(personnel) + [PersonnelApi.Add(np, now)])
      ensures multiset(personnel) == multiset(old(personnel)) + multiset{PersonnelApi.Add(np, now)}
      ensures PersonnelHooks.SortedByName(personnel)
      ensures teamInfo == old(teamInfo) && editingTeamId == old(editingTeamId) && editingTeamName == old(editingTeamName)
    {
      personnel := PersonnelHooks.SortByName(personnel + [PersonnelApi.Add(np, now)]);
    }

    /** `handleCreateTeam`: one id-and-name team, and exactly the listed ids
        move to it, whatever team they were on. */
    method HandleCreateTeam(name: string, memberIds: seq<int>, now: int)
      modifies this
      ensures teamInfo == old(teamInfo) + [NewTeamInfo(now, name)]
      ensures personnel == AppShell.Reassign(old(personnel), AppShell.IdSet(memberIds), Some(now))
      ensures editingTeamId == old(editingTeamId) && editingTeamName == old(editingTeamName)
    {
      teamInfo := teamInfo + [NewTeamInfo(now, name)];
      personnel := AppShell.Reassign(personnel, AppShell.IdSet(memberIds), Some(now));
    }

    method HandleDragStart(personId: int)
      modifies drag
      ensures drag.draggingPersonId == Some(personId)
      ensures drag.dragOverTeamId == old(drag.dragOverTeamId)
    {
      drag.HandleDragStart(personId);
    }

    method HandleDragEnter(zone: Option<DropZone>)
      modifies drag
      ensures drag.dragOverTeamId == zone
      ensures drag.draggingPersonId == old(drag.draggingPersonId)
    {
      drag.HandleDragEnter(zone);
    }

    method HandleDragLeave()
      modifies drag
      ensures drag.dragOverTeamId.None?
      ensures drag.draggingPersonId == old(drag.draggingPersonId)
    {
      drag.HandleDragLeave();
    }

    method HandleDragEnd()
      modifies drag
      ensures drag.Idle()
    {
      drag.HandleDragEnd();
    }

    /** `handleDrop`: a payload that parses to a truthy id moves that person;
        `NaN` and 0 move nobody. The drag ends either way. */
    method HandleDrop(personId: Parsed, target: Option<int>)
      modifies this, drag
      ensures personnel ==
        if Truthy(personId) then PersonnelHooks.AssignTeam(old(personnel), personId.n, target)
        else old(personnel)
      ensures teamInfo == old(teamInfo) && editingTeamId == old(editingTeamId) && editingTeamName == old(editingTeamName)
      ensures drag.Idle()
    {
      if Truthy(personId) {
        personnel := PersonnelHooks.AssignTeam(personnel, personId.n, target);
      }
      HandleDragEnd();
    }

    /** The drop handler of a team's drop zone: the person is taken from the
        drag state, not from the payload; a truthy id moves to the zone's
        team and stops being dragged, while the hover marker stays set. */
    method HandleTeamZoneDrop(target: Option<int>)
      modifies this, drag
      ensures var dragged := old(drag.draggingPersonId);
        if dragged.Some? && dragged.value != 0 then
          personnel == PersonnelHooks.AssignTeam(old(personnel), dragged.value, target) &&
          drag.draggingPersonId.None?
        else
          personnel == old(personnel) && drag.draggingPersonId == dragged
      ensures drag.dragOverTeamId == old(drag.dragOverTeamId)
      ensures teamInfo == old(teamInfo) && editingTeamId == old(editingTeamId) && editingTeamName == old(editingTeamName)
    {
      var personId := drag.draggingPersonId;
      if personId.Some? && personId.value != 0 {
        HandlePersonMove(personId.value, target);
        drag.draggingPersonId := None;
      }
    }

    /** `onNameChange`: the edit box's text replaces the name being edited. */
    method HandleNameChange(name: string)
      modifies this
      ensures editingTeamName == name && editingTeamId == old(editingTeamId)
      ensures personnel == old(personnel) && teamInfo == old(teamInfo)
    {
      editingTeamName := name;
    }

    /** `handlePersonMove`: only the matching person's team changes. */
    method HandlePersonMove(personId: int, target: Option<int>)
      modifies this
      ensures personnel == PersonnelHooks.AssignTeam(old(personnel), personId, target)
      ensures teamInfo == old(teamInfo) && editingTeamId == old(editingTeamId) && editingTeamName == old(editingTeamName)
    {
      personnel := PersonnelHooks.AssignTeam(personnel, personId, target);
    }

    method HandleStartEditTeam(teamId: int, currentName: string)
      modifies this
      ensures editingTeamId == Some(teamId) && editingTeamName == currentName
      ensures personnel == old(personnel) && teamInfo == old(teamInfo)
    {
      editingTeamId := Some(teamId);
      editingTeamName := currentName;
    }

    /** `handleSaveTeamName`: when SaveApplies, rename that team to the trimmed name and leave
        edit mode; otherwise change nothing. */
    method HandleSaveTeamName()
      modifies this
      ensures teamInfo == SaveTeamName(old(teamInfo), old(editingTeamId), old(editingTeamName))
      ensures SaveApplies(old(editingTeamId), old(editingTeamName)) ==> editingTeamId.None? && editingTeamName == ""
      ensures !SaveApplies(old(editingTeamId), old(editingTeamName)) ==>
        editingTeamId == old(editingTeamId) && editingTeamName == old(editingTeamName)
      ensures personnel == old(personnel)
    {
      if SaveApplies(editingTeamId, editingTeamName) {
        teamInfo := SaveTeamName(teamInfo, editingTeamId, editingTeamName);
        editingTeamId, editingTeamName := None, "";
      }
    }

    method HandleCancelEditTeam()
      modifies this
      ensures editingTeamId.None? && editingTeamName == ""
      ensures personnel == old(personnel) && teamInfo == old(teamInfo)
    {
      editingTeamId := None;
      editingTeamName := "";
    }
  }

  /** Saving renames exactly the teams with the edited id, to the trimmed
      text, which is never empty and has no surrounding white space; with
      the guard false nothing changes. */
  lemma SavedNameIsTrimmed(ts: seq<TeamInfo>, editingTeamId: Option<int>, editingTeamName: string)
    ensures !SaveApplies(editingTeamId, editingTeamName) ==> SaveTeamName(ts, editingTeamId, editingTeamName) == ts
    ensures SaveApplies(editingTeamId, editingTeamName) ==>
      var r := SaveTeamName(ts, editingTeamId, editingTeamName);
      var name := Text.Trim(editingTeamName);
      name != "" && !Text.IsSpace(name[0]) && !Text.IsSpace(name[|name| - 1]) &&
      forall i :: 0 <= i < |ts| ==>
        r[i] == if ts[i].id == editingTeamId.value then ts[i].(name := name) else ts[i]
  {
    if SaveApplies(editingTeamId, editingTeamName) {
      var r := SaveTeamName(ts, editingTeamId, editingTeamName);
      var name := Text.Trim(editingTeamName);
      Text.TrimShape(editingTeamName);
      forall i | 0 <= i < |ts| && ts[i].id == editingTeamId.value ensures r[i] == ts[i].(name := name) {
        assert TeamHooks.Holds(r[i], TeamHooks.Name(name));
      }
    }
  }
}
