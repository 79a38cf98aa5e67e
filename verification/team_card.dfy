/** The team card of the current revision
    (src/features/teams/components/TeamCard.tsx): member ordering, the
    leader choices, and the edit, assignment and drop handlers, each of
    which reports to the parent through the card's callbacks. */
module TeamCard {
  import opened Records
  import Seqs
  import Text
  import TeamHooks

  /** A callback invocation: `onUpdateName`, `onTasksChange` and
      `onAssignedToChange` as the team edit they request, `onPersonMove`,
      and `onDragEnd`. */
  datatype Call =
    | TeamUpdate(teamId: int, edit: TeamHooks.TeamEdit)
    | PersonMove(personId: int, target: Option<int>)
    | DragEnd

  /** `member.name === name`; a null or missing name matches nobody. */
  predicate Named(p: Personnel, name: Option<string>)
  {
    name == Some(p.name)
  }

  function NamedFn(name: Option<string>): Personnel -> bool
  {
    (p: Personnel) => Named(p, name)
  }

  /** `team.members.sort(...)` with the assigned-person comparator: the
      stable in-place sort leaves the members named `team.assignedTo` in
      front, everything else in list order (Seqs.GroupFirst). */
  method SortMembers(members: array<Personnel>, team: TeamInfo)
    modifies members
    ensures members[..] == Seqs.GroupFirst(old(members[..]), NamedFn(team.assignedTo))
  {
    Seqs.InsertionSort(members, Seqs.GroupLe(NamedFn(team.assignedTo)));
    Seqs.StableSortIsGroupFirst(old(members[..]), NamedFn(team.assignedTo));
  }

  /** Helmets whose wearers may lead a team: foremen and bass. */
  predicate LeadsTeams(h: Helmet)
  {
    h == Blue || h == Bass
  }

  function LeadsTeamsFn(): Personnel -> bool
  {
    (p: Personnel) => LeadsTeams(p.helmetColor)
  }

  /** The persons offered in the assigned-to dropdown: exactly the blue and
      bass helmets, each as often as in the roster. */
  function LeaderCandidates(ps: seq<Personnel>): (r: seq<Personnel>)
    ensures forall p :: multiset(r)[p] == if LeadsTeams(p.helmetColor) then multiset(ps)[p] else 0
    ensures forall i :: 0 <= i < |r| ==> LeadsTeams(r[i].helmetColor)
  {
    Seqs.Filter(ps, LeadsTeamsFn())
  }

  /** The drop handler of the members zone: a truthy parsed id is moved to
      this team, and the drag ends in every case. */
  function DropCalls(personId: Parsed, teamId: int): (calls: seq<Call>)
    ensures |calls| >= 1 && calls[|calls| - 1] == DragEnd
    ensures Truthy(personId) <==> |calls| == 2
    ensures Truthy(personId) ==> calls[0] == PersonMove(personId.n, Some(teamId))
  {
    if Truthy(personId) then [PersonMove(personId.n, Some(teamId)), DragEnd] else [DragEnd]
  }

  /** What the assignment handlers report is what the store then holds:
      the dropdown value read back with `|| ''` is the value chosen. */
  lemma AssignedRoundTrip(t: TeamInfo, value: string)
    ensures OrElse(TeamHooks.ApplyEdit(t, TeamHooks.AssignedTo(NullIfEmpty(value))).assignedTo, "") == value
  {
    NullIfEmptyRoundTrip(value, None);
  }

  /** The card's local state. */
  class CardState {
    var isEditing: bool
    var editingName: string
    var tasks: string
    var assignedTo: string
    var showCustomInput: bool

    constructor (team: TeamInfo)
      ensures !isEditing && editingName == "" && !showCustomInput
      ensures tasks == OrElse(team.tasks, "") && assignedTo == OrElse(team.assignedTo, "")
    {
      isEditing := false;
      editingName := "";
      tasks := OrElse(team.tasks, "");
      assignedTo := OrElse(team.assignedTo, "");
      showCustomInput := false;
    }

    method HandleStartEdit(team: TeamInfo)
      modifies this
      ensures isEditing && editingName == team.name
      ensures tasks == old(tasks) && assignedTo == old(assignedTo) && showCustomInput == old(showCustomInput)
    {
      isEditing := true;
      editingName := team.name;
    }

    /** Saving reports the trimmed name and leaves edit mode, unless the
        name is blank: then nothing is reported and the editor stays open. */
    method HandleSaveEdit(teamId: int) returns (call: Option<Call>)
      modifies this
      ensures call.Some? <==> !Text.AllSpace(old(editingName))
      ensures call.Some? ==> call.value == TeamUpdate(teamId, TeamHooks.Name(Text.Trim(old(editingName)))) && !isEditing
      ensures call.None? ==> isEditing == old(isEditing)
      ensures editingName == old(editingName) && tasks == old(tasks)
      ensures assignedTo == old(assignedTo) && showCustomInput == old(showCustomInput)
    {
      var trimmed := Text.Trim(editingName);
      assert trimmed == "" <==> Text.AllSpace(editingName);
      if trimmed != "" {
        call := Some(TeamUpdate(teamId, TeamHooks.Name(trimmed)));
        isEditing := false;
      } else {
        call := None;
      }
    }

    method HandleCancelEdit()
      modifies this
      ensures !isEditing && editingName == ""
      ensures tasks == old(tasks) && assignedTo == old(assignedTo) && showCustomInput == old(showCustomInput)
    {
      isEditing := false;
      editingName := "";
    }

    method HandleTasksBlur(teamId: int) returns (call: Call)
      ensures call == TeamUpdate(teamId, TeamHooks.Tasks(tasks))
    {
      call := TeamUpdate(teamId, TeamHooks.Tasks(tasks));
    }

    /** The dropdown: the custom entry opens the text input and reports
        nothing; any other choice closes it and reports the choice, the
        empty one as null. */
    method HandleAssignedToChange(teamId: int, value: string) returns (call: Option<Call>)
      modifies this
      ensures value == "__custom__" ==> call.None? && showCustomInput && assignedTo == ""
      ensures value != "__custom__" ==>
        call == Some(TeamUpdate(teamId, TeamHooks.AssignedTo(NullIfEmpty(value)))) &&
        !showCustomInput && assignedTo == value
      ensures isEditing == old(isEditing) && editingName == old(editingName) && tasks == old(tasks)
    {
      if value == "__custom__" {
        showCustomInput := true;
        assignedTo := "";
        call := None;
      } else {
        showCustomInput := false;
        assignedTo := value;
        call := Some(TeamUpdate(teamId, TeamHooks.AssignedTo(NullIfEmpty(value))));
      }
    }

    /** Leaving the custom input reports its text (empty as null) and
        closes the input when it is empty. */
    method HandleCustomAssignedBlur(teamId: int) returns (call: Call)
      modifies this
      ensures call == TeamUpdate(teamId, TeamHooks.AssignedTo(NullIfEmpty(assignedTo)))
      ensures showCustomInput == (old(showCustomInput) && assignedTo != "")
      ensures assignedTo == old(assignedTo) && isEditing == old(isEditing)
      ensures editingName == old(editingName) && tasks == old(tasks)
    {
      call := TeamUpdate(teamId, TeamHooks.AssignedTo(NullIfEmpty(assignedTo)));
      if assignedTo == "" {
        showCustomInput := false;
      }
    }

    /** Enter in the custom input reports its text like leaving it does,
        but keeps the input open whatever it holds. */
    method HandleCustomAssignedEnter(teamId: int) returns (call: Call)
      ensures call.TeamUpdate? && call.teamId == teamId && call.edit.AssignedTo?
      ensures call.edit.assignedTo.None? <==> assignedTo == ""
      ensures call.edit.assignedTo.Some? ==> call.edit.assignedTo.value == assignedTo
    {
      call := TeamUpdate(teamId, TeamHooks.AssignedTo(NullIfEmpty(assignedTo)));
    }
  }
}
