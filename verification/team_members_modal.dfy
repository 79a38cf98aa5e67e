/** The members dialog of a team
    (src/features/teams/components/TeamMembersModal.tsx): leader-first
    ordering, removal and the tasks field. Its drop zone runs the same
    handler as the team card (TeamCard.DropCalls). */
module TeamMembersModal {
  import opened Records
  import Seqs
  import TeamCard
  import TeamHooks
  import PersonnelHooks

  /** `team.members.sort(...)` with the leader comparator: the members named
      `team.teamLeader` first, everything else in list order. */
  method SortMembers(members: array<Personnel>, team: TeamInfo)
    modifies members
    ensures members[..] == Seqs.GroupFirst(old(members[..]), TeamCard.NamedFn(team.teamLeader))
  {
    Seqs.InsertionSort(members, Seqs.GroupLe(TeamCard.NamedFn(team.teamLeader)));
    Seqs.StableSortIsGroupFirst(old(members[..]), TeamCard.NamedFn(team.teamLeader));
  }

  /** The remove button asks for a move to no team. */
  function RemoveFromTeam(personId: int): (call: TeamCard.Call)
    ensures call.PersonMove? && call.personId == personId && call.target.None?
  {
    TeamCard.PersonMove(personId, None)
  }

  /** Carried out by `assignToTeam`, a removal unassigns exactly the persons
      with that id and changes nothing else. */
  lemma RemoveUnassigns(ps: seq<Personnel>, personId: int)
    ensures var r := PersonnelHooks.AssignTeam(ps, personId, RemoveFromTeam(personId).target);
      |r| == |ps| &&
      forall i :: 0 <= i < |ps| ==>
        if ps[i].id == personId then r[i] == ps[i].(teamId := None) else r[i] == ps[i]
  {
  }

  class ModalState {
    var tasks: string

    constructor (team: TeamInfo)
      ensures tasks == OrElse(team.tasks, "")
    {
      tasks := OrElse(team.tasks, "");
    }

    /** Leaving the tasks field reports its text for this team. */
    method HandleTasksBlur(teamId: int) returns (call: TeamCard.Call)
      ensures call == TeamCard.TeamUpdate(teamId, TeamHooks.Tasks(tasks))
    {
      call := TeamCard.TeamUpdate(teamId, TeamHooks.Tasks(tasks));
    }
  }
}
