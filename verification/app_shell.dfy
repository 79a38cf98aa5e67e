/** The handlers of the app shell that span both stores (src/App.tsx:190-206,
    345-352), run as the sequence of store calls they issue. */
module AppShell {
  import opened Records
  import PersonnelHooks
  import TeamHooks
  import TeamsApi
  import TeamDragDrop

  /** Ids of the persons of `ps` whose team is `t`. */
  function MemberIds(ps: seq<Personnel>, t: int): (ids: set<int>)
    ensures forall i :: 0 <= i < |ps| && ps[i].teamId == Some(t) ==> ps[i].id in ids
    ensures forall id :: id in ids ==> exists i :: 0 <= i < |ps| && ps[i].teamId == Some(t) && ps[i].id == id
  {
    set i | 0 <= i < |ps| && ps[i].teamId == Some(t) :: ps[i].id
  }

  function IdSet(ids: seq<int>): (r: set<int>)
    ensures forall id :: id in r <==> id in ids
  {
    set id | id in ids
  }

  /** Every record whose id is in `ids` is moved to team `t`: the combined
      effect of one `assignToTeam` call per id. */
  function Reassign(ps: seq<Personnel>, ids: set<int>, t: Option<int>): (r: seq<Personnel>)
    ensures |r| == |ps|
    ensures forall i :: 0 <= i < |ps| ==> r[i] == if ps[i].id in ids then ps[i].(teamId := t) else ps[i]
  {
    seq(|ps|, i requires 0 <= i < |ps| => if ps[i].id in ids then ps[i].(teamId := t) else ps[i])
  }

  /** One more `assignToTeam` call to the same team adds its id to the set. */
  lemma ReassignStep(ps: seq<Personnel>, ids: set<int>, pid: int, t: Option<int>)
    ensures PersonnelHooks.AssignTeam(Reassign(ps, ids, t), pid, t) == Reassign(ps, ids + {pid}, t)
  {
  }

  lemma MemberIdsSnoc(ps: seq<Personnel>, i: nat, t: int)
    requires i < |ps|
    ensures MemberIds(ps[..i + 1], t) ==
      if ps[i].teamId == Some(t) then MemberIds(ps[..i], t) + {ps[i].id} else MemberIds(ps[..i], t)
  {
    assert ps[..i + 1][..i] == ps[..i] && ps[..i + 1][i] == ps[i];
    var a, b := MemberIds(ps[..i], t), MemberIds(ps[..i + 1], t);
    if ps[i].teamId == Some(t) {
      assert b == a + {ps[i].id};
    } else {
      assert b == a;
    }
  }

  /** After the cascade, no person is left on team `t`, every person that
      was on it is unassigned, and persons with other ids are untouched. */
  lemma CascadeClearsTeam(ps: seq<Personnel>, t: int)
    ensures var r := Reassign(ps, MemberIds(ps, t), None);
      (forall i :: 0 <= i < |r| ==> r[i].teamId != Some(t)) &&
      (forall i :: 0 <= i < |ps| && ps[i].teamId == Some(t) ==> r[i].teamId.None?) &&
      (forall i :: 0 <= i < |ps| && ps[i].id !in MemberIds(ps, t) ==> r[i] == ps[i])
  {
  }

  class Shell {
    const people: PersonnelHooks.PersonnelStore
    const teams: TeamHooks.TeamStore
    const drag: TeamDragDrop.DragState

    constructor (people: PersonnelHooks.PersonnelStore, teams: TeamHooks.TeamStore, drag: TeamDragDrop.DragState)
      ensures this.people == people && this.teams == teams && this.drag == drag
    {
      this.people := people;
      this.teams := teams;
      this.drag := drag;
    }

    /** `handleDeleteTeam`: unassign every member of the snapshot taken
        before the loop, then delete the team. */
    method HandleDeleteTeam(teamId: int)
      modifies people, teams
      ensures people.personnel == Reassign(old(people.personnel), MemberIds(old(people.personnel), teamId), None)
      ensures teams.teamInfo == TeamsApi.Delete(teamId, old(teams.teamInfo))
    {
      var snapshot := people.personnel;
      for i := 0 to |snapshot|
        invariant people.personnel == Reassign(snapshot, MemberIds(snapshot[..i], teamId), None)
        invariant teams.teamInfo == old(teams.teamInfo)
      {
        var p := snapshot[i];
        MemberIdsSnoc(snapshot, i, teamId);
        if p.teamId == Some(teamId) {
          ReassignStep(snapshot, MemberIds(snapshot[..i], teamId), p.id, None);
          people.AssignToTeam(p.id, None);
        }
      }
      assert snapshot[..|snapshot|] == snapshot;
      teams.DeleteTeam(teamId);
    }

    /** `handleCreateTeam`: create the team, then assign each listed id to
        it; ids that match nobody change nothing. */
    method HandleCreateTeam(name: string, memberIds: seq<int>, now: int, today: string)
      modifies people, teams
      ensures teams.teamInfo == old(teams.teamInfo) + [TeamsApi.Create(name, now, today)]
      ensures people.personnel == Reassign(old(people.personnel), IdSet(memberIds), Some(now))
    {
      var newTeamId := teams.CreateTeam(name, now, today);
      for i := 0 to |memberIds|
        invariant people.personnel == Reassign(old(people.personnel), IdSet(memberIds[..i]), Some(newTeamId))
        invariant teams.teamInfo == old(teams.teamInfo) + [TeamsApi.Create(name, now, today)]
      {
        ReassignStep(old(people.personnel), IdSet(memberIds[..i]), memberIds[i], Some(newTeamId));
        people.AssignToTeam(memberIds[i], Some(newTeamId));
        assert memberIds[..i + 1] == memberIds[..i] + [memberIds[i]];
        assert IdSet(memberIds[..i + 1]) == IdSet(memberIds[..i]) + {memberIds[i]};
      }
      assert memberIds[..|memberIds|] == memberIds;
    }

    /** The drop handler of the unassigned zone: a truthy parsed id is
        unassigned, and the drag ends either way. */
    method HandleUnassignedDrop(personId: Parsed)
      modifies people, drag
      ensures people.personnel ==
        if Truthy(personId) then PersonnelHooks.AssignTeam(old(people.personnel), personId.n, None)
        else old(people.personnel)
      ensures drag.Idle()
    {
      if Truthy(personId) {
        people.AssignToTeam(personId.n, None);
      }
      drag.HandleDragEnd();
    }
  }
}
