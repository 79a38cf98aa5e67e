/** The team list state and its per-field updates
    (src/features/teams/hooks/useTeams.ts). */
module TeamHooks {
  import opened Records
  import TeamsApi

  /** One per `update*` operation: the field it sets and the new value. */
  datatype TeamEdit =
    | Name(name: string)
    | Tasks(tasks: string)
    | AssignedTo(assignedTo: Option<string>)
    | Leader(leader: Option<string>)
    | Location(location: Option<string>)
    | WorkOrder(workOrder: Option<string>)
    | Status(status: string)
    | Date(date: string)

  predicate SameField(e: TeamEdit, f: TeamEdit)
  {
    (e.Name? && f.Name?) || (e.Tasks? && f.Tasks?) || (e.AssignedTo? && f.AssignedTo?) ||
    (e.Leader? && f.Leader?) || (e.Location? && f.Location?) ||
    (e.WorkOrder? && f.WorkOrder?) || (e.Status? && f.Status?) || (e.Date? && f.Date?)
  }

  /** Whether the field an edit names currently holds that edit's value. */
  predicate Holds(t: TeamInfo, e: TeamEdit)
  {
    match e
    case Name(v) => t.name == v
    case Tasks(v) => t.tasks == Some(v)
    case AssignedTo(v) => t.assignedTo == v
    case Leader(v) => t.teamLeader == v
    case Location(v) => t.location == v
    case WorkOrder(v) => t.workOrder == v
    case Status(v) => t.status == Some(v)
    case Date(v) => t.date == Some(v)
  }

  /** `{ ...t, field: value }`: the edited field holds the new value and
      every other field, the id included, is as before. */
  function ApplyEdit(t: TeamInfo, e: TeamEdit): (r: TeamInfo)
    ensures Holds(r, e)
    ensures r.id == t.id && r.jobCode == t.jobCode && r.notes == t.notes && r.workOrderId == t.workOrderId
    ensures forall f :: !SameField(e, f) ==> (Holds(r, f) <==> Holds(t, f))
  {
    match e
    case Name(v) => t.(name := v)
    case Tasks(v) => t.(tasks := Some(v))
    case AssignedTo(v) => t.(assignedTo := v)
    case Leader(v) => t.(teamLeader := v)
    case Location(v) => t.(location := v)
    case WorkOrder(v) => t.(workOrder := v)
    case Status(v) => t.(status := Some(v))
    case Date(v) => t.(date := Some(v))
  }

  /** Applying an edit whose value the field already holds changes nothing. */
  lemma ApplyHeldEdit(t: TeamInfo, e: TeamEdit)
    requires Holds(t, e)
    ensures ApplyEdit(t, e) == t
  {
  }

  /** The `map` every `update*` runs: the teams with `id` get the edit. */
  function UpdateTeams(ts: seq<TeamInfo>, id: int, e: TeamEdit): (r: seq<TeamInfo>)
    ensures |r| == |ts|
    ensures forall i :: 0 <= i < |ts| ==> r[i] == if ts[i].id == id then ApplyEdit(ts[i], e) else ts[i]
  {
    seq(|ts|, i requires 0 <= i < |ts| => if ts[i].id == id then ApplyEdit(ts[i], e) else ts[i])
  }

  /** Updates keep length, order and every id, and an unknown id changes nothing. */
  lemma UpdateKeepsIds(ts: seq<TeamInfo>, id: int, e: TeamEdit)
    ensures forall i :: 0 <= i < |ts| ==> UpdateTeams(ts, id, e)[i].id == ts[i].id
    ensures (forall i :: 0 <= i < |ts| ==> ts[i].id != id) ==> UpdateTeams(ts, id, e) == ts
  {
  }

  class TeamStore {
    var teamInfo: seq<TeamInfo>

    constructor (loaded: seq<TeamInfo>)
      ensures teamInfo == loaded
    {
      teamInfo := loaded;
    }

    /** `createTeam`: append the new team and return its id. */
    method CreateTeam(name: string, now: int, today: string) returns (id: int)
      modifies this
      ensures teamInfo == old(teamInfo) + [TeamsApi.Create(name, now, today)]
      ensures id == now
    {
      var t := TeamsApi.Create(name, now, today);
      teamInfo := teamInfo + [t];
      id := t.id;
    }

    method Update(id: int, e: TeamEdit)
      modifies this
      ensures teamInfo == UpdateTeams(old(teamInfo), id, e)
    {
      teamInfo := UpdateTeams(teamInfo, id, e);
    }

    method UpdateTeamName(id: int, name: string)
      modifies this
      ensures teamInfo == UpdateTeams(old(teamInfo), id, Name(name))
    {
      Update(id, Name(name));
    }

    method UpdateTeamTasks(id: int, tasks: string)
      modifies this
      ensures teamInfo == UpdateTeams(old(teamInfo), id, Tasks(tasks))
    {
      Update(id, Tasks(tasks));
    }

    method UpdateTeamAssignment(id: int, assignedTo: Option<string>)
      modifies this
      ensures teamInfo == UpdateTeams(old(teamInfo), id, AssignedTo(assignedTo))
    {
      Update(id, AssignedTo(assignedTo));
    }

    method UpdateTeamLeader(id: int, leader: Option<string>)
      modifies this
      ensures teamInfo == UpdateTeams(old(teamInfo), id, Leader(leader))
    {
      Update(id, Leader(leader));
    }

    method UpdateLocation(id: int, location: Option<string>)
      modifies this
      ensures teamInfo == UpdateTeams(old(teamInfo), id, Location(location))
    {
      Update(id, Location(location));
    }

    method UpdateWorkOrder(id: int, workOrder: Option<string>)
      modifies this
      ensures teamInfo == UpdateTeams(old(teamInfo), id, WorkOrder(workOrder))
    {
      Update(id, WorkOrder(workOrder));
    }

    method UpdateStatus(id: int, status: string)
      modifies this
      ensures teamInfo == UpdateTeams(old(teamInfo), id, Status(status))
    {
      Update(id, Status(status));
    }

    method UpdateDate(id: int, date: string)
      modifies this
      ensures teamInfo == UpdateTeams(old(teamInfo), id, Date(date))
    {
      Update(id, Date(date));
    }

    /** `deleteTeam`: only this list changes; members are left to the caller. */
    method DeleteTeam(id: int)
      modifies this
      ensures teamInfo == TeamsApi.Delete(id, old(teamInfo))
    {
      teamInfo := TeamsApi.Delete(id, teamInfo);
    }
  }
}
