/** Team record construction and removal (src/features/teams/api/teamsApi.ts). */
module TeamsApi {
  import opened Records
  import Seqs

  /** `create(name)`: the clock reading `now` as id and today's date; empty
      tasks and notes, status `'open'`, no leader, location or work order. */
  function Create(name: string, now: int, today: string): (r: TeamInfo)
    ensures r.id == now && r.name == name && r.date == Some(today)
    ensures r.tasks == Some("") && r.notes == Some("") && r.status == Some("open")
    ensures r.teamLeader.None? && r.location.None? && r.workOrder.None?
    ensures r.assignedTo.None? && r.jobCode.None? && r.workOrderId.None?
  {
    TeamInfo(
      id := now, name := name, date := Some(today), tasks := Some(""),
      assignedTo := None, teamLeader := None, location := None, jobCode := None,
      workOrder := None, status := Some("open"), notes := Some(""), workOrderId := None)
  }

  /** `update` hands its argument back. */
  function Update(t: TeamInfo): (r: TeamInfo)
    ensures r == t
  {
    t
  }

  function NotId(id: int): TeamInfo -> bool
  {
    (t: TeamInfo) => t.id != id
  }

  /** `delete`: every team with `id` goes, the others stay with their
      multiplicities; an absent id changes nothing. */
  function Delete(id: int, all: seq<TeamInfo>): (r: seq<TeamInfo>)
    ensures forall i :: 0 <= i < |r| ==> r[i].id != id
    ensures forall x :: multiset(r)[x] == if x.id != id then multiset(all)[x] else 0
    ensures (forall i :: 0 <= i < |all| ==> all[i].id != id) ==> r == all
  {
    Seqs.FilterKeepsAll(all, NotId(id));
    Seqs.Filter(all, NotId(id))
  }

  /** `delete` keeps the other teams in their original order. */
  lemma DeleteKeepsOrder(id: int, a: seq<TeamInfo>, b: seq<TeamInfo>)
    ensures Delete(id, a + b) == Delete(id, a) + Delete(id, b)
  {
    Seqs.FilterConcat(a, b, NotId(id));
  }
}
