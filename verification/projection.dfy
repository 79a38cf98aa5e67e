/** The values the app shell derives from the personnel and team lists
    (src/App.tsx:131-177): teams with their members, the unassigned list,
    the id-to-name map and the date-filtered team list. */
module Projection {
  import opened Records
  import Seqs
  import Text

  predicate HasId(ts: seq<TeamInfo>, id: int)
  {
    exists i :: 0 <= i < |ts| && ts[i].id == id
  }

  lemma HasIdPrefix(ts: seq<TeamInfo>, n: nat, id: int)
    requires n <= |ts| && HasId(ts[..n], id)
    ensures HasId(ts, id)
  {
    var i :| 0 <= i < n && ts[..n][i].id == id;
    assert ts[i].id == id;
  }

  /** The team ids in order of first appearance: the key order of the
      `Map` the projection fills. */
  function DistinctIds(ts: seq<TeamInfo>): (ids: seq<int>)
    ensures forall x :: x in ids <==> HasId(ts, x)
    ensures forall i, j :: 0 <= i < j < |ids| ==> ids[i] != ids[j]
  {
    if ts == [] then []
    else
      var n := |ts| - 1;
      var d := DistinctIds(ts[..n]);
      assert forall x :: HasId(ts, x) <==> HasId(ts[..n], x) || ts[n].id == x by {
        forall x | HasId(ts, x) ensures HasId(ts[..n], x) || ts[n].id == x {
          var i :| 0 <= i < |ts| && ts[i].id == x;
          if i < n { assert ts[..n][i] == ts[i]; }
        }
        forall x | HasId(ts[..n], x) ensures HasId(ts, x) { HasIdPrefix(ts, n, x); }
      }
      if ts[n].id in d then d else d + [ts[n].id]
  }

  /** The ids come in the order the `Map` iterates its keys: order of first
      insertion, since a later `set` of a present key keeps its place. */
  lemma DistinctIdsSnoc(ts: seq<TeamInfo>, t: TeamInfo)
    ensures t.id in DistinctIds(ts) ==> DistinctIds(ts + [t]) == DistinctIds(ts)
    ensures t.id !in DistinctIds(ts) ==> DistinctIds(ts + [t]) == DistinctIds(ts) + [t.id]
  {
    assert (ts + [t])[..|ts|] == ts;
  }

  /** The record a later `set` with the same key leaves in the `Map`. */
  function LastWithId(ts: seq<TeamInfo>, id: int): (t: TeamInfo)
    requires HasId(ts, id)
    ensures t.id == id
  {
    var n := |ts| - 1;
    if ts[n].id == id then ts[n]
    else
      assert HasId(ts[..n], id) by {
        var i :| 0 <= i < |ts| && ts[i].id == id;
        assert i < n && ts[..n][i] == ts[i];
      }
      LastWithId(ts[..n], id)
  }

  /** A later `set` with the same key wins: the record kept is one with the
      id that no later record shares. */
  lemma {:induction false} LastWithIdIsLast(ts: seq<TeamInfo>, id: int) returns (i: nat)
    requires HasId(ts, id)
    ensures i < |ts| && ts[i] == LastWithId(ts, id)
    ensures forall j :: i < j < |ts| ==> ts[j].id != id
  {
    var n := |ts| - 1;
    if ts[n].id == id {
      i := n;
    } else {
      var k :| 0 <= k < |ts| && ts[k].id == id;
      assert k < n && ts[..n][k] == ts[k];
      i := LastWithIdIsLast(ts[..n], id);
      assert ts[i] == ts[..n][i];
    }
  }

  /** `p.teamId && teamsMap.has(p.teamId)` for the team keyed `id`: a team
      id of 0 is falsy, so such a team never gets members. */
  function MemberOf(id: int): Personnel -> bool
  {
    (p: Personnel) => id != 0 && p.teamId == Some(id)
  }

  function Members(ps: seq<Personnel>, id: int): seq<Personnel>
  {
    Seqs.Filter(ps, MemberOf(id))
  }

  /** The `Map`'s values in key order, before sorting. */
  function Grouped(ts: seq<TeamInfo>, ps: seq<Personnel>): (r: seq<Team>)
    ensures |r| == |DistinctIds(ts)|
    ensures forall k :: 0 <= k < |r| ==> r[k].info.id == DistinctIds(ts)[k]
    ensures forall k :: 0 <= k < |r| ==> r[k].members == Members(ps, r[k].info.id)
  {
    var ids := DistinctIds(ts);
    seq(|ids|, k requires 0 <= k < |ids| => Team(LastWithId(ts, ids[k]), Members(ps, ids[k])))
  }

  function TeamNameLe(a: Team, b: Team): bool
  {
    Text.LexLe(a.info.name, b.info.name)
  }

  lemma TeamNameOrder()
    ensures Seqs.Total(TeamNameLe) && Seqs.Transitive(TeamNameLe)
  {
    forall a: Team, b: Team ensures TeamNameLe(a, b) || TeamNameLe(b, a) {
      Text.LexTotal(a.info.name, b.info.name);
    }
    forall a: Team, b: Team, c: Team | TeamNameLe(a, b) && TeamNameLe(b, c) ensures TeamNameLe(a, c) {
      Text.LexTransitive(a.info.name, b.info.name, c.info.name);
    }
  }

  /** The `teams` value: one entry per team id, carrying its members, sorted
      by name. */
  function Teams(ts: seq<TeamInfo>, ps: seq<Personnel>): (r: seq<Team>)
    ensures Seqs.SortedBy(r, TeamNameLe)
    ensures multiset(r) == multiset(Grouped(ts, ps))
  {
    TeamNameOrder();
    Seqs.SortBy(Grouped(ts, ps), TeamNameLe)
  }

  lemma InGrouped(ts: seq<TeamInfo>, ps: seq<Personnel>, k: nat)
    requires k < |Teams(ts, ps)|
    ensures Teams(ts, ps)[k] in Grouped(ts, ps)
  {
    assert Teams(ts, ps)[k] in multiset(Teams(ts, ps));
  }

  /** Each projected team carries the last record with its id and exactly
      the personnel pointing at it, in personnel-list order. */
  lemma TeamsMembers(ts: seq<TeamInfo>, ps: seq<Personnel>)
    ensures forall k :: 0 <= k < |Teams(ts, ps)| ==>
      var t := Teams(ts, ps)[k];
      HasId(ts, t.info.id) && t.info == LastWithId(ts, t.info.id) && t.members == Members(ps, t.info.id)
  {
    var r := Teams(ts, ps);
    var g := Grouped(ts, ps);
    forall k | 0 <= k < |r|
      ensures HasId(ts, r[k].info.id) && r[k].info == LastWithId(ts, r[k].info.id)
      ensures r[k].members == Members(ps, r[k].info.id)
    {
      InGrouped(ts, ps, k);
      var m :| 0 <= m < |g| && g[m] == r[k];
      assert DistinctIds(ts)[m] in DistinctIds(ts);
    }
  }

  function TeamId(t: Team): int
  {
    t.info.id
  }

  /** One entry per distinct team id: no id twice, and an id is present
      exactly when some team record has it. */
  lemma TeamsIds(ts: seq<TeamInfo>, ps: seq<Personnel>, id: int)
    ensures Seqs.DistinctBy(Teams(ts, ps), TeamId)
    ensures (exists k :: 0 <= k < |Teams(ts, ps)| && Teams(ts, ps)[k].info.id == id) <==> HasId(ts, id)
  {
    TeamsDistinct(ts, ps);
    if HasId(ts, id) {
      TeamListed(ts, ps, id);
    } else {
      forall k | 0 <= k < |Teams(ts, ps)| ensures Teams(ts, ps)[k].info.id != id {
        TeamHasId(ts, ps, k);
      }
    }
  }

  lemma TeamsDistinct(ts: seq<TeamInfo>, ps: seq<Personnel>)
    ensures Seqs.DistinctBy(Teams(ts, ps), TeamId)
  {
    var g := Grouped(ts, ps);
    var ids := DistinctIds(ts);
    assert Seqs.DistinctBy(g, TeamId) by {
      forall i, j | 0 <= i < j < |g| ensures TeamId(g[i]) != TeamId(g[j]) {
        assert g[i].info.id == ids[i] && g[j].info.id == ids[j];
      }
    }
    Seqs.PermutationKeepsDistinct(g, Teams(ts, ps), TeamId);
  }

  /** Every team record's id has an entry. */
  lemma TeamListed(ts: seq<TeamInfo>, ps: seq<Personnel>, id: int)
    requires HasId(ts, id)
    ensures exists k :: 0 <= k < |Teams(ts, ps)| && Teams(ts, ps)[k].info.id == id
  {
    var r := Teams(ts, ps);
    var g := Grouped(ts, ps);
    var ids := DistinctIds(ts);
    assert id in ids;
    var m :| 0 <= m < |ids| && ids[m] == id;
    assert g[m] in multiset(r);
    var k :| 0 <= k < |r| && r[k] == g[m];
    assert r[k].info.id == id;
  }

  /** Every entry's id comes from a team record. */
  lemma TeamHasId(ts: seq<TeamInfo>, ps: seq<Personnel>, k: nat)
    requires k < |Teams(ts, ps)|
    ensures HasId(ts, Teams(ts, ps)[k].info.id)
  {
    var g := Grouped(ts, ps);
    InGrouped(ts, ps, k);
    var m :| 0 <= m < |g| && g[m] == Teams(ts, ps)[k];
    assert DistinctIds(ts)[m] in DistinctIds(ts);
  }

  /** A person is listed under at most one team. */
  lemma AtMostOneTeam(ts: seq<TeamInfo>, ps: seq<Personnel>, p: Personnel, i: nat, j: nat)
    requires i < |Teams(ts, ps)| && j < |Teams(ts, ps)|
    requires p in Teams(ts, ps)[i].members && p in Teams(ts, ps)[j].members
    ensures i == j
  {
    var r := Teams(ts, ps);
    TeamsMembers(ts, ps);
    TeamsIds(ts, ps, 0);
    Seqs.FilterMembers(ps, MemberOf(r[i].info.id));
    Seqs.FilterMembers(ps, MemberOf(r[j].info.id));
    assert TeamId(r[i]) == TeamId(r[j]);
  }

  /** A listed person with a non-zero team id that some record carries is
      listed under that team. */
  lemma MemberListed(ts: seq<TeamInfo>, ps: seq<Personnel>, p: Personnel)
    requires p in ps && p.teamId.Some? && p.teamId.value != 0 && HasId(ts, p.teamId.value)
    ensures exists k :: 0 <= k < |Teams(ts, ps)| && p in Teams(ts, ps)[k].members
  {
    var r := Teams(ts, ps);
    TeamsIds(ts, ps, p.teamId.value);
    TeamsMembers(ts, ps);
    var k :| 0 <= k < |r| && r[k].info.id == p.teamId.value;
    Seqs.FilterMembers(ps, MemberOf(p.teamId.value));
  }

  function NoTeam(): Personnel -> bool
  {
    (p: Personnel) => p.teamId.None?
  }

  /** `unassignedPersonnel`: the personnel with no team, in list order. */
  function Unassigned(ps: seq<Personnel>): (r: seq<Personnel>)
    ensures forall i :: 0 <= i < |r| ==> r[i].teamId.None?
    ensures forall x :: multiset(r)[x] == if x.teamId.None? then multiset(ps)[x] else 0
  {
    Seqs.Filter(ps, NoTeam())
  }

  /** A person whose team id no team record carries is listed nowhere:
      under no team and not as unassigned. */
  lemma DanglingListedNowhere(ts: seq<TeamInfo>, ps: seq<Personnel>, p: Personnel)
    requires p.teamId.Some? && !HasId(ts, p.teamId.value)
    ensures forall k :: 0 <= k < |Teams(ts, ps)| ==> p !in Teams(ts, ps)[k].members
    ensures p !in Unassigned(ps)
  {
    var r := Teams(ts, ps);
    TeamsMembers(ts, ps);
    forall k | 0 <= k < |r| ensures p !in r[k].members {
      Seqs.FilterMembers(ps, MemberOf(r[k].info.id));
    }
    Seqs.FilterMembers(ps, NoTeam());
  }

  lemma HasIdSnoc(ts: seq<TeamInfo>, i: nat)
    requires i < |ts|
    ensures forall id :: HasId(ts[..i + 1], id) <==> HasId(ts[..i], id) || ts[i].id == id
  {
    assert ts[..i + 1][..i] == ts[..i];
    assert ts[..i + 1][i] == ts[i];
    forall id | HasId(ts[..i + 1], id) ensures HasId(ts[..i], id) || ts[i].id == id {
      var k :| 0 <= k < i + 1 && ts[..i + 1][k].id == id;
      if k < i { assert ts[..i][k] == ts[k]; }
    }
    forall id | HasId(ts[..i], id) ensures HasId(ts[..i + 1], id) {
      HasIdPrefix(ts[..i + 1], i, id);
    }
  }

  lemma LastWithIdSnoc(ts: seq<TeamInfo>, i: nat, id: int)
    requires i < |ts| && HasId(ts[..i + 1], id)
    ensures ts[i].id != id ==> HasId(ts[..i], id)
    ensures LastWithId(ts[..i + 1], id) == if ts[i].id == id then ts[i] else LastWithId(ts[..i], id)
  {
    HasIdSnoc(ts, i);
    assert ts[..i + 1][..i] == ts[..i];
  }

  /** The state after the first loop of ProjectTeams has read `ts`. */
  ghost predicate Seeded(ts: seq<TeamInfo>, keys: seq<int>, m: map<int, Team>)
  {
    keys == DistinctIds(ts) &&
    (forall k :: k in m <==> k in keys) &&
    forall k :: k in m ==> HasId(ts, k) && m[k] == Team(LastWithId(ts, k), [])
  }

  lemma SeedStep(ts: seq<TeamInfo>, i: nat, keys: seq<int>, m: map<int, Team>)
    requires i < |ts| && Seeded(ts[..i], keys, m)
    ensures Seeded(ts[..i + 1], if ts[i].id in m then keys else keys + [ts[i].id], m[ts[i].id := Team(ts[i], [])])
  {
    HasIdSnoc(ts, i);
    assert ts[..i + 1][..i] == ts[..i];
    assert ts[..i + 1][|ts[..i + 1]| - 1] == ts[i];
    var m' := m[ts[i].id := Team(ts[i], [])];
    forall k | k in m' ensures HasId(ts[..i + 1], k) && m'[k] == Team(LastWithId(ts[..i + 1], k), []) {
      LastWithIdSnoc(ts, i, k);
    }
  }

  /** The state after the second loop of ProjectTeams has read `ps`: the
      seeded entries, each with the members read so far. */
  ghost predicate Filled(seeded: map<int, Team>, ps: seq<Personnel>, m: map<int, Team>)
  {
    m.Keys == seeded.Keys &&
    forall k :: k in m ==> EntryFilled(seeded[k], ps, k, m[k])
  }

  /** The entry for team `k`: its seeded record and its members in `ps`. */
  ghost predicate EntryFilled(seed: Team, ps: seq<Personnel>, k: int, entry: Team)
  {
    entry.info == seed.info && entry.members == Members(ps, k)
  }

  /** A person on a seeded team is appended to that team's entry. */
  lemma FillStep(seeded: map<int, Team>, ps: seq<Personnel>, j: nat, m: map<int, Team>, id: int)
    requires j < |ps| && Filled(seeded, ps[..j], m)
    requires ps[j].teamId == Some(id) && id != 0 && id in m
    ensures Filled(seeded, ps[..j + 1], m[id := m[id].(members := m[id].members + [ps[j]])])
  {
    var e := m[id].(members := m[id].members + [ps[j]]);
    var m' := m[id := e];
    assert m'.Keys == m.Keys;
    forall k | k in m' ensures EntryFilled(seeded[k], ps[..j + 1], k, m'[k]) {
      EntryStep(seeded[k], ps, j, k, m[k]);
    }
  }

  /** Anyone else changes no entry. */
  lemma SkipStep(seeded: map<int, Team>, ps: seq<Personnel>, j: nat, m: map<int, Team>)
    requires j < |ps| && Filled(seeded, ps[..j], m)
    requires !(ps[j].teamId.Some? && ps[j].teamId.value != 0 && ps[j].teamId.value in m)
    ensures Filled(seeded, ps[..j + 1], m)
  {
    forall k | k in m ensures EntryFilled(seeded[k], ps[..j + 1], k, m[k]) {
      EntryStep(seeded[k], ps, j, k, m[k]);
    }
  }

  /** One entry after one more person is read: appended to when the person
      is on that team, unchanged otherwise. */
  lemma EntryStep(seed: Team, ps: seq<Personnel>, j: nat, k: int, entry: Team)
    requires j < |ps| && EntryFilled(seed, ps[..j], k, entry)
    ensures k != 0 && ps[j].teamId == Some(k) ==>
      EntryFilled(seed, ps[..j + 1], k, entry.(members := entry.members + [ps[j]]))
    ensures !(k != 0 && ps[j].teamId == Some(k)) ==> EntryFilled(seed, ps[..j + 1], k, entry)
  {
    MembersSnoc(ps, j, k);
  }

  /** Both loops done: the entries in key order are the grouped teams. */
  lemma FilledGrouped(ts: seq<TeamInfo>, ps: seq<Personnel>, keys: seq<int>, seeded: map<int, Team>, m: map<int, Team>)
    requires Seeded(ts, keys, seeded) && Filled(seeded, ps, m)
    ensures |keys| == |Grouped(ts, ps)|
    ensures forall k :: 0 <= k < |keys| ==> keys[k] in m && m[keys[k]] == Grouped(ts, ps)[k]
  {
    var g := Grouped(ts, ps);
    forall k | 0 <= k < |keys| ensures keys[k] in m && m[keys[k]] == g[k] {
      var id := keys[k];
      assert id in seeded;
      assert m[id].info == LastWithId(ts, id) && g[k].info == LastWithId(ts, id);
    }
  }

  /** Reading one more person adds them to the members of their own team
      only. */
  lemma MembersSnoc(ps: seq<Personnel>, j: nat, k: int)
    requires j < |ps|
    ensures Members(ps[..j + 1], k) ==
      if k != 0 && ps[j].teamId == Some(k) then Members(ps[..j], k) + [ps[j]] else Members(ps[..j], k)
  {
    Seqs.FilterSnoc(ps, j, MemberOf(k));
  }

  /** The `teams` computation as written: fill a `Map` keyed by team id with
      empty member lists, push every person with a truthy team id onto the
      entry with that key, then sort the entries by name. */
  method ProjectTeams(teamInfo: seq<TeamInfo>, personnel: seq<Personnel>) returns (teams: seq<Team>)
    ensures teams == Teams(teamInfo, personnel)
  {
    var keys: seq<int> := [];
    var m: map<int, Team> := map[];
    for i := 0 to |teamInfo|
      invariant Seeded(teamInfo[..i], keys, m)
    {
      SeedStep(teamInfo, i, keys, m);
      if teamInfo[i].id !in m {
        keys := keys + [teamInfo[i].id];
      }
      m := m[teamInfo[i].id := Team(teamInfo[i], [])];
    }
    assert teamInfo[..|teamInfo|] == teamInfo;
    ghost var seeded := m;
    assert Filled(seeded, personnel[..0], m);
    for j := 0 to |personnel|
      invariant Filled(seeded, personnel[..j], m)
    {
      var p := personnel[j];
      if p.teamId.Some? && p.teamId.value != 0 && p.teamId.value in m {
        var t := p.teamId.value;
        FillStep(seeded, personnel, j, m, t);
        m := m[t := m[t].(members := m[t].members + [p])];
      } else {
        SkipStep(seeded, personnel, j, m);
      }
    }
    assert personnel[..|personnel|] == personnel;
    FilledGrouped(teamInfo, personnel, keys, seeded, m);
    var values := seq(|keys|, k requires 0 <= k < |keys| => m[keys[k]]);
    assert values == Grouped(teamInfo, personnel);
    TeamNameOrder();
    teams := Seqs.SortBy(values, TeamNameLe);
  }

  /** `teamNameMap`: each team id maps to the name of the last record that
      carries it. */
  method TeamNameMap(teamInfo: seq<TeamInfo>) returns (names: map<int, string>)
    ensures forall id :: id in names <==> HasId(teamInfo, id)
    ensures forall id :: id in names ==> HasId(teamInfo, id) && names[id] == LastWithId(teamInfo, id).name
  {
    names := map[];
    for i := 0 to |teamInfo|
      invariant forall id :: id in names <==> HasId(teamInfo[..i], id)
      invariant forall id :: id in names ==> HasId(teamInfo[..i], id) && names[id] == LastWithId(teamInfo[..i], id).name
    {
      HasIdSnoc(teamInfo, i);
      forall id | HasId(teamInfo[..i + 1], id) {
        LastWithIdSnoc(teamInfo, i, id);
      }
      names := names[teamInfo[i].id := teamInfo[i].name];
    }
    assert teamInfo[..|teamInfo|] == teamInfo;
  }

  // ---------------------------------------------------------------------
  // Date filter and ordering of the team list

  datatype DateFilter = Today | Yesterday | OneWeek | TwoWeeks | AllDates

  /** The four `YYYY-MM-DD` strings the filter compares against, computed
      from the clock in the source. */
  datatype Thresholds = Thresholds(today: string, yesterday: string, oneWeekStart: string, twoWeeksStart: string)

  function DateOf(t: Team): string
  {
    OrElse(t.info.date, "")
  }

  /** The filter callback of `filteredTeams`; an absent or empty date is
      falsy and is kept only under `today`. */
  predicate Keep(f: DateFilter, th: Thresholds, t: Team)
  {
    if f == AllDates then true
    else if DateOf(t) == "" then f == Today
    else match f
      case Today => DateOf(t) == th.today
      case Yesterday => DateOf(t) == th.yesterday
      case OneWeek => Text.LexLe(th.oneWeekStart, DateOf(t))
      case TwoWeeks => Text.LexLe(th.twoWeeksStart, DateOf(t))
      case AllDates => true
  }

  function KeepFn(f: DateFilter, th: Thresholds): Team -> bool
  {
    (t: Team) => Keep(f, th, t)
  }

  /** The sort comparator: newer date first, then name. */
  function TeamOrderLe(a: Team, b: Team): bool
  {
    if DateOf(a) != DateOf(b) then Text.LexLe(DateOf(b), DateOf(a))
    else Text.LexLe(a.info.name, b.info.name)
  }

  lemma TeamOrder()
    ensures Seqs.Total(TeamOrderLe) && Seqs.Transitive(TeamOrderLe)
  {
    forall a: Team, b: Team ensures TeamOrderLe(a, b) || TeamOrderLe(b, a) {
      Text.LexTotal(DateOf(a), DateOf(b));
      Text.LexTotal(a.info.name, b.info.name);
    }
    forall a: Team, b: Team, c: Team | TeamOrderLe(a, b) && TeamOrderLe(b, c)
      ensures TeamOrderLe(a, c)
    {
      var da, db, dc := DateOf(a), DateOf(b), DateOf(c);
      if da != db && db != dc {
        Text.LexTransitive(dc, db, da);
        if da == dc {
          Text.LexAntisymmetric(da, db);
        }
      } else if da == db && db == dc {
        Text.LexTransitive(a.info.name, b.info.name, c.info.name);
      }
    }
  }

  /** `filteredTeams`: the teams the date filter keeps, newest first and by
      name within a date. */
  function FilteredTeams(teams: seq<Team>, f: DateFilter, th: Thresholds): (r: seq<Team>)
    ensures forall x :: multiset(r)[x] == if Keep(f, th, x) then multiset(teams)[x] else 0
    ensures Seqs.SortedBy(r, TeamOrderLe)
  {
    TeamOrder();
    Seqs.SortBy(Seqs.Filter(teams, KeepFn(f, th)), TeamOrderLe)
  }

  /** `all` keeps every team; an undated team is kept under `today` and
      dropped under the three other filters. */
  lemma FilterChoices(teams: seq<Team>, th: Thresholds, t: Team)
    ensures multiset(FilteredTeams(teams, AllDates, th)) == multiset(teams)
    ensures DateOf(t) == "" ==>
      Keep(Today, th, t) && !Keep(Yesterday, th, t) && !Keep(OneWeek, th, t) && !Keep(TwoWeeks, th, t)
  {
    var r := FilteredTeams(teams, AllDates, th);
    assert forall x :: multiset(r)[x] == multiset(teams)[x];
  }

  /** Of any two listed teams the earlier one has the later-or-equal date,
      and with equal dates the name not after the other's. */
  lemma FilteredTeamsOrder(teams: seq<Team>, f: DateFilter, th: Thresholds, i: nat, j: nat)
    requires i < j < |FilteredTeams(teams, f, th)|
    ensures var r := FilteredTeams(teams, f, th);
      Text.LexLe(DateOf(r[j]), DateOf(r[i])) &&
      (DateOf(r[i]) == DateOf(r[j]) ==> Text.LexLe(r[i].info.name, r[j].info.name))
  {
    var r := FilteredTeams(teams, f, th);
    TeamOrder();
    Seqs.SortedPair(r, TeamOrderLe, i, j);
    if DateOf(r[i]) == DateOf(r[j]) {
      Text.LexTotal(DateOf(r[j]), DateOf(r[i]));
    }
  }
}
