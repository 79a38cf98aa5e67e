/** The one-shot conversion of team work-order numbers into work-order
    records (src/utils/migrateToWorkOrders.ts). */
module Migration {
  import opened Records
  import Seqs
  import TeamsApi
  import WorkOrdersApi

  /** What local storage holds under the teams key: nothing (or an empty
      string), text that does not parse as a list, or a parsed list. */
  datatype StoredTeams = NoTeams | BadTeams | TeamList(teams: seq<TeamInfo>)

  datatype MigrationResult = MigrationResult(workOrders: seq<WorkOrderInfo>, teams: seq<TeamInfo>)

  /** `t.workOrder && t.workOrder.length === 4`. */
  predicate Qualifies(t: TeamInfo)
  {
    t.workOrder.Some? && |t.workOrder.value| == 4
  }

  function QualifiesFn(): TeamInfo -> bool
  {
    (t: TeamInfo) => Qualifies(t)
  }

  predicate HasNumber(ts: seq<TeamInfo>, w: string)
  {
    exists i :: 0 <= i < |ts| && Qualifies(ts[i]) && ts[i].workOrder.value == w
  }

  lemma HasNumberSnoc(ts: seq<TeamInfo>, n: nat)
    requires n < |ts|
    ensures forall w :: HasNumber(ts[..n + 1], w) <==>
      HasNumber(ts[..n], w) || (Qualifies(ts[n]) && ts[n].workOrder.value == w)
  {
    assert ts[..n + 1][..n] == ts[..n] && ts[..n + 1][n] == ts[n];
    forall w | HasNumber(ts[..n + 1], w)
      ensures HasNumber(ts[..n], w) || (Qualifies(ts[n]) && ts[n].workOrder.value == w)
    {
      var i :| 0 <= i < n + 1 && Qualifies(ts[..n + 1][i]) && ts[..n + 1][i].workOrder.value == w;
      if i < n { assert ts[..n][i] == ts[i]; }
    }
    forall w | HasNumber(ts[..n], w) ensures HasNumber(ts[..n + 1], w) {
      var i :| 0 <= i < n && Qualifies(ts[..n][i]) && ts[..n][i].workOrder.value == w;
      assert ts[..n + 1][i] == ts[i];
    }
  }

  /** The qualifying numbers in order of first appearance: the order in
      which the loop creates their work orders. */
  function Numbers(ts: seq<TeamInfo>): (ws: seq<string>)
    ensures forall w :: w in ws <==> HasNumber(ts, w)
    ensures forall i, j :: 0 <= i < j < |ws| ==> ws[i] != ws[j]
    ensures forall k :: 0 <= k < |ws| ==> |ws[k]| == 4
  {
    if ts == [] then []
    else
      var n := |ts| - 1;
      var prev := Numbers(ts[..n]);
      HasNumberSnoc(ts, n);
      assert ts[..n + 1] == ts;
      if !Qualifies(ts[n]) || ts[n].workOrder.value in prev then prev
      else prev + [ts[n].workOrder.value]
  }

  /** The first qualifying team carrying number `w`. */
  function FirstWith(ts: seq<TeamInfo>, w: string): (t: TeamInfo)
    requires HasNumber(ts, w)
    ensures Qualifies(t) && t.workOrder.value == w
    ensures exists i ::
      0 <= i < |ts| && ts[i] == t && forall j :: 0 <= j < i ==> !(Qualifies(ts[j]) && ts[j].workOrder.value == w)
  {
    var n := |ts| - 1;
    HasNumberSnoc(ts, n);
    assert ts[..n + 1] == ts;
    if HasNumber(ts[..n], w) then
      var t := FirstWith(ts[..n], w);
      assert exists i ::
        0 <= i < |ts| && ts[i] == t && forall j :: 0 <= j < i ==> !(Qualifies(ts[j]) && ts[j].workOrder.value == w) by {
        var i :| 0 <= i < n && ts[..n][i] == t &&
          forall j :: 0 <= j < i ==> !(Qualifies(ts[..n][j]) && ts[..n][j].workOrder.value == w);
        assert ts[i] == t;
        forall j | 0 <= j < i ensures !(Qualifies(ts[j]) && ts[j].workOrder.value == w) {
          assert ts[..n][j] == ts[j];
        }
      }
      t
    else
      assert forall j :: 0 <= j < n ==> !(Qualifies(ts[j]) && ts[j].workOrder.value == w) by {
        forall j | 0 <= j < n ensures !(Qualifies(ts[j]) && ts[j].workOrder.value == w) {
          assert ts[..n][j] == ts[j];
        }
      }
      ts[n]
  }

  /** The record built for number `w` from the team `t` that first carried
      it: no owner yet, and the team's location, date and status with their
      fallbacks. */
  function OrderFor(id: int, w: string, t: TeamInfo, today: string): (wo: WorkOrderInfo)
    ensures wo.id == id && wo.workOrderNumber == w && wo.owner == ""
    ensures wo.location == OrElse(t.location, "") && wo.date == OrElse(t.date, today)
    ensures wo.status == Some(OrElse(t.status, "Not started")) && wo.notes == t.notes
  {
    WorkOrderInfo(id, w, "", OrElse(t.location, ""), OrElse(t.date, today), Some(OrElse(t.status, "Not started")), t.notes)
  }

  /** The work orders the migration creates: one per distinct qualifying
      number, with ids 1, 2, 3, ... in order of first appearance. */
  function WorkOrdersFor(ts: seq<TeamInfo>, today: string): (r: seq<WorkOrderInfo>)
    ensures |r| == |Numbers(ts)|
    ensures forall k :: 0 <= k < |r| ==> r[k].id == k + 1 && r[k].workOrderNumber == Numbers(ts)[k]
    ensures forall k :: 0 <= k < |r| ==>
      HasNumber(ts, r[k].workOrderNumber) && r[k] == OrderFor(k + 1, r[k].workOrderNumber, FirstWith(ts, r[k].workOrderNumber), today)
  {
    var ws := Numbers(ts);
    seq(|ws|, k requires 0 <= k < |ws| => OrderFor(k + 1, ws[k], FirstWith(ts, ws[k]), today))
  }

  function Position(ws: seq<string>, w: string): (k: nat)
    requires w in ws
    ensures k < |ws| && ws[k] == w
  {
    if ws[0] == w then 0 else 1 + Position(ws[1..], w)
  }

  /** `workOrderMap` after the loop: each number to its work order's id. */
  function NumberIds(ts: seq<TeamInfo>): (m: map<string, int>)
    ensures forall w :: w in m <==> HasNumber(ts, w)
    ensures forall k :: 0 <= k < |Numbers(ts)| ==> m[Numbers(ts)[k]] == k + 1
  {
    var ws := Numbers(ts);
    var m := map w | w in ws :: Position(ws, w) + 1;
    assert forall k :: 0 <= k < |ws| ==> Position(ws, ws[k]) == k;
    m
  }

  /** The `map` that links teams back: a team with a truthy number present
      in `m` gets that number's id, every other team is kept as it is. */
  function Relink(ts: seq<TeamInfo>, m: map<string, int>): (r: seq<TeamInfo>)
    ensures |r| == |ts|
    ensures forall i :: 0 <= i < |ts| ==>
      r[i] == if ts[i].workOrder.Some? && ts[i].workOrder.value != "" && ts[i].workOrder.value in m
      then ts[i].(workOrderId := Some(m[ts[i].workOrder.value])) else ts[i]
  {
    seq(|ts|, i requires 0 <= i < |ts| =>
      if ts[i].workOrder.Some? && ts[i].workOrder.value != "" && ts[i].workOrder.value in m
      then ts[i].(workOrderId := Some(m[ts[i].workOrder.value])) else ts[i])
  }

  /** Whether the migration writes back: a readable list with at least one
      qualifying team. */
  predicate Writes(stored: StoredTeams)
  {
    stored.TeamList? && Numbers(stored.teams) != []
  }

  /** What `migrateToWorkOrders` returns. */
  function Migrate(stored: StoredTeams, today: string): (r: MigrationResult)
    ensures !stored.TeamList? ==> r == MigrationResult([], [])
    ensures stored.TeamList? && !Writes(stored) ==> r == MigrationResult([], stored.teams)
  {
    match stored
    case TeamList(ts) =>
      if Numbers(ts) == [] then MigrationResult([], ts)
      else MigrationResult(WorkOrdersFor(ts, today), Relink(ts, NumberIds(ts)))
    case _ => MigrationResult([], [])
  }

  /** The linked team list keeps length and order. A qualifying team points
      at the work order with its number; every other team is unchanged. */
  lemma MigratedTeams(ts: seq<TeamInfo>, today: string)
    requires Writes(TeamList(ts))
    ensures var r := Migrate(TeamList(ts), today);
      |r.teams| == |ts| &&
      forall i :: 0 <= i < |ts| ==>
        if Qualifies(ts[i]) then
          exists k :: 0 <= k < |r.workOrders| &&
            r.workOrders[k].workOrderNumber == ts[i].workOrder.value &&
            r.teams[i] == ts[i].(workOrderId := Some(r.workOrders[k].id))
        else r.teams[i] == ts[i]
  {
    var r := Migrate(TeamList(ts), today);
    var ws := Numbers(ts);
    var m := NumberIds(ts);
    forall w | w in m ensures |w| == 4 {
      var k := Position(ws, w);
    }
    forall i | 0 <= i < |ts|
      ensures if Qualifies(ts[i]) then
          exists k :: 0 <= k < |r.workOrders| &&
            r.workOrders[k].workOrderNumber == ts[i].workOrder.value &&
            r.teams[i] == ts[i].(workOrderId := Some(r.workOrders[k].id))
        else r.teams[i] == ts[i]
    {
      if Qualifies(ts[i]) {
        var w := ts[i].workOrder.value;
        assert HasNumber(ts, w);
        var k := Position(ws, w);
        assert m[ws[k]] == k + 1;
      }
    }
  }

  /** Filtering the list one team longer adds that team when it
      qualifies. */
  lemma QualifyingSnoc(ts: seq<TeamInfo>, n: nat)
    requires n < |ts|
    ensures var fp, fs := Seqs.Filter(ts[..n], QualifiesFn()), Seqs.Filter(ts[..n + 1], QualifiesFn());
      if Qualifies(ts[n]) then |fs| == |fp| + 1 && fs[..|fp|] == fp && fs[|fp|] == ts[n] else fs == fp
  {
    Seqs.FilterSnoc(ts, n, QualifiesFn());
  }

  /** The numbers are the same computed from the qualifying teams alone. */
  lemma {:induction false} NumbersOfQualifying(ts: seq<TeamInfo>)
    ensures Numbers(Seqs.Filter(ts, QualifiesFn())) == Numbers(ts)
  {
    if ts != [] {
      var n := |ts| - 1;
      NumbersOfQualifying(ts[..n]);
      QualifyingSnoc(ts, n);
      assert ts[..n + 1] == ts;
      var fs := Seqs.Filter(ts, QualifiesFn());
      if Qualifies(ts[n]) {
        assert fs[..|fs| - 1] == Seqs.Filter(ts[..n], QualifiesFn());
      }
    }
  }

  /** FirstWith read from the last team: the earlier teams' answer when
      they carry the number, otherwise the last team. */
  lemma FirstWithLast(ts: seq<TeamInfo>, w: string)
    requires ts != [] && HasNumber(ts, w)
    ensures HasNumber(ts[..|ts| - 1], w) ==> FirstWith(ts, w) == FirstWith(ts[..|ts| - 1], w)
    ensures !HasNumber(ts[..|ts| - 1], w) ==> FirstWith(ts, w) == ts[|ts| - 1]
  {
  }

  /** The first team with a number is the same among the qualifying teams
      alone. */
  lemma {:induction false} FirstOfQualifying(ts: seq<TeamInfo>, w: string)
    requires HasNumber(ts, w)
    ensures HasNumber(Seqs.Filter(ts, QualifiesFn()), w)
    ensures FirstWith(Seqs.Filter(ts, QualifiesFn()), w) == FirstWith(ts, w)
  {
    var n := |ts| - 1;
    assert ts[..n + 1] == ts;
    HasNumberSnoc(ts, n);
    FirstWithLast(ts, w);
    if HasNumber(ts[..n], w) {
      FirstOfQualifying(ts[..n], w);
      FirstOfQualifyingEarlier(ts, w);
    } else {
      FirstOfQualifyingLast(ts, w);
    }
  }

  /** The step where an earlier team already carries the number. */
  lemma FirstOfQualifyingEarlier(ts: seq<TeamInfo>, w: string)
    requires ts != [] && HasNumber(ts[..|ts| - 1], w)
    requires HasNumber(Seqs.Filter(ts[..|ts| - 1], QualifiesFn()), w)
    ensures HasNumber(Seqs.Filter(ts, QualifiesFn()), w)
    ensures FirstWith(Seqs.Filter(ts, QualifiesFn()), w) == FirstWith(Seqs.Filter(ts[..|ts| - 1], QualifiesFn()), w)
  {
    var n := |ts| - 1;
    QualifyingSnoc(ts, n);
    assert ts[..n + 1] == ts;
    var fp := Seqs.Filter(ts[..n], QualifiesFn());
    var fs := Seqs.Filter(ts, QualifiesFn());
    if Qualifies(ts[n]) {
      FirstWithExtend(fp, fs, w);
    }
  }

  /** One more team after the first with `w` changes nothing. */
  lemma FirstWithExtend(fp: seq<TeamInfo>, fs: seq<TeamInfo>, w: string)
    requires |fs| == |fp| + 1 && fs[..|fp|] == fp && HasNumber(fp, w)
    ensures HasNumber(fs, w) && FirstWith(fs, w) == FirstWith(fp, w)
  {
    HasNumberSnoc(fs, |fp|);
    assert fs[..|fp| + 1] == fs;
    FirstWithLast(fs, w);
  }

  /** One more team, the first with `w`, is the one found. */
  lemma FirstWithNew(fp: seq<TeamInfo>, fs: seq<TeamInfo>, w: string)
    requires |fs| == |fp| + 1 && fs[..|fp|] == fp && !HasNumber(fp, w)
    requires Qualifies(fs[|fp|]) && fs[|fp|].workOrder.value == w
    ensures HasNumber(fs, w) && FirstWith(fs, w) == fs[|fp|]
  {
    HasNumberSnoc(fs, |fp|);
    assert fs[..|fp| + 1] == fs;
    FirstWithLast(fs, w);
  }

  /** The step where the last team is the first to carry the number. */
  lemma FirstOfQualifyingLast(ts: seq<TeamInfo>, w: string)
    requires ts != [] && HasNumber(ts, w) && !HasNumber(ts[..|ts| - 1], w)
    ensures HasNumber(Seqs.Filter(ts, QualifiesFn()), w)
    ensures FirstWith(Seqs.Filter(ts, QualifiesFn()), w) == ts[|ts| - 1]
  {
    var n := |ts| - 1;
    assert ts[..n + 1] == ts;
    HasNumberSnoc(ts, n);
    QualifyingSnoc(ts, n);
    var fp := Seqs.Filter(ts[..n], QualifiesFn());
    var fs := Seqs.Filter(ts, QualifiesFn());
    NumbersOfQualifying(ts[..n]);
    assert !HasNumber(fp, w);
    FirstWithNew(fp, fs, w);
  }

  /** The record for a number takes its fields from the first qualifying
      team with that number. */
  lemma FirstTeamSupplies(ts: seq<TeamInfo>, today: string, k: nat)
    requires k < |WorkOrdersFor(ts, today)|
    ensures var wo := WorkOrdersFor(ts, today)[k];
      exists i :: 0 <= i < |ts| && Qualifies(ts[i]) && ts[i].workOrder.value == wo.workOrderNumber &&
        wo == OrderFor(k + 1, wo.workOrderNumber, ts[i], today) &&
        forall j :: 0 <= j < i ==> !(Qualifies(ts[j]) && ts[j].workOrder.value == wo.workOrderNumber)
  {
  }

  /** A team created by the teams API carries no number, so a list of
      only such teams has nothing to migrate. */
  lemma CreatedTeamNotMigrated(name: string, now: int, today: string)
    ensures !Qualifies(TeamsApi.Create(name, now, today))
  {
  }

  /** After the migration writes its orders, loading them re-seeds the
      work-order counter just past the last migrated id. */
  lemma MigratedIdsSeedCounter(ts: seq<TeamInfo>, today: string)
    ensures WorkOrdersApi.MaxId(WorkOrdersFor(ts, today)) == |Numbers(ts)|
  {
    var r := WorkOrdersFor(ts, today);
    if r != [] {
      assert r[|r| - 1].id == |r|;
    }
  }

  /** The step of the creation loop: reading one more qualifying team adds
      a work order exactly when its number is new. */
  lemma WorkOrdersStep(ts: seq<TeamInfo>, i: nat, today: string)
    requires i < |ts| && Qualifies(ts[i])
    ensures var w := ts[i].workOrder.value;
      Numbers(ts[..i + 1]) == if w in Numbers(ts[..i]) then Numbers(ts[..i]) else Numbers(ts[..i]) + [w]
    ensures var w := ts[i].workOrder.value;
      WorkOrdersFor(ts[..i + 1], today) ==
        if w in Numbers(ts[..i]) then WorkOrdersFor(ts[..i], today)
        else WorkOrdersFor(ts[..i], today) + [OrderFor(|Numbers(ts[..i])| + 1, w, ts[i], today)]
  {
    var a, b := ts[..i], ts[..i + 1];
    assert b[..|b| - 1] == a && b[|b| - 1] == ts[i];
    NumbersStep(ts, i);
    if ts[i].workOrder.value in Numbers(a) {
      WorkOrdersKnown(b, today);
    } else {
      WorkOrdersNew(b, today);
    }
  }

  /** A number seen before adds no order. */
  lemma WorkOrdersKnown(b: seq<TeamInfo>, today: string)
    requires b != [] && Qualifies(b[|b| - 1]) && b[|b| - 1].workOrder.value in Numbers(b[..|b| - 1])
    ensures WorkOrdersFor(b, today) == WorkOrdersFor(b[..|b| - 1], today)
  {
    var wa, wb := WorkOrdersFor(b[..|b| - 1], today), WorkOrdersFor(b, today);
    assert Numbers(b) == Numbers(b[..|b| - 1]);
    forall k | 0 <= k < |wa| ensures wb[k] == wa[k] {
      WorkOrdersSnocAt(b, today, k);
    }
  }

  /** A new number adds its order at the end. */
  lemma WorkOrdersNew(b: seq<TeamInfo>, today: string)
    requires b != [] && Qualifies(b[|b| - 1]) && b[|b| - 1].workOrder.value !in Numbers(b[..|b| - 1])
    ensures WorkOrdersFor(b, today) == WorkOrdersFor(b[..|b| - 1], today) +
      [OrderFor(|Numbers(b[..|b| - 1])| + 1, b[|b| - 1].workOrder.value, b[|b| - 1], today)]
  {
    var wa, wb := WorkOrdersFor(b[..|b| - 1], today), WorkOrdersFor(b, today);
    forall k | 0 <= k < |wa| ensures wb[k] == wa[k] {
      WorkOrdersSnocAt(b, today, k);
    }
    WorkOrdersSnocLast(b, today);
  }

  /** An order created before the last team is read is unchanged by it. */
  lemma WorkOrdersSnocAt(b: seq<TeamInfo>, today: string, k: nat)
    requires b != [] && k < |WorkOrdersFor(b[..|b| - 1], today)|
    ensures k < |WorkOrdersFor(b, today)|
    ensures WorkOrdersFor(b, today)[k] == WorkOrdersFor(b[..|b| - 1], today)[k]
  {
    var a := b[..|b| - 1];
    var w := Numbers(a)[k];
    assert Numbers(b)[k] == w;
    FirstWithLast(b, w);
  }

  /** A new number on the last team adds its order, built from that team. */
  lemma WorkOrdersSnocLast(b: seq<TeamInfo>, today: string)
    requires b != [] && Qualifies(b[|b| - 1]) && b[|b| - 1].workOrder.value !in Numbers(b[..|b| - 1])
    ensures var n := |WorkOrdersFor(b[..|b| - 1], today)|;
      |WorkOrdersFor(b, today)| == n + 1 &&
      WorkOrdersFor(b, today)[n] == OrderFor(n + 1, b[|b| - 1].workOrder.value, b[|b| - 1], today)
  {
    var a := b[..|b| - 1];
    var w := b[|b| - 1].workOrder.value;
    assert Numbers(b) == Numbers(a) + [w];
    assert !HasNumber(a, w);
    FirstWithLast(b, w);
  }

  /** The map and counter of the creation loop after reading `ts`. */
  ghost predicate MapBuilt(ts: seq<TeamInfo>, workOrderMap: map<string, int>, nextWOId: int)
  {
    IdsInOrder(Numbers(ts), workOrderMap, nextWOId)
  }

  /** The k-th number has id k + 1, and the counter is the next id. */
  ghost predicate IdsInOrder(ws: seq<string>, m: map<string, int>, next: int)
  {
    next == |ws| + 1 &&
    (forall w :: w in m <==> w in ws) &&
    forall k :: 0 <= k < |ws| ==> m[ws[k]] == k + 1
  }

  lemma NumbersStep(ts: seq<TeamInfo>, i: nat)
    requires i < |ts| && Qualifies(ts[i])
    ensures var w := ts[i].workOrder.value;
      Numbers(ts[..i + 1]) == if w in Numbers(ts[..i]) then Numbers(ts[..i]) else Numbers(ts[..i]) + [w]
  {
    assert ts[..i + 1][..i] == ts[..i] && ts[..i + 1][i] == ts[i];
  }

  lemma MapStep(ts: seq<TeamInfo>, i: nat, workOrderMap: map<string, int>, nextWOId: int)
    requires i < |ts| && Qualifies(ts[i]) && MapBuilt(ts[..i], workOrderMap, nextWOId)
    ensures var w := ts[i].workOrder.value;
      if w in workOrderMap then MapBuilt(ts[..i + 1], workOrderMap, nextWOId)
      else MapBuilt(ts[..i + 1], workOrderMap[w := nextWOId], nextWOId + 1)
  {
    var w := ts[i].workOrder.value;
    NumbersStep(ts, i);
    if w !in workOrderMap {
      NumberIdsExtend(Numbers(ts[..i]), w, workOrderMap, nextWOId);
    }
  }

  /** Giving a new number the next id keeps "the k-th number has id k + 1". */
  lemma NumberIdsExtend(ws: seq<string>, w: string, m: map<string, int>, next: int)
    requires IdsInOrder(ws, m, next) && w !in ws
    ensures IdsInOrder(ws + [w], m[w := next], next + 1)
  {
    var m', nb := m[w := next], ws + [w];
    forall k | 0 <= k < |nb| ensures m'[nb[k]] == k + 1 {
      if k < |ws| {
        assert nb[k] == ws[k] && ws[k] != w;
      }
    }
  }

  lemma BuiltMap(ts: seq<TeamInfo>, workOrderMap: map<string, int>, nextWOId: int)
    requires MapBuilt(ts, workOrderMap, nextWOId)
    ensures workOrderMap == NumberIds(ts)
  {
    var ws := Numbers(ts);
    forall w | w in workOrderMap ensures workOrderMap[w] == NumberIds(ts)[w] {
      var k := Position(ws, w);
    }
  }

  /** The loop of `migrateToWorkOrders` over the qualifying teams: create a
      record for each number not yet in the map, numbering from 1. */
  method CreateWorkOrders(teamsWithWO: seq<TeamInfo>, today: string) returns (workOrders: seq<WorkOrderInfo>, workOrderMap: map<string, int>)
    requires forall i :: 0 <= i < |teamsWithWO| ==> Qualifies(teamsWithWO[i])
    ensures workOrders == WorkOrdersFor(teamsWithWO, today)
    ensures workOrderMap == NumberIds(teamsWithWO)
  {
    workOrders := [];
    workOrderMap := map[];
    var nextWOId := 1;
    for i := 0 to |teamsWithWO|
      invariant workOrders == WorkOrdersFor(teamsWithWO[..i], today)
      invariant MapBuilt(teamsWithWO[..i], workOrderMap, nextWOId)
    {
      var team := teamsWithWO[i];
      var woNumber := team.workOrder.value;
      WorkOrdersStep(teamsWithWO, i, today);
      MapStep(teamsWithWO, i, workOrderMap, nextWOId);
      if woNumber !in workOrderMap {
        var newWO := OrderFor(nextWOId, woNumber, team, today);
        nextWOId := nextWOId + 1;
        workOrders := workOrders + [newWO];
        workOrderMap := workOrderMap[woNumber := newWO.id];
      }
    }
    assert teamsWithWO[..|teamsWithWO|] == teamsWithWO;
    BuiltMap(teamsWithWO, workOrderMap, nextWOId);
  }

  /** There are no qualifying teams exactly when there are no numbers. */
  lemma NoneQualifying(ts: seq<TeamInfo>)
    ensures |Seqs.Filter(ts, QualifiesFn())| == 0 <==> Numbers(ts) == []
  {
    var q := Seqs.Filter(ts, QualifiesFn());
    NumbersOfQualifying(ts);
    if |q| != 0 {
      assert q[0].workOrder.value in Numbers(q);
    }
  }

  /** The qualifying teams alone give the same work orders. */
  lemma SameWorkOrders(ts: seq<TeamInfo>, today: string)
    ensures WorkOrdersFor(Seqs.Filter(ts, QualifiesFn()), today) == WorkOrdersFor(ts, today)
  {
    var q := Seqs.Filter(ts, QualifiesFn());
    NumbersOfQualifying(ts);
    var a, b := WorkOrdersFor(q, today), WorkOrdersFor(ts, today);
    forall k | 0 <= k < |a| ensures a[k] == b[k] {
      var w := Numbers(ts)[k];
      assert w in Numbers(ts);
      FirstOfQualifying(ts, w);
    }
  }

  /** The qualifying teams alone give the same number-to-id map. */
  lemma SameNumberIds(ts: seq<TeamInfo>)
    ensures NumberIds(Seqs.Filter(ts, QualifiesFn())) == NumberIds(ts)
  {
    NumbersOfQualifying(ts);
  }

  /** Migrate computed from the qualifying teams, as the source does. */
  lemma MigrateFromQualifying(ts: seq<TeamInfo>, q: seq<TeamInfo>, today: string)
    requires q == Seqs.Filter(ts, QualifiesFn())
    ensures |q| == 0 <==> !Writes(TeamList(ts))
    ensures |q| != 0 ==> Migrate(TeamList(ts), today) == MigrationResult(WorkOrdersFor(q, today), Relink(ts, NumberIds(q)))
  {
    NoneQualifying(ts);
    SameWorkOrders(ts, today);
    SameNumberIds(ts);
  }

  /** The migration of a readable team list: filter the qualifying teams,
      create their work orders and relink every team. */
  method MigrateTeams(all: seq<TeamInfo>, today: string) returns (result: MigrationResult)
    ensures result == Migrate(TeamList(all), today)
  {
    var teamsWithWO := Seqs.Filter(all, QualifiesFn());
    if |teamsWithWO| == 0 {
      MigrateFromQualifying(all, teamsWithWO, today);
      return MigrationResult([], all);
    }
    var workOrderList, workOrderMap := CreateWorkOrders(teamsWithWO, today);
    var updatedTeams := Relink(all, workOrderMap);
    MigrateFromQualifying(all, teamsWithWO, today);
    result := MigrationResult(workOrderList, updatedTeams);
  }

  /** Local storage as the migration sees it. */
  class Storage {
    var teams: StoredTeams
    var workOrders: WorkOrdersApi.StoredOrders
    /** The `workOrders_migrated` item. */
    var migratedFlag: Option<string>

    predicate Migrated()
      reads this
    {
      migratedFlag.Some? && migratedFlag.value != ""
    }

    constructor (teams: StoredTeams, workOrders: WorkOrdersApi.StoredOrders, migratedFlag: Option<string>)
      ensures this.teams == teams && this.workOrders == workOrders && this.migratedFlag == migratedFlag
    {
      this.teams := teams;
      this.workOrders := workOrders;
      this.migratedFlag := migratedFlag;
    }

    /** `migrateToWorkOrders`: returns the result and, when there was
        something to migrate, stores both lists. */
    method MigrateToWorkOrders(today: string) returns (result: MigrationResult)
      modifies this
      ensures result == Migrate(old(teams), today)
      ensures Writes(old(teams)) ==>
        teams == TeamList(result.teams) && workOrders == WorkOrdersApi.Orders(result.workOrders)
      ensures !Writes(old(teams)) ==> teams == old(teams) && workOrders == old(workOrders)
      ensures migratedFlag == old(migratedFlag)
    {
      if !teams.TeamList? {
        return MigrationResult([], []);
      }
      result := MigrateTeams(teams.teams, today);
      if Writes(teams) {
        workOrders := WorkOrdersApi.Orders(result.workOrders);
        teams := TeamList(result.teams);
      }
    }

    /** `checkAndMigrate`: migrate and set the flag unless it is already
        set; with the flag set nothing changes and the answer is false. */
    method CheckAndMigrate(today: string) returns (ran: bool)
      modifies this
      ensures ran <==> !old(Migrated())
      ensures Migrated()
      ensures !ran ==> teams == old(teams) && workOrders == old(workOrders) && migratedFlag == old(migratedFlag)
      ensures ran ==> migratedFlag == Some("true")
      ensures ran && Writes(old(teams)) ==>
        teams == TeamList(Migrate(old(teams), today).teams) &&
        workOrders == WorkOrdersApi.Orders(Migrate(old(teams), today).workOrders)
      ensures ran && !Writes(old(teams)) ==> teams == old(teams) && workOrders == old(workOrders)
    {
      if Migrated() {
        return false;
      }
      var _ := MigrateToWorkOrders(today);
      migratedFlag := Some("true");
      ran := true;
    }
  }
}
