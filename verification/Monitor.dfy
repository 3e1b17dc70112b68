/**
 One evaluation by the health monitor: which backends are to be marked healthy. What the
 outside world answers, and the clock, come in as a probe per backend.
 */
module Monitor {
  import opened Store

  /** The answer of an external call. */
  datatype Reply<+T> = Ok(value: T) | Error

  datatype StateCount = StateCount(state: string, count: int)

  datatype Probe = Probe(
    time: int,                      // nanoseconds, when the schedule is evaluated
    nextRun: Reply<int>,            // next run of the uptime schedule; Error if it does not parse
    isUp: Reply<bool>,
    isHealthy: Reply<bool>,
    rows: Reply<seq<StateCount>>,   // live queries by state
    stamp: int,                     // seconds, when the load is stored
    storeFails: bool)               // the call that stores the load fails

  // ----- Uptime schedule -----

  const MINUTE := 60_000_000_000

  function IsTimeInCron(time: int, nextRun: Reply<int>): Reply<bool> {
    if nextRun.Error? then Error else Ok(nextRun.value - time <= MINUTE)
  }

  /** The next run of a schedule: its first matching minute whose start is after the time. */
  ghost predicate IsNextRun(matches: int -> bool, time: int, next: int) {
    exists m :: next == m * MINUTE && matches(m) && time < m * MINUTE &&
                forall k :: matches(k) && time < k * MINUTE ==> m <= k
  }

  /** A time is in the schedule exactly when the minute after the current one is. */
  lemma CronWindow(matches: int -> bool, time: int, next: int)
    requires IsNextRun(matches, time, next)
    ensures IsTimeInCron(time, Ok(next)) == Ok(matches(time / MINUTE + 1))
  {
  }

  /** The same on the clock: the next run must be at most sixty seconds away. */
  lemma WithinAMinute(time: int, nextRun: Reply<int>)
    ensures IsTimeInCron(time, nextRun)
            == if nextRun.Ok? then Ok(nextRun.value <= time + 60_000_000_000) else Error
  {
  }

  /**
   Not a window around the time: on a schedule of the even minutes, half a minute into minute 2
   is out of schedule and half a minute into minute 3 is in it.
   */
  lemma CronWindowExample()
    ensures var even := (m: int) => m % 2 == 0;
            && IsNextRun(even, 5 * MINUTE / 2, 4 * MINUTE) && even(2)
            && IsTimeInCron(5 * MINUTE / 2, Ok(4 * MINUTE)) == Ok(false)
            && IsNextRun(even, 7 * MINUTE / 2, 4 * MINUTE) && !even(3)
            && IsTimeInCron(7 * MINUTE / 2, Ok(4 * MINUTE)) == Ok(true)
  {
    var even := (m: int) => m % 2 == 0;
    assert even(4);
  }

  // ----- Cluster load, in 32-bit arithmetic -----

  const TWO32 := 0x1_0000_0000
  const MAX32 := 0x7FFF_FFFF

  function Int32(x: int): int {
    (x + 0x8000_0000) % TWO32 - 0x8000_0000
  }

  /** Division truncated toward zero. */
  function Third(x: int): int {
    if x >= 0 then x / 3 else -(-x / 3)
  }

  datatype Stats = Stats(
    queued: int,
    waitingForResources: int,
    dispatching: int,
    planning: int,
    starting: int,
    running: int,
    finishing: int)

  function ComputeClusterLoad(s: Stats): int {
    var running := Int32(Int32(Int32(s.running + s.planning) + s.finishing) + s.dispatching);
    var queued := Int32(s.queued + s.starting);
    Int32(Int32(running * 2) + Third(Int32(queued * 1)))
  }

  /** The count of the last row for a state. */
  function Count(rows: seq<StateCount>, state: string): int {
    if rows == [] then 0
    else if rows[|rows| - 1].state == state then rows[|rows| - 1].count
    else Count(rows[..|rows| - 1], state)
  }

  function LoadOf(rows: seq<StateCount>): int {
    ComputeClusterLoad(Stats(
      Count(rows, "QUEUED"), Count(rows, "WAITING_FOR_RESOURCES"), Count(rows, "DISPATCHING"),
      Count(rows, "PLANNING"), Count(rows, "STARTING"), Count(rows, "RUNNING"), Count(rows, "FINISHING")))
  }

  method GetBackendLoad(stateStats: seq<StateCount>) returns (load: int)
    ensures load == LoadOf(stateStats)
  {
    var res := Stats(0, 0, 0, 0, 0, 0, 0);
    for i := 0 to |stateStats|
      invariant res == Stats(
        Count(stateStats[..i], "QUEUED"), Count(stateStats[..i], "WAITING_FOR_RESOURCES"),
        Count(stateStats[..i], "DISPATCHING"), Count(stateStats[..i], "PLANNING"),
        Count(stateStats[..i], "STARTING"), Count(stateStats[..i], "RUNNING"), Count(stateStats[..i], "FINISHING"))
    {
      assert stateStats[..i + 1][..i] == stateStats[..i];
      var s := stateStats[i];
      if s.state == "QUEUED" {
        res := res.(queued := s.count);
      } else if s.state == "WAITING_FOR_RESOURCES" {
        res := res.(waitingForResources := s.count);
      } else if s.state == "DISPATCHING" {
        res := res.(dispatching := s.count);
      } else if s.state == "PLANNING" {
        res := res.(planning := s.count);
      } else if s.state == "STARTING" {
        res := res.(starting := s.count);
      } else if s.state == "RUNNING" {
        res := res.(running := s.count);
      } else if s.state == "FINISHING" {
        res := res.(finishing := s.count);
      }
    }
    assert stateStats[..|stateStats|] == stateStats;
    load := ComputeClusterLoad(res);
  }

  /** The rows are the live queries grouped by state, in any order. */
  ghost predicate Grouped(live: multiset<string>, rows: seq<StateCount>) {
    && (forall i, j | 0 <= i < j < |rows| :: rows[i].state != rows[j].state)
    && (forall i | 0 <= i < |rows| :: rows[i].count == live[rows[i].state] <= MAX32)
    && (forall state | state in live :: exists i :: 0 <= i < |rows| && rows[i].state == state)
  }

  lemma {:induction false} CountIsRow(rows: seq<StateCount>, i: nat)
    requires i < |rows|
    requires forall j, k | 0 <= j < k < |rows| :: rows[j].state != rows[k].state
    ensures Count(rows, rows[i].state) == rows[i].count
  {
    if i < |rows| - 1 {
      CountIsRow(rows[..|rows| - 1], i);
    }
  }

  lemma {:induction false} CountOfAbsent(rows: seq<StateCount>, state: string)
    requires forall i | 0 <= i < |rows| :: rows[i].state != state
    ensures Count(rows, state) == 0
  {
    if rows != [] {
      CountOfAbsent(rows[..|rows| - 1], state);
    }
  }

  lemma {:induction false} CountIsMultiplicity(live: multiset<string>, rows: seq<StateCount>, state: string)
    requires Grouped(live, rows)
    ensures Count(rows, state) == live[state] <= MAX32
  {
    if i :| 0 <= i < |rows| && rows[i].state == state {
      CountIsRow(rows, i);
    } else {
      CountOfAbsent(rows, state);
    }
  }

  /** Of several rows for a state the last one counts. */
  lemma {:induction false} LastRowCounts(rows: seq<StateCount>, state: string, i: nat)
    requires i < |rows| && rows[i].state == state
    requires forall j | i < j < |rows| :: rows[j].state != state
    ensures Count(rows, state) == rows[i].count
  {
    if i < |rows| - 1 {
      LastRowCounts(rows[..|rows| - 1], state, i);
    }
  }

  ghost function RunningQueries(live: multiset<string>): nat {
    live["RUNNING"] + live["PLANNING"] + live["FINISHING"] + live["DISPATCHING"]
  }

  ghost function QueuedQueries(live: multiset<string>): nat {
    live["QUEUED"] + live["STARTING"]
  }

  lemma {:induction false} WrapsByMultiple(x: int) returns (k: int)
    ensures Int32(x) == x - k * TWO32
    ensures -0x8000_0000 <= Int32(x) <= MAX32
  {
    k := (x + 0x8000_0000) / TWO32;
  }

  /** A 32-bit value is in range and differs by a multiple of two to the thirty-second. */
  lemma {:induction false} WrapsExactly(x: int)
    ensures -2_147_483_648 <= Int32(x) <= 2_147_483_647
    ensures (x - Int32(x)) % 4_294_967_296 == 0
  {
    var k := WrapsByMultiple(x);
  }

  /** Dividing by three drops the fraction, towards zero. */
  lemma {:induction false} ThirdExactly(x: int)
    ensures if x >= 0 then 0 <= x - 3 * Third(x) <= 2 else -2 <= x - 3 * Third(x) <= 0
  {
  }

  /** Wrapping early or late is the same. */
  lemma {:induction false} WrapOnce(a: int, b: int)
    ensures Int32(Int32(a) + b) == Int32(a + b)
    ensures Int32(Int32(a) * 2 + b) == Int32(a * 2 + b)
  {
    var k := WrapsByMultiple(a);
    WrapShift(a + b, -k);
    WrapShift(a * 2 + b, -2 * k);
  }

  lemma {:induction false} WrapShift(x: int, k: int)
    ensures Int32(x + k * TWO32) == Int32(x)
  {
  }

  lemma {:induction false} LoadWraps(s: Stats)
    ensures ComputeClusterLoad(s)
            == Int32(2 * (s.running + s.planning + s.finishing + s.dispatching) + Third(Int32(s.queued + s.starting)))
  {
    var r := s.running + s.planning + s.finishing + s.dispatching;
    var q := Int32(s.queued + s.starting);
    WrapOnce(s.running + s.planning, s.finishing);
    WrapOnce(s.running + s.planning + s.finishing, s.dispatching);
    WrapOnce(s.queued + s.starting, 0);
    WrapOnce(r, 0);
    WrapOnce(r * 2, Third(q));
  }

  /**
   The load is twice the running queries plus a third of the queued ones, exactly when the
   queued ones and that sum fit in 32 bits.
   */
  lemma {:induction false} LoadIsExactlyWhen(live: multiset<string>, rows: seq<StateCount>)
    requires Grouped(live, rows)
    ensures var exact := 2 * RunningQueries(live) + QueuedQueries(live) / 3;
            LoadOf(rows) == exact <==> exact <= MAX32 && QueuedQueries(live) <= MAX32
  {
    CountIsMultiplicity(live, rows, "QUEUED");
    CountIsMultiplicity(live, rows, "STARTING");
    CountIsMultiplicity(live, rows, "RUNNING");
    CountIsMultiplicity(live, rows, "PLANNING");
    CountIsMultiplicity(live, rows, "FINISHING");
    CountIsMultiplicity(live, rows, "DISPATCHING");
    LoadWraps(Stats(Count(rows, "QUEUED"), Count(rows, "WAITING_FOR_RESOURCES"), Count(rows, "DISPATCHING"),
      Count(rows, "PLANNING"), Count(rows, "STARTING"), Count(rows, "RUNNING"), Count(rows, "FINISHING")));
    WrapExactlyWhen(RunningQueries(live), QueuedQueries(live));
  }

  lemma {:induction false} WrapExactlyWhen(r: nat, q: nat)
    requires q <= 2 * MAX32
    ensures Int32(2 * r + Third(Int32(q))) == 2 * r + q / 3 <==> 2 * r + q / 3 <= MAX32 && q <= MAX32
  {
  }

  /** With at most 2^30 - 1 such queries there is no overflow. */
  lemma {:induction false} LoadOfFewQueries(live: multiset<string>, rows: seq<StateCount>)
    requires Grouped(live, rows)
    requires RunningQueries(live) + QueuedQueries(live) <= 0x3FFF_FFFF
    ensures LoadOf(rows) == 2 * RunningQueries(live) + QueuedQueries(live) / 3
  {
    LoadIsExactlyWhen(live, rows);
  }

  // ----- Health of one backend -----

  function IsBackendUp(p: Probe): Reply<bool> {
    if p.isUp.Error? || !p.isUp.value then p.isUp else p.isHealthy
  }

  /** The monitor gets as far as reading the load. */
  ghost predicate LoadRead(p: Probe) {
    && IsTimeInCron(p.time, p.nextRun) == Ok(true)
    && p.isUp == Ok(true) && p.isHealthy == Ok(true) && p.rows.Ok?
  }

  /** Schedule, checks and load all succeed positively, and there is no threshold or it is kept. */
  ghost predicate Verdict(b: Backend, p: Probe) {
    LoadRead(p) && (b.thresholdClusterLoad == 0 || LoadOf(p.rows.value) <= b.thresholdClusterLoad)
  }

  ghost function AfterProbe(backends: map<string, Backend>, b: Backend, p: Probe): map<string, Backend> {
    if LoadRead(p) && !p.storeFails then WithLoad(backends, b.id, LoadOf(p.rows.value), p.stamp) else backends
  }

  /** The verdict on the readings: schedule within a minute, both checks positive, load read and threshold kept. */
  lemma VerdictExactly(b: Backend, p: Probe)
    ensures Verdict(b, p) <==>
            && p.nextRun.Ok? && p.nextRun.value <= p.time + 60_000_000_000
            && p.isUp == Ok(true) && p.isHealthy == Ok(true) && p.rows.Ok?
            && (b.thresholdClusterLoad == 0 || LoadOf(p.rows.value) <= b.thresholdClusterLoad)
  {
  }

  method IsBackendHealthy(db: GatewayDb, b: Backend, p: Probe) returns (healthy: Reply<bool>)
    requires db.State().Valid()
    requires IsTimeInCron(p.time, p.nextRun) == Ok(true)
    modifies db`backends
    ensures db.State().Valid()
    ensures healthy == Ok(true) <==> Verdict(b, p)
    ensures healthy == Ok(true) <==>
            && p.isUp == Ok(true) && p.isHealthy == Ok(true) && p.rows.Ok?
            && (b.thresholdClusterLoad == 0 || LoadOf(p.rows.value) <= b.thresholdClusterLoad)
    ensures healthy.Error? <==>
            || p.isUp.Error? || (p.isUp == Ok(true) && p.isHealthy.Error?)
            || (p.isUp == Ok(true) && p.isHealthy == Ok(true) && p.rows.Error?)
    ensures db.backends == AfterProbe(old(db.backends), b, p)
    ensures db.backends ==
            if p.isUp == Ok(true) && p.isHealthy == Ok(true) && p.rows.Ok? && !p.storeFails && b.id in old(db.backends)
            then old(db.backends)[b.id := old(db.backends)[b.id].(
                                    clusterLoad := LoadOf(p.rows.value), statsUpdatedAt := p.stamp)]
            else old(db.backends)
  {
    var isUp := IsBackendUp(p);
    if isUp.Error? {
      return Error;
    } else if isUp.value {
      if p.rows.Error? {
        return Error;
      }
      var load := GetBackendLoad(p.rows.value);
      if !p.storeFails {
        var _ := db.UpdateClusterLoad(b.id, load, p.stamp);
      }
      var threshold := b.thresholdClusterLoad;
      if threshold == 0 || load <= threshold {
        return Ok(true);
      }
    }
    return Ok(false);
  }

  // ----- All backends -----

  type World = string -> Probe

  /** Backends with the given verdict, in their order. */
  ghost function Selected(backends: seq<Backend>, world: World, wanted: bool): seq<Backend> {
    if backends == [] then
      []
    else
      var last := backends[|backends| - 1];
      Selected(backends[..|backends| - 1], world, wanted)
      + if Verdict(last, world(last.id)) == wanted then [last] else []
  }

  ghost function AfterProbes(rows: map<string, Backend>, backends: seq<Backend>, world: World): map<string, Backend> {
    if backends == [] then
      rows
    else
      var last := backends[|backends| - 1];
      AfterProbe(AfterProbes(rows, backends[..|backends| - 1], world), last, world(last.id))
  }

  datatype NewState = NewState(healthy: seq<Backend>, unhealthy: seq<Backend>)

  /** The listed backends, unless the call failed or one of them is missing. */
  method GetAllBackends(listed: Reply<seq<Option<Backend>>>) returns (backends: Reply<seq<Backend>>)
    ensures backends.Ok? <==> listed.Ok? && forall i | 0 <= i < |listed.value| :: listed.value[i].Some?
    ensures backends.Ok? ==> |backends.value| == |listed.value| &&
                             forall i | 0 <= i < |listed.value| :: listed.value[i] == Some(backends.value[i])
  {
    if listed.Error? {
      return Error;
    }
    var found: seq<Backend> := [];
    for i := 0 to |listed.value|
      invariant |found| == i
      invariant forall j | 0 <= j < i :: listed.value[j] == Some(found[j])
    {
      if listed.value[i].None? {
        return Error;
      }
      found := found + [listed.value[i].value];
    }
    return Ok(found);
  }

  method EvaluateBackendNewState(db: GatewayDb, listed: Reply<seq<Option<Backend>>>, world: World)
    returns (result: Reply<NewState>, ghost backends: seq<Backend>)
    requires db.State().Valid()
    modifies db`backends
    ensures db.State().Valid()
    ensures result.Ok? <==> listed.Ok? && forall i | 0 <= i < |listed.value| :: listed.value[i].Some?
    ensures result.Ok? ==>
              && |backends| == |listed.value|
              && (forall i | 0 <= i < |backends| :: listed.value[i] == Some(backends[i]))
              && result.value.healthy == Selected(backends, world, true)
              && result.value.unhealthy == Selected(backends, world, false)
              && db.backends == AfterProbes(old(db.backends), backends, world)
    ensures result.Error? ==> db.backends == old(db.backends)
  {
    backends := [];
    var all := GetAllBackends(listed);
    if all.Error? {
      return Error, backends;
    }
    backends := all.value;
    var markHealthy, markUnhealthy := [], [];
    for i := 0 to |all.value|
      invariant db.State().Valid()
      invariant markHealthy == Selected(backends[..i], world, true)
      invariant markUnhealthy == Selected(backends[..i], world, false)
      invariant db.backends == AfterProbes(old(db.backends), backends[..i], world)
    {
      assert backends[..i + 1][..i] == backends[..i];
      var b := all.value[i];
      var isEligible := IsTimeInCron(world(b.id).time, world(b.id).nextRun);
      if isEligible == Ok(true) {
        var isHealthy := IsBackendHealthy(db, b, world(b.id));
        if isHealthy == Ok(true) {
          markHealthy := markHealthy + [b];
          continue;
        }
      }
      markUnhealthy := markUnhealthy + [b];
    }
    assert backends[..|backends|] == backends;
    result := Ok(NewState(markHealthy, markUnhealthy));
  }

  lemma {:induction false} SelectedMembers(backends: seq<Backend>, world: World, wanted: bool, b: Backend)
    ensures b in Selected(backends, world, wanted) <==> b in backends && Verdict(b, world(b.id)) == wanted
    decreases |backends|
  {
    if backends != [] {
      var last := |backends| - 1;
      assert backends == backends[..last] + [backends[last]];
      SelectedMembers(backends[..last], world, wanted, b);
    }
  }

  /** Which backends have the given verdict. */
  ghost function Flags(backends: seq<Backend>, world: World, wanted: bool): seq<bool> {
    seq(|backends|, i requires 0 <= i < |backends| => Verdict(backends[i], world(backends[i].id)) == wanted)
  }

  /** The positions of the flags that are set, in ascending order. */
  ghost function PositionsOf(flags: seq<bool>): seq<nat> {
    if flags == [] then
      []
    else
      var last: nat := |flags| - 1;
      PositionsOf(flags[..last]) + if flags[last] then [last] else []
  }

  lemma {:induction false} PositionListed(flags: seq<bool>, k: nat)
    ensures k in PositionsOf(flags) <==> k < |flags| && flags[k]
  {
    if flags != [] {
      PositionListed(flags[..|flags| - 1], k);
    }
  }

  lemma {:induction false} PositionsAscend(flags: seq<bool>)
    ensures forall i, j | 0 <= i < j < |PositionsOf(flags)| :: PositionsOf(flags)[i] < PositionsOf(flags)[j]
  {
    if flags != [] {
      var before := PositionsOf(flags[..|flags| - 1]);
      PositionsAscend(flags[..|flags| - 1]);
      forall i | 0 <= i < |before| ensures before[i] < |flags| - 1 {
        PositionListed(flags[..|flags| - 1], before[i]);
      }
    }
  }

  /** The two results are order-preserving subsequences that hold exactly the backends of either verdict. */
  lemma {:induction false} SelectedInOrder(backends: seq<Backend>, world: World, wanted: bool)
    ensures var positions := PositionsOf(Flags(backends, world, wanted));
            && |Selected(backends, world, wanted)| == |positions|
            && forall i | 0 <= i < |positions| ::
                 positions[i] < |backends| && Selected(backends, world, wanted)[i] == backends[positions[i]]
    decreases |backends|
  {
    if backends != [] {
      var last := |backends| - 1;
      SelectedInOrder(backends[..last], world, wanted);
      assert Flags(backends, world, wanted)[..last] == Flags(backends[..last], world, wanted);
    }
  }

  /** Together they hold the input, each backend as often as it was listed. */
  lemma {:induction false} SelectionsPartition(backends: seq<Backend>, world: World)
    ensures multiset(Selected(backends, world, true)) + multiset(Selected(backends, world, false)) == multiset(backends)
    decreases |backends|
  {
    if backends != [] {
      var last := |backends| - 1;
      assert backends == backends[..last] + [backends[last]];
      SelectionsPartition(backends[..last], world);
    }
  }

  /** Evaluating stores loads and their times and leaves every other field of every row alone. */
  lemma {:induction false} EvaluationStoresOnlyLoads(
    rows: map<string, Backend>, backends: seq<Backend>, world: World, id: string)
    requires id in rows
    ensures var after := AfterProbes(rows, backends, world);
            && after.Keys == rows.Keys
            && after[id] == rows[id].(clusterLoad := after[id].clusterLoad, statsUpdatedAt := after[id].statsUpdatedAt)
    decreases |backends|
  {
    if backends != [] {
      EvaluationStoresOnlyLoads(rows, backends[..|backends| - 1], world, id);
    }
  }
}
