/**
 What the scheduler guarantees about a single request and over runs of requests.
 */
module SchedulerProperties {
  import opened Store
  import opened Scheduler
  import RR = RoundRobin
  import Lex

  ghost predicate HasActive(db: Db, g: Group) {
    exists id :: id in g.members && IsActive(db.backends, id)
  }

  ghost predicate Requested(db: Db, requested: seq<string>, id: string) {
    id in db.groups && db.groups[id].isEnabled && id in requested
  }

  lemma EligibleExactly(db: Db, requested: seq<string>)
    requires db.Valid()
    ensures forall g :: g in Eligible(db, requested) <==>
              Requested(db, requested, g.id) && db.groups[g.id] == g
  {
  }

  lemma AnyFoundExactly(db: Db, requested: seq<string>, clock: Clock, validity: int)
    requires db.Valid()
    ensures AnyFound(db, Eligible(db, requested), clock, validity) <==>
            exists id :: Requested(db, requested, id) && HasActive(db, db.groups[id])
  {
    EligibleExactly(db, requested);
    forall g ensures Found(db, g, clock, validity).Some? <==> HasActive(db, g) {
      FoundIsActiveMember(db, g, clock, validity);
    }
    if id :| Requested(db, requested, id) && HasActive(db, db.groups[id]) {
      assert db.groups[id] in Eligible(db, requested);
    }
  }

  /** A non-empty answer names an active member of an enabled requested group or of the default group. */
  lemma GroupChoiceIsSound(db: Db, cfg: Config, requested: seq<string>, clock: Clock)
    requires db.Valid()
    ensures var (result, after) := Evaluated(db, cfg, requested, clock);
            result.Routed? && result.backendId != "" ==>
              && result.groupId in db.groups
              && result.backendId in db.groups[result.groupId].members
              && IsActive(db.backends, result.backendId)
              && (Requested(db, requested, result.groupId) || result.groupId == cfg.defaultGroup)
              && after.groups[result.groupId].lastRouted == result.backendId
  {
    var eligible := Eligible(db, requested);
    if AnyFound(db, eligible, clock, cfg.statsValidity) {
      EligibleExactly(db, requested);
      FoundIsActiveMember(db, eligible[0], clock, cfg.statsValidity);
      assert eligible[0].id in GroupIds(eligible);
    } else if cfg.defaultGroup in db.groups {
      FoundIsActiveMember(db, db.groups[cfg.defaultGroup], clock, cfg.statsValidity);
    }
  }

  /** The first requested and enabled group in the order of the table. */
  ghost predicate IsFirstRequested(db: Db, requested: seq<string>, id: string) {
    Requested(db, requested, id) &&
    exists k :: 0 <= k < |db.groupOrder| && db.groupOrder[k] == id &&
                forall j | 0 <= j < k :: !Requested(db, requested, db.groupOrder[j])
  }

  lemma {:induction false} FirstEligible(groups: map<string, Group>, order: seq<string>, requested: seq<string>)
    returns (k: nat)
    requires forall id | id in order :: id in groups && groups[id].id == id
    requires EligibleGroups(groups, order, requested) != []
    ensures k < |order| && EligibleGroups(groups, order, requested)[0] == groups[order[k]]
    ensures forall j | 0 <= j < k :: !(groups[order[j]].isEnabled && order[j] in requested)
  {
    if groups[order[0]].isEnabled && order[0] in requested {
      k := 0;
    } else {
      var rest := FirstEligible(groups, order[1..], requested);
      k := rest + 1;
      forall j | 0 <= j < k ensures !(groups[order[j]].isEnabled && order[j] in requested) {
        if j > 0 {
          assert order[j] == order[1..][j - 1];
        }
      }
    }
  }

  lemma {:induction false} FirstEligibleIsFirstRequested(db: Db, requested: seq<string>)
    requires db.Valid() && Eligible(db, requested) != []
    ensures IsFirstRequested(db, requested, Eligible(db, requested)[0].id)
    ensures db.groups[Eligible(db, requested)[0].id] == Eligible(db, requested)[0]
  {
    var k := FirstEligible(db.groups, db.groupOrder, requested);
    EligibleRow(db, requested, 0);
  }

  /**
   Which group is chosen, and that the answer is the empty id exactly when some requested group
   could serve but the first of them cannot.
   */
  lemma {:induction false} ChosenGroupExactly(db: Db, cfg: Config, requested: seq<string>, clock: Clock)
    requires db.Valid()
    ensures var result := Evaluated(db, cfg, requested, clock).0;
            if exists id :: Requested(db, requested, id) && HasActive(db, db.groups[id]) then
              && result.Routed?
              && IsFirstRequested(db, requested, result.groupId)
              && (result.backendId == "" <==> !HasActive(db, db.groups[result.groupId]))
            else
              result.Routed? ==> result.groupId == cfg.defaultGroup && result.backendId != ""
  {
    var eligible := Eligible(db, requested);
    AnyFoundExactly(db, requested, clock, cfg.statsValidity);
    if AnyFound(db, eligible, clock, cfg.statsValidity) {
      FirstEligibleIsFirstRequested(db, requested);
      FoundIsActiveMember(db, eligible[0], clock, cfg.statsValidity);
    } else if cfg.defaultGroup in db.groups {
      FoundIsActiveMember(db, db.groups[cfg.defaultGroup], clock, cfg.statsValidity);
    }
  }

  function ExampleBackend(id: string, healthy: bool): Backend {
    Backend(id, "host", "http", "host", true, healthy, "* * * * *", 0, 0, 0)
  }

  /** Group a serves from x, which may be unhealthy, group b from y and z. Nothing has been routed yet. */
  function ExampleDb(a: string, b: string, x: string, healthy: bool, y: string, z: string): Db {
    Db(map[x := ExampleBackend(x, healthy), y := ExampleBackend(y, true), z := ExampleBackend(z, true)], [x, y, z],
       map[a := Group(a, RoundRobin, true, "", [x]), b := Group(b, RoundRobin, true, "", [y, z])],
       [a, b], [], map[])
  }

  lemma {:induction false} ExampleIsValid(a: string, b: string, x: string, healthy: bool, y: string, z: string)
    requires a != b && x != "" && y != "" && z != "" && x != y && x != z && y != z
    ensures ExampleDb(a, b, x, healthy, y, z).Valid()
  {
  }

  /** The empty id is really returned: with x unhealthy, a request for {a, b} is sent to no backend of a. */
  lemma {:induction false} EmptyIdExample(
    a: string, b: string, x: string, y: string, z: string, cfg: Config, clock: Clock)
    requires a != b && x != "" && y != "" && z != "" && x != y && x != z && y != z
    ensures var db := ExampleDb(a, b, x, false, y, z);
            db.Valid() && Evaluated(db, cfg, [a, b], clock).0 == Routed("", a)
  {
    var db := ExampleDb(a, b, x, false, y, z);
    ExampleIsValid(a, b, x, false, y, z);
    assert Requested(db, [a, b], a) && !HasActive(db, db.groups[a]);
    assert y in db.groups[b].members && IsActive(db.backends, y);
    assert Requested(db, [a, b], b) && HasActive(db, db.groups[b]);
    ChosenGroupExactly(db, cfg, [a, b], clock);
    assert db.groupOrder[0] == a;
  }

  /** An error is returned exactly when no requested group and no default group can serve. */
  lemma FailureExactly(db: Db, cfg: Config, requested: seq<string>, clock: Clock)
    requires db.Valid()
    ensures var result := Evaluated(db, cfg, requested, clock).0;
            && (result.Failed? <==>
                && (forall id | Requested(db, requested, id) :: !HasActive(db, db.groups[id]))
                && (cfg.defaultGroup in db.groups ==> !HasActive(db, db.groups[cfg.defaultGroup])))
            && (result.Failed? ==> (result.reason == GroupNotFound <==> cfg.defaultGroup !in db.groups))
  {
    AnyFoundExactly(db, requested, clock, cfg.statsValidity);
    if cfg.defaultGroup in db.groups {
      FoundIsActiveMember(db, db.groups[cfg.defaultGroup], clock, cfg.statsValidity);
    }
  }

  /** Groups in which a backend is looked for. */
  ghost predicate LookedAt(db: Db, cfg: Config, requested: seq<string>, id: string) {
    || Requested(db, requested, id)
    || (id == cfg.defaultGroup && forall i | Requested(db, requested, i) :: !HasActive(db, db.groups[i]))
  }

  lemma MovedAt(db: Db, ids: set<string>, clock: Clock, validity: int, id: string)
    requires db.Valid() && id in db.groups
    ensures var after := Moved(db, ids, clock, validity);
            && after == db.(groups := after.groups) && after.groups.Keys == db.groups.Keys
            && after.groups[id] == db.groups[id].(lastRouted := after.groups[id].lastRouted)
            && if id in ids && HasActive(db, db.groups[id])
               then after.groups[id].lastRouted in db.groups[id].members &&
                    IsActive(db.backends, after.groups[id].lastRouted)
               else after.groups[id] == db.groups[id]
  {
    FoundIsActiveMember(db, db.groups[id], clock, validity);
  }

  /** Nothing but cursors changes, and exactly the cursors of groups looked at that have an active member. */
  lemma OnlyCursorsMove(db: Db, cfg: Config, requested: seq<string>, clock: Clock, id: string)
    requires db.Valid() && id in db.groups
    ensures var after := Evaluated(db, cfg, requested, clock).1;
            && after == db.(groups := after.groups) && after.groups.Keys == db.groups.Keys
            && after.groups[id] == db.groups[id].(lastRouted := after.groups[id].lastRouted)
            && if LookedAt(db, cfg, requested, id) && HasActive(db, db.groups[id])
               then after.groups[id].lastRouted in db.groups[id].members &&
                    IsActive(db.backends, after.groups[id].lastRouted)
               else after.groups[id] == db.groups[id]
  {
    var eligible := Eligible(db, requested);
    AnyFoundExactly(db, requested, clock, cfg.statsValidity);
    MovedAt(db, GroupIds(eligible), clock, cfg.statsValidity, id);
    MovedAt(db, {cfg.defaultGroup}, clock, cfg.statsValidity, id);
    MovedAt(db, {}, clock, cfg.statsValidity, id);
    EligibleIds(db, requested, id);
    if cfg.defaultGroup in db.groups {
      FoundIsActiveMember(db, db.groups[cfg.defaultGroup], clock, cfg.statsValidity);
    }
  }

  lemma EligibleIds(db: Db, requested: seq<string>, id: string)
    requires db.Valid() && id in db.groups
    ensures id in GroupIds(Eligible(db, requested)) <==> Requested(db, requested, id)
  {
  }

  lemma {:induction false} EligibleIgnoresRequestOrder(
    groups: map<string, Group>, order: seq<string>, r1: seq<string>, r2: seq<string>)
    requires forall id | id in order :: id in groups
    requires forall id :: id in r1 <==> id in r2
    ensures EligibleGroups(groups, order, r1) == EligibleGroups(groups, order, r2)
  {
    if order != [] {
      EligibleIgnoresRequestOrder(groups, order[1..], r1, r2);
    }
  }

  /** Reordering or repeating the requested groups changes neither the answer nor the database left behind. */
  lemma RequestOrderIsIrrelevant(db: Db, cfg: Config, r1: seq<string>, r2: seq<string>, clock: Clock)
    requires db.Valid()
    requires forall id :: id in r1 <==> id in r2
    ensures Evaluated(db, cfg, r1, clock) == Evaluated(db, cfg, r2, clock)
  {
    EligibleIgnoresRequestOrder(db.groups, db.groupOrder, r1, r2);
  }

  /**
   With the least-load strategy and a clock under which no statistics expire during the scan,
   the backend found is the first active one of least effective load.
   */
  lemma {:induction false} LeastLoadIsFound(db: Db, g: Group, clock: Clock, validity: int)
    requires g.strategy.LeastLoad? && Active(db, g) != []
    requires Steady(Active(db, g), Readings(clock, g.id), validity)
    ensures exists k: nat ::
              && k < |Active(db, g)| && Found(db, g, clock, validity) == Some(Active(db, g)[k].id)
              && IsFirstLeast(Active(db, g), clock(g.id, 0), validity, k, |Active(db, g)|)
  {
    var active := Active(db, g);
    var k := Scan(active, Readings(clock, g.id), validity, |active|);
    ScanIsFirstLeast(active, Readings(clock, g.id), validity, |active|);
    assert Found(db, g, clock, validity) == Some(active[k].id);
  }

  // ----- Runs of serialized calls on one round-robin group -----

  ghost predicate CanServe(db: Db, gid: string) {
    && gid in db.groups && db.groups[gid].id == gid
    && db.groups[gid].strategy.RoundRobin?
    && ActiveIds(db, db.groups[gid]) != {}
  }

  ghost function PickIn(db: Db, gid: string): string
    requires CanServe(db, gid)
  {
    RR.Successor(ActiveIds(db, db.groups[gid]), db.groups[gid].lastRouted)
  }

  /** A call on a round-robin group returns the cyclic successor of the stored cursor and stores it. */
  lemma CallPicks(db: Db, gid: string, clock: Clock, validity: int)
    requires CanServe(db, gid)
    ensures Found(db, db.groups[gid], clock, validity) == Some(PickIn(db, gid))
    ensures AfterFind(db, db.groups[gid], clock, validity)
            == db.(groups := db.groups[gid := db.groups[gid].(lastRouted := PickIn(db, gid))])
  {
  }

  /**
   The database as each of a run of calls finds it. Between calls anything may change,
   membership and health included, but the cursor.
   */
  ghost predicate SerialRun(dbs: seq<Db>, gid: string, clock: Clock, validity: int) {
    && (forall i | 0 <= i < |dbs| :: CanServe(dbs[i], gid))
    && forall i | 0 <= i < |dbs| - 1 ::
         dbs[i + 1].groups[gid].lastRouted
         == AfterFind(dbs[i], dbs[i].groups[gid], clock, validity).groups[gid].lastRouted
  }

  ghost function ActiveSets(dbs: seq<Db>, gid: string): (r: seq<set<string>>)
    requires forall i | 0 <= i < |dbs| :: CanServe(dbs[i], gid)
  {
    seq(|dbs|, i requires 0 <= i < |dbs| && CanServe(dbs[i], gid) => ActiveIds(dbs[i], dbs[i].groups[gid]))
  }

  ghost function PicksOf(dbs: seq<Db>, gid: string): (r: seq<string>)
    requires forall i | 0 <= i < |dbs| :: CanServe(dbs[i], gid)
    ensures |r| == |dbs|
  {
    seq(|dbs|, i requires 0 <= i < |dbs| && CanServe(dbs[i], gid) => PickIn(dbs[i], gid))
  }

  lemma RunPicks(dbs: seq<Db>, gid: string, clock: Clock, validity: int)
    requires SerialRun(dbs, gid, clock, validity) && dbs != []
    ensures RR.ChurnPicks(ActiveSets(dbs, gid), dbs[0].groups[gid].lastRouted) == PicksOf(dbs, gid)
  {
    var actives := ActiveSets(dbs, gid);
    var cursors := seq(|dbs|, i requires 0 <= i < |dbs| && CanServe(dbs[i], gid) => dbs[i].groups[gid].lastRouted);
    forall i | 0 <= i < |dbs| - 1 ensures cursors[i + 1] == RR.Successor(actives[i], cursors[i]) {
      CallPicks(dbs[i], gid, clock, validity);
    }
    forall i | 0 <= i < |dbs| ensures RR.ChurnPicks(actives, cursors[0])[i] == PicksOf(dbs, gid)[i] {
      RR.ChurnPickAt(actives, cursors, i);
    }
  }

  /**
   No starvation: a backend active in a group throughout as many serialized calls as
   there are backend ids is returned by one of them, whatever else comes and goes.
   */
  lemma NoStarvation(
    dbs: seq<Db>, gid: string, universe: set<string>, b: string, clock: Clock, validity: int)
    requires SerialRun(dbs, gid, clock, validity)
    requires b in universe && |dbs| >= |universe|
    requires forall i | 0 <= i < |dbs| ::
               b in ActiveIds(dbs[i], dbs[i].groups[gid]) && ActiveIds(dbs[i], dbs[i].groups[gid]) <= universe
    ensures exists i :: 0 <= i < |dbs| && Found(dbs[i], dbs[i].groups[gid], clock, validity) == Some(b)
  {
    assert universe - {b} < universe;
    RR.SmallerSet(universe - {b}, universe);
    RunPicks(dbs, gid, clock, validity);
    RR.NoStarvation(universe, ActiveSets(dbs, gid), dbs[0].groups[gid].lastRouted, b);
    var i :| 0 <= i < |dbs| && PicksOf(dbs, gid)[i] == b;
    CallPicks(dbs[i], gid, clock, validity);
  }

  /**
   Exact fairness: with a fixed active set, any run returns every active backend equally
   often, give or take one, and a run as long as the set returns each exactly once.
   */
  lemma RunIsFair(dbs: seq<Db>, gid: string, active: set<string>, clock: Clock, validity: int)
    requires SerialRun(dbs, gid, clock, validity)
    requires forall i | 0 <= i < |dbs| :: ActiveIds(dbs[i], dbs[i].groups[gid]) == active
    requires active != {}
    ensures forall i | 0 <= i < |dbs| ::
              Found(dbs[i], dbs[i].groups[gid], clock, validity) == Some(PicksOf(dbs, gid)[i])
    ensures var picked := multiset(PicksOf(dbs, gid));
            && (|dbs| == |active| ==> picked == multiset(active))
            && forall x, y | x in active && y in active :: picked[x] <= picked[y] + 1
  {
    forall i | 0 <= i < |dbs| ensures Found(dbs[i], dbs[i].groups[gid], clock, validity) == Some(PickIn(dbs[i], gid)) {
      CallPicks(dbs[i], gid, clock, validity);
    }
    if dbs != [] {
      var cursor := dbs[0].groups[gid].lastRouted;
      RunPicks(dbs, gid, clock, validity);
      RR.SteadyChurn(ActiveSets(dbs, gid), active, cursor);
      RR.EveryRoundIsAPermutation(active, cursor);
      forall x, y | x in active && y in active
        ensures multiset(RR.Picks(active, cursor, |dbs|))[x] <= multiset(RR.Picks(active, cursor, |dbs|))[y] + 1
      {
        RR.CountsDifferByAtMostOne(active, cursor, |dbs|, x, y);
      }
    }
  }
}
