/**
 Choice of a backend for a group and of a group for a request.
 */
module Scheduler {
  import opened Lex
  import opened Store
  import RR = RoundRobin

  /** Reading k of the wall clock taken while the scan for a group runs. */
  type Clock = (string, nat) -> int

  function Readings(clock: Clock, groupId: string): nat -> int {
    (k: nat) => clock(groupId, k)
  }

  datatype Config = Config(defaultGroup: string, statsValidity: int)

  datatype Failure = GroupNotFound | NoBackendInDefaultGroup

  datatype Evaluation = Routed(backendId: string, groupId: string) | Failed(reason: Failure)

  // ----- Least load -----

  function EffectiveLoad(b: Backend, now: int, validity: int): int {
    if validity == 0 || now - b.statsUpdatedAt <= validity then b.clusterLoad else 0
  }

  /** Index of the least loaded backend after k steps of the scan, two clock readings a step. */
  function Scan(active: seq<Backend>, clock: nat -> int, validity: int, k: nat): (least: nat)
    requires 0 < |active| && k <= |active|
    ensures least < |active|
  {
    if k == 0 then
      0
    else
      var least := Scan(active, clock, validity, k - 1);
      if EffectiveLoad(active[k - 1], clock(2 * k - 2), validity)
         < EffectiveLoad(active[least], clock(2 * k - 1), validity)
      then k - 1 else least
  }

  method LeastLoaded(active: seq<Backend>, clock: nat -> int, validity: int) returns (b: Backend)
    requires active != []
    ensures b == active[Scan(active, clock, validity, |active|)]
  {
    b := active[0];
    var reading := 0;
    for i := 0 to |active|
      invariant reading == 2 * i
      invariant b == active[Scan(active, clock, validity, i)]
    {
      var load := EffectiveLoad(active[i], clock(reading), validity);
      var least := EffectiveLoad(b, clock(reading + 1), validity);
      reading := reading + 2;
      if load < least {
        b := active[i];
      }
    }
  }

  /** No backend's statistics go out of date while the scan runs; a fixed clock is steady. */
  ghost predicate Steady(active: seq<Backend>, clock: nat -> int, validity: int) {
    forall i, k | 0 <= i < |active| && 0 <= k < 2 * |active| ::
      EffectiveLoad(active[i], clock(k), validity) == EffectiveLoad(active[i], clock(0), validity)
  }

  /** Of the first n backends, k is the first whose effective load is least. */
  ghost predicate IsFirstLeast(active: seq<Backend>, now: int, validity: int, k: nat, n: nat)
    requires k < |active| && n <= |active|
  {
    && (forall i | 0 <= i < n :: EffectiveLoad(active[k], now, validity) <= EffectiveLoad(active[i], now, validity))
    && (forall i | 0 <= i < k :: EffectiveLoad(active[k], now, validity) < EffectiveLoad(active[i], now, validity))
  }

  /** The scan returns the first backend of least effective load. */
  lemma {:induction false} ScanIsFirstLeast(active: seq<Backend>, clock: nat -> int, validity: int, k: nat)
    requires 0 < |active| && k <= |active|
    requires Steady(active, clock, validity)
    ensures IsFirstLeast(active, clock(0), validity, Scan(active, clock, validity, k), k)
    ensures k > 0 ==> Scan(active, clock, validity, k) < k
  {
    if k > 0 {
      ScanIsFirstLeast(active, clock, validity, k - 1);
    }
  }

  // ----- One group -----

  ghost function Active(db: Db, g: Group): seq<Backend> {
    ActiveRows(db.backends, db.backendOrder, g.members)
  }

  function Ids(rows: seq<Backend>): (ids: seq<string>)
    ensures |ids| == |rows|
    ensures forall i | 0 <= i < |rows| :: ids[i] == rows[i].id
  {
    seq(|rows|, i requires 0 <= i < |rows| => rows[i].id)
  }

  /** The set of ids a group can route to now. */
  ghost function ActiveIds(db: Db, g: Group): set<string> {
    RR.IdSet(Ids(Active(db, g)))
  }

  lemma ActiveIdsMeaning(db: Db, g: Group)
    requires db.Valid()
    ensures forall id :: id in ActiveIds(db, g) <==> id in g.members && IsActive(db.backends, id)
    ensures ActiveIds(db, g) == {} <==> Active(db, g) == []
  {
    var rows := Active(db, g);
    forall id ensures id in ActiveIds(db, g) <==> id in g.members && IsActive(db.backends, id) {
      if id in ActiveIds(db, g) {
        var i :| 0 <= i < |rows| && Ids(rows)[i] == id;
        assert rows[i] in rows;
      }
      if id in g.members && IsActive(db.backends, id) {
        assert db.backends[id] in rows;
        var i :| 0 <= i < |rows| && rows[i] == db.backends[id];
        assert Ids(rows)[i] == id;
      }
    }
    if rows != [] {
      assert Ids(rows)[0] in ActiveIds(db, g);
    }
  }

  ghost function Choice(g: Group, active: seq<Backend>, clock: Clock, validity: int): string
    requires active != []
  {
    match g.strategy
    case RoundRobin =>
      assert Ids(active)[0] in RR.IdSet(Ids(active));
      RR.Successor(RR.IdSet(Ids(active)), g.lastRouted)
    case LeastLoad => active[Scan(active, Readings(clock, g.id), validity, |active|)].id
    case Random => active[0].id
  }

  ghost function Found(db: Db, g: Group, clock: Clock, validity: int): Option<string> {
    var active := Active(db, g);
    if active == [] then None else Some(Choice(g, active, clock, validity))
  }

  ghost function AfterFind(db: Db, g: Group, clock: Clock, validity: int): Db {
    var found := Found(db, g, clock, validity);
    if found.None? then db else db.(groups := WithCursor(db.groups, g.id, found.value))
  }

  method Choose(group: Group, activeBackends: seq<Backend>, clock: Clock, validity: int) returns (selected: string)
    requires activeBackends != []
    ensures selected == Choice(group, activeBackends, clock, validity)
  {
    selected := activeBackends[0].id;
    match group.strategy {
      case RoundRobin =>
        selected := RR.Pick(Ids(activeBackends), group.lastRouted);
      case LeastLoad =>
        var least := LeastLoaded(activeBackends, Readings(clock, group.id), validity);
        selected := least.id;
      case Random =>
    }
  }

  method FindBackend(db: GatewayDb, group: Group, clock: Clock, validity: int) returns (found: Option<string>)
    requires db.State().Valid()
    modifies db`groups
    ensures db.State().Valid()
    ensures found == Found(old(db.State()), group, clock, validity)
    ensures db.State() == AfterFind(old(db.State()), group, clock, validity)
  {
    var activeBackends := ActiveRows(db.backends, db.backendOrder, group.members);
    if |activeBackends| == 0 {
      return None;
    }
    var selected := Choose(group, activeBackends, clock, validity);
    db.UpdateGroup(group.id, GroupPatch(None, None, Some(selected), None));
    found := Some(selected);
  }

  /** Whatever the strategy, the backend found is an active member, and there is one iff some member is active. */
  lemma FoundIsActiveMember(db: Db, g: Group, clock: Clock, validity: int)
    requires db.Valid()
    ensures var found := Found(db, g, clock, validity);
            && (found.Some? <==> exists id :: id in g.members && IsActive(db.backends, id))
            && (found.Some? ==> found.value in g.members && IsActive(db.backends, found.value))
  {
    ActiveIdsMeaning(db, g);
    var active := Active(db, g);
    if active != [] {
      var found := Found(db, g, clock, validity).value;
      assert found in ActiveIds(db, g) by {
        if g.strategy.LeastLoad? {
          var i := Scan(active, Readings(clock, g.id), validity, |active|);
          assert Ids(active)[i] == found;
        } else if g.strategy.Random? {
          assert Ids(active)[0] == found;
        }
      }
    }
  }

  // ----- All groups of a request -----

  ghost function Eligible(db: Db, requested: seq<string>): seq<Group>
    requires db.Valid()
  {
    EligibleGroups(db.groups, db.groupOrder, requested)
  }

  ghost function GroupIds(gs: seq<Group>): set<string> {
    set g | g in gs :: g.id
  }

  ghost predicate DistinctIds(gs: seq<Group>) {
    forall i, j | 0 <= i < j < |gs| :: gs[i].id != gs[j].id
  }

  lemma {:induction false} EligibleRowsAreDistinct(
    groups: map<string, Group>, order: seq<string>, requested: seq<string>)
    requires forall id | id in order :: id in groups && groups[id].id == id
    requires forall i, j | 0 <= i < j < |order| :: order[i] != order[j]
    ensures DistinctIds(EligibleGroups(groups, order, requested))
  {
    if order != [] {
      var first := groups[order[0]];
      var rest := EligibleGroups(groups, order[1..], requested);
      EligibleRowsAreDistinct(groups, order[1..], requested);
      forall j | 0 <= j < |rest| ensures rest[j].id != first.id {
        assert rest[j] in rest;
        var id :| id in order[1..] && groups[id] == rest[j];
        var k :| 0 <= k < |order| - 1 && order[1..][k] == id;
        assert order[k + 1] == id && order[0] != order[k + 1];
        assert order[0] in order && id in order;
      }
      if first.isEnabled && order[0] in requested {
        assert EligibleGroups(groups, order, requested) == [first] + rest;
      } else {
        assert EligibleGroups(groups, order, requested) == rest;
      }
    }
  }

  /** The database after a backend has been looked for in the listed groups. */
  ghost function Moved(db: Db, ids: set<string>, clock: Clock, validity: int): Db {
    db.(groups := map id | id in db.groups ::
          var found := Found(db, db.groups[id], clock, validity);
          if id in ids && found.Some? then db.groups[id].(lastRouted := found.value) else db.groups[id])
  }

  ghost predicate AnyFound(db: Db, gs: seq<Group>, clock: Clock, validity: int) {
    exists g | g in gs :: Found(db, g, clock, validity).Some?
  }

  /**
   What a request for the given groups yields and leaves behind. As in the code, the
   first eligible group is chosen as soon as any eligible group has a backend.
   */
  ghost function Evaluated(db: Db, cfg: Config, requested: seq<string>, clock: Clock): (Evaluation, Db)
    requires db.Valid()
  {
    var eligible := Eligible(db, requested);
    if AnyFound(db, eligible, clock, cfg.statsValidity) then
      var found := Found(db, eligible[0], clock, cfg.statsValidity);
      (Routed(if found.Some? then found.value else "", eligible[0].id),
       Moved(db, GroupIds(eligible), clock, cfg.statsValidity))
    else
      EvaluatedDefault(db, cfg, clock)
  }

  ghost function EvaluatedDefault(db: Db, cfg: Config, clock: Clock): (Evaluation, Db) {
    if cfg.defaultGroup !in db.groups then
      (Failed(GroupNotFound), db)
    else
      var found := Found(db, db.groups[cfg.defaultGroup], clock, cfg.statsValidity);
      if found.None? then
        (Failed(NoBackendInDefaultGroup), db)
      else
        (Routed(found.value, cfg.defaultGroup),
         Moved(db, {cfg.defaultGroup}, clock, cfg.statsValidity))
  }

  lemma MovedNothing(db: Db, ids: set<string>, clock: Clock, validity: int)
    requires forall id | id in ids && id in db.groups :: Found(db, db.groups[id], clock, validity).None?
    ensures Moved(db, ids, clock, validity) == db
  {
  }

  /** The groups table does not affect what is found. */
  lemma FoundIgnoresGroups(db: Db, groups: map<string, Group>, g: Group, clock: Clock, validity: int)
    ensures Found(db.(groups := groups), g, clock, validity) == Found(db, g, clock, validity)
  {
  }

  /** Looking in one more group moves one more cursor. */
  lemma MovedOneMore(db: Db, ids: set<string>, g: Group, clock: Clock, validity: int)
    requires g.id in db.groups && db.groups[g.id] == g && g.id !in ids
    ensures AfterFind(Moved(db, ids, clock, validity), g, clock, validity)
            == Moved(db, ids + {g.id}, clock, validity)
    ensures Found(Moved(db, ids, clock, validity), g, clock, validity) == Found(db, g, clock, validity)
  {
    var before := Moved(db, ids, clock, validity);
    var found := Found(db, g, clock, validity);
    FoundIgnoresGroups(db, before.groups, g, clock, validity);
    var after := Moved(db, ids + {g.id}, clock, validity);
    assert before.groups[g.id] == g;
    forall id | id in db.groups
      ensures after.groups[id] == if id == g.id && found.Some? then g.(lastRouted := found.value) else before.groups[id]
    {
    }
    if found.Some? {
      assert after.groups == WithCursor(before.groups, g.id, found.value);
    } else {
      assert after.groups == before.groups;
    }
  }

  lemma EligibleRow(db: Db, requested: seq<string>, i: nat)
    requires db.Valid() && i < |Eligible(db, requested)|
    ensures var g := Eligible(db, requested)[i];
            g.id in db.groups && db.groups[g.id] == g && g.isEnabled && g.id in requested
    ensures Eligible(db, requested)[i].id !in GroupIds(Eligible(db, requested)[..i])
  {
    var eligible := Eligible(db, requested);
    assert eligible[i] in eligible;
    EligibleRowsAreDistinct(db.groups, db.groupOrder, requested);
    var id :| id in db.groupOrder && id in requested && db.groups[id] == eligible[i] && eligible[i].isEnabled;
  }

  lemma GroupIdsOneMore(gs: seq<Group>, i: nat)
    requires i < |gs|
    ensures gs[..i + 1] == gs[..i] + [gs[i]]
    ensures GroupIds(gs[..i + 1]) == GroupIds(gs[..i]) + {gs[i].id}
  {
  }

  /** The map of evaluated backends holds exactly what was found in the given groups. */
  ghost predicate Records(evaluated: map<string, string>, db: Db, gs: seq<Group>, clock: Clock, validity: int) {
    && evaluated.Keys <= GroupIds(gs)
    && forall g | g in gs ::
         var found := Found(db, g, clock, validity);
         (g.id in evaluated <==> found.Some?) && (found.Some? ==> evaluated[g.id] == found.value)
  }

  lemma RecordsOneMore(
    evaluated: map<string, string>, db: Db, gs: seq<Group>, i: nat, clock: Clock, validity: int)
    requires i < |gs| && gs[i].id !in GroupIds(gs[..i])
    requires Records(evaluated, db, gs[..i], clock, validity)
    ensures var found := Found(db, gs[i], clock, validity);
            Records(if found.Some? then evaluated[gs[i].id := found.value] else evaluated,
                    db, gs[..i + 1], clock, validity)
  {
  }

  lemma RecordsSomethingIffFound(
    evaluated: map<string, string>, db: Db, gs: seq<Group>, clock: Clock, validity: int)
    requires Records(evaluated, db, gs, clock, validity)
    ensures evaluated != map[] <==> AnyFound(db, gs, clock, validity)
  {
  }

  lemma NothingYet(db: Db, gs: seq<Group>, clock: Clock, validity: int)
    ensures Moved(db, GroupIds(gs[..0]), clock, validity) == db
    ensures Records(map[], db, gs[..0], clock, validity)
  {
  }

  /** Looks for a backend in the next eligible group. */
  method FindInNext(
    db: GatewayDb, ghost before: Db, eligible: seq<Group>, i: nat, evaluated: map<string, string>,
    validity: int, ghost groups: seq<string>, clock: Clock)
    returns (more: map<string, string>)
    requires before.Valid() && eligible == Eligible(before, groups) && i < |eligible|
    requires db.State().Valid() && db.State() == Moved(before, GroupIds(eligible[..i]), clock, validity)
    requires Records(evaluated, before, eligible[..i], clock, validity)
    modifies db`groups
    ensures db.State().Valid() && db.State() == Moved(before, GroupIds(eligible[..i + 1]), clock, validity)
    ensures Records(more, before, eligible[..i + 1], clock, validity)
  {
    EligibleRow(before, groups, i);
    MovedOneMore(before, GroupIds(eligible[..i]), eligible[i], clock, validity);
    GroupIdsOneMore(eligible, i);
    RecordsOneMore(evaluated, before, eligible, i, clock, validity);
    var backendId := FindBackend(db, eligible[i], clock, validity);
    more := if backendId.Some? then evaluated[eligible[i].id := backendId.value] else evaluated;
  }

  /** Step 3 of an evaluation: look for a backend in every eligible group, moving their cursors. */
  method FindInEach(db: GatewayDb, eligible: seq<Group>, cfg: Config, ghost groups: seq<string>, clock: Clock)
    returns (evaluated: map<string, string>)
    requires db.State().Valid() && eligible == Eligible(db.State(), groups)
    modifies db`groups
    ensures db.State().Valid()
    ensures db.State() == Moved(old(db.State()), GroupIds(eligible), clock, cfg.statsValidity)
    ensures Records(evaluated, old(db.State()), eligible, clock, cfg.statsValidity)
  {
    ghost var before := db.State();
    evaluated := map[];
    NothingYet(before, eligible, clock, cfg.statsValidity);
    for i := 0 to |eligible|
      invariant db.State().Valid()
      invariant db.State() == Moved(before, GroupIds(eligible[..i]), clock, cfg.statsValidity)
      invariant Records(evaluated, before, eligible[..i], clock, cfg.statsValidity)
    {
      evaluated := FindInNext(db, before, eligible, i, evaluated, cfg.statsValidity, groups, clock);
    }
    assert eligible[..|eligible|] == eligible;
  }

  /** The fallback: the default group, enabled or not. */
  method EvaluateDefaultGroup(db: GatewayDb, cfg: Config, clock: Clock) returns (result: Evaluation)
    requires db.State().Valid()
    modifies db`groups
    ensures db.State().Valid()
    ensures (result, db.State()) == EvaluatedDefault(old(db.State()), cfg, clock)
  {
    if cfg.defaultGroup !in db.groups {
      return Failed(GroupNotFound);
    }
    var chosenGroup := db.groups[cfg.defaultGroup];
    assert {} + {chosenGroup.id} == {cfg.defaultGroup};
    MovedNothing(db.State(), {}, clock, cfg.statsValidity);
    MovedOneMore(db.State(), {}, chosenGroup, clock, cfg.statsValidity);
    var b := FindBackend(db, chosenGroup, clock, cfg.statsValidity);
    if b.None? {
      return Failed(NoBackendInDefaultGroup);
    }
    result := Routed(b.value, cfg.defaultGroup);
  }

  /** When no eligible group has a backend, looking for one has changed nothing. */
  lemma NothingFoundNothingMoved(db: Db, requested: seq<string>, clock: Clock, validity: int)
    requires db.Valid() && !AnyFound(db, Eligible(db, requested), clock, validity)
    ensures Moved(db, GroupIds(Eligible(db, requested)), clock, validity) == db
  {
  }

  method EvaluateBackendForGroups(db: GatewayDb, cfg: Config, groups: seq<string>, clock: Clock)
    returns (result: Evaluation)
    requires db.State().Valid()
    modifies db`groups
    ensures db.State().Valid()
    ensures (result, db.State()) == Evaluated(old(db.State()), cfg, groups, clock)
  {
    ghost var before := db.State();
    var eligible := EligibleGroups(db.groups, db.groupOrder, groups);
    var evaluated := FindInEach(db, eligible, cfg, groups, clock);
    RecordsSomethingIffFound(evaluated, before, eligible, clock, cfg.statsValidity);
    if evaluated != map[] {
      var chosenGroup := eligible[0];
      assert chosenGroup in eligible;
      var chosenBackend := if chosenGroup.id in evaluated then evaluated[chosenGroup.id] else "";
      result := Routed(chosenBackend, chosenGroup.id);
    } else {
      NothingFoundNothingMoved(before, groups, clock, cfg.statsValidity);
      result := EvaluateDefaultGroup(db, cfg, clock);
    }
  }
}
