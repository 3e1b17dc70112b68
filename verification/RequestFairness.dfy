/**
 When the requests that a round-robin group receives are served fairly. A request moves the
 cursors of all groups it looks in, not only that of the group chosen for it, so fairness of
 the calls on a group is not yet fairness of its requests.
 */
module RequestFairness {
  import opened Store
  import opened Scheduler
  import opened SchedulerProperties
  import opened Turns
  import RR = RoundRobin
  import Lex

  /** A request: the database it finds, the groups it asks for, the clock while it is evaluated. */
  datatype Request = Request(db: Db, groups: seq<string>, clock: Clock)

  ghost predicate CanRun(r: Request, b: string) {
    r.db.Valid() && b in r.db.groups && r.db.groups[b].strategy.RoundRobin?
  }

  ghost function Cursor(r: Request, b: string): string
    requires CanRun(r, b)
  {
    r.db.groups[b].lastRouted
  }

  /** The cursor of b which the request leaves behind. */
  ghost function CursorAfter(r: Request, cfg: Config, b: string): string
    requires CanRun(r, b)
  {
    OnlyCursorsMove(r.db, cfg, r.groups, r.clock, b);
    Evaluated(r.db, cfg, r.groups, r.clock).1.groups[b].lastRouted
  }

  /** The request is one of b's own: it is given a backend of b. */
  ghost predicate IsOwn(r: Request, cfg: Config, b: string)
    requires r.db.Valid()
  {
    var result := Evaluated(r.db, cfg, r.groups, r.clock).0;
    result.Routed? && result.groupId == b && result.backendId != ""
  }

  ghost function Answer(r: Request, cfg: Config, b: string): string
    requires r.db.Valid() && IsOwn(r, cfg, b)
  {
    Evaluated(r.db, cfg, r.groups, r.clock).0.backendId
  }

  /** The request looks for a backend in b, and there is one. */
  ghost predicate LooksIn(r: Request, cfg: Config, b: string)
    requires CanRun(r, b)
  {
    LookedAt(r.db, cfg, r.groups, b) && HasActive(r.db, r.db.groups[b])
  }

  /** Requests one after the other. Between two of them anything may change but the strategy and cursor of b. */
  ghost predicate RequestRun(run: seq<Request>, cfg: Config, b: string) {
    && (forall i | 0 <= i < |run| :: CanRun(run[i], b))
    && forall i | 0 <= i < |run| - 1 :: Cursor(run[i + 1], b) == CursorAfter(run[i], cfg, b)
  }

  lemma FirstRequestedIsUnique(db: Db, requested: seq<string>, a: string, b: string)
    requires IsFirstRequested(db, requested, a) && IsFirstRequested(db, requested, b)
    ensures a == b
  {
  }

  /** The pick in b that is due when the request comes. */
  ghost function Due(r: Request, b: string): string
    requires CanRun(r, b) && HasActive(r.db, r.db.groups[b])
  {
    ActiveIsServing(r.db, b);
    PickIn(r.db, b)
  }

  lemma ActiveIsServing(db: Db, b: string)
    requires db.Valid() && b in db.groups && db.groups[b].strategy.RoundRobin?
    ensures CanServe(db, b) <==> HasActive(db, db.groups[b])
  {
    ActiveIdsMeaning(db, db.groups[b]);
    if CanServe(db, b) {
      var id :| id in ActiveIds(db, db.groups[b]);
    }
  }

  /**
   What one request does to b: a look moves its cursor to the pick that is due, an own request
   is a look and returns that pick, and a look is an own request unless b is requested, but not first.
   */
  lemma {:induction false} OneRequest(r: Request, cfg: Config, b: string)
    requires CanRun(r, b)
    ensures CursorAfter(r, cfg, b) == if LooksIn(r, cfg, b) then Due(r, b) else Cursor(r, b)
    ensures IsOwn(r, cfg, b) ==> LooksIn(r, cfg, b) && Answer(r, cfg, b) == Due(r, b)
    ensures IsOwn(r, cfg, b) <==>
            LooksIn(r, cfg, b) && (Requested(r.db, r.groups, b) ==> IsFirstRequested(r.db, r.groups, b))
  {
    LookMoves(r, cfg, b);
    OwnIsLook(r, cfg, b);
  }

  /** So silent looks can be told from the requests: those for b, which has an active member but is not the first. */
  lemma {:induction false} SilentLookExactly(r: Request, cfg: Config, b: string)
    requires CanRun(r, b)
    ensures LooksIn(r, cfg, b) && !IsOwn(r, cfg, b) <==>
            && Requested(r.db, r.groups, b) && HasActive(r.db, r.db.groups[b])
            && !IsFirstRequested(r.db, r.groups, b)
  {
    OneRequest(r, cfg, b);
  }

  lemma {:induction false} LookMoves(r: Request, cfg: Config, b: string)
    requires CanRun(r, b)
    ensures CursorAfter(r, cfg, b) == if LooksIn(r, cfg, b) then Due(r, b) else Cursor(r, b)
  {
    var db := r.db;
    OnlyCursorsMove(db, cfg, r.groups, r.clock, b);
    if LooksIn(r, cfg, b) {
      ActiveIsServing(db, b);
      CallPicks(db, b, r.clock, cfg.statsValidity);
      AnyFoundExactly(db, r.groups, r.clock, cfg.statsValidity);
      EligibleIds(db, r.groups, b);
    }
  }

  lemma {:induction false} OwnIsLook(r: Request, cfg: Config, b: string)
    requires CanRun(r, b)
    ensures IsOwn(r, cfg, b) ==> LooksIn(r, cfg, b) && Answer(r, cfg, b) == Due(r, b)
    ensures IsOwn(r, cfg, b) <==>
            LooksIn(r, cfg, b) && (Requested(r.db, r.groups, b) ==> IsFirstRequested(r.db, r.groups, b))
  {
    var db, eligible := r.db, Eligible(r.db, r.groups);
    FoundIsActiveMember(db, db.groups[b], r.clock, cfg.statsValidity);
    AnyFoundExactly(db, r.groups, r.clock, cfg.statsValidity);
    if HasActive(db, db.groups[b]) {
      ActiveIsServing(db, b);
      CallPicks(db, b, r.clock, cfg.statsValidity);
    }
    if AnyFound(db, eligible, r.clock, cfg.statsValidity) {
      FirstEligibleIsFirstRequested(db, r.groups);
      if IsFirstRequested(db, r.groups, b) {
        FirstRequestedIsUnique(db, r.groups, eligible[0].id, b);
      }
    }
  }

  // ----- The requests a group receives -----

  /** What a request does to b. */
  ghost function VisitOf(r: Request, cfg: Config, b: string): Visit
    requires CanRun(r, b)
  {
    Visit(ActiveIds(r.db, r.db.groups[b]), Cursor(r, b), LooksIn(r, cfg, b), IsOwn(r, cfg, b),
          if IsOwn(r, cfg, b) then Answer(r, cfg, b) else "")
  }

  lemma {:induction false} VisitIsSound(r: Request, cfg: Config, b: string)
    requires CanRun(r, b)
    ensures Sound(VisitOf(r, cfg, b)) && After(VisitOf(r, cfg, b)) == CursorAfter(r, cfg, b)
  {
    OneRequest(r, cfg, b);
  }

  ghost function Visits(run: seq<Request>, cfg: Config, b: string): (vs: seq<Visit>)
    requires RequestRun(run, cfg, b)
    ensures |vs| == |run|
  {
    seq(|run|, i requires 0 <= i < |run| && CanRun(run[i], b) => VisitOf(run[i], cfg, b))
  }

  lemma {:induction false} VisitsAreChained(run: seq<Request>, cfg: Config, b: string)
    requires RequestRun(run, cfg, b)
    ensures Chained(Visits(run, cfg, b))
  {
    var vs := Visits(run, cfg, b);
    forall i | 0 <= i < |vs| ensures Sound(vs[i]) && (i + 1 < |vs| ==> vs[i + 1].cursor == After(vs[i])) {
      VisitIsSound(run[i], cfg, b);
    }
    forall i | 0 < i < |vs| ensures vs[i].cursor == After(vs[i - 1]) {
      assert vs[i - 1 + 1].cursor == After(vs[i - 1]);
    }
  }

  // ----- Requests are fair if a group is asked for first -----

  /** Whenever b is requested and enabled, it is the first such group. */
  ghost predicate AskedFirst(run: seq<Request>, b: string) {
    forall i | 0 <= i < |run| ::
      Requested(run[i].db, run[i].groups, b) ==> IsFirstRequested(run[i].db, run[i].groups, b)
  }

  lemma {:induction false} AskedFirstIsNeverSilent(run: seq<Request>, cfg: Config, b: string)
    requires RequestRun(run, cfg, b) && AskedFirst(run, b)
    ensures NeverSilent(Visits(run, cfg, b))
  {
    var vs := Visits(run, cfg, b);
    forall i | 0 <= i < |vs| ensures vs[i].looks ==> vs[i].own {
      OneRequest(run[i], cfg, b);
    }
  }

  /** Then the requests b receives are answered as calls of `findBackend` on b alone would be, whatever changes. */
  lemma {:induction false} OwnRequestsAreCalls(run: seq<Request>, cfg: Config, b: string)
    requires RequestRun(run, cfg, b) && AskedFirst(run, b) && run != []
    ensures AsCalls(Visits(run, cfg, b))
  {
    VisitsAreChained(run, cfg, b);
    AskedFirstIsNeverSilent(run, cfg, b);
    OwnAnswersAreCalls(Visits(run, cfg, b), |run|);
  }

  /**
   Requests are fair: if b is asked for first whenever it is asked for, and its active set is
   the same at all the requests it receives, these are given each active backend equally often,
   give or take one, and as many requests as there are active backends are given each once.
   */
  lemma {:induction false} OwnRequestsAreFair(run: seq<Request>, cfg: Config, b: string, active: set<string>)
    requires RequestRun(run, cfg, b) && AskedFirst(run, b)
    requires active != {} && OwnFind(Visits(run, cfg, b), active)
    ensures Fair(Visits(run, cfg, b), active)
  {
    VisitsAreChained(run, cfg, b);
    AskedFirstIsNeverSilent(run, cfg, b);
    NeverSilentIsFair(Visits(run, cfg, b), active);
  }

  /** Nor does any backend starve: one active at as many requests of b as there are ids is given to one of them. */
  lemma {:induction false} OwnRequestsDoNotStarve(
    run: seq<Request>, cfg: Config, b: string, universe: set<string>, id: string)
    requires RequestRun(run, cfg, b) && AskedFirst(run, b)
    requires id in universe && OwnFindWithin(Visits(run, cfg, b), id, universe)
    ensures ServedInTime(Visits(run, cfg, b), id, universe)
  {
    VisitsAreChained(run, cfg, b);
    AskedFirstIsNeverSilent(run, cfg, b);
    NeverSilentNeverStarves(Visits(run, cfg, b), universe, id);
  }

  // ----- With a fixed active set: exactly when they are -----

  /**
   If k requests have looked in b but gone elsewhere since b last answered, with c, its next own
   request gets the backend after c exactly if k is a whole number of rounds, and c again
   exactly if k is one short of that.
   */
  lemma {:induction false} NextAnswerExactly(run: seq<Request>, cfg: Config, b: string, active: set<string>, n: nat)
    requires RequestRun(run, cfg, b) && active != {} && ActiveThroughout(Visits(run, cfg, b), active)
    requires n < |run| && Visits(run, cfg, b)[n].own
    ensures GapDecides(Visits(run, cfg, b), active, n)
  {
    VisitsAreChained(run, cfg, b);
    AnswerAfterSilentLooks(Visits(run, cfg, b), active, n);
  }

  /**
   Exactly when requests are served as calls are: with a fixed active set, the requests b
   receives get the picks in rotation from its first cursor if and only if, before each of
   them, the looks in b by requests that went elsewhere make up whole rounds.
   */
  lemma {:induction false} OwnRequestsRotateExactly(run: seq<Request>, cfg: Config, b: string, active: set<string>)
    requires RequestRun(run, cfg, b) && run != []
    requires active != {} && ActiveThroughout(Visits(run, cfg, b), active)
    ensures Rotates(Visits(run, cfg, b), active, |run|) <==> WholeRounds(Visits(run, cfg, b), active, |run|)
  {
    VisitsAreChained(run, cfg, b);
    RotatesExactly(Visits(run, cfg, b), active, |run|);
  }

  /**
   With a fixed active set of n and the same number k of silent looks between the requests that
   b receives, any n consecutive ones are given every active backend if and only if k + 1 and n
   have no common divisor; otherwise some active backend is never given to any of them.
   */
  lemma {:induction false} EvenGapsServeAllExactly(
    run: seq<Request>, cfg: Config, b: string, active: set<string>, k: nat)
    requires RequestRun(run, cfg, b) && active != {}
    requires ActiveThroughout(Visits(run, cfg, b), active) && EvenGaps(Visits(run, cfg, b), k)
    ensures DivisorDecides(Visits(run, cfg, b), active, k)
  {
    VisitsAreChained(run, cfg, b);
    EvenGapsExactly(Visits(run, cfg, b), active, k);
  }

  // ----- Starvation of requests -----

  /** Groups a and b, in this order; b has two active backends y < z, and next is the one its cursor leads to. */
  ghost predicate Shared(db: Db, a: string, b: string, y: string, z: string, next: string) {
    && db.Valid() && a != b && db.groupOrder == [a, b]
    && db.groups[a].isEnabled && db.groups[b].isEnabled
    && HasActive(db, db.groups[a])
    && CanServe(db, b) && ActiveIds(db, db.groups[b]) == {y, z}
    && Lex.Less(y, z) && PickIn(db, b) == next
  }

  lemma MovedKeepsValid(db: Db, ids: set<string>, clock: Clock, validity: int)
    requires db.Valid()
    ensures Moved(db, ids, clock, validity).Valid()
  {
  }

  lemma TwoIdsAlternate(y: string, z: string)
    requires Lex.Less(y, z)
    ensures RR.Successor({y, z}, y) == z && RR.Successor({y, z}, z) == y
  {
    Lex.TotalOrder();
    RR.SuccessorMeaning({y, z}, y, z);
    RR.SuccessorMeaning({y, z}, z, y);
  }

  lemma TwoEligible(groups: map<string, Group>, a: string, b: string)
    requires a in groups && b in groups && groups[a].isEnabled && groups[b].isEnabled
    ensures EligibleGroups(groups, [a, b], [a, b]) == [groups[a], groups[b]]
  {
    assert [a, b][1..] == [b];
    assert [b][1..] == [];
    assert EligibleGroups(groups, [b], [a, b]) == [groups[b]] + EligibleGroups(groups, [], [a, b]);
  }

  /** The request {a, b} goes to a, but the cursor of b moves as well. */
  lemma SharedRequest(
    db: Db, cfg: Config, a: string, b: string, y: string, z: string, next: string, clock: Clock)
    requires Shared(db, a, b, y, z, next)
    ensures var (result, after) := Evaluated(db, cfg, [a, b], clock);
            && result.Routed? && result.groupId == a
            && after == Moved(db, {a, b}, clock, cfg.statsValidity)
  {
    var eligible := Eligible(db, [a, b]);
    assert a in db.groupOrder && b in db.groupOrder;
    TwoEligible(db.groups, a, b);
    FoundIsActiveMember(db, db.groups[a], clock, cfg.statsValidity);
    assert eligible[0] in eligible && eligible[1] in eligible;
    assert GroupIds(eligible) == {a, b};
  }

  lemma OwnRequest(db: Db, cfg: Config, b: string, clock: Clock)
    requires db.Valid() && CanServe(db, b) && db.groups[b].isEnabled
    ensures Evaluated(db, cfg, [b], clock)
            == (Routed(PickIn(db, b), b), Moved(db, {b}, clock, cfg.statsValidity))
    ensures Moved(db, {b}, clock, cfg.statsValidity).groups[b].lastRouted == PickIn(db, b)
  {
    var eligible := Eligible(db, [b]);
    EligibleExactly(db, [b]);
    CallPicks(db, b, clock, cfg.statsValidity);
    assert db.groups[b] in eligible;
    forall g | g in eligible ensures g == db.groups[b] {
    }
    assert GroupIds(eligible) == {b};
  }

  lemma SameActive(db: Db, ids: set<string>, clock: Clock, validity: int, id: string)
    requires id in db.groups
    ensures var after := Moved(db, ids, clock, validity);
            && ActiveIds(after, after.groups[id]) == ActiveIds(db, db.groups[id])
            && (HasActive(after, after.groups[id]) <==> HasActive(db, db.groups[id]))
            && after.groups[id] == db.groups[id].(lastRouted := after.groups[id].lastRouted)
  {
  }

  /** Whenever a backend is looked for in b, the turn passes to its other backend. */
  lemma TurnPasses(
    db: Db, ids: set<string>, a: string, b: string, y: string, z: string, next: string, clock: Clock, validity: int)
    requires Shared(db, a, b, y, z, next) && b in ids
    ensures Shared(Moved(db, ids, clock, validity), a, b, y, z, if next == y then z else y)
  {
    MovedKeepsValid(db, ids, clock, validity);
    SameActive(db, ids, clock, validity, a);
    SameActive(db, ids, clock, validity, b);
    CallPicks(db, b, clock, validity);
    TwoIdsAlternate(y, z);
  }

  /** A request for {a, b} and then one for {b}: b's own request gets z, and it is again the turn of y. */
  lemma OneRound(db: Db, cfg: Config, a: string, b: string, y: string, z: string, clock: Clock)
    requires Shared(db, a, b, y, z, y)
    ensures var mid := Evaluated(db, cfg, [a, b], clock).1;
            && mid.Valid()
            && Evaluated(mid, cfg, [b], clock).0 == Routed(z, b)
            && Shared(Evaluated(mid, cfg, [b], clock).1, a, b, y, z, y)
  {
    var mid := Evaluated(db, cfg, [a, b], clock).1;
    SharedRequest(db, cfg, a, b, y, z, y, clock);
    TurnPasses(db, {a, b}, a, b, y, z, y, clock, cfg.statsValidity);
    OwnRequest(mid, cfg, b, clock);
    TurnPasses(mid, {b}, a, b, y, z, z, clock, cfg.statsValidity);
  }

  ghost function AfterRounds(
    db: Db, cfg: Config, a: string, b: string, y: string, z: string, clock: Clock, n: nat): (r: Db)
    requires Shared(db, a, b, y, z, y)
    ensures Shared(r, a, b, y, z, y)
    decreases n
  {
    if n == 0 then
      db
    else
      var prev := AfterRounds(db, cfg, a, b, y, z, clock, n - 1);
      OneRound(prev, cfg, a, b, y, z, clock);
      Evaluated(Evaluated(prev, cfg, [a, b], clock).1, cfg, [b], clock).1
  }

  /**
   The cursors of all eligible groups move, not only that of the chosen one, so the requests
   a group actually receives may starve a backend: when requests for {a, b} and for {b}
   alternate, each request of b goes to z, for ever, although y is active all the time.
   */
  lemma RequestsCanStarve(
    db: Db, cfg: Config, a: string, b: string, y: string, z: string, clock: Clock, n: nat)
    requires Shared(db, a, b, y, z, y)
    ensures var now := AfterRounds(db, cfg, a, b, y, z, clock, n);
            var (first, mid) := Evaluated(now, cfg, [a, b], clock);
            && y in ActiveIds(now, now.groups[b])
            && first.Routed? && first.groupId == a
            && mid.Valid() && Evaluated(mid, cfg, [b], clock).0 == Routed(z, b)
  {
    var now := AfterRounds(db, cfg, a, b, y, z, clock, n);
    SharedRequest(now, cfg, a, b, y, z, y, clock);
    OneRound(now, cfg, a, b, y, z, clock);
  }

  lemma {:induction false} ActiveIdsOf(db: Db, g: Group, ids: set<string>)
    requires db.Valid()
    requires forall id :: id in g.members && IsActive(db.backends, id) <==> id in ids
    ensures ActiveIds(db, g) == ids
  {
    ActiveIdsMeaning(db, g);
  }

  lemma {:induction false} ExampleActive(a: string, b: string, x: string, y: string, z: string)
    requires a != b && ExampleDb(a, b, x, true, y, z).Valid()
    ensures ActiveIds(ExampleDb(a, b, x, true, y, z), ExampleDb(a, b, x, true, y, z).groups[b]) == {y, z}
  {
    var db := ExampleDb(a, b, x, true, y, z);
    assert IsActive(db.backends, y) && IsActive(db.backends, z);
    ActiveIdsOf(db, db.groups[b], {y, z});
  }

  /** From this database requests starve y. */
  lemma {:induction false} StarvationExample(a: string, b: string, x: string, y: string, z: string)
    requires a != b && x != "" && x != y && x != z && y != "" && Lex.Less(y, z)
    ensures Shared(ExampleDb(a, b, x, true, y, z), a, b, y, z, y)
  {
    var db := ExampleDb(a, b, x, true, y, z);
    assert z != "" && y != z && Lex.Less("", y);
    ExampleIsValid(a, b, x, true, y, z);
    ExampleActive(a, b, x, y, z);
    assert x in db.groups[a].members && IsActive(db.backends, x);
    Lex.LeqTotal(y, y);
    RR.SuccessorMeaning({y, z}, "", y);
  }
}
