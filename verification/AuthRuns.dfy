/**
 Requests being authenticated concurrently. A task advances one atomic action at a time;
 two tasks that both find no cache in the context each create one, as the code allows.
 */
module AuthRuns {
  import opened Store
  import opened SimpleCache
  import opened Auth

  datatype Phase =
    | Arrived
    | Creating(cache: nat)  // found no cache in the context, about to store its own
    | Ready(cache: nat)
    | Hit(cache: nat)       // the password was cached, about to refresh the entry
    | Asking(cache: nat)
    | Accepted(cache: nat)  // the provider accepted, about to fill the cache
    | Done(outcome: Outcome)

  datatype Task = Task(user: string, password: string, phase: Phase)

  /**
   What a task did, with the time: looked its user up in a cache, got an answer of the
   provider, or stamped an entry of a cache.
   */
  datatype Event =
    | Lookup(task: nat, user: string, password: string, at: int, cache: nat, hit: bool)
    | Answered(task: nat, user: string, password: string, at: int, answer: Answer)
    | Stamp(task: nat, user: string, password: string, at: int, cache: nat)

  datatype State = State(
    now: int,
    caches: seq<Cache>,
    context: Option<nat>,
    tasks: map<nat, Task>,
    trace: seq<Event>)

  ghost predicate Initial(s: State) {
    s.caches == [] && s.context == None && s.tasks == map[] && s.trace == []
  }

  /** The next action of a task; the answer matters only when the provider is asked. */
  function Advance(s: State, ttl: int, id: nat, answer: Answer): State
    requires id in s.tasks && !s.tasks[id].phase.Done?
    requires s.tasks[id].phase.Arrived? || s.tasks[id].phase.cache < |s.caches|
  {
    var t := s.tasks[id];
    match t.phase
    case Arrived =>
      if s.context.Some? then
        s.(tasks := s.tasks[id := t.(phase := Ready(s.context.value))])
      else
        s.(caches := s.caches + [map[]], tasks := s.tasks[id := t.(phase := Creating(|s.caches|))])
    case Creating(c) =>
      s.(context := Some(c), tasks := s.tasks[id := t.(phase := Ready(c))])
    case Ready(c) =>
      var cache := s.caches[c];
      var hit := GetResult(cache, ttl, t.user, s.now) == Some(t.password);
      s.(caches := s.caches[c := AfterGet(cache, ttl, t.user, s.now)],
         tasks := s.tasks[id := t.(phase := if hit then Hit(c) else Asking(c))],
         trace := s.trace + [Lookup(id, t.user, t.password, s.now, c, hit)])
    case Asking(c) =>
      s.(tasks := s.tasks[id := t.(phase := if answer.Accepts? then Accepted(c) else Done(OutcomeOf(false, answer)))],
         trace := s.trace + [Answered(id, t.user, t.password, s.now, answer)])
    case Hit(c) => Written(s, id, c)
    case Accepted(c) => Written(s, id, c)
  }

  function Written(s: State, id: nat, c: nat): State
    requires id in s.tasks && c < |s.caches|
  {
    var t := s.tasks[id];
    s.(caches := s.caches[c := AfterUpdate(s.caches[c], t.user, t.password, s.now)],
       tasks := s.tasks[id := t.(phase := Done(Authenticated))],
       trace := s.trace + [Stamp(id, t.user, t.password, s.now, c)])
  }

  ghost predicate CanAdvance(s: State, id: nat) {
    id in s.tasks && !s.tasks[id].phase.Done? && (s.tasks[id].phase.Arrived? || s.tasks[id].phase.cache < |s.caches|)
  }

  ghost predicate Step(s: State, s': State, ttl: int) {
    || (exists id, answer :: CanAdvance(s, id) && s' == Advance(s, ttl, id, answer))
    || (exists id: nat, user, password ::
          id !in s.tasks && s' == s.(tasks := s.tasks[id := Task(user, password, Arrived)]))
    || (s.now <= s'.now && s' == s.(now := s'.now))
  }

  ghost predicate Run(states: seq<State>, ttl: int) {
    && states != [] && Initial(states[0])
    && forall i | 0 <= i < |states| - 1 :: Step(states[i], states[i + 1], ttl)
  }

  // ----- What justifies an event -----

  predicate OfPair(e: Event, user: string, password: string) {
    e.user == user && e.password == password
  }

  predicate StampsFor(e: Event, cache: nat, user: string) {
    e.Stamp? && e.cache == cache && e.user == user
  }

  /** Event j is the latest stamp of the user in the cache before event n. */
  ghost predicate Latest(trace: seq<Event>, n: nat, cache: nat, user: string, j: int) {
    && 0 <= j < n <= |trace| && StampsFor(trace[j], cache, user)
    && forall k | j < k < n :: !StampsFor(trace[k], cache, user)
  }

  /** The event by which a request is decided: a hit, or else the answer of the provider. */
  predicate Decides(e: Event) {
    (e.Lookup? && e.hit) || e.Answered?
  }

  /** The outcome such an event means for its own request. */
  function Decision(e: Event): Outcome
    requires Decides(e)
  {
    if e.Lookup? then Authenticated
    else match e.answer
         case Accepts => Authenticated
         case Rejects => Refused
         case Unreachable => Failed
  }

  predicate Grants(e: Event) {
    (e.Lookup? && e.hit) || (e.Answered? && e.answer == Accepts)
  }

  /**
   Event j, earlier, justifies event i. A stamp needs a hit or an acceptance of its own task; a
   hit needs that the latest stamp of its user in its cache be of its password and not expired.
   */
  ghost predicate Link(trace: seq<Event>, ttl: int, i: nat, j: int) {
    && 0 <= j < i < |trace|
    && OfPair(trace[j], trace[i].user, trace[i].password)
    && match trace[i]
       case Answered(_, _, _, _, _) => false
       case Stamp(task, _, _, _, _) => trace[j].task == task && Grants(trace[j])
       case Lookup(_, user, _, at, cache, _) =>
         Latest(trace, i, cache, user, j) && (ttl <= 0 || at - trace[j].at <= ttl)
  }

  /** Stamps are justified, and a lookup is a hit if and only if that is. */
  ghost predicate Sound(trace: seq<Event>, ttl: int, i: nat)
    requires i < |trace|
  {
    match trace[i]
    case Answered(_, _, _, _, _) => true
    case Stamp(_, _, _, _, _) => exists j :: Link(trace, ttl, i, j)
    case Lookup(_, _, _, _, _, hit) => hit <==> exists j :: Link(trace, ttl, i, j)
  }

  // ----- Invariant -----

  ghost predicate Undecided(trace: seq<Event>, id: nat) {
    forall e | e in trace && e.task == id :: !Decides(e)
  }

  /** Of the events that decide requests, exactly this one is the task's. */
  ghost predicate DecidedBy(trace: seq<Event>, id: nat, e: Event) {
    && e in trace && e.task == id && Decides(e)
    && forall f | f in trace && f.task == id && Decides(f) :: f == e
  }

  ghost predicate Decided(trace: seq<Event>, id: nat, t: Task, outcome: Outcome) {
    exists e :: DecidedBy(trace, id, e) && OfPair(e, t.user, t.password) && Decision(e) == outcome
  }

  ghost predicate HasStamped(trace: seq<Event>, id: nat) {
    exists e :: e in trace && e.Stamp? && e.task == id
  }

  ghost predicate TaskInv(s: State, id: nat, t: Task) {
    && (t.phase.Arrived? || t.phase.Done? || t.phase.cache < |s.caches|)
    && match t.phase
       case Hit(_) => Decided(s.trace, id, t, Authenticated)
       case Accepted(_) => Decided(s.trace, id, t, Authenticated)
       case Done(outcome) =>
         Decided(s.trace, id, t, outcome) && (outcome == Authenticated ==> HasStamped(s.trace, id))
       case _ => Undecided(s.trace, id)
  }

  ghost predicate EventInv(s: State, ttl: int, i: nat)
    requires i < |s.trace|
  {
    var e := s.trace[i];
    && (forall j | 0 <= j < i :: s.trace[j].at <= e.at) && e.at <= s.now
    && e.task in s.tasks && (!e.Answered? ==> e.cache < |s.caches|)
    && Sound(s.trace, ttl, i)
  }

  /** A cache holds the latest stamp of each user, unless that has expired. */
  ghost predicate EntryInv(s: State, cache: Cache, ttl: int, c: nat, user: string) {
    if user in cache then
      exists j :: Latest(s.trace, |s.trace|, c, user, j) &&
                  cache[user] == Entry(s.trace[j].at, s.trace[j].password)
    else
      forall j | Latest(s.trace, |s.trace|, c, user, j) ::
        Expired(Entry(s.trace[j].at, s.trace[j].password), ttl, s.now)
  }

  ghost predicate TasksInv(s: State) {
    forall id | id in s.tasks :: TaskInv(s, id, s.tasks[id])
  }

  ghost predicate EventsInv(s: State, ttl: int) {
    forall i | 0 <= i < |s.trace| :: EventInv(s, ttl, i)
  }

  ghost predicate CachesInv(s: State, ttl: int) {
    forall c, user | 0 <= c < |s.caches| :: EntryInv(s, s.caches[c], ttl, c, user)
  }

  ghost predicate Inv(s: State, ttl: int) {
    && (s.context.Some? ==> s.context.value < |s.caches|)
    && TasksInv(s) && EventsInv(s, ttl) && CachesInv(s, ttl)
  }

  // ----- Recording an event -----

  lemma {:induction false} LatestIsUnique(trace: seq<Event>, n: nat, c: nat, user: string, i: int, j: int)
    requires Latest(trace, n, c, user, i) && Latest(trace, n, c, user, j)
    ensures i == j
  {
  }

  /** An event that is no stamp for the user in the cache leaves the latest one as it is. */
  lemma {:induction false} LatestStays(trace: seq<Event>, e: Event, c: nat, user: string)
    requires !StampsFor(e, c, user)
    ensures forall j :: Latest(trace + [e], |trace| + 1, c, user, j) <==> Latest(trace, |trace|, c, user, j)
  {
    var more := trace + [e];
    forall j ensures Latest(more, |trace| + 1, c, user, j) <==> Latest(trace, |trace|, c, user, j) {
      assert forall k | 0 <= k < |trace| :: more[k] == trace[k];
      assert more[|trace|] == e;
    }
  }

  lemma {:induction false} LinkStays(trace: seq<Event>, e: Event, ttl: int, i: nat)
    requires i < |trace|
    ensures forall j :: Link(trace + [e], ttl, i, j) <==> Link(trace, ttl, i, j)
  {
    var more := trace + [e];
    assert forall k | 0 <= k < |trace| :: more[k] == trace[k];
    forall j ensures Link(more, ttl, i, j) <==> Link(trace, ttl, i, j) {
      if trace[i].Lookup? && 0 <= j < i {
        assert Latest(more, i, trace[i].cache, trace[i].user, j) <==>
               Latest(trace, i, trace[i].cache, trace[i].user, j);
      }
    }
  }

  /** Events stay sound when another sound one is recorded. */
  lemma {:induction false} RecordKeepsEvents(s: State, s': State, e: Event, ttl: int)
    requires EventsInv(s, ttl)
    requires s'.trace == s.trace + [e] && s'.now == s.now && s'.tasks.Keys == s.tasks.Keys
    requires |s'.caches| >= |s.caches|
    requires e.at == s.now && e.task in s.tasks && (!e.Answered? ==> e.cache < |s.caches|)
    requires Sound(s'.trace, ttl, |s.trace|)
    ensures EventsInv(s', ttl)
  {
    assert forall i | 0 <= i < |s.trace| :: s'.trace[i] == s.trace[i] && EventInv(s, ttl, i);
    forall i | 0 <= i < |s'.trace| ensures EventInv(s', ttl, i) {
      if i < |s.trace| {
        LinkStays(s.trace, e, ttl, i);
      }
    }
  }

  /** Other tasks are not affected by what one task does. */
  lemma {:induction false} RecordKeepsTasks(s: State, s': State, e: Event, id: nat)
    requires TasksInv(s) && id in s.tasks && e.task == id
    requires s'.trace == s.trace + [e] && |s'.caches| >= |s.caches|
    requires s'.tasks.Keys == s.tasks.Keys && forall k | k in s.tasks && k != id :: s'.tasks[k] == s.tasks[k]
    requires TaskInv(s', id, s'.tasks[id])
    ensures TasksInv(s')
  {
    forall k | k in s'.tasks ensures TaskInv(s', k, s'.tasks[k]) {
      if k != id {
        assert TaskInv(s, k, s.tasks[k]);
        OthersKeepDecision(s.trace, e, k);
      }
    }
  }

  lemma {:induction false} OthersKeepDecision(trace: seq<Event>, e: Event, k: nat)
    requires e.task != k || !Decides(e)
    ensures Undecided(trace, k) ==> Undecided(trace + [e], k)
    ensures forall f :: DecidedBy(trace, k, f) ==> DecidedBy(trace + [e], k, f)
    ensures HasStamped(trace, k) ==> HasStamped(trace + [e], k)
  {
    assert forall f :: f in trace + [e] <==> f in trace || f == e;
  }

  lemma {:induction false} DecidesNow(trace: seq<Event>, e: Event)
    requires Undecided(trace, e.task) && Decides(e)
    ensures DecidedBy(trace + [e], e.task, e)
  {
    assert forall f :: f in trace + [e] <==> f in trace || f == e;
  }

  /** Caches agree with the trace still when an event that is no stamp for them is recorded. */
  lemma {:induction false} RecordKeepsEntry(s: State, s': State, cache: Cache, e: Event, ttl: int, c: nat, user: string)
    requires EntryInv(s, cache, ttl, c, user) && !StampsFor(e, c, user)
    requires s'.trace == s.trace + [e] && s'.now == s.now
    ensures EntryInv(s', cache, ttl, c, user)
  {
    LatestStays(s.trace, e, c, user);
    if user in cache {
      var j :| Latest(s.trace, |s.trace|, c, user, j) && cache[user] == Entry(s.trace[j].at, s.trace[j].password);
      assert Latest(s'.trace, |s'.trace|, c, user, j) && s'.trace[j] == s.trace[j];
    } else {
      forall j | Latest(s'.trace, |s'.trace|, c, user, j)
        ensures Expired(Entry(s'.trace[j].at, s'.trace[j].password), ttl, s'.now)
      {
        assert Latest(s.trace, |s.trace|, c, user, j) && s'.trace[j] == s.trace[j];
      }
    }
  }

  // ----- The actions of a task -----

  lemma {:induction false} GrantBefore(s: State, ttl: int, id: nat) returns (j: nat)
    requires Inv(s, ttl) && id in s.tasks && (s.tasks[id].phase.Hit? || s.tasks[id].phase.Accepted?)
    ensures j < |s.trace| && s.trace[j].task == id && Grants(s.trace[j])
    ensures OfPair(s.trace[j], s.tasks[id].user, s.tasks[id].password)
  {
    assert TaskInv(s, id, s.tasks[id]);
    var e :| DecidedBy(s.trace, id, e) && OfPair(e, s.tasks[id].user, s.tasks[id].password)
             && Decision(e) == Authenticated;
    j :| 0 <= j < |s.trace| && s.trace[j] == e;
  }

  lemma {:induction false} WriteKeepsCaches(s: State, ttl: int, id: nat, c: nat)
    requires Inv(s, ttl) && id in s.tasks && c < |s.caches|
    ensures CachesInv(Written(s, id, c), ttl)
  {
    var t := s.tasks[id];
    var s' := Written(s, id, c);
    var e := Stamp(id, t.user, t.password, s.now, c);
    forall k, user | 0 <= k < |s'.caches| ensures EntryInv(s', s'.caches[k], ttl, k, user) {
      if k == c && user == t.user {
        assert s'.trace[|s.trace|] == e;
        assert Latest(s'.trace, |s'.trace|, c, user, |s.trace|);
      } else {
        assert EntryInv(s, s.caches[k], ttl, k, user);
        RecordKeepsEntry(s, s', s.caches[k], e, ttl, k, user);
      }
    }
  }

  lemma {:induction false} WriteKeepsInv(s: State, ttl: int, id: nat, c: nat)
    requires Inv(s, ttl) && id in s.tasks && c < |s.caches|
    requires s.tasks[id].phase == Hit(c) || s.tasks[id].phase == Accepted(c)
    ensures Inv(Written(s, id, c), ttl)
  {
    var t := s.tasks[id];
    var s' := Written(s, id, c);
    var e := Stamp(id, t.user, t.password, s.now, c);
    assert TaskInv(s, id, t);
    var j := GrantBefore(s, ttl, id);
    assert s'.trace[j] == s.trace[j] && s'.trace[|s.trace|] == e;
    assert Link(s'.trace, ttl, |s.trace|, j);
    assert e in s'.trace;
    RecordKeepsEvents(s, s', e, ttl);
    OthersKeepDecision(s.trace, e, id);
    RecordKeepsTasks(s, s', e, id);
    WriteKeepsCaches(s, ttl, id, c);
  }

  /** What a lookup finds in the cache is what the trace says. */
  lemma {:induction false} LookupIsSound(s: State, ttl: int, id: nat, c: nat, e: Event)
    requires Inv(s, ttl) && id in s.tasks && c < |s.caches|
    requires e == Lookup(id, s.tasks[id].user, s.tasks[id].password, s.now, c,
                         GetResult(s.caches[c], ttl, s.tasks[id].user, s.now) == Some(s.tasks[id].password))
    ensures Sound(s.trace + [e], ttl, |s.trace|)
  {
    var trace, n := s.trace + [e], |s.trace|;
    assert EntryInv(s, s.caches[c], ttl, c, e.user);
    forall j ensures Latest(trace, n, c, e.user, j) <==> Latest(s.trace, n, c, e.user, j) {
      assert forall k | 0 <= k < n :: trace[k] == s.trace[k];
    }
    if e.user in s.caches[c] {
      var j :| Latest(s.trace, n, c, e.user, j) && s.caches[c][e.user] == Entry(s.trace[j].at, s.trace[j].password);
      forall i | Link(trace, ttl, n, i) ensures i == j {
        LatestIsUnique(s.trace, n, c, e.user, i, j);
      }
      assert Link(trace, ttl, n, j) <==> e.hit;
    } else {
      forall i ensures !Link(trace, ttl, n, i) {
        assert Latest(trace, n, c, e.user, i) ==> Latest(s.trace, n, c, e.user, i);
      }
    }
  }

  lemma {:induction false} DropKeepsEntry(s: State, cache: Cache, ttl: int, c: nat, key: string, user: string)
    requires EntryInv(s, cache, ttl, c, user)
    ensures EntryInv(s, AfterGet(cache, ttl, key, s.now), ttl, c, user)
  {
    if user == key && key in cache && Expired(cache[key], ttl, s.now) {
      var j :| Latest(s.trace, |s.trace|, c, user, j) && cache[user] == Entry(s.trace[j].at, s.trace[j].password);
      forall i | Latest(s.trace, |s.trace|, c, user, i) ensures i == j {
        LatestIsUnique(s.trace, |s.trace|, c, user, i, j);
      }
    }
  }

  lemma {:induction false} LookupKeepsCaches(s: State, ttl: int, id: nat, answer: Answer)
    requires Inv(s, ttl) && id in s.tasks && s.tasks[id].phase.Ready? && s.tasks[id].phase.cache < |s.caches|
    ensures CachesInv(Advance(s, ttl, id, answer), ttl)
  {
    var t := s.tasks[id];
    var s' := Advance(s, ttl, id, answer);
    forall k, user | 0 <= k < |s'.caches| ensures EntryInv(s', s'.caches[k], ttl, k, user) {
      assert EntryInv(s, s.caches[k], ttl, k, user);
      DropKeepsEntry(s, s.caches[k], ttl, k, t.user, user);
      RecordKeepsEntry(s, s', s'.caches[k], s'.trace[|s.trace|], ttl, k, user);
    }
  }

  lemma {:induction false} LookupKeepsInv(s: State, ttl: int, id: nat, answer: Answer)
    requires Inv(s, ttl) && id in s.tasks && s.tasks[id].phase.Ready? && s.tasks[id].phase.cache < |s.caches|
    ensures Inv(Advance(s, ttl, id, answer), ttl)
  {
    var t := s.tasks[id];
    var s' := Advance(s, ttl, id, answer);
    var e := s'.trace[|s.trace|];
    assert TaskInv(s, id, t);
    LookupIsSound(s, ttl, id, t.phase.cache, e);
    RecordKeepsEvents(s, s', e, ttl);
    if e.hit {
      DecidesNow(s.trace, e);
    } else {
      OthersKeepDecision(s.trace, e, id);
    }
    RecordKeepsTasks(s, s', e, id);
    LookupKeepsCaches(s, ttl, id, answer);
  }

  lemma {:induction false} AskKeepsInv(s: State, ttl: int, id: nat, answer: Answer)
    requires Inv(s, ttl) && id in s.tasks && s.tasks[id].phase.Asking? && s.tasks[id].phase.cache < |s.caches|
    ensures Inv(Advance(s, ttl, id, answer), ttl)
  {
    var t := s.tasks[id];
    var s' := Advance(s, ttl, id, answer);
    var e := s'.trace[|s.trace|];
    assert TaskInv(s, id, t);
    RecordKeepsEvents(s, s', e, ttl);
    DecidesNow(s.trace, e);
    RecordKeepsTasks(s, s', e, id);
    forall c, user | 0 <= c < |s'.caches| ensures EntryInv(s', s'.caches[c], ttl, c, user) {
      assert EntryInv(s, s.caches[c], ttl, c, user);
      RecordKeepsEntry(s, s', s.caches[c], e, ttl, c, user);
    }
  }

  // ----- Steps that record nothing -----

  /** Arrivals, obtaining a cache and the passing of time. */
  lemma {:induction false} QuietKeepsInv(s: State, s': State, ttl: int)
    requires Inv(s, ttl) && s'.trace == s.trace && s.now <= s'.now
    requires s'.context.Some? ==> s'.context.value < |s'.caches|
    requires s.caches <= s'.caches && forall c | |s.caches| <= c < |s'.caches| :: s'.caches[c] == map[]
    requires s.tasks.Keys <= s'.tasks.Keys
    requires forall id | id in s'.tasks ::
               TaskInv(s', id, s'.tasks[id]) || (id in s.tasks && s'.tasks[id] == s.tasks[id])
    ensures Inv(s', ttl)
  {
    forall i | 0 <= i < |s'.trace| ensures EventInv(s', ttl, i) {
      assert EventInv(s, ttl, i);
    }
    forall id | id in s'.tasks ensures TaskInv(s', id, s'.tasks[id]) {
      if id in s.tasks {
        assert TaskInv(s, id, s.tasks[id]);
      }
    }
    forall c, user | 0 <= c < |s'.caches| ensures EntryInv(s', s'.caches[c], ttl, c, user) {
      if c < |s.caches| {
        assert s'.caches[c] == s.caches[c];
        assert EntryInv(s, s.caches[c], ttl, c, user);
      } else {
        forall j: int ensures !Latest(s'.trace, |s'.trace|, c, user, j) {
          assert 0 <= j < |s.trace| ==> EventInv(s, ttl, j);
        }
      }
    }
  }

  lemma {:induction false} AdvanceKeepsInv(s: State, ttl: int, id: nat, answer: Answer)
    requires Inv(s, ttl) && CanAdvance(s, id)
    ensures Inv(Advance(s, ttl, id, answer), ttl)
  {
    var s' := Advance(s, ttl, id, answer);
    assert TaskInv(s, id, s.tasks[id]);
    match s.tasks[id].phase {
      case Arrived =>
        QuietKeepsInv(s, s', ttl);
      case Creating(c) =>
        QuietKeepsInv(s, s', ttl);
      case Ready(c) =>
        LookupKeepsInv(s, ttl, id, answer);
      case Asking(c) =>
        AskKeepsInv(s, ttl, id, answer);
      case Hit(c) =>
        WriteKeepsInv(s, ttl, id, c);
      case Accepted(c) =>
        WriteKeepsInv(s, ttl, id, c);
    }
  }

  lemma {:induction false} ArrivalKeepsInv(s: State, ttl: int, id: nat, user: string, password: string)
    requires Inv(s, ttl) && id !in s.tasks
    ensures Inv(s.(tasks := s.tasks[id := Task(user, password, Arrived)]), ttl)
  {
    forall e | e in s.trace ensures e.task != id {
      var i :| 0 <= i < |s.trace| && s.trace[i] == e;
      assert EventInv(s, ttl, i);
    }
    QuietKeepsInv(s, s.(tasks := s.tasks[id := Task(user, password, Arrived)]), ttl);
  }

  lemma {:induction false} StepKeepsInv(s: State, s': State, ttl: int)
    requires Inv(s, ttl) && Step(s, s', ttl)
    ensures Inv(s', ttl)
  {
    if id, answer :| CanAdvance(s, id) && s' == Advance(s, ttl, id, answer) {
      AdvanceKeepsInv(s, ttl, id, answer);
    } else if id: nat, user, password :|
      id !in s.tasks && s' == s.(tasks := s.tasks[id := Task(user, password, Arrived)]) {
      ArrivalKeepsInv(s, ttl, id, user, password);
    } else {
      QuietKeepsInv(s, s', ttl);
    }
  }

  lemma {:induction false} RunKeepsInv(states: seq<State>, ttl: int, i: nat)
    requires Run(states, ttl) && i < |states|
    ensures Inv(states[i], ttl)
    decreases i
  {
    if i > 0 {
      RunKeepsInv(states, ttl, i - 1);
      StepKeepsInv(states[i - 1], states[i], ttl);
    }
  }

  // ----- What the events say -----

  /**
   In every interleaving, a lookup is a hit if and only if the latest stamp of its user in its
   cache was of the same password and has not outlived the interval.
   */
  lemma {:induction false} HitExactly(states: seq<State>, ttl: int, i: nat, k: nat)
    requires Run(states, ttl) && i < |states| && k < |states[i].trace| && states[i].trace[k].Lookup?
    ensures var trace := states[i].trace;
            var e := trace[k];
            e.hit <==> exists j :: && Latest(trace, k, e.cache, e.user, j)
                                   && trace[j].password == e.password
                                   && (ttl <= 0 || e.at - trace[j].at <= ttl)
  {
    RunKeepsInv(states, ttl, i);
    var trace := states[i].trace;
    var e := trace[k];
    assert EventInv(states[i], ttl, k);
    if j :| Latest(trace, k, e.cache, e.user, j) && trace[j].password == e.password
            && (ttl <= 0 || e.at - trace[j].at <= ttl) {
      assert Link(trace, ttl, k, j);
    }
    if e.hit {
      var j :| Link(trace, ttl, k, j);
    }
  }

  /**
   In every interleaving, a request that has ended was decided by exactly one event of its own,
   a hit or an answer of the provider, and its outcome is what that event says: it is let in if and
   only if it had a hit or was accepted, refused if and only if it was rejected, and failed if
   and only if the provider could not be reached. Exactly those let in have stamped a cache.
   */
  lemma {:induction false} OutcomeExactly(states: seq<State>, ttl: int, i: nat, id: nat)
    requires Run(states, ttl) && i < |states|
    requires id in states[i].tasks && states[i].tasks[id].phase.Done?
    ensures var t, trace := states[i].tasks[id], states[i].trace;
            && (exists e :: DecidedBy(trace, id, e) && OfPair(e, t.user, t.password))
            && (t.phase.outcome == Authenticated <==>
                exists e :: e in trace && e.task == id
                            && ((e.Lookup? && e.hit) || (e.Answered? && e.answer == Accepts)))
            && (t.phase.outcome == Refused <==>
                exists e :: e in trace && e.task == id && e.Answered? && e.answer == Rejects)
            && (t.phase.outcome == Failed <==>
                exists e :: e in trace && e.task == id && e.Answered? && e.answer == Unreachable)
            && (t.phase.outcome == Authenticated <==> HasStamped(trace, id))
  {
    RunKeepsInv(states, ttl, i);
    var t, trace := states[i].tasks[id], states[i].trace;
    assert TaskInv(states[i], id, t);
    var e :| DecidedBy(trace, id, e) && OfPair(e, t.user, t.password) && Decision(e) == t.phase.outcome;
    assert forall f | f in trace && f.task == id && Decides(f) :: f == e;
    forall f | f in trace && f.task == id && f.Stamp? ensures t.phase.outcome == Authenticated {
      var k :| 0 <= k < |trace| && trace[k] == f;
      assert EventInv(states[i], ttl, k);
      var j :| Link(trace, ttl, k, j);
      assert trace[j] in trace;
    }
  }

  // ----- From a grant back to the provider -----

  /** Events, each justified by the next, back to an acceptance by the provider. */
  ghost predicate Chain(trace: seq<Event>, ttl: int, chain: seq<nat>) {
    && chain != []
    && (forall k | 0 <= k < |chain| :: chain[k] < |trace|)
    && (forall k | 0 <= k < |chain| - 1 :: Link(trace, ttl, chain[k], chain[k + 1]))
    && var origin := trace[chain[|chain| - 1]];
       origin.Answered? && origin.answer.Accepts?
  }

  lemma {:induction false} ChainFrom(trace: seq<Event>, ttl: int, i: nat) returns (chain: seq<nat>)
    requires i < |trace| && (trace[i].Stamp? || Grants(trace[i]))
    requires forall k | 0 <= k < |trace| :: Sound(trace, ttl, k)
    ensures Chain(trace, ttl, chain) && chain[0] == i
    ensures forall k | 0 <= k < |chain| :: OfPair(trace[chain[k]], trace[i].user, trace[i].password)
    decreases i
  {
    if trace[i].Answered? {
      chain := [i];
    } else {
      assert Sound(trace, ttl, i);
      var j :| Link(trace, ttl, i, j);
      var rest := ChainFrom(trace, ttl, j);
      chain := [i] + rest;
      assert forall k | 0 < k < |chain| :: chain[k] == rest[k - 1];
    }
  }

  /**
   In every interleaving, a request that is let in leads back from its own hit or acceptance,
   through stamps and hits of exactly its user and password, to an acceptance of that pair by
   the provider. Each stamp on the way follows a hit or an acceptance of the task that wrote
   it; each hit uses the latest stamp of the user in its cache, not older than the interval.
   */
  lemma {:induction false} GrantsTraceToProvider(states: seq<State>, ttl: int, i: nat, id: nat)
    requires Run(states, ttl) && i < |states|
    requires id in states[i].tasks && states[i].tasks[id].phase == Done(Authenticated)
    ensures var t := states[i].tasks[id];
            var trace := states[i].trace;
            && (forall j, k | 0 <= j < k < |trace| :: trace[j].at <= trace[k].at)
            && exists chain :: && Chain(trace, ttl, chain)
                               && DecidedBy(trace, id, trace[chain[0]]) && Grants(trace[chain[0]])
                               && forall k | 0 <= k < |chain| :: OfPair(trace[chain[k]], t.user, t.password)
  {
    RunKeepsInv(states, ttl, i);
    var t := states[i].tasks[id];
    var trace := states[i].trace;
    assert TaskInv(states[i], id, t);
    forall k | 0 <= k < |trace| ensures Sound(trace, ttl, k) && forall j | 0 <= j < k :: trace[j].at <= trace[k].at {
      assert EventInv(states[i], ttl, k);
    }
    var e :| DecidedBy(trace, id, e) && OfPair(e, t.user, t.password) && Decision(e) == Authenticated;
    var k :| 0 <= k < |trace| && trace[k] == e;
    var chain := ChainFrom(trace, ttl, k);
  }

  // ----- One task alone -----

  ghost function Rank(p: Phase): nat {
    match p
    case Arrived => 4
    case Creating(_) => 3
    case Ready(_) => 2
    case Asking(_) => 1
    case Hit(_) => 0
    case Accepted(_) => 0
    case Done(_) => 0
  }

  /** The task's actions up to its end, with no other in between. */
  ghost function Finish(s: State, ttl: int, id: nat, answer: Answer): State
    requires id in s.tasks
    requires s.tasks[id].phase.Arrived? || s.tasks[id].phase.Done? || s.tasks[id].phase.cache < |s.caches|
    requires s.context.Some? ==> s.context.value < |s.caches|
    decreases Rank(s.tasks[id].phase), !s.tasks[id].phase.Done?
  {
    if s.tasks[id].phase.Done? then s else Finish(Advance(s, ttl, id, answer), ttl, id, answer)
  }

  /** From the lookup on, alone, a task has the outcome and leaves the cache that `Served` says. */
  lemma {:induction false} AloneFromLookup(s: State, ttl: int, id: nat, answer: Answer)
    requires id in s.tasks && s.tasks[id].phase.Ready? && s.tasks[id].phase.cache < |s.caches|
    requires s.context.Some? ==> s.context.value < |s.caches|
    ensures var t := s.tasks[id];
            var c := t.phase.cache;
            var (outcome, cache) := Served(s.caches[c], ttl, t.user, t.password, answer, s.now, s.now);
            var end := Finish(s, ttl, id, answer);
            && end.context == s.context && end.caches == s.caches[c := cache]
            && id in end.tasks && end.tasks[id].phase == Done(outcome)
  {
    var s1 := Advance(s, ttl, id, answer);
    var s2 := Advance(s1, ttl, id, answer);
    assert Finish(s, ttl, id, answer) == Finish(s1, ttl, id, answer) == Finish(s2, ttl, id, answer);
    if !s2.tasks[id].phase.Done? {
      var s3 := Advance(s2, ttl, id, answer);
      assert Finish(s2, ttl, id, answer) == Finish(s3, ttl, id, answer) == s3;
    }
  }

  /** The cache the shared context holds, empty if there is none yet. */
  ghost function ContextCache(s: State): Cache
    requires s.context.Some? ==> s.context.value < |s.caches|
  {
    if s.context.Some? then s.caches[s.context.value] else map[]
  }

  /** Alone from its arrival, a request has the outcome and leaves the cache that `Authenticate` promises. */
  lemma {:induction false} AloneIsAuthenticate(s: State, ttl: int, id: nat, answer: Answer)
    requires id in s.tasks && s.tasks[id].phase.Arrived?
    requires s.context.Some? ==> s.context.value < |s.caches|
    ensures var t := s.tasks[id];
            var end := Finish(s, ttl, id, answer);
            && id in end.tasks && end.tasks[id].phase.Done?
            && end.context.Some? && end.context.value < |end.caches|
            && (s.context.Some? ==> end.context == s.context)
            && (end.tasks[id].phase.outcome, ContextCache(end))
               == Served(ContextCache(s), ttl, t.user, t.password, answer, s.now, s.now)
  {
    var s1 := Advance(s, ttl, id, answer);
    assert Finish(s, ttl, id, answer) == Finish(s1, ttl, id, answer);
    if s.context.Some? {
      AloneFromLookup(s1, ttl, id, answer);
    } else {
      var s2 := Advance(s1, ttl, id, answer);
      assert Finish(s1, ttl, id, answer) == Finish(s2, ttl, id, answer);
      AloneFromLookup(s2, ttl, id, answer);
    }
  }

  // ----- No bound on the age of an acceptance -----

  /** The only answer in the trace is an acceptance at time 0, its second event. */
  ghost predicate AcceptedOnce(trace: seq<Event>, user: string, password: string) {
    && |trace| > 1 && trace[1] == Answered(0, user, password, 0, Accepts)
    && forall i | 0 <= i < |trace| && i != 1 :: !trace[i].Answered?
  }

  /** One shared cache, with the pair just stamped by the latest task, which was let in. */
  ghost predicate JustLetIn(s: State, user: string, password: string, id: nat) {
    && s.context == Some(0) && |s.caches| == 1
    && user in s.caches[0] && s.caches[0][user] == Entry(s.now, password)
    && (forall k | k in s.tasks :: k <= id)
    && id in s.tasks && s.tasks[id] == Task(user, password, Done(Authenticated))
    && AcceptedOnce(s.trace, user, password)
  }

  lemma {:induction false} RunGoesOn(states: seq<State>, s: State, ttl: int)
    requires Run(states, ttl) && Step(states[|states| - 1], s, ttl)
    ensures Run(states + [s], ttl)
  {
  }

  lemma {:induction false} RunAdvances(states: seq<State>, ttl: int, id: nat, answer: Answer) returns (more: seq<State>)
    requires Run(states, ttl) && CanAdvance(states[|states| - 1], id)
    ensures Run(more, ttl) && more[|more| - 1] == Advance(states[|states| - 1], ttl, id, answer)
  {
    more := states + [Advance(states[|states| - 1], ttl, id, answer)];
    RunGoesOn(states, more[|more| - 1], ttl);
  }

  lemma {:induction false} Arrives(states: seq<State>, ttl: int, id: nat, user: string, password: string, wait: nat)
    returns (more: seq<State>)
    requires Run(states, ttl) && id !in states[|states| - 1].tasks
    ensures Run(more, ttl)
    ensures var s := states[|states| - 1];
            more[|more| - 1] == s.(now := s.now + wait, tasks := s.tasks[id := Task(user, password, Arrived)])
  {
    var s := states[|states| - 1];
    var later := s.(now := s.now + wait);
    RunGoesOn(states, later, ttl);
    var arrived := later.(tasks := later.tasks[id := Task(user, password, Arrived)]);
    RunGoesOn(states + [later], arrived, ttl);
    more := states + [later] + [arrived];
  }

  /** The first request of the pair, which the provider accepts. */
  lemma {:induction false} FirstLetIn(ttl: int, user: string, password: string) returns (states: seq<State>)
    ensures Run(states, ttl) && JustLetIn(states[|states| - 1], user, password, 0)
    ensures states[|states| - 1].now == 0
  {
    states := [State(0, [], None, map[], [])];
    states := Arrives(states, ttl, 0, user, password, 0);
    states := RunAdvances(states, ttl, 0, Accepts);
    states := RunAdvances(states, ttl, 0, Accepts);
    states := RunAdvances(states, ttl, 0, Accepts);
    states := RunAdvances(states, ttl, 0, Accepts);
    states := RunAdvances(states, ttl, 0, Accepts);
  }

  /** One more request within the interval is let in by the cache. */
  lemma {:induction false} NextLetIn(
    states: seq<State>, ttl: int, user: string, password: string, id: nat, wait: nat) returns (more: seq<State>)
    requires Run(states, ttl) && JustLetIn(states[|states| - 1], user, password, id)
    requires ttl > 0 ==> wait <= ttl
    ensures Run(more, ttl) && JustLetIn(more[|more| - 1], user, password, id + 1)
    ensures more[|more| - 1].now == states[|states| - 1].now + wait
  {
    var s := states[|states| - 1];
    more := Arrives(states, ttl, id + 1, user, password, wait);
    more := RunAdvances(more, ttl, id + 1, Rejects);
    more := RunAdvances(more, ttl, id + 1, Rejects);
    assert more[|more| - 1].trace == s.trace + [Lookup(id + 1, user, password, s.now + wait, 0, true)];
    more := RunAdvances(more, ttl, id + 1, Rejects);
  }

  /**
   Refreshing on every hit sets no bound on how long ago the provider was asked: whatever the
   interval, there is a run with a request let in later than any given time after the only
   acceptance of the run.
   */
  lemma {:induction false} NoBoundOnAge(ttl: int, user: string, password: string, age: nat)
    returns (states: seq<State>, id: nat)
    ensures Run(states, ttl)
    ensures var s := states[|states| - 1];
            && id in s.tasks && s.tasks[id] == Task(user, password, Done(Authenticated))
            && AcceptedOnce(s.trace, user, password) && s.now - s.trace[1].at >= age
    ensures JustLetIn(states[|states| - 1], user, password, id)
    decreases age
  {
    if age == 0 {
      id := 0;
      states := FirstLetIn(ttl, user, password);
    } else {
      var earlier, k := NoBoundOnAge(ttl, user, password, age - 1);
      id := k + 1;
      states := NextLetIn(earlier, ttl, user, password, k, 1);
    }
  }
}
