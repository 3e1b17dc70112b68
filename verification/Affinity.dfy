/**
 Query affinity as a protocol: requests are forwarded, servers answer with query ids, and
 each answer starts a save that runs in the background, in any interleaving.
 */
module Affinity {
  import opened Store
  import opened Scheduler
  import opened Requests
  import Policies
  import KillQuery
  import SchedulerProperties

  /**
   A forwarded query awaiting its answer: what will be saved, and where it was sent; also the
   request it came with and the routing made for it, the query it named if it did, and
   whether the backend it was to go to could be fetched when it was received.
   */
  datatype Pending = Pending(
    query: Query,
    target: Option<string>,
    request: HttpRequest,
    routing: Evaluation,
    named: Option<string>,
    known: bool)

  /** A save looks whether the record exists and then updates or creates it. */
  datatype SavePhase = Fresh | Decided(update: bool) | Finished

  datatype Save = Save(id: string, query: Query, phase: SavePhase)

  /** A lookup of a query id, with the backend it resolved to. */
  datatype Lookup = Lookup(id: string, backendId: Option<string>)

  datatype State = State(
    queries: map<string, Query>,
    backends: set<string>,
    pending: map<nat, Pending>,
    saves: map<nat, Save>,
    issued: map<string, Pending>,  // by the non-empty ids the servers gave
    lookups: seq<Lookup>)

  ghost predicate Initial(s: State) {
    && s.queries == map[] && "" !in s.backends && s.pending == map[] && s.saves == map[]
    && s.issued == map[] && s.lookups == []
  }

  /** A request arrives; `n` is a number not used before. */
  function Received(s: State, n: nat, req: HttpRequest, routing: Evaluation): State
    requires ParseClientRequest(req).Some? && Validate(ParseClientRequest(req).value)
  {
    var r := ParseClientRequest(req).value;
    var d := Dispatch(r, s.queries, s.backends, routing);
    var id := LookupId(r);
    s.(pending := if d.Forwarded? && d.query.Some? then s.pending[n := AwaitingAnswer(s, req, routing, id, d)]
                  else s.pending,
       lookups := if id.None? then s.lookups
                  else s.lookups + [Lookup(id.value, if id.value in s.queries then Some(s.queries[id.value].backendId)
                                                     else None)])
  }

  function AwaitingAnswer(
    s: State, req: HttpRequest, routing: Evaluation, named: Option<string>, d: Disposition): Pending
    requires d.Forwarded? && d.query.Some?
  {
    Pending(d.query.value, d.target, req, routing, named, d.query.value.backendId in s.backends)
  }

  /** The server answers: on success its id is to be saved with the query, otherwise the query is forgotten. */
  function Answered(s: State, n: nat, status: int, id: string): State
    requires n in s.pending
  {
    var p := s.pending[n];
    if 200 <= status < 400 then
      s.(pending := s.pending - {n},
         saves := s.saves[n := Save(id, p.query, Fresh)],
         issued := if id == "" then s.issued else s.issued[id := p])
    else
      s.(pending := s.pending - {n})
  }

  /** The next action of a save; an update merges, and creating an existing record fails. */
  function Saved(s: State, n: nat, failure: bool): State
    requires n in s.saves && !s.saves[n].phase.Finished?
  {
    var save := s.saves[n];
    var finished := s.(saves := s.saves[n := save.(phase := Finished)]);
    if failure then
      finished
    else match save.phase
         case Fresh =>
           s.(saves := s.saves[n := save.(phase := Decided(save.id in s.queries))])
         case Decided(update) =>
           if update && save.id in s.queries then
             finished.(queries := s.queries[save.id := MergedQuery(s.queries[save.id], save.query)])
           else if !update && save.id !in s.queries then
             finished.(queries := s.queries[save.id := save.query])
           else
             finished
  }

  ghost predicate ReceiveStep(s: State, s': State) {
    exists n, req, routing :: CanReceive(s, n, req) && s' == Received(s, n, req, routing)
  }

  ghost predicate AnswerStep(s: State, s': State) {
    exists n, status, id :: CanAnswer(s, n, id) && s' == Answered(s, n, status, id)
  }

  ghost predicate SaveStep(s: State, s': State) {
    exists n, failure :: CanSave(s, n) && s' == Saved(s, n, failure)
  }

  ghost predicate Step(s: State, s': State) {
    || ReceiveStep(s, s') || AnswerStep(s, s') || SaveStep(s, s')
    || ("" !in s'.backends && s' == s.(backends := s'.backends))
  }

  ghost predicate CanReceive(s: State, n: nat, req: HttpRequest) {
    && n !in s.pending && n !in s.saves
    && ParseClientRequest(req).Some? && Validate(ParseClientRequest(req).value)
  }

  /** Only what was sent to a server is answered, and servers never give the same non-empty id twice. */
  ghost predicate CanAnswer(s: State, n: nat, id: string) {
    && n in s.pending && (s.pending[n].target.Some? || s.pending[n].request.absoluteUri)
    && (id == "" || id !in s.issued)
  }

  ghost predicate CanSave(s: State, n: nat) {
    n in s.saves && !s.saves[n].phase.Finished?
  }

  ghost predicate Run(states: seq<State>) {
    && states != [] && Initial(states[0])
    && forall i | 0 <= i < |states| - 1 :: Step(states[i], states[i + 1])
  }

  // ----- Invariant -----

  /** A query goes to the backend it was routed to if that could be fetched, and to none otherwise. */
  ghost predicate PendingInv(p: Pending) {
    && p.target == (if p.known then Some(p.query.backendId) else None)
    && (p.named.Some? ==> p.known)
  }

  ghost predicate RecordInv(s: State, id: string) {
    id in s.queries && id != "" ==>
      && id in s.issued
      && s.queries[id] == s.issued[id].query
      && forall n | n in s.saves && s.saves[n].id == id :: s.saves[n].phase.Finished?
  }

  ghost predicate SaveInv(s: State, n: nat) {
    n in s.saves && s.saves[n].id != "" ==>
      && s.saves[n].id in s.issued
      && s.saves[n].query == s.issued[s.saves[n].id].query
      && (s.saves[n].phase.Decided? ==> !s.saves[n].phase.update)
      && forall k | k in s.saves && s.saves[k].id == s.saves[n].id :: k == n
  }

  ghost predicate LookupInv(s: State, l: Lookup) {
    && l.id != ""
    && (l.backendId.Some? ==> l.id in s.issued && s.issued[l.id].query.backendId == l.backendId.value)
  }

  ghost predicate IssuedInv(s: State, id: string)
    requires id in s.issued
  {
    id != "" && PendingInv(s.issued[id]) && (s.issued[id].known || s.issued[id].request.absoluteUri)
  }

  ghost predicate Inv(s: State) {
    && "" !in s.backends
    && (forall id :: RecordInv(s, id))
    && (forall n :: SaveInv(s, n))
    && (forall n | n in s.pending :: n !in s.saves && PendingInv(s.pending[n]))
    && (forall id | id in s.issued :: IssuedInv(s, id))
    && (forall l | l in s.lookups :: LookupInv(s, l))
  }

  lemma {:induction false} ReceiveKeepsInv(s: State, n: nat, req: HttpRequest, routing: Evaluation)
    requires Inv(s) && CanReceive(s, n, req)
    ensures Inv(Received(s, n, req, routing))
  {
    var r := ParseClientRequest(req).value;
    var s' := Received(s, n, req, routing);
    NoEmptyLookup(req);
    forall id ensures RecordInv(s', id) {
      assert RecordInv(s, id);
    }
    forall k ensures SaveInv(s', k) {
      assert SaveInv(s, k);
    }
    forall l | l in s'.lookups ensures LookupInv(s', l) {
      if l in s.lookups {
        assert LookupInv(s, l);
      } else {
        assert RecordInv(s, l.id);
      }
    }
  }

  lemma {:induction false} AnswerKeepsInv(s: State, n: nat, status: int, id: string)
    requires Inv(s) && CanAnswer(s, n, id)
    ensures Inv(Answered(s, n, status, id))
  {
    var s' := Answered(s, n, status, id);
    forall k | k in s.saves && id != "" ensures s.saves[k].id != id {
      assert SaveInv(s, k);
    }
    forall k ensures SaveInv(s', k) {
      assert SaveInv(s, k);
    }
    forall q ensures RecordInv(s', q) {
      assert RecordInv(s, q);
    }
    forall l | l in s'.lookups ensures LookupInv(s', l) {
      assert LookupInv(s, l);
    }
  }

  lemma {:induction false} SaveKeepsSave(s: State, n: nat, failure: bool, k: nat)
    requires Inv(s) && CanSave(s, n)
    ensures SaveInv(Saved(s, n, failure), k)
  {
    assert SaveInv(s, n) && SaveInv(s, k);
    assert RecordInv(s, s.saves[n].id);
  }

  lemma {:induction false} SaveKeepsRecordInv(s: State, n: nat, failure: bool, id: string)
    requires Inv(s) && CanSave(s, n)
    ensures RecordInv(Saved(s, n, failure), id)
  {
    assert SaveInv(s, n);
    assert RecordInv(s, id);
  }

  lemma {:induction false} SaveKeepsInv(s: State, n: nat, failure: bool)
    requires Inv(s) && CanSave(s, n)
    ensures Inv(Saved(s, n, failure))
  {
    var s' := Saved(s, n, failure);
    forall k ensures SaveInv(s', k) {
      SaveKeepsSave(s, n, failure, k);
    }
    forall id ensures RecordInv(s', id) {
      SaveKeepsRecordInv(s, n, failure, id);
    }
    forall l | l in s'.lookups ensures LookupInv(s', l) {
      assert LookupInv(s, l);
    }
    forall id | id in s'.issued ensures IssuedInv(s', id) {
      assert IssuedInv(s, id);
    }
  }

  lemma {:induction false} StepKeepsInv(s: State, s': State)
    requires Inv(s) && Step(s, s')
    ensures Inv(s')
  {
    if ReceiveStep(s, s') {
      var n, req, routing :| CanReceive(s, n, req) && s' == Received(s, n, req, routing);
      ReceiveKeepsInv(s, n, req, routing);
    } else if AnswerStep(s, s') {
      var n, status, id :| CanAnswer(s, n, id) && s' == Answered(s, n, status, id);
      AnswerKeepsInv(s, n, status, id);
    } else if SaveStep(s, s') {
      var n, failure :| CanSave(s, n) && s' == Saved(s, n, failure);
      SaveKeepsInv(s, n, failure);
    } else {
      forall id ensures RecordInv(s', id) {
        assert RecordInv(s, id);
      }
      forall k ensures SaveInv(s', k) {
        assert SaveInv(s, k);
      }
      forall l | l in s'.lookups ensures LookupInv(s', l) {
        assert LookupInv(s, l);
      }
    }
  }

  lemma {:induction false} RunKeepsInv(states: seq<State>, i: nat)
    requires Run(states) && i < |states|
    ensures Inv(states[i])
    decreases i
  {
    if i > 0 {
      RunKeepsInv(states, i - 1);
      StepKeepsInv(states[i - 1], states[i]);
    }
  }

  // ----- Affinity -----

  /**
   In every interleaving, no lookup uses the empty id, and one that resolves gives the backend
   recorded for the id when a server issued it. The query had been sent there if and only if
   that backend could be fetched when the query was received, which fails only for a query
   that named no other and came with an absolute URI.
   */
  lemma {:induction false} LookupsAreAffine(states: seq<State>, i: nat, l: Lookup)
    requires Run(states) && i < |states| && l in states[i].lookups
    ensures l.id != ""
    ensures l.backendId.Some? ==>
              && l.id in states[i].issued
              && var query := states[i].issued[l.id];
              && query.query.backendId == l.backendId.value
              && (query.target == l.backendId <==> query.known)
              && (!query.known ==> query.target == None && query.named == None && query.request.absoluteUri)
  {
    RunKeepsInv(states, i);
    assert LookupInv(states[i], l);
  }

  /** No query with an absolute URI awaits its answer. */
  ghost predicate NoneAbsolute(s: State) {
    forall n | n in s.pending :: !s.pending[n].request.absoluteUri
  }

  lemma {:induction false} IssuedInStep(s: State, s': State, id: string)
    requires Step(s, s') && NoneAbsolute(s) && id in s'.issued
    ensures (id in s.issued && s.issued[id] == s'.issued[id]) || !s'.issued[id].request.absoluteUri
  {
    if AnswerStep(s, s') {
      var n, status, q :| CanAnswer(s, n, q) && s' == Answered(s, n, status, q);
      assert !s.pending[n].request.absoluteUri;
    }
  }

  lemma {:induction false} IssuedNoneAbsolute(states: seq<State>, i: nat, id: string)
    requires Run(states) && i < |states| && id in states[i].issued
    requires forall k | 0 <= k < i :: NoneAbsolute(states[k])
    ensures !states[i].issued[id].request.absoluteUri
    decreases i
  {
    if i > 0 {
      var s, s' := states[i - 1], states[i];
      assert Step(s, s') && NoneAbsolute(s);
      IssuedInStep(s, s', id);
      if s'.issued[id].request.absoluteUri {
        IssuedNoneAbsolute(states, i - 1, id);
      }
    }
  }

  /** So without absolute URIs every recorded backend is the one its query was sent to. */
  lemma {:induction false} RecordsAreWhereQueriesWent(states: seq<State>, i: nat, id: string)
    requires Run(states) && i < |states| && id in states[i].queries && id != ""
    requires forall k | 0 <= k < i :: NoneAbsolute(states[k])
    ensures id in states[i].issued && states[i].issued[id].target == Some(states[i].queries[id].backendId)
  {
    RunKeepsInv(states, i);
    assert RecordInv(states[i], id);
    IssuedNoneAbsolute(states, i, id);
    assert IssuedInv(states[i], id);
  }

  ghost predicate Recorded(s: State, id: string, query: Query) {
    id in s.queries && s.queries[id] == query
  }

  lemma {:induction false} StepKeepsRecord(s: State, s': State, id: string, query: Query)
    requires Inv(s) && Step(s, s') && id != "" && Recorded(s, id, query)
    ensures Recorded(s', id, query)
  {
    if SaveStep(s, s') {
      var n, failure :| CanSave(s, n) && s' == Saved(s, n, failure);
      SaveKeepsRecord(s, n, failure, id, query);
    }
  }

  lemma {:induction false} SaveKeepsRecord(s: State, n: nat, failure: bool, id: string, query: Query)
    requires Inv(s) && CanSave(s, n) && id != "" && Recorded(s, id, query)
    ensures Recorded(Saved(s, n, failure), id, query)
  {
    assert RecordInv(s, id);
    assert s.saves[n].id != id;
  }

  /** Once recorded, a query id keeps its record through every later step. */
  lemma {:induction false} RecordsStay(states: seq<State>, i: nat, j: nat, id: string, query: Query)
    requires Run(states) && i <= j < |states|
    requires id != "" && Recorded(states[i], id, query)
    ensures Recorded(states[j], id, query)
    decreases j
  {
    if i < j {
      RecordsStay(states, i, j - 1, id, query);
      RunKeepsInv(states, j - 1);
      StepKeepsRecord(states[j - 1], states[j], id, query);
    }
  }

  /**
   What each action of a save does to the records: a failing one nothing; the first only looks; the
   second creates a missing record or fills the fields given into an existing one, as looked up.
   */
  lemma {:induction false} SavedExactly(s: State, n: nat, failure: bool, id: string)
    requires CanSave(s, n)
    ensures var save, s' := s.saves[n], Saved(s, n, failure);
            && s'.saves.Keys == s.saves.Keys
            && (failure || save.phase.Decided? ==> s'.saves[n].phase == Finished)
            && (!failure && save.phase.Fresh? ==> s'.saves[n].phase == Decided(save.id in s.queries))
            && (failure || save.phase.Fresh? || id != save.id ==>
                  (id in s'.queries <==> id in s.queries) && (id in s.queries ==> s'.queries[id] == s.queries[id]))
            && (!failure && save.phase == Decided(false) ==>
                  save.id in s'.queries &&
                  s'.queries[save.id] == if save.id in s.queries then s.queries[save.id] else save.query)
            && (!failure && save.phase == Decided(true) && save.id in s.queries ==>
                  save.id in s'.queries &&
                  var row, was, given := s'.queries[save.id], s.queries[save.id], save.query;
                  && row.text == (if given.text == "" then was.text else given.text)
                  && row.username == (if given.username == "" then was.username else given.username)
                  && row.backendId == (if given.backendId == "" then was.backendId else given.backendId)
                  && row.groupId == (if given.groupId == "" then was.groupId else given.groupId))
  {
  }

  /** A save that meets no failure makes the id resolve to the backend recorded for it. */
  lemma {:induction false} SaveResolves(s: State, n: nat)
    requires Inv(s) && n in s.saves && s.saves[n].phase == Fresh && s.saves[n].id != ""
    ensures var looked := Saved(s, n, false);
            CanSave(looked, n) &&
            var id := s.saves[n].id;
            var written := Saved(looked, n, false);
            id in s.issued && id in written.queries && written.queries[id] == s.issued[id].query
  {
    assert SaveInv(s, n);
    assert RecordInv(s, s.saves[n].id);
  }

  /** A save left alone creates the record or updates it, as the upsert of the query service does. */
  lemma {:induction false} AloneIsUpsert(s: State, n: nat)
    requires n in s.saves && s.saves[n].phase == Fresh
    ensures var looked := Saved(s, n, false);
            CanSave(looked, n) &&
            var id, query := s.saves[n].id, s.saves[n].query;
            Saved(looked, n, false).queries
            == s.queries[id := if id in s.queries then MergedQuery(s.queries[id], query) else query]
  {
  }

  // ----- What is recorded is what was asked -----

  /**
   What will be saved is the text and user of the request, with the backend and group of its
   routing, or of the query it names.
   */
  ghost predicate Carried(s: State, p: Pending) {
    && p.query.text == p.request.body && p.query.username == p.request.user
    && match p.named
       case Some(id) =>
         && id in s.issued && p.query.backendId == s.issued[id].query.backendId
         && p.query.groupId == s.issued[id].query.groupId
       case None =>
         p.routing.Routed? && p.query.backendId == p.routing.backendId && p.query.groupId == p.routing.groupId
  }

  ghost predicate AllCarried(s: State) {
    && (forall n | n in s.pending :: Carried(s, s.pending[n]))
    && (forall id | id in s.issued :: Carried(s, s.issued[id]))
  }

  /** Issued ids stay as they are and only new ones are added. */
  lemma {:induction false} MoreIssued(s: State, s': State, p: Pending)
    requires Carried(s, p)
    requires forall id | id in s.issued :: id in s'.issued && s'.issued[id] == s.issued[id]
    ensures Carried(s', p)
  {
  }

  lemma {:induction false} ReceivedIsCarried(s: State, n: nat, req: HttpRequest, routing: Evaluation)
    requires Inv(s) && CanReceive(s, n, req)
    ensures var s' := Received(s, n, req, routing);
            n in s'.pending ==>
              var p := s'.pending[n];
              && Carried(s, p) && p.request == req && p.routing == routing
              && p.named == LookupId(ParseClientRequest(req).value)
  {
    var r := ParseClientRequest(req).value;
    NoEmptyLookup(req);
    QueryCarried(req, s.queries, s.backends, routing);
    if LookupId(r).Some? {
      LookupDecides(r, s.queries, s.backends, routing);
      assert RecordInv(s, LookupId(r).value);
    }
  }

  lemma {:induction false} KeepsCarried(s: State, s': State, n: nat)
    requires AllCarried(s)
    requires forall id | id in s.issued :: id in s'.issued && s'.issued[id] == s.issued[id]
    requires forall k | k in s'.pending && k !in s.pending :: Carried(s, s'.pending[k])
    requires forall k | k in s'.pending && k in s.pending :: s'.pending[k] == s.pending[k]
    requires forall id | id in s'.issued && id !in s.issued :: n in s.pending && s'.issued[id] == s.pending[n]
    ensures AllCarried(s')
  {
    forall k | k in s'.pending ensures Carried(s', s'.pending[k]) {
      MoreIssued(s, s', s'.pending[k]);
    }
    forall id | id in s'.issued ensures Carried(s', s'.issued[id]) {
      MoreIssued(s, s', s'.issued[id]);
    }
  }

  lemma {:induction false} ReceiveKeepsCarried(s: State, n: nat, req: HttpRequest, routing: Evaluation)
    requires Inv(s) && AllCarried(s) && CanReceive(s, n, req)
    ensures AllCarried(Received(s, n, req, routing))
  {
    ReceivedIsCarried(s, n, req, routing);
    KeepsCarried(s, Received(s, n, req, routing), n);
  }

  lemma {:induction false} AnswerKeepsCarried(s: State, n: nat, status: int, id: string)
    requires AllCarried(s) && CanAnswer(s, n, id)
    ensures AllCarried(Answered(s, n, status, id))
  {
    KeepsCarried(s, Answered(s, n, status, id), n);
  }

  lemma {:induction false} SaveKeepsCarried(s: State, n: nat, failure: bool)
    requires AllCarried(s) && CanSave(s, n)
    ensures AllCarried(Saved(s, n, failure))
  {
    KeepsCarried(s, Saved(s, n, failure), n);
  }

  /** A request waits for an answer exactly if it is a query that is forwarded; every lookup is recorded. */
  lemma {:induction false} ReceivedExactly(s: State, n: nat, req: HttpRequest, routing: Evaluation)
    requires Inv(s) && CanReceive(s, n, req)
    ensures var s' := Received(s, n, req, routing);
            var r := ParseClientRequest(req).value;
            var id := LookupId(r);
            && (n in s'.pending <==> req.verb == "POST" && Dispatch(r, s.queries, s.backends, routing).Forwarded?)
            && (id.None? ==> s'.lookups == s.lookups)
            && (id.Some? ==>
                  && |s'.lookups| == |s.lookups| + 1 && s.lookups < s'.lookups
                  && s'.lookups[|s.lookups|].id == id.value
                  && (s'.lookups[|s.lookups|].backendId
                      == if id.value in s.queries then Some(s.queries[id.value].backendId) else None))
            && s' == s.(pending := s'.pending, lookups := s'.lookups)
  {
    QueryCarried(req, s.queries, s.backends, routing);
  }

  lemma {:induction false} StepKeepsCarried(s: State, s': State)
    requires Inv(s) && AllCarried(s) && Step(s, s')
    ensures AllCarried(s')
  {
    if ReceiveStep(s, s') {
      var n, req, routing :| CanReceive(s, n, req) && s' == Received(s, n, req, routing);
      ReceiveKeepsCarried(s, n, req, routing);
    } else if AnswerStep(s, s') {
      var n, status, id :| CanAnswer(s, n, id) && s' == Answered(s, n, status, id);
      AnswerKeepsCarried(s, n, status, id);
    } else if SaveStep(s, s') {
      var n, failure :| CanSave(s, n) && s' == Saved(s, n, failure);
      SaveKeepsCarried(s, n, failure);
    } else {
      KeepsCarried(s, s', 0);
    }
  }

  lemma {:induction false} RunKeepsCarried(states: seq<State>, i: nat)
    requires Run(states) && i < |states|
    ensures AllCarried(states[i])
    decreases i
  {
    if i > 0 {
      RunKeepsCarried(states, i - 1);
      RunKeepsInv(states, i - 1);
      StepKeepsCarried(states[i - 1], states[i]);
    }
  }

  /**
   In every interleaving, the record of an id has the text and user of the request that was
   answered with that id, and the backend and group of the routing made for it; if that request
   named a query, those of the query named.
   */
  lemma {:induction false} RecordsTellTheRequest(states: seq<State>, i: nat, id: string)
    requires Run(states) && i < |states| && id in states[i].queries && id != ""
    ensures id in states[i].issued
    ensures var record, from := states[i].queries[id], states[i].issued[id];
            && record.text == from.request.body && record.username == from.request.user
            && match from.named
               case None =>
                 && from.routing.Routed? && record.backendId == from.routing.backendId
                 && record.groupId == from.routing.groupId
               case Some(other) =>
                 && other in states[i].issued && record.backendId == states[i].issued[other].query.backendId
                 && record.groupId == states[i].issued[other].query.groupId
  {
    RunKeepsInv(states, i);
    RunKeepsCarried(states, i);
    assert RecordInv(states[i], id);
    assert Carried(states[i], states[i].issued[id]);
  }

  /** An answer issues its id and starts the save of its query if and only if the status is 200 to 399. */
  lemma {:induction false} AnsweredExactly(s: State, n: nat, status: int, id: string)
    requires Inv(s) && CanAnswer(s, n, id) && id != ""
    ensures var s' := Answered(s, n, status, id);
            && n !in s'.pending && s'.queries == s.queries
            && (id in s'.issued <==> 200 <= status <= 399)
            && (n in s'.saves <==> 200 <= status <= 399)
            && (200 <= status <= 399 ==> s'.saves[n] == Save(id, s.pending[n].query, Fresh) &&
                                         s'.issued[id] == s.pending[n])
  {
  }

  /**
   Once a query is recorded, every later request for its id, from the UI, to cancel it or by
   kill_query, goes to the backend it was routed to as long as that exists, and else nowhere.
   That is where the query itself was sent if and only if that backend could be fetched then.
   */
  lemma {:induction false} RequestsFollowTheQuery(
    states: seq<State>, i: nat, j: nat, id: string, r: ClientRequest, routing: Evaluation)
    requires Run(states) && i <= j < |states|
    requires id in states[i].queries && Validate(r) && LookupId(r) == Some(id) && id != ""
    ensures id in states[i].issued
    ensures var sent := states[i].issued[id];
            var d := Dispatch(r, states[j].queries, states[j].backends, routing);
            && (d.Forwarded? <==> sent.query.backendId in states[j].backends)
            && (d.Forwarded? ==> d.target == Some(sent.query.backendId))
            && (sent.target == Some(sent.query.backendId) <==> sent.known)
  {
    RunKeepsInv(states, i);
    assert RecordInv(states[i], id);
    assert IssuedInv(states[i], id);
    RecordsStay(states, i, j, id, states[i].queries[id]);
    RunKeepsInv(states, j);
    LookupDecides(r, states[j].queries, states[j].backends, routing);
  }

  // ----- A query recorded for a backend it was not sent to -----

  ghost function SaveAll(s: State, n: nat): (written: State)
    requires n in s.saves && s.saves[n].phase == Fresh
  {
    var looked := Saved(s, n, false);
    Saved(looked, n, false)
  }

  /**
   A new query routed to a backend is forwarded whether or not that can be fetched. It can be
   answered exactly if the backend could be fetched or the URI is absolute, and once answered
   and saved it is recorded for that backend, where it was sent exactly in the first case.
   */
  lemma {:induction false} RecordedWithoutBeingSent(
    s: State, n: nat, req: HttpRequest, backendId: string, groupId: string, id: string)
    requires Inv(s) && CanReceive(s, n, req)
    requires ParseClientRequest(req).value.QueryRequest? && LookupId(ParseClientRequest(req).value).None?
    requires id != "" && id !in s.issued
    ensures var received := Received(s, n, req, Routed(backendId, groupId));
            && (CanAnswer(received, n, id) <==> backendId in s.backends || req.absoluteUri)
            && (CanAnswer(received, n, id) ==>
                  var answered := Answered(received, n, 200, id);
                  && n in answered.saves && answered.saves[n].phase == Fresh
                  && var written := SaveAll(answered, n);
                  && id in written.queries && written.queries[id].backendId == backendId
                  && id in written.issued
                  && written.issued[id].target == if backendId in s.backends then Some(backendId) else None)
  {
    var r := ParseClientRequest(req).value;
    NewQueryIsSentExactlyWhen(r, s.queries, s.backends, Routed(backendId, groupId));
    assert RecordInv(s, id);
  }

  /** A run of the five steps of one such query from a state in which nothing has happened. */
  ghost function StrayRun(
    backends: set<string>, req: HttpRequest, routing: Evaluation, id: string): (states: seq<State>)
    requires "" !in backends && routing.Routed? && CanStray(req)
  {
    var start := State(map[], backends, map[], map[], map[], []);
    NoEmptyLookup(req);
    var received := Received(start, 0, req, routing);
    var answered := Answered(received, 0, 200, id);
    var looked := Saved(answered, 0, false);
    [start, received, answered, looked, Saved(looked, 0, false)]
  }

  ghost predicate CanStray(req: HttpRequest) {
    && ParseClientRequest(req).Some? && Validate(ParseClientRequest(req).value)
    && ParseClientRequest(req).value.QueryRequest? && LookupId(ParseClientRequest(req).value).None?
    && req.absoluteUri
  }

  lemma {:induction false} StrayRunIsRun(backends: set<string>, req: HttpRequest, routing: Evaluation, id: string)
    requires "" !in backends && routing.Routed? && CanStray(req) && id != ""
    ensures Run(StrayRun(backends, req, routing, id))
  {
    var states := StrayRun(backends, req, routing, id);
    assert CanReceive(states[0], 0, req) && states[1] == Received(states[0], 0, req, routing);
    assert CanAnswer(states[1], 0, id) && states[2] == Answered(states[1], 0, 200, id);
    assert CanSave(states[2], 0) && states[3] == Saved(states[2], 0, false);
    assert CanSave(states[3], 0) && states[4] == Saved(states[3], 0, false);
    assert ReceiveStep(states[0], states[1]) && AnswerStep(states[1], states[2]);
    assert SaveStep(states[2], states[3]) && SaveStep(states[3], states[4]);
    forall i | 0 <= i < 4 ensures Step(states[i], states[i + 1]) {
    }
  }

  function StrayRequest(client: Policies.Client): HttpRequest {
    HttpRequest("POST", "/v1/statement", "", "show tables", "user", "", client, true)
  }

  lemma {:induction false} StrayRequestCanStray(client: Policies.Client)
    ensures CanStray(StrayRequest(client))
  {
    KillQuery.NoCallNoId(StrayRequest(client).body);
  }

  lemma {:induction false} StrayRunEnds(backends: set<string>, req: HttpRequest, routing: Evaluation, id: string)
    requires "" !in backends && routing.Routed? && routing.backendId !in backends && CanStray(req) && id != ""
    ensures var end := StrayRun(backends, req, routing, id)[4];
            && id in end.queries && end.queries[id].backendId == routing.backendId
            && id in end.issued && end.issued[id].target == None
  {
  }

  /**
   It happens: with the database of `SchedulerProperties.EmptyIdExample` the request for groups
   a and b is routed to the empty id, and "show tables" sent with an absolute URI is recorded for that.
   */
  lemma {:induction false} StrayExample(
    a: string, b: string, x: string, y: string, z: string, cfg: Config, clock: Clock, client: Policies.Client)
    requires a != b && x != "" && y != "" && z != "" && x != y && x != z && y != z
    ensures var db := SchedulerProperties.ExampleDb(a, b, x, false, y, z);
            && db.Valid() && "" !in db.backends.Keys && CanStray(StrayRequest(client))
            && var routing := Evaluated(db, cfg, [a, b], clock).0;
            && routing.Routed? && routing.backendId == ""
            && var states := StrayRun(db.backends.Keys, StrayRequest(client), routing, "q");
            && Run(states) && "q" in states[4].queries && states[4].queries["q"].backendId == ""
            && "q" in states[4].issued && states[4].issued["q"].target == None
  {
    var backends := SchedulerProperties.ExampleDb(a, b, x, false, y, z).backends.Keys;
    SchedulerProperties.EmptyIdExample(a, b, x, y, z, cfg, clock);
    StrayRequestCanStray(client);
    StrayRunIsRun(backends, StrayRequest(client), Routed("", a), "q");
    StrayRunEnds(backends, StrayRequest(client), Routed("", a), "q");
  }
}
