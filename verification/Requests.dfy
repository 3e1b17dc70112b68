/**
 Client requests: how they are recognised and checked, and where they are sent.
 */
module Requests {
  import opened Store
  import opened Policies
  import opened Scheduler
  import KillQuery
  import SchedulerProperties

  datatype HttpRequest = HttpRequest(
    verb: string,
    path: string,
    rawQuery: string,
    body: string,           // decoded; empty if it cannot be read
    user: string,
    transactionId: string,
    client: Client,
    absoluteUri: bool)      // it names a server itself, as a request to a proxy may

  datatype ClientRequest =
    | UiRequest(queryId: string)
    | ApiRequest
    | QueryRequest(queryId: string, text: string, username: string, transactionId: string, client: Client)
    | QueryApiRequest(queryId: string, username: string, transactionId: string)

  predicate Contains(s: string, part: string) {
    exists i | 0 <= i <= |s| :: part <= s[i..]
  }

  function TrimPrefix(s: string, prefix: string): string {
    if prefix <= s then s[|prefix|..] else s
  }

  function ParseClientRequest(req: HttpRequest): Option<ClientRequest> {
    if req.verb == "GET" then
      if Contains(req.path, "ui/") then Some(UiRequest(req.rawQuery))
      else if Contains(req.path, "v1/info") || Contains(req.path, "v1/status") then Some(ApiRequest)
      else None
    else if req.verb == "POST" then
      Some(QueryRequest(KillQuery.ExtractQueryId(req.body), req.body, req.user, req.transactionId, req.client))
    else if req.verb == "DELETE" && "/v1/query" <= req.path then
      Some(QueryApiRequest(TrimPrefix(req.path, "/v1/query/"), req.user, req.transactionId))
    else
      None
  }

  predicate NoTransaction(transactionId: string) {
    transactionId == "" || transactionId == "NONE"
  }

  predicate Validate(r: ClientRequest) {
    match r
    case UiRequest(id) => id != ""
    case ApiRequest => true
    case QueryRequest(_, text, user, transaction, _) => user != "" && text != "" && NoTransaction(transaction)
    case QueryApiRequest(id, user, transaction) => user != "" && id != "" && NoTransaction(transaction)
  }

  /** The id under which a valid request looks up a backend, if it does. */
  function LookupId(r: ClientRequest): Option<string> {
    match r
    case UiRequest(id) => Some(id)
    case ApiRequest => None
    case QueryRequest(id, _, _, _, _) => if id != "" then Some(id) else None
    case QueryApiRequest(id, _, _) => Some(id)
  }

  /** No request reaches the lookup with the empty id. */
  lemma {:induction false} NoEmptyLookup(req: HttpRequest)
    ensures var r := ParseClientRequest(req);
            r.Some? && Validate(r.value) ==> LookupId(r.value) != Some("")
  {
  }

  /** Each way of naming a query leads to a lookup of exactly that query. */
  lemma {:induction false} RequestsNameTheirQuery(req: HttpRequest, id: string)
    requires id != ""
    requires || (req.verb == "GET" && Contains(req.path, "ui/") && req.rawQuery == id)
             || (req.verb == "DELETE" && req.path == "/v1/query/" + id)
             || (req.verb == "POST" &&
                 exists c :: KillQuery.Printable(c) && c.id == id && req.body == KillQuery.Printed(c))
    ensures var r := ParseClientRequest(req);
            && r.Some? && LookupId(r.value) == Some(id)
            && (Validate(r.value) <==>
                req.verb == "GET" || (req.user != "" && (req.transactionId == "" || req.transactionId == "NONE")))
  {
    if req.verb == "DELETE" {
      assert "/v1/query/" == "/v1/query" + "/";
      assert req.path[|"/v1/query/"|..] == id;
    } else if req.verb == "POST" {
      var c :| KillQuery.Printable(c) && c.id == id && req.body == KillQuery.Printed(c);
      assert "" + req.body == req.body;
      KillQuery.ExtractsPrintedId("", c);
    }
  }

  /**
   What becomes of a request. A forwarded one is sent to the target, or left with the URL it
   came with if there is none, which leads nowhere unless it is absolute; a query carries what
   will be saved once the server answers.
   */
  datatype Disposition =
    | Rejected
    | Untouched
    | Forwarded(target: Option<string>, query: Option<Query>)

  /** Sends a request whose backend must exist; `known` are the backends that can be fetched. */
  function SendTo(known: set<string>, backendId: string, query: Option<Query>): Disposition {
    if backendId in known then Forwarded(Some(backendId), query) else Rejected
  }

  /** `routing` is the evaluation of policies and groups, made only for a query without an id. */
  function Dispatch(r: ClientRequest, queries: map<string, Query>, known: set<string>, routing: Evaluation): Disposition
    requires Validate(r)
  {
    match r
    case ApiRequest => Untouched
    case UiRequest(id) =>
      if id in queries then SendTo(known, queries[id].backendId, None) else Rejected
    case QueryApiRequest(id, _, _) =>
      SendTo(known, if id in queries then queries[id].backendId else "", None)
    case QueryRequest(id, text, user, _, _) =>
      if id != "" then
        var found := if id in queries then queries[id] else Query("", "", "", "");
        SendTo(known, found.backendId, Some(Query(text, user, found.backendId, found.groupId)))
      else if routing.Failed? then
        Rejected
      else
        // the error of preparing the request is dropped here
        Forwarded(if routing.backendId in known then Some(routing.backendId) else None,
                  Some(Query(text, user, routing.backendId, routing.groupId)))
  }

  /** A request that looks up an id goes to the recorded backend if it still exists, and nowhere otherwise. */
  lemma {:induction false} LookupDecides(
    r: ClientRequest, queries: map<string, Query>, known: set<string>, routing: Evaluation)
    requires Validate(r) && LookupId(r).Some? && "" !in known
    ensures var d := Dispatch(r, queries, known, routing);
            var id := LookupId(r).value;
            && !d.Untouched?
            && (d.Forwarded? <==> id in queries && queries[id].backendId in known)
            && (d.Forwarded? ==> d.target == Some(queries[id].backendId) &&
                                 (r.QueryRequest? <==> d.query.Some?) &&
                                 (r.QueryRequest? ==> d.query.value.backendId == queries[id].backendId))
  {
  }

  /** A new query that is forwarded carries the chosen backend, but is sent there exactly if that can be fetched. */
  lemma {:induction false} NewQueryIsSentExactlyWhen(
    r: ClientRequest, queries: map<string, Query>, known: set<string>, routing: Evaluation)
    requires Validate(r) && r.QueryRequest? && LookupId(r).None?
    ensures var d := Dispatch(r, queries, known, routing);
            && (d.Forwarded? <==> routing.Routed?)
            && (d.Forwarded? ==> d.query.Some? && d.query.value.backendId == routing.backendId &&
                                 (d.target == Some(routing.backendId) <==> routing.backendId in known) &&
                                 (d.target.Some? <==> routing.backendId in known))
  {
  }

  /** `Contains` on the parts of the text. */
  lemma {:induction false} ContainsExactly(s: string, part: string)
    ensures Contains(s, part) <==> exists before, after :: s == before + part + after
  {
    if i :| 0 <= i <= |s| && part <= s[i..] {
      assert s == s[..i] + part + s[i + |part|..];
    }
    if before, after :| s == before + part + after {
      assert s[|before|..] == part + after;
    }
  }

  /** Which requests are taken up at all, and what a query or a cancellation needs for it. */
  lemma {:induction false} AcceptedExactly(req: HttpRequest)
    ensures var r := ParseClientRequest(req);
            var free := req.transactionId == "" || req.transactionId == "NONE";
            r.Some? && Validate(r.value) <==>
            || (req.verb == "GET" && Contains(req.path, "ui/") && req.rawQuery != "")
            || (req.verb == "GET" && !Contains(req.path, "ui/") &&
                (Contains(req.path, "v1/info") || Contains(req.path, "v1/status")))
            || (req.verb == "POST" && req.user != "" && req.body != "" && free)
            || (req.verb == "DELETE" && "/v1/query" <= req.path && req.path != "/v1/query/" && req.user != "" && free)
  {
    if req.verb == "DELETE" && "/v1/query/" <= req.path {
      assert req.path == "/v1/query/" + req.path[|"/v1/query/"|..];
    }
  }

  /** Information and status requests pass as they are, and no others. */
  lemma {:induction false} UntouchedExactly(
    req: HttpRequest, queries: map<string, Query>, known: set<string>, routing: Evaluation)
    requires ParseClientRequest(req).Some? && Validate(ParseClientRequest(req).value)
    ensures Dispatch(ParseClientRequest(req).value, queries, known, routing) == Untouched <==>
            req.verb == "GET" && !Contains(req.path, "ui/") &&
            (Contains(req.path, "v1/info") || Contains(req.path, "v1/status"))
  {
  }

  /**
   What a forwarded request carries to be saved: nothing unless it is a query, else its body as
   the text and its user, with the backend and group of the routing, or of the record it names.
   */
  lemma {:induction false} QueryCarried(
    req: HttpRequest, queries: map<string, Query>, known: set<string>, routing: Evaluation)
    requires ParseClientRequest(req).Some? && Validate(ParseClientRequest(req).value) && "" !in known
    ensures var d := Dispatch(ParseClientRequest(req).value, queries, known, routing);
            var id := KillQuery.ExtractQueryId(req.body);
            d.Forwarded? ==>
              && (d.query.Some? <==> req.verb == "POST")
              && (d.query.Some? ==>
                    var query := d.query.value;
                    && query.text == req.body && query.username == req.user
                    && if id == "" then
                         routing.Routed? && query.backendId == routing.backendId && query.groupId == routing.groupId
                       else
                         && id in queries && query.backendId == queries[id].backendId
                         && query.groupId == queries[id].groupId)
  {
  }

  // ----- The request path on the database -----

  /** Groups by policy, then a backend by group. The order in which the groups come back does not matter. */
  method EvaluateRoutingBackend(db: GatewayDb, cfg: Config, client: Client, clock: Clock) returns (routing: Evaluation)
    requires db.State().Valid()
    modifies db`groups
    ensures db.State().Valid()
    ensures forall groupIds: seq<string> ::
              (forall g :: g in groupIds <==> Allowed(old(db.policies), client, g)) ==>
              (routing, db.State()) == Evaluated(old(db.State()), cfg, groupIds, clock)
  {
    ghost var before := db.State();
    var groupIds := EvaluateGroupsForClient(db, client);
    routing := EvaluateBackendForGroups(db, cfg, groupIds, clock);
    forall other: seq<string> | forall g :: g in other <==> Allowed(before.policies, client, g)
      ensures Evaluated(before, cfg, groupIds, clock) == Evaluated(before, cfg, other, clock)
    {
      SchedulerProperties.RequestOrderIsIrrelevant(before, cfg, groupIds, other, clock);
    }
  }

  method ProcessRequest(db: GatewayDb, cfg: Config, req: HttpRequest, clock: Clock)
    returns (d: Disposition, ghost routing: Evaluation)
    requires db.State().Valid()
    modifies db`groups
    ensures db.State().Valid()
    ensures var r := ParseClientRequest(req);
            && d == (if r.Some? && Validate(r.value)
                     then Dispatch(r.value, db.queries, db.backends.Keys, routing) else Rejected)
            && if r.Some? && Validate(r.value) && r.value.QueryRequest? && r.value.queryId == "" then
                 forall groupIds: seq<string> ::
                   (forall g :: g in groupIds <==> Allowed(old(db.policies), req.client, g)) ==>
                   (routing, db.State()) == Evaluated(old(db.State()), cfg, groupIds, clock)
               else
                 db.State() == old(db.State())
    ensures d.Forwarded? && d.query.Some? ==> d.query.value.text == req.body && d.query.value.username == req.user
  {
    routing := Failed(GroupNotFound);
    var parsed := ParseClientRequest(req);
    if parsed.None? || !Validate(parsed.value) {
      return Rejected, routing;
    }
    match parsed.value {
      case ApiRequest =>
        d := Untouched;
      case UiRequest(id) =>
        var found := db.GetQuery(id);
        if found.None? {
          return Rejected, routing;
        }
        d := PrepareReqForRouting(db, found.value.backendId, None);
      case QueryRequest(id, text, user, transaction, client) =>
        if id != "" {
          var found := db.GetQuery(id);
          var backendId := if found.Some? then found.value.backendId else "";
          var groupId := if found.Some? then found.value.groupId else "";
          d := PrepareReqForRouting(db, backendId, Some(Query(text, user, backendId, groupId)));
        } else {
          var evaluated := EvaluateRoutingBackend(db, cfg, client, clock);
          routing := evaluated;
          if evaluated.Failed? {
            return Rejected, routing;
          }
          var query := Some(Query(text, user, evaluated.backendId, evaluated.groupId));
          var prepared := PrepareReqForRouting(db, evaluated.backendId, query);
          d := if prepared.Rejected? then Forwarded(None, query) else prepared;
        }
      case QueryApiRequest(id, _, _) =>
        var found := db.GetQuery(id);
        d := PrepareReqForRouting(db, if found.Some? then found.value.backendId else "", None);
    }
  }

  /** Points the request at a backend; rejected if there is no such backend. */
  method PrepareReqForRouting(db: GatewayDb, backendId: string, query: Option<Query>) returns (d: Disposition)
    ensures d == SendTo(db.backends.Keys, backendId, query)
  {
    if backendId !in db.backends {
      return Rejected;
    }
    d := Forwarded(Some(backendId), query);
  }
}
