/**
 The gateway's tables and the repository operations on them. A table is a map from
 primary key to row; `order` lists the keys in the order in which a query without
 ORDER BY returns the rows, which nothing below relies on.
 */
module Store {

  datatype Option<+T> = None | Some(value: T)

  datatype Strategy = RoundRobin | LeastLoad | Random

  datatype Backend = Backend(
    id: string,
    hostname: string,
    scheme: string,
    externalUrl: string,
    isEnabled: bool,
    isHealthy: bool,
    uptimeSchedule: string,
    clusterLoad: int,
    thresholdClusterLoad: int,
    statsUpdatedAt: int)

  datatype Group = Group(
    id: string,
    strategy: Strategy,
    isEnabled: bool,
    lastRouted: string,
    members: seq<string>)

  /** A group row as handed to `Update`: a field that is None is left alone. */
  datatype GroupPatch = GroupPatch(
    strategy: Option<Strategy>,
    isEnabled: Option<bool>,
    lastRouted: Option<string>,
    members: Option<seq<string>>)

  datatype Policy = Policy(ruleType: string, ruleValue: string, groupId: string, isEnabled: bool)

  datatype Query = Query(text: string, username: string, backendId: string, groupId: string)

  datatype Db = Db(
    backends: map<string, Backend>,
    backendOrder: seq<string>,
    groups: map<string, Group>,
    groupOrder: seq<string>,
    policies: seq<Policy>,
    queries: map<string, Query>)
  {
    ghost predicate Valid() {
      && (forall id | id in backends :: backends[id].id == id && id != "")
      && (forall id | id in groups :: groups[id].id == id)
      && (forall id :: id in backendOrder <==> id in backends)
      && (forall id :: id in groupOrder <==> id in groups)
      && (forall i, j | 0 <= i < j < |groupOrder| :: groupOrder[i] != groupOrder[j])
    }
  }

  // ----- Row semantics of `Updates`: zero-valued plain fields are not written -----

  function NonEmpty(given: string, current: string): string {
    if given == "" then current else given
  }

  function MergedBackend(row: Backend, update: Backend): Backend {
    update.(id := row.id,
            hostname := NonEmpty(update.hostname, row.hostname),
            scheme := NonEmpty(update.scheme, row.scheme))
  }

  function MergedQuery(row: Query, update: Query): Query {
    Query(NonEmpty(update.text, row.text),
          NonEmpty(update.username, row.username),
          NonEmpty(update.backendId, row.backendId),
          NonEmpty(update.groupId, row.groupId))
  }

  function Or<T>(field: Option<T>, current: T): T {
    if field.Some? then field.value else current
  }

  function PatchedGroup(row: Group, patch: GroupPatch): Group {
    Group(row.id,
          Or(patch.strategy, row.strategy),
          Or(patch.isEnabled, row.isEnabled),
          Or(patch.lastRouted, row.lastRouted),
          Or(patch.members, row.members))
  }

  // ----- Queries -----

  predicate IsActive(backends: map<string, Backend>, id: string) {
    id in backends && backends[id].isEnabled && backends[id].isHealthy
  }

  /** Rows of the listed ids that are enabled and healthy, in the order of the table. */
  function ActiveRows(backends: map<string, Backend>, order: seq<string>, ids: seq<string>): (rows: seq<Backend>)
    ensures forall row | row in rows ::
              exists id :: id in order && id in ids && IsActive(backends, id) && backends[id] == row
    ensures forall id | id in order && id in ids && IsActive(backends, id) :: backends[id] in rows
  {
    if order == [] then
      []
    else
      var rest := ActiveRows(backends, order[1..], ids);
      assert order == [order[0]] + order[1..];
      if order[0] in ids && IsActive(backends, order[0]) then
        [backends[order[0]]] + rest
      else
        rest
  }

  /** Enabled groups whose id is requested, in the order of the table. */
  function EligibleGroups(groups: map<string, Group>, order: seq<string>, requested: seq<string>): (rows: seq<Group>)
    requires forall id | id in order :: id in groups
    ensures forall row | row in rows ::
              exists id :: id in order && id in requested && groups[id] == row && row.isEnabled
    ensures forall id | id in order && id in requested && groups[id].isEnabled :: groups[id] in rows
  {
    if order == [] then
      []
    else
      var rest := EligibleGroups(groups, order[1..], requested);
      assert order == [order[0]] + order[1..];
      if groups[order[0]].isEnabled && order[0] in requested then
        [groups[order[0]]] + rest
      else
        rest
  }

  ghost function WithHealth(backends: map<string, Backend>, id: string, healthy: bool): map<string, Backend> {
    if id in backends then backends[id := backends[id].(isHealthy := healthy)] else backends
  }

  ghost function WithLoad(backends: map<string, Backend>, id: string, load: int, now: int): map<string, Backend> {
    if id in backends then
      backends[id := backends[id].(clusterLoad := load, statsUpdatedAt := now)]
    else
      backends
  }

  ghost function WithCursor(groups: map<string, Group>, id: string, cursor: string): map<string, Group> {
    if id in groups then groups[id := groups[id].(lastRouted := cursor)] else groups
  }

  /** The database as the repositories see it. */
  class GatewayDb {
    var backends: map<string, Backend>
    var backendOrder: seq<string>
    var groups: map<string, Group>
    var groupOrder: seq<string>
    var policies: seq<Policy>
    var queries: map<string, Query>

    ghost function State(): Db
      reads this
    {
      Db(backends, backendOrder, groups, groupOrder, policies, queries)
    }

    /** Writes the row of a backend; false when no row is affected. */
    method UpdateBackendRow(id: string, update: Backend) returns (affected: bool)
      modifies `backends
      ensures affected == (id in old(backends))
      ensures backends == if affected then old(backends)[id := MergedBackend(old(backends)[id], update)]
                          else old(backends)
      ensures affected ==>
                var row, was := backends[id], old(backends)[id];
                && row == update.(id := was.id, hostname := row.hostname, scheme := row.scheme)
                && row.hostname == (if update.hostname == "" then was.hostname else update.hostname)
                && row.scheme == (if update.scheme == "" then was.scheme else update.scheme)
    {
      affected := id in backends;
      if affected {
        backends := backends[id := MergedBackend(backends[id], update)];
      }
    }

    method MarkHealthy(id: string) returns (ok: bool)
      requires State().Valid()
      modifies `backends
      ensures State().Valid()
      ensures ok == (id in old(backends))
      ensures backends == WithHealth(old(backends), id, true)
      ensures ok ==> backends == old(backends)[id := old(backends)[id].(isHealthy := true)]
    {
      if id !in backends {
        return false;
      }
      var backend := backends[id];
      if backend.isHealthy {
        assert backends[id := backend] == backends;
        return true;
      }
      backend := backend.(isHealthy := true);
      ok := UpdateBackendRow(id, backend);
    }

    method MarkUnhealthy(id: string) returns (ok: bool)
      requires State().Valid()
      modifies `backends
      ensures State().Valid()
      ensures ok == (id in old(backends))
      ensures backends == WithHealth(old(backends), id, false)
      ensures ok ==> backends == old(backends)[id := old(backends)[id].(isHealthy := false)]
    {
      if id !in backends {
        return false;
      }
      var backend := backends[id];
      if !backend.isHealthy {
        assert backends[id := backend] == backends;
        return true;
      }
      backend := backend.(isHealthy := false);
      ok := UpdateBackendRow(id, backend);
    }

    method UpdateClusterLoad(id: string, load: int, now: int) returns (ok: bool)
      requires State().Valid()
      modifies `backends
      ensures State().Valid()
      ensures ok == (id in old(backends))
      ensures backends == WithLoad(old(backends), id, load, now)
      ensures ok ==> backends == old(backends)[id := old(backends)[id].(clusterLoad := load, statsUpdatedAt := now)]
    {
      if id !in backends {
        return false;
      }
      var b := backends[id];
      b := b.(clusterLoad := load);
      b := b.(statsUpdatedAt := now);
      ok := UpdateBackendRow(id, b);
    }

    /**
     Partial update of a group. One that affects no row is not an error; what becomes of
     members given for a missing row is left open.
     */
    method UpdateGroup(id: string, patch: GroupPatch)
      requires State().Valid()
      modifies `groups
      ensures State().Valid()
      ensures id in old(groups) || patch.members.None? ==>
                groups == if id in old(groups) then old(groups)[id := PatchedGroup(old(groups)[id], patch)]
                          else old(groups)
      ensures id !in old(groups) && patch.members.Some? ==> groups - {id} == old(groups)
      ensures id in old(groups) ==>
                var row, was := groups[id], old(groups)[id];
                && row.id == was.id
                && (if patch.strategy.Some? then row.strategy == patch.strategy.value else row.strategy == was.strategy)
                && (if patch.isEnabled.Some? then row.isEnabled == patch.isEnabled.value
                    else row.isEnabled == was.isEnabled)
                && (if patch.lastRouted.Some? then row.lastRouted == patch.lastRouted.value
                    else row.lastRouted == was.lastRouted)
                && (if patch.members.Some? then row.members == patch.members.value else row.members == was.members)
    {
      if patch.members.Some? && id in groups {
        groups := groups[id := groups[id].(members := patch.members.value)];
      }
      if id in groups {
        groups := groups[id := PatchedGroup(groups[id], patch)];
      }
    }

    /** Creates the record of a query, or updates the fields given of an existing one. */
    method CreateOrUpdateQuery(id: string, query: Query)
      modifies `queries
      ensures id in queries && queries.Keys == old(queries).Keys + {id}
      ensures forall k | k in old(queries) && k != id :: queries[k] == old(queries)[k]
      ensures id !in old(queries) ==> queries[id] == query
      ensures id in old(queries) ==>
                var row, was := queries[id], old(queries)[id];
                && row.text == (if query.text == "" then was.text else query.text)
                && row.username == (if query.username == "" then was.username else query.username)
                && row.backendId == (if query.backendId == "" then was.backendId else query.backendId)
                && row.groupId == (if query.groupId == "" then was.groupId else query.groupId)
    {
      if id in queries {
        queries := queries[id := MergedQuery(queries[id], query)];
      } else {
        queries := queries[id := query];
      }
    }

    method GetQuery(id: string) returns (query: Option<Query>)
      ensures query == if id in queries then Some(queries[id]) else None
    {
      query := if id in queries then Some(queries[id]) else None;
    }
  }
}
