/**
 The monitor and the scheduler together: which backends requests are routed to after a tick.
 */
module HealthyRouting {
  import opened Store
  import opened Monitor
  import opened MonitorTick
  import opened Scheduler
  import SP = SchedulerProperties

  /** Health of a row once a tick has ended: its verdict if it was listed and no call failed. */
  ghost predicate HealthyAfter(
    rows: map<string, Backend>, backends: seq<Backend>, world: World, calls: string -> Calls, id: string)
    requires id in rows
  {
    var verdict := Healthy(backends, world, id);
    if Listed(backends, id) && !Fails(rows, id, verdict, calls(id)) then verdict else rows[id].isHealthy
  }

  lemma {:induction false} ActiveAfterTick(
    rows: map<string, Backend>, backends: seq<Backend>, world: World, calls: string -> Calls, id: string)
    ensures IsActive(AfterTick(rows, backends, world, calls), id) <==>
            id in rows && rows[id].isEnabled && HealthyAfter(rows, backends, world, calls, id)
  {
    ProbesKeepHealth(rows, backends, world);
  }

  lemma {:induction false} LoadAfterProbes(
    rows: map<string, Backend>, backends: seq<Backend>, world: World, i: nat)
    requires i < |backends| && backends[i].id in rows
    requires forall j, k | 0 <= j < k < |backends| :: backends[j].id != backends[k].id
    ensures var id := backends[i].id;
            var stored := AfterProbes(rows, backends, world);
            id in stored && stored[id] == AfterProbe(rows, backends[i], world(id))[id]
    decreases |backends|
  {
    var last := |backends| - 1;
    ProbesKeepHealth(rows, backends[..last], world);
    if i < last {
      LoadAfterProbes(rows, backends[..last], world, i);
    } else {
      UnlistedKeepRow(rows, backends[..last], world, backends[i].id);
    }
  }

  lemma {:induction false} UnlistedKeepRow(
    rows: map<string, Backend>, backends: seq<Backend>, world: World, id: string)
    requires id in rows && forall i | 0 <= i < |backends| :: backends[i].id != id
    ensures id in AfterProbes(rows, backends, world) && AfterProbes(rows, backends, world)[id] == rows[id]
    decreases |backends|
  {
    if backends != [] {
      UnlistedKeepRow(rows, backends[..|backends| - 1], world, id);
    }
  }

  /**
   The load that the scheduler compares after a tick: of a backend whose load was read and
   stored, what the formula gives for its rows as long as it is valid; else what it was.
   */
  lemma {:induction false} LoadAfterTick(
    rows: map<string, Backend>, backends: seq<Backend>, world: World, calls: string -> Calls, i: nat,
    now: int, validity: int)
    requires i < |backends| && backends[i].id in rows
    requires forall j, k | 0 <= j < k < |backends| :: backends[j].id != backends[k].id
    ensures var id := backends[i].id;
            var probe := world(id);
            var after := AfterTick(rows, backends, world, calls);
            id in after &&
            if probe.nextRun.Ok? && probe.nextRun.value <= probe.time + 60_000_000_000
               && probe.isUp == Ok(true) && probe.isHealthy == Ok(true) && probe.rows.Ok? && !probe.storeFails
            then
              && after[id].clusterLoad == LoadOf(probe.rows.value) && after[id].statsUpdatedAt == probe.stamp
              && (validity == 0 || now - probe.stamp <= validity ==>
                    EffectiveLoad(after[id], now, validity) == LoadOf(probe.rows.value))
            else
              after[id].clusterLoad == rows[id].clusterLoad && after[id].statsUpdatedAt == rows[id].statsUpdatedAt
  {
    LoadAfterProbes(rows, backends, world, i);
  }

  /** No marking call of the tick fails. */
  ghost predicate NoneFails(calls: string -> Calls) {
    forall id :: !calls(id).readFails && !calls(id).writeFails
  }

  /** A backend fit to serve: enabled, and found healthy by the tick, or healthy before if it was not listed. */
  ghost predicate Fit(rows: map<string, Backend>, backends: seq<Backend>, world: World, id: string) {
    id in rows && rows[id].isEnabled &&
    if Listed(backends, id) then Healthy(backends, world, id) else rows[id].isHealthy
  }

  /**
   After a tick without failures a group gets a backend exactly if some member is fit to serve,
   and then it gets such a member, whatever the strategy.
   */
  lemma {:induction false} FoundAfterTick(
    db: Db, rows: map<string, Backend>, backends: seq<Backend>, world: World, calls: string -> Calls,
    g: Group, clock: Clock, validity: int)
    requires db.Valid() && db.backends == AfterTick(rows, backends, world, calls) && NoneFails(calls)
    ensures var found := Found(db, g, clock, validity);
            && (found.Some? <==> exists id :: id in g.members && Fit(rows, backends, world, id))
            && (found.Some? ==> found.value in g.members && Fit(rows, backends, world, found.value))
  {
    FoundIsActiveMember(db, g, clock, validity);
    forall id ensures IsActive(db.backends, id) <==> Fit(rows, backends, world, id) {
      ActiveAfterTick(rows, backends, world, calls, id);
    }
  }

  /** And no request is sent to a backend that the tick listed and found unhealthy. */
  lemma {:induction false} RoutedAfterTick(
    db: Db, rows: map<string, Backend>, backends: seq<Backend>, world: World, calls: string -> Calls,
    cfg: Config, requested: seq<string>, clock: Clock)
    requires db.Valid() && db.backends == AfterTick(rows, backends, world, calls) && NoneFails(calls)
    ensures var result := Evaluated(db, cfg, requested, clock).0;
            result.Routed? && result.backendId != "" ==> Fit(rows, backends, world, result.backendId)
  {
    var result := Evaluated(db, cfg, requested, clock).0;
    if result.Routed? && result.backendId != "" {
      SP.GroupChoiceIsSound(db, cfg, requested, clock);
      ActiveAfterTick(rows, backends, world, calls, result.backendId);
    }
  }
}
