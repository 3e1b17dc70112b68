# Verified model of the Trino gateway

The gateway routes queries of Trino clients to backends. Its routing decisions depend on
state that is read and written between requests: a cursor per group, health and load of
each backend, a cache of accepted passwords, and a record of where each query went. This
project models that logic in Dafny and proves what it guarantees over all inputs, all runs
and all interleavings.

| file | subject |
|---|---|
| `Lex.dfy` | the order of ids and the sort |
| `RoundRobin.dfy` | the round-robin pick, its fairness, no starvation under churn |
| `Store.dfy` | the tables and the repository operations on them |
| `Scheduler.dfy` | a backend for a group, a group for a request |
| `LeastLoad.dfy` | which backend the least-load and random strategies give, on the columns of the rows |
| `SchedulerProperties.dfy` | soundness of the choice, order independence, runs of calls |
| `Strides.dfy`, `Turns.dfy`, `RequestFairness.dfy` | when the requests a group receives are served fairly, and when not |
| `Policies.dfy` | policies: which groups a client may use |
| `SimpleCache.dfy`, `Auth.dfy`, `AuthRuns.dfy` | the cache, authentication behind it, concurrent requests |
| `Monitor.dfy`, `MonitorTick.dfy` | evaluation of backends, the concurrent marking of their rows |
| `HealthyRouting.dfy` | which backends requests reach after a tick of the monitor |
| `KillQuery.dfy` | extraction of the id from a `kill_query` call |
| `Requests.dfy`, `Affinity.dfy` | requests and where they are sent; recorded queries under all interleavings |

Objects that the source updates in place are classes here (`GatewayDb`,
`InMemorySimpleCache`, `AuthService`), and its loops are methods with invariants, each
proved against a specification function whose properties are then proved as lemmas. Code
that runs concurrently is a step relation over values, with a lemma that a task left alone
does what the sequential method promises (`AuthRuns.AloneIsAuthenticate`,
`MonitorTick.AloneIsMark`, `Affinity.AloneIsUpsert`). `MonitorTick.RunTasks` is the loop
over all of them, with an arbitrary choice of the next task and any calls failing.

## Where the code differs from what one would expect

- `EvaluateBackendForGroups` takes the first eligible group as soon as any eligible group
  has a backend, so its answer can be the empty id. `ChosenGroupExactly` says when, and
  `EmptyIdExample` is such a request.
- It looks for a backend in every eligible group and moves all their cursors. Calls of
  `findBackend` on a group are fair (`RunIsFair`, `NoStarvation`), but the requests that a
  group receives need not be. They are if, whenever the group is asked for, it is the first
  such group (`OwnRequestsAreFair`, `OwnRequestsDoNotStarve`). With a fixed active set they get
  the backends in rotation exactly if, before each of them, the looks made for requests that
  went elsewhere add up to whole rounds (`OwnRequestsRotateExactly`). If there are k such looks
  every time, all n active backends are served if and only if k + 1 and n have no common divisor
  (`EvenGapsServeAllExactly`). `RequestsCanStarve`
  alternates two kinds of request for ever without ever sending one to an active backend, and
  `StarvationExample` is a database from which that happens.
- The error of preparing a new query is dropped (request.go:208). A query whose backend
  cannot be fetched when it is received is forwarded with the URL it came with; only an
  absolute URI then leads to a server, and if that answers, the query is recorded for a
  backend it was not sent to (`RecordedWithoutBeingSent`; `StrayExample` is a run in which it
  happens). In every run the recorded backend is the one the query was sent to exactly if it
  could be fetched then (`LookupsAreAffine`), so always when no query comes with an absolute
  URI (`RecordsAreWhereQueriesWent`).
- A cache hit refreshes the entry. The acceptance of a password is therefore not examined
  again as long as its user keeps coming (`AcceptedAsLongAsUsed`), and nothing bounds its age
  (`NoBoundOnAge`).
- `IsTimeInCron` is described as a one-minute window around the time. It holds exactly when
  the schedule matches the minute after the current one (`CronWindow`, `CronWindowExample`).
- A `kill_query` call is detected anywhere in the text and the id is taken from the leftmost
  quoted argument, even one before the call (`EarlierIdWins`, `EarlierIdExample`).
- The strategy called random takes the first active row (`RandomTakesFirst`).
- Host policies are looked up under `header_host`, the name of the API; the migration
  (20210805195304_bootstrap.go) calls that rule type `header_client_host`. The model follows
  the lookup.
- Writing back a whole row loses an administrator's change made between a monitor task's
  read and its write (`EditInWindowSurvivesExactly`).

## Model

| member | source | states |
|---|---|---|
| RoundRobin.Pick | internal/gatewayserver/groupApi/core.go:227-246 | append, sort, last index, step and wrap give the cyclic successor of the cursor in the set of active ids; byte by byte, no active id lies between the cursor and the pick |
| Lex.LessExactly | internal/gatewayserver/groupApi/core.go:234 | the order of the sort is the byte order: a proper prefix first, else the smaller byte where two ids first differ |
| RoundRobin.StepIsSuccessor | internal/gatewayserver/groupApi/core.go:234-246 | the entry after the last occurrence of the cursor in any sorted arrangement, or the first entry, is that successor, even when the cursor is not active |
| RoundRobin.SuccessorMeaning | internal/gatewayserver/groupApi/core.go:227-246 | the successor is the one active id that is least above the cursor, or least of all when none is above |
| RoundRobin.NextInByteOrder | internal/gatewayserver/groupApi/core.go:227-246 | the pick is the one active id that, in that order, follows the cursor with no active id between, or is least when none follows |
| RoundRobin.EveryRoundIsAPermutation | internal/gatewayserver/groupApi/core.go:227-246 | from any cursor, as many consecutive picks as there are active ids pick each exactly once |
| RoundRobin.CountsDifferByAtMostOne | internal/gatewayserver/groupApi/core.go:227-246 | after any number of picks two active ids have been picked equally often, give or take one |
| RoundRobin.BackAfterWholeRounds | internal/gatewayserver/groupApi/core.go:227-246 | from an active id, k picks lead back to it exactly if k is a multiple of the number of active ids |
| RoundRobin.ContinuesAfterWholeRounds | internal/gatewayserver/groupApi/core.go:227-246 | after k picks from any cursor the next pick is again that of the cursor itself exactly if k is such a multiple |
| RoundRobin.NoStarvation | internal/gatewayserver/groupApi/core.go:227-246 | with active sets changing arbitrarily within a universe of N ids, an id active throughout N picks is picked |
| Store.GatewayDb.MarkHealthy | internal/gatewayserver/repo/backend.go:177-198 | fails exactly for a missing row; otherwise the row's health becomes true and no other field or row changes |
| Store.GatewayDb.MarkUnhealthy | internal/gatewayserver/repo/backend.go:200-221 | fails exactly for a missing row; otherwise the row's health becomes false and no other field or row changes |
| Store.GatewayDb.UpdateClusterLoad | internal/gatewayserver/backendApi/server.go:150-169 | fails exactly for a missing row; otherwise load and its time are stored and nothing else changes |
| Store.GatewayDb.UpdateGroup | internal/gatewayserver/repo/group.go:47-75 | strategy, enabling, cursor and members that are given are written, those not given and all other groups stay; a missing row is no error, and for a patch without members changes nothing |
| Store.GatewayDb.CreateOrUpdateQuery | internal/gatewayserver/queryApi/core.go:47-64 | a new id gets the record, an existing one only the fields that are not empty |
| Scheduler.LeastLoaded | internal/gatewayserver/groupApi/core.go:248-275 | the scan computes the index that `Scan` defines, two clock readings a step |
| Scheduler.ScanIsFirstLeast | internal/gatewayserver/groupApi/core.go:248-275 | while no statistics expire, the index is the first of least effective load |
| Scheduler.FindBackend | internal/gatewayserver/groupApi/core.go:200-289 | returns nothing and changes nothing when no member is active, otherwise the strategy's choice, which becomes the group's cursor and is the only change |
| Scheduler.FoundIsActiveMember | internal/gatewayserver/groupApi/core.go:206-224 | a backend is found exactly when some member is enabled and healthy, and what is found is such a member, for every strategy |
| Scheduler.FindInEach | internal/gatewayserver/groupApi/core.go:153-163 | every eligible group with an active backend, and no other, has its cursor moved and its backend recorded |
| Scheduler.EvaluateDefaultGroup | internal/gatewayserver/groupApi/core.go:171-188 | the fallback, enabled or not: its backend, or the error for a missing group or for no active backend |
| Scheduler.EvaluateBackendForGroups | internal/gatewayserver/groupApi/core.go:134-198 | answer and final database are those of the specification `Evaluated`, stated on the database before |
| SchedulerProperties.GroupChoiceIsSound | internal/gatewayserver/groupApi/core.go:134-198 | a non-empty answer is an active member of an enabled requested group or of the default group, and that group's cursor ends there |
| SchedulerProperties.ChosenGroupExactly | internal/gatewayserver/groupApi/core.go:165-189 | the chosen group is the first requested enabled one if any of these can serve, else the default; the answer is empty exactly when the first cannot serve but another can |
| SchedulerProperties.EmptyIdExample | internal/gatewayserver/groupApi/core.go:165-169 | a database and a request for which the answer is the empty id |
| SchedulerProperties.FailureExactly | internal/gatewayserver/groupApi/core.go:171-188 | an error is returned exactly when neither a requested group nor the default group can serve, and which error |
| SchedulerProperties.OnlyCursorsMove | internal/gatewayserver/groupApi/core.go:153-188 | nothing changes but the cursors of exactly those groups looked at that have an active member |
| SchedulerProperties.RequestOrderIsIrrelevant | internal/gatewayserver/groupApi/core.go:144-151 | permuting or repeating the requested groups changes neither answer nor final database |
| SchedulerProperties.LeastLoadIsFound | internal/gatewayserver/groupApi/core.go:248-275 | a least-load group gets its first active backend of least effective load |
| LeastLoad.AllFresh | internal/gatewayserver/groupApi/core.go:248-275 | at a fixed time, with all statistics of active members valid or validity switched off, a least-load group gets the first active row, in table order, of least stored load |
| LeastLoad.SomeOutOfDate | internal/gatewayserver/groupApi/core.go:248-275 | with a statistic out of date and no negative load it gets the first active row that is out of date or has load 0 |
| LeastLoad.SomeNegative | internal/gatewayserver/groupApi/core.go:248-275 | with a valid negative load it gets the first of least load among the valid ones |
| LeastLoad.RandomTakesFirst | internal/gatewayserver/groupApi/core.go:222-278 | a group of the random strategy gets its first active row in table order |
| SchedulerProperties.NoStarvation | internal/gatewayserver/groupApi/core.go:200-289 | over serialized calls on a group, with anything but its cursor changing in between, a backend active throughout as many calls as there are ids is returned |
| SchedulerProperties.RunIsFair | internal/gatewayserver/groupApi/core.go:200-289 | over serialized calls with a fixed active set, counts differ by at most one, and a full round returns each backend once |
| RequestFairness.OneRequest | internal/gatewayserver/groupApi/core.go:134-198 | a request moves a round-robin group's cursor to the pick due exactly if it looks there and a member is active; it is given a backend of the group, namely that pick, if and only if it so looks and the group is not one requested after another |
| RequestFairness.SilentLookExactly | internal/gatewayserver/groupApi/core.go:144-169 | it looks but goes elsewhere if and only if it asks for the group, a member is active, and an enabled group before it is asked for too |
| RequestFairness.OwnRequestsAreCalls | internal/gatewayserver/groupApi/core.go:144-169 | over any run of requests in which the group is first whenever requested, those it receives are answered as a run of calls on it alone, whatever changes in between |
| RequestFairness.OwnRequestsAreFair | internal/gatewayserver/groupApi/core.go:144-169 | such requests, with a fixed active set, are given each active backend equally often, give or take one, and in a full round each once |
| RequestFairness.OwnRequestsDoNotStarve | internal/gatewayserver/groupApi/core.go:144-169 | a backend active at as many such requests as there are ids is given to one of them, under any churn |
| RequestFairness.NextAnswerExactly | internal/gatewayserver/groupApi/core.go:153-169 | after k requests that looked in the group but went elsewhere, its next one gets the backend after the last answer exactly if k is a multiple of the size of the active set, and the same one again exactly if k + 1 is |
| RequestFairness.OwnRequestsRotateExactly | internal/gatewayserver/groupApi/core.go:153-169 | with a fixed active set, the requests a group receives get the picks in rotation if and only if each comes after whole rounds of looks for requests that went elsewhere |
| RequestFairness.EvenGapsServeAllExactly | internal/gatewayserver/groupApi/core.go:153-169 | with n active backends and k looks for other requests between the requests a group receives, any n consecutive ones are given all backends if and only if gcd(k + 1, n) is 1; otherwise some backend is never given |
| RequestFairness.RequestsCanStarve | internal/gatewayserver/groupApi/core.go:155-169 | requests for two groups alternating with requests for one of them send the latter to the same backend for ever, though another is active |
| RequestFairness.StarvationExample | internal/gatewayserver/groupApi/core.go:155-169 | a database from which that happens |
| Policies.SetIntersection | internal/gatewayserver/policyApi/core.go:268-282 | swap, nil check and loop compute the intersection that takes nil as the set of all groups |
| Policies.MeetMeaning | internal/gatewayserver/policyApi/core.go:268-282 | that intersection allows exactly what both sets allow, and is nil exactly for two nils |
| Policies.MeetLaws | internal/gatewayserver/policyApi/core.go:268-282 | it is commutative and associative, nil is its identity, the empty set absorbs |
| Policies.FoldOrderIsIrrelevant | internal/gatewayserver/policyApi/core.go:213 | folding any sets gives the same whatever their order and repetition |
| Policies.FindGroups | internal/gatewayserver/policyApi/core.go:160-188 | the groups of the enabled policies that match a rule, nil when there is none |
| Policies.FoldIsAllowed | internal/gatewayserver/policyApi/core.go:190-213 | the four-way fold holds exactly the groups targeted by every rule type that has a matching policy |
| Policies.AllowedExactly | internal/gatewayserver/policyApi/core.go:190-213 | on the columns: a group is allowed exactly if some enabled policy matches the port, host, tags or properties of the client and, for each that does, one of the same type and value targets the group |
| Policies.OthersDoNotCount | internal/gatewayserver/policyApi/core.go:160-188 | disabled policies, and those of another type or value, never change which groups are allowed |
| Policies.EvaluateGroupsForClient | internal/gatewayserver/policyApi/core.go:155-222 | the result has no duplicates and holds exactly those groups, none when no rule type has a matching policy |
| KillQuery.CallMatcherIsExact | internal/router/request.go:19 | the first matcher accepts exactly the texts of the first expression, stated as concatenations |
| KillQuery.IdMatcherIsExact | internal/router/request.go:31 | the second matcher accepts exactly the texts of the second expression and captures their id |
| KillQuery.FirstIdIsLeftmost | internal/router/request.go:33 | the search returns the capture of the leftmost match |
| KillQuery.ExtractionExactly | internal/router/request.go:17-58 | a non-empty id is extracted from exactly the texts that hold a call and whose leftmost quoted argument it is |
| KillQuery.ExtractsPrintedId | internal/router/request.go:17-58 | round trip: a printed call, with any spacing, separators, quoting, notation and following text, yields its id, also behind text with no match |
| KillQuery.ExtractsEveryId | internal/router/request.go:17-58 | every id of letters, digits, underscores and hyphens is extracted from a call that names it, with all spacing, quoting, notation and following text written out |
| KillQuery.ExtractedIdIsWord | internal/router/request.go:31 | an extracted id has no other characters |
| KillQuery.CallParts | internal/router/request.go:19 | a text that the first matcher accepts begins with the parts of the first expression, character by character |
| KillQuery.IdParts | internal/router/request.go:31 | a text that the second matcher accepts begins with the parts of the second expression, the captured id between its quotes |
| KillQuery.EarlierIdWins | internal/router/request.go:33-46 | otherwise the first match before the call decides |
| KillQuery.EarlierIdExample | internal/router/request.go:33-46 | a text whose call names b and from which a is extracted |
| SimpleCache.InMemorySimpleCache.Get | internal/utils/utils.go:147-164 | returns the entry unless it is missing or expired, and drops exactly an expired one |
| SimpleCache.InMemorySimpleCache.Update | internal/utils/utils.go:166-177 | stamps and stores the value, nothing else changes |
| SimpleCache.LazyDeletionIsUnobservable | internal/utils/utils.go:147-177 | after any history with a monotone clock, Get finds a value exactly when the latest Update wrote it and it has not outlived the interval |
| Auth.AuthService.GetInMemoryAuthCache | internal/router/auth.go:98-116 | returns the shared cache, created empty by the first request and kept from then on |
| Auth.AuthService.Authenticate | internal/router/auth.go:78-96 | let in exactly by a live entry of the same password or an acceptance, refused exactly by a rejection without such a hit, failed exactly by an unreachable provider without one; a request let in stamps the entry, any other only drops an expired one; nothing else changes |
| Auth.AcceptedAsLongAsUsed | internal/router/auth.go:78-96 | with the password cached and the provider rejecting it, any number of later requests are all let in if and only if entries never expire or each comes within the interval of the one before it |
| AuthRuns.RunKeepsInv | internal/router/auth.go:78-116 | in every interleaving each cache holds the latest stamp of each user unless that has expired, each stamp follows a hit or an acceptance of its own task, and each task stands where its own events put it |
| AuthRuns.HitExactly | internal/utils/utils.go:147-164 | in every interleaving a lookup is a hit if and only if the latest stamp of the user in that cache was of the same password and is not older than the interval |
| AuthRuns.OutcomeExactly | internal/router/auth.go:78-96 | a request that has ended was decided by exactly one event of its own: let in if and only if it has a hit or an answer that accepts, refused if and only if an answer that rejects, failed if and only if the provider was not reached; exactly those let in have stamped a cache |
| AuthRuns.GrantsTraceToProvider | internal/router/auth.go:78-96 | every request let in leads back from its own hit or acceptance to an acceptance of exactly its pair: each hit to the latest stamp in its cache, not older than the interval, each stamp to a hit or an acceptance of the task that wrote it |
| AuthRuns.AloneIsAuthenticate | internal/router/auth.go:78-116 | a request left alone from its arrival has the outcome and leaves the cache of `Authenticate`, also when it is the one to create the cache |
| AuthRuns.NoBoundOnAge | internal/router/auth.go:81-84 | for every interval and every age there is a run with a request let in at least that long after the only time the provider was asked |
| Monitor.CronWindow | internal/utils/utils.go:21-37 | with the next run the least matching minute after the time, the check holds exactly when the minute after the current one matches |
| Monitor.WithinAMinute | internal/utils/utils.go:21-37 | the check holds exactly if the next run is at most sixty seconds away, and fails exactly if the schedule does not parse |
| Monitor.CronWindowExample | internal/utils/utils.go:21-37 | half a minute into a matching minute is out of schedule, half a minute into one that does not match is in it |
| Monitor.GetBackendLoad | internal/monitor/core.go:269-302 | the row loop and the formula give the load of the last count of each state |
| Monitor.LastRowCounts | internal/monitor/core.go:269-302 | of several rows for a state the last one counts |
| Monitor.LoadWraps | internal/monitor/core.go:304-312 | the load is twice the running plus a third of the queued queries, wrapped to 32 bits once at the end, the queued ones also before |
| Monitor.WrapsExactly | internal/monitor/core.go:304-312 | wrapping gives a value of 32 bits that differs by a multiple of 2^32 |
| Monitor.LoadIsExactlyWhen | internal/monitor/core.go:269-312 | for live queries grouped by state, in any order, the load is twice the running plus a third of the queued ones exactly when that sum and the queued ones fit in 32 bits |
| Monitor.LoadOfFewQueries | internal/monitor/core.go:304-312 | no overflow with at most 2^30 - 1 such queries |
| Monitor.IsBackendHealthy | internal/monitor/core.go:118-161 | healthy exactly when all checks succeed positively and the threshold is absent or kept; error exactly when a check or the load fails; the load is stored exactly when read, unless storing it fails, which changes no verdict |
| Monitor.GetAllBackends | internal/monitor/core.go:85-100 | fails exactly when the call fails or an item is missing, else returns the items |
| Monitor.VerdictExactly | internal/monitor/core.go:49-71 | the verdict is good exactly if the schedule is within a minute, both checks are positive, the load was read and the threshold is absent or kept |
| Monitor.EvaluateBackendNewState | internal/monitor/core.go:35-77 | the two results are the selections by verdict, and the loads read are stored in order, except where storing fails |
| Monitor.SelectedInOrder | internal/monitor/core.go:42-71 | each result is the input at an ascending list of positions |
| Monitor.PositionListed | internal/monitor/core.go:42-71 | these positions are exactly those with the verdict |
| Monitor.PositionsAscend | internal/monitor/core.go:42-71 | the positions ascend strictly |
| Monitor.SelectionsPartition | internal/monitor/core.go:42-76 | the two results together hold the input, each backend as often as listed |
| Monitor.EvaluationStoresOnlyLoads | internal/monitor/core.go:137-141 | evaluating changes no field but load and its time |
| MonitorTick.RunKeepsInv | internal/monitor/monitor.go:71-100 | in every interleaving a task about to write holds the current row with its verdict |
| MonitorTick.TickIsOverlay | internal/monitor/monitor.go:71-100 | at every point, with administrators acting outside the windows, the table is the one without the monitor with the verdicts of successful tasks laid over it |
| MonitorTick.UndisturbedTick | internal/monitor/monitor.go:71-100 | with the monitor alone, the table without it is the one the tick began with |
| MonitorTick.FailedByCall | internal/monitor/monitor.go:71-100 | in every interleaving a task ends failed only by a call of its own that failed |
| MonitorTick.MissedRow | internal/gatewayserver/repo/backend.go:177-221 | and it misses its row only if that was missing when it acted |
| MonitorTick.FailureFreeTick | internal/monitor/monitor.go:71-100 | a tick left alone in which no call fails ends with the health of every listed row set to its verdict and nothing else changed, in every order of the tasks |
| MonitorTick.EditInWindowSurvivesExactly | internal/gatewayserver/repo/backend.go:177-198 | a row written between a task's read and write keeps its values exactly when they are those already read, health aside |
| MonitorTick.AloneIsMark | internal/gatewayserver/repo/backend.go:177-221 | a task left alone does what `MarkHealthy` or `MarkUnhealthy` does |
| MonitorTick.RunTasks | internal/monitor/monitor.go:72-100 | in whatever order the tasks run, each ends as its row and its own calls decide: failed if one of the calls it makes fails, else marked if the row exists, and the overlay is in place |
| MonitorTick.MarkAll | internal/monitor/monitor.go:71-100 | the table after marking, the ids marked and the ids failed are exactly determined: every listed row whose calls succeed gets its verdict, no other row or field changes |
| MonitorTick.Execute | internal/monitor/monitor.go:45-103 | a tick stores the loads read and then lays the verdicts of the listed backends over all rows whose calls succeed; on an evaluation error it changes nothing |
| HealthyRouting.ActiveAfterTick | internal/monitor/monitor.go:45-103 | after a tick a backend is active exactly if it is enabled and its verdict was good, or, where it was not listed or a call failed, it was healthy before |
| HealthyRouting.FoundAfterTick | internal/gatewayserver/groupApi/core.go:206-224 | after a tick without failures a group gets a backend exactly if a member is enabled and was found healthy, or was healthy and not listed, and it gets such a member |
| HealthyRouting.RoutedAfterTick | internal/gatewayserver/groupApi/core.go:134-198 | so no request is routed to a backend that the tick found unhealthy |
| HealthyRouting.LoadAfterTick | internal/monitor/core.go:137-141 | after a tick the load the scheduler compares is what the formula gives for the rows read, as long as it is valid; where no load was read or stored it is what it was |
| Requests.RequestsNameTheirQuery | internal/router/request.go:89-140 | a UI, DELETE or printed kill_query request for an id looks up exactly that id, and when such a request is valid |
| Requests.AcceptedExactly | internal/router/request_type.go:21-91 | which requests are taken up, told on method, path, query string, user, body and transaction id, of which only the empty one and NONE will do |
| Requests.UntouchedExactly | internal/router/request.go:95-98 | requests for information or status pass as they are, and no others |
| Requests.QueryCarried | internal/router/request.go:106-111 | a forwarded query carries its body as text and its user, with backend and group of the routing, or of the record it names; other requests carry nothing |
| Requests.ContainsExactly | internal/router/request.go:91-97 | one text contains another exactly if it is a part of it |
| Requests.EvaluateRoutingBackend | internal/router/request.go:242-282 | policy and group evaluation together give the same backend, group, error and final database for every order in which the groups are listed |
| Requests.ProcessRequest | internal/router/request.go:142-240 | a request is disposed of as `Dispatch` says, with text and user its own, and only a new query changes the database |
| Affinity.LookupsAreAffine | internal/router/request.go:165-235 | in every interleaving lookups use non-empty ids and resolve to the backend recorded when the server issued the id; the query was sent there if and only if that backend could be fetched when the query was received, which fails only for a new query with an absolute URI |
| Affinity.RecordsAreWhereQueriesWent | internal/router/request.go:207-215 | in a run without absolute URIs every recorded backend is the one its query was sent to |
| Affinity.RequestsFollowTheQuery | internal/router/request.go:165-235 | once recorded, all later requests for an id go to its backend while that exists and else nowhere; the query itself was sent there exactly if the backend could be fetched when it was received |
| Affinity.RecordsStay | internal/gatewayserver/queryApi/core.go:47-64 | a record of a non-empty id never changes |
| Affinity.RecordsTellTheRequest | internal/router/response.go:58-78 | in every interleaving the record of an id has text and user of the request that was answered with it, and backend and group of its routing, or of the query that it named |
| Affinity.AnsweredExactly | internal/router/response.go:34-50 | an answer issues its id and starts the save of exactly its query if and only if the status is 200 to 399 |
| Affinity.SavedExactly | internal/gatewayserver/queryApi/core.go:47-64 | what each action of a save does to the records, field by field: a failing one nothing, the first only looks, the second creates a missing record or fills in the fields given |
| Affinity.SaveResolves | internal/router/response.go:58-78 | a save without failure makes the id resolve to its backend |
| Affinity.RecordedWithoutBeingSent | internal/router/request.go:207-215 | a new query can be answered exactly if the backend it is routed to can be fetched or its URI is absolute; once answered and saved it is recorded for that backend, to which it was sent exactly in the first case |
| Affinity.StrayExample | internal/router/request.go:207-215 | a run, with a request and a routing that the scheduler really gives, that ends with a query recorded for a backend it was not sent to |
| Scheduler.MovedOneMore | internal/gatewayserver/groupApi/core.go:153-163 | helper: looking in one more group moves that group's cursor only, and what earlier groups did does not affect what is found |
| SchedulerProperties.CallPicks | internal/gatewayserver/groupApi/core.go:284-288 | helper: a call on a round-robin group returns and stores the successor of the stored cursor |
| Requests.NoEmptyLookup | internal/router/request_type.go:21-56 | helper: a valid request never looks up the empty id |
| Requests.LookupDecides | internal/router/request.go:165-235 | helper: a request that looks up an id goes to the recorded backend if it exists, and is rejected otherwise |
| Requests.NewQueryIsSentExactlyWhen | internal/router/request.go:207-215 | helper: a new query is forwarded exactly when routing succeeds, and sent to the chosen backend exactly when that can be fetched |
| Affinity.AloneIsUpsert | internal/gatewayserver/queryApi/core.go:47-64 | helper: a save left alone is the upsert of `CreateOrUpdateQuery` |
| Affinity.ReceivedExactly | internal/router/request.go:142-240 | helper: a request waits for an answer exactly if it is a forwarded query, and each lookup is recorded with what it found |

## Left out

- Libraries and I/O: the database engine, RPC, HTTP proxying, gzip, JSON, metrics and logging. Database reads and the cursor write succeed; saves of queries, the storing of a load and the monitor's row accesses may fail, then without effect.
- Admin operations on groups, policies and backends other than those listed, among them Enable and Disable, which are read-modify-writes like MarkHealthy, and deletion outside the monitor's step relation.
- Columns that are null: cursor, load and time of statistics are always set, as the API sets them.
- Store.GatewayDb.UpdateGroup: members given for a missing row are left open; the source replaces the associations first, which may write them or fail.
- Time stamps of rows, and the columns of a query other than text, user, backend and group.
- Case folding by the database: strategies, rule types and ids are compared exactly.
- The listening port is taken as its decimal text.
- EvaluateAuthDelegation and EvaluateRequestSource: one condition on the policy table each.
- AuthHandler: which header holds the credentials and which users are exempt.
- Where a request with an absolute URI goes when it is not sent to a backend: some server answers it or none does. Without one it is not answered, for lack of a host.
- Rewriting of headers and of the Location of a redirect; the scheme and host names put into the request are represented by the backend's id.
- Concurrent calls of findBackend on one group, which may read the same cursor; fairness is stated for serialized calls.
- Cron syntax and time zones: the next run of a schedule is given, assumed to exist.
- Several monitors at once, and, during a tick, an administrator changing the health of a row being marked or creating such a row anew after deleting it.
- The error variable shared by the monitor's goroutines: each task has its own.
