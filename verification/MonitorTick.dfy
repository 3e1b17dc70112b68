/**
 The second half of a monitor tick: one task per backend, each reading its row and
 writing it back whole, in any interleaving with the others and with administrators.
 */
module MonitorTick {
  import opened Store
  import opened Monitor

  datatype Phase =
    | Start
    | HasRead(row: Backend)  // about to write this row
    | Marked
    | Missing                // no such row
    | Failed                 // a call failed

  datatype Task = Task(verdict: bool, phase: Phase)

  /** `rows` is the table; `base` is the table had the monitor never marked anything. */
  datatype Tick = Tick(rows: map<string, Backend>, base: map<string, Backend>, tasks: map<string, Task>)

  predicate CanAct(s: Tick, id: string) {
    id in s.tasks && (s.tasks[id].phase.Start? || s.tasks[id].phase.HasRead?)
  }

  function WithPhase(s: Tick, id: string, phase: Phase): Tick
    requires id in s.tasks
  {
    s.(tasks := s.tasks[id := s.tasks[id].(phase := phase)])
  }

  /** Find the row; leave it if it agrees with the verdict, else go on to write it. */
  function ReadRow(s: Tick, id: string): Tick
    requires id in s.tasks
  {
    if id !in s.rows then
      WithPhase(s, id, Missing)
    else if s.rows[id].isHealthy == s.tasks[id].verdict then
      WithPhase(s, id, Marked)
    else
      WithPhase(s, id, HasRead(s.rows[id].(isHealthy := s.tasks[id].verdict)))
  }

  /** Write the whole row read before; no row affected is an error. */
  function WriteRow(s: Tick, id: string): Tick
    requires id in s.tasks && s.tasks[id].phase.HasRead?
  {
    if id !in s.rows then
      WithPhase(s, id, Missing)
    else
      WithPhase(s.(rows := s.rows[id := MergedBackend(s.rows[id], s.tasks[id].phase.row)]), id, Marked)
  }

  /** The next action of a task; any database call may fail. */
  function Act(s: Tick, id: string, failure: bool): Tick
    requires CanAct(s, id)
  {
    if failure then WithPhase(s, id, Failed)
    else if s.tasks[id].phase.Start? then ReadRow(s, id)
    else WriteRow(s, id)
  }

  // ----- Administrators -----

  /** The monitor's task for the row is not between its read and its write. */
  ghost predicate NotInWindow(s: Tick, id: string) {
    id in s.tasks ==> !s.tasks[id].phase.HasRead?
  }

  /** A row gets new values, except for the health of a row under the monitor's care. */
  ghost function Edited(s: Tick, id: string, row: Backend): Tick
    requires id in s.tasks ==> id in s.rows && id in s.base
  {
    if id in s.tasks then
      s.(rows := s.rows[id := row.(isHealthy := s.rows[id].isHealthy)],
         base := s.base[id := row.(isHealthy := s.base[id].isHealthy)])
    else
      s.(rows := s.rows[id := row], base := s.base[id := row])
  }

  ghost function Deleted(s: Tick, id: string): Tick {
    s.(rows := s.rows - {id}, base := s.base - {id})
  }

  ghost predicate TaskStep(s: Tick, s': Tick) {
    exists id, failure :: CanAct(s, id) && s' == Act(s, id, failure)
  }

  ghost predicate CanEdit(s: Tick, id: string, row: Backend) {
    row.id == id && NotInWindow(s, id) && (id in s.tasks ==> id in s.rows && id in s.base)
  }

  ghost predicate AdminStep(s: Tick, s': Tick) {
    || (exists id, row :: CanEdit(s, id, row) && s' == Edited(s, id, row))
    || (exists id :: NotInWindow(s, id) && s' == Deleted(s, id))
  }

  ghost predicate Initial(s: Tick) {
    && s.base == s.rows
    && (forall id | id in s.rows :: s.rows[id].id == id)
    && (forall id | id in s.tasks :: s.tasks[id].phase.Start?)
  }

  ghost predicate Run(states: seq<Tick>) {
    && states != [] && Initial(states[0])
    && forall i | 0 <= i < |states| - 1 :: TaskStep(states[i], states[i + 1]) || AdminStep(states[i], states[i + 1])
  }

  // ----- The tick as an overlay of verdicts -----

  ghost predicate IsMarked(s: Tick, id: string) {
    id in s.tasks && s.tasks[id].phase.Marked?
  }

  /** A row without the monitor, with the verdict laid over it once its task has succeeded. */
  ghost function Laid(s: Tick, id: string): Backend
    requires id in s.base
  {
    if IsMarked(s, id) then s.base[id].(isHealthy := s.tasks[id].verdict) else s.base[id]
  }

  ghost predicate RowInv(s: Tick, id: string) {
    && (id in s.rows <==> id in s.base)
    && (id in s.rows ==> s.rows[id].id == id && s.rows[id] == Laid(s, id))
    && (id in s.tasks && s.tasks[id].phase.HasRead? ==>
          id in s.rows && s.tasks[id].phase.row == s.rows[id].(isHealthy := s.tasks[id].verdict))
  }

  ghost predicate Inv(s: Tick) {
    forall id :: RowInv(s, id)
  }

  /** Writing back the row read with a new health changes the health and nothing else. */
  lemma {:induction false} MergeOfRead(row: Backend, verdict: bool)
    ensures MergedBackend(row, row.(isHealthy := verdict)) == row.(isHealthy := verdict)
  {
  }

  lemma {:induction false} ActKeepsInv(s: Tick, id: string, failure: bool)
    requires Inv(s) && CanAct(s, id)
    ensures Inv(Act(s, id, failure)) && Act(s, id, failure).base == s.base
  {
    var s' := Act(s, id, failure);
    assert RowInv(s, id);
    if id in s.rows {
      MergeOfRead(s.rows[id], s.tasks[id].verdict);
    }
    assert RowInv(s', id);
    forall k | k != id ensures RowInv(s', k) {
      assert RowInv(s, k);
    }
  }

  lemma {:induction false} EditKeepsInv(s: Tick, id: string, row: Backend)
    requires Inv(s) && CanEdit(s, id, row)
    ensures Inv(Edited(s, id, row))
  {
    var s' := Edited(s, id, row);
    assert RowInv(s, id);
    assert RowInv(s', id);
    forall k | k != id ensures RowInv(s', k) {
      assert RowInv(s, k);
    }
  }

  lemma {:induction false} DeleteKeepsInv(s: Tick, id: string)
    requires Inv(s) && NotInWindow(s, id)
    ensures Inv(Deleted(s, id))
  {
    forall k ensures RowInv(Deleted(s, id), k) {
      assert RowInv(s, k);
    }
  }

  lemma {:induction false} StepKeepsInv(s: Tick, s': Tick)
    requires Inv(s) && (TaskStep(s, s') || AdminStep(s, s'))
    ensures Inv(s')
  {
    if TaskStep(s, s') {
      var id, failure :| CanAct(s, id) && s' == Act(s, id, failure);
      ActKeepsInv(s, id, failure);
    } else if id, row :| CanEdit(s, id, row) && s' == Edited(s, id, row) {
      EditKeepsInv(s, id, row);
    } else {
      var id :| NotInWindow(s, id) && s' == Deleted(s, id);
      DeleteKeepsInv(s, id);
    }
  }

  ghost predicate SameVerdicts(s: Tick, s': Tick) {
    && s'.tasks.Keys == s.tasks.Keys
    && forall id | id in s.tasks :: s'.tasks[id].verdict == s.tasks[id].verdict
  }

  lemma {:induction false} RunKeepsInv(states: seq<Tick>, i: nat)
    requires Run(states) && i < |states|
    ensures Inv(states[i]) && SameVerdicts(states[0], states[i])
    decreases i
  {
    if i == 0 {
      InitialInv(states[0]);
    } else {
      RunKeepsInv(states, i - 1);
      StepKeepsInv(states[i - 1], states[i]);
    }
  }

  /**
   At every point of every interleaving the table is what it would be without the monitor,
   except that the health of each successfully marked row is its verdict.
   */
  lemma {:induction false} TickIsOverlay(states: seq<Tick>, i: nat)
    requires Run(states) && i < |states|
    ensures var s := states[i];
            && SameVerdicts(states[0], s)
            && s.rows.Keys == s.base.Keys
            && forall id | id in s.rows ::
                 s.rows[id] == if IsMarked(s, id) then s.base[id].(isHealthy := s.tasks[id].verdict) else s.base[id]
  {
    RunKeepsInv(states, i);
    InvGivesRows(states[i]);
  }

  /** At step j the task of the row acts, and its call fails or not. */
  ghost predicate Acts(states: seq<Tick>, j: nat, id: string, failure: bool) {
    j + 1 < |states| && CanAct(states[j], id) && states[j + 1] == Act(states[j], id, failure)
  }

  /** Only a task's own actions change it. */
  lemma {:induction false} OwnAction(s: Tick, s': Tick, id: string) returns (failure: bool)
    requires TaskStep(s, s') || AdminStep(s, s')
    requires id in s'.tasks
    ensures id in s.tasks
    ensures s'.tasks[id] != s.tasks[id] ==>
              && CanAct(s, id) && s' == Act(s, id, failure)
              && (failure <==> s'.tasks[id].phase.Failed?)
              && (s'.tasks[id].phase.Missing? ==> id !in s.rows)
  {
    failure := false;
    if TaskStep(s, s') {
      var k, fails :| CanAct(s, k) && s' == Act(s, k, fails);
      failure := fails;
    }
  }

  /** A task fails only by a call of its own that fails. */
  lemma {:induction false} FailedByCall(states: seq<Tick>, i: nat, id: string) returns (j: nat)
    requires Run(states) && i < |states| && id in states[i].tasks && states[i].tasks[id].phase.Failed?
    ensures j < i && Acts(states, j, id, true)
    decreases i
  {
    assert i > 0;
    var s, s' := states[i - 1], states[i];
    assert TaskStep(s, s') || AdminStep(s, s');
    var failure := OwnAction(s, s', id);
    if s'.tasks[id] == s.tasks[id] {
      j := FailedByCall(states, i - 1, id);
    } else {
      j := i - 1;
    }
  }

  /** A task misses its row only if that was missing when it acted. */
  lemma {:induction false} MissedRow(states: seq<Tick>, i: nat, id: string) returns (j: nat)
    requires Run(states) && i < |states| && id in states[i].tasks && states[i].tasks[id].phase.Missing?
    ensures j < i && Acts(states, j, id, false) && id !in states[j].rows
    decreases i
  {
    assert i > 0;
    var s, s' := states[i - 1], states[i];
    assert TaskStep(s, s') || AdminStep(s, s');
    var failure := OwnAction(s, s', id);
    if s'.tasks[id] == s.tasks[id] {
      j := MissedRow(states, i - 1, id);
    } else {
      j := i - 1;
    }
  }

  /** A run in which only the monitor acts. */
  ghost predicate Undisturbed(states: seq<Tick>) {
    forall i | 0 <= i < |states| - 1 :: TaskStep(states[i], states[i + 1])
  }

  /** Undisturbed, a tick changes nothing but the health of the rows it marks: `base` is the table it began with. */
  lemma {:induction false} UndisturbedTick(states: seq<Tick>, i: nat)
    requires Run(states) && Undisturbed(states) && i < |states|
    ensures states[i].base == states[0].rows
    decreases i
  {
    if i > 0 {
      UndisturbedTick(states, i - 1);
      RunKeepsInv(states, i - 1);
      assert TaskStep(states[i - 1], states[i]);
      var id, failure :| CanAct(states[i - 1], id) && states[i] == Act(states[i - 1], id, failure);
      ActKeepsInv(states[i - 1], id, failure);
    }
  }

  ghost predicate NoCallFails(states: seq<Tick>) {
    forall j: nat, id :: !Acts(states, j, id, true)
  }

  /** Undisturbed and without failures, a tick that has ended has set the health of every listed row to its verdict. */
  lemma {:induction false} FailureFreeTick(states: seq<Tick>, i: nat)
    requires Run(states) && Undisturbed(states) && NoCallFails(states) && i < |states|
    requires forall id :: !CanAct(states[i], id)
    ensures states[i].rows.Keys == states[0].rows.Keys && states[i].tasks.Keys == states[0].tasks.Keys
    ensures forall id | id in states[i].rows ::
              states[i].rows[id] == if id in states[0].tasks
                                    then states[0].rows[id].(isHealthy := states[0].tasks[id].verdict)
                                    else states[0].rows[id]
  {
    var s := states[i];
    TickIsOverlay(states, i);
    UndisturbedTick(states, i);
    forall id | id in s.tasks && id in s.rows ensures IsMarked(s, id) {
      assert !CanAct(s, id);
      if s.tasks[id].phase.Missing? {
        var j := MissedRow(states, i, id);
        TickIsOverlay(states, j);
        UndisturbedTick(states, j);
        assert false;
      } else if s.tasks[id].phase.Failed? {
        var j := FailedByCall(states, i, id);
        assert false;
      }
    }
  }

  /**
   The restriction on administrators is needed: a row written between a task's read and its
   write keeps its new values exactly when they are, health aside, those the task had read.
   */
  lemma {:induction false} EditInWindowSurvivesExactly(s: Tick, id: string, row: Backend)
    requires id in s.tasks && s.tasks[id].phase == Start
    requires id in s.rows && s.rows[id].isHealthy != s.tasks[id].verdict
    requires s.rows[id].id == id == row.id && s.rows[id].hostname != "" && s.rows[id].scheme != ""
    ensures var read := Act(s, id, false);
            var edited := read.(rows := read.rows[id := row]);
            CanAct(edited, id) &&
            var after := Act(edited, id, false).rows[id];
            after == row.(isHealthy := after.isHealthy) <==> row == s.rows[id].(isHealthy := row.isHealthy)
  {
  }

  lemma {:induction false} InitialInv(s: Tick)
    requires Initial(s)
    ensures Inv(s)
  {
  }

  // ----- The tick itself -----

  /** Which calls of a task fail, should it make them. */
  datatype Calls = Calls(readFails: bool, writeFails: bool)

  /** A task calls to read the row, and to write it if its health is not the verdict. */
  predicate Fails(rows: map<string, Backend>, id: string, verdict: bool, calls: Calls) {
    calls.readFails || (id in rows && rows[id].isHealthy != verdict && calls.writeFails)
  }

  /** How the task of a row must end. */
  ghost function EndPhase(rows: map<string, Backend>, id: string, verdict: bool, calls: Calls): Phase {
    if Fails(rows, id, verdict, calls) then Failed else if id in rows then Marked else Missing
  }

  /** The task is on its way to that end. */
  ghost predicate OnWay(s: Tick, rows: map<string, Backend>, id: string, calls: Calls)
    requires id in s.tasks
  {
    var t := s.tasks[id];
    match t.phase
    case Start => true
    case HasRead(_) => !calls.readFails && id in rows && rows[id].isHealthy != t.verdict
    case _ => t.phase == EndPhase(rows, id, t.verdict, calls)
  }

  predicate NextFails(s: Tick, id: string, calls: Calls)
    requires id in s.tasks
  {
    if s.tasks[id].phase.Start? then calls.readFails else calls.writeFails
  }

  lemma {:induction false} ActKeepsOnWay(s: Tick, id: string, k: string, calls: string -> Calls)
    requires Inv(s) && CanAct(s, id) && k in s.tasks && OnWay(s, s.base, k, calls(k))
    ensures OnWay(Act(s, id, NextFails(s, id, calls(id))), s.base, k, calls(k))
  {
    assert RowInv(s, id);
  }

  /** The tasks yet to read and those yet to write. */
  ghost predicate Tracks(s: Tick, unread: set<string>, unwritten: set<string>) {
    && unread + unwritten <= s.tasks.Keys
    && forall id | id in s.tasks ::
         (id in unread <==> s.tasks[id].phase.Start?) && (id in unwritten <==> s.tasks[id].phase.HasRead?)
  }

  lemma {:induction false} ActAdvances(s: Tick, id: string, failure: bool, unread: set<string>, unwritten: set<string>)
    requires CanAct(s, id) && Tracks(s, unread, unwritten)
    ensures var s' := Act(s, id, failure);
            && SameVerdicts(s, s')
            && (if s'.tasks[id].phase.HasRead? then id in unread else !CanAct(s', id))
            && Tracks(s', unread - {id}, if s'.tasks[id].phase.HasRead? then unwritten + {id} else unwritten - {id})
  {
  }

  /**
   Runs the tasks to the end, taking turns in any way whatever, and waits for the last. How
   each ends depends on its row and its own calls alone.
   */
  method RunTasks(s0: Tick, calls: string -> Calls) returns (s: Tick)
    requires Initial(s0)
    ensures Inv(s) && s.base == s0.rows && SameVerdicts(s0, s)
    ensures forall id | id in s0.tasks ::
              s.tasks[id].phase == EndPhase(s0.rows, id, s0.tasks[id].verdict, calls(id))
  {
    s := s0;
    InitialInv(s);
    var unread, unwritten := s.tasks.Keys, {};
    while unread + unwritten != {}
      invariant Inv(s) && s.base == s0.rows && SameVerdicts(s0, s)
      invariant Tracks(s, unread, unwritten)
      invariant forall id | id in s.tasks :: OnWay(s, s0.rows, id, calls(id))
      decreases unread, unwritten
    {
      var id :| id in unread + unwritten;
      var failure := NextFails(s, id, calls(id));
      forall k | k in s.tasks ensures OnWay(Act(s, id, failure), s0.rows, k, calls(k)) {
        ActKeepsOnWay(s, id, k, calls);
      }
      ActKeepsInv(s, id, failure);
      ActAdvances(s, id, failure, unread, unwritten);
      s := Act(s, id, failure);
      unread := unread - {id};
      unwritten := if s.tasks[id].phase.HasRead? then unwritten + {id} else unwritten - {id};
    }
  }

  lemma {:induction false} InvGivesRows(s: Tick)
    requires Inv(s)
    ensures s.rows.Keys == s.base.Keys
    ensures forall id | id in s.rows :: s.rows[id] == Laid(s, id) && s.rows[id].id == id
  {
    forall id ensures id in s.rows <==> id in s.base {
      assert RowInv(s, id);
    }
    forall id | id in s.rows ensures s.rows[id] == Laid(s, id) && s.rows[id].id == id {
      assert RowInv(s, id);
    }
  }

  /** A task left alone does what `MarkHealthy` and `MarkUnhealthy` of the repository do. */
  lemma {:induction false} AloneIsMark(s: Tick, id: string)
    requires id in s.tasks && s.tasks[id].phase.Start?
    requires id in s.rows ==> s.rows[id].id == id
    ensures var read := Act(s, id, false);
            var end := if CanAct(read, id) then Act(read, id, false) else read;
            && end.rows == WithHealth(s.rows, id, s.tasks[id].verdict)
            && end.tasks[id].phase == if id in s.rows then Marked else Missing
  {
  }

  /** The table after marking: each verdict is laid over its row unless a call of its task fails. */
  ghost function Overlay(
    rows: map<string, Backend>, verdicts: map<string, bool>, calls: string -> Calls): map<string, Backend>
  {
    map id | id in rows ::
      if id in verdicts && !Fails(rows, id, verdicts[id], calls(id)) then rows[id].(isHealthy := verdicts[id])
      else rows[id]
  }

  lemma {:induction false} EndIsOverlay(
    s: Tick, rows: map<string, Backend>, verdicts: map<string, bool>, calls: string -> Calls)
    requires Inv(s) && s.base == rows && s.tasks.Keys == verdicts.Keys
    requires forall id | id in verdicts ::
               s.tasks[id].verdict == verdicts[id] && s.tasks[id].phase == EndPhase(rows, id, verdicts[id], calls(id))
    ensures s.rows == Overlay(rows, verdicts, calls)
    ensures forall id | id in s.rows :: s.rows[id].id == id
  {
    InvGivesRows(s);
    forall id | id in rows ensures s.rows[id] == Overlay(rows, verdicts, calls)[id] {
      assert IsMarked(s, id) <==> id in verdicts && !Fails(rows, id, verdicts[id], calls(id));
    }
  }

  lemma {:induction false} EndsApart(
    s: Tick, rows: map<string, Backend>, verdicts: map<string, bool>, calls: string -> Calls)
    requires s.tasks.Keys == verdicts.Keys
    requires forall id | id in verdicts :: s.tasks[id].phase == EndPhase(rows, id, verdicts[id], calls(id))
    ensures var failed := set id | id in verdicts && Fails(rows, id, verdicts[id], calls(id));
            && failed == (set id | id in s.tasks && s.tasks[id].phase.Failed?)
            && verdicts.Keys * rows.Keys - failed == (set id | id in s.tasks && s.tasks[id].phase.Marked?)
  {
  }

  method MarkAll(db: GatewayDb, verdicts: map<string, bool>, calls: string -> Calls)
    returns (marked: set<string>, failed: set<string>)
    requires db.State().Valid()
    modifies db`backends
    ensures db.State().Valid()
    ensures db.backends == Overlay(old(db.backends), verdicts, calls)
    ensures failed == set id | id in verdicts && Fails(old(db.backends), id, verdicts[id], calls(id))
    ensures forall id | id in verdicts ::
              id in failed <==>
              || calls(id).readFails
              || (id in old(db.backends) && old(db.backends)[id].isHealthy != verdicts[id] && calls(id).writeFails)
    ensures marked == verdicts.Keys * old(db.backends).Keys - failed
  {
    var s0 := Tick(db.backends, db.backends, map id | id in verdicts :: Task(verdicts[id], Start));
    var s := RunTasks(s0, calls);
    EndIsOverlay(s, db.backends, verdicts, calls);
    EndsApart(s, db.backends, verdicts, calls);
    db.backends := s.rows;
    marked := set id | id in s.tasks && s.tasks[id].phase.Marked?;
    failed := set id | id in s.tasks && s.tasks[id].phase.Failed?;
  }

  function Verdicts(backends: seq<Backend>, verdict: bool): (m: map<string, bool>)
    ensures forall id :: id in m <==> exists b :: b in backends && b.id == id
    ensures forall id | id in m :: m[id] == verdict
  {
    map b | b in backends :: b.id := verdict
  }

  ghost predicate Listed(backends: seq<Backend>, id: string) {
    exists b :: b in backends && b.id == id
  }

  /** The listed backend of this id was found healthy. */
  ghost predicate Healthy(backends: seq<Backend>, world: World, id: string) {
    exists b :: b in backends && b.id == id && Verdict(b, world(id))
  }

  /** The table after a tick: loads are stored where they were read, then the verdicts laid over. */
  ghost function AfterTick(
    rows: map<string, Backend>, backends: seq<Backend>, world: World, calls: string -> Calls): map<string, Backend>
  {
    var stored := AfterProbes(rows, backends, world);
    Overlay(stored, TickVerdicts(backends, world), calls)
  }

  ghost function TickVerdicts(backends: seq<Backend>, world: World): (verdicts: map<string, bool>)
    ensures forall id :: id in verdicts <==> Listed(backends, id)
    ensures forall id | id in verdicts :: verdicts[id] == Healthy(backends, world, id)
  {
    map b | b in backends :: b.id := Healthy(backends, world, b.id)
  }

  lemma {:induction false} ListedBySelection(backends: seq<Backend>, world: World, id: string)
    ensures Listed(Selected(backends, world, true), id) <==> Healthy(backends, world, id)
    ensures Listed(backends, id) <==>
              Listed(Selected(backends, world, true), id) || Listed(Selected(backends, world, false), id)
  {
    forall b, wanted ensures b in Selected(backends, world, wanted) <==>
                             b in backends && Verdict(b, world(b.id)) == wanted {
      SelectedMembers(backends, world, wanted, b);
    }
    if b :| b in backends && b.id == id {
      assert b in Selected(backends, world, Verdict(b, world(b.id)));
    }
  }

  lemma {:induction false} VerdictsOfSelections(backends: seq<Backend>, world: World)
    ensures Verdicts(Selected(backends, world, false), false) + Verdicts(Selected(backends, world, true), true)
            == TickVerdicts(backends, world)
  {
    forall id
      ensures Listed(Selected(backends, world, true), id) <==> Healthy(backends, world, id)
      ensures Listed(backends, id) <==>
              Listed(Selected(backends, world, true), id) || Listed(Selected(backends, world, false), id)
    {
      ListedBySelection(backends, world, id);
    }
    VerdictsMerged(Selected(backends, world, false), Selected(backends, world, true), TickVerdicts(backends, world));
  }

  lemma {:induction false} VerdictsMerged(unhealthy: seq<Backend>, healthy: seq<Backend>, verdicts: map<string, bool>)
    requires forall id :: id in verdicts <==> Listed(healthy, id) || Listed(unhealthy, id)
    requires forall id | id in verdicts :: verdicts[id] == Listed(healthy, id)
    ensures Verdicts(unhealthy, false) + Verdicts(healthy, true) == verdicts
  {
    var merged := Verdicts(unhealthy, false) + Verdicts(healthy, true);
    forall id ensures (id in merged <==> id in verdicts) && (id in verdicts ==> merged[id] == verdicts[id]) {
      assert id in Verdicts(healthy, true) <==> Listed(healthy, id);
      assert id in Verdicts(unhealthy, false) <==> Listed(unhealthy, id);
    }
  }

  /** Storing loads changes neither which rows there are nor their health, so it does not matter for failures. */
  lemma {:induction false} ProbesKeepHealth(rows: map<string, Backend>, backends: seq<Backend>, world: World)
    ensures var stored := AfterProbes(rows, backends, world);
            && stored.Keys == rows.Keys
            && (forall id | id in rows ::
                  stored[id].isHealthy == rows[id].isHealthy && stored[id].isEnabled == rows[id].isEnabled)
            && forall id, verdict, calls: Calls :: Fails(stored, id, verdict, calls) == Fails(rows, id, verdict, calls)
    decreases |backends|
  {
    if backends != [] {
      ProbesKeepHealth(rows, backends[..|backends| - 1], world);
    }
  }

  /** One tick: evaluate every backend, then mark them all. */
  method Execute(db: GatewayDb, listed: Reply<seq<Option<Backend>>>, world: World, calls: string -> Calls)
    returns (newStates: Reply<NewState>, marked: set<string>, failed: set<string>, ghost backends: seq<Backend>)
    requires db.State().Valid()
    requires listed.Ok? ==> forall i, j | 0 <= i < j < |listed.value| ::
               listed.value[i].Some? && listed.value[j].Some? ==> listed.value[i].value.id != listed.value[j].value.id
    modifies db`backends
    ensures db.State().Valid()
    ensures newStates.Error? ==> db.backends == old(db.backends)
    ensures newStates.Ok? <==> listed.Ok? && forall i | 0 <= i < |listed.value| :: listed.value[i].Some?
    ensures newStates.Ok? ==>
              && |backends| == |listed.value|
              && (forall i | 0 <= i < |backends| :: listed.value[i] == Some(backends[i]))
              && newStates.value == NewState(Selected(backends, world, true), Selected(backends, world, false))
              && db.backends == AfterTick(old(db.backends), backends, world, calls)
              && var verdicts := TickVerdicts(backends, world);
              && failed == (set id | id in verdicts && Fails(old(db.backends), id, verdicts[id], calls(id)))
              && marked == verdicts.Keys * old(db.backends).Keys - failed
  {
    marked, failed := {}, {};
    newStates, backends := EvaluateBackendNewState(db, listed, world);
    if newStates.Error? {
      return;
    }
    ProbesKeepHealth(old(db.backends), backends, world);
    VerdictsOfSelections(backends, world);
    var verdicts := Verdicts(newStates.value.unhealthy, false) + Verdicts(newStates.value.healthy, true);
    marked, failed := MarkAll(db, verdicts, calls);
  }
}
