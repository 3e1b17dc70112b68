/**
 What a run of requests does to one round-robin group, told visit by visit: each may look for
 a backend in the group, which moves its cursor on, and the group's own visits return the pick.
 */
module Turns {
  import opened Strides
  import RR = RoundRobin

  datatype Visit = Visit(active: set<string>, cursor: string, looks: bool, own: bool, answer: string)

  ghost predicate Sound(v: Visit) {
    && (v.looks ==> v.active != {})
    && (v.own ==> v.looks && v.answer == RR.Successor(v.active, v.cursor))
  }

  ghost function After(v: Visit): string
    requires Sound(v)
  {
    if v.looks then RR.Successor(v.active, v.cursor) else v.cursor
  }

  /** Each visit finds the cursor the one before it left; the active sets may differ. */
  ghost predicate Chained(vs: seq<Visit>) {
    && (forall i | 0 <= i < |vs| :: Sound(vs[i]))
    && forall i | 0 < i < |vs| :: vs[i].cursor == After(vs[i - 1])
  }

  /** The answers of the own visits among the first n. */
  ghost function OwnAnswers(vs: seq<Visit>, n: nat): seq<string>
    requires n <= |vs|
  {
    if n == 0 then [] else OwnAnswers(vs, n - 1) + if vs[n - 1].own then [vs[n - 1].answer] else []
  }

  /** The active sets that the own visits among the first n found. */
  ghost function OwnActives(vs: seq<Visit>, n: nat): (actives: seq<set<string>>)
    requires n <= |vs|
    ensures |actives| == |OwnAnswers(vs, n)|
  {
    if n == 0 then [] else OwnActives(vs, n - 1) + if vs[n - 1].own then [vs[n - 1].active] else []
  }

  /** The latest answer of an own visit before visit n, or the cursor the run began with. */
  ghost function LastAnswer(vs: seq<Visit>, n: nat): string
    requires n < |vs|
  {
    if n == 0 then vs[0].cursor else if vs[n - 1].own then vs[n - 1].answer else LastAnswer(vs, n - 1)
  }

  /** How many visits before visit n have looked without being own, since the latest own one. */
  ghost function SilentLooks(vs: seq<Visit>, n: nat): nat
    requires n < |vs|
  {
    if n == 0 || vs[n - 1].own then 0 else SilentLooks(vs, n - 1) + if vs[n - 1].looks then 1 else 0
  }

  lemma {:induction false} LastAnswerIsLast(vs: seq<Visit>, n: nat)
    requires n < |vs|
    ensures var answers := OwnAnswers(vs, n);
            LastAnswer(vs, n) == if answers == [] then vs[0].cursor else answers[|answers| - 1]
  {
    if n > 0 && !vs[n - 1].own {
      LastAnswerIsLast(vs, n - 1);
    }
  }

  // ----- No silent looks -----

  ghost predicate NeverSilent(vs: seq<Visit>) {
    forall i | 0 <= i < |vs| :: vs[i].looks ==> vs[i].own
  }

  lemma {:induction false} CursorIsLastAnswer(vs: seq<Visit>, n: nat)
    requires Chained(vs) && NeverSilent(vs) && n < |vs|
    ensures vs[n].cursor == LastAnswer(vs, n)
  {
    if n > 0 {
      CursorIsLastAnswer(vs, n - 1);
    }
  }

  lemma {:induction false} ActivesNotEmpty(vs: seq<Visit>, n: nat)
    requires Chained(vs) && n <= |vs|
    ensures forall i | 0 <= i < |OwnActives(vs, n)| :: OwnActives(vs, n)[i] != {}
  {
    if n > 0 {
      ActivesNotEmpty(vs, n - 1);
    }
  }

  lemma {:induction false} ChurnOneMore(actives: seq<set<string>>, cursor: string, active: set<string>)
    requires active != {} && forall i | 0 <= i < |actives| :: actives[i] != {}
    ensures var picks := RR.ChurnPicks(actives, cursor);
            RR.ChurnPicks(actives + [active], cursor)
            == picks + [RR.Successor(active, if picks == [] then cursor else picks[|picks| - 1])]
    decreases |actives|
  {
    if actives == [] {
      assert ([active] + [])[1..] == [];
      assert actives + [active] == [active];
    } else {
      var next := RR.Successor(actives[0], cursor);
      assert (actives + [active])[1..] == actives[1..] + [active];
      ChurnOneMore(actives[1..], next, active);
    }
  }

  /** Without silent looks the own visits are answered as a run of calls would be, whatever comes and goes. */
  lemma {:induction false} OwnAnswersAreCalls(vs: seq<Visit>, n: nat)
    requires Chained(vs) && NeverSilent(vs) && vs != [] && n <= |vs|
    ensures forall i | 0 <= i < |OwnActives(vs, n)| :: OwnActives(vs, n)[i] != {}
    ensures OwnAnswers(vs, n) == RR.ChurnPicks(OwnActives(vs, n), vs[0].cursor)
  {
    ActivesNotEmpty(vs, n);
    if n > 0 {
      OwnAnswersAreCalls(vs, n - 1);
      if vs[n - 1].own {
        CursorIsLastAnswer(vs, n - 1);
        LastAnswerIsLast(vs, n - 1);
        ChurnOneMore(OwnActives(vs, n - 1), vs[0].cursor, vs[n - 1].active);
      } else {
        assert OwnAnswers(vs, n) == OwnAnswers(vs, n - 1) && OwnActives(vs, n) == OwnActives(vs, n - 1);
      }
    }
  }

  /** The own visits are answered as consecutive calls with the active sets they find. */
  ghost predicate AsCalls(vs: seq<Visit>)
    requires vs != []
  {
    && (forall i | 0 <= i < |OwnActives(vs, |vs|)| :: OwnActives(vs, |vs|)[i] != {})
    && OwnAnswers(vs, |vs|) == RR.ChurnPicks(OwnActives(vs, |vs|), vs[0].cursor)
  }

  ghost predicate OwnFind(vs: seq<Visit>, active: set<string>) {
    forall i | 0 <= i < |vs| && vs[i].own :: vs[i].active == active
  }

  lemma {:induction false} OwnActivesEqual(vs: seq<Visit>, active: set<string>, n: nat)
    requires OwnFind(vs, active) && n <= |vs|
    ensures forall i | 0 <= i < |OwnActives(vs, n)| :: OwnActives(vs, n)[i] == active
  {
    if n > 0 {
      OwnActivesEqual(vs, active, n - 1);
    }
  }

  /** Active ids are answered equally often, give or take one, and in one round once each. */
  ghost predicate Fair(vs: seq<Visit>, active: set<string>) {
    var answers := OwnAnswers(vs, |vs|);
    && (|answers| == |active| ==> multiset(answers) == multiset(active))
    && forall x, y | x in active && y in active :: multiset(answers)[x] <= multiset(answers)[y] + 1
  }

  /** Then own visits are fair as long as they all find the same active set. */
  lemma {:induction false} NeverSilentIsFair(vs: seq<Visit>, active: set<string>)
    requires Chained(vs) && NeverSilent(vs) && active != {} && OwnFind(vs, active)
    ensures Fair(vs, active)
  {
    var actives, answers := OwnActives(vs, |vs|), OwnAnswers(vs, |vs|);
    if vs != [] {
      var cursor := vs[0].cursor;
      OwnAnswersAreCalls(vs, |vs|);
      OwnActivesEqual(vs, active, |vs|);
      RR.SteadyChurn(actives, active, cursor);
      RR.EveryRoundIsAPermutation(active, cursor);
      forall x, y | x in active && y in active ensures multiset(answers)[x] <= multiset(answers)[y] + 1 {
        RR.CountsDifferByAtMostOne(active, cursor, |actives|, x, y);
      }
    }
  }

  ghost predicate OwnFindWithin(vs: seq<Visit>, id: string, universe: set<string>) {
    forall i | 0 <= i < |vs| && vs[i].own :: id in vs[i].active && vs[i].active <= universe
  }

  lemma {:induction false} OwnActivesWithin(vs: seq<Visit>, id: string, universe: set<string>, n: nat)
    requires OwnFindWithin(vs, id, universe) && n <= |vs|
    ensures forall i | 0 <= i < |OwnActives(vs, n)| :: id in OwnActives(vs, n)[i] && OwnActives(vs, n)[i] <= universe
  {
    if n > 0 {
      OwnActivesWithin(vs, id, universe, n - 1);
    }
  }

  /** Of as many own visits as there are ids, one is answered with the id. */
  ghost predicate ServedInTime(vs: seq<Visit>, id: string, universe: set<string>) {
    |OwnAnswers(vs, |vs|)| >= |universe| ==> id in OwnAnswers(vs, |vs|)
  }

  /** And nothing starves that is active at all of them. */
  lemma {:induction false} NeverSilentNeverStarves(vs: seq<Visit>, universe: set<string>, id: string)
    requires Chained(vs) && NeverSilent(vs) && id in universe && OwnFindWithin(vs, id, universe)
    ensures ServedInTime(vs, id, universe)
  {
    assert |universe| > 0 by {
      assert universe - {id} < universe;
      RR.SmallerSet(universe - {id}, universe);
    }
    if |OwnAnswers(vs, |vs|)| >= |universe| {
      OwnAnswersAreCalls(vs, |vs|);
      OwnActivesWithin(vs, id, universe, |vs|);
      RR.NoStarvation(universe, OwnActives(vs, |vs|), vs[0].cursor, id);
    }
  }

  // ----- A fixed active set -----

  ghost predicate ActiveThroughout(vs: seq<Visit>, active: set<string>) {
    forall i | 0 <= i < |vs| && vs[i].looks :: vs[i].active == active
  }

  /** Every silent look has moved the cursor on by one pick since the last answer. */
  lemma {:induction false} CursorRunsAhead(vs: seq<Visit>, active: set<string>, n: nat)
    requires Chained(vs) && ActiveThroughout(vs, active) && active != {} && n < |vs|
    ensures vs[n].cursor == RR.LastPick(active, LastAnswer(vs, n), SilentLooks(vs, n))
  {
    if n > 0 {
      CursorRunsAhead(vs, active, n - 1);
      assert vs[n].cursor == After(vs[n - 1]);
      RR.LastPickNext(active, LastAnswer(vs, n - 1), SilentLooks(vs, n - 1));
    }
  }

  /**
   After k silent looks visit n continues the rotation from the last answer exactly if k is a
   whole number of rounds, and repeats that answer exactly if k is one short of that.
   */
  ghost predicate GapDecides(vs: seq<Visit>, active: set<string>, n: nat)
    requires n < |vs| && active != {}
  {
    var last, k := LastAnswer(vs, n), SilentLooks(vs, n);
    assert |active| > 0;
    && (vs[n].answer == RR.Successor(active, last) <==> k % |active| == 0)
    && (last in active ==> (vs[n].answer == last <==> (k + 1) % |active| == 0))
  }

  lemma {:induction false} AnswerAfterSilentLooks(vs: seq<Visit>, active: set<string>, n: nat)
    requires Chained(vs) && ActiveThroughout(vs, active) && active != {} && n < |vs| && vs[n].own
    ensures GapDecides(vs, active, n)
  {
    var last, k := LastAnswer(vs, n), SilentLooks(vs, n);
    CursorRunsAhead(vs, active, n);
    RR.ContinuesAfterWholeRounds(active, last, k);
    RR.LastPickNext(active, last, k);
    if last in active {
      RR.BackAfterWholeRounds(active, last, k + 1);
    }
  }

  /** Every own visit among the first n comes after whole rounds of silent looks. */
  ghost predicate WholeRounds(vs: seq<Visit>, active: set<string>, n: nat)
    requires n <= |vs| && active != {}
  {
    assert |active| > 0;
    forall t | 0 <= t < n && vs[t].own :: SilentLooks(vs, t) % |active| == 0
  }

  /** The answers of the own visits among the first n are the picks in rotation from the first cursor. */
  ghost predicate Rotates(vs: seq<Visit>, active: set<string>, n: nat)
    requires n <= |vs| && active != {} && vs != []
  {
    var answers := OwnAnswers(vs, n);
    answers == RR.Picks(active, vs[0].cursor, |answers|)
  }

  lemma {:induction false} PicksOneMore(active: set<string>, cursor: string, m: nat)
    requires active != {}
    ensures RR.Picks(active, cursor, m + 1)
            == RR.Picks(active, cursor, m) + [RR.Successor(active, RR.LastPick(active, cursor, m))]
  {
    var last := RR.LastPick(active, cursor, m);
    RR.PicksAppend(active, cursor, m, 1);
    assert RR.Picks(active, last, 1) == [RR.Successor(active, last)] + [];
  }

  lemma {:induction false} LastOfPicks(active: set<string>, cursor: string, m: nat)
    requires active != {}
    ensures RR.LastPick(active, cursor, m) == if m == 0 then cursor else RR.Picks(active, cursor, m)[m - 1]
  {
    if m > 0 {
      PicksOneMore(active, cursor, m - 1);
      RR.LastPickNext(active, cursor, m - 1);
    }
  }

  lemma {:induction false} OneMoreVisit(vs: seq<Visit>, active: set<string>, n: nat)
    requires n < |vs| && active != {}
    ensures |active| > 0
    ensures WholeRounds(vs, active, n + 1) <==>
            WholeRounds(vs, active, n) && (vs[n].own ==> SilentLooks(vs, n) % |active| == 0)
    ensures !vs[n].own ==> (Rotates(vs, active, n + 1) <==> Rotates(vs, active, n))
  {
    assert |active| > 0;
    assert !vs[n].own ==> OwnAnswers(vs, n + 1) == OwnAnswers(vs, n);
  }

  /** One more own visit keeps the answers in rotation exactly after whole rounds of silent looks. */
  lemma {:induction false} NextInRotation(vs: seq<Visit>, active: set<string>, n: nat)
    requires Chained(vs) && ActiveThroughout(vs, active) && active != {} && n < |vs| && vs[n].own
    ensures |active| > 0
    ensures Rotates(vs, active, n + 1) <==> Rotates(vs, active, n) && SilentLooks(vs, n) % |active| == 0
  {
    var before, cursor, answer := OwnAnswers(vs, n), vs[0].cursor, vs[n].answer;
    var picks, more := RR.Picks(active, cursor, |before|), RR.Picks(active, cursor, |before| + 1);
    PicksOneMore(active, cursor, |before|);
    LastOfPicks(active, cursor, |before|);
    LastAnswerIsLast(vs, n);
    AnswerAfterSilentLooks(vs, active, n);
    assert OwnAnswers(vs, n + 1) == before + [answer];
    if before + [answer] == more {
      assert before == (before + [answer])[..|before|] == more[..|before|] == picks;
      assert answer == (before + [answer])[|before|] == more[|before|];
    }
  }

  /**
   With a fixed active set, the own visits get the picks in rotation from the first cursor if
   and only if each comes after whole rounds of silent looks.
   */
  lemma {:induction false} RotatesExactly(vs: seq<Visit>, active: set<string>, n: nat)
    requires Chained(vs) && ActiveThroughout(vs, active) && active != {} && n <= |vs| && vs != []
    ensures Rotates(vs, active, n) <==> WholeRounds(vs, active, n)
    decreases n
  {
    if n > 0 {
      RotatesExactly(vs, active, n - 1);
      OneMoreVisit(vs, active, n - 1);
      if vs[n - 1].own {
        NextInRotation(vs, active, n - 1);
      }
    }
  }

  // ----- The same number of silent looks every time -----

  /** Between any two consecutive own visits there are k silent looks. */
  ghost predicate EvenGaps(vs: seq<Visit>, k: nat) {
    forall t | 0 <= t < |vs| && vs[t].own && OwnAnswers(vs, t) != [] :: SilentLooks(vs, t) == k
  }

  lemma {:induction false} NextStride(vs: seq<Visit>, active: set<string>, k: nat, n: nat)
    requires Chained(vs) && ActiveThroughout(vs, active) && active != {} && EvenGaps(vs, k)
    requires n < |vs| && vs[n].own
    ensures Follows(OwnAnswers(vs, n), active, k + 1, vs[n].answer)
  {
    LastAnswerIsLast(vs, n);
    CursorRunsAhead(vs, active, n);
    RR.LastPickNext(active, LastAnswer(vs, n), SilentLooks(vs, n));
  }

  lemma {:induction false} AnswersAreStrided(vs: seq<Visit>, active: set<string>, k: nat, n: nat)
    requires Chained(vs) && ActiveThroughout(vs, active) && active != {} && EvenGaps(vs, k) && n <= |vs|
    ensures Strided(OwnAnswers(vs, n), active, k + 1)
    decreases n
  {
    if n > 0 {
      var before := OwnAnswers(vs, n - 1);
      AnswersAreStrided(vs, active, k, n - 1);
      if vs[n - 1].own {
        NextStride(vs, active, k, n - 1);
        StridedOneMore(before, active, k + 1, vs[n - 1].answer);
      } else {
        assert OwnAnswers(vs, n) == before;
      }
    }
  }

  /**
   Then every round of own visits is answered with all active ids if k + 1 and their number have
   no common divisor, and else some active id never is.
   */
  ghost predicate DivisorDecides(vs: seq<Visit>, active: set<string>, k: nat) {
    var answers := OwnAnswers(vs, |vs|);
    && (Gcd(k + 1, |active|) == 1 ==> AllInTurn(answers, active))
    && (Gcd(k + 1, |active|) != 1 ==> LeavesOneOut(answers, active))
    && (|answers| >= |active| ==> (AllInTurn(answers, active) <==> Gcd(k + 1, |active|) == 1))
  }

  lemma {:induction false} EvenGapsExactly(vs: seq<Visit>, active: set<string>, k: nat)
    requires Chained(vs) && ActiveThroughout(vs, active) && active != {} && EvenGaps(vs, k)
    ensures DivisorDecides(vs, active, k)
  {
    var answers := OwnAnswers(vs, |vs|);
    AnswersAreStrided(vs, active, k, |vs|);
    if Gcd(k + 1, |active|) == 1 {
      CoprimeReachesAll(answers, active, k + 1);
    } else {
      CommonDivisorLeavesOneOut(answers, active, k + 1);
    }
    if |answers| >= |active| {
      ReachesAllExactly(answers, active, k + 1);
    }
  }
}
