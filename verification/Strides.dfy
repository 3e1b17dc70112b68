/**
 Picks taken at equal strides around the active ids: all of them are reached in one round
 if the stride and their number have no common divisor, and else some are never reached.
 */
module Strides {
  import RR = RoundRobin

  // ----- Greatest common divisors -----

  function Gcd(a: nat, b: nat): nat
    decreases b
  {
    if b == 0 then a else Gcd(b, a % b)
  }

  lemma Associates(a: int, b: int, c: int)
    ensures (a * b) * c == a * (b * c)
  {
  }

  lemma Distributes(a: int, b: int, c: int)
    ensures (a + b) * c == a * c + b * c
    ensures c * (a + b) == c * a + c * b
  {
  }

  lemma Division(a: nat, b: nat) returns (d: nat, r: nat)
    requires b > 0
    ensures a == d * b + r && r == a % b < b
  {
    d, r := a / b, a % b;
  }

  lemma Multiple(d: nat, p: nat, q: nat, g: nat) returns (m: nat)
    ensures m * g == d * (p * g) + q * g
  {
    m := d * p + q;
    Distributes(d * p, q, g);
    Associates(d, p, g);
  }

  /** The divisor divides both numbers. */
  lemma {:induction false} GcdDivides(a: nat, b: nat) returns (p: nat, q: nat)
    ensures a == p * Gcd(a, b) && b == q * Gcd(a, b)
    decreases b
  {
    if b == 0 {
      p, q := 1, 0;
    } else {
      var d, r := Division(a, b);
      var rest;
      q, rest := GcdDivides(b, r);
      p := Multiple(d, q, rest, Gcd(b, r));
    }
  }

  /** And it is a combination of them. */
  lemma {:induction false} Combination(a: nat, b: nat) returns (x: int, y: int)
    ensures a * x + b * y == Gcd(a, b)
    decreases b
  {
    if b == 0 {
      x, y := 1, 0;
    } else {
      var d := a / b;
      var x', y' := Combination(b, a % b);
      x, y := y', x' - d * y';
      assert a == b * d + a % b;
      Distributes(b * d, a % b, y');
      Associates(b, d, y');
      Distributes(x', -(d * y'), b);
    }
  }

  lemma MultipleOf(n: nat, q: int, x: nat)
    requires n > 0 && x == n * q
    ensures x % n == 0 && (x < n ==> x == 0)
  {
    RR.AtLeast(n, q);
    RR.AtLeast(n, -q);
    RR.Negated(n, q);
    var p := x / n;
    RR.Distributes(n, p, q - p);
    RR.AtLeast(n, q - p);
    RR.AtLeast(n, p - q);
    RR.Negated(n, q - p);
  }

  /** Without a common divisor, fewer than n strides never make whole rounds. */
  lemma {:induction false} NoEarlyReturn(s: nat, n: nat, m: nat)
    requires Gcd(s, n) == 1 && 0 < m < n
    ensures (s * m) % n != 0
  {
    if (s * m) % n == 0 {
      var x, y := Combination(s, n);
      var q := s * m / n;
      assert s * m == n * q;
      Distributes(s * x, n * y, m);
      assert s * x * m == s * m * x == n * q * x;
      Associates(n, q, x);
      Associates(n, y, m);
      Distributes(q * x, y * m, n);
      MultipleOf(n, q * x + y * m, m);
    }
  }

  /** With one, some number of strides smaller than n does. */
  lemma {:induction false} EarlyReturn(s: nat, n: nat) returns (m: nat)
    requires n > 0 && Gcd(s, n) != 1
    ensures 0 < m < n && (s * m) % n == 0
  {
    var g := Gcd(s, n);
    var p, q := GcdDivides(s, n);
    m := q;
    assert g > 1;
    RR.AtLeast(q, g - 1);
    Distributes(g - 1, 1, q);
    Associates(p, g, q);
    MultipleOf(n, p, s * m);
  }

  // ----- Answers at equal strides -----

  /** Active ids, each so many picks after the one before it. */
  ghost predicate Strided(answers: seq<string>, active: set<string>, s: nat)
    requires active != {}
  {
    && (forall i | 0 <= i < |answers| :: answers[i] in active)
    && forall i | 0 < i < |answers| :: StrideAt(answers, active, s, i)
  }

  ghost predicate StrideAt(answers: seq<string>, active: set<string>, s: nat, i: nat)
    requires 0 < i < |answers| && active != {}
  {
    answers[i] == RR.LastPick(active, answers[i - 1], s)
  }

  /** The id is active and one stride on from the last answer. */
  ghost predicate Follows(answers: seq<string>, active: set<string>, s: nat, next: string)
    requires active != {}
  {
    next in active && (answers != [] ==> next == RR.LastPick(active, answers[|answers| - 1], s))
  }

  lemma StridedOneMore(answers: seq<string>, active: set<string>, s: nat, next: string)
    requires active != {} && Strided(answers, active, s) && Follows(answers, active, s, next)
    ensures Strided(answers + [next], active, s)
  {
    var more := answers + [next];
    forall i | 0 < i < |more| ensures StrideAt(more, active, s, i) {
      assert i < |answers| ==> StrideAt(answers, active, s, i);
    }
  }

  lemma PicksAdd(active: set<string>, ids: seq<string>, j: nat, a: nat, b: nat)
    requires active != {} && RR.Cycles(ids, active) && j < |ids|
    ensures RR.LastPick(active, ids[j], a + b) == RR.LastPick(active, RR.LastPick(active, ids[j], a), b)
  {
    RR.PickAfter(active, ids, j, a + b);
    RR.PickAfter(active, ids, j, a);
    RR.PickAfter(active, ids, RR.Around(j, a, |ids|), b);
    RR.AroundSplit(j, a, b, |ids|);
  }

  lemma LastPickAdds(active: set<string>, id: string, a: nat, b: nat, total: nat)
    requires id in active && active != {} && total == a + b
    ensures RR.LastPick(active, id, total) == RR.LastPick(active, RR.LastPick(active, id, a), b)
  {
    var ids, j := RR.IndexOf(active, id);
    PicksAdd(active, ids, j, a, b);
  }

  lemma {:induction false} StridesAdd(answers: seq<string>, active: set<string>, s: nat, i: nat, d: nat)
    requires active != {} && Strided(answers, active, s) && i + d < |answers|
    ensures s * d >= 0 && answers[i + d] == RR.LastPick(active, answers[i], s * d)
    decreases d
  {
    if d > 0 {
      StridesAdd(answers, active, s, i, d - 1);
      Distributes(d - 1, 1, s);
      assert StrideAt(answers, active, s, i + d);
      LastPickAdds(active, answers[i], s * (d - 1), s, s * d);
    }
  }

  /** d strides lead back to the same answer exactly if they make whole rounds. */
  lemma SameAnswerExactly(answers: seq<string>, active: set<string>, s: nat, i: nat, d: nat)
    requires active != {} && Strided(answers, active, s) && i + d < |answers|
    ensures |active| > 0
    ensures answers[i + d] == answers[i] <==> (s * d) % |active| == 0
  {
    StridesAdd(answers, active, s, i, d);
    RR.BackAfterWholeRounds(active, answers[i], s * d);
  }

  // ----- Counting -----

  lemma {:induction false} SizeOfIds(ids: seq<string>)
    ensures |RR.IdSet(ids)| <= |ids|
    ensures (forall i, j | 0 <= i < j < |ids| :: ids[i] != ids[j]) ==> |RR.IdSet(ids)| == |ids|
  {
    if ids != [] {
      var front, last := ids[..|ids| - 1], ids[|ids| - 1];
      SizeOfIds(front);
      assert ids == front + [last];
      assert RR.IdSet(ids) == RR.IdSet(front) + {last};
    }
  }

  lemma DistinctIdsCover(ids: seq<string>, active: set<string>)
    requires |ids| == |active| && forall i | 0 <= i < |ids| :: ids[i] in active
    requires forall i, j | 0 <= i < j < |ids| :: ids[i] != ids[j]
    ensures HoldsAll(ids, active)
  {
    SizeOfIds(ids);
    if RR.IdSet(ids) != active {
      RR.SmallerSet(RR.IdSet(ids), active);
    }
    assert forall x | x in active :: x in RR.IdSet(ids);
  }

  lemma FewIdsLeaveOneOut(ids: seq<string>, active: set<string>) returns (x: string)
    requires |ids| < |active|
    ensures x in active && x !in ids
  {
    SizeOfIds(ids);
    if active <= RR.IdSet(ids) {
      if active != RR.IdSet(ids) {
        RR.SmallerSet(active, RR.IdSet(ids));
      }
      assert false;
    }
    x :| x in active && x !in RR.IdSet(ids);
  }

  // ----- Who is reached -----

  ghost predicate HoldsAll(ids: seq<string>, active: set<string>) {
    forall x | x in active :: x in ids
  }

  /** As many consecutive answers as there are active ids, from answer w on. */
  ghost function Round(answers: seq<string>, active: set<string>, w: nat): (round: seq<string>)
    requires w + |active| <= |answers|
    ensures |round| == |active|
  {
    answers[w..w + |active|]
  }

  /** Every such round of answers holds all active ids. */
  ghost predicate AllInTurn(answers: seq<string>, active: set<string>) {
    forall w: nat | w + |active| <= |answers| :: HoldsAll(Round(answers, active, w), active)
  }

  ghost predicate LeavesOneOut(answers: seq<string>, active: set<string>) {
    exists x :: x in active && x !in answers
  }

  lemma CoprimeReachesAll(answers: seq<string>, active: set<string>, s: nat)
    requires active != {} && Strided(answers, active, s) && Gcd(s, |active|) == 1
    ensures AllInTurn(answers, active)
  {
    forall w: nat | w + |active| <= |answers| ensures HoldsAll(Round(answers, active, w), active) {
      var round := Round(answers, active, w);
      forall i, j | 0 <= i < j < |round| ensures round[i] != round[j] {
        NoEarlyReturn(s, |active|, j - i);
        SameAnswerExactly(answers, active, s, w + i, j - i);
      }
      DistinctIdsCover(round, active);
    }
  }

  lemma {:induction false} AnswersRepeat(answers: seq<string>, active: set<string>, s: nat, m: nat, i: nat)
    requires active != {} && Strided(answers, active, s) && |active| > 0
    requires 0 < m <= |answers| && (s * m) % |active| == 0 && i < |answers|
    ensures answers[i] in answers[..m]
    decreases i
  {
    if i < m {
      assert answers[..m][i] == answers[i];
    } else {
      SameAnswerExactly(answers, active, s, i - m, m);
      AnswersRepeat(answers, active, s, m, i - m);
    }
  }

  lemma {:induction false} CommonDivisorLeavesOneOut(answers: seq<string>, active: set<string>, s: nat)
    requires active != {} && Strided(answers, active, s) && Gcd(s, |active|) != 1
    ensures LeavesOneOut(answers, active)
  {
    var m := EarlyReturn(s, |active|);
    var first := if m <= |answers| then answers[..m] else answers;
    var x := FewIdsLeaveOneOut(first, active);
    if m <= |answers| {
      forall i | 0 <= i < |answers| ensures answers[i] in first {
        AnswersRepeat(answers, active, s, m, i);
      }
    }
  }

  /** Both ways: a round reaches everyone if and only if stride and number have no common divisor. */
  lemma {:induction false} ReachesAllExactly(answers: seq<string>, active: set<string>, s: nat)
    requires active != {} && Strided(answers, active, s) && |answers| >= |active|
    ensures AllInTurn(answers, active) <==> Gcd(s, |active|) == 1
    ensures LeavesOneOut(answers, active) <==> Gcd(s, |active|) != 1
  {
    var first := Round(answers, active, 0);
    assert forall x | x in first :: x in answers;
    if Gcd(s, |active|) == 1 {
      CoprimeReachesAll(answers, active, s);
      assert HoldsAll(first, active);
    } else {
      CommonDivisorLeavesOneOut(answers, active, s);
      assert !HoldsAll(first, active);
    }
  }
}
