/**
 Round robin over backend ids. The gateway appends the last routed id to the active
 ids, sorts, finds the last index of that id, steps and wraps. The specification is
 the cyclic successor of the cursor in the set of active ids; fairness and freedom
 from starvation are proved of that successor.
 */
module RoundRobin {
  import opened Lex

  ghost function IdSet(ids: seq<string>): set<string> {
    set id | id in ids
  }

  ghost function Above(s: set<string>, cursor: string): set<string> {
    set x | x in s && Less(cursor, x)
  }

  /** Least active id above the cursor, or the least active id when none is above. */
  ghost function Successor(active: set<string>, cursor: string): (next: string)
    requires active != {}
    ensures next in active
  {
    if Above(active, cursor) != {} then Min(Above(active, cursor)) else Min(active)
  }

  /** The selection arithmetic of the round-robin strategy. */
  method Pick(activeIds: seq<string>, cursor: string) returns (picked: string)
    requires activeIds != []
    ensures IdSet(activeIds) != {}
    ensures picked == Successor(IdSet(activeIds), cursor)
    ensures picked in activeIds
    ensures forall x | x in activeIds ::
              if Before(cursor, picked) then !(Before(cursor, x) && Before(x, picked))
              else !Before(cursor, x) && !Before(x, picked)
  {
    var ids := Sort(activeIds + [cursor]);
    SortedIds(activeIds, cursor, ids);
    var index := 0;
    for i := 0 to |ids|
      invariant 0 <= index < |ids|
      invariant cursor in ids[..i] ==> index < i && ids[index] == cursor
      invariant forall j | index < j < i :: ids[j] != cursor
    {
      if ids[i] == cursor {
        index := i;
      }
    }
    assert ids[..|ids|] == ids;
    ghost var last := index;
    index := index + 1;
    if index >= |ids| {
      index := 0;
    }
    picked := ids[index];
    StepIsSuccessor(activeIds, cursor, ids, last);
    NextInByteOrder(IdSet(activeIds), cursor, picked);
  }

  /** What sorting the appended list gives: the active ids and the cursor, nothing else. */
  lemma SortedIds(activeIds: seq<string>, cursor: string, ids: seq<string>)
    requires activeIds != []
    requires multiset(ids) == multiset(activeIds + [cursor])
    ensures |ids| == |activeIds| + 1
    ensures cursor in ids
    ensures forall id | id in activeIds :: id in ids
    ensures forall id | id in ids && id != cursor :: id in activeIds
    ensures (forall id | id in ids :: id == cursor) ==> cursor in activeIds
  {
    assert |multiset(ids)| == |ids|;
    assert |multiset(activeIds + [cursor])| == |activeIds| + 1;
    assert forall id :: id in ids <==> id in multiset(ids);
    assert forall id :: id in activeIds + [cursor] <==> id in multiset(activeIds + [cursor]);
    assert activeIds[0] in activeIds + [cursor];
    assert activeIds[0] in ids;
  }

  /** Stepping from the last occurrence of the cursor, with wrap-around, is the successor. */
  lemma StepIsSuccessor(activeIds: seq<string>, cursor: string, ids: seq<string>, last: nat)
    requires activeIds != [] && Sorted(ids)
    requires multiset(ids) == multiset(activeIds + [cursor])
    requires last < |ids| && ids[last] == cursor
    requires forall j | last < j < |ids| :: ids[j] != cursor
    ensures var next := if last + 1 < |ids| then last + 1 else 0;
            IdSet(activeIds) != {} && ids[next] == Successor(IdSet(activeIds), cursor)
  {
    TotalOrder();
    SortedIds(activeIds, cursor, ids);
    var s := IdSet(activeIds);
    assert activeIds[0] in s;
    var above := Above(s, cursor);
    forall x | x in above ensures last + 1 < |ids| && Leq(ids[last + 1], x) {
      var k :| 0 <= k < |ids| && ids[k] == x;
      assert k > last;
    }
    if last + 1 < |ids| {
      assert ids[last + 1] in above;
      LeastIsUnique(ids[last + 1], Min(above), above);
    } else {
      assert above == {};
      assert activeIds[0] in s;
      if ids[0] == cursor {
        forall id | id in ids ensures id == cursor {
          var k :| 0 <= k < |ids| && ids[k] == id;
        }
      }
      assert ids[0] in s;
      LeastIsUnique(ids[0], Min(s), s);
    }
  }

  /** Active or not, the cursor decides the pick as the least id above it, else the least id. */
  lemma SuccessorMeaning(active: set<string>, cursor: string, next: string)
    requires active != {}
    ensures next == Successor(active, cursor) <==>
            next in active &&
            forall x | x in active ::
              if Less(cursor, next) then Less(cursor, x) ==> Leq(next, x)
              else Leq(x, cursor) && Leq(next, x)
  {
    TotalOrder();
    var s := Successor(active, cursor);
    var above := Above(active, cursor);
    if above != {} {
      assert Less(cursor, s);
    } else {
      assert forall x | x in active :: x !in above;
      assert s !in above;
    }
    if next in active && next != s {
      assert Less(cursor, next) <==> next in above;
    }
  }

  /** The same on the bytes of the ids: no active id lies between the cursor and the pick. */
  lemma NextInByteOrder(active: set<string>, cursor: string, next: string)
    requires active != {}
    ensures next == Successor(active, cursor) <==>
            next in active &&
            forall x | x in active ::
              if Before(cursor, next) then !(Before(cursor, x) && Before(x, next))
              else !Before(cursor, x) && !Before(x, next)
  {
    TotalOrder();
    SuccessorMeaning(active, cursor, next);
    LessIsBefore(cursor, next);
    forall x ensures (Less(cursor, x) <==> Before(cursor, x)) && (Less(x, next) <==> Before(x, next)) {
      LessIsBefore(cursor, x);
      LessIsBefore(x, next);
    }
    assert forall x :: Leq(next, x) <==> !Less(x, next);
    assert forall x :: Leq(x, cursor) <==> !Less(cursor, x);
  }

  // ----- Fixed active set: exact fairness -----

  /** `k` consecutive serialized picks from a fixed active set. */
  ghost function Picks(active: set<string>, cursor: string, k: nat): (r: seq<string>)
    requires active != {}
    ensures |r| == k
    decreases k
  {
    if k == 0 then
      []
    else
      var next := Successor(active, cursor);
      [next] + Picks(active, next, k - 1)
  }

  /** The ids of a set in strictly ascending order. */
  ghost predicate Enumerates(ids: seq<string>, s: set<string>) {
    && (forall id :: id in ids <==> id in s)
    && (forall i, j | 0 <= i < j < |ids| :: Less(ids[i], ids[j]))
  }

  ghost function Ascending(s: set<string>): seq<string> {
    if s == {} then [] else [Min(s)] + Ascending(s - {Min(s)})
  }

  lemma EnumeratesLeastFirst(m: string, rest: seq<string>, s: set<string>)
    requires m in s && Enumerates(rest, s - {m})
    requires forall x | x in s && x != m :: Less(m, x)
    ensures Enumerates([m] + rest, s)
  {
    var ids := [m] + rest;
    forall i, j | 0 <= i < j < |ids| ensures Less(ids[i], ids[j]) {
      assert ids[j] == rest[j - 1] && rest[j - 1] in rest;
    }
    forall id ensures id in ids <==> id in s {
      assert id in rest <==> id in s - {m};
    }
  }

  lemma {:induction false} AscendingEnumerates(s: set<string>)
    ensures Enumerates(Ascending(s), s)
  {
    if s != {} {
      AscendingEnumerates(s - {Min(s)});
      EnumeratesLeastFirst(Min(s), Ascending(s - {Min(s)}), s);
    }
  }

  lemma {:induction false} AscendingHoldsAll(s: set<string>)
    ensures multiset(Ascending(s)) == multiset(s) && |Ascending(s)| == |s|
  {
    if s != {} {
      var m := Min(s);
      AscendingHoldsAll(s - {m});
      assert multiset(s) == multiset(s - {m}) + multiset{m};
    }
  }

  ghost function Rotation(s: seq<string>, j: nat): (r: seq<string>)
    requires j < |s|
    ensures |r| == |s|
    ensures multiset(r) == multiset(s)
  {
    assert s == s[..j] + s[j..];
    s[j..] + s[..j]
  }

  lemma RotationStep(s: seq<string>, j: nat, k: nat)
    requires j < |s| && 0 < k <= |s|
    ensures var next := if j + 1 < |s| then j + 1 else 0;
            Rotation(s, j)[..k] == [s[j]] + Rotation(s, next)[..k - 1]
  {
  }

  lemma SuccessorOfIndex(active: set<string>, ids: seq<string>, j: nat)
    requires Enumerates(ids, active) && j < |ids|
    ensures active != {}
    ensures Successor(active, ids[j]) == ids[if j + 1 < |ids| then j + 1 else 0]
  {
    TotalOrder();
    assert ids[j] in active;
    var above := Above(active, ids[j]);
    forall x | x in active
      ensures if j + 1 < |ids| then x in above ==> Leq(ids[j + 1], x) else x !in above && Leq(ids[0], x)
    {
      var k :| 0 <= k < |ids| && ids[k] == x;
    }
    if j + 1 < |ids| {
      assert ids[j + 1] in above;
      LeastIsUnique(ids[j + 1], Min(above), above);
    } else {
      assert above == {};
      LeastIsUnique(ids[0], Min(active), active);
    }
  }

  /** Each id is followed by the next one of the list, the last by the first. */
  ghost predicate Cycles(ids: seq<string>, active: set<string>)
    requires active != {}
  {
    forall i | 0 <= i < |ids| :: Successor(active, ids[i]) == ids[if i + 1 < |ids| then i + 1 else 0]
  }

  /** Picks starting at index j walk the ascending ids from j and wrap. */
  lemma {:induction false} PicksWalk(active: set<string>, ids: seq<string>, cursor: string, j: nat, k: nat)
    requires active != {} && j < |ids| && k <= |ids|
    requires Cycles(ids, active) && Successor(active, cursor) == ids[j]
    ensures Picks(active, cursor, k) == Rotation(ids, j)[..k]
    decreases k
  {
    if k > 0 {
      var next := if j + 1 < |ids| then j + 1 else 0;
      PicksWalk(active, ids, ids[j], next, k - 1);
      RotationStep(ids, j, k);
    }
  }

  lemma {:induction false} AscendingCycles(active: set<string>)
    requires active != {}
    ensures Cycles(Ascending(active), active)
  {
    var ids := Ascending(active);
    AscendingEnumerates(active);
    forall i | 0 <= i < |ids|
      ensures Successor(active, ids[i]) == ids[if i + 1 < |ids| then i + 1 else 0]
    {
      SuccessorOfIndex(active, ids, i);
    }
  }

  lemma {:induction false} FirstPickIndex(active: set<string>, cursor: string) returns (j: nat)
    requires active != {}
    ensures j < |Ascending(active)| && Ascending(active)[j] == Successor(active, cursor)
  {
    AscendingEnumerates(active);
    assert Successor(active, cursor) in Ascending(active);
    j :| 0 <= j < |Ascending(active)| && Ascending(active)[j] == Successor(active, cursor);
  }

  /** Every |active| consecutive picks, from any cursor at all, are a permutation of the set. */
  lemma {:induction false} EveryRoundIsAPermutation(active: set<string>, cursor: string)
    requires active != {}
    ensures multiset(Picks(active, cursor, |active|)) == multiset(active)
  {
    var ids := Ascending(active);
    var j := FirstPickIndex(active, cursor);
    AscendingCycles(active);
    AscendingHoldsAll(active);
    PicksWalk(active, ids, cursor, j, |ids|);
    assert Rotation(ids, j)[..|ids|] == Rotation(ids, j);
  }

  ghost function LastPick(active: set<string>, cursor: string, k: nat): string
    requires active != {}
    decreases k
  {
    if k == 0 then cursor else LastPick(active, Successor(active, cursor), k - 1)
  }

  lemma {:induction false} PicksAppend(active: set<string>, cursor: string, k: nat, m: nat)
    requires active != {}
    ensures Picks(active, cursor, k + m) ==
            Picks(active, cursor, k) + Picks(active, LastPick(active, cursor, k), m)
    decreases k
  {
    if k > 0 {
      var next := Successor(active, cursor);
      var rest := LastPick(active, next, k - 1);
      PicksAppend(active, next, k - 1, m);
      assert [next] + (Picks(active, next, k - 1) + Picks(active, rest, m)) ==
             [next] + Picks(active, next, k - 1) + Picks(active, rest, m);
    } else {
      assert [] + Picks(active, cursor, m) == Picks(active, cursor, m);
    }
  }

  /** How often an id is among the first m picks. */
  ghost function Times(active: set<string>, cursor: string, m: nat, x: string): nat
    requires active != {}
  {
    multiset(Picks(active, cursor, m))[x]
  }

  lemma TimesSplit(active: set<string>, cursor: string, k: nat, m: nat, total: nat, x: string)
    returns (rest: string)
    requires active != {} && total == k + m
    ensures rest == LastPick(active, cursor, k)
    ensures Times(active, cursor, total, x) == Times(active, cursor, k, x) + Times(active, rest, m, x)
  {
    PicksAppend(active, cursor, k, m);
    rest := LastPick(active, cursor, k);
  }

  lemma {:induction false} OnceARound(active: set<string>, cursor: string, x: string)
    requires x in active && active != {}
    ensures Times(active, cursor, |active|, x) == 1
  {
    EveryRoundIsAPermutation(active, cursor);
    assert multiset(active)[x] == 1;
  }

  /** After any number of picks, two active ids have been picked equally often, give or take one. */
  lemma {:induction false} CountsDifferByAtMostOne(active: set<string>, cursor: string, m: nat, x: string, y: string)
    requires x in active && y in active && active != {}
    ensures Times(active, cursor, m, x) <= Times(active, cursor, m, y) + 1
    decreases m
  {
    var n := |active|;
    OnceARound(active, cursor, x);
    OnceARound(active, cursor, y);
    if m >= n {
      var rest := TimesSplit(active, cursor, n, m - n, m, x);
      var same := TimesSplit(active, cursor, n, m - n, m, y);
      CountsDifferByAtMostOne(active, rest, m - n, x, y);
    } else {
      var _ := TimesSplit(active, cursor, m, n - m, n, x);
    }
  }

  // ----- How far apart two picks are -----

  /** Quotient and remainder are unique, so one round less leaves the same remainder. */
  lemma LessOneRound(k: nat, n: nat)
    requires 0 < n <= k
    ensures k % n == (k - n) % n
  {
    var p, q := k / n, (k - n) / n;
    Distributes(n, q, 1);
    Distributes(n, q + 1, p - q - 1);
    AtLeast(n, p - q - 1);
    AtLeast(n, q + 1 - p);
    Negated(n, p - q - 1);
  }

  lemma Distributes(n: int, q: int, d: int)
    ensures n * (q + d) == n * q + n * d
  {
  }

  lemma Negated(n: int, d: int)
    ensures n * -d == -(n * d)
  {
  }

  lemma {:induction false} AtLeast(n: nat, d: int)
    ensures d > 0 ==> n * d >= n
    decreases d
  {
    if d > 1 {
      AtLeast(n, d - 1);
      Distributes(n, d - 1, 1);
    }
  }

  lemma SmallRemainder(k: nat, n: nat)
    requires k < n
    ensures k % n == 0 <==> k == 0
  {
  }

  /** The place reached by going k places on in a ring of n. */
  ghost function Around(j: nat, k: nat, n: nat): (place: nat)
    requires j < n
    ensures place < n
    decreases k
  {
    if k == 0 then j else Around(if j + 1 < n then j + 1 else 0, k - 1, n)
  }

  lemma {:induction false} AroundLessThanARound(j: nat, k: nat, n: nat)
    requires j < n && k <= n
    ensures Around(j, k, n) == if j + k < n then j + k else j + k - n
    decreases k
  {
    if k > 0 {
      AroundLessThanARound(if j + 1 < n then j + 1 else 0, k - 1, n);
    }
  }

  lemma {:induction false} AroundSplit(j: nat, k: nat, m: nat, n: nat)
    requires j < n
    ensures Around(j, k + m, n) == Around(Around(j, k, n), m, n)
    decreases k
  {
    if k > 0 {
      AroundSplit(if j + 1 < n then j + 1 else 0, k - 1, m, n);
    }
  }

  /** Going on leads back exactly after whole rounds. */
  lemma {:induction false} BackInRing(j: nat, k: nat, n: nat)
    requires j < n
    ensures Around(j, k, n) == j <==> k % n == 0
    decreases k
  {
    if k < n {
      AroundLessThanARound(j, k, n);
      SmallRemainder(k, n);
    } else {
      AroundLessThanARound(j, n, n);
      AroundSplit(j, n, k - n, n);
      LessOneRound(k, n);
      BackInRing(j, k - n, n);
    }
  }

  lemma {:induction false} PickAfter(active: set<string>, ids: seq<string>, j: nat, k: nat)
    requires active != {} && Cycles(ids, active) && j < |ids|
    ensures LastPick(active, ids[j], k) == ids[Around(j, k, |ids|)]
    decreases k
  {
    if k > 0 {
      PickAfter(active, ids, if j + 1 < |ids| then j + 1 else 0, k - 1);
    }
  }

  lemma IndexOf(active: set<string>, id: string) returns (ids: seq<string>, j: nat)
    requires id in active && active != {}
    ensures Enumerates(ids, active) && Cycles(ids, active) && |ids| == |active| > 0
    ensures j < |ids| && ids[j] == id
  {
    ids := Ascending(active);
    AscendingEnumerates(active);
    AscendingHoldsAll(active);
    AscendingCycles(active);
    assert id in ids;
    j :| 0 <= j < |ids| && ids[j] == id;
  }

  lemma DistinctIndices(ids: seq<string>, active: set<string>, i: nat, j: nat)
    requires Enumerates(ids, active) && i < |ids| && j < |ids|
    ensures ids[i] == ids[j] <==> i == j
  {
    TotalOrder();
  }

  /** From an active id, k picks lead back to it exactly after whole rounds. */
  lemma BackAfterWholeRounds(active: set<string>, id: string, k: nat)
    requires id in active && active != {}
    ensures |active| > 0
    ensures LastPick(active, id, k) == id <==> k % |active| == 0
  {
    var ids, j := IndexOf(active, id);
    PickAfter(active, ids, j, k);
    DistinctIndices(ids, active, Around(j, k, |ids|), j);
    BackInRing(j, k, |ids|);
  }

  lemma SuccessorIsInjective(active: set<string>, c: string, d: string)
    requires c in active && d in active && active != {}
    ensures Successor(active, c) == Successor(active, d) <==> c == d
  {
    var ids, i := IndexOf(active, c);
    assert d in ids;
    var j :| 0 <= j < |ids| && ids[j] == d;
    DistinctIndices(ids, active, i, j);
    var next, after := if i + 1 < |ids| then i + 1 else 0, if j + 1 < |ids| then j + 1 else 0;
    DistinctIndices(ids, active, next, after);
  }

  lemma {:induction false} LastPickIsActive(active: set<string>, id: string, k: nat)
    requires id in active && active != {}
    ensures LastPick(active, id, k) in active
    decreases k
  {
    if k > 0 {
      LastPickIsActive(active, Successor(active, id), k - 1);
    }
  }

  lemma {:induction false} LastPickNext(active: set<string>, cursor: string, k: nat)
    requires active != {}
    ensures LastPick(active, cursor, k + 1) == Successor(active, LastPick(active, cursor, k))
    decreases k
  {
    if k > 0 {
      LastPickNext(active, Successor(active, cursor), k - 1);
    }
  }

  /** The active id that leads to the same pick as a cursor that may not be active. */
  lemma PredecessorOf(active: set<string>, cursor: string) returns (id: string)
    requires active != {}
    ensures id in active && Successor(active, id) == Successor(active, cursor)
  {
    var ids, j := IndexOf(active, Successor(active, cursor));
    id := ids[if j == 0 then |ids| - 1 else j - 1];
  }

  /** After k picks from any cursor at all, the next one is that of the cursor itself exactly after whole rounds. */
  lemma ContinuesAfterWholeRounds(active: set<string>, cursor: string, k: nat)
    requires active != {}
    ensures |active| > 0
    ensures Successor(active, LastPick(active, cursor, k)) == Successor(active, cursor) <==> k % |active| == 0
  {
    var id := PredecessorOf(active, cursor);
    BackAfterWholeRounds(active, id, k);
    LastPickIsActive(active, id, k);
    SuccessorIsInjective(active, LastPick(active, id, k), id);
    assert k > 0 ==> LastPick(active, cursor, k) == LastPick(active, id, k);
  }

  // ----- Changing active set: no starvation -----

  /** Picks when the active set differs from call to call. */
  ghost function ChurnPicks(actives: seq<set<string>>, cursor: string): (r: seq<string>)
    requires forall i | 0 <= i < |actives| :: actives[i] != {}
    ensures |r| == |actives|
  {
    if actives == [] then
      []
    else
      var next := Successor(actives[0], cursor);
      [next] + ChurnPicks(actives[1..], next)
  }

  /** With the same active set every time these are the consecutive picks from it. */
  lemma {:induction false} SteadyChurn(actives: seq<set<string>>, active: set<string>, cursor: string)
    requires active != {}
    requires forall i | 0 <= i < |actives| :: actives[i] == active
    ensures ChurnPicks(actives, cursor) == Picks(active, cursor, |actives|)
    decreases |actives|
  {
    if actives != [] {
      SteadyChurn(actives[1..], active, Successor(active, cursor));
    }
  }

  /** Picks told call by call: each starts from the cursor the one before it stored. */
  lemma {:induction false} ChurnPickAt(actives: seq<set<string>>, cursors: seq<string>, i: nat)
    requires |cursors| == |actives| && i < |actives|
    requires forall k | 0 <= k < |actives| :: actives[k] != {}
    requires forall k | 0 <= k < |actives| - 1 :: cursors[k + 1] == Successor(actives[k], cursors[k])
    ensures ChurnPicks(actives, cursors[0])[i] == Successor(actives[i], cursors[i])
    decreases i
  {
    if i > 0 {
      ChurnPickAt(actives[1..], cursors[1..], i - 1);
    }
  }

  /** Ids of the universe met on the way from the cursor (excluded) round to b (included). */
  ghost function Between(universe: set<string>, cursor: string, b: string): set<string> {
    set x | x in universe &&
            if Less(cursor, b) then Less(cursor, x) && Leq(x, b) else Less(cursor, x) || Leq(x, b)
  }

  /** A pick other than b leaves strictly fewer ids between the cursor and b. */
  lemma MissShrinksDistance(universe: set<string>, active: set<string>, cursor: string, b: string)
    requires b in active && active <= universe
    requires Successor(active, cursor) != b
    ensures var next := Successor(active, cursor);
            Between(universe, next, b) < Between(universe, cursor, b)
  {
    TotalOrder();
    var next := Successor(active, cursor);
    SuccessorMeaning(active, cursor, next);
    assert next in Between(universe, cursor, b);
    assert next !in Between(universe, next, b);
  }

  lemma SmallerSet(a: set<string>, b: set<string>)
    requires a < b
    ensures |a| < |b|
  {
    assert |b - a| > 0 by {
      var x :| x in b && x !in a;
      assert x in b - a;
    }
    assert b == a + (b - a);
  }

  lemma {:induction false} PickedWithinDistance(
    universe: set<string>, actives: seq<set<string>>, cursor: string, b: string)
    requires forall i | 0 <= i < |actives| :: b in actives[i] && actives[i] <= universe
    requires |Between(universe, cursor, b)| <= |actives|
    requires b in universe
    ensures b in ChurnPicks(actives, cursor)
    decreases |actives|
  {
    TotalOrder();
    assert b in Between(universe, cursor, b);
    assert |actives| > 0;
    var next := Successor(actives[0], cursor);
    if next != b {
      MissShrinksDistance(universe, actives[0], cursor, b);
      SmallerSet(Between(universe, next, b), Between(universe, cursor, b));
      PickedWithinDistance(universe, actives[1..], next, b);
    }
  }

  /**
   No starvation under churn: whatever the cursor and however the active sets change, an
   id that is active throughout as many calls as the universe has ids is picked in one of them.
   */
  lemma NoStarvation(universe: set<string>, actives: seq<set<string>>, cursor: string, b: string)
    requires b in universe
    requires |actives| >= |universe|
    requires forall i | 0 <= i < |actives| :: b in actives[i] && actives[i] <= universe
    ensures b in ChurnPicks(actives, cursor)
  {
    var between := Between(universe, cursor, b);
    assert between <= universe;
    if between != universe {
      SmallerSet(between, universe);
    }
    PickedWithinDistance(universe, actives, cursor, b);
  }
}
