/**
 The order on ids that `sort.Strings` uses, the sort itself, and the least id of a set.
 */
module Lex {

  /** Byte-wise lexicographic comparison. */
  predicate PrefixOrSmaller(a: string, b: string)
    decreases |a|
  {
    a == [] || (b != [] && (a[0] < b[0] || (a[0] == b[0] && PrefixOrSmaller(a[1..], b[1..]))))
  }

  /** The order on ids. Proofs below use its laws, never its recursion. */
  predicate Leq(a: string, b: string) {
    PrefixOrSmaller(a, b)
  }

  predicate Less(a: string, b: string) {
    a != b && Leq(a, b)
  }

  lemma {:induction false} LeqTotal(a: string, b: string)
    ensures Leq(a, b) || Leq(b, a)
    decreases |a|
  {
    if a != [] && b != [] && a[0] == b[0] {
      LeqTotal(a[1..], b[1..]);
    }
  }

  lemma {:induction false} LeqAntisymmetric(a: string, b: string)
    requires Leq(a, b) && Leq(b, a)
    ensures a == b
    decreases |a|
  {
    if a != [] {
      LeqAntisymmetric(a[1..], b[1..]);
      assert a == [a[0]] + a[1..] && b == [b[0]] + b[1..];
    }
  }

  lemma {:induction false} LeqTransitive(a: string, b: string, c: string)
    requires Leq(a, b) && Leq(b, c)
    ensures Leq(a, c)
    decreases |a|
  {
    if a != [] && a[0] == b[0] == c[0] {
      LeqTransitive(a[1..], b[1..], c[1..]);
    }
  }

  /** The three order laws at once, for proofs that range over many ids. */
  lemma TotalOrder()
    ensures forall a, b :: Leq(a, b) || Leq(b, a)
    ensures forall a, b :: Leq(a, b) && Leq(b, a) ==> a == b
    ensures forall a, b, c :: Leq(a, b) && Leq(b, c) ==> Leq(a, c)
  {
    forall a, b ensures Leq(a, b) || Leq(b, a) {
      LeqTotal(a, b);
    }
    forall a, b | Leq(a, b) && Leq(b, a) ensures a == b {
      LeqAntisymmetric(a, b);
    }
    forall a, b, c | Leq(a, b) && Leq(b, c) ensures Leq(a, c) {
      LeqTransitive(a, b, c);
    }
  }

  /** Byte by byte: a proper prefix comes before, else the smaller byte where the two first differ. */
  ghost predicate Before(a: string, b: string) {
    || (|a| < |b| && a == b[..|a|])
    || exists k :: 0 <= k < |a| && k < |b| && a[..k] == b[..k] && a[k] < b[k]
  }

  lemma BeforeByHead(a: string, b: string)
    requires a != [] && b != [] && a[0] != b[0]
    ensures Before(a, b) <==> a[0] < b[0]
  {
    assert a[..0] == b[..0];
    assert forall k | 0 < k <= |a| && k <= |b| :: a[..k][0] == a[0] && b[..k][0] == b[0];
  }

  lemma SamePrefix(x: char, a: string, b: string, k: nat)
    requires k <= |a| && k <= |b|
    ensures ([x] + a)[..k + 1] == ([x] + b)[..k + 1] <==> a[..k] == b[..k]
  {
    assert ([x] + a)[..k + 1] == [x] + a[..k] && ([x] + b)[..k + 1] == [x] + b[..k];
    assert a[..k] == ([x] + a[..k])[1..] && b[..k] == ([x] + b[..k])[1..];
  }

  lemma BeforeByTail(x: char, a: string, b: string)
    ensures Before([x] + a, [x] + b) <==> Before(a, b)
  {
    var a1, b1 := [x] + a, [x] + b;
    if |a| <= |b| {
      SamePrefix(x, a, b, |a|);
    }
    if k :| 0 <= k < |a| && k < |b| && a[..k] == b[..k] && a[k] < b[k] {
      SamePrefix(x, a, b, k);
      assert a1[..k + 1] == b1[..k + 1] && a1[k + 1] < b1[k + 1];
    }
    if k :| 0 <= k < |a1| && k < |b1| && a1[..k] == b1[..k] && a1[k] < b1[k] {
      SamePrefix(x, a, b, k - 1);
      assert a[..k - 1] == b[..k - 1] && a[k - 1] < b[k - 1];
    }
  }

  lemma {:induction false} LessIsBefore(a: string, b: string)
    ensures Less(a, b) <==> Before(a, b)
    decreases |a|
  {
    if a != [] && b != [] {
      if a[0] == b[0] {
        assert a == [a[0]] + a[1..] && b == [b[0]] + b[1..];
        LessIsBefore(a[1..], b[1..]);
        BeforeByTail(a[0], a[1..], b[1..]);
      } else {
        BeforeByHead(a, b);
      }
    }
  }

  /** The recursive comparison is exactly that order, spelled out on prefixes and bytes. */
  lemma LessExactly(a: string, b: string)
    ensures Less(a, b) <==>
            (|a| < |b| && a == b[..|a|]) || exists k :: 0 <= k < |a| && k < |b| && a[..k] == b[..k] && a[k] < b[k]
  {
    LessIsBefore(a, b);
  }

  ghost predicate IsLeast(m: string, s: set<string>) {
    m in s && forall x | x in s :: Leq(m, x)
  }

  ghost function Min(s: set<string>): (m: string)
    requires s != {}
    ensures IsLeast(m, s)
  {
    TotalOrder();
    var x :| x in s;
    if s == {x} then
      x
    else
      var m := Min(s - {x});
      assert forall y | y in s :: y == x || y in s - {x};
      if Leq(x, m) then x else m
  }

  lemma LeastIsUnique(a: string, b: string, s: set<string>)
    requires IsLeast(a, s) && IsLeast(b, s)
    ensures a == b
  {
    LeqAntisymmetric(a, b);
  }

  ghost predicate Sorted(s: seq<string>) {
    forall i, j | 0 <= i < j < |s| :: Leq(s[i], s[j])
  }

  function Insert(x: string, s: seq<string>): (r: seq<string>)
    ensures multiset(r) == multiset(s) + multiset{x}
  {
    if s == [] then
      [x]
    else if Leq(x, s[0]) then
      [x] + s
    else
      assert s == [s[0]] + s[1..];
      [s[0]] + Insert(x, s[1..])
  }

  lemma {:induction false} InsertKeepsSorted(x: string, s: seq<string>)
    requires Sorted(s)
    ensures Sorted(Insert(x, s))
  {
    if s != [] {
      LeqTotal(x, s[0]);
      if Leq(x, s[0]) {
        forall i | 0 <= i < |s| ensures Leq(x, s[i]) {
          LeqTotal(s[i], s[i]);
          LeqTransitive(x, s[0], s[i]);
        }
      } else {
        InsertKeepsSorted(x, s[1..]);
        SameElements(Insert(x, s[1..]), s[1..] + [x]);
        PrependKeepsSorted(s[0], Insert(x, s[1..]));
      }
    }
  }

  lemma PrependKeepsSorted(x: string, s: seq<string>)
    requires Sorted(s)
    requires forall y | y in s :: Leq(x, y)
    ensures Sorted([x] + s)
  {
  }

  lemma SameElements(a: seq<string>, b: seq<string>)
    requires multiset(a) == multiset(b)
    ensures forall x :: x in a <==> x in b
  {
    assert forall x :: x in a <==> x in multiset(a);
  }

  /** `sort.Strings`: the same ids in ascending order. */
  function Sort(s: seq<string>): (r: seq<string>)
    ensures multiset(r) == multiset(s)
    ensures Sorted(r)
  {
    if s == [] then
      []
    else
      assert s == [s[0]] + s[1..];
      InsertKeepsSorted(s[0], Sort(s[1..]));
      Insert(s[0], Sort(s[1..]))
  }
}
