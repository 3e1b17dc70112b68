/**
 The strategies that go by the order of the backend table, told on the columns of its rows:
 which backend a least-load group gets at a fixed time, and which one a random group gets.
 */
module LeastLoad {
  import opened Store
  import opened Scheduler

  /** Place p of the backend table holds an enabled and healthy member of the group. */
  ghost predicate Serves(db: Db, g: Group, p: int) {
    && 0 <= p < |db.backendOrder| && db.backendOrder[p] in g.members
    && db.backendOrder[p] in db.backends
    && db.backends[db.backendOrder[p]].isEnabled && db.backends[db.backendOrder[p]].isHealthy
  }

  ghost function RowAt(db: Db, p: nat): Backend
    requires p < |db.backendOrder| && db.backendOrder[p] in db.backends
  {
    db.backends[db.backendOrder[p]]
  }

  /** The places of the active rows, in ascending order. */
  ghost function Places(backends: map<string, Backend>, order: seq<string>, ids: seq<string>, from: nat): seq<nat>
    requires from <= |order|
    decreases |order| - from
  {
    if from == |order| then
      []
    else
      var rest := Places(backends, order, ids, from + 1);
      if order[from] in ids && IsActive(backends, order[from]) then [from] + rest else rest
  }

  lemma {:induction false} PlaceListed(
    backends: map<string, Backend>, order: seq<string>, ids: seq<string>, from: nat, p: nat)
    requires from <= |order|
    ensures p in Places(backends, order, ids, from) <==>
            from <= p < |order| && order[p] in ids && IsActive(backends, order[p])
    decreases |order| - from
  {
    if from < |order| {
      PlaceListed(backends, order, ids, from + 1, p);
    }
  }

  ghost predicate Ascending(s: seq<nat>) {
    forall i, j | 0 <= i < j < |s| :: s[i] < s[j]
  }

  lemma {:induction false} PlacesAscend(
    backends: map<string, Backend>, order: seq<string>, ids: seq<string>, from: nat)
    requires from <= |order|
    ensures Ascending(Places(backends, order, ids, from))
    decreases |order| - from
  {
    if from < |order| {
      var places, rest := Places(backends, order, ids, from), Places(backends, order, ids, from + 1);
      PlacesAscend(backends, order, ids, from + 1);
      forall j | 0 <= j < |rest| ensures from < rest[j] {
        assert rest[j] in rest;
        PlaceListed(backends, order, ids, from + 1, rest[j]);
      }
      if order[from] in ids && IsActive(backends, order[from]) {
        assert places == [from] + rest;
      } else {
        assert places == rest;
      }
    }
  }

  lemma {:induction false} RowsInOrder(
    backends: map<string, Backend>, order: seq<string>, ids: seq<string>, from: nat)
    requires from <= |order|
    ensures var places := Places(backends, order, ids, from);
            var rows := ActiveRows(backends, order[from..], ids);
            |rows| == |places| &&
            forall i | 0 <= i < |places| ::
              places[i] < |order| && order[places[i]] in backends && rows[i] == backends[order[places[i]]]
    decreases |order| - from
  {
    if from < |order| {
      RowsInOrder(backends, order, ids, from + 1);
      assert order[from..][1..] == order[from + 1..];
    }
  }

  /** The active rows of a group are the serving places, in the order of the table. */
  lemma {:induction false} ActivePlaces(db: Db, g: Group) returns (places: seq<nat>)
    requires db.Valid()
    ensures |places| == |Active(db, g)|
    ensures forall i | 0 <= i < |places| :: Serves(db, g, places[i]) && Active(db, g)[i] == RowAt(db, places[i])
    ensures forall i, j | 0 <= i < j < |places| :: places[i] < places[j]
    ensures forall p | Serves(db, g, p) :: p in places
  {
    places := Places(db.backends, db.backendOrder, g.members, 0);
    PlacesAscend(db.backends, db.backendOrder, g.members, 0);
    forall p: nat ensures p in places <==> Serves(db, g, p) {
      PlaceListed(db.backends, db.backendOrder, g.members, 0, p);
    }
    RowsInOrder(db.backends, db.backendOrder, g.members, 0);
    assert db.backendOrder[0..] == db.backendOrder;
  }

  /** A group of the random strategy gets its first active backend in the order of the table. */
  lemma {:induction false} RandomTakesFirst(db: Db, g: Group, clock: Clock, validity: int, p: nat)
    requires db.Valid() && g.strategy.Random?
    requires Serves(db, g, p) && forall q | 0 <= q < p :: !Serves(db, g, q)
    ensures Found(db, g, clock, validity) == Some(db.backendOrder[p])
  {
    var places := ActivePlaces(db, g);
    var i :| 0 <= i < |places| && places[i] == p;
    assert Serves(db, g, places[0]);
  }

  ghost predicate Fixed(clock: Clock, g: Group, now: int) {
    forall k :: clock(g.id, k) == now
  }

  /** The place is no worse in effective load than another, and better than one before it. */
  ghost predicate NoWorse(db: Db, p: nat, q: nat, now: int, validity: int)
    requires p < |db.backendOrder| && db.backendOrder[p] in db.backends
    requires q < |db.backendOrder| && db.backendOrder[q] in db.backends
  {
    var least, other := EffectiveLoad(RowAt(db, p), now, validity), EffectiveLoad(RowAt(db, q), now, validity);
    least <= other && (q < p ==> least < other)
  }

  lemma {:induction false} ScannedIsNoWorse(
    db: Db, active: seq<Backend>, places: seq<nat>, now: int, validity: int, k: nat, i: nat)
    requires |places| == |active| && k < |active| && i < |active|
    requires forall j | 0 <= j < |places| ::
               && places[j] < |db.backendOrder| && db.backendOrder[places[j]] in db.backends
               && active[j] == RowAt(db, places[j])
    requires forall j, l | 0 <= j < l < |places| :: places[j] < places[l]
    requires IsFirstLeast(active, now, validity, k, |active|)
    ensures NoWorse(db, places[k], places[i], now, validity)
  {
    assert places[i] < places[k] ==> i < k;
  }

  lemma {:induction false} FirstOfLeastEffective(db: Db, g: Group, clock: Clock, now: int, validity: int)
    returns (p: nat)
    requires db.Valid() && g.strategy.LeastLoad? && Fixed(clock, g, now)
    requires exists q :: Serves(db, g, q)
    ensures Serves(db, g, p) && Found(db, g, clock, validity) == Some(db.backendOrder[p])
    ensures forall q | Serves(db, g, q) :: NoWorse(db, p, q, now, validity)
  {
    var places := ActivePlaces(db, g);
    var active := Active(db, g);
    var some :| Serves(db, g, some);
    assert some in places;
    var k := Scan(active, Readings(clock, g.id), validity, |active|);
    ScanIsFirstLeast(active, Readings(clock, g.id), validity, |active|);
    p := places[k];
    forall q | Serves(db, g, q) ensures NoWorse(db, p, q, now, validity) {
      var i :| 0 <= i < |places| && places[i] == q;
      ScannedIsNoWorse(db, active, places, now, validity, k, i);
    }
  }

  /**
   While all statistics are valid, or validity is switched off, a least-load group gets its
   first active backend of least load.
   */
  lemma {:induction false} AllFresh(db: Db, g: Group, clock: Clock, now: int, validity: int) returns (p: nat)
    requires db.Valid() && g.strategy.LeastLoad? && Fixed(clock, g, now)
    requires exists q :: Serves(db, g, q)
    requires validity == 0 || forall q | Serves(db, g, q) :: now - RowAt(db, q).statsUpdatedAt <= validity
    ensures Serves(db, g, p) && Found(db, g, clock, validity) == Some(db.backendOrder[p])
    ensures forall q | Serves(db, g, q) ::
              && RowAt(db, p).clusterLoad <= RowAt(db, q).clusterLoad
              && (q < p ==> RowAt(db, p).clusterLoad < RowAt(db, q).clusterLoad)
  {
    p := FirstOfLeastEffective(db, g, clock, now, validity);
  }

  /**
   With one out of date and no negative load, it gets the first active backend that is out of
   date or has load 0.
   */
  lemma {:induction false} SomeOutOfDate(db: Db, g: Group, clock: Clock, now: int, validity: int, stale: nat)
    returns (p: nat)
    requires db.Valid() && g.strategy.LeastLoad? && Fixed(clock, g, now)
    requires Serves(db, g, stale) && validity != 0 && now - RowAt(db, stale).statsUpdatedAt > validity
    requires forall q | Serves(db, g, q) :: RowAt(db, q).clusterLoad >= 0
    ensures Serves(db, g, p) && Found(db, g, clock, validity) == Some(db.backendOrder[p])
    ensures now - RowAt(db, p).statsUpdatedAt > validity || RowAt(db, p).clusterLoad == 0
    ensures forall q | Serves(db, g, q) && q < p ::
              now - RowAt(db, q).statsUpdatedAt <= validity && RowAt(db, q).clusterLoad > 0
  {
    p := FirstOfLeastEffective(db, g, clock, now, validity);
    assert NoWorse(db, p, stale, now, validity);
  }

  /** With a negative load that is not out of date, which only overflow gives, it is the first least of those. */
  lemma {:induction false} SomeNegative(db: Db, g: Group, clock: Clock, now: int, validity: int, negative: nat)
    returns (p: nat)
    requires db.Valid() && g.strategy.LeastLoad? && Fixed(clock, g, now)
    requires Serves(db, g, negative) && RowAt(db, negative).clusterLoad < 0
    requires validity == 0 || now - RowAt(db, negative).statsUpdatedAt <= validity
    ensures Serves(db, g, p) && Found(db, g, clock, validity) == Some(db.backendOrder[p])
    ensures validity == 0 || now - RowAt(db, p).statsUpdatedAt <= validity
    ensures forall q | Serves(db, g, q) && (validity == 0 || now - RowAt(db, q).statsUpdatedAt <= validity) ::
              && RowAt(db, p).clusterLoad <= RowAt(db, q).clusterLoad
              && (q < p ==> RowAt(db, p).clusterLoad < RowAt(db, q).clusterLoad)
  {
    p := FirstOfLeastEffective(db, g, clock, now, validity);
    assert NoWorse(db, p, negative, now, validity);
  }
}
