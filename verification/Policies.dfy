/**
 Evaluation of routing policies: which groups a client request may be sent to. A set of
 groups is None (the source's nil map) when no policy of its rule type applies, which
 means "any group".
 */
module Policies {
  import opened Store

  type Groups = Option<set<string>>

  datatype Client = Client(
    listeningPort: string,  // decimal text of the port, as the rule value stores it
    hostname: string,
    connectionProperties: string,
    clientTags: string)

  // ----- Intersection with nil as the universe -----

  /** Whether a group is allowed by a possibly nil set. */
  predicate Allows(s: Groups, g: string) {
    s.None? || g in s.value
  }

  function Length(s: Groups): nat {
    if s.None? then 0 else |s.value|
  }

  /** The intersection that takes None as the set of all groups. */
  function Meet(a: Groups, b: Groups): Groups {
    if a.None? then b else if b.None? then a else Some(a.value * b.value)
  }

  method SetIntersection(a: Groups, b: Groups) returns (r: Groups)
    ensures r == Meet(a, b)
  {
    var s1, s2 := a, b;
    var intersection: set<string> := {};
    if Length(s1) > Length(s2) {
      s1, s2 := s2, s1;
    }
    if s1.None? {
      return s2;
    }
    var left := s1.value;
    while left != {}
      invariant left <= s1.value
      invariant forall g :: g in intersection <==> g in s1.value - left && s2.Some? && g in s2.value
    {
      var k :| k in left;
      if s2.Some? && k in s2.value {
        intersection := intersection + {k};
      }
      left := left - {k};
    }
    if s2.Some? {
      assert intersection == s1.value * s2.value == s2.value * s1.value;
    } else {
      assert intersection == s1.value == {};
    }
    r := Some(intersection);
  }

  /** Meet is the one operation that allows what both sets allow and is nil only for two nils. */
  lemma MeetMeaning(a: Groups, b: Groups, r: Groups)
    ensures r == Meet(a, b) <==>
            (r.None? <==> a.None? && b.None?) && forall g :: Allows(r, g) <==> Allows(a, g) && Allows(b, g)
  {
    var m := Meet(a, b);
    if (r.None? <==> a.None? && b.None?) && forall g :: Allows(r, g) <==> Allows(a, g) && Allows(b, g) {
      if r.Some? {
        assert forall g :: g in r.value <==> Allows(r, g);
        assert forall g :: g in m.value <==> Allows(m, g);
        assert r.value == m.value;
      }
    }
  }

  /** Intersection is commutative and associative, nil is its identity and the empty set absorbs. */
  lemma MeetLaws(a: Groups, b: Groups, c: Groups)
    ensures Meet(a, b) == Meet(b, a)
    ensures Meet(Meet(a, b), c) == Meet(a, Meet(b, c))
    ensures Meet(a, None) == a == Meet(None, a)
    ensures Meet(a, Some({})) == Some({}) == Meet(Some({}), a)
  {
    if a.Some? && b.Some? && c.Some? {
      assert a.value * b.value * c.value == a.value * (b.value * c.value);
    }
    if a.Some? && b.Some? {
      assert a.value * b.value == b.value * a.value;
    }
    if a.Some? {
      assert a.value * {} == {} == {} * a.value;
    }
  }

  function MeetAll(sets: seq<Groups>): Groups {
    if sets == [] then None else Meet(MeetAll(sets[..|sets| - 1]), sets[|sets| - 1])
  }

  lemma {:induction false} MeetAllMeaning(sets: seq<Groups>, g: string)
    ensures Allows(MeetAll(sets), g) <==> forall s | s in sets :: Allows(s, g)
    ensures MeetAll(sets).None? <==> forall s | s in sets :: s.None?
  {
    if sets != [] {
      var last := |sets| - 1;
      MeetAllMeaning(sets[..last], g);
      var m := MeetAll(sets[..last]);
      assert sets == sets[..last] + [sets[last]];
      assert sets[last] in sets && forall s | s in sets[..last] :: s in sets;
      assert Allows(Meet(m, sets[last]), g) <==> Allows(m, g) && Allows(sets[last], g);
    }
  }

  /** The fold depends neither on the order of the sets nor on how often one occurs. */
  lemma FoldOrderIsIrrelevant(s1: seq<Groups>, s2: seq<Groups>)
    requires forall s :: s in s1 <==> s in s2
    ensures MeetAll(s1) == MeetAll(s2)
  {
    var m1, m2 := MeetAll(s1), MeetAll(s2);
    forall g ensures Allows(m1, g) <==> Allows(m2, g) {
      MeetAllMeaning(s1, g);
      MeetAllMeaning(s2, g);
    }
    MeetAllMeaning(s1, "");
    MeetAllMeaning(s2, "");
    if m1.Some? && m2.Some? {
      assert forall g :: g in m1.value <==> Allows(m1, g);
      assert forall g :: g in m2.value <==> Allows(m2, g);
      assert m1.value == m2.value;
    }
  }

  // ----- The policies of one rule type -----

  predicate Matches(p: Policy, ruleType: string, ruleValue: string) {
    p.isEnabled && p.ruleType == ruleType && p.ruleValue == ruleValue
  }

  /** Groups targeted by the enabled policies of a rule type that match a value. */
  ghost function Targets(policies: seq<Policy>, ruleType: string, ruleValue: string): set<string> {
    set p | p in policies && Matches(p, ruleType, ruleValue) :: p.groupId
  }

  ghost function GroupsOf(policies: seq<Policy>, rule: (string, string)): Groups {
    var targets := Targets(policies, rule.0, rule.1);
    if targets == {} then None else Some(targets)
  }

  method FindGroups(db: GatewayDb, ruleType: string, ruleValue: string) returns (gids: Groups)
    ensures gids == GroupsOf(db.policies, (ruleType, ruleValue))
  {
    var found: set<string> := {};
    for i := 0 to |db.policies|
      invariant found == Targets(db.policies[..i], ruleType, ruleValue)
    {
      assert db.policies[..i + 1] == db.policies[..i] + [db.policies[i]];
      if Matches(db.policies[i], ruleType, ruleValue) {
        found := found + {db.policies[i].groupId};
      }
    }
    assert db.policies[..|db.policies|] == db.policies;
    gids := if |found| == 0 then None else Some(found);
  }

  // ----- The four rule types together -----

  /** The rule types consulted, each with the value the request has for it. */
  function Rules(c: Client): seq<(string, string)> {
    [("listening_port", c.listeningPort), ("header_host", c.hostname),
     ("header_client_tags", c.clientTags), ("header_connection_properties", c.connectionProperties)]
  }

  ghost predicate Applies(policies: seq<Policy>, rule: (string, string)) {
    Targets(policies, rule.0, rule.1) != {}
  }

  /** Groups targeted by every rule type that applies; none when no rule type does. */
  ghost predicate Allowed(policies: seq<Policy>, c: Client, g: string) {
    && (exists rule | rule in Rules(c) :: Applies(policies, rule))
    && (forall rule | rule in Rules(c) && Applies(policies, rule) :: g in Targets(policies, rule.0, rule.1))
  }

  ghost predicate NoDuplicates(s: seq<string>) {
    forall i, j | 0 <= i < j < |s| :: s[i] != s[j]
  }

  /** The keys of a set in the arbitrary order in which a map is iterated. */
  method Keys(s: set<string>) returns (res: seq<string>)
    ensures NoDuplicates(res)
    ensures forall g :: g in res <==> g in s
  {
    res := [];
    var left := s;
    while left != {}
      invariant left <= s
      invariant NoDuplicates(res)
      invariant forall g :: g in res <==> g in s - left
    {
      var k :| k in left;
      assert k !in res;
      res := res + [k];
      left := left - {k};
    }
  }

  lemma {:induction false} FourWayFold(a: Groups, b: Groups, c: Groups, d: Groups)
    ensures MeetAll([a, b, c, d]) == Meet(Meet(Meet(a, b), c), d)
  {
    assert [a, b, c, d][..3] == [a, b, c] && [a, b, c][..2] == [a, b] && [a, b][..1] == [a] && [a][..0] == [];
    calc {
      MeetAll([a, b, c, d]);
      Meet(MeetAll([a, b, c]), d);
      Meet(Meet(MeetAll([a, b]), c), d);
      Meet(Meet(Meet(MeetAll([a]), b), c), d);
      { assert MeetAll([a]) == Meet(MeetAll([]), a) == a; }
      Meet(Meet(Meet(a, b), c), d);
    }
  }

  /** The fold of the four rule types' sets holds exactly the allowed groups. */
  lemma {:induction false} FoldIsAllowed(policies: seq<Policy>, c: Client, sets: seq<Groups>, g: string)
    requires |sets| == |Rules(c)|
    requires forall i | 0 <= i < |sets| :: sets[i] == GroupsOf(policies, Rules(c)[i])
    ensures (MeetAll(sets).Some? && g in MeetAll(sets).value) <==> Allowed(policies, c, g)
  {
    MeetAllMeaning(sets, g);
    forall i | 0 <= i < |sets| ensures Applies(policies, Rules(c)[i]) <==> sets[i].Some? {
    }
    assert forall rule | rule in Rules(c) :: exists i :: 0 <= i < |sets| && Rules(c)[i] == rule;
    assert forall s | s in sets :: exists i :: 0 <= i < |sets| && sets[i] == s;
    assert forall i | 0 <= i < |sets| :: sets[i] in sets && Rules(c)[i] in Rules(c);
  }

  /** A policy that can count: enabled, and on one of the four properties of the client, with its value. */
  ghost predicate Relevant(p: Policy, c: Client) {
    p.isEnabled &&
    (|| (p.ruleType == "listening_port" && p.ruleValue == c.listeningPort)
     || (p.ruleType == "header_host" && p.ruleValue == c.hostname)
     || (p.ruleType == "header_client_tags" && p.ruleValue == c.clientTags)
     || (p.ruleType == "header_connection_properties" && p.ruleValue == c.connectionProperties))
  }

  lemma {:induction false} RelevantExactly(c: Client, p: Policy)
    ensures Relevant(p, c) <==> exists rule :: rule in Rules(c) && Matches(p, rule.0, rule.1)
  {
    var rules := Rules(c);
    assert rules[0] in rules && rules[1] in rules && rules[2] in rules && rules[3] in rules;
  }

  /**
   On the columns of the policies: a group is allowed exactly if some enabled policy matches the
   client and, for every one that does, one of the same rule type and value targets the group.
   */
  lemma {:induction false} AllowedExactly(policies: seq<Policy>, c: Client, g: string)
    ensures Allowed(policies, c, g) <==>
            && (exists p :: p in policies && Relevant(p, c))
            && forall p | p in policies && Relevant(p, c) ::
                 exists q :: q in policies && q.isEnabled && q.groupId == g
                             && q.ruleType == p.ruleType && q.ruleValue == p.ruleValue
  {
    forall p ensures Relevant(p, c) <==> exists rule :: rule in Rules(c) && Matches(p, rule.0, rule.1) {
      RelevantExactly(c, p);
    }
    forall rule ensures Applies(policies, rule) <==> exists p :: p in policies && Matches(p, rule.0, rule.1) {
      AppliesExactly(policies, rule);
    }
  }

  lemma AppliesExactly(policies: seq<Policy>, rule: (string, string))
    ensures Applies(policies, rule) <==> exists p :: p in policies && Matches(p, rule.0, rule.1)
  {
    if p :| p in policies && Matches(p, rule.0, rule.1) {
      assert p.groupId in Targets(policies, rule.0, rule.1);
    }
  }

  /** Disabled policies, and those of another rule type or value, never change which groups are allowed. */
  lemma {:induction false} OthersDoNotCount(policies: seq<Policy>, others: seq<Policy>, c: Client, g: string)
    requires forall p | p in policies && p !in others :: !Relevant(p, c)
    requires forall p | p in others && p !in policies :: !Relevant(p, c)
    ensures Allowed(policies, c, g) <==> Allowed(others, c, g)
  {
  }

  method EvaluateGroupsForClient(db: GatewayDb, c: Client) returns (res: seq<string>)
    ensures NoDuplicates(res)
    ensures forall g :: g in res <==> Allowed(db.policies, c, g)
  {
    var port := FindGroups(db, "listening_port", c.listeningPort);
    var host := FindGroups(db, "header_host", c.hostname);
    var tags := FindGroups(db, "header_client_tags", c.clientTags);
    var props := FindGroups(db, "header_connection_properties", c.connectionProperties);
    var portHost := SetIntersection(port, host);
    var portHostTags := SetIntersection(portHost, tags);
    var gids := SetIntersection(portHostTags, props);
    FourWayFold(port, host, tags, props);
    forall g ensures (gids.Some? && g in gids.value) <==> Allowed(db.policies, c, g) {
      FoldIsAllowed(db.policies, c, [port, host, tags, props], g);
    }
    res := Keys(if gids.None? then {} else gids.value);
  }
}
