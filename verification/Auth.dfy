/**
 Delegated authentication: a validation provider behind the cache.
 */
module Auth {
  import opened Store
  import opened SimpleCache

  datatype Answer = Accepts | Rejects | Unreachable

  datatype Outcome = Authenticated | Refused | Failed

  function OutcomeOf(hit: bool, answer: Answer): Outcome {
    if hit then Authenticated
    else match answer
         case Accepts => Authenticated
         case Rejects => Refused
         case Unreachable => Failed
  }

  /** One request: its outcome and the cache it leaves; the answer matters only if the provider is asked. */
  function Served(
    cache: Cache, ttl: int, user: string, password: string, answer: Answer, getAt: int, updateAt: int)
    : (Outcome, Cache)
  {
    var hit := GetResult(cache, ttl, user, getAt) == Some(password);
    var looked := AfterGet(cache, ttl, user, getAt);
    var outcome := OutcomeOf(hit, answer);
    (outcome, if outcome.Authenticated? then AfterUpdate(looked, user, password, updateAt) else looked)
  }

  class AuthService {
    /** The cache the shared context holds, if a request has already created it. */
    var contextCache: InMemorySimpleCache?
    const expiryInterval: int

    constructor (expiryInterval: int)
      ensures contextCache == null && this.expiryInterval == expiryInterval
    {
      this.expiryInterval := expiryInterval;
      this.contextCache := null;
    }

    ghost predicate Valid()
      reads this
    {
      contextCache != null ==> contextCache.expiryInterval == expiryInterval
    }

    ghost function Cached(): Cache
      reads this, contextCache
    {
      if contextCache == null then map[] else contextCache.cache
    }

    method GetInMemoryAuthCache() returns (authCache: InMemorySimpleCache)
      requires Valid()
      modifies this
      ensures Valid() && authCache == contextCache
      ensures old(contextCache) != null ==> contextCache == old(contextCache)
      ensures old(contextCache) == null ==> fresh(contextCache) && contextCache.cache == map[]
    {
      if contextCache == null {
        contextCache := new InMemorySimpleCache(expiryInterval);
      }
      authCache := contextCache;
    }

    /** One request, with the provider's answer should it be asked, and the times of the cache accesses. */
    method Authenticate(username: string, password: string, answer: Answer, getAt: int, updateAt: int)
      returns (outcome: Outcome)
      requires Valid()
      modifies this, contextCache
      ensures Valid() && contextCache != null
      ensures (outcome, Cached())
              == Served(old(Cached()), expiryInterval, username, password, answer, getAt, updateAt)
      ensures var cached := old(Cached());
              var live := username in cached && (expiryInterval <= 0 || getAt - cached[username].at <= expiryInterval);
              var hit := live && cached[username].value == password;
              && (outcome == Authenticated <==> hit || answer == Accepts)
              && (outcome == Refused <==> !hit && answer == Rejects)
              && (outcome == Failed <==> !hit && answer == Unreachable)
              && Cached() == if outcome == Authenticated then cached[username := Entry(updateAt, password)]
                             else if live then cached else cached - {username}
    {
      var authCache := GetInMemoryAuthCache();
      var entry, found := authCache.Get(username, getAt);
      if found && entry == password {
        authCache.Update(username, password, updateAt);
        return Authenticated;
      }
      match answer {
        case Unreachable =>
          return Failed;
        case Accepts =>
          authCache.Update(username, password, updateAt);
          return Authenticated;
        case Rejects =>
          return Refused;
      }
    }
  }

  // ----- How long one acceptance lasts -----

  /** The times of one request's cache accesses. */
  datatype Visit = Visit(getAt: int, updateAt: int)

  /** Outcomes of one user's requests with the same password while the provider rejects it. */
  function Outcomes(cache: Cache, ttl: int, user: string, password: string, visits: seq<Visit>): (r: seq<Outcome>)
    ensures |r| == |visits|
  {
    if visits == [] then
      []
    else
      var (outcome, after) := Served(cache, ttl, user, password, Rejects, visits[0].getAt, visits[0].updateAt);
      [outcome] + Outcomes(after, ttl, user, password, visits[1..])
  }

  ghost predicate AllLetIn(outcomes: seq<Outcome>) {
    forall outcome | outcome in outcomes :: outcome == Authenticated
  }

  /** Each request comes within the interval of the stamp the one before it left. */
  ghost predicate GapsWithin(stampedAt: int, ttl: int, visits: seq<Visit>)
    decreases |visits|
  {
    visits == [] ||
    (visits[0].getAt - stampedAt <= ttl && GapsWithin(visits[0].updateAt, ttl, visits[1..]))
  }

  /**
   One acceptance lasts exactly as long as the user keeps coming: although the provider rejects
   the password ever after, all later requests are let in if and only if the cache never
   expires or each comes within the interval of the one before it. Nothing bounds their number.
   */
  lemma {:induction false} AcceptedAsLongAsUsed(
    cache: Cache, ttl: int, user: string, password: string, stampedAt: int, visits: seq<Visit>)
    requires user in cache && cache[user] == Entry(stampedAt, password)
    ensures AllLetIn(Outcomes(cache, ttl, user, password, visits)) <==>
            ttl <= 0 || GapsWithin(stampedAt, ttl, visits)
    decreases |visits|
  {
    if visits != [] {
      var (outcome, after) := Served(cache, ttl, user, password, Rejects, visits[0].getAt, visits[0].updateAt);
      var rest := Outcomes(after, ttl, user, password, visits[1..]);
      assert Outcomes(cache, ttl, user, password, visits) == [outcome] + rest;
      assert outcome in [outcome] + rest && forall later | later in rest :: later in [outcome] + rest;
      if outcome == Authenticated {
        AcceptedAsLongAsUsed(after, ttl, user, password, visits[0].updateAt, visits[1..]);
        assert AllLetIn([outcome] + rest) <==> AllLetIn(rest);
      }
    }
  }
}
