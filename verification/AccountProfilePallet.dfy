/**
 The pallet's calls as they update storage in place, each proved to do what the function of module AccountProfile says
 and to keep storage in a state some run leads to.
 */
module AccountProfilePallet {
  import opened ByteStrings
  import opened HexText
  import opened AccountProfile
  import opened ChallengeReplay

  /** A call that fails leaves storage as it was. */
  ghost predicate Agrees(before: Pallet, o: Outcome, e: Option<Error>, after: Pallet) {
    match o
    case Err(error) => e == Some(error) && after == before
    case Ok(s) => e == None && after == s
  }

  lemma NamesAfter(x: Crypto, s: Pallet, c: Call)
    requires Reached(x, s) && CallOk(c)
    ensures NamesInverse(Apply(s, x, c))
  {
    ReachedStep(x, s, c);
    var calls: seq<Call> :| (forall i :: 0 <= i < |calls| ==> CallOk(calls[i])) && Apply(s, x, c) == Run(x, calls);
    NamesUnique(x, calls);
  }

  lemma StoreAfter(x: Crypto, s: Pallet, env: Env, q: Request)
    requires Reached(x, s) && Iterates(env.first)
    ensures |s.used| <= CAPACITY && |Apply(s, x, SetProfile(env, q)).used| <= CAPACITY
    ensures AccountProfile.SetAccountProfile(s, env, x, q).Ok? && x.hash(q.challenge) in s.used ==>
              |s.used| == CAPACITY && env.first(s.used.Keys) == x.hash(q.challenge)
  {
    var calls: seq<Call> :| (forall i :: 0 <= i < |calls| ==> CallOk(calls[i])) && s == Run(x, calls);
    RunKeepsStore(x, calls);
    if x.hash(q.challenge) in s.used {
      ReplayAcceptedExactly(x, calls, env, q);
    }
    if AccountProfile.SetAccountProfile(s, env, x, q).Ok? {
      ProfileKeepsStore(s, env, x, q);
    }
  }

  class Storage {
    const x: Crypto
    var usernames: map<bytes, AccountId>
    var accountUsernames: map<AccountId, bytes>
    var used: map<Hash, nat>
    var profiles: map<AccountId, Profile>
    ghost var log: seq<Event>

    ghost function Abs(): (s: Pallet)
      reads this
    {
      Pallet(usernames, accountUsernames, used, profiles, log)
    }

    /** Some run from empty storage has led here. */
    ghost predicate Valid()
      reads this
    {
      Reached(x, Abs())
    }

    /** So what every run keeps holds of the storage. */
    lemma Facts()
      requires Valid()
      ensures NamesInverse(Abs()) && NamesStand(Abs()) && StoreOk(Abs())
    {
      var calls: seq<Call> :| (forall i :: 0 <= i < |calls| ==> CallOk(calls[i])) && Abs() == Run(x, calls);
      NamesUnique(x, calls);
      RunKeepsStore(x, calls);
    }

    constructor (x: Crypto)
      ensures Valid() && Abs() == EMPTY && this.x == x
    {
      this.x := x;
      usernames, accountUsernames, used, profiles, log := map[], map[], map[], map[], [];
      new;
      assert Abs() == Run(x, []);
    }

    method SetUsername(env: Env, account: AccountId, username: bytes) returns (e: Option<Error>)
      requires Valid()
      modifies this`usernames, this`accountUsernames, this`log
      ensures Valid() && NamesInverse(Abs())
      ensures Agrees(old(Abs()), AccountProfile.SetUsername(old(Abs()), env, account, username), e, Abs())
    {
      ReachedStep(x, Abs(), Username(env, account, username));
      NamesAfter(x, Abs(), Username(env, account, username));
      if !env.proxyOk { return Some(ProxyLookupFailed); }
      if env.node.None? { return Some(NodeNotRegistered); }
      if env.node.value != Validator { return Some(InvalidNodeType); }
      var name := ToLowercase(username);
      if name in usernames { return Some(UsernameAlreadyTaken); }
      if account in accountUsernames { return Some(UsernameAlreadySet); }
      usernames := usernames[name := account];
      accountUsernames := accountUsernames[account := name];
      log := log + [NameSet(account, username)];
      return None;
    }

    /** Removes the first key an iteration yields for as long as the store is full. */
    method EvictUsed(env: Env)
      requires Iterates(env.first)
      modifies this`used, this`log
      ensures used == Evict(old(used), env.first) && |used| < CAPACITY
      ensures log == old(log) + Evictions(old(used), env.first)
    {
      while |used| >= CAPACITY
        invariant Evict(used, env.first) == Evict(old(used), env.first)
        invariant log + Evictions(used, env.first) == old(log) + Evictions(old(used), env.first)
        decreases |used|
      {
        EvictOne(used, log, env.first);
        var oldest := env.first(used.Keys);
        used := used - {oldest};
        log := log + [Evicted(oldest)];
      }
      assert log + [] == log;
    }

    method SetAccountProfile(env: Env, q: Request) returns (e: Option<Error>)
      requires Valid() && Iterates(env.first)
      modifies this`used, this`profiles, this`log
      ensures Valid() && |used| <= CAPACITY
      ensures Agrees(old(Abs()), AccountProfile.SetAccountProfile(old(Abs()), env, x, q), e, Abs())
      // a challenge still stored is accepted only from a full store whose iteration yields its own entry first
      ensures e.None? && x.hash(q.challenge) in old(used) ==>
                |old(used)| == CAPACITY && env.first(old(used).Keys) == x.hash(q.challenge)
    {
      ghost var s := Abs();
      e := HandleProfile(env, q);
      ReachedStep(x, s, SetProfile(env, q));
      StoreAfter(x, s, env, q);
    }

    method HandleProfile(env: Env, q: Request) returns (e: Option<Error>)
      requires Iterates(env.first)
      modifies this`used, this`profiles, this`log
      ensures Agrees(old(Abs()), AccountProfile.SetAccountProfile(old(Abs()), env, x, q), e, Abs())
      // an accepted call stores the request's node id and encryption key for its caller, and marks the challenge used
      ensures e.None? ==>
                && env.who in profiles && profiles[env.who].nodeId == q.nodeId && profiles[env.who].encryptionKey == q.encryptionKey
                && x.hash(q.challenge) in used
    {
      e := ChallengeError(env, x, q);
      if e.Some? { return; }
      var h := x.hash(q.challenge);
      var usedBefore := used;
      ghost var logBefore := log;
      EvictUsed(env);
      if h in used {
        used, log := usedBefore, logBefore;
        return Some(ChallengeReused);
      }
      if !SignatureOk(x, q) {
        used, log := usedBefore, logBefore;
        return Some(InvalidSignature);
      }
      used := used[h := DecodeChallenge(q.challenge).value.expiresAt];
      profiles := profiles[env.who := Profile(q.nodeId, q.encryptionKey)];
      log := log + [Accepted(q.challenge, h)];
      return None;
    }
  }
}
