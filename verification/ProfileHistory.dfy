/** What profiles, usernames and stored challenges say about the calls that made them, and which calls are accepted. */
module ProfileHistory {
  import opened ByteStrings
  import opened HexText
  import opened AccountProfile
  import opened ChallengeReplay

  /** The calls of a run. */
  ghost predicate CallsOk(calls: seq<Call>) { forall i :: 0 <= i < |calls| ==> CallOk(calls[i]) }

  /** Call `i` of the run is a request of account `a` that was accepted. */
  ghost predicate ProfileAt(x: Crypto, calls: seq<Call>, i: int, a: AccountId)
    requires CallsOk(calls)
  {
    && 0 <= i < |calls| && calls[i].SetProfile? && calls[i].env.who == a
    && SetAccountProfile(Run(x, calls[..i]), calls[i].env, x, calls[i].q).Ok?
  }

  lemma PrefixProfile(x: Crypto, calls: seq<Call>, i: nat, n: nat, a: AccountId)
    requires CallsOk(calls) && i < n <= |calls|
    ensures ProfileAt(x, calls[..n], i, a) <==> ProfileAt(x, calls, i, a)
  {
    assert calls[..n][..i] == calls[..i];
  }

  /** A call changes only the caller's profile, to what the accepted request carries. */
  lemma StepProfiles(s: Pallet, x: Crypto, c: Call)
    requires CallOk(c)
    ensures Apply(s, x, c).profiles ==
            if c.SetProfile? && SetAccountProfile(s, c.env, x, c.q).Ok?
            then s.profiles[c.env.who := Profile(nodeId := c.q.nodeId, encryptionKey := c.q.encryptionKey)] else s.profiles
  {
  }

  /** The latest accepted request of `a`. */
  ghost function Latest(x: Crypto, calls: seq<Call>, a: AccountId): (i: Option<nat>)
    requires CallsOk(calls)
    ensures i.Some? ==> i.value < |calls|
    decreases |calls|
  {
    if calls == [] then None
    else if ProfileAt(x, calls, |calls| - 1, a) then Some(|calls| - 1)
    else Latest(x, calls[..|calls| - 1], a)
  }

  lemma {:induction false} LatestMeans(x: Crypto, calls: seq<Call>, a: AccountId)
    requires CallsOk(calls)
    ensures Latest(x, calls, a).Some? ==> ProfileAt(x, calls, Latest(x, calls, a).value, a)
    ensures forall j :: ProfileAt(x, calls, j, a) ==> Latest(x, calls, a).Some? && j <= Latest(x, calls, a).value
    decreases |calls|
  {
    if calls != [] {
      LatestMeans(x, calls[..|calls| - 1], a);
      SameProfilesAt(x, calls, |calls| - 1, a);
    }
  }

  lemma {:induction false} LatestHolds(x: Crypto, calls: seq<Call>, a: AccountId)
    requires CallsOk(calls)
    ensures var i, ps := Latest(x, calls, a), Run(x, calls).profiles;
            && (i.Some? <==> a in ps)
            && (i.Some? ==> calls[i.value].SetProfile? && ps[a] == Profile(nodeId := calls[i.value].q.nodeId, encryptionKey := calls[i.value].q.encryptionKey))
    decreases |calls|
  {
    if calls != [] {
      LatestHolds(x, calls[..|calls| - 1], a);
      LastProfile(x, calls, a);
    }
  }

  /** After every run an account has a profile exactly when a request of its own was accepted. */
  lemma HasProfileExactly(x: Crypto, calls: seq<Call>, a: AccountId)
    requires CallsOk(calls)
    ensures a in Run(x, calls).profiles <==> exists i :: ProfileAt(x, calls, i, a)
  {
    LatestMeans(x, calls, a);
    LatestHolds(x, calls, a);
  }

  /** And then it holds the node id and the encryption key of the latest such request, whatever else was called. */
  lemma ProfileIsLatest(x: Crypto, calls: seq<Call>, a: AccountId, i: nat)
    requires CallsOk(calls) && ProfileAt(x, calls, i, a)
    requires forall j :: i < j < |calls| ==> !ProfileAt(x, calls, j, a)
    ensures a in Run(x, calls).profiles
    ensures Run(x, calls).profiles[a].nodeId == calls[i].q.nodeId
    ensures Run(x, calls).profiles[a].encryptionKey == calls[i].q.encryptionKey
  {
    LatestIs(x, calls, a, i);
    LatestHolds(x, calls, a);
  }

  lemma {:induction false} LatestIs(x: Crypto, calls: seq<Call>, a: AccountId, i: nat)
    requires CallsOk(calls) && ProfileAt(x, calls, i, a)
    requires forall j :: i < j < |calls| ==> !ProfileAt(x, calls, j, a)
    ensures Latest(x, calls, a) == Some(i)
    decreases |calls|
  {
    var n := |calls| - 1;
    if i < n {
      SameProfilesAt(x, calls, n, a);
      LatestIs(x, calls[..n], a, i);
    }
  }

  lemma SameProfilesAt(x: Crypto, calls: seq<Call>, n: nat, a: AccountId)
    requires CallsOk(calls) && n <= |calls|
    ensures forall j :: 0 <= j < n ==> (ProfileAt(x, calls, j, a) <==> ProfileAt(x, calls[..n], j, a))
  {
    forall j | 0 <= j < n ensures ProfileAt(x, calls, j, a) <==> ProfileAt(x, calls[..n], j, a) {
      PrefixProfile(x, calls, j, n, a);
    }
  }

  lemma LastProfile(x: Crypto, calls: seq<Call>, a: AccountId)
    requires CallsOk(calls) && calls != []
    ensures var n := |calls| - 1;
            var before, after := Run(x, calls[..n]).profiles, Run(x, calls).profiles;
            if ProfileAt(x, calls, n, a)
            then a in after && after[a].nodeId == calls[n].q.nodeId && after[a].encryptionKey == calls[n].q.encryptionKey
            else (a in after <==> a in before) && (a in before ==> after[a] == before[a])
  {
    var n := |calls| - 1;
    StepProfiles(Run(x, calls[..n]), x, calls[n]);
  }

  // -------- stored challenges --------

  /** Every stored hash is kept with the expiry of the challenge it was last stored for. */
  ghost predicate ExpiriesRight(s: Pallet) {
    forall h :: h in s.used && Live(s.log, h) ==>
      var c := DecodeChallenge(s.log[Born(s.log, h)].challenge);
      c.Some? && s.used[h] == c.value.expiresAt
  }

  lemma BornAppend(log: seq<Event>, e: Event, h: Hash)
    requires Live(log + [e], h)
    ensures if e.Accepted? && e.hash == h then Born(log + [e], h) == |log|
            else Live(log, h) && Born(log + [e], h) == Born(log, h)
  {
    LiveAppend(log, e, h);
    assert (log + [e])[..|log|] == log;
  }

  lemma ExpiryKept(s: Pallet, s': Pallet, e: Event)
    requires ExpiriesRight(s) && s'.log == s.log + [e] && !e.Accepted?
    requires forall h :: h in s'.used ==> h in s.used && s'.used[h] == s.used[h]
    ensures ExpiriesRight(s')
  {
    forall h | h in s'.used && Live(s'.log, h)
      ensures var c := DecodeChallenge(s'.log[Born(s'.log, h)].challenge); c.Some? && s'.used[h] == c.value.expiresAt
    {
      BornAppend(s.log, e, h);
    }
  }

  lemma ExpiryStored(s: Pallet, s': Pallet, challenge: bytes, h: Hash)
    requires ExpiriesRight(s) && s'.log == s.log + [Accepted(challenge, h)] && DecodeChallenge(challenge).Some?
    requires s'.used == s.used[h := DecodeChallenge(challenge).value.expiresAt]
    ensures ExpiriesRight(s')
  {
    forall g | g in s'.used && Live(s'.log, g)
      ensures var c := DecodeChallenge(s'.log[Born(s'.log, g)].challenge); c.Some? && s'.used[g] == c.value.expiresAt
    {
      BornAppend(s.log, Accepted(challenge, h), g);
    }
  }

  lemma ProfileExpiries(s: Pallet, env: Env, x: Crypto, q: Request)
    requires ExpiriesRight(s) && StoreOk(s) && Iterates(env.first) && SetAccountProfile(s, env, x, q).Ok?
    ensures ExpiriesRight(SetAccountProfile(s, env, x, q).state)
  {
    var s' := SetAccountProfile(s, env, x, q).state;
    var mid := s.(used := Evict(s.used, env.first), log := s.log + Evictions(s.used, env.first));
    if |s.used| == CAPACITY {
      EvictFull(s.used, env.first);
      ExpiryKept(s, mid, Evicted(env.first(s.used.Keys)));
    } else {
      assert mid.log == s.log && mid.used == s.used;
    }
    ExpiryStored(mid, s', q.challenge, x.hash(q.challenge));
  }

  /** After every run each stored hash has the expiry of the challenge it was last stored for. */
  lemma {:induction false} RunExpiries(x: Crypto, calls: seq<Call>)
    requires CallsOk(calls)
    ensures ExpiriesRight(Run(x, calls))
    decreases |calls|
  {
    if calls != [] {
      var s, c := Run(x, calls[..|calls| - 1]), calls[|calls| - 1];
      RunExpiries(x, calls[..|calls| - 1]);
      RunKeepsStore(x, calls[..|calls| - 1]);
      if c.SetProfile? {
        if SetAccountProfile(s, c.env, x, c.q).Ok? {
          ProfileExpiries(s, c.env, x, c.q);
        }
      } else if SetUsername(s, c.env, c.account, c.username).Ok? {
        ExpiryKept(s, Apply(s, x, c), NameSet(c.account, c.username));
      }
    }
  }

  // -------- usernames --------

  /**
   After every run a name can be given exactly by a registered validator, to an account no accepted call has named, and
   only if no accepted call has given a name that differs from it at most in the case of its letters.
   */
  lemma UsernameAcceptedExactly(x: Crypto, calls: seq<Call>, env: Env, account: AccountId, username: bytes)
    requires CallsOk(calls)
    ensures SetUsername(Run(x, calls), env, account, username).Ok? <==>
              && env.proxyOk && env.node == Some(Validator)
              && (forall i :: 0 <= i < |Run(x, calls).log| && Run(x, calls).log[i].NameSet? ==>
                    && Run(x, calls).log[i].account != account
                    && ToLowercase(Run(x, calls).log[i].username) != ToLowercase(username))
  {
    NamesKnown(x, calls);
    FreeExactly(Run(x, calls), account, ToLowercase(username));
    GivenExactly(Run(x, calls), env, account, username);
  }

  lemma NamesKnown(x: Crypto, calls: seq<Call>)
    requires CallsOk(calls)
    ensures NamesInverse(Run(x, calls)) && NamesStand(Run(x, calls)) && NamesGiven(Run(x, calls))
  {
    NamesUnique(x, calls);
    NamesCameFrom(x, calls);
  }

  /** No accepted call has named the account or given the name, in whatever case. */
  ghost predicate Ungiven(log: seq<Event>, account: AccountId, name: bytes) {
    forall i :: 0 <= i < |log| && log[i].NameSet? ==> log[i].account != account && ToLowercase(log[i].username) != name
  }

  lemma GivenExactly(s: Pallet, env: Env, account: AccountId, username: bytes)
    requires ToLowercase(username) !in s.usernames && account !in s.accountUsernames <==> Ungiven(s.log, account, ToLowercase(username))
    ensures SetUsername(s, env, account, username).Ok? <==>
              env.proxyOk && env.node == Some(Validator) && Ungiven(s.log, account, ToLowercase(username))
  {
  }

  lemma FreeExactly(s: Pallet, account: AccountId, name: bytes)
    requires NamesInverse(s) && NamesStand(s) && NamesGiven(s)
    ensures name !in s.usernames && account !in s.accountUsernames <==> Ungiven(s.log, account, name)
  {
    if name in s.usernames {
      assert s.usernames[name] in s.accountUsernames;
    }
    forall i | 0 <= i < |s.log| && s.log[i].NameSet? ensures s.log[i].account in s.accountUsernames && ToLowercase(s.log[i].username) in s.usernames {
    }
  }

  /** Every name held was given by an accepted call. */
  ghost predicate NamesGiven(s: Pallet) {
    forall a :: a in s.accountUsernames ==>
      exists i :: 0 <= i < |s.log| && s.log[i].NameSet? && s.log[i].account == a && ToLowercase(s.log[i].username) == s.accountUsernames[a]
  }

  lemma {:induction false} NamesCameFrom(x: Crypto, calls: seq<Call>)
    requires CallsOk(calls)
    ensures NamesGiven(Run(x, calls))
    decreases |calls|
  {
    if calls != [] {
      NamesCameFrom(x, calls[..|calls| - 1]);
      StepNamesGiven(Run(x, calls[..|calls| - 1]), x, calls[|calls| - 1]);
    }
  }

  lemma StepNamesGiven(s: Pallet, x: Crypto, c: Call)
    requires CallOk(c) && NamesGiven(s)
    ensures NamesGiven(Apply(s, x, c))
  {
    var s' := Apply(s, x, c);
    assert s.log <= s'.log;
    forall a | a in s'.accountUsernames
      ensures exists i :: 0 <= i < |s'.log| && s'.log[i].NameSet? && s'.log[i].account == a && ToLowercase(s'.log[i].username) == s'.accountUsernames[a]
    {
      if a in s.accountUsernames {
        var i :| 0 <= i < |s.log| && s.log[i].NameSet? && s.log[i].account == a && ToLowercase(s.log[i].username) == s.accountUsernames[a];
        assert s'.log[i] == s.log[i] && s'.accountUsernames[a] == s.accountUsernames[a];
      } else {
        assert c.Username? && s'.log[|s.log|] == NameSet(a, c.username);
      }
    }
  }

  // -------- refusals --------

  /** The challenge is of this domain and chain, for this caller, and, if the node id is readable, for that node. */
  predicate Matches(ch: Challenge, env: Env, x: Crypto, q: Request) {
    && ch.domain == PROFILE_DOMAIN && ch.account == env.who && ch.genesis == env.genesis
    && (HexToBytes(q.nodeIdHex).Some? ==> ch.nodeIdHash == x.hash(HexToBytes(q.nodeIdHex).value))
  }

  /** What an error of a profile request says. */
  ghost predicate ProfileReason(e: Error, s: Pallet, env: Env, x: Crypto, q: Request)
    requires Iterates(env.first)
  {
    match e
    case ProxyLookupFailed => !env.proxyOk
    case NodeNotRegistered => env.node.None?
    case InvalidChallenge => DecodeChallenge(q.challenge).None? || !Matches(DecodeChallenge(q.challenge).value, env, x, q)
    case ChallengeExpired => DecodeChallenge(q.challenge).Some? && DecodeChallenge(q.challenge).value.expiresAt < env.block
    case InvalidHexString => HexToBytes(q.nodeIdHex).None?
    case ChallengeReused => x.hash(q.challenge) in Evict(s.used, env.first)
    case InvalidSignature => !SignatureOk(x, q)
    case _ => false
  }

  /** A profile request is refused exactly when one of these reasons is true, and with one that is. */
  lemma ProfileRefusedExactly(s: Pallet, env: Env, x: Crypto, q: Request)
    requires Iterates(env.first)
    ensures SetAccountProfile(s, env, x, q).Err? <==> exists e :: ProfileReason(e, s, env, x, q)
    ensures SetAccountProfile(s, env, x, q).Err? ==> ProfileReason(SetAccountProfile(s, env, x, q).error, s, env, x, q)
  {
    if SetAccountProfile(s, env, x, q).Ok? {
      forall e ensures !ProfileReason(e, s, env, x, q) {
      }
    } else {
      assert ProfileReason(SetAccountProfile(s, env, x, q).error, s, env, x, q);
    }
  }
}
