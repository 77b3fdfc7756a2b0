/**
 The account-profile pallet: usernames and the bounded store of used challenges, over every run of its calls.
 A call that fails changes nothing.
 */
module AccountProfile {
  import opened ByteStrings
  import opened HexText

  const CAPACITY: nat := 1000
  const PROFILE_DOMAIN := Ascii("HIPPIUS::PROFILE::v1") + [0, 0, 0, 0]

  datatype Profile = Profile(nodeId: bytes, encryptionKey: bytes)

  datatype Event =
    | NameSet(account: AccountId, username: bytes)
    | Accepted(challenge: bytes, hash: Hash)
    | Evicted(hash: Hash)

  datatype Pallet = Pallet(
    usernames: map<bytes, AccountId>, accountUsernames: map<AccountId, bytes>,
    used: map<Hash, nat>, profiles: map<AccountId, Profile>,
    log: seq<Event>)

  const EMPTY := Pallet(map[], map[], map[], map[], [])

  datatype Error =
    | ProxyLookupFailed | NodeNotRegistered | InvalidNodeType | UsernameAlreadyTaken | UsernameAlreadySet
    | InvalidChallenge | ChallengeExpired | InvalidHexString | ChallengeReused | InvalidSignature

  datatype NodeType = Validator | OtherType

  /** What the other pallets and the chain answer during a call. */
  datatype Env = Env(
    who: AccountId, proxyOk: bool, node: Option<NodeType>, block: nat, genesis: bytes,
    first: set<Hash> -> Hash)   // the key an iteration over the store yields first

  /** An iteration over a store that is not empty yields one of its keys. */
  ghost predicate Iterates(first: set<Hash> -> Hash) {
    forall keys :: keys != {} ==> first(keys) in keys
  }

  datatype Outcome = Err(error: Error) | Ok(state: Pallet)

  // -------- usernames --------

  function SetUsername(s: Pallet, env: Env, account: AccountId, username: bytes): (r: Outcome) {
    if !env.proxyOk then Err(ProxyLookupFailed)
    else if env.node.None? then Err(NodeNotRegistered)
    else if env.node.value != Validator then Err(InvalidNodeType)
    else
      var name := ToLowercase(username);
      if name in s.usernames then Err(UsernameAlreadyTaken)
      else if account in s.accountUsernames then Err(UsernameAlreadySet)
      else Ok(s.(usernames := s.usernames[name := account], accountUsernames := s.accountUsernames[account := name],
                 log := s.log + [NameSet(account, username)]))
  }

  // -------- challenges --------

  datatype Challenge = Challenge(domain: bytes, account: AccountId, expiresAt: nat, genesis: bytes, nodeIdHash: Hash)

  /** Reads the fixed-width fields off the front; what follows them is not looked at. */
  function DecodeChallenge(b: bytes): (c: Option<Challenge>) {
    if |b| < 128 then None
    else Some(Challenge(b[..24], b[24..56], FromLittleEndian(b[56..64]), b[64..96], b[96..128]))
  }

  datatype Request = Request(
    nodeId: bytes, encryptionKey: bytes, challenge: bytes, signature: bytes, publicKey: bytes, nodeIdHex: bytes)

  /** Hashing and signature checking. */
  datatype Crypto = Crypto(hash: bytes -> Hash, verifies: (bytes, bytes, bytes) -> bool)

  /** The checks made before the store is touched. */
  function ChallengeError(env: Env, x: Crypto, q: Request): (e: Option<Error>)
    ensures e.None? ==> DecodeChallenge(q.challenge).Some? && HexToBytes(q.nodeIdHex).Some?
  {
    if !env.proxyOk then Some(ProxyLookupFailed)
    else if env.node.None? then Some(NodeNotRegistered)
    else
      match DecodeChallenge(q.challenge)
      case None => Some(InvalidChallenge)
      case Some(ch) =>
        if ch.domain != PROFILE_DOMAIN then Some(InvalidChallenge)
        else if ch.account != env.who then Some(InvalidChallenge)
        else if ch.expiresAt < env.block then Some(ChallengeExpired)
        else if ch.genesis != env.genesis then Some(InvalidChallenge)
        else if HexToBytes(q.nodeIdHex).None? then Some(InvalidHexString)
        else if ch.nodeIdHash != x.hash(HexToBytes(q.nodeIdHex).value) then Some(InvalidChallenge)
        else None
  }

  /** The checks of the signature, made after the store has been looked at. */
  predicate SignatureOk(x: Crypto, q: Request) {
    && HexToBytes(q.nodeIdHex) == Some(q.publicKey)
    && |q.signature| == 64 && |q.publicKey| == 32
    && x.verifies(q.challenge, q.signature, q.publicKey)
  }

  /** Drops the key an iteration yields first until there is room for one more. */
  function Evict(used: map<Hash, nat>, first: set<Hash> -> Hash): (r: map<Hash, nat>)
    requires Iterates(first)
    decreases |used|
  {
    if |used| < CAPACITY then used
    else
      assert used.Keys != {};
      Evict(used - {first(used.Keys)}, first)
  }

  function Evictions(used: map<Hash, nat>, first: set<Hash> -> Hash): (r: seq<Event>)
    requires Iterates(first)
    ensures forall i :: 0 <= i < |r| ==> r[i].Evicted?
    decreases |used|
  {
    if |used| < CAPACITY then []
    else
      assert used.Keys != {};
      [Evicted(first(used.Keys))] + Evictions(used - {first(used.Keys)}, first)
  }

  function SetAccountProfile(s: Pallet, env: Env, x: Crypto, q: Request): (r: Outcome)
    requires Iterates(env.first)
  {
    match ChallengeError(env, x, q)
    case Some(e) => Err(e)
    case None =>
      var h := x.hash(q.challenge);
      var used := Evict(s.used, env.first);
      if h in used then Err(ChallengeReused)
      else if !SignatureOk(x, q) then Err(InvalidSignature)
      else Ok(s.(used := used[h := DecodeChallenge(q.challenge).value.expiresAt],
                 profiles := s.profiles[env.who := Profile(q.nodeId, q.encryptionKey)],
                 log := s.log + Evictions(s.used, env.first) + [Accepted(q.challenge, h)]))
  }

  // -------- runs --------

  datatype Call = Username(env: Env, account: AccountId, username: bytes) | SetProfile(env: Env, q: Request)

  ghost predicate CallOk(c: Call) { c.SetProfile? ==> Iterates(c.env.first) }

  ghost function Apply(s: Pallet, x: Crypto, c: Call): (s': Pallet)
    requires CallOk(c)
  {
    var o := match c
      case Username(env, account, username) => SetUsername(s, env, account, username)
      case SetProfile(env, q) => SetAccountProfile(s, env, x, q);
    if o.Ok? then o.state else s
  }

  ghost function Run(x: Crypto, calls: seq<Call>): (s: Pallet)
    requires forall i :: 0 <= i < |calls| ==> CallOk(calls[i])
    decreases |calls|
  {
    if calls == [] then EMPTY else Apply(Run(x, calls[..|calls| - 1]), x, calls[|calls| - 1])
  }

  /** A state some run leads to. */
  ghost predicate Reached(x: Crypto, s: Pallet) {
    exists calls: seq<Call> :: (forall i :: 0 <= i < |calls| ==> CallOk(calls[i])) && s == Run(x, calls)
  }

  lemma ReachedStep(x: Crypto, s: Pallet, c: Call)
    requires Reached(x, s) && CallOk(c)
    ensures Reached(x, Apply(s, x, c))
  {
    var calls: seq<Call> :| (forall i :: 0 <= i < |calls| ==> CallOk(calls[i])) && s == Run(x, calls);
    var more := calls + [c];
    assert more[..|more| - 1] == calls;
    assert Apply(s, x, c) == Run(x, more);
  }

  // -------- the log of the challenge store --------

  /** The last thing that happened to `h` is that a challenge with that hash was accepted. */
  predicate Live(log: seq<Event>, h: Hash)
    decreases |log|
  {
    log != [] &&
    var last := log[|log| - 1];
    if last == Evicted(h) then false
    else (last.Accepted? && last.hash == h) || Live(log[..|log| - 1], h)
  }

  lemma LiveAppend(log: seq<Event>, e: Event, h: Hash)
    ensures Live(log + [e], h) <==> e != Evicted(h) && ((e.Accepted? && e.hash == h) || Live(log, h))
  {
    assert (log + [e])[..|log|] == log;
  }

  function Accepts(log: seq<Event>): (n: nat)
    decreases |log|
  {
    if log == [] then 0 else Accepts(log[..|log| - 1]) + if log[|log| - 1].Accepted? then 1 else 0
  }

  function Drops(log: seq<Event>): (n: nat)
    decreases |log|
  {
    if log == [] then 0 else Drops(log[..|log| - 1]) + if log[|log| - 1].Evicted? then 1 else 0
  }

  lemma CountAppend(log: seq<Event>, e: Event)
    ensures Accepts(log + [e]) == Accepts(log) + (if e.Accepted? then 1 else 0)
    ensures Drops(log + [e]) == Drops(log) + (if e.Evicted? then 1 else 0)
  {
    assert (log + [e])[..|log|] == log;
  }

  /** Nothing is accepted while its hash is live. */
  predicate AcceptedFresh(log: seq<Event>) {
    forall i :: 0 <= i < |log| && log[i].Accepted? ==> !Live(log[..i], log[i].hash)
  }

  lemma AcceptedFreshAppend(log: seq<Event>, e: Event)
    requires AcceptedFresh(log)
    requires e.Accepted? ==> !Live(log, e.hash)
    ensures AcceptedFresh(log + [e])
  {
    forall i | 0 <= i < |log + [e]| && (log + [e])[i].Accepted? ensures !Live((log + [e])[..i], (log + [e])[i].hash) {
      if i < |log| {
        assert (log + [e])[..i] == log[..i];
      } else {
        assert (log + [e])[..i] == log;
      }
    }
  }

  /** The store holds exactly the live hashes, and the log accounts for its size. */
  ghost predicate StoreIs(used: map<Hash, nat>, log: seq<Event>) {
    && (forall h :: h in used <==> Live(log, h))
    && Accepts(log) == |used| + Drops(log)
    && AcceptedFresh(log)
  }

  ghost predicate StoreOk(s: Pallet) {
    && StoreIs(s.used, s.log)
    && |s.used| <= CAPACITY
    && (Drops(s.log) > 0 ==> Accepts(s.log) > CAPACITY)
  }

  lemma DropSize(used: map<Hash, nat>, h: Hash)
    requires h in used
    ensures |used - {h}| == |used| - 1
  {
    assert (used - {h}).Keys == used.Keys - {h};
  }

  lemma StoreDrops(used: map<Hash, nat>, log: seq<Event>, h: Hash)
    requires StoreIs(used, log) && h in used
    ensures StoreIs(used - {h}, log + [Evicted(h)])
  {
    DropSize(used, h);
    CountAppend(log, Evicted(h));
    AcceptedFreshAppend(log, Evicted(h));
    forall k ensures k in used - {h} <==> Live(log + [Evicted(h)], k) {
      LiveAppend(log, Evicted(h), k);
    }
  }

  lemma StoreAccepts(used: map<Hash, nat>, log: seq<Event>, challenge: bytes, h: Hash, expiresAt: nat)
    requires StoreIs(used, log) && h !in used
    ensures StoreIs(used[h := expiresAt], log + [Accepted(challenge, h)])
    ensures |used[h := expiresAt]| == |used| + 1
  {
    var e := Accepted(challenge, h);
    assert used[h := expiresAt].Keys == used.Keys + {h};
    CountAppend(log, e);
    AcceptedFreshAppend(log, e);
    forall k ensures k in used[h := expiresAt] <==> Live(log + [e], k) {
      LiveAppend(log, e, k);
    }
  }

  /** Eviction makes room, and takes no more than it has to. */
  lemma {:induction false} EvictSize(used: map<Hash, nat>, first: set<Hash> -> Hash)
    requires Iterates(first)
    ensures |Evict(used, first)| == if |used| < CAPACITY then |used| else CAPACITY - 1
    decreases |used|
  {
    if |used| >= CAPACITY {
      assert used.Keys != {};
      DropSize(used, first(used.Keys));
      EvictSize(used - {first(used.Keys)}, first);
    }
  }

  lemma EvictOne(used: map<Hash, nat>, log: seq<Event>, first: set<Hash> -> Hash)
    requires Iterates(first) && |used| >= CAPACITY
    ensures var h := first(used.Keys);
            && h in used && |used - {h}| == |used| - 1
            && Evict(used, first) == Evict(used - {h}, first)
            && log + Evictions(used, first) == log + [Evicted(h)] + Evictions(used - {h}, first)
  {
    assert used.Keys != {};
    DropSize(used, first(used.Keys));
  }

  lemma {:induction false} EvictLogged(used: map<Hash, nat>, log: seq<Event>, first: set<Hash> -> Hash)
    requires Iterates(first) && StoreIs(used, log)
    ensures StoreIs(Evict(used, first), log + Evictions(used, first))
    decreases |used|
  {
    if |used| < CAPACITY {
      assert log + [] == log;
    } else {
      var h := first(used.Keys);
      EvictOne(used, log, first);
      StoreDrops(used, log, h);
      EvictLogged(used - {h}, log + [Evicted(h)], first);
    }
  }

  lemma ProfileKeepsStore(s: Pallet, env: Env, x: Crypto, q: Request)
    requires StoreOk(s) && Iterates(env.first)
    requires SetAccountProfile(s, env, x, q).Ok?
    ensures StoreOk(SetAccountProfile(s, env, x, q).state)
  {
    var s' := SetAccountProfile(s, env, x, q).state;
    var h := x.hash(q.challenge);
    var used, log := Evict(s.used, env.first), s.log + Evictions(s.used, env.first);
    EvictSize(s.used, env.first);
    EvictLogged(s.used, s.log, env.first);
    StoreAccepts(used, log, q.challenge, h, DecodeChallenge(q.challenge).value.expiresAt);
    CountAppend(log, Accepted(q.challenge, h));
    if |s.used| < CAPACITY {
      assert log == s.log;
    }
  }

  lemma UsernameKeepsStore(s: Pallet, env: Env, account: AccountId, username: bytes)
    requires StoreOk(s)
    requires SetUsername(s, env, account, username).Ok?
    ensures StoreOk(SetUsername(s, env, account, username).state)
  {
    var e := NameSet(account, username);
    CountAppend(s.log, e);
    AcceptedFreshAppend(s.log, e);
    forall h ensures h in s.used <==> Live(s.log + [e], h) {
      LiveAppend(s.log, e, h);
    }
  }

  lemma {:induction false} RunKeepsStore(x: Crypto, calls: seq<Call>)
    requires forall i :: 0 <= i < |calls| ==> CallOk(calls[i])
    ensures StoreOk(Run(x, calls))
    decreases |calls|
  {
    if calls != [] {
      var s, c := Run(x, calls[..|calls| - 1]), calls[|calls| - 1];
      RunKeepsStore(x, calls[..|calls| - 1]);
      if c.Username? {
        if SetUsername(s, c.env, c.account, c.username).Ok? {
          UsernameKeepsStore(s, c.env, c.account, c.username);
        }
      } else if SetAccountProfile(s, c.env, x, c.q).Ok? {
        ProfileKeepsStore(s, c.env, x, c.q);
      }
    }
  }

  // -------- what the store guarantees --------

  /** After an acceptance, a hash that is not live any more was evicted in between. */
  lemma {:induction false} NotLiveWasEvicted(log: seq<Event>, i: nat, h: Hash) returns (k: nat)
    requires i < |log| && log[i].Accepted? && log[i].hash == h
    requires !Live(log, h)
    ensures i < k < |log| && log[k] == Evicted(h)
    decreases |log|
  {
    if log[|log| - 1] == Evicted(h) {
      k := |log| - 1;
    } else {
      var front := log[..|log| - 1];
      assert !Live(front, h);
      k := NotLiveWasEvicted(front, i, h);
    }
  }

  predicate HashesRight(x: Crypto, log: seq<Event>) {
    forall i :: 0 <= i < |log| && log[i].Accepted? ==> log[i].hash == x.hash(log[i].challenge)
  }

  lemma {:induction false} RunHashesRight(x: Crypto, calls: seq<Call>)
    requires forall i :: 0 <= i < |calls| ==> CallOk(calls[i])
    ensures HashesRight(x, Run(x, calls).log)
    decreases |calls|
  {
    if calls != [] {
      var s, c := Run(x, calls[..|calls| - 1]), calls[|calls| - 1];
      RunHashesRight(x, calls[..|calls| - 1]);
      if c.SetProfile? && SetAccountProfile(s, c.env, x, c.q).Ok? {
        ProfileHashesRight(s, c.env, x, c.q);
      }
    }
  }

  lemma ProfileHashesRight(s: Pallet, env: Env, x: Crypto, q: Request)
    requires HashesRight(x, s.log) && Iterates(env.first)
    requires SetAccountProfile(s, env, x, q).Ok?
    ensures HashesRight(x, SetAccountProfile(s, env, x, q).state.log)
  {
  }

  /** A challenge is accepted a second time only if its entry was evicted in between. */
  lemma ReacceptedOnlyIfEvicted(x: Crypto, calls: seq<Call>, challenge: bytes, i: nat, j: nat) returns (k: nat)
    requires forall c :: 0 <= c < |calls| ==> CallOk(calls[c])
    requires i < j < |Run(x, calls).log|
    requires Run(x, calls).log[i].Accepted? && Run(x, calls).log[j].Accepted?
    requires Run(x, calls).log[i].challenge == challenge == Run(x, calls).log[j].challenge
    ensures i < k < j && Run(x, calls).log[k] == Evicted(x.hash(challenge))
  {
    RunKeepsStore(x, calls);
    RunHashesRight(x, calls);
    var log := Run(x, calls).log;
    assert !Live(log[..j], log[j].hash);
    k := NotLiveWasEvicted(log[..j], i, log[i].hash);
  }

  lemma {:induction false} DropsCounts(log: seq<Event>, k: nat)
    requires k < |log| && log[k].Evicted?
    ensures Drops(log) > 0
    decreases |log|
  {
    if k < |log| - 1 {
      DropsCounts(log[..|log| - 1], k);
    }
  }

  /**
   The store never holds more than its capacity, and as long as no more than that many challenges have been accepted
   in all, no challenge has been accepted twice.
   */
  lemma FirstThousandDistinct(x: Crypto, calls: seq<Call>, i: nat, j: nat)
    requires forall c :: 0 <= c < |calls| ==> CallOk(calls[c])
    requires Accepts(Run(x, calls).log) <= 1000
    requires i < j < |Run(x, calls).log| && Run(x, calls).log[i].Accepted? && Run(x, calls).log[j].Accepted?
    ensures Run(x, calls).log[i].challenge != Run(x, calls).log[j].challenge
    ensures |Run(x, calls).used| == Accepts(Run(x, calls).log)
  {
    RunKeepsStore(x, calls);
    var log := Run(x, calls).log;
    if log[i].challenge == log[j].challenge {
      var k := ReacceptedOnlyIfEvicted(x, calls, log[i].challenge, i, j);
      DropsCounts(log, k);
    }
  }

  // -------- usernames --------

  /** Name to account and account to name are inverse to each other, on lower-case names. */
  ghost predicate NamesInverse(s: Pallet) {
    && (forall n :: n in s.usernames ==>
          ToLowercase(n) == n && s.usernames[n] in s.accountUsernames && s.accountUsernames[s.usernames[n]] == n)
    && (forall a :: a in s.accountUsernames ==> s.accountUsernames[a] in s.usernames && s.usernames[s.accountUsernames[a]] == a)
  }

  /** Every name ever given is still held by the account it was given to, and none was given twice. */
  ghost predicate NamesStand(s: Pallet) {
    && (forall i :: 0 <= i < |s.log| && s.log[i].NameSet? ==>
          s.log[i].account in s.accountUsernames && s.accountUsernames[s.log[i].account] == ToLowercase(s.log[i].username))
    && (forall i, j :: 0 <= i < j < |s.log| && s.log[i].NameSet? && s.log[j].NameSet? ==>
          s.log[i].account != s.log[j].account && ToLowercase(s.log[i].username) != ToLowercase(s.log[j].username))
  }

  lemma UsernameKeepsNames(s: Pallet, env: Env, account: AccountId, username: bytes)
    requires NamesInverse(s) && NamesStand(s)
    requires SetUsername(s, env, account, username).Ok?
    ensures NamesInverse(SetUsername(s, env, account, username).state)
    ensures NamesStand(SetUsername(s, env, account, username).state)
  {
    var s', name, e := SetUsername(s, env, account, username).state, ToLowercase(username), NameSet(account, username);
    LowercaseIdempotent(username);
    NameAdded(s, s', account, name);
    NameLogged(s, s', e);
  }

  lemma NameAdded(s: Pallet, s': Pallet, account: AccountId, name: bytes)
    requires NamesInverse(s) && name !in s.usernames && account !in s.accountUsernames && ToLowercase(name) == name
    requires s'.usernames == s.usernames[name := account] && s'.accountUsernames == s.accountUsernames[account := name]
    ensures NamesInverse(s')
  {
  }

  lemma NameLogged(s: Pallet, s': Pallet, e: Event)
    requires NamesInverse(s) && NamesStand(s) && e.NameSet?
    requires e.account !in s.accountUsernames && ToLowercase(e.username) !in s.usernames
    requires s'.accountUsernames == s.accountUsernames[e.account := ToLowercase(e.username)] && s'.log == s.log + [e]
    ensures NamesStand(s')
  {
    forall i | 0 <= i < |s.log| && s.log[i].NameSet?
      ensures s.log[i].account != e.account && ToLowercase(s.log[i].username) != ToLowercase(e.username)
    {
      assert s.log[i].account in s.accountUsernames;
    }
  }

  lemma ProfileKeepsNames(s: Pallet, env: Env, x: Crypto, q: Request)
    requires NamesInverse(s) && NamesStand(s) && Iterates(env.first)
    requires SetAccountProfile(s, env, x, q).Ok?
    ensures NamesInverse(SetAccountProfile(s, env, x, q).state)
    ensures NamesStand(SetAccountProfile(s, env, x, q).state)
  {
    var s' := SetAccountProfile(s, env, x, q).state;
    assert forall i :: |s.log| <= i < |s'.log| ==> !s'.log[i].NameSet?;
  }

  /**
   Over every run the two username maps are inverse to each other on lower-case names, every name given is still held,
   and no name is given twice, in whatever mixture of cases.
   */
  lemma {:induction false} NamesUnique(x: Crypto, calls: seq<Call>)
    requires forall i :: 0 <= i < |calls| ==> CallOk(calls[i])
    ensures NamesInverse(Run(x, calls)) && NamesStand(Run(x, calls))
    decreases |calls|
  {
    if calls != [] {
      var s, c := Run(x, calls[..|calls| - 1]), calls[|calls| - 1];
      NamesUnique(x, calls[..|calls| - 1]);
      if c.Username? {
        if SetUsername(s, c.env, c.account, c.username).Ok? {
          UsernameKeepsNames(s, c.env, c.account, c.username);
        }
      } else if SetAccountProfile(s, c.env, x, c.q).Ok? {
        ProfileKeepsNames(s, c.env, x, c.q);
      }
    }
  }

  /** A name, once set, is never changed, given up or passed on. */
  lemma {:induction false} NamesNeverChange(x: Crypto, calls: seq<Call>, n: nat, account: AccountId)
    requires forall i :: 0 <= i < |calls| ==> CallOk(calls[i])
    requires n <= |calls| && account in Run(x, calls[..n]).accountUsernames
    ensures var name := Run(x, calls[..n]).accountUsernames[account];
            && account in Run(x, calls).accountUsernames && Run(x, calls).accountUsernames[account] == name
            && name in Run(x, calls).usernames && Run(x, calls).usernames[name] == account
    decreases |calls| - n
  {
    if n < |calls| {
      var s, c := Run(x, calls[..n]), calls[n];
      assert calls[..n + 1][..n] == calls[..n];
      StepKeepsName(s, x, c, account);
      NamesNeverChange(x, calls, n + 1, account);
    } else {
      assert calls[..n] == calls;
      NamesUnique(x, calls);
    }
  }

  lemma StepKeepsName(s: Pallet, x: Crypto, c: Call, account: AccountId)
    requires CallOk(c) && account in s.accountUsernames
    ensures account in Apply(s, x, c).accountUsernames
    ensures Apply(s, x, c).accountUsernames[account] == s.accountUsernames[account]
  {
  }

  // -------- the challenge format --------

  function EncodeChallenge(c: Challenge): (b: bytes) {
    c.domain + (c.account + (LittleEndian(c.expiresAt, 8) + (c.genesis + c.nodeIdHash)))
  }

  ghost predicate Sized(c: Challenge) {
    |c.domain| == 24 && |c.genesis| == 32 && |c.nodeIdHash| == 32 && c.expiresAt < TWO_64
  }

  lemma EncodedFields(c: Challenge)
    requires Sized(c)
    ensures var e := EncodeChallenge(c);
            && |e| == 128 && e[..24] == c.domain && e[24..56] == c.account && e[56..64] == LittleEndian(c.expiresAt, 8)
            && e[64..96] == c.genesis && e[96..128] == c.nodeIdHash
  {
  }

  lemma Cut(b: bytes)
    requires |b| >= 128
    ensures b[..128] == b[..24] + (b[24..56] + (b[56..64] + (b[64..96] + b[96..128])))
  {
  }

  lemma SameSlice(e: bytes, b: bytes, i: nat, j: nat)
    requires e <= b && i <= j <= |e|
    ensures e[i..j] == b[i..j]
  {
  }

  lemma PrefixReads(b: bytes, c: Challenge)
    requires Sized(c) && EncodeChallenge(c) <= b
    ensures DecodeChallenge(b) == Some(c)
  {
    var e := EncodeChallenge(c);
    EncodedFields(c);
    SameSlice(e, b, 0, 24);
    SameSlice(e, b, 24, 56);
    SameSlice(e, b, 56, 64);
    SameSlice(e, b, 64, 96);
    SameSlice(e, b, 96, 128);
    Pow256Widths();
    LittleEndianReads(b[56..64]);
    LittleEndianInjective(FromLittleEndian(b[56..64]), c.expiresAt, 8);
  }

  lemma ReadIsPrefix(b: bytes, c: Challenge)
    requires DecodeChallenge(b) == Some(c)
    ensures EncodeChallenge(c) <= b
  {
    LittleEndianReads(b[56..64]);
    Cut(b);
    assert EncodeChallenge(c) == b[..128];
  }

  /** A challenge is read off exactly the byte strings that start with its encoding: anything after that is ignored. */
  lemma ChallengeReadsPrefix(b: bytes, c: Challenge)
    requires Sized(c)
    ensures DecodeChallenge(b) == Some(c) <==> EncodeChallenge(c) <= b
  {
    if EncodeChallenge(c) <= b {
      PrefixReads(b, c);
    }
    if DecodeChallenge(b) == Some(c) {
      ReadIsPrefix(b, c);
    }
  }

  /**
   A profile is accepted exactly when the caller's node is registered and the request carries, in front of whatever
   else, a challenge of this domain and chain for this caller and this public key that has not expired, the public key
   in hex, a signature over all of it, and its hash is not in the store once there is room for it.
   */
  lemma ProfileAcceptedExactly(s: Pallet, env: Env, x: Crypto, q: Request)
    requires Iterates(env.first) && |env.genesis| == 32 && |x.hash(q.publicKey)| == 32
    ensures SetAccountProfile(s, env, x, q).Ok? <==>
              && env.proxyOk && env.node.Some?
              && (exists e: nat :: env.block <= e < TWO_64 && EncodeChallenge(ExpectedChallenge(env, x, q, e)) <= q.challenge)
              && ToLowercase(StripPrefix(q.nodeIdHex)) == ToHex(q.publicKey) && |q.publicKey| == 32
              && |q.signature| == 64 && x.verifies(q.challenge, q.signature, q.publicKey)
              && x.hash(q.challenge) !in Evict(s.used, env.first)
  {
    HexAcceptedExactly(q.nodeIdHex, q.publicKey);
    if SetAccountProfile(s, env, x, q).Ok? {
      var ch := DecodeChallenge(q.challenge).value;
      ExpiryFits(q.challenge);
      assert ch == ExpectedChallenge(env, x, q, ch.expiresAt);
      ReadIsPrefix(q.challenge, ch);
    }
    if e: nat :| env.block <= e < TWO_64 && EncodeChallenge(ExpectedChallenge(env, x, q, e)) <= q.challenge {
      PrefixReads(q.challenge, ExpectedChallenge(env, x, q, e));
    }
  }

  function ExpectedChallenge(env: Env, x: Crypto, q: Request, expiresAt: nat): (c: Challenge) {
    Challenge(PROFILE_DOMAIN, env.who, expiresAt, env.genesis, x.hash(q.publicKey))
  }

  lemma ExpiryFits(b: bytes)
    requires DecodeChallenge(b).Some?
    ensures DecodeChallenge(b).value.expiresAt < TWO_64
  {
    Pow256Widths();
    LittleEndianReads(b[56..64]);
  }
}
