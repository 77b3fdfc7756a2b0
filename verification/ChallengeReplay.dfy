/**
 When a challenge that is still stored can be accepted again, which entry eviction takes, and what the guard would
 promise if eviction always took the oldest one.
 */
module ChallengeReplay {
  import opened ByteStrings
  import opened HexText
  import opened AccountProfile

  // -------- replaying a stored challenge --------

  lemma EvictFull(used: map<Hash, nat>, first: set<Hash> -> Hash)
    requires Iterates(first) && |used| == CAPACITY
    ensures var h := first(used.Keys);
            h in used && Evict(used, first) == used - {h} && Evictions(used, first) == [Evicted(h)]
  {
    EvictOne(used, [], first);
    assert [] + Evictions(used, first) == Evictions(used, first);
  }

  /**
   A challenge whose entry is still stored is accepted again exactly when it would pass every other check, the store is
   full, and its own entry is the one the iteration yields first: the entry is dropped before it is looked for.
   */
  lemma ReplayAcceptedExactly(x: Crypto, calls: seq<Call>, env: Env, q: Request)
    requires forall i :: 0 <= i < |calls| ==> CallOk(calls[i])
    requires Iterates(env.first) && Live(Run(x, calls).log, x.hash(q.challenge))
    ensures var s := Run(x, calls);
            SetAccountProfile(s, env, x, q).Ok? <==>
              && ChallengeError(env, x, q).None? && SignatureOk(x, q)
              && |s.used| == CAPACITY && env.first(s.used.Keys) == x.hash(q.challenge)
  {
    RunKeepsStore(x, calls);
    var s := Run(x, calls);
    if |s.used| == CAPACITY {
      EvictFull(s.used, env.first);
    }
  }

  // -------- the age of an entry --------

  /** Where in the log a live hash was last accepted. */
  function Born(log: seq<Event>, h: Hash): (i: nat)
    requires Live(log, h)
    ensures i < |log| && log[i].Accepted? && log[i].hash == h
    decreases |log|
  {
    var last := log[|log| - 1];
    if last.Accepted? && last.hash == h then |log| - 1 else Born(log[..|log| - 1], h)
  }

  /** No stored entry was accepted before `h`. */
  ghost predicate Oldest(log: seq<Event>, h: Hash) {
    Live(log, h) && forall k :: Live(log, k) ==> Born(log, h) <= Born(log, k)
  }

  /** What an accepted call drops. */
  ghost predicate DroppedBy(s: Pallet, s': Pallet, h: Hash)
    requires s.log <= s'.log
  {
    Evicted(h) in s'.log[|s.log|..]
  }

  /**
   An accepted call drops at most one entry, the one the iteration yields first. So it drops only the oldest exactly
   when the store has room or the iteration happens to yield the oldest first.
   */
  lemma EvictsOldestExactly(x: Crypto, calls: seq<Call>, env: Env, q: Request)
    requires forall i :: 0 <= i < |calls| ==> CallOk(calls[i])
    requires Iterates(env.first) && SetAccountProfile(Run(x, calls), env, x, q).Ok?
    ensures var s, s' := Run(x, calls), SetAccountProfile(Run(x, calls), env, x, q).state;
            && s.log <= s'.log
            && (forall h :: DroppedBy(s, s', h) <==> |s.used| == CAPACITY && h == env.first(s.used.Keys))
            && ((forall h :: DroppedBy(s, s', h) ==> Oldest(s.log, h)) <==> |s.used| < CAPACITY || Oldest(s.log, env.first(s.used.Keys)))
  {
    RunKeepsStore(x, calls);
    var s, s' := Run(x, calls), SetAccountProfile(Run(x, calls), env, x, q).state;
    var dropped := Evictions(s.used, env.first);
    if |s.used| == CAPACITY {
      EvictFull(s.used, env.first);
    }
    assert s'.log == s.log + (dropped + [Accepted(q.challenge, x.hash(q.challenge))]);
    assert s'.log[|s.log|..] == dropped + [Accepted(q.challenge, x.hash(q.challenge))];
    forall h ensures DroppedBy(s, s', h) <==> |s.used| == CAPACITY && h == env.first(s.used.Keys) {
      assert DroppedBy(s, s', h) <==> Evicted(h) in dropped;
    }
  }

  // -------- if eviction always took the oldest --------

  /** Acceptances at positions after `b`. */
  function AcceptsAfter(log: seq<Event>, b: nat): (n: nat)
    decreases |log|
  {
    if |log| <= b + 1 then 0 else AcceptsAfter(log[..|log| - 1], b) + if log[|log| - 1].Accepted? then 1 else 0
  }

  /** Hashes that are live and were accepted after `b` are no more than the acceptances after `b`. */
  lemma {:induction false} LiveSinceBound(log: seq<Event>, b: nat, hs: set<Hash>)
    requires forall h :: h in hs ==> Live(log, h) && Born(log, h) > b
    ensures |hs| <= AcceptsAfter(log, b)
    decreases |log|
  {
    if |log| <= b + 1 {
      assert hs == {};
    } else {
      var front, last := log[..|log| - 1], log[|log| - 1];
      if last.Accepted? {
        LiveSinceBound(front, b, hs - {last.hash});
        assert |hs| <= |hs - {last.hash}| + 1 by {
          assert hs <= hs - {last.hash} + {last.hash};
          SetGrows(hs, hs - {last.hash}, last.hash);
        }
      } else {
        LiveSinceBound(front, b, hs);
      }
    }
  }

  lemma SetGrows(a: set<Hash>, b: set<Hash>, h: Hash)
    requires b == a - {h}
    ensures |a| <= |b| + 1
  {
    if h in a {
      assert a == b + {h};
    } else {
      assert a == b;
    }
  }

  /** Nothing is evicted but from a full store. */
  ghost predicate EvictedWhenFull(log: seq<Event>) {
    forall k :: 0 <= k < |log| && log[k].Evicted? ==> exists used: map<Hash, nat> :: |used| == CAPACITY && StoreIs(used, log[..k])
  }

  lemma {:induction false} RunEvictsWhenFull(x: Crypto, calls: seq<Call>)
    requires forall i :: 0 <= i < |calls| ==> CallOk(calls[i])
    ensures EvictedWhenFull(Run(x, calls).log)
    decreases |calls|
  {
    if calls != [] {
      var s, c := Run(x, calls[..|calls| - 1]), calls[|calls| - 1];
      RunEvictsWhenFull(x, calls[..|calls| - 1]);
      RunKeepsStore(x, calls[..|calls| - 1]);
      StepEvictsWhenFull(s, x, c);
    }
  }

  lemma StepEvictsWhenFull(s: Pallet, x: Crypto, c: Call)
    requires CallOk(c) && StoreOk(s) && EvictedWhenFull(s.log)
    ensures EvictedWhenFull(Apply(s, x, c).log)
  {
    var s' := Apply(s, x, c);
    var n := |s.log|;
    if c.SetProfile? && |s.used| == CAPACITY {
      EvictFull(s.used, c.env.first);
    }
    assert s.log <= s'.log;
    forall k | 0 <= k < |s'.log| && s'.log[k].Evicted? ensures exists used: map<Hash, nat> :: |used| == CAPACITY && StoreIs(used, s'.log[..k]) {
      if k < n {
        assert s'.log[..k] == s.log[..k];
      } else {
        assert k == n && s'.log[..k] == s.log && |s.used| == CAPACITY;
      }
    }
  }

  /** Every eviction in the log took the entry that was then the oldest. */
  ghost predicate OldestFirst(log: seq<Event>) {
    forall k :: 0 <= k < |log| && log[k].Evicted? ==> Oldest(log[..k], log[k].hash)
  }

  lemma FullOldestWaited(used: map<Hash, nat>, log: seq<Event>, h: Hash)
    requires StoreIs(used, log) && |used| == CAPACITY && Oldest(log, h)
    ensures AcceptsAfter(log, Born(log, h)) >= CAPACITY - 1
  {
    var others := used.Keys - {h};
    forall k | k in others ensures Live(log, k) && Born(log, k) > Born(log, h) {
      YoungerThanOldest(log, h, k);
    }
    LiveSinceBound(log, Born(log, h), others);
    SetGrows(used.Keys, others, h);
  }

  lemma YoungerThanOldest(log: seq<Event>, h: Hash, k: Hash)
    requires Oldest(log, h) && Live(log, k) && k != h
    ensures Born(log, k) > Born(log, h)
  {
    assert log[Born(log, k)].hash == k && log[Born(log, h)].hash == h;
  }

  /** The first eviction of a hash after it was accepted finds it last accepted there. */
  lemma {:induction false} BornStays(log: seq<Event>, i: nat, h: Hash)
    requires AcceptedFresh(log) && i < |log| && log[i].Accepted? && log[i].hash == h
    requires forall k :: i < k < |log| ==> log[k] != Evicted(h)
    ensures Live(log, h) && Born(log, h) == i
    decreases |log|
  {
    if i < |log| - 1 {
      var front := log[..|log| - 1];
      FreshPrefix(log, |log| - 1);
      BornStays(front, i, h);
      assert log[|log| - 1].Accepted? ==> !Live(log[..|log| - 1], log[|log| - 1].hash);
    }
  }

  lemma {:induction false} FirstEviction(log: seq<Event>, i: nat, j: nat, h: Hash) returns (k: nat)
    requires i < j < |log| && log[j] == Evicted(h)
    ensures i < k <= j && log[k] == Evicted(h)
    ensures forall m :: i < m < k ==> log[m] != Evicted(h)
    decreases j - i
  {
    if log[i + 1] == Evicted(h) {
      k := i + 1;
    } else {
      k := FirstEviction(log, i + 1, j, h);
    }
  }

  lemma AcceptsAfterMonotone(log: seq<Event>, b: nat, j: nat, k: nat)
    requires k <= j <= |log|
    ensures AcceptsAfter(log[..k], b) <= AcceptsAfter(log[..j], b)
    decreases j
  {
    if k < j {
      assert log[..j][..j - 1] == log[..j - 1];
      AcceptsAfterMonotone(log, b, j - 1, k);
    }
  }

  lemma EvictionWaited(log: seq<Event>, i: nat, e: nat, j: nat, h: Hash)
    requires AcceptedFresh(log) && OldestFirst(log) && EvictedWhenFull(log)
    requires i < e < j < |log| && log[i].Accepted? && log[i].hash == h && log[e] == Evicted(h)
    ensures AcceptsAfter(log[..j], i) >= CAPACITY - 1
  {
    var k := FirstEviction(log, i, e, h);
    FreshPrefix(log, k);
    BornStays(log[..k], i, h);
    assert Oldest(log[..k], log[k].hash);
    var used: map<Hash, nat> :| |used| == CAPACITY && StoreIs(used, log[..k]);
    FullOldestWaited(used, log[..k], h);
    AcceptsAfterMonotone(log, i, j, k);
  }

  lemma FreshPrefix(log: seq<Event>, k: nat)
    requires AcceptedFresh(log) && k <= |log|
    ensures AcceptedFresh(log[..k])
  {
    assert forall m :: 0 <= m < k ==> log[..k][..m] == log[..m];
  }

  /**
   If every eviction took the oldest entry, two acceptances of one challenge would have at least 999 acceptances
   between them.
   */
  lemma OldestFirstSpaces(x: Crypto, calls: seq<Call>, challenge: bytes, i: nat, j: nat)
    requires forall c :: 0 <= c < |calls| ==> CallOk(calls[c])
    requires OldestFirst(Run(x, calls).log)
    requires i < j < |Run(x, calls).log|
    requires Run(x, calls).log[i].Accepted? && Run(x, calls).log[j].Accepted?
    requires Run(x, calls).log[i].challenge == challenge == Run(x, calls).log[j].challenge
    ensures AcceptsAfter(Run(x, calls).log[..j], i) >= 999
  {
    var some := ReacceptedOnlyIfEvicted(x, calls, challenge, i, j);
    RunHashesRight(x, calls);
    RunKeepsStore(x, calls);
    RunEvictsWhenFull(x, calls);
    EvictionWaited(Run(x, calls).log, i, some, j, x.hash(challenge));
  }

  // -------- but eviction takes whatever the iteration yields --------

  /** A thousand requests that pass every check, with pairwise different hashes. */
  ghost predicate Acceptable(x: Crypto, env: Env, qs: seq<Request>) {
    && |qs| == CAPACITY && Iterates(env.first)
    && (forall i :: 0 <= i < |qs| ==> Passes(x, env, qs[i]))
    && (forall i, j :: 0 <= i < j < |qs| ==> x.hash(qs[i].challenge) != x.hash(qs[j].challenge))
  }

  predicate Passes(x: Crypto, env: Env, q: Request) { ChallengeError(env, x, q).None? && SignatureOk(x, q) }

  ghost function Submit(env: Env, qs: seq<Request>): (calls: seq<Call>)
    requires Iterates(env.first)
    ensures |calls| == |qs| && forall i :: 0 <= i < |calls| ==> CallOk(calls[i])
  {
    seq(|qs|, i requires 0 <= i < |qs| => SetProfile(env, qs[i]))
  }

  function AcceptedAll(x: Crypto, qs: seq<Request>): (log: seq<Event>)
    ensures |log| == |qs|
    ensures forall i :: 0 <= i < |qs| ==> log[i] == Accepted(qs[i].challenge, x.hash(qs[i].challenge))
  {
    seq(|qs|, i requires 0 <= i < |qs| => Accepted(qs[i].challenge, x.hash(qs[i].challenge)))
  }

  /** With nothing evicted, the live hashes are exactly those in the log. */
  lemma {:induction false} LiveInAll(x: Crypto, qs: seq<Request>, h: Hash)
    ensures Live(AcceptedAll(x, qs), h) <==> exists i :: 0 <= i < |qs| && x.hash(qs[i].challenge) == h
    decreases |qs|
  {
    if qs != [] {
      var n := |qs| - 1;
      LiveInAll(x, qs[..n], h);
      LiveAppend(AcceptedAll(x, qs[..n]), AcceptedAll(x, qs)[n], h);
      assert AcceptedAll(x, qs) == AcceptedAll(x, qs[..n]) + [AcceptedAll(x, qs)[n]];
      if i :| 0 <= i < n && x.hash(qs[..n][i].challenge) == h {
        assert x.hash(qs[i].challenge) == h;
      }
      if i :| 0 <= i < |qs| && x.hash(qs[i].challenge) == h {
        assert i < n ==> x.hash(qs[..n][i].challenge) == h;
      }
    }
  }

  lemma {:induction false} AllAccepted(x: Crypto, env: Env, qs: seq<Request>, n: nat)
    requires Acceptable(x, env, qs) && n <= |qs|
    ensures Run(x, Submit(env, qs[..n])).log == AcceptedAll(x, qs[..n])
    ensures |Run(x, Submit(env, qs[..n])).used| == n
    decreases n
  {
    if n > 0 {
      AllAccepted(x, env, qs, n - 1);
      RunKeepsStore(x, Submit(env, qs[..n - 1]));
      NotYetLive(x, env, qs, n - 1);
      AcceptsNew(Run(x, Submit(env, qs[..n - 1])), x, env, qs[n - 1]);
      SubmitOneMore(x, env, qs, n - 1);
      assert AcceptedAll(x, qs[..n]) == AcceptedAll(x, qs[..n - 1]) + [Accepted(qs[n - 1].challenge, x.hash(qs[n - 1].challenge))];
    }
  }

  lemma SubmitOneMore(x: Crypto, env: Env, qs: seq<Request>, n: nat)
    requires Iterates(env.first) && n < |qs|
    ensures Run(x, Submit(env, qs[..n + 1])) == Apply(Run(x, Submit(env, qs[..n])), x, SetProfile(env, qs[n]))
  {
    var calls := Submit(env, qs[..n + 1]);
    assert calls[..n] == Submit(env, qs[..n]);
    assert calls[n] == SetProfile(env, qs[n]);
  }

  lemma NotYetLive(x: Crypto, env: Env, qs: seq<Request>, n: nat)
    requires Acceptable(x, env, qs) && n < |qs|
    ensures !Live(AcceptedAll(x, qs[..n]), x.hash(qs[n].challenge))
  {
    LiveInAll(x, qs[..n], x.hash(qs[n].challenge));
  }

  /** With room in the store, a request that passes the checks and is not stored is accepted and nothing is dropped. */
  lemma AcceptsNew(s: Pallet, x: Crypto, env: Env, q: Request)
    requires StoreIs(s.used, s.log) && |s.used| < CAPACITY && Iterates(env.first)
    requires Passes(x, env, q) && !Live(s.log, x.hash(q.challenge))
    ensures var o := SetAccountProfile(s, env, x, q);
            o.Ok? && o.state.log == s.log + [Accepted(q.challenge, x.hash(q.challenge))] && |o.state.used| == |s.used| + 1
  {
    assert x.hash(q.challenge) !in s.used;
    assert s.log + [] == s.log;
    StoreAccepts(s.used, s.log, q.challenge, x.hash(q.challenge), DecodeChallenge(q.challenge).value.expiresAt);
  }

  lemma ReplayEffect(s: Pallet, x: Crypto, env: Env, q: Request)
    requires |s.used| == CAPACITY && Iterates(env.first) && Passes(x, env, q) && env.first(s.used.Keys) == x.hash(q.challenge)
    ensures var o, h := SetAccountProfile(s, env, x, q), x.hash(q.challenge);
            o.Ok? && o.state.log == s.log + [Evicted(h)] + [Accepted(q.challenge, h)] && o.state.used.Keys == s.used.Keys
  {
    EvictFull(s.used, env.first);
  }

  /**
   Neither promise holds of the code. After any thousand acceptances the newest challenge is accepted again at once, if
   the iteration yields its entry first: it is dropped although it is the youngest, and the 999 older ones stay.
   */
  lemma ReplayedAtOnce(x: Crypto, env: Env, qs: seq<Request>, env': Env)
    requires Acceptable(x, env, qs) && Iterates(env'.first)
    requires var newest := qs[CAPACITY - 1];
             Passes(x, env', newest) && env'.first(Run(x, Submit(env, qs)).used.Keys) == x.hash(newest.challenge)
    ensures var s, q := Run(x, Submit(env, qs)), qs[CAPACITY - 1];
            var h := x.hash(q.challenge);
            var o := SetAccountProfile(s, env', x, q);
            && s.log == AcceptedAll(x, qs) && s.log[|s.log| - 1] == Accepted(q.challenge, h) && !Oldest(s.log, h)
            && o.Ok? && o.state.log == s.log + [Evicted(h)] + [Accepted(q.challenge, h)] && o.state.used.Keys == s.used.Keys
  {
    var s, q := Run(x, Submit(env, qs)), qs[CAPACITY - 1];
    assert qs[..CAPACITY] == qs;
    AllAccepted(x, env, qs, CAPACITY);
    ReplayEffect(s, x, env', q);
    NewestIsNotOldest(x, env, qs);
  }

  lemma NewestIsNotOldest(x: Crypto, env: Env, qs: seq<Request>)
    requires Acceptable(x, env, qs)
    ensures !Oldest(AcceptedAll(x, qs), x.hash(qs[CAPACITY - 1].challenge))
  {
    var log := AcceptedAll(x, qs);
    var g, h := x.hash(qs[0].challenge), x.hash(qs[CAPACITY - 1].challenge);
    LiveInAll(x, qs, g);
    LiveInAll(x, qs, h);
    assert Live(log, g) && Live(log, h);
    assert log[Born(log, g)].hash == g && log[Born(log, h)].hash == h;
    assert Born(log, g) == 0;
    assert Born(log, h) == CAPACITY - 1;
  }

  // -------- such requests exist --------

  /** An iteration that yields `c` first whenever it is there. */
  ghost function Pick(c: Hash, keys: set<Hash>): (k: Hash)
    ensures keys != {} ==> k in keys
  {
    if c in keys || keys == {} then c else var k :| k in keys; k
  }

  /** At block 0, on a chain with genesis hash `a`, called by `a`. */
  ghost function SampleEnv(a: AccountId, c: Hash): (env: Env)
    ensures Iterates(env.first)
  {
    Env(a, true, Some(OtherType), 0, a, keys => Pick(c, keys))
  }

  /** A hash without collisions and a check that accepts every signature. */
  function SampleCrypto(): (x: Crypto) { Crypto(b => b, (message, signature, key) => true) }

  /** The challenge of `a` that expires at block `n`. */
  function SampleChallenge(a: AccountId, n: nat): (c: Challenge) { Challenge(PROFILE_DOMAIN, a, n, a, a) }

  function SampleRequest(a: AccountId, n: nat): (q: Request) {
    Request([], [], EncodeChallenge(SampleChallenge(a, n)), a + a, a, ToHex(a))
  }

  lemma SamplePasses(a: AccountId, n: nat, c: Hash)
    requires n < CAPACITY
    ensures Passes(SampleCrypto(), SampleEnv(a, c), SampleRequest(a, n))
    ensures DecodeChallenge(SampleRequest(a, n).challenge) == Some(SampleChallenge(a, n))
  {
    PrefixReads(SampleRequest(a, n).challenge, SampleChallenge(a, n));
    HexRoundTrip(a);
  }

  ghost function Samples(a: AccountId): (qs: seq<Request>)
    ensures |qs| == CAPACITY && forall i :: 0 <= i < CAPACITY ==> qs[i] == SampleRequest(a, i)
  {
    seq(CAPACITY, i requires 0 <= i < CAPACITY => SampleRequest(a, i))
  }

  lemma SamplesAcceptable(a: AccountId, c: Hash)
    ensures Acceptable(SampleCrypto(), SampleEnv(a, c), Samples(a))
  {
    var x, qs := SampleCrypto(), Samples(a);
    forall i | 0 <= i < |qs| ensures Passes(x, SampleEnv(a, c), qs[i]) {
      SamplePasses(a, i, c);
    }
    forall i, j | 0 <= i < j < |qs| ensures x.hash(qs[i].challenge) != x.hash(qs[j].challenge) {
      SamplePasses(a, i, c);
      SamplePasses(a, j, c);
    }
  }

  /** A run in which a challenge that has not expired is accepted twice with nothing accepted in between. */
  lemma AcceptedTwice(a: AccountId) returns (x: Crypto, calls: seq<Call>, env: Env, q: Request)
    ensures |calls| == CAPACITY && (forall i :: 0 <= i < |calls| ==> CallOk(calls[i])) && Iterates(env.first)
    ensures DecodeChallenge(q.challenge).Some? && env.block <= DecodeChallenge(q.challenge).value.expiresAt
    ensures var s, o := Run(x, calls), SetAccountProfile(Run(x, calls), env, x, q);
            var h := x.hash(q.challenge);
            && |s.log| == CAPACITY && s.log[|s.log| - 1] == Accepted(q.challenge, h) && !Oldest(s.log, h)
            && o.Ok? && o.state.log == s.log + [Evicted(h)] + [Accepted(q.challenge, h)]
  {
    q := SampleRequest(a, CAPACITY - 1);
    x, env := SampleCrypto(), SampleEnv(a, SampleRequest(a, CAPACITY - 1).challenge);
    var qs := Samples(a);
    SamplesAcceptable(a, q.challenge);
    SamplePasses(a, CAPACITY - 1, q.challenge);
    calls := Submit(env, qs);
    assert qs[..CAPACITY] == qs;
    AllAccepted(x, env, qs, CAPACITY);
    LiveInAll(x, qs, q.challenge);
    assert Live(Run(x, calls).log, q.challenge) by {
      assert x.hash(qs[CAPACITY - 1].challenge) == q.challenge;
    }
    RunKeepsStore(x, calls);
    ReplayedAtOnce(x, env, qs, env);
  }
}
