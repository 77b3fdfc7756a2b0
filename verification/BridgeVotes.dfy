/**
 Voting and release over every run: who voted, when a release may happen, and what becomes of a record.
 */
module BridgeVotes {
  import opened ByteStrings
  import opened Sorting
  import opened Bridge

  // -------- reading the log --------

  predicate Cleans(e: Event, id: Hash) {
    e.WithdrawalCleaned? && e.id == id
  }

  /** The events since the record `id` was last cleaned up. */
  function Since(log: seq<Event>, id: Hash): (r: seq<Event>)
    decreases |log|
  {
    if log == [] then []
    else
      var last := log[|log| - 1];
      if Cleans(last, id) then [] else Since(log[..|log| - 1], id) + [last]
  }

  lemma SinceAppend(log: seq<Event>, e: Event, id: Hash)
    ensures Since(log + [e], id) == if Cleans(e, id) then [] else Since(log, id) + [e]
  {
    assert (log + [e])[..|log|] == log;
  }

  /** No clean-up of `id` at position `k` or later. */
  predicate Standing(log: seq<Event>, id: Hash, k: nat) {
    forall j :: k <= j < |log| ==> !Cleans(log[j], id)
  }

  /** `Since` in terms of positions: an event of the log with no clean-up of `id` after it. */
  lemma {:induction false} SinceMeans(log: seq<Event>, id: Hash, e: Event)
    ensures e in Since(log, id) <==> exists k :: 0 <= k < |log| && log[k] == e && Standing(log, id, k)
    decreases |log|
  {
    if log != [] {
      var front, last := log[..|log| - 1], log[|log| - 1];
      SinceMeans(front, id, e);
      assert log == front + [last];
      if !Cleans(last, id) {
        forall k: nat | k < |log| ensures Standing(log, id, k) <==> Standing(front, id, k) {
          assert forall j :: k <= j < |front| ==> log[j] == front[j];
        }
        if e == last {
          assert log[|front|] == e && Standing(log, id, |front|);
        } else if e in Since(front, id) {
          var k :| 0 <= k < |front| && front[k] == e && Standing(front, id, k);
          assert log[k] == e && Standing(log, id, k);
        }
      }
    }
  }

  /** A vote by `v`, who was a guardian at that moment, on record `id`. */
  predicate IsVote(e: Event, id: Hash, v: AccountId) {
    e.Voted? && e.id == id && e.guardian == v && v in e.guardians
  }

  ghost predicate VotedSince(log: seq<Event>, id: Hash, v: AccountId) {
    exists e :: e in Since(log, id) && IsVote(e, id, v)
  }

  predicate IsRelease(e: Event, id: Hash) {
    e.Released? && e.id == id
  }

  ghost predicate ReleasedSince(log: seq<Event>, id: Hash) {
    exists e :: e in Since(log, id) && IsRelease(e, id)
  }

  /**
   A release `e` that follows `log` is backed: enough pairwise distinct voters, each a guardian when voting,
   all since the record's last clean-up, and no release since then.
   */
  ghost predicate Backed(log: seq<Event>, e: Event)
    requires e.Released?
  {
    && 1 <= e.threshold <= |e.votes| <= MAX_GUARDIANS
    && NoRepeats(e.votes)
    && (forall v :: v in e.votes ==> VotedSince(log, e.id, v))
    && !ReleasedSince(log, e.id)
  }

  /** A clean-up `e` that follows `log` waited out its time-to-live from the release it discards, if there was one. */
  ghost predicate WaitedOut(log: seq<Event>, e: Event)
    requires e.WithdrawalCleaned?
  {
    forall r :: r in Since(log, e.id) && IsRelease(r, e.id) ==> e.block >= SatAdd32(r.block, e.ttl)
  }

  ghost predicate EventOk(log: seq<Event>, e: Event) {
    && (e.Released? ==> Backed(log, e))
    && (e.WithdrawalCleaned? ==> WaitedOut(log, e))
  }

  ghost predicate LogOk(log: seq<Event>) {
    forall i :: 0 <= i < |log| ==> EventOk(log[..i], log[i])
  }

  lemma LogOkAppend(log: seq<Event>, e: Event)
    requires LogOk(log) && EventOk(log, e)
    ensures LogOk(log + [e])
  {
    forall i | 0 <= i < |log + [e]| ensures EventOk((log + [e])[..i], (log + [e])[i]) {
      if i < |log| {
        assert (log + [e])[..i] == log[..i];
      } else {
        assert (log + [e])[..i] == log;
      }
    }
  }

  // -------- the invariant --------

  predicate GuardiansOk(s: State) {
    |s.guardians| <= MAX_GUARDIANS && s.threshold <= |s.guardians| && (s.guardians != [] ==> s.threshold >= 1)
  }

  ghost predicate RecordOk(id: Hash, w: Withdrawal) {
    && w.requestId == id
    && NoRepeats(w.votes)
    && 1 <= |w.votes| <= MAX_GUARDIANS
    && (w.status == Pending ==> |w.votes| < MAX_GUARDIANS)
    && (w.status == Pending <==> w.finalizedAt.None?)
  }

  ghost predicate VotesLogged(log: seq<Event>, id: Hash, w: Withdrawal) {
    forall v :: v in w.votes ==> VotedSince(log, id, v)
  }

  /** The record of `id` says "completed at block b" exactly when the log since its last clean-up has a release at b. */
  ghost predicate ReleaseRecorded(s: State, id: Hash) {
    && (forall e :: e in Since(s.log, id) && IsRelease(e, id) ==>
          id in s.withdrawals && s.withdrawals[id].status == Completed && s.withdrawals[id].finalizedAt == Some(e.block))
    && (id in s.withdrawals && s.withdrawals[id].status == Completed ==> ReleasedSince(s.log, id))
  }

  ghost predicate VotesOk(s: State) {
    && GuardiansOk(s)
    && (forall id :: id in s.withdrawals ==> RecordOk(id, s.withdrawals[id]) && VotesLogged(s.log, id, s.withdrawals[id]))
    && (forall id :: ReleaseRecorded(s, id))
    && LogOk(s.log)
  }

  // -------- how the log changes each part --------

  lemma VotedStays(log: seq<Event>, e: Event, id: Hash, v: AccountId)
    requires VotedSince(log, id, v)
    requires !Cleans(e, id)
    ensures VotedSince(log + [e], id, v)
  {
    SinceAppend(log, e, id);
    var x :| x in Since(log, id) && IsVote(x, id, v);
    assert x in Since(log + [e], id);
  }

  /** An event that neither releases nor cleans up `id` leaves what is known of it. */
  lemma OtherEvent(s: State, s': State, e: Event, id: Hash)
    requires s'.log == s.log + [e]
    requires !IsRelease(e, id) && !Cleans(e, id)
    requires id in s'.withdrawals <==> id in s.withdrawals
    requires id in s.withdrawals ==> (s'.withdrawals[id].status == Completed <==> s.withdrawals[id].status == Completed)
    requires id in s.withdrawals && s.withdrawals[id].status == Completed ==> s'.withdrawals[id].finalizedAt == s.withdrawals[id].finalizedAt
    requires ReleaseRecorded(s, id)
    ensures ReleaseRecorded(s', id)
  {
    SinceAppend(s.log, e, id);
    if ReleasedSince(s.log, id) {
      var x :| x in Since(s.log, id) && IsRelease(x, id);
      assert x in Since(s'.log, id);
    }
  }

  lemma VotesLoggedStay(log: seq<Event>, e: Event, id: Hash, w: Withdrawal)
    requires VotesLogged(log, id, w)
    requires !Cleans(e, id)
    ensures VotesLogged(log + [e], id, w)
  {
    forall v | v in w.votes ensures VotedSince(log + [e], id, v) {
      VotedStays(log, e, id, v);
    }
  }

  /** A step that leaves the withdrawals alone and logs something unrelated to them. */
  lemma Unrelated(s: State, s': State, e: Event)
    requires VotesOk(s) && GuardiansOk(s')
    requires s'.withdrawals == s.withdrawals && s'.log == s.log + [e]
    requires !e.Released? && !e.WithdrawalCleaned?
    ensures VotesOk(s')
  {
    LogOkAppend(s.log, e);
    forall id ensures ReleaseRecorded(s', id) {
      OtherEvent(s, s', e, id);
    }
    forall id | id in s'.withdrawals ensures VotesLogged(s'.log, id, s'.withdrawals[id]) {
      VotesLoggedStay(s.log, e, id, s.withdrawals[id]);
    }
  }

  /** Replacing one record, with an event that is neither a release nor a clean-up. */
  lemma RecordReplaced(s: State, s': State, e: Event, id: Hash, w: Withdrawal)
    requires VotesOk(s) && GuardiansOk(s')
    requires s'.withdrawals == s.withdrawals[id := w] && s'.log == s.log + [e]
    requires !e.Released? && !e.WithdrawalCleaned?
    requires id in s.withdrawals ==> s.withdrawals[id].status == Pending
    requires w.status != Completed
    requires RecordOk(id, w) && VotesLogged(s'.log, id, w)
    ensures VotesOk(s')
  {
    LogOkAppend(s.log, e);
    forall x ensures ReleaseRecorded(s', x) {
      if x == id {
        SinceAppend(s.log, e, id);
        assert ReleaseRecorded(s, id);
      } else {
        OtherEvent(s, s', e, x);
      }
    }
    forall x | x in s'.withdrawals ensures RecordOk(x, s'.withdrawals[x]) && VotesLogged(s'.log, x, s'.withdrawals[x]) {
      if x != id {
        VotesLoggedStay(s.log, e, x, s.withdrawals[x]);
      }
    }
  }

  /** A release of the record `id`, pending or not yet stored, that has the votes in `w`. */
  lemma RecordReleased(s: State, s': State, e: Event, id: Hash, w: Withdrawal)
    requires VotesOk(s) && GuardiansOk(s')
    requires s'.withdrawals == s.withdrawals[id := w] && s'.log == s.log + [e]
    requires e.Released? && e.id == id && e.votes == w.votes && 1 <= e.threshold <= |w.votes|
    requires id in s.withdrawals ==> s.withdrawals[id].status == Pending
    requires w.status == Completed && w.finalizedAt == Some(e.block)
    requires RecordOk(id, w) && VotesLogged(s.log, id, w)
    ensures VotesOk(s')
  {
    assert ReleaseRecorded(s, id);
    LogOkAppend(s.log, e);
    forall x ensures ReleaseRecorded(s', x) {
      if x == id {
        SinceAppend(s.log, e, id);
        assert e in Since(s'.log, id) && IsRelease(e, id);
      } else {
        OtherEvent(s, s', e, x);
      }
    }
    forall x | x in s'.withdrawals ensures RecordOk(x, s'.withdrawals[x]) && VotesLogged(s'.log, x, s'.withdrawals[x]) {
      VotesLoggedStay(s.log, e, x, if x == id then w else s.withdrawals[x]);
    }
  }

  lemma RecordCleaned(s: State, s': State, e: Event, id: Hash)
    requires VotesOk(s) && GuardiansOk(s')
    requires id in s.withdrawals && s.withdrawals[id].finalizedAt.Some?
    requires s'.withdrawals == s.withdrawals - {id} && s'.log == s.log + [e]
    requires e.WithdrawalCleaned? && e.id == id && e.block >= SatAdd32(s.withdrawals[id].finalizedAt.value, e.ttl)
    ensures VotesOk(s')
  {
    assert ReleaseRecorded(s, id);
    LogOkAppend(s.log, e);
    forall x ensures ReleaseRecorded(s', x) {
      if x == id {
        SinceAppend(s.log, e, id);
      } else {
        OtherEvent(s, s', e, x);
      }
    }
    forall x | x in s'.withdrawals ensures VotesLogged(s'.log, x, s'.withdrawals[x]) {
      VotesLoggedStay(s.log, e, x, s.withdrawals[x]);
    }
  }

  // -------- every message keeps the invariant --------

  lemma NoRepeatsPush<T>(xs: seq<T>, x: T)
    requires NoRepeats(xs) && x !in xs
    ensures NoRepeats(xs + [x])
  {
  }

  /** After a vote: no voter twice, at most ten, every voter in the log. */
  lemma VotedRecordOk(s: State, env: Env, id: Hash, recipient: AccountId, amount: u64)
    requires VotesOk(s)
    requires env.caller in s.guardians
    requires id in s.withdrawals ==> s.withdrawals[id].status == Pending && env.caller !in s.withdrawals[id].votes
    ensures var w := VotedRecord(s, env, id, recipient, amount);
            && w.requestId == id && NoRepeats(w.votes) && 1 <= |w.votes| <= MAX_GUARDIANS && w.status == Pending && w.finalizedAt.None?
            && VotesLogged(s.log + [Voted(id, env.caller, s.guardians, recipient, amount)], id, w)
  {
    var e := Voted(id, env.caller, s.guardians, recipient, amount);
    var w := VotedRecord(s, env, id, recipient, amount);
    SinceAppend(s.log, e, id);
    assert e in Since(s.log + [e], id) && IsVote(e, id, env.caller);
    if id in s.withdrawals {
      NoRepeatsPush(s.withdrawals[id].votes, env.caller);
      VotesLoggedStay(s.log, e, id, s.withdrawals[id]);
    }
  }

  lemma AttestKeeps(s: State, env: Env, hash: bytes -> Hash, id: Hash, recipient: AccountId, amount: u64, nonce: u64)
    requires VotesOk(s)
    requires DoAttest(s, env, hash, id, recipient, amount, nonce).Ok?
    ensures VotesOk(DoAttest(s, env, hash, id, recipient, amount, nonce).state)
  {
    var s' := DoAttest(s, env, hash, id, recipient, amount, nonce).state;
    var e := Voted(id, env.caller, s.guardians, recipient, amount);
    var w := VotedRecord(s, env, id, recipient, amount);
    VotedRecordOk(s, env, id, recipient, amount);
    if |w.votes| >= s.threshold {
      var mid := s.(hashed := s.hashed + {WithdrawalPreimage(recipient, amount, nonce)}, log := s.log + [e]);
      Unrelated(s, mid, e);
      RecordReleased(mid, s', Released(id, w.recipient, w.amount, s.threshold, w.votes, env.block), id,
                     w.(status := Completed, finalizedAt := Some(env.block)));
    } else {
      RecordReplaced(s, s', e, id, w);
    }
  }

  lemma DepositKeeps(s: State, env: Env, hash: bytes -> Hash, amount: u64, hotkey: AccountId)
    requires VotesOk(s)
    requires DoDeposit(s, env, hash, amount, hotkey).Ok?
    ensures VotesOk(DoDeposit(s, env, hash, amount, hotkey).state)
  {
    var s' := DoDeposit(s, env, hash, amount, hotkey).state;
    Unrelated(s, s', s'.log[|s.log|]);
  }

  lemma AdminKeeps(s: State, env: Env, m: Message)
    requires VotesOk(s) && OwnerOnly(m)
    requires DoAdmin(s, env, m).Ok?
    ensures VotesOk(DoAdmin(s, env, m).state)
  {
    var s' := DoAdmin(s, env, m).state;
    var e := s'.log[|s.log|];
    assert s'.log == s.log + [e];
    if m.AdminCancelWithdrawal? {
      var w := s.withdrawals[m.id].(status := Cancelled, finalizedAt := Some(env.block));
      VotesLoggedStay(s.log, e, m.id, w);
      RecordReplaced(s, s', e, m.id, w);
    } else {
      Unrelated(s, s', e);
    }
  }

  lemma CleanupKeeps(s: State, env: Env, hash: bytes -> Hash, m: Message)
    requires VotesOk(s) && (m.CleanupDeposit? || m.CleanupWithdrawal?)
    requires Handle(s, env, hash, m).Ok?
    ensures VotesOk(Handle(s, env, hash, m).state)
  {
    var s' := Handle(s, env, hash, m).state;
    if m.CleanupDeposit? {
      Unrelated(s, s', DepositCleaned(m.id));
    } else {
      RecordCleaned(s, s', WithdrawalCleaned(m.id, env.block, s.ttl), m.id);
    }
  }

  lemma StepKeeps(s: State, hash: bytes -> Hash, step: Step)
    requires VotesOk(s)
    ensures VotesOk(Apply(s, hash, step))
  {
    if step.Outside? {
      assert forall id :: ReleaseRecorded(s, id) ==> ReleaseRecorded(Apply(s, hash, step), id);
    } else if Handle(s, step.env, hash, step.message).Ok? {
      var env, m := step.env, step.message;
      if m.Deposit? {
        DepositKeeps(s, env, hash, m.amount, m.hotkey);
      } else if m.AttestWithdrawal? {
        AttestKeeps(s, env, hash, m.id, m.recipient, m.amount, m.nonce);
      } else if OwnerOnly(m) {
        AdminKeeps(s, env, m);
      } else {
        CleanupKeeps(s, env, hash, m);
      }
    }
  }

  // -------- nothing logged or hashed is forgotten --------

  predicate Grows(s: State, s': State) { s.log <= s'.log && s.hashed <= s'.hashed }

  lemma DepositGrows(s: State, env: Env, hash: bytes -> Hash, amount: u64, hotkey: AccountId)
    requires DoDeposit(s, env, hash, amount, hotkey).Ok?
    ensures Grows(s, DoDeposit(s, env, hash, amount, hotkey).state)
  {
  }

  lemma AttestGrows(s: State, env: Env, hash: bytes -> Hash, id: Hash, recipient: AccountId, amount: u64, nonce: u64)
    requires DoAttest(s, env, hash, id, recipient, amount, nonce).Ok?
    ensures Grows(s, DoAttest(s, env, hash, id, recipient, amount, nonce).state)
  {
  }

  lemma AdminGrows(s: State, env: Env, m: Message)
    requires OwnerOnly(m) && DoAdmin(s, env, m).Ok?
    ensures Grows(s, DoAdmin(s, env, m).state)
  {
  }

  lemma StepGrows(s: State, hash: bytes -> Hash, step: Step)
    ensures Grows(s, Apply(s, hash, step))
  {
    if step.Call? && Handle(s, step.env, hash, step.message).Ok? {
      var env, m := step.env, step.message;
      if m.Deposit? {
        DepositGrows(s, env, hash, m.amount, m.hotkey);
      } else if m.AttestWithdrawal? {
        AttestGrows(s, env, hash, m.id, m.recipient, m.amount, m.nonce);
      } else if OwnerOnly(m) {
        AdminGrows(s, env, m);
      }
    }
  }

  // -------- every run --------

  lemma {:induction false} RunKeeps(s: State, hash: bytes -> Hash, steps: seq<Step>)
    requires VotesOk(s)
    ensures VotesOk(Run(s, hash, steps))
    decreases |steps|
  {
    if steps != [] {
      RunKeeps(s, hash, steps[..|steps| - 1]);
      StepKeeps(Run(s, hash, steps[..|steps| - 1]), hash, steps[|steps| - 1]);
    }
  }

  lemma InitOk(self: AccountId, owner: AccountId, chainId: u16, hotkey: AccountId, ledger: Ledger)
    ensures VotesOk(Init(self, owner, chainId, hotkey, ledger))
  {
    var s := Init(self, owner, chainId, hotkey, ledger);
    assert forall id :: ReleaseRecorded(s, id);
  }

  /** One more step from a reachable state leads to a reachable state. */
  lemma ReachableStep(hash: bytes -> Hash, s: State, step: Step)
    requires Reachable(hash, s)
    ensures Reachable(hash, Apply(s, hash, step))
  {
    var self, owner, chainId, hotkey, ledger, steps :| s == Run(Init(self, owner, chainId, hotkey, ledger), hash, steps);
    assert (steps + [step])[..|steps|] == steps;
    assert Apply(s, hash, step) == Run(Init(self, owner, chainId, hotkey, ledger), hash, steps + [step]);
  }

  lemma InitReachable(hash: bytes -> Hash, self: AccountId, owner: AccountId, chainId: u16, hotkey: AccountId, ledger: Ledger)
    ensures Reachable(hash, Init(self, owner, chainId, hotkey, ledger))
  {
    assert Init(self, owner, chainId, hotkey, ledger) == Run(Init(self, owner, chainId, hotkey, ledger), hash, []);
  }

  lemma ReachableOk(hash: bytes -> Hash, s: State)
    requires Reachable(hash, s)
    ensures VotesOk(s)
  {
    var self, owner, chainId, hotkey, ledger, steps :| s == Run(Init(self, owner, chainId, hotkey, ledger), hash, steps);
    InitOk(self, owner, chainId, hotkey, ledger);
    RunKeeps(Init(self, owner, chainId, hotkey, ledger), hash, steps);
  }
}
