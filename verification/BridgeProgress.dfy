/**
 When the guardians of the moment can still bring a record to release by voting, and when it is stuck.
 */
module BridgeProgress {
  import opened ByteStrings
  import opened Sorting
  import opened Bridge
  import opened BridgeVotes

  /** The votes cast on `id`; none if there is no record. */
  function VotesOf(s: State, id: Hash): (votes: seq<AccountId>) {
    if id in s.withdrawals then s.withdrawals[id].votes else []
  }

  /** The guardians who have not voted on `id`. A guardian listed twice is one. */
  ghost function Unvoted(s: State, id: Hash): (gs: set<AccountId>) {
    set g | g in s.guardians && g !in VotesOf(s, id)
  }

  /** Some guardian has not voted, and with all of their votes the threshold is reached. */
  ghost predicate EnoughLeft(s: State, id: Hash) {
    Unvoted(s, id) != {} && |VotesOf(s, id)| + |Unvoted(s, id)| >= s.threshold
  }

  predicate IsCompleted(s: State, id: Hash) { id in s.withdrawals && s.withdrawals[id].status == Completed }

  predicate Open(s: State, id: Hash) { id in s.withdrawals ==> s.withdrawals[id].status == Pending }

  /** The guardians are replaced, or the record is cancelled. */
  predicate Disturbs(step: Step, id: Hash) {
    step.Call? && (step.message.SetGuardians? || step.message == AdminCancelWithdrawal(id))
  }

  predicate Undisturbed(steps: seq<Step>, id: Hash) {
    forall i :: 0 <= i < |steps| ==> !Disturbs(steps[i], id)
  }

  // -------- without enough guardians left nothing helps --------

  /** Since `s0` the record has stayed open and gained only votes of guardians. */
  ghost predicate StillOpen(s0: State, s: State, id: Hash) {
    && s.guardians == s0.guardians && s.threshold == s0.threshold
    && Open(s, id) && (id in s0.withdrawals ==> id in s.withdrawals)
    && VotesOf(s0, id) <= VotesOf(s, id) && NoRepeats(VotesOf(s, id))
    && forall v :: v in VotesOf(s, id) ==> v in VotesOf(s0, id) || v in s0.guardians
  }

  lemma {:induction false} DistinctCount<T>(xs: seq<T>)
    requires NoRepeats(xs)
    ensures |set x | x in xs| == |xs|
  {
    if xs != [] {
      var n := |xs| - 1;
      DistinctCount(xs[..n]);
      assert (set x | x in xs) == (set x | x in xs[..n]) + {xs[n]};
      assert xs[n] !in xs[..n];
    }
  }

  /** Distinct votes by earlier voters and by guardians who had not voted are no more than both together. */
  lemma VotesBounded(s: State, id: Hash, votes: seq<AccountId>)
    requires NoRepeats(votes) && NoRepeats(VotesOf(s, id))
    requires forall v :: v in votes ==> v in VotesOf(s, id) || v in Unvoted(s, id)
    ensures |votes| <= |VotesOf(s, id)| + |Unvoted(s, id)|
  {
    DistinctCount(votes);
    DistinctCount(VotesOf(s, id));
    var all, old_ := set v | v in votes, set v | v in VotesOf(s, id);
    assert all <= old_ + Unvoted(s, id);
    SubsetSize(all, old_ + Unvoted(s, id));
  }

  lemma {:induction false} SubsetSize<T>(a: set<T>, b: set<T>)
    requires a <= b
    ensures |a| <= |b|
    decreases a
  {
    if a != {} {
      var x :| x in a;
      SubsetSize(a - {x}, b - {x});
    }
  }

  lemma VoteStaysOpen(s0: State, s: State, env: Env, hash: bytes -> Hash, x: Hash, recipient: AccountId, amount: u64, nonce: u64, id: Hash)
    requires StillOpen(s0, s, id) && NoRepeats(VotesOf(s0, id)) && !EnoughLeft(s0, id)
    requires DoAttest(s, env, hash, x, recipient, amount, nonce).Ok?
    ensures StillOpen(s0, DoAttest(s, env, hash, x, recipient, amount, nonce).state, id)
  {
    if x == id {
      var votes := VotesOf(s, id) + [env.caller];
      assert VotedRecord(s, env, id, recipient, amount).votes == votes;
      NoRepeatsPush(VotesOf(s, id), env.caller);
      assert env.caller in Unvoted(s0, id);
      VotesBounded(s0, id, votes);
    }
  }

  lemma AdminStaysOpen(s0: State, s: State, env: Env, m: Message, id: Hash)
    requires StillOpen(s0, s, id) && OwnerOnly(m) && !m.SetGuardians? && m != AdminCancelWithdrawal(id)
    requires DoAdmin(s, env, m).Ok?
    ensures StillOpen(s0, DoAdmin(s, env, m).state, id)
  {
    var t := DoAdmin(s, env, m).state;
    assert t.guardians == s.guardians && t.threshold == s.threshold;
    assert id in t.withdrawals <==> id in s.withdrawals;
    assert id in s.withdrawals ==> t.withdrawals[id] == s.withdrawals[id];
  }

  lemma DepositStaysOpen(s0: State, s: State, env: Env, hash: bytes -> Hash, amount: u64, hotkey: AccountId, id: Hash)
    requires StillOpen(s0, s, id)
    requires DoDeposit(s, env, hash, amount, hotkey).Ok?
    ensures StillOpen(s0, DoDeposit(s, env, hash, amount, hotkey).state, id)
  {
  }

  lemma CleanupStaysOpen(s0: State, s: State, env: Env, hash: bytes -> Hash, m: Message, id: Hash)
    requires StillOpen(s0, s, id) && (m.CleanupDeposit? || m.CleanupWithdrawal?)
    requires Handle(s, env, hash, m).Ok?
    ensures StillOpen(s0, Handle(s, env, hash, m).state, id)
  {
  }

  lemma StepStaysOpen(s0: State, s: State, hash: bytes -> Hash, step: Step, id: Hash)
    requires StillOpen(s0, s, id) && NoRepeats(VotesOf(s0, id)) && !EnoughLeft(s0, id) && !Disturbs(step, id)
    ensures StillOpen(s0, Apply(s, hash, step), id)
  {
    if step.Call? && Handle(s, step.env, hash, step.message).Ok? {
      var env, m := step.env, step.message;
      if m.Deposit? {
        DepositStaysOpen(s0, s, env, hash, m.amount, m.hotkey, id);
      } else if m.AttestWithdrawal? {
        VoteStaysOpen(s0, s, env, hash, m.id, m.recipient, m.amount, m.nonce, id);
      } else if OwnerOnly(m) {
        AdminStaysOpen(s0, s, env, m, id);
      } else {
        CleanupStaysOpen(s0, s, env, hash, m, id);
      }
    }
  }

  /**
   Without enough guardians left a record never completes, whatever is deposited, voted, paused, configured or moved,
   until the guardians are replaced or the record is cancelled.
   */
  lemma {:induction false} NeverCompletes(s: State, hash: bytes -> Hash, steps: seq<Step>, id: Hash)
    requires VotesOk(s) && Open(s, id) && !EnoughLeft(s, id) && Undisturbed(steps, id)
    ensures StillOpen(s, Run(s, hash, steps), id)
    decreases |steps|
  {
    assert NoRepeats(VotesOf(s, id));
    if steps != [] {
      var front, last := steps[..|steps| - 1], steps[|steps| - 1];
      NeverCompletes(s, hash, front, id);
      StepStaysOpen(s, Run(s, hash, front), hash, last, id);
    }
  }

  // -------- with enough of them left they can finish --------

  /** A guardian's vote, with every query answered and a transfer that succeeds. */
  function VoteBy(g: AccountId, ledger: Ledger, id: Hash, recipient: AccountId, amount: u64, nonce: u64): (step: Step) {
    Call(Env(g, 0, {}, q => Done(ledger), v => Refused), AttestWithdrawal(id, recipient, amount, nonce))
  }

  /** The bridge runs, the terms hash to the id, and the hotkey covers what the record would pay. */
  predicate Payable(s: State, hash: bytes -> Hash, id: Hash, recipient: AccountId, amount: u64, nonce: u64) {
    && !s.paused && hash(WithdrawalPreimage(recipient, amount, nonce)) == id
    && StakeOf(s.ledger, s.self, s.contractHotkey) >= if id in s.withdrawals then s.withdrawals[id].amount else amount
  }

  lemma VoteCounts(s: State, hash: bytes -> Hash, g: AccountId, id: Hash, recipient: AccountId, amount: u64, nonce: u64)
    requires Payable(s, hash, id, recipient, amount, nonce) && Open(s, id) && g in Unvoted(s, id)
    ensures var s' := Apply(s, hash, VoteBy(g, s.ledger, id, recipient, amount, nonce));
            if |VotesOf(s, id)| + 1 >= s.threshold then IsCompleted(s', id)
            else && Open(s', id) && Payable(s', hash, id, recipient, amount, nonce)
                 && s'.guardians == s.guardians && s'.threshold == s.threshold
                 && VotesOf(s', id) == VotesOf(s, id) + [g]
  {
  }

  lemma {:induction false} RunCons(s: State, hash: bytes -> Hash, step: Step, steps: seq<Step>)
    ensures Run(s, hash, [step] + steps) == Run(Apply(s, hash, step), hash, steps)
    decreases |steps|
  {
    var all := [step] + steps;
    if steps == [] {
      assert all[..|all| - 1] == [];
    } else {
      assert all[..|all| - 1] == [step] + steps[..|steps| - 1];
      RunCons(s, hash, step, steps[..|steps| - 1]);
    }
  }

  lemma {:induction false} CanComplete(s: State, hash: bytes -> Hash, id: Hash, recipient: AccountId, amount: u64, nonce: u64)
    returns (steps: seq<Step>)
    requires Payable(s, hash, id, recipient, amount, nonce) && Open(s, id) && EnoughLeft(s, id)
    ensures Undisturbed(steps, id) && IsCompleted(Run(s, hash, steps), id)
    decreases |Unvoted(s, id)|
  {
    var g :| g in Unvoted(s, id);
    var step := VoteBy(g, s.ledger, id, recipient, amount, nonce);
    var s' := Apply(s, hash, step);
    VoteCounts(s, hash, g, id, recipient, amount, nonce);
    if |VotesOf(s, id)| + 1 >= s.threshold {
      steps := [step];
      RunCons(s, hash, step, []);
      assert [step] + [] == [step];
    } else {
      assert Unvoted(s', id) == Unvoted(s, id) - {g};
      var rest := CanComplete(s', hash, id, recipient, amount, nonce);
      steps := [step] + rest;
      RunCons(s, hash, step, rest);
    }
  }

  /** Some run that neither replaces the guardians nor cancels the record ends with it completed. */
  ghost predicate Completable(s: State, hash: bytes -> Hash, id: Hash) {
    exists steps :: Undisturbed(steps, id) && IsCompleted(Run(s, hash, steps), id)
  }

  /**
   A record, new or pending, can be brought to release without replacing the guardians exactly when some guardian has
   not voted on it and the votes it has, with those of all who have not voted, reach the threshold.
   For a new record that is: there are guardians, and at least the threshold of different ones.
   */
  lemma CompletableExactly(hash: bytes -> Hash, s: State, id: Hash, recipient: AccountId, amount: u64, nonce: u64)
    requires Reachable(hash, s) && Open(s, id) && Payable(s, hash, id, recipient, amount, nonce)
    ensures Completable(s, hash, id) <==> EnoughLeft(s, id)
    ensures id !in s.withdrawals ==>
              (Completable(s, hash, id) <==> s.guardians != [] && s.threshold <= |set g | g in s.guardians|)
  {
    ReachableOk(hash, s);
    if EnoughLeft(s, id) {
      var steps := CanComplete(s, hash, id, recipient, amount, nonce);
    } else {
      forall steps | Undisturbed(steps, id) ensures !IsCompleted(Run(s, hash, steps), id) {
        NeverCompletes(s, hash, steps, id);
      }
    }
    if id !in s.withdrawals {
      assert Unvoted(s, id) == set g | g in s.guardians;
      assert s.guardians != [] ==> s.guardians[0] in Unvoted(s, id);
    }
  }

  /** The next vote completes the record, for some guardian, exactly when one has not voted and one vote is missing at most. */
  lemma NextVoteCompletesExactly(hash: bytes -> Hash, s: State, id: Hash, recipient: AccountId, amount: u64, nonce: u64)
    requires Open(s, id) && Payable(s, hash, id, recipient, amount, nonce)
    ensures (exists env :: IsCompleted(Apply(s, hash, Call(env, AttestWithdrawal(id, recipient, amount, nonce))), id))
       <==> Unvoted(s, id) != {} && |VotesOf(s, id)| + 1 >= s.threshold
  {
    forall env | IsCompleted(Apply(s, hash, Call(env, AttestWithdrawal(id, recipient, amount, nonce))), id)
      ensures env.caller in Unvoted(s, id) && |VotesOf(s, id)| + 1 >= s.threshold
    {
      assert DoAttest(s, env, hash, id, recipient, amount, nonce).Ok?;
    }
    if Unvoted(s, id) != {} && |VotesOf(s, id)| + 1 >= s.threshold {
      var g :| g in Unvoted(s, id);
      VoteCounts(s, hash, g, id, recipient, amount, nonce);
      var env := VoteBy(g, s.ledger, id, recipient, amount, nonce).env;
      assert IsCompleted(Apply(s, hash, Call(env, AttestWithdrawal(id, recipient, amount, nonce))), id);
    }
  }

  // -------- two ways to get stuck --------

  /** A list that names one account twice passes the checks with threshold two, and then no new record ever completes. */
  lemma RepeatedGuardianNeverReaches(hash: bytes -> Hash, s: State, env: Env, a: AccountId, id: Hash, steps: seq<Step>)
    requires Reachable(hash, s) && env.caller == s.owner && id !in s.withdrawals && Undisturbed(steps, id)
    ensures DoAdmin(s, env, SetGuardians([a, a], 2)).Ok?
    ensures !IsCompleted(Run(DoAdmin(s, env, SetGuardians([a, a], 2)).state, hash, steps), id)
  {
    var t := DoAdmin(s, env, SetGuardians([a, a], 2)).state;
    ReachableOk(hash, s);
    AdminKeeps(s, env, SetGuardians([a, a], 2));
    assert Unvoted(t, id) == {a};
    NeverCompletes(t, hash, steps, id);
  }

  /** A pending record every current guardian has voted on stays as it is, even if its votes reach a lowered threshold. */
  lemma AllVotedIsStuck(hash: bytes -> Hash, s: State, id: Hash, steps: seq<Step>)
    requires Reachable(hash, s) && id in s.withdrawals && s.withdrawals[id].status == Pending
    requires (forall g :: g in s.guardians ==> g in s.withdrawals[id].votes) && Undisturbed(steps, id)
    ensures var t := Run(s, hash, steps);
            id in t.withdrawals && t.withdrawals[id].status == Pending && t.withdrawals[id].votes == s.withdrawals[id].votes
  {
    ReachableOk(hash, s);
    assert Unvoted(s, id) == {};
    NeverCompletes(s, hash, steps, id);
    var t := Run(s, hash, steps);
    NoMoreVotes(VotesOf(s, id), VotesOf(t, id));
  }

  lemma NoMoreVotes<T>(a: seq<T>, b: seq<T>)
    requires a <= b && NoRepeats(b) && forall v :: v in b ==> v in a
    ensures a == b
  {
    assert NoRepeats(a) && (set x | x in a) == (set x | x in b) by {
      assert forall i :: 0 <= i < |a| ==> a[i] == b[i];
    }
    DistinctCount(a);
    DistinctCount(b);
  }

  /** Such a record is reached from any fresh contract: three guardians, two votes, then two guardians. */
  lemma LoweredThresholdReached(hash: bytes -> Hash, s: State, a: AccountId, b: AccountId, c: AccountId, nonce: u64) returns (steps: seq<Step>, id: Hash)
    requires s == Init(s.self, s.owner, s.chainId, s.contractHotkey, s.ledger) && a != b
    ensures var t := Run(s, hash, steps);
            && id in t.withdrawals && t.withdrawals[id].status == Pending && |t.withdrawals[id].votes| >= t.threshold
            && forall g :: g in t.guardians ==> g in t.withdrawals[id].votes
  {
    id := hash(WithdrawalPreimage(a, 0, nonce));
    var env := Env(s.owner, 0, {}, q => Refused, v => Refused);
    var first, last := Call(env, SetGuardians([a, b, c], 3)), Call(env, SetGuardians([a, b], 2));
    var voteA, voteB := VoteBy(a, s.ledger, id, a, 0, nonce), VoteBy(b, s.ledger, id, a, 0, nonce);
    var s1 := Apply(s, hash, first);
    assert s1.guardians == [a, b, c] && s1.threshold == 3 && id !in s1.withdrawals && s1.ledger == s.ledger;
    VoteCounts(s1, hash, a, id, a, 0, nonce);
    var s2 := Apply(s1, hash, voteA);
    VoteKeepsRest(s1, hash, a, id, a, 0, nonce);
    VoteCounts(s2, hash, b, id, a, 0, nonce);
    var s3 := Apply(s2, hash, voteB);
    VoteKeepsRest(s2, hash, b, id, a, 0, nonce);
    var s4 := Apply(s3, hash, last);
    steps := [first, voteA, voteB, last];
    RunFour(s, hash, first, voteA, voteB, last);
  }

  lemma RunFour(s: State, hash: bytes -> Hash, a: Step, b: Step, c: Step, d: Step)
    ensures Run(s, hash, [a, b, c, d]) == Apply(Apply(Apply(Apply(s, hash, a), hash, b), hash, c), hash, d)
  {
    var all := [a, b, c, d];
    assert all == [a] + ([b] + ([c] + ([d] + [])));
    var s1 := Apply(s, hash, a);
    RunCons(s, hash, a, [b] + ([c] + ([d] + [])));
    RunCons(s1, hash, b, [c] + ([d] + []));
    RunCons(Apply(s1, hash, b), hash, c, [d] + []);
    RunCons(Apply(Apply(s1, hash, b), hash, c), hash, d, []);
  }

  /** A vote short of the threshold leaves ledger and owner alone. */
  lemma VoteKeepsRest(s: State, hash: bytes -> Hash, g: AccountId, id: Hash, recipient: AccountId, amount: u64, nonce: u64)
    requires |VotesOf(s, id)| + 1 < s.threshold
    ensures var s' := Apply(s, hash, VoteBy(g, s.ledger, id, recipient, amount, nonce));
            s'.ledger == s.ledger && s'.owner == s.owner && (id in s.withdrawals || VotesOf(s', id) != [] ==> id in s'.withdrawals)
  {
  }
}
