/**
 What holds of every run of the bridge, whatever messages arrive, in whatever order, and however the chain answers.
 */
module BridgeRuns {
  import opened ByteStrings
  import opened Sorting
  import opened Bridge
  import opened BridgeVotes

  // -------- releases --------

  /** A vote by `v` on `id` before position `i`, with no clean-up of `id` from there up to `i`. */
  ghost predicate VotedBefore(log: seq<Event>, i: nat, id: Hash, v: AccountId)
    requires i <= |log|
  {
    exists k :: 0 <= k < i && IsVote(log[k], id, v) && Standing(log[..i], id, k)
  }

  /**
   Every voted release, in every run, had at least the threshold then in force of pairwise distinct voters,
   each of whom was a guardian when voting and voted since the record was last cleaned up.
   */
  lemma ReleasesAreBacked(hash: bytes -> Hash, s: State, i: nat)
    requires Reachable(hash, s)
    requires i < |s.log| && s.log[i].Released?
    ensures 1 <= s.log[i].threshold <= |s.log[i].votes|
    ensures NoRepeats(s.log[i].votes)
    ensures forall v :: v in s.log[i].votes ==> VotedBefore(s.log, i, s.log[i].id, v)
  {
    ReachableOk(hash, s);
    var log := s.log;
    assert EventOk(log[..i], log[i]);
    forall v | v in log[i].votes ensures VotedBefore(log, i, log[i].id, v) {
      var e :| e in Since(log[..i], log[i].id) && IsVote(e, log[i].id, v);
      SinceMeans(log[..i], log[i].id, e);
    }
  }

  /** The first clean-up of `id` at or after position `i`. */
  lemma {:induction false} FirstClean(log: seq<Event>, id: Hash, i: nat) returns (k: nat)
    requires i <= |log| && !Standing(log, id, i)
    ensures i <= k < |log| && Cleans(log[k], id)
    ensures forall j :: i <= j < k ==> !Cleans(log[j], id)
    decreases |log| - i
  {
    if Cleans(log[i], id) {
      k := i;
    } else {
      k := FirstClean(log, id, i + 1);
    }
  }

  /**
   Two voted releases of one id are always separated by a clean-up of its record, and that clean-up came at
   least the time-to-live then in force after the first of the two releases.
   */
  lemma ReleasesAreSeparated(hash: bytes -> Hash, s: State, id: Hash, i: nat, j: nat) returns (k: nat)
    requires Reachable(hash, s)
    requires i < j < |s.log| && IsRelease(s.log[i], id) && IsRelease(s.log[j], id)
    ensures i < k < j && Cleans(s.log[k], id)
    ensures s.log[k].block >= SatAdd32(s.log[i].block, s.log[k].ttl)
  {
    ReachableOk(hash, s);
    var log := s.log;
    assert EventOk(log[..j], log[j]);
    SinceMeans(log[..j], id, log[i]);
    assert log[..j][i] == log[i];
    assert !Standing(log[..j], id, i);
    k := FirstClean(log[..j], id, i);
    assert log[..j][k] == log[k];
    assert EventOk(log[..k], log[k]);
    SinceMeans(log[..k], id, log[i]);
    assert log[..k][i] == log[i] && Standing(log[..k], id, i) by {
      assert forall x :: i <= x < k ==> log[..k][x] == log[..j][x];
    }
  }

  /** Records never have repeated voters, pending ones have one to nine, and a vote count always fits 16 bits. */
  lemma RecordsStayOk(hash: bytes -> Hash, s: State, id: Hash)
    requires Reachable(hash, s) && id in s.withdrawals
    ensures var w := s.withdrawals[id];
            && w.requestId == id && NoRepeats(w.votes) && 1 <= |w.votes| <= 10
            && (w.status == Pending ==> |w.votes| <= 9)
            && (w.status == Pending <==> w.finalizedAt.None?)
  {
    ReachableOk(hash, s);
  }

  // -------- the life of a record --------

  /** What may become of a record that is not removed: its terms stand, votes are only added, and once final it is frozen. */
  predicate Later(w: Withdrawal, w': Withdrawal) {
    && w'.requestId == w.requestId && w'.recipient == w.recipient && w'.amount == w.amount && w'.createdAt == w.createdAt
    && w.votes <= w'.votes
    && (w.status != Pending ==> w' == w)
  }

  /** Removed by a guardian, once final, at a block no earlier than its finalisation plus the time-to-live. */
  ghost predicate ProperlyCleaned(s: State, step: Step, id: Hash, w: Withdrawal) {
    && step.Call? && step.message == CleanupWithdrawal(id) && step.env.caller in s.guardians
    && w.status != Pending && w.finalizedAt.Some?
    && step.env.block >= SatAdd32(w.finalizedAt.value, s.ttl)
  }

  lemma StepLater(s: State, hash: bytes -> Hash, step: Step, id: Hash)
    requires id in s.withdrawals
    ensures var s' := Apply(s, hash, step);
            if id in s'.withdrawals then Later(s.withdrawals[id], s'.withdrawals[id])
            else ProperlyCleaned(s, step, id, s.withdrawals[id]) && s'.log == s.log + [WithdrawalCleaned(id, step.env.block, s.ttl)]
  {
    if step.Call? && Handle(s, step.env, hash, step.message).Ok? {
      var env, m := step.env, step.message;
      if m.Deposit? {
        DepositLeavesRecords(s, env, hash, m.amount, m.hotkey);
      } else if m.AttestWithdrawal? {
        AttestLater(s, env, hash, m.id, m.recipient, m.amount, m.nonce, id);
      } else if OwnerOnly(m) {
        AdminLater(s, env, m, id);
      }
    }
  }

  lemma DepositLeavesRecords(s: State, env: Env, hash: bytes -> Hash, amount: u64, hotkey: AccountId)
    requires DoDeposit(s, env, hash, amount, hotkey).Ok?
    ensures DoDeposit(s, env, hash, amount, hotkey).state.withdrawals == s.withdrawals
  {
  }

  lemma AttestLater(s: State, env: Env, hash: bytes -> Hash, x: Hash, recipient: AccountId, amount: u64, nonce: u64, id: Hash)
    requires id in s.withdrawals
    requires DoAttest(s, env, hash, x, recipient, amount, nonce).Ok?
    ensures id in DoAttest(s, env, hash, x, recipient, amount, nonce).state.withdrawals
    ensures Later(s.withdrawals[id], DoAttest(s, env, hash, x, recipient, amount, nonce).state.withdrawals[id])
  {
  }

  lemma AdminLater(s: State, env: Env, m: Message, id: Hash)
    requires OwnerOnly(m) && id in s.withdrawals
    requires DoAdmin(s, env, m).Ok?
    ensures id in DoAdmin(s, env, m).state.withdrawals
    ensures Later(s.withdrawals[id], DoAdmin(s, env, m).state.withdrawals[id])
  {
  }

  /** An owner's message logs one event, which is neither a deposit nor a vote nor a release by vote. */
  lemma AdminLogs(s: State, env: Env, m: Message)
    requires OwnerOnly(m) && DoAdmin(s, env, m).Ok?
    ensures |DoAdmin(s, env, m).state.log| == |s.log| + 1
    ensures DoAdmin(s, env, m).state.log[..|s.log|] == s.log
    ensures !Moves(DoAdmin(s, env, m).state.log[|s.log|])
    ensures DoAdmin(s, env, m).state.nextNonce == s.nextNonce
    ensures s.paused && !m.Unpause? ==> DoAdmin(s, env, m).state.paused
  {
  }

  lemma {:induction false} RunLogGrows(s: State, hash: bytes -> Hash, steps: seq<Step>)
    ensures s.log <= Run(s, hash, steps).log
    decreases |steps|
  {
    if steps != [] {
      RunLogGrows(s, hash, steps[..|steps| - 1]);
      StepGrows(Run(s, hash, steps[..|steps| - 1]), hash, steps[|steps| - 1]);
    }
  }

  /** Until its clean-up a record keeps its recipient, amount and votes, and a completed or cancelled one does not change. */
  lemma {:induction false} RunLater(s: State, hash: bytes -> Hash, steps: seq<Step>, id: Hash)
    requires id in s.withdrawals
    requires Standing(Run(s, hash, steps).log, id, |s.log|)
    ensures id in Run(s, hash, steps).withdrawals
    ensures Later(s.withdrawals[id], Run(s, hash, steps).withdrawals[id])
    decreases |steps|
  {
    if steps != [] {
      var front, last := steps[..|steps| - 1], steps[|steps| - 1];
      var mid := Run(s, hash, front);
      var t := Run(s, hash, steps);
      RunLogGrows(s, hash, front);
      StepGrows(mid, hash, last);
      assert Standing(mid.log, id, |s.log|) by {
        assert forall j :: |s.log| <= j < |mid.log| ==> mid.log[j] == t.log[j];
      }
      RunLater(s, hash, front, id);
      StepLater(mid, hash, last, id);
      assert id !in t.withdrawals ==> |t.log| > |mid.log| && Cleans(t.log[|mid.log|], id);
    }
  }

  // -------- pausing --------

  predicate Moves(e: Event) { e.DepositMade? || e.Voted? || e.Released? }

  /** No record is new, deposits changed at most their status, and withdrawals were at most cancelled. */
  ghost predicate OnlyWindsDown(s: State, t: State) {
    && (forall id :: id in t.deposits ==> id in s.deposits && t.deposits[id] == s.deposits[id].(status := t.deposits[id].status))
    && (forall id :: id in t.withdrawals ==> id in s.withdrawals && AtMostCancelled(s.withdrawals[id], t.withdrawals[id]))
  }

  predicate AtMostCancelled(w: Withdrawal, w': Withdrawal) {
    w' == w || (w.status == Pending && w'.finalizedAt.Some? && w' == w.(status := Cancelled, finalizedAt := w'.finalizedAt))
  }

  lemma WindsDownTransitive(s: State, t: State, u: State)
    requires OnlyWindsDown(s, t) && OnlyWindsDown(t, u)
    ensures OnlyWindsDown(s, u)
  {
  }

  lemma AdminWindsDown(s: State, env: Env, m: Message)
    requires OwnerOnly(m) && DoAdmin(s, env, m).Ok?
    ensures OnlyWindsDown(s, DoAdmin(s, env, m).state)
  {
  }

  /**
   Between a pause and the next unpause nothing is deposited, voted on or released by vote: the log says so, no nonce is
   used, no table gains a record, and a withdrawal is at most cancelled or removed.
   */
  lemma {:induction false} PausedRun(s: State, hash: bytes -> Hash, steps: seq<Step>)
    requires s.paused
    requires forall i :: 0 <= i < |steps| ==> !(steps[i].Call? && steps[i].message.Unpause?)
    ensures var t := Run(s, hash, steps);
            && t.paused && s.log <= t.log && t.nextNonce == s.nextNonce && OnlyWindsDown(s, t)
            && forall i :: |s.log| <= i < |t.log| ==> !Moves(t.log[i])
    decreases |steps|
  {
    if steps != [] {
      var front, last := steps[..|steps| - 1], steps[|steps| - 1];
      PausedRun(s, hash, front);
      assert steps[|steps| - 1] == last;
      assert !(last.Call? && last.message.Unpause?);
      PausedStep(Run(s, hash, front), hash, last);
      WindsDownTransitive(s, Run(s, hash, front), Run(s, hash, steps));
    }
  }

  lemma PausedStep(s: State, hash: bytes -> Hash, step: Step)
    requires s.paused
    requires !(step.Call? && step.message.Unpause?)
    ensures var t := Apply(s, hash, step);
            && t.paused && t.nextNonce == s.nextNonce && OnlyWindsDown(s, t)
            && s.log <= t.log
            && forall i :: |s.log| <= i < |t.log| ==> !Moves(t.log[i])
  {
    if step.Call? {
      var env, m := step.env, step.message;
      if OwnerOnly(m) {
        if DoAdmin(s, env, m).Ok? {
          AdminLogs(s, env, m);
          AdminWindsDown(s, env, m);
        }
      } else {
        if Handle(s, env, hash, m).Ok? {
          PausedOther(s, env, hash, m);
        }
      }
    }
  }

  lemma PausedOther(s: State, env: Env, hash: bytes -> Hash, m: Message)
    requires s.paused && !OwnerOnly(m)
    requires Handle(s, env, hash, m).Ok?
    ensures var t := Handle(s, env, hash, m).state;
            && t.paused && t.nextNonce == s.nextNonce && OnlyWindsDown(s, t)
            && exists e :: t.log == s.log + [e] && !Moves(e)
  {
    assert m.CleanupDeposit? || m.CleanupWithdrawal?;
  }

  // -------- who may do what --------

  /** Everything but the records and the accounts of them. */
  function Configuration(s: State): (c: (AccountId, AccountId, bool, seq<AccountId>, u16, (u64, u32))) {
    (s.owner, s.contractHotkey, s.paused, s.guardians, s.threshold, (s.minDeposit, s.ttl))
  }

  /** Only the owner of the moment changes the configuration; a new threshold is at most the length of the guardian list, repeats counted. */
  lemma OnlyOwnerConfigures(s: State, hash: bytes -> Hash, step: Step)
    requires Configuration(Apply(s, hash, step)) != Configuration(s)
    ensures step.Call? && OwnerOnly(step.message) && step.env.caller == s.owner
    ensures var s' := Apply(s, hash, step);
            s'.guardians != s.guardians || s'.threshold != s.threshold ==> 1 <= s'.threshold <= |s'.guardians| <= 10
  {
    if step.Call? && !OwnerOnly(step.message) && Handle(s, step.env, hash, step.message).Ok? {
      OthersKeepConfiguration(s, step.env, hash, step.message);
    }
  }

  lemma OthersKeepConfiguration(s: State, env: Env, hash: bytes -> Hash, m: Message)
    requires !OwnerOnly(m) && Handle(s, env, hash, m).Ok?
    ensures Configuration(Handle(s, env, hash, m).state) == Configuration(s)
  {
    match m
    case Deposit(_, _) =>
    case AttestWithdrawal(_, _, _, _) =>
    case CleanupDeposit(_) =>
    case CleanupWithdrawal(_) =>
  }
}
