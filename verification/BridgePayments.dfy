/**
 What a release pays and what a deposit brings, and that no stake appears or vanishes otherwise: on a chain that carries
 out requests, the contract's stake is bounded on both sides over every run.
 */
module BridgePayments {
  import opened ByteStrings
  import opened Bridge
  import opened BridgeVotes
  import opened BridgeProgress
  import opened BridgeSolvency

  /** The transfer was carried out to the letter. */
  ghost predicate ExactTransfer(l: Ledger, l': Ledger, q: StakeTransfer) {
    forall c, k :: StakeOf(l', c, k) == StakeOf(l, c, k)
                                        + (if c == q.destination && k == q.hotkey then q.amount else 0)
                                        - (if c == q.origin && k == q.hotkey then q.amount else 0)
  }

  /** Every transfer from the contract that the chain accepts is carried out to the letter. */
  ghost predicate PaysExactly(s: State, env: Env) {
    forall q: StakeTransfer :: q.origin == s.self && env.transfer(q).Done? ==> ExactTransfer(s.ledger, env.transfer(q).after, q)
  }

  // -------- a release pays --------

  lemma CompletedByVote(s: State, hash: bytes -> Hash, step: Step, id: Hash)
    requires !IsCompleted(s, id) && IsCompleted(Apply(s, hash, step), id)
    ensures step.Call? && step.message.AttestWithdrawal? && step.message.id == id
    ensures var w := Apply(s, hash, step).withdrawals[id];
            && 0 !in step.env.failing && StakeOf(s.ledger, s.self, s.contractHotkey) >= w.amount
            && PaidTo(s, step.env, w.recipient, w.amount) == Done(Apply(s, hash, step).ledger)
            && w.finalizedAt == Some(step.env.block)
  {
    var env, m := step.env, step.message;
    if OwnerOnly(m) {
      AdminCompletesNothing(s, env, m, id);
    } else if m.AttestWithdrawal? {
      VoteCompletes(s, env, hash, m.id, m.recipient, m.amount, m.nonce, id);
    }
  }

  lemma AdminCompletesNothing(s: State, env: Env, m: Message, id: Hash)
    requires OwnerOnly(m) && !IsCompleted(s, id) && DoAdmin(s, env, m).Ok?
    ensures !IsCompleted(DoAdmin(s, env, m).state, id)
  {
  }

  lemma VoteCompletes(s: State, env: Env, hash: bytes -> Hash, x: Hash, recipient: AccountId, amount: u64, nonce: u64, id: Hash)
    requires DoAttest(s, env, hash, x, recipient, amount, nonce).Ok? && !IsCompleted(s, id)
    requires IsCompleted(DoAttest(s, env, hash, x, recipient, amount, nonce).state, id)
    ensures var t := DoAttest(s, env, hash, x, recipient, amount, nonce).state;
            var w := t.withdrawals[id];
            && x == id && 0 !in env.failing && StakeOf(s.ledger, s.self, s.contractHotkey) >= w.amount
            && PaidTo(s, env, w.recipient, w.amount) == Done(t.ledger) && w.finalizedAt == Some(env.block)
  {
    var w := VotedRecord(s, env, x, recipient, amount);
    assert |w.votes| >= s.threshold && x == id;
  }

  /**
   The step that completes a record, in whatever run, finds the amount on the contract's hotkey and moves exactly the
   record's amount from there to the record's recipient, on the same hotkey, and touches no other stake.
   */
  lemma ReleasePays(s: State, hash: bytes -> Hash, step: Step, id: Hash)
    requires step.Call? ==> PaysExactly(s, step.env)
    requires !IsCompleted(s, id) && IsCompleted(Apply(s, hash, step), id)
    ensures var s' := Apply(s, hash, step);
            var w, k := s'.withdrawals[id], s.contractHotkey;
            && StakeOf(s.ledger, s.self, k) >= w.amount
            && (w.recipient != s.self ==>
                  && StakeOf(s'.ledger, s.self, k) == StakeOf(s.ledger, s.self, k) - w.amount
                  && StakeOf(s'.ledger, w.recipient, k) == StakeOf(s.ledger, w.recipient, k) + w.amount)
            && (forall c, h :: (c != s.self && c != w.recipient) || h != k ==> StakeOf(s'.ledger, c, h) == StakeOf(s.ledger, c, h))
  {
    CompletedByVote(s, hash, step, id);
    var w := Apply(s, hash, step).withdrawals[id];
    var q := StakeTransfer(s.self, w.recipient, s.contractHotkey, s.chainId, w.amount);
    assert ExactTransfer(s.ledger, step.env.transfer(q).after, q);
  }

  /** The owner's manual release moves exactly the amount asked to the account asked. */
  lemma ManualReleasePays(s: State, env: Env, recipient: AccountId, amount: u64)
    requires PaysExactly(s, env) && DoAdmin(s, env, AdminManualRelease(recipient, amount)).Ok?
    ensures var l := DoAdmin(s, env, AdminManualRelease(recipient, amount)).state.ledger;
            && env.caller == s.owner
            && (recipient != s.self ==>
                  && StakeOf(l, s.self, s.contractHotkey) == StakeOf(s.ledger, s.self, s.contractHotkey) - amount
                  && StakeOf(l, recipient, s.contractHotkey) == StakeOf(s.ledger, recipient, s.contractHotkey) + amount)
  {
    var q := StakeTransfer(s.self, recipient, s.contractHotkey, s.chainId, amount);
    assert ExactTransfer(s.ledger, env.transfer(q).after, q);
  }

  // -------- a deposit arrives --------

  /**
   On a chain that takes nothing on a transfer in, touches only what it was asked to and moves to the letter, an accepted deposit leaves at least the
   amount less the tolerance more on the contract's own hotkey, whichever hotkey it came in on, and nothing on the latter.
   */
  lemma DepositArrives(s: State, env: Env, hash: bytes -> Hash, amount: u64, hotkey: AccountId)
    requires ChainOk(s, Call(env, Deposit(amount, hotkey))) && ChainExact(s, Call(env, Deposit(amount, hotkey)))
    requires DoDeposit(s, env, hash, amount, hotkey).Ok?
    ensures var l := DoDeposit(s, env, hash, amount, hotkey).state.ledger;
            && StakeOf(l, s.self, s.contractHotkey) >= StakeOf(s.ledger, s.self, s.contractHotkey) + SatSub(amount, 10)
            && (hotkey != s.contractHotkey ==> StakeOf(l, s.self, hotkey) == 0)
  {
    var pulled := Pulled(s, env, amount, hotkey).after;
    assert OnlyTouches(s.ledger, pulled, s.self, hotkey) && NoDebit(s.ledger, pulled, s.self);
    var held := StakeOf(pulled, s.self, hotkey);
    var v := StakeMove(hotkey, s.contractHotkey, s.chainId, held);
    assert held >= SatSub(amount, 10);
    if hotkey != s.contractHotkey {
      assert StakeOf(pulled, s.self, s.contractHotkey) == StakeOf(s.ledger, s.self, s.contractHotkey);
      if held > 0 {
        MoveArrives(pulled, env.move(v).after, s.self, v);
      }
    }
  }

  lemma MoveArrives(l: Ledger, l': Ledger, c: AccountId, v: StakeMove)
    requires ExactMove(l, l', c, v) && v.origin != v.destination
    ensures StakeOf(l', c, v.destination) == StakeOf(l, c, v.destination) + v.amount
    ensures StakeOf(l', c, v.origin) == StakeOf(l, c, v.origin) - v.amount
  {
  }

  // -------- nothing else moves stake --------

  /** The ledger changes only in an accepted deposit, a completing vote, a manual release or outside the contract. */
  lemma LedgerChangesOnly(s: State, hash: bytes -> Hash, step: Step)
    requires Apply(s, hash, step).ledger != s.ledger
    ensures || step.Outside?
            || step.message.Deposit?
            || (step.message.AdminManualRelease? && step.env.caller == s.owner)
            || (step.message.AttestWithdrawal? && !IsCompleted(s, step.message.id) && IsCompleted(Apply(s, hash, step), step.message.id))
  {
    if step.Call? {
      var env, m := step.env, step.message;
      if m.AttestWithdrawal? {
        VoteChangesLedger(s, env, hash, m.id, m.recipient, m.amount, m.nonce);
      } else if OwnerOnly(m) {
        AdminChangesLedger(s, env, m);
      }
    }
  }

  lemma VoteChangesLedger(s: State, env: Env, hash: bytes -> Hash, id: Hash, recipient: AccountId, amount: u64, nonce: u64)
    requires DoAttest(s, env, hash, id, recipient, amount, nonce).Ok?
    ensures !IsCompleted(s, id)
    ensures var t := DoAttest(s, env, hash, id, recipient, amount, nonce).state;
            t.ledger == s.ledger || IsCompleted(t, id)
  {
  }

  lemma AdminChangesLedger(s: State, env: Env, m: Message)
    requires OwnerOnly(m) && DoAdmin(s, env, m).Ok?
    ensures env.caller == s.owner && (DoAdmin(s, env, m).state.ledger == s.ledger || m.AdminManualRelease?)
  {
  }

  // -------- the upper half of solvency --------

  function DepositedInFull(log: seq<Event>): (n: nat)
    decreases |log|
  {
    if log == [] then 0
    else DepositedInFull(log[..|log| - 1]) + if log[|log| - 1].DepositMade? then log[|log| - 1].amount else 0
  }

  /** Everything paid to others than `self`. */
  function PaidAway(log: seq<Event>, self: AccountId): (n: nat)
    decreases |log|
  {
    if log == [] then 0
    else PaidAway(log[..|log| - 1], self) + if PaysAway(log[|log| - 1], self) then log[|log| - 1].amount else 0
  }

  predicate PaysAway(e: Event, self: AccountId) { (e.Released? || e.ManuallyReleased?) && e.recipient != self }

  lemma FullAppend(log: seq<Event>, e: Event, self: AccountId)
    ensures DepositedInFull(log + [e]) == DepositedInFull(log) + if e.DepositMade? then e.amount else 0
    ensures PaidAway(log + [e], self) == PaidAway(log, self) + if PaysAway(e, self) then e.amount else 0
  {
    assert (log + [e])[..|log|] == log;
  }

  /**
   A chain that adds nothing to the contract's stake on its own: a transfer in touches only the hotkey named, a move keeps
   the contract's total, a pay-out is carried out to the letter, and nothing else touches the contract's stake.
   */
  ghost predicate ChainFair(s: State, step: Step) {
    match step
    case Outside(after) => forall k :: StakeOf(after, s.self, k) == StakeOf(s.ledger, s.self, k)
    case Call(env, _) =>
      && (forall q :: env.transfer(q).Done? ==> OnlyTouches(s.ledger, env.transfer(q).after, s.self, q.hotkey))
      && (forall q, v :: env.transfer(q).Done? && env.move(v).Done? ==>
            Total(env.move(v).after, s.self) == Total(env.transfer(q).after, s.self))
      && PaysExactly(s, env)
  }

  ghost predicate ChainFairRun(s: State, hash: bytes -> Hash, steps: seq<Step>)
    decreases |steps|
  {
    steps == [] ||
    (ChainFairRun(s, hash, steps[..|steps| - 1]) && ChainFair(Run(s, hash, steps[..|steps| - 1]), steps[|steps| - 1]))
  }

  /** The stake held and the stake paid away are no more than what there was at `start` and what was deposited. */
  ghost predicate Bounded(s: State, start: nat) {
    Total(s.ledger, s.self) + PaidAway(s.log, s.self) <= start + DepositedInFull(s.log)
  }

  lemma DepositBounded(s: State, env: Env, hash: bytes -> Hash, amount: u64, hotkey: AccountId, start: nat)
    requires Bounded(s, start) && ChainFair(s, Call(env, Deposit(amount, hotkey)))
    requires DoDeposit(s, env, hash, amount, hotkey).Ok?
    ensures Bounded(DoDeposit(s, env, hash, amount, hotkey).state, start)
  {
    var s' := DoDeposit(s, env, hash, amount, hotkey).state;
    var pulled := Pulled(s, env, amount, hotkey).after;
    var gain: int := amount;
    TotalMoves(pulled, s.ledger, s.self, hotkey, -gain);
    FullAppend(s.log, s'.log[|s.log|], s.self);
  }

  lemma PaidBounded(s: State, s': State, env: Env, e: Event, start: nat)
    requires Bounded(s, start) && s'.self == s.self && s'.log == s.log + [e] && (e.Released? || e.ManuallyReleased?)
    requires PaysExactly(s, env) && PaidTo(s, env, e.recipient, e.amount) == Done(s'.ledger)
    ensures Bounded(s', start)
  {
    var q := StakeTransfer(s.self, e.recipient, s.contractHotkey, s.chainId, e.amount);
    assert ExactTransfer(s.ledger, env.transfer(q).after, q);
    TotalMoves(s'.ledger, s.ledger, s.self, s.contractHotkey, if e.recipient == s.self then 0 else e.amount);
    FullAppend(s.log, e, s.self);
  }

  lemma AttestBounded(s: State, env: Env, hash: bytes -> Hash, id: Hash, recipient: AccountId, amount: u64, nonce: u64, start: nat)
    requires Bounded(s, start) && PaysExactly(s, env)
    requires DoAttest(s, env, hash, id, recipient, amount, nonce).Ok?
    ensures Bounded(DoAttest(s, env, hash, id, recipient, amount, nonce).state, start)
  {
    var s' := DoAttest(s, env, hash, id, recipient, amount, nonce).state;
    var w := VotedRecord(s, env, id, recipient, amount);
    var e := Voted(id, env.caller, s.guardians, recipient, amount);
    FullAppend(s.log, e, s.self);
    if |w.votes| >= s.threshold {
      PaidBounded(s.(log := s.log + [e]), s', env, Released(id, w.recipient, w.amount, s.threshold, w.votes, env.block), start);
    }
  }

  lemma ManualBounded(s: State, env: Env, recipient: AccountId, amount: u64, start: nat)
    requires Bounded(s, start) && PaysExactly(s, env)
    requires DoAdmin(s, env, AdminManualRelease(recipient, amount)).Ok?
    ensures Bounded(DoAdmin(s, env, AdminManualRelease(recipient, amount)).state, start)
  {
    PaidBounded(s, DoAdmin(s, env, AdminManualRelease(recipient, amount)).state, env, ManuallyReleased(recipient, amount), start);
  }

  lemma AdminBounded(s: State, env: Env, m: Message, start: nat)
    requires Bounded(s, start) && OwnerOnly(m) && PaysExactly(s, env)
    requires DoAdmin(s, env, m).Ok?
    ensures Bounded(DoAdmin(s, env, m).state, start)
  {
    if m.AdminManualRelease? {
      ManualBounded(s, env, m.recipient, m.amount, start);
    } else {
      var s' := DoAdmin(s, env, m).state;
      var e := s'.log[|s.log|];
      assert s'.log == s.log + [e] && s'.ledger == s.ledger;
      QuietBounded(s, s', e, start);
    }
  }

  lemma QuietBounded(s: State, s': State, e: Event, start: nat)
    requires Bounded(s, start) && s'.self == s.self && s'.ledger == s.ledger && s'.log == s.log + [e]
    requires !e.Released? && !e.ManuallyReleased?
    ensures Bounded(s', start)
  {
    FullAppend(s.log, e, s.self);
  }

  lemma CleanupBounded(s: State, env: Env, hash: bytes -> Hash, m: Message, start: nat)
    requires Bounded(s, start) && (m.CleanupDeposit? || m.CleanupWithdrawal?)
    requires Handle(s, env, hash, m).Ok?
    ensures Bounded(Handle(s, env, hash, m).state, start)
  {
    var e := if m.CleanupDeposit? then DepositCleaned(m.id) else WithdrawalCleaned(m.id, env.block, s.ttl);
    QuietBounded(s, Handle(s, env, hash, m).state, e, start);
  }

  lemma StepBounded(s: State, hash: bytes -> Hash, step: Step, start: nat)
    requires Bounded(s, start) && ChainFair(s, step)
    ensures Bounded(Apply(s, hash, step), start)
  {
    if step.Outside? {
      TotalMoves(step.after, s.ledger, s.self, s.contractHotkey, 0);
    } else if Handle(s, step.env, hash, step.message).Ok? {
      var env, m := step.env, step.message;
      if m.Deposit? {
        DepositBounded(s, env, hash, m.amount, m.hotkey, start);
      } else if m.AttestWithdrawal? {
        AttestBounded(s, env, hash, m.id, m.recipient, m.amount, m.nonce, start);
      } else if OwnerOnly(m) {
        AdminBounded(s, env, m, start);
      } else {
        CleanupBounded(s, env, hash, m, start);
      }
    }
  }

  /**
   Over every run on such a chain, from any contract without a history: what is held and what was paid to others is at
   most what was held at the start and what was deposited.
   */
  lemma {:induction false} RunBounded(s: State, hash: bytes -> Hash, steps: seq<Step>)
    requires s.log == [] && ChainFairRun(s, hash, steps)
    ensures Bounded(Run(s, hash, steps), Total(s.ledger, s.self))
    decreases |steps|
  {
    if steps != [] {
      RunBounded(s, hash, steps[..|steps| - 1]);
      StepBounded(Run(s, hash, steps[..|steps| - 1]), hash, steps[|steps| - 1], Total(s.ledger, s.self));
    }
  }
}
