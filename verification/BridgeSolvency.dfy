/**
 Conservation over every run: the stake the contract holds, over all hotkeys, is at least what was deposited, less the
 transfer tolerance per deposit, less everything released.
 */
module BridgeSolvency {
  import opened ByteStrings
  import opened Bridge

  // -------- the contract's total stake --------

  /** The stake of `c` summed over the hotkeys in `ks`. */
  ghost function SumOver(l: Ledger, c: AccountId, ks: set<AccountId>): (n: nat)
    decreases |ks|
  {
    if ks == {} then 0 else
      var k :| k in ks;
      StakeOf(l, c, k) + SumOver(l, c, ks - {k})
  }

  /** It does not matter which hotkey is taken out first. */
  lemma {:induction false} SumPick(l: Ledger, c: AccountId, ks: set<AccountId>, k: AccountId)
    requires k in ks
    ensures SumOver(l, c, ks) == StakeOf(l, c, k) + SumOver(l, c, ks - {k})
    decreases |ks|
  {
    var first :| first in ks && SumOver(l, c, ks) == StakeOf(l, c, first) + SumOver(l, c, ks - {first});
    if first != k {
      SumPick(l, c, ks - {first}, k);
      SumPick(l, c, ks - {k}, first);
      assert ks - {first} - {k} == ks - {k} - {first};
    }
  }

  ghost function Hotkeys(l: Ledger, c: AccountId): (ks: set<AccountId>) {
    set p | p in l && p.0 == c :: p.1
  }

  ghost function Total(l: Ledger, c: AccountId): (n: nat) {
    SumOver(l, c, Hotkeys(l, c))
  }

  /** Hotkeys without stake may be added to the range of the sum. */
  lemma {:induction false} SumWiden(l: Ledger, c: AccountId, ks: set<AccountId>, more: set<AccountId>)
    requires ks <= more
    requires forall k :: k in more && k !in ks ==> StakeOf(l, c, k) == 0
    ensures SumOver(l, c, more) == SumOver(l, c, ks)
    decreases |more - ks|
  {
    if ks != more {
      var k :| k in more && k !in ks;
      SumPick(l, c, more, k);
      assert more - {k} - ks == more - ks - {k};
      SumWiden(l, c, ks, more - {k});
    }
  }

  lemma TotalOver(l: Ledger, c: AccountId, ks: set<AccountId>)
    requires Hotkeys(l, c) <= ks
    ensures Total(l, c) == SumOver(l, c, ks)
  {
    forall k | k in ks && k !in Hotkeys(l, c) ensures StakeOf(l, c, k) == 0 {
      assert (c, k) in l ==> k in Hotkeys(l, c);
    }
    SumWiden(l, c, Hotkeys(l, c), ks);
  }

  /** If no hotkey loses stake but `h`, which changes by at least `change`, the sum changes by at least `change`. */
  lemma {:induction false} SumMoves(l: Ledger, l': Ledger, c: AccountId, ks: set<AccountId>, h: AccountId, change: int)
    requires forall k :: k != h ==> StakeOf(l', c, k) >= StakeOf(l, c, k)
    requires h in ks ==> StakeOf(l', c, h) >= StakeOf(l, c, h) + change
    ensures SumOver(l', c, ks) >= SumOver(l, c, ks) + if h in ks then change else 0
    decreases |ks|
  {
    if ks != {} {
      var k :| k in ks;
      SumPick(l, c, ks, k);
      SumPick(l', c, ks, k);
      SumMoves(l, l', c, ks - {k}, h, change);
    }
  }

  lemma TotalMoves(l: Ledger, l': Ledger, c: AccountId, h: AccountId, change: int)
    requires forall k :: k != h ==> StakeOf(l', c, k) >= StakeOf(l, c, k)
    requires StakeOf(l', c, h) >= StakeOf(l, c, h) + change
    ensures Total(l', c) >= Total(l, c) + change
  {
    var ks := Hotkeys(l, c) + Hotkeys(l', c) + {h};
    TotalOver(l, c, ks);
    TotalOver(l', c, ks);
    SumMoves(l, l', c, ks, h, change);
  }

  /** All of it on one hotkey. */
  ghost predicate OnlyOn(l: Ledger, c: AccountId, h: AccountId) {
    forall k :: k != h ==> StakeOf(l, c, k) == 0
  }

  lemma TotalOnOne(l: Ledger, c: AccountId, h: AccountId)
    requires OnlyOn(l, c, h)
    ensures Total(l, c) == StakeOf(l, c, h)
  {
    TotalOver(l, c, Hotkeys(l, c) + {h});
    SumWiden(l, c, {h}, Hotkeys(l, c) + {h});
    SumPick(l, c, {h}, h);
    assert {h} - {h} == {};
  }

  // -------- the account kept by the log --------

  function Deposited(log: seq<Event>): (n: nat)
    decreases |log|
  {
    if log == [] then 0
    else
      var last := log[|log| - 1];
      Deposited(log[..|log| - 1]) + if last.DepositMade? then SatSub(last.amount, TRANSFER_TOLERANCE) else 0
  }

  function PaidOut(log: seq<Event>): (n: nat)
    decreases |log|
  {
    if log == [] then 0
    else
      var last := log[|log| - 1];
      PaidOut(log[..|log| - 1]) + if last.Released? || last.ManuallyReleased? then last.amount else 0
  }

  lemma AccountAppend(log: seq<Event>, e: Event)
    ensures Deposited(log + [e]) == Deposited(log) + if e.DepositMade? then SatSub(e.amount, TRANSFER_TOLERANCE) else 0
    ensures PaidOut(log + [e]) == PaidOut(log) + if e.Released? || e.ManuallyReleased? then e.amount else 0
  {
    assert (log + [e])[..|log|] == log;
  }

  // -------- a chain that takes nothing but what it was asked to --------

  /** `l'` takes nothing from `c`. */
  ghost predicate NoDebit(l: Ledger, l': Ledger, c: AccountId) {
    forall k :: StakeOf(l', c, k) >= StakeOf(l, c, k)
  }

  /** `l'` takes at most `amount` from `c`, all from hotkey `h`. */
  ghost predicate DebitAtMost(l: Ledger, l': Ledger, c: AccountId, h: AccountId, amount: nat) {
    && (forall k :: k != h ==> StakeOf(l', c, k) >= StakeOf(l, c, k))
    && StakeOf(l', c, h) >= StakeOf(l, c, h) - amount
  }

  /**
   The chain's part: a transfer to the contract takes nothing from it, a transfer from it takes at most the amount
   asked, from the hotkey asked, a move between its hotkeys keeps its total, and nobody else debits the contract.
   */
  ghost predicate ChainOk(s: State, step: Step) {
    match step
    case Outside(after) => NoDebit(s.ledger, after, s.self)
    case Call(env, _) =>
      && (forall q :: env.transfer(q).Done? ==>
            if q.destination == s.self then NoDebit(s.ledger, env.transfer(q).after, s.self)
            else q.origin == s.self ==> DebitAtMost(s.ledger, env.transfer(q).after, s.self, q.hotkey, q.amount))
      && (forall q, v :: env.transfer(q).Done? && env.move(v).Done? ==>
            Total(env.move(v).after, s.self) == Total(env.transfer(q).after, s.self))
  }

  ghost predicate ChainOkRun(s: State, hash: bytes -> Hash, steps: seq<Step>)
    decreases |steps|
  {
    steps == [] ||
    (ChainOkRun(s, hash, steps[..|steps| - 1]) && ChainOk(Run(s, hash, steps[..|steps| - 1]), steps[|steps| - 1]))
  }

  // -------- solvency --------

  /** Every deposit verified and not paid out is still there. */
  ghost predicate Solvent(s: State) {
    Total(s.ledger, s.self) + PaidOut(s.log) >= Deposited(s.log)
  }

  lemma DepositSolvent(s: State, env: Env, hash: bytes -> Hash, amount: u64, hotkey: AccountId)
    requires Solvent(s) && ChainOk(s, Call(env, Deposit(amount, hotkey)))
    requires DoDeposit(s, env, hash, amount, hotkey).Ok?
    ensures Solvent(DoDeposit(s, env, hash, amount, hotkey).state)
  {
    var s' := DoDeposit(s, env, hash, amount, hotkey).state;
    TotalMoves(s.ledger, Pulled(s, env, amount, hotkey).after, s.self, hotkey, SatSub(amount, TRANSFER_TOLERANCE));
    AccountAppend(s.log, s'.log[|s.log|]);
  }

  lemma PaidSolvent(s: State, s': State, e: Event)
    requires Solvent(s) && s'.self == s.self && s'.log == s.log + [e]
    requires e.Released? || e.ManuallyReleased?
    requires DebitAtMost(s.ledger, s'.ledger, s.self, s.contractHotkey, e.amount)
    ensures Solvent(s')
  {
    var out: int := e.amount;
    TotalMoves(s.ledger, s'.ledger, s.self, s.contractHotkey, -out);
    AccountAppend(s.log, e);
  }

  lemma VoteSolvent(s: State, s': State, e: Event, r: Event)
    requires Solvent(s) && s'.self == s.self && e.Voted? && r.Released?
    requires (s'.log == s.log + [e] && s'.ledger == s.ledger)
             || (s'.log == s.log + [e] + [r] && DebitAtMost(s.ledger, s'.ledger, s.self, s.contractHotkey, r.amount))
    ensures Solvent(s')
  {
    AccountAppend(s.log, e);
    if s'.log != s.log + [e] {
      PaidSolvent(s.(log := s.log + [e]), s', r);
    }
  }

  lemma AttestSolvent(s: State, env: Env, hash: bytes -> Hash, id: Hash, recipient: AccountId, amount: u64, nonce: u64)
    requires Solvent(s) && ChainOk(s, Call(env, AttestWithdrawal(id, recipient, amount, nonce)))
    requires DoAttest(s, env, hash, id, recipient, amount, nonce).Ok?
    ensures Solvent(DoAttest(s, env, hash, id, recipient, amount, nonce).state)
  {
    var w := VotedRecord(s, env, id, recipient, amount);
    VoteSolvent(s, DoAttest(s, env, hash, id, recipient, amount, nonce).state, Voted(id, env.caller, s.guardians, recipient, amount),
                Released(id, w.recipient, w.amount, s.threshold, w.votes, env.block));
  }

  lemma AdminSolvent(s: State, env: Env, m: Message)
    requires Solvent(s) && OwnerOnly(m) && ChainOk(s, Call(env, m))
    requires DoAdmin(s, env, m).Ok?
    ensures Solvent(DoAdmin(s, env, m).state)
  {
    var s' := DoAdmin(s, env, m).state;
    var e := s'.log[|s.log|];
    assert s'.log == s.log + [e];
    if m.AdminManualRelease? {
      PaidSolvent(s, s', e);
    } else {
      AccountAppend(s.log, e);
    }
  }

  lemma CleanupSolvent(s: State, env: Env, hash: bytes -> Hash, m: Message)
    requires Solvent(s) && (m.CleanupDeposit? || m.CleanupWithdrawal?)
    requires Handle(s, env, hash, m).Ok?
    ensures Solvent(Handle(s, env, hash, m).state)
  {
    AccountAppend(s.log, if m.CleanupDeposit? then DepositCleaned(m.id) else WithdrawalCleaned(m.id, env.block, s.ttl));
  }

  lemma StepSolvent(s: State, hash: bytes -> Hash, step: Step)
    requires Solvent(s) && ChainOk(s, step)
    ensures Solvent(Apply(s, hash, step))
  {
    if step.Outside? {
      TotalMoves(s.ledger, step.after, s.self, s.contractHotkey, 0);
    } else if Handle(s, step.env, hash, step.message).Ok? {
      var env, m := step.env, step.message;
      if m.Deposit? {
        DepositSolvent(s, env, hash, m.amount, m.hotkey);
      } else if m.AttestWithdrawal? {
        AttestSolvent(s, env, hash, m.id, m.recipient, m.amount, m.nonce);
      } else if OwnerOnly(m) {
        AdminSolvent(s, env, m);
      } else {
        CleanupSolvent(s, env, hash, m);
      }
    }
  }

  /** From a fresh contract on such a chain, every run keeps the contract solvent. */
  lemma FreshStaysSolvent(self: AccountId, owner: AccountId, chainId: u16, hotkey: AccountId, ledger: Ledger, hash: bytes -> Hash, steps: seq<Step>)
    requires ChainOkRun(Init(self, owner, chainId, hotkey, ledger), hash, steps)
    ensures Solvent(Init(self, owner, chainId, hotkey, ledger))
    ensures Solvent(Run(Init(self, owner, chainId, hotkey, ledger), hash, steps))
  {
    RunSolvent(Init(self, owner, chainId, hotkey, ledger), hash, steps);
  }

  /** In every run on such a chain, whatever the hotkeys and guardians become, the contract stays solvent. */
  lemma {:induction false} RunSolvent(s: State, hash: bytes -> Hash, steps: seq<Step>)
    requires Solvent(s) && ChainOkRun(s, hash, steps)
    ensures Solvent(Run(s, hash, steps))
    decreases |steps|
  {
    if steps != [] {
      RunSolvent(s, hash, steps[..|steps| - 1]);
      StepSolvent(Run(s, hash, steps[..|steps| - 1]), hash, steps[|steps| - 1]);
    }
  }

  // -------- and all of it where it can be paid from --------

  /**
   A chain that does what it was asked and no more: a transfer touches the contract's stake only on the hotkey named, a
   move is carried out to the letter, and nothing else touches the contract's stake.
   */
  ghost predicate ChainExact(s: State, step: Step) {
    match step
    case Outside(after) => forall k :: StakeOf(after, s.self, k) == StakeOf(s.ledger, s.self, k)
    case Call(env, m) =>
      && !m.SetContractHotkey?
      && (forall q :: env.transfer(q).Done? ==> OnlyTouches(s.ledger, env.transfer(q).after, s.self, q.hotkey))
      && (forall q, v :: env.transfer(q).Done? && env.move(v).Done? ==> ExactMove(env.transfer(q).after, env.move(v).after, s.self, v))
  }

  /** Of the stakes of `c`, at most the one on `h` changed. */
  ghost predicate OnlyTouches(l: Ledger, l': Ledger, c: AccountId, h: AccountId) {
    forall k :: k != h ==> StakeOf(l', c, k) == StakeOf(l, c, k)
  }

  /** The move was carried out to the letter. */
  ghost predicate ExactMove(l: Ledger, l': Ledger, c: AccountId, v: StakeMove) {
    forall k :: StakeOf(l', c, k) == StakeOf(l, c, k) + (if k == v.destination then v.amount else 0) - (if k == v.origin then v.amount else 0)
  }

  ghost predicate ChainExactRun(s: State, hash: bytes -> Hash, steps: seq<Step>)
    decreases |steps|
  {
    steps == [] ||
    (ChainExactRun(s, hash, steps[..|steps| - 1]) && ChainExact(Run(s, hash, steps[..|steps| - 1]), steps[|steps| - 1]))
  }

  ghost predicate AllOnHotkey(s: State) { OnlyOn(s.ledger, s.self, s.contractHotkey) }

  lemma StepConsolidated(s: State, hash: bytes -> Hash, step: Step)
    requires AllOnHotkey(s) && ChainExact(s, step)
    ensures AllOnHotkey(Apply(s, hash, step))
  {
    if step.Call? && Handle(s, step.env, hash, step.message).Ok? {
      var env, m := step.env, step.message;
      if m.Deposit? {
        DepositConsolidated(s, env, hash, m.amount, m.hotkey);
      } else if m.AttestWithdrawal? {
        AttestConsolidated(s, env, hash, m.id, m.recipient, m.amount, m.nonce);
      } else if OwnerOnly(m) {
        AdminConsolidated(s, env, m);
      }
    }
  }

  lemma DepositConsolidated(s: State, env: Env, hash: bytes -> Hash, amount: u64, hotkey: AccountId)
    requires AllOnHotkey(s) && ChainExact(s, Call(env, Deposit(amount, hotkey)))
    requires DoDeposit(s, env, hash, amount, hotkey).Ok?
    ensures AllOnHotkey(DoDeposit(s, env, hash, amount, hotkey).state)
  {
  }

  lemma AttestConsolidated(s: State, env: Env, hash: bytes -> Hash, id: Hash, recipient: AccountId, amount: u64, nonce: u64)
    requires AllOnHotkey(s) && ChainExact(s, Call(env, AttestWithdrawal(id, recipient, amount, nonce)))
    requires DoAttest(s, env, hash, id, recipient, amount, nonce).Ok?
    ensures AllOnHotkey(DoAttest(s, env, hash, id, recipient, amount, nonce).state)
  {
  }

  lemma AdminConsolidated(s: State, env: Env, m: Message)
    requires AllOnHotkey(s) && ChainExact(s, Call(env, m)) && OwnerOnly(m)
    requires DoAdmin(s, env, m).Ok?
    ensures AllOnHotkey(DoAdmin(s, env, m).state)
  {
  }

  lemma {:induction false} RunConsolidated(s: State, hash: bytes -> Hash, steps: seq<Step>)
    requires AllOnHotkey(s) && ChainExactRun(s, hash, steps)
    ensures AllOnHotkey(Run(s, hash, steps))
    decreases |steps|
  {
    if steps != [] {
      RunConsolidated(s, hash, steps[..|steps| - 1]);
      StepConsolidated(Run(s, hash, steps[..|steps| - 1]), hash, steps[|steps| - 1]);
    }
  }

  /**
   While the contract's hotkey is not changed and nobody else touches the contract's stake, all of it sits on that
   hotkey, so the stake a release can be paid from covers everything deposited and not paid out.
   */
  lemma PayableFromHotkey(s: State, hash: bytes -> Hash, steps: seq<Step>)
    requires Solvent(s) && ChainOkRun(s, hash, steps)
    requires AllOnHotkey(s) && ChainExactRun(s, hash, steps)
    ensures var t := Run(s, hash, steps);
            AllOnHotkey(t) && StakeOf(t.ledger, t.self, t.contractHotkey) + PaidOut(t.log) >= Deposited(t.log)
  {
    RunSolvent(s, hash, steps);
    RunConsolidated(s, hash, steps);
    var t := Run(s, hash, steps);
    TotalOnOne(t.ledger, t.self, t.contractHotkey);
  }
}
