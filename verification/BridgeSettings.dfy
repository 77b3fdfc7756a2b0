/** The configuration in force, and what every refusal says. */
module BridgeSettings {
  import opened ByteStrings
  import opened Bridge
  import opened BridgeVotes
  import opened BridgeIds
  import opened BridgeOrigins

  // -------- the setting in force is the latest one accepted --------

  datatype Setting =
    | OwnerIs(account: AccountId)
    | HotkeyIs(account: AccountId)
    | PausedIs(on: bool)
    | GuardiansAre(guardians: seq<AccountId>, threshold: u16)
    | MinimumIs(amount: u64)
    | TtlIs(blocks: u32)

  datatype Slot = OwnerSlot | HotkeySlot | PausedSlot | GuardiansSlot | MinimumSlot | TtlSlot

  function SlotOf(x: Setting): (k: Slot) {
    match x
    case OwnerIs(_) => OwnerSlot
    case HotkeyIs(_) => HotkeySlot
    case PausedIs(_) => PausedSlot
    case GuardiansAre(_, _) => GuardiansSlot
    case MinimumIs(_) => MinimumSlot
    case TtlIs(_) => TtlSlot
  }

  function InForce(s: State, k: Slot): (x: Setting)
    ensures SlotOf(x) == k
  {
    match k
    case OwnerSlot => OwnerIs(s.owner)
    case HotkeySlot => HotkeyIs(s.contractHotkey)
    case PausedSlot => PausedIs(s.paused)
    case GuardiansSlot => GuardiansAre(s.guardians, s.threshold)
    case MinimumSlot => MinimumIs(s.minDeposit)
    case TtlSlot => TtlIs(s.ttl)
  }

  /** The setting a message asks for, if it asks for one. */
  function Asked(m: Message): (x: Option<Setting>) {
    match m
    case UpdateOwner(owner) => Some(OwnerIs(owner))
    case SetContractHotkey(hotkey) => Some(HotkeyIs(hotkey))
    case Pause => Some(PausedIs(true))
    case Unpause => Some(PausedIs(false))
    case SetGuardians(guardians, threshold) => Some(GuardiansAre(guardians, threshold))
    case SetMinDeposit(amount) => Some(MinimumIs(amount))
    case SetCleanupTtl(ttl) => Some(TtlIs(ttl))
    case _ => None
  }

  predicate AsksFor(m: Message, k: Slot) { Asked(m).Some? && SlotOf(Asked(m).value) == k }

  lemma AdminSets(s: State, env: Env, m: Message, k: Slot)
    requires OwnerOnly(m) && DoAdmin(s, env, m).Ok?
    ensures InForce(DoAdmin(s, env, m).state, k) == if AsksFor(m, k) then Asked(m).value else InForce(s, k)
  {
  }

  lemma OthersSetNothing(s: State, env: Env, hash: bytes -> Hash, m: Message, k: Slot)
    requires !OwnerOnly(m) && Handle(s, env, hash, m).Ok?
    ensures InForce(Handle(s, env, hash, m).state, k) == InForce(s, k)
  {
    match m
    case Deposit(_, _) =>
    case AttestWithdrawal(_, _, _, _) =>
    case CleanupDeposit(_) =>
    case CleanupWithdrawal(_) =>
  }

  lemma StepSets(s: State, hash: bytes -> Hash, step: Step, k: Slot)
    ensures InForce(Apply(s, hash, step), k) ==
            if step.Call? && Handle(s, step.env, hash, step.message).Ok? && AsksFor(step.message, k) then Asked(step.message).value
            else InForce(s, k)
  {
    if step.Call? && Handle(s, step.env, hash, step.message).Ok? {
      if OwnerOnly(step.message) {
        AdminSets(s, step.env, step.message, k);
      } else {
        OthersSetNothing(s, step.env, hash, step.message, k);
      }
    }
  }

  /** Step `i` is an accepted message that asks for a setting of this slot. */
  ghost predicate SetAt(s: State, hash: bytes -> Hash, steps: seq<Step>, i: int, k: Slot) {
    AcceptedAt(s, hash, steps, i) && AsksFor(steps[i].message, k)
  }

  /**
   After every run, each setting is what the latest accepted message for it asked for, and what it was at the start if
   none was accepted.
   */
  lemma {:induction false} SettingIsLatest(s: State, hash: bytes -> Hash, steps: seq<Step>, k: Slot) returns (i: Option<nat>)
    ensures i.None? ==> InForce(Run(s, hash, steps), k) == InForce(s, k) && forall j :: !SetAt(s, hash, steps, j, k)
    ensures i.Some? ==>
              && SetAt(s, hash, steps, i.value, k) && InForce(Run(s, hash, steps), k) == Asked(steps[i.value].message).value
              && forall j :: j > i.value ==> !SetAt(s, hash, steps, j, k)
    decreases |steps|
  {
    if steps == [] {
      i := None;
    } else {
      var n := |steps| - 1;
      StepSets(Run(s, hash, steps[..n]), hash, steps[n], k);
      if SetAt(s, hash, steps, n, k) {
        i := Some(n);
      } else {
        i := SettingIsLatest(s, hash, steps[..n], k);
        forall j | 0 <= j < n ensures SetAt(s, hash, steps, j, k) <==> SetAt(s, hash, steps[..n], j, k) {
          PrefixOfPrefix(steps, j, n);
        }
      }
    }
  }

  /** What a fresh contract starts with. */
  lemma FreshSettings(self: AccountId, owner: AccountId, chainId: u16, hotkey: AccountId, ledger: Ledger)
    ensures var s := Init(self, owner, chainId, hotkey, ledger);
            && InForce(s, OwnerSlot) == OwnerIs(owner) && InForce(s, HotkeySlot) == HotkeyIs(hotkey)
            && InForce(s, PausedSlot) == PausedIs(false) && InForce(s, GuardiansSlot) == GuardiansAre([], 0)
            && InForce(s, MinimumSlot) == MinimumIs(1_000_000_000) && InForce(s, TtlSlot) == TtlIs(100_800)
            && s.deposits == map[] && s.nonceIndex == map[] && s.withdrawals == map[] && s.nextNonce == 0
            && s.self == self && s.chainId == chainId && s.ledger == ledger
  {
  }

  // -------- a refusal is true --------

  function AmountDue(s: State, m: Message): (n: nat)
    requires m.AttestWithdrawal?
  {
    if m.id in s.withdrawals then s.withdrawals[m.id].amount else m.amount
  }

  function RecipientDue(s: State, m: Message): (a: AccountId)
    requires m.AttestWithdrawal?
  {
    if m.id in s.withdrawals then s.withdrawals[m.id].recipient else m.recipient
  }

  /** This vote would reach the threshold, so the release is attempted. */
  predicate Reaches(s: State, m: Message)
    requires m.AttestWithdrawal?
  {
    (if m.id in s.withdrawals then |s.withdrawals[m.id].votes| else 0) + 1 >= s.threshold
  }

  /** The stake on the deposit's hotkey, once transferred, has to be moved and the chain refuses. */
  predicate MoveRefused(s: State, env: Env, m: Message)
    requires m.Deposit?
  {
    var pulled := env.transfer(StakeTransfer(env.caller, s.self, m.hotkey, s.chainId, m.amount));
    && m.hotkey != s.contractHotkey && pulled.Done?
    && var held := StakeOf(pulled.after, s.self, m.hotkey);
       held > 0 && env.move(StakeMove(m.hotkey, s.contractHotkey, s.chainId, held)).Refused?
  }

  /** A stake query the message makes is not answered. */
  predicate QueryFails(s: State, env: Env, m: Message) {
    || (m.Deposit? && (!({0, 1, 2, 3} !! env.failing) || (m.hotkey != s.contractHotkey && 4 in env.failing)))
    || (m.AttestWithdrawal? && Reaches(s, m) && 0 in env.failing)
  }

  /** What an error says about the state, the caller, the chain and the message. */
  ghost predicate Reason(e: Error, s: State, env: Env, hash: bytes -> Hash, m: Message) {
    match e
    case Unauthorized => env.caller != s.owner && OwnerOnly(m)
    case NotGuardian => env.caller !in s.guardians && (m.AttestWithdrawal? || m.CleanupDeposit? || m.CleanupWithdrawal?)
    case BridgePaused => s.paused && (m.Deposit? || m.AttestWithdrawal?)
    case AmountTooSmall => m.Deposit? && m.amount < s.minDeposit
    case InsufficientStake => m.Deposit? && StakeOf(s.ledger, env.caller, m.hotkey) < m.amount
    case RuntimeCallFailed => m.Deposit? && env.transfer(StakeTransfer(env.caller, s.self, m.hotkey, s.chainId, m.amount)).Refused?
    case TransferNotVerified =>
      m.Deposit? && var after := env.transfer(StakeTransfer(env.caller, s.self, m.hotkey, s.chainId, m.amount));
      && after.Done?
      && !(&& Moved(StakeOf(s.ledger, env.caller, m.hotkey), StakeOf(after.after, env.caller, m.hotkey), m.amount)
           && Moved(StakeOf(after.after, s.self, m.hotkey), StakeOf(s.ledger, s.self, m.hotkey), m.amount))
    case StakeConsolidationFailed => m.Deposit? && MoveRefused(s, env, m)
    case Overflow => m.Deposit? && s.nextNonce == 0xFFFF_FFFF_FFFF_FFFF
    case StakeQueryFailed => QueryFails(s, env, m)
    case InvalidRequestId => m.AttestWithdrawal? && hash(WithdrawalPreimage(m.recipient, m.amount, m.nonce)) != m.id
    case AlreadyVoted => m.AttestWithdrawal? && m.id in s.withdrawals && env.caller in s.withdrawals[m.id].votes
    case WithdrawalAlreadyFinalized =>
      (m.AttestWithdrawal? || m.AdminCancelWithdrawal?) && m.id in s.withdrawals && s.withdrawals[m.id].status != Pending
    case InsufficientContractStake => m.AttestWithdrawal? && Reaches(s, m) && StakeOf(s.ledger, s.self, s.contractHotkey) < AmountDue(s, m)
    case TransferFailed =>
      || (m.AttestWithdrawal? && Reaches(s, m)
          && env.transfer(StakeTransfer(s.self, RecipientDue(s, m), s.contractHotkey, s.chainId, AmountDue(s, m))).Refused?)
      || (m.AdminManualRelease? && env.transfer(StakeTransfer(s.self, m.recipient, s.contractHotkey, s.chainId, m.amount)).Refused?)
    case DepositRequestNotFound => (m.AdminFailDeposit? || m.CleanupDeposit?) && m.id !in s.deposits
    case DepositRequestAlreadyFinalized => m.AdminFailDeposit? && m.id in s.deposits && s.deposits[m.id].status == Failed
    case WithdrawalNotFound => (m.AdminCancelWithdrawal? || m.CleanupWithdrawal?) && m.id !in s.withdrawals
    case RecordNotFinalized => m.CleanupWithdrawal? && m.id in s.withdrawals && s.withdrawals[m.id].status == Pending
    case TTLNotExpired =>
      || (m.CleanupDeposit? && m.id in s.deposits && env.block < SatAdd32(s.deposits[m.id].createdAt, s.ttl))
      || (m.CleanupWithdrawal? && m.id in s.withdrawals && s.withdrawals[m.id].finalizedAt.Some?
          && env.block < SatAdd32(s.withdrawals[m.id].finalizedAt.value, s.ttl))
    case TooManyGuardians => m.SetGuardians? && |m.guardians| > 10
    case InvalidThresholds => m.SetGuardians? && (m.threshold == 0 || m.threshold > |m.guardians|)
    case InvalidTTL => m.SetCleanupTtl? && m.ttl == 0
  }

  lemma DepositRefusal(s: State, env: Env, hash: bytes -> Hash, amount: u64, hotkey: AccountId)
    requires DoDeposit(s, env, hash, amount, hotkey).Err?
    ensures Reason(DoDeposit(s, env, hash, amount, hotkey).error, s, env, hash, Deposit(amount, hotkey))
  {
    ScaledFits(amount);
  }

  lemma VoteRefusal(s: State, env: Env, hash: bytes -> Hash, id: Hash, recipient: AccountId, amount: u64, nonce: u64)
    requires DoAttest(s, env, hash, id, recipient, amount, nonce).Err?
    ensures Reason(DoAttest(s, env, hash, id, recipient, amount, nonce).error, s, env, hash, AttestWithdrawal(id, recipient, amount, nonce))
  {
  }

  lemma AdminRefusal(s: State, env: Env, hash: bytes -> Hash, m: Message)
    requires OwnerOnly(m) && DoAdmin(s, env, m).Err?
    ensures Reason(DoAdmin(s, env, m).error, s, env, hash, m)
  {
  }

  lemma DepositRefused(s: State, env: Env, hash: bytes -> Hash, amount: u64, hotkey: AccountId, e: Error)
    requires Reason(e, s, env, hash, Deposit(amount, hotkey))
    ensures DoDeposit(s, env, hash, amount, hotkey).Err?
  {
  }

  lemma VoteRefused(s: State, env: Env, hash: bytes -> Hash, id: Hash, recipient: AccountId, amount: u64, nonce: u64, e: Error)
    requires Reason(e, s, env, hash, AttestWithdrawal(id, recipient, amount, nonce))
    ensures DoAttest(s, env, hash, id, recipient, amount, nonce).Err?
  {
  }

  lemma AdminRefused(s: State, env: Env, hash: bytes -> Hash, m: Message, e: Error)
    requires OwnerOnly(m) && Reason(e, s, env, hash, m)
    ensures DoAdmin(s, env, m).Err?
  {
  }

  lemma RefusalIsTrue(hash: bytes -> Hash, s: State, env: Env, m: Message)
    requires Reachable(hash, s) && Handle(s, env, hash, m).Err?
    ensures Reason(Handle(s, env, hash, m).error, s, env, hash, m)
  {
    if m.Deposit? {
      DepositRefusal(s, env, hash, m.amount, m.hotkey);
    } else if m.AttestWithdrawal? {
      VoteRefusal(s, env, hash, m.id, m.recipient, m.amount, m.nonce);
    } else if OwnerOnly(m) {
      AdminRefusal(s, env, hash, m);
    } else if m.CleanupWithdrawal? {
      ReachableOk(hash, s);
      if m.id in s.withdrawals {
        assert RecordOk(m.id, s.withdrawals[m.id]);
      }
    }
  }

  /**
   In every reachable state a message is refused exactly when one of the reasons its errors stand for is true, and the
   error it is refused with is one that is true. So it is accepted exactly when none is.
   */
  lemma RefusedExactly(hash: bytes -> Hash, s: State, env: Env, m: Message)
    requires Reachable(hash, s)
    ensures Handle(s, env, hash, m).Err? <==> exists e :: Reason(e, s, env, hash, m)
    ensures Handle(s, env, hash, m).Err? ==> Reason(Handle(s, env, hash, m).error, s, env, hash, m)
  {
    if Handle(s, env, hash, m).Err? {
      RefusalIsTrue(hash, s, env, m);
    }
    forall e | Reason(e, s, env, hash, m) ensures Handle(s, env, hash, m).Err? {
      if m.Deposit? {
        DepositRefused(s, env, hash, m.amount, m.hotkey, e);
      } else if m.AttestWithdrawal? {
        VoteRefused(s, env, hash, m.id, m.recipient, m.amount, m.nonce, e);
      } else if OwnerOnly(m) {
        AdminRefused(s, env, hash, m, e);
      }
    }
  }
}
