/**
 The guardian bridge contract: what each message does to the contract's storage and to the stake ledger.
 A message that returns an error leaves everything as it was.
 */
module Bridge {
  import opened ByteStrings

  type u16 = n: int | 0 <= n < 0x1_0000
  type u32 = n: int | 0 <= n < 0x1_0000_0000
  type u64 = n: int | 0 <= n < 0x1_0000_0000_0000_0000

  const DOMAIN_DEPOSIT_REQUEST := Ascii("DEPOSIT_REQUEST-V1")
  const DOMAIN_WITHDRAWAL_REQUEST := Ascii("WITHDRAWAL_REQUEST-V1")
  const HALPHA_RAO_PER_ALPHA_RAO: nat := 1_000_000_000
  const MAX_GUARDIANS: nat := 10
  const TRANSFER_TOLERANCE: nat := 10
  const MAX_U32: u32 := 0xFFFF_FFFF
  const MAX_U64: u64 := 0xFFFF_FFFF_FFFF_FFFF

  // -------- records --------

  datatype DepositStatus = Requested | Failed

  datatype DepositRequest = DepositRequest(
    sender: AccountId, recipient: AccountId, amount: u64, nonce: u64, hotkey: AccountId, netuid: u16,
    status: DepositStatus, createdAt: u32)

  datatype WithdrawalStatus = Pending | Completed | Cancelled

  datatype Withdrawal = Withdrawal(
    requestId: Hash, recipient: AccountId, amount: u64, votes: seq<AccountId>, status: WithdrawalStatus,
    createdAt: u32, finalizedAt: Option<u32>)

  /** Stake per (coldkey, hotkey); no entry means none. */
  type Ledger = map<(AccountId, AccountId), nat>

  function StakeOf(l: Ledger, coldkey: AccountId, hotkey: AccountId): (n: nat) {
    if (coldkey, hotkey) in l then l[(coldkey, hotkey)] else 0
  }

  /** What the contract did, in order, with the guardian set and threshold in force at the time. */
  datatype Event =
    | DepositMade(id: Hash, sender: AccountId, amount: u64, nonce: u64)
    | Voted(id: Hash, guardian: AccountId, guardians: seq<AccountId>, recipient: AccountId, amount: u64)
    | Released(id: Hash, recipient: AccountId, amount: u64, threshold: nat, votes: seq<AccountId>, block: u32)
    | ManuallyReleased(recipient: AccountId, amount: u64)
    | DepositFailed(id: Hash)
    | WithdrawalCancelled(id: Hash)
    | DepositCleaned(id: Hash)
    | WithdrawalCleaned(id: Hash, block: u32, ttl: u32)
    | Configured

  datatype State = State(
    self: AccountId, owner: AccountId, chainId: u16, contractHotkey: AccountId, paused: bool,
    guardians: seq<AccountId>, threshold: u16, minDeposit: u64, nextNonce: u64,
    deposits: map<Hash, DepositRequest>, nonceIndex: map<u64, Hash>, withdrawals: map<Hash, Withdrawal>, ttl: u32,
    ledger: Ledger,
    hashed: set<bytes>,   // every preimage hashed by a message that took effect
    log: seq<Event>)

  function Init(self: AccountId, owner: AccountId, chainId: u16, hotkey: AccountId, ledger: Ledger): (s: State) {
    State(self, owner, chainId, hotkey, false, [], 0, 1_000_000_000, 0, map[], map[], map[], 100_800, ledger, {}, [])
  }

  // -------- messages --------

  datatype Error =
    | Unauthorized | NotGuardian | AlreadyVoted | InsufficientStake | TransferNotVerified | InsufficientContractStake
    | AmountTooSmall | InvalidThresholds | TooManyGuardians | InvalidTTL | BridgePaused | DepositRequestNotFound
    | WithdrawalNotFound | DepositRequestAlreadyFinalized | WithdrawalAlreadyFinalized | Overflow | RuntimeCallFailed
    | StakeQueryFailed | TransferFailed | StakeConsolidationFailed | InvalidRequestId | RecordNotFinalized | TTLNotExpired

  /** The chain's answer to a call that moves stake. */
  datatype CallResult = Refused | Done(after: Ledger)

  /** A request to give stake on a hotkey from one coldkey to another. */
  datatype StakeTransfer = StakeTransfer(origin: AccountId, destination: AccountId, hotkey: AccountId, netuid: u16, amount: nat)

  /** A request to move the contract's own stake between hotkeys. */
  datatype StakeMove = StakeMove(origin: AccountId, destination: AccountId, netuid: u16, amount: nat)

  /** Who calls, when, and how the chain answers: queries that fail (by position), and the answer to every request. */
  datatype Env = Env(caller: AccountId, block: u32, failing: set<nat>, transfer: StakeTransfer -> CallResult, move: StakeMove -> CallResult)

  datatype Message =
    | Deposit(amount: u64, hotkey: AccountId)
    | AttestWithdrawal(id: Hash, recipient: AccountId, amount: u64, nonce: u64)
    | AdminFailDeposit(id: Hash)
    | AdminManualRelease(recipient: AccountId, amount: u64)
    | AdminCancelWithdrawal(id: Hash)
    | SetGuardians(guardians: seq<AccountId>, threshold: u16)
    | Pause
    | Unpause
    | UpdateOwner(owner: AccountId)
    | SetContractHotkey(hotkey: AccountId)
    | CleanupDeposit(id: Hash)
    | CleanupWithdrawal(id: Hash)
    | SetCleanupTtl(ttl: u32)
    | SetMinDeposit(amount: u64)

  datatype Outcome = Err(error: Error) | Ok(id: Option<Hash>, state: State)

  function SatSub(a: nat, b: nat): (r: nat) { if a >= b then a - b else 0 }

  function SatAdd32(a: u32, b: u32): (r: u32) { if a + b <= MAX_U32 then a + b else MAX_U32 }

  function DepositPreimage(sender: AccountId, amount: u64, nonce: u64): (p: bytes) {
    DOMAIN_DEPOSIT_REQUEST + (sender + (LittleEndian(amount * HALPHA_RAO_PER_ALPHA_RAO, 16) + LittleEndian(nonce, 8)))
  }

  function WithdrawalPreimage(recipient: AccountId, amount: u64, nonce: u64): (p: bytes) {
    DOMAIN_WITHDRAWAL_REQUEST + (recipient + (LittleEndian(amount, 16) + LittleEndian(nonce, 8)))
  }

  /** The change of a balance across a transfer is within the tolerance below the amount. */
  predicate WithinTolerance(change: nat, amount: nat) {
    SatSub(amount, TRANSFER_TOLERANCE) <= change <= amount
  }

  /** Both sides of the observed transfer are within tolerance. */
  predicate TransferVerified(before: Ledger, after: Ledger, sender: AccountId, self: AccountId, hotkey: AccountId, amount: nat) {
    && WithinTolerance(SatSub(StakeOf(before, sender, hotkey), StakeOf(after, sender, hotkey)), amount)
    && WithinTolerance(SatSub(StakeOf(after, self, hotkey), StakeOf(before, self, hotkey)), amount)
  }

  /** The answer to a deposit's transfer, made for the caller by proxy. */
  function Pulled(s: State, env: Env, amount: u64, hotkey: AccountId): (r: CallResult) {
    env.transfer(StakeTransfer(env.caller, s.self, hotkey, s.chainId, amount))
  }

  /** The answer to a pay-out from the contract's hotkey. */
  function PaidTo(s: State, env: Env, recipient: AccountId, amount: u64): (r: CallResult) {
    env.transfer(StakeTransfer(s.self, recipient, s.contractHotkey, s.chainId, amount))
  }

  /** Why the caller's stake could not be transferred in, if so. */
  function PullError(s: State, env: Env, amount: u64, hotkey: AccountId): (e: Option<Error>)
    ensures e.None? ==> Pulled(s, env, amount, hotkey).Done?
  {
    if 0 in env.failing then Some(StakeQueryFailed)
    else if StakeOf(s.ledger, env.caller, hotkey) < amount then Some(InsufficientStake)
    else if 1 in env.failing then Some(StakeQueryFailed)
    else if Pulled(s, env, amount, hotkey).Refused? then Some(RuntimeCallFailed)
    else if 2 in env.failing || 3 in env.failing then Some(StakeQueryFailed)
    else if !TransferVerified(s.ledger, Pulled(s, env, amount, hotkey).after, env.caller, s.self, hotkey, amount) then Some(TransferNotVerified)
    else None
  }

  /** The ledger once stake received on another hotkey has been moved to the contract's own, or the error. */
  function Consolidated(s: State, env: Env, hotkey: AccountId, received: Ledger): (r: (Option<Error>, Ledger)) {
    var moved := env.move(StakeMove(hotkey, s.contractHotkey, s.chainId, StakeOf(received, s.self, hotkey)));
    if hotkey == s.contractHotkey then (None, received)
    else if 4 in env.failing then (Some(StakeQueryFailed), received)
    else if StakeOf(received, s.self, hotkey) == 0 then (None, received)
    else if moved.Refused? then (Some(StakeConsolidationFailed), received)
    else (None, moved.after)
  }

  /** Records a deposit whose stake has arrived. */
  function RecordDeposit(s: State, env: Env, hash: bytes -> Hash, amount: u64, hotkey: AccountId): (r: Outcome) {
    if s.nextNonce == MAX_U64 then Err(Overflow)
    else if amount * HALPHA_RAO_PER_ALPHA_RAO >= TWO_128 then Err(Overflow)
    else
      var preimage := DepositPreimage(env.caller, amount, s.nextNonce);
      var id := hash(preimage);
      var request := DepositRequest(env.caller, env.caller, amount, s.nextNonce, hotkey, s.chainId, Requested, env.block);
      Ok(Some(id), s.(nextNonce := s.nextNonce + 1, deposits := s.deposits[id := request],
                      nonceIndex := s.nonceIndex[s.nextNonce := id],
                      hashed := s.hashed + {preimage},
                      log := s.log + [DepositMade(id, env.caller, amount, s.nextNonce)]))
  }

  function DoDeposit(s: State, env: Env, hash: bytes -> Hash, amount: u64, hotkey: AccountId): (r: Outcome) {
    if s.paused then Err(BridgePaused)
    else if amount < s.minDeposit then Err(AmountTooSmall)
    else
      match PullError(s, env, amount, hotkey)
      case Some(e) => Err(e)
      case None =>
        match Consolidated(s, env, hotkey, Pulled(s, env, amount, hotkey).after)
        case (Some(e), _) => Err(e)
        case (None, ledger) => RecordDeposit(s.(ledger := ledger), env, hash, amount, hotkey)
  }

  /** The record an accepted vote leads to, before the threshold is looked at. */
  function VotedRecord(s: State, env: Env, id: Hash, recipient: AccountId, amount: u64): (w: Withdrawal) {
    if id in s.withdrawals then s.withdrawals[id].(votes := s.withdrawals[id].votes + [env.caller])
    else Withdrawal(id, recipient, amount, [env.caller], Pending, env.block, None)
  }

  function DoAttest(s: State, env: Env, hash: bytes -> Hash, id: Hash, recipient: AccountId, amount: u64, nonce: u64): (r: Outcome) {
    if s.paused then Err(BridgePaused)
    else if env.caller !in s.guardians then Err(NotGuardian)
    else if hash(WithdrawalPreimage(recipient, amount, nonce)) != id then Err(InvalidRequestId)
    else if id in s.withdrawals && s.withdrawals[id].status != Pending then Err(WithdrawalAlreadyFinalized)
    else if id in s.withdrawals && env.caller in s.withdrawals[id].votes then Err(AlreadyVoted)
    else
      var w := VotedRecord(s, env, id, recipient, amount);
      var s' := s.(hashed := s.hashed + {WithdrawalPreimage(recipient, amount, nonce)},
                   log := s.log + [Voted(id, env.caller, s.guardians, recipient, amount)]);
      if |w.votes| >= s.threshold then Finalize(s', env, id, w)
      else Ok(None, s'.(withdrawals := s'.withdrawals[id := w]))
  }

  function Finalize(s: State, env: Env, id: Hash, w: Withdrawal): (r: Outcome) {
    if 0 in env.failing then Err(StakeQueryFailed)
    else if StakeOf(s.ledger, s.self, s.contractHotkey) < w.amount then Err(InsufficientContractStake)
    else if PaidTo(s, env, w.recipient, w.amount).Refused? then Err(TransferFailed)
    else Ok(None, s.(ledger := PaidTo(s, env, w.recipient, w.amount).after,
                     withdrawals := s.withdrawals[id := w.(status := Completed, finalizedAt := Some(env.block))],
                     log := s.log + [Released(id, w.recipient, w.amount, s.threshold, w.votes, env.block)]))
  }

  /** Messages only the owner may send. */
  predicate OwnerOnly(m: Message) {
    !m.Deposit? && !m.AttestWithdrawal? && !m.CleanupDeposit? && !m.CleanupWithdrawal?
  }

  function DoAdmin(s: State, env: Env, m: Message): (r: Outcome)
    requires OwnerOnly(m)
  {
    if env.caller != s.owner then Err(Unauthorized)
    else
      match m
      case AdminFailDeposit(id) =>
        if id !in s.deposits then Err(DepositRequestNotFound)
        else if s.deposits[id].status != Requested then Err(DepositRequestAlreadyFinalized)
        else Ok(None, s.(deposits := s.deposits[id := s.deposits[id].(status := Failed)], log := s.log + [DepositFailed(id)]))
      case AdminManualRelease(recipient, amount) =>
        if PaidTo(s, env, recipient, amount).Refused? then Err(TransferFailed)
        else Ok(None, s.(ledger := PaidTo(s, env, recipient, amount).after, log := s.log + [ManuallyReleased(recipient, amount)]))
      case AdminCancelWithdrawal(id) =>
        if id !in s.withdrawals then Err(WithdrawalNotFound)
        else if s.withdrawals[id].status != Pending then Err(WithdrawalAlreadyFinalized)
        else Ok(None, s.(withdrawals := s.withdrawals[id := s.withdrawals[id].(status := Cancelled, finalizedAt := Some(env.block))],
                         log := s.log + [WithdrawalCancelled(id)]))
      case SetGuardians(guardians, threshold) =>
        if |guardians| > MAX_GUARDIANS then Err(TooManyGuardians)
        else if threshold > |guardians| || threshold == 0 then Err(InvalidThresholds)
        else Ok(None, s.(guardians := guardians, threshold := threshold, log := s.log + [Configured]))
      case Pause => Ok(None, s.(paused := true, log := s.log + [Configured]))
      case Unpause => Ok(None, s.(paused := false, log := s.log + [Configured]))
      case UpdateOwner(owner) => Ok(None, s.(owner := owner, log := s.log + [Configured]))
      case SetContractHotkey(hotkey) => Ok(None, s.(contractHotkey := hotkey, log := s.log + [Configured]))
      case SetCleanupTtl(ttl) =>
        if ttl == 0 then Err(InvalidTTL) else Ok(None, s.(ttl := ttl, log := s.log + [Configured]))
      case SetMinDeposit(amount) => Ok(None, s.(minDeposit := amount, log := s.log + [Configured]))
  }

  function DoCleanupDeposit(s: State, env: Env, id: Hash): (r: Outcome) {
    if env.caller !in s.guardians then Err(NotGuardian)
    else if id !in s.deposits then Err(DepositRequestNotFound)
    else if env.block < SatAdd32(s.deposits[id].createdAt, s.ttl) then Err(TTLNotExpired)
    else Ok(None, s.(deposits := s.deposits - {id}, nonceIndex := s.nonceIndex - {s.deposits[id].nonce},
                     log := s.log + [DepositCleaned(id)]))
  }

  function DoCleanupWithdrawal(s: State, env: Env, id: Hash): (r: Outcome) {
    if env.caller !in s.guardians then Err(NotGuardian)
    else if id !in s.withdrawals then Err(WithdrawalNotFound)
    else if s.withdrawals[id].status == Pending || s.withdrawals[id].finalizedAt.None? then Err(RecordNotFinalized)
    else if env.block < SatAdd32(s.withdrawals[id].finalizedAt.value, s.ttl) then Err(TTLNotExpired)
    else Ok(None, s.(withdrawals := s.withdrawals - {id}, log := s.log + [WithdrawalCleaned(id, env.block, s.ttl)]))
  }

  function Handle(s: State, env: Env, hash: bytes -> Hash, m: Message): (r: Outcome) {
    match m
    case Deposit(amount, hotkey) => DoDeposit(s, env, hash, amount, hotkey)
    case AttestWithdrawal(id, recipient, amount, nonce) => DoAttest(s, env, hash, id, recipient, amount, nonce)
    case CleanupDeposit(id) => DoCleanupDeposit(s, env, id)
    case CleanupWithdrawal(id) => DoCleanupWithdrawal(s, env, id)
    case _ => DoAdmin(s, env, m)
  }

  // -------- runs --------

  /** One thing that happens: a message, or a change of the ledger the contract takes no part in. */
  datatype Step = Call(env: Env, message: Message) | Outside(after: Ledger)

  function Apply(s: State, hash: bytes -> Hash, step: Step): (s': State) {
    match step
    case Call(env, m) => (match Handle(s, env, hash, m) case Err(_) => s case Ok(_, s') => s')
    case Outside(after) => s.(ledger := after)
  }

  function Run(s: State, hash: bytes -> Hash, steps: seq<Step>): (s': State)
    decreases |steps|
  {
    if steps == [] then s else Apply(Run(s, hash, steps[..|steps| - 1]), hash, steps[|steps| - 1])
  }

  /** A state some run from a fresh contract leads to. */
  ghost predicate Reachable(hash: bytes -> Hash, s: State) {
    exists self, owner, chainId, hotkey, ledger, steps :: s == Run(Init(self, owner, chainId, hotkey, ledger), hash, steps)
  }
}
