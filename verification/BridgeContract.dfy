/**
 The contract as an object that updates its storage in place. Each message is proved to do what the corresponding
 function of module Bridge says and to keep the object in a reachable state, so what is proved of runs holds of it.
 */
module BridgeContract {
  import opened ByteStrings
  import opened Sorting
  import opened Bridge
  import opened BridgeVotes
  import opened BridgeIds

  datatype Reply = Rejected(error: Error) | Accepted(id: Option<Hash>)

  /** Reply and new state are those of the outcome; a rejected message changes nothing, the ledger included. */
  ghost predicate Agrees(before: State, o: Outcome, r: Reply, after: State) {
    match o
    case Err(e) => r == Rejected(e) && after == before
    case Ok(id, s) => r == Accepted(id) && after == s
  }

  /** The votes of the record are at least the threshold, pairwise different, and each by a guardian since its last clean-up. */
  ghost predicate BackedRecord(s: State, id: Hash) {
    && id in s.withdrawals && 1 <= s.threshold <= |s.withdrawals[id].votes| && NoRepeats(s.withdrawals[id].votes)
    && forall v :: v in s.withdrawals[id].votes ==> VotedSince(s.log, id, v)
  }

  lemma VoteBacks(hash: bytes -> Hash, s: State, env: Env, id: Hash, recipient: AccountId, amount: u64, nonce: u64)
    requires Reachable(hash, s)
    ensures var o := DoAttest(s, env, hash, id, recipient, amount, nonce);
            o.Ok? ==> id in o.state.withdrawals && (o.state.withdrawals[id].status == Completed ==> BackedRecord(o.state, id))
  {
    var o := DoAttest(s, env, hash, id, recipient, amount, nonce);
    ReachableOk(hash, s);
    if o.Ok? {
      AttestKeeps(s, env, hash, id, recipient, amount, nonce);
      ThresholdMet(s, env, hash, id, recipient, amount, nonce);
      assert RecordOk(id, o.state.withdrawals[id]) && VotesLogged(o.state.log, id, o.state.withdrawals[id]);
    }
  }

  lemma ThresholdMet(s: State, env: Env, hash: bytes -> Hash, id: Hash, recipient: AccountId, amount: u64, nonce: u64)
    requires GuardiansOk(s) && DoAttest(s, env, hash, id, recipient, amount, nonce).Ok?
    ensures var t := DoAttest(s, env, hash, id, recipient, amount, nonce).state;
            && id in t.withdrawals && t.threshold == s.threshold >= 1
            && (t.withdrawals[id].status == Completed ==> |t.withdrawals[id].votes| >= s.threshold)
  {
  }

  lemma DepositIsNew(hash: bytes -> Hash, s: State, env: Env, amount: u64, hotkey: AccountId)
    requires Reachable(hash, s)
    ensures var o := DoDeposit(s, env, hash, amount, hotkey);
            o.Ok? && CollisionFree(hash, o.state.hashed) ==>
              && o.id == Some(hash(DepositPreimage(env.caller, amount, s.nextNonce)))
              && o.id.value !in s.deposits && s.nextNonce !in s.nonceIndex && TablesInverse(o.state)
  {
    var o := DoDeposit(s, env, hash, amount, hotkey);
    if o.Ok? && CollisionFree(hash, o.state.hashed) {
      DepositGrows(s, env, hash, amount, hotkey);
      ReachableIdsOk(hash, s);
      NewDeposit(s, env, hash, amount, hotkey);
    }
  }

  /** An answered message leads from a reachable state to a reachable state. */
  lemma Answered(hash: bytes -> Hash, s: State, env: Env, m: Message, r: Reply, t: State)
    requires Reachable(hash, s) && Agrees(s, Handle(s, env, hash, m), r, t)
    ensures Reachable(hash, t)
  {
    ReachableStep(hash, s, Call(env, m));
  }

  class Contract {
    const hash: bytes -> Hash
    const self: AccountId
    const chainId: u16
    var owner: AccountId
    var contractHotkey: AccountId
    var paused: bool
    var guardians: seq<AccountId>
    var threshold: u16
    var minDeposit: u64
    var nextNonce: u64
    var deposits: map<Hash, DepositRequest>
    var nonceIndex: map<u64, Hash>
    var withdrawals: map<Hash, Withdrawal>
    var ttl: u32
    var ledger: Ledger
    ghost var hashed: set<bytes>
    ghost var log: seq<Event>

    ghost function Abs(): (s: State)
      reads this
    {
      State(self, owner, chainId, contractHotkey, paused, guardians, threshold, minDeposit, nextNonce,
            deposits, nonceIndex, withdrawals, ttl, ledger, hashed, log)
    }

    /** Some run from a fresh contract has led here. */
    ghost predicate Valid()
      reads this
    {
      Reachable(hash, Abs())
    }

    /** So the invariants of every run hold of the object. */
    lemma Facts()
      requires Valid()
      ensures VotesOk(Abs())
      ensures CollisionFree(hash, hashed) ==> IdsOk(Abs(), hash)
    {
      ReachableOk(hash, Abs());
      if CollisionFree(hash, hashed) {
        ReachableIdsOk(hash, Abs());
      }
    }

    constructor (hash: bytes -> Hash, self: AccountId, owner: AccountId, chainId: u16, hotkey: AccountId, ledger: Ledger)
      ensures Valid() && this.hash == hash
      ensures Abs() == Init(self, owner, chainId, hotkey, ledger)
    {
      this.hash := hash;
      this.self, this.owner, this.chainId, this.contractHotkey, this.ledger := self, owner, chainId, hotkey, ledger;
      paused, guardians, threshold := false, [], 0;
      minDeposit, nextNonce, ttl := 1_000_000_000, 0, 100_800;
      deposits, nonceIndex, withdrawals := map[], map[], map[];
      hashed, log := {}, [];
      new;
      InitReachable(hash, self, owner, chainId, hotkey, ledger);
    }

    /** The ledger changes without the contract taking part. */
    method Outside(after: Ledger)
      requires Valid()
      modifies this`ledger
      ensures Valid() && Abs() == old(Abs()).(ledger := after)
    {
      ReachableStep(hash, Abs(), Step.Outside(after));
      ledger := after;
    }

    /** The `i`-th stake query of a message, which the chain may fail to answer. */
    method GetStake(env: Env, i: nat, coldkey: AccountId, hotkey: AccountId) returns (r: Option<nat>)
      ensures r == if i in env.failing then None else Some(StakeOf(ledger, coldkey, hotkey))
    {
      if i in env.failing {
        return None;
      }
      return Some(if (coldkey, hotkey) in ledger then ledger[(coldkey, hotkey)] else 0);
    }

    /** Lets the caller's stake be transferred in and checks, by querying before and after, that it arrived. */
    method PullStake(env: Env, amount: u64, hotkey: AccountId) returns (e: Option<Error>)
      modifies this`ledger
      ensures e == PullError(old(Abs()), env, amount, hotkey)
      ensures e.None? ==> ledger == Pulled(old(Abs()), env, amount, hotkey).after
    {
      var senderBefore := GetStake(env, 0, env.caller, hotkey);
      if senderBefore.None? { return Some(StakeQueryFailed); }
      if senderBefore.value < amount { return Some(InsufficientStake); }
      var selfBefore := GetStake(env, 1, self, hotkey);
      if selfBefore.None? { return Some(StakeQueryFailed); }
      var pulled := env.transfer(StakeTransfer(env.caller, self, hotkey, chainId, amount));
      if pulled.Refused? { return Some(RuntimeCallFailed); }
      ledger := pulled.after;
      var senderAfter := GetStake(env, 2, env.caller, hotkey);
      if senderAfter.None? { return Some(StakeQueryFailed); }
      var selfAfter := GetStake(env, 3, self, hotkey);
      if selfAfter.None? { return Some(StakeQueryFailed); }
      var decrease := SatSub(senderBefore.value, senderAfter.value);
      var increase := SatSub(selfAfter.value, selfBefore.value);
      var senderOk := decrease >= SatSub(amount, TRANSFER_TOLERANCE) && decrease <= amount;
      var selfOk := increase >= SatSub(amount, TRANSFER_TOLERANCE) && increase <= amount;
      if !senderOk || !selfOk { return Some(TransferNotVerified); }
      return None;
    }

    /** Moves stake received on another hotkey to the contract's own. */
    method Consolidate(env: Env, hotkey: AccountId) returns (e: Option<Error>)
      modifies this`ledger
      ensures e == Consolidated(old(Abs()), env, hotkey, old(ledger)).0
      ensures e.None? ==> ledger == Consolidated(old(Abs()), env, hotkey, old(ledger)).1
    {
      if hotkey != contractHotkey {
        var held := GetStake(env, 4, self, hotkey);
        if held.None? { return Some(StakeQueryFailed); }
        if held.value > 0 {
          var moved := env.move(StakeMove(hotkey, contractHotkey, chainId, held.value));
          if moved.Refused? { return Some(StakeConsolidationFailed); }
          ledger := moved.after;
        }
      }
      return None;
    }

    /** Records a deposit whose stake has arrived; if it cannot, the caller undoes the transfer. */
    method RecordRequest(env: Env, amount: u64, hotkey: AccountId) returns (r: Reply)
      modifies this`nextNonce, this`deposits, this`nonceIndex, this`hashed, this`log
      ensures Agrees(old(Abs()), RecordDeposit(old(Abs()), env, hash, amount, hotkey), r, Abs())
      // the new record is the caller's, under the id the reply returns and the next nonce
      ensures r.Accepted? ==>
                && r.id.Some? && r.id.value in deposits && nextNonce == old(nextNonce) + 1
                && var d := deposits[r.id.value];
                && d.sender == d.recipient == env.caller && d.amount == amount && d.hotkey == hotkey && d.netuid == chainId
                && d.nonce == old(nextNonce) && d.status == Requested && d.createdAt == env.block
                && d.nonce in nonceIndex && nonceIndex[d.nonce] == r.id.value
    {
      var nonce := nextNonce;
      if nextNonce == MAX_U64 { return Rejected(Overflow); }
      if amount * HALPHA_RAO_PER_ALPHA_RAO >= TWO_128 { return Rejected(Overflow); }
      nextNonce := nextNonce + 1;
      var id := hash(DepositPreimage(env.caller, amount, nonce));
      deposits := deposits[id := DepositRequest(env.caller, env.caller, amount, nonce, hotkey, chainId, Requested, env.block)];
      nonceIndex := nonceIndex[nonce := id];
      hashed := hashed + {DepositPreimage(env.caller, amount, nonce)};
      log := log + [DepositMade(id, env.caller, amount, nonce)];
      return Accepted(Some(id));
    }

    method Deposit(env: Env, amount: u64, hotkey: AccountId) returns (r: Reply)
      requires Valid()
      modifies this
      ensures Valid()
      ensures Agrees(old(Abs()), DoDeposit(old(Abs()), env, hash, amount, hotkey), r, Abs())
      // a deposit takes a new id and a new nonce, and the two tables are inverse to each other
      ensures r.Accepted? && CollisionFree(hash, hashed) ==>
                && r.id.Some? && r.id.value !in old(deposits) && old(nextNonce) !in old(nonceIndex)
                && TablesInverse(Abs())
    {
      ghost var s := Abs();
      r := HandleDeposit(env, amount, hotkey);
      Answered(hash, s, env, Message.Deposit(amount, hotkey), r, Abs());
      DepositIsNew(hash, s, env, amount, hotkey);
    }

    method HandleDeposit(env: Env, amount: u64, hotkey: AccountId) returns (r: Reply)
      modifies this
      ensures Agrees(old(Abs()), DoDeposit(old(Abs()), env, hash, amount, hotkey), r, Abs())
    {
      if paused { return Rejected(BridgePaused); }
      if amount < minDeposit { return Rejected(AmountTooSmall); }
      var before := ledger;
      var e := PullStake(env, amount, hotkey);
      if e.Some? {
        ledger := before;
        return Rejected(e.value);
      }
      e := Consolidate(env, hotkey);
      if e.Some? {
        ledger := before;
        return Rejected(e.value);
      }
      r := RecordRequest(env, amount, hotkey);
      if r.Rejected? {
        ledger := before;
      }
    }

    /** Releases a record that has its votes; the caller has logged the last of them. */
    method FinalizeWithdrawal(env: Env, id: Hash, w: Withdrawal) returns (r: Reply)
      modifies this`ledger, this`withdrawals, this`log
      ensures Agrees(old(Abs()), Finalize(old(Abs()), env, id, w), r, Abs())
      // a release was accepted by the chain as a transfer of the record's amount to the record's recipient
      ensures r.Accepted? ==>
                && env.transfer(StakeTransfer(self, w.recipient, contractHotkey, chainId, w.amount)) == Done(ledger)
                && id in withdrawals && withdrawals[id].status == Completed && withdrawals[id].finalizedAt == Some(env.block)
    {
      var stake := GetStake(env, 0, self, contractHotkey);
      if stake.None? { return Rejected(StakeQueryFailed); }
      if stake.value < w.amount { return Rejected(InsufficientContractStake); }
      var paid := env.transfer(StakeTransfer(self, w.recipient, contractHotkey, chainId, w.amount));
      if paid.Refused? { return Rejected(TransferFailed); }
      ledger := paid.after;
      withdrawals := withdrawals[id := w.(status := Completed, finalizedAt := Some(env.block))];
      log := log + [Released(id, w.recipient, w.amount, threshold, w.votes, env.block)];
      return Accepted(None);
    }

    method AttestWithdrawal(env: Env, id: Hash, recipient: AccountId, amount: u64, nonce: u64) returns (r: Reply)
      requires Valid()
      modifies this
      ensures Valid()
      ensures Agrees(old(Abs()), DoAttest(old(Abs()), env, hash, id, recipient, amount, nonce), r, Abs())
      // a record it completes has the threshold of different voters, each a guardian when voting
      ensures r.Accepted? ==> id in withdrawals && (withdrawals[id].status == Completed ==> BackedRecord(Abs(), id))
    {
      ghost var s := Abs();
      r := HandleVote(env, id, recipient, amount, nonce);
      Answered(hash, s, env, Message.AttestWithdrawal(id, recipient, amount, nonce), r, Abs());
      VoteBacks(hash, s, env, id, recipient, amount, nonce);
    }

    method HandleVote(env: Env, id: Hash, recipient: AccountId, amount: u64, nonce: u64) returns (r: Reply)
      modifies this
      ensures Agrees(old(Abs()), DoAttest(old(Abs()), env, hash, id, recipient, amount, nonce), r, Abs())
    {
      if paused { return Rejected(BridgePaused); }
      if env.caller !in guardians { return Rejected(NotGuardian); }
      if hash(WithdrawalPreimage(recipient, amount, nonce)) != id { return Rejected(InvalidRequestId); }
      var w;
      if id in withdrawals {
        w := withdrawals[id];
        if w.status != Pending { return Rejected(WithdrawalAlreadyFinalized); }
        if env.caller in w.votes { return Rejected(AlreadyVoted); }
        w := w.(votes := w.votes + [env.caller]);
      } else {
        w := Withdrawal(id, recipient, amount, [env.caller], Pending, env.block, None);
      }
      ghost var logBefore, hashedBefore := log, hashed;
      hashed := hashed + {WithdrawalPreimage(recipient, amount, nonce)};
      log := log + [Voted(id, env.caller, guardians, recipient, amount)];
      if |w.votes| >= threshold {
        r := FinalizeWithdrawal(env, id, w);
        if r.Rejected? {
          hashed, log := hashedBefore, logBefore;
        }
      } else {
        withdrawals := withdrawals[id := w];
        r := Accepted(None);
      }
    }

    method AdminFailDeposit(env: Env, id: Hash) returns (r: Reply)
      requires Valid()
      modifies this`deposits, this`log
      ensures Valid()
      ensures Agrees(old(Abs()), DoAdmin(old(Abs()), env, Message.AdminFailDeposit(id)), r, Abs())
    {
      ReachableStep(hash, Abs(), Call(env, Message.AdminFailDeposit(id)));
      if env.caller != owner { return Rejected(Unauthorized); }
      if id !in deposits { return Rejected(DepositRequestNotFound); }
      var request := deposits[id];
      if request.status != Requested { return Rejected(DepositRequestAlreadyFinalized); }
      deposits := deposits[id := request.(status := Failed)];
      log := log + [DepositFailed(id)];
      return Accepted(None);
    }

    method AdminManualRelease(env: Env, recipient: AccountId, amount: u64) returns (r: Reply)
      requires Valid()
      modifies this`ledger, this`log
      ensures Valid()
      ensures Agrees(old(Abs()), DoAdmin(old(Abs()), env, Message.AdminManualRelease(recipient, amount)), r, Abs())
    {
      ReachableStep(hash, Abs(), Call(env, Message.AdminManualRelease(recipient, amount)));
      if env.caller != owner { return Rejected(Unauthorized); }
      var paid := env.transfer(StakeTransfer(self, recipient, contractHotkey, chainId, amount));
      if paid.Refused? { return Rejected(TransferFailed); }
      ledger := paid.after;
      log := log + [ManuallyReleased(recipient, amount)];
      return Accepted(None);
    }

    method AdminCancelWithdrawal(env: Env, id: Hash) returns (r: Reply)
      requires Valid()
      modifies this`withdrawals, this`log
      ensures Valid()
      ensures Agrees(old(Abs()), DoAdmin(old(Abs()), env, Message.AdminCancelWithdrawal(id)), r, Abs())
    {
      ReachableStep(hash, Abs(), Call(env, Message.AdminCancelWithdrawal(id)));
      if env.caller != owner { return Rejected(Unauthorized); }
      if id !in withdrawals { return Rejected(WithdrawalNotFound); }
      var w := withdrawals[id];
      if w.status != Pending { return Rejected(WithdrawalAlreadyFinalized); }
      withdrawals := withdrawals[id := w.(finalizedAt := Some(env.block), status := Cancelled)];
      log := log + [WithdrawalCancelled(id)];
      return Accepted(None);
    }

    method SetGuardiansAndThreshold(env: Env, newGuardians: seq<AccountId>, newThreshold: u16) returns (r: Reply)
      requires Valid()
      modifies this`guardians, this`threshold, this`log
      ensures Valid()
      ensures Agrees(old(Abs()), DoAdmin(old(Abs()), env, SetGuardians(newGuardians, newThreshold)), r, Abs())
    {
      ReachableStep(hash, Abs(), Call(env, SetGuardians(newGuardians, newThreshold)));
      if env.caller != owner { return Rejected(Unauthorized); }
      if |newGuardians| > MAX_GUARDIANS { return Rejected(TooManyGuardians); }
      if newThreshold > |newGuardians| || newThreshold == 0 { return Rejected(InvalidThresholds); }
      guardians, threshold, log := newGuardians, newThreshold, log + [Configured];
      return Accepted(None);
    }

    method SetPaused(env: Env, on: bool) returns (r: Reply)
      requires Valid()
      modifies this`paused, this`log
      ensures Valid()
      ensures Agrees(old(Abs()), DoAdmin(old(Abs()), env, if on then Pause else Unpause), r, Abs())
    {
      ReachableStep(hash, Abs(), Call(env, if on then Pause else Unpause));
      if env.caller != owner { return Rejected(Unauthorized); }
      paused, log := on, log + [Configured];
      return Accepted(None);
    }

    method UpdateOwner(env: Env, newOwner: AccountId) returns (r: Reply)
      requires Valid()
      modifies this`owner, this`log
      ensures Valid()
      ensures Agrees(old(Abs()), DoAdmin(old(Abs()), env, Message.UpdateOwner(newOwner)), r, Abs())
    {
      ReachableStep(hash, Abs(), Call(env, Message.UpdateOwner(newOwner)));
      if env.caller != owner { return Rejected(Unauthorized); }
      owner, log := newOwner, log + [Configured];
      return Accepted(None);
    }

    method SetContractHotkey(env: Env, hotkey: AccountId) returns (r: Reply)
      requires Valid()
      modifies this`contractHotkey, this`log
      ensures Valid()
      ensures Agrees(old(Abs()), DoAdmin(old(Abs()), env, Message.SetContractHotkey(hotkey)), r, Abs())
    {
      ReachableStep(hash, Abs(), Call(env, Message.SetContractHotkey(hotkey)));
      if env.caller != owner { return Rejected(Unauthorized); }
      contractHotkey, log := hotkey, log + [Configured];
      return Accepted(None);
    }

    method CleanupDepositRequest(env: Env, id: Hash) returns (r: Reply)
      requires Valid()
      modifies this`deposits, this`nonceIndex, this`log
      ensures Valid()
      ensures Agrees(old(Abs()), DoCleanupDeposit(old(Abs()), env, id), r, Abs())
    {
      ReachableStep(hash, Abs(), Call(env, CleanupDeposit(id)));
      if env.caller !in guardians { return Rejected(NotGuardian); }
      if id !in deposits { return Rejected(DepositRequestNotFound); }
      var request := deposits[id];
      if env.block < SatAdd32(request.createdAt, ttl) { return Rejected(TTLNotExpired); }
      deposits := deposits - {id};
      nonceIndex := nonceIndex - {request.nonce};
      log := log + [DepositCleaned(id)];
      return Accepted(None);
    }

    method CleanupWithdrawal(env: Env, id: Hash) returns (r: Reply)
      requires Valid()
      modifies this`withdrawals, this`log
      ensures Valid()
      ensures Agrees(old(Abs()), DoCleanupWithdrawal(old(Abs()), env, id), r, Abs())
    {
      ReachableStep(hash, Abs(), Call(env, Message.CleanupWithdrawal(id)));
      if env.caller !in guardians { return Rejected(NotGuardian); }
      if id !in withdrawals { return Rejected(WithdrawalNotFound); }
      var w := withdrawals[id];
      if w.status != Completed && w.status != Cancelled { return Rejected(RecordNotFinalized); }
      if w.finalizedAt.None? { return Rejected(RecordNotFinalized); }
      if env.block < SatAdd32(w.finalizedAt.value, ttl) { return Rejected(TTLNotExpired); }
      withdrawals := withdrawals - {id};
      log := log + [WithdrawalCleaned(id, env.block, ttl)];
      return Accepted(None);
    }

    method SetCleanupTtl(env: Env, blocks: u32) returns (r: Reply)
      requires Valid()
      modifies this`ttl, this`log
      ensures Valid()
      ensures Agrees(old(Abs()), DoAdmin(old(Abs()), env, Message.SetCleanupTtl(blocks)), r, Abs())
    {
      ReachableStep(hash, Abs(), Call(env, Message.SetCleanupTtl(blocks)));
      if env.caller != owner { return Rejected(Unauthorized); }
      if blocks == 0 { return Rejected(InvalidTTL); }
      ttl, log := blocks, log + [Configured];
      return Accepted(None);
    }

    method SetMinDepositAmount(env: Env, amount: u64) returns (r: Reply)
      requires Valid()
      modifies this`minDeposit, this`log
      ensures Valid()
      ensures Agrees(old(Abs()), DoAdmin(old(Abs()), env, SetMinDeposit(amount)), r, Abs())
    {
      ReachableStep(hash, Abs(), Call(env, SetMinDeposit(amount)));
      if env.caller != owner { return Rejected(Unauthorized); }
      minDeposit, log := amount, log + [Configured];
      return Accepted(None);
    }
  }
}
