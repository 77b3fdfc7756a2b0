/**
 Where every record of a run comes from: the message that made it, the message that failed, completed or cancelled it,
 and the message that removed it, with their callers, terms and blocks.
 */
module BridgeOrigins {
  import opened ByteStrings
  import opened Bridge
  import opened BridgeVotes
  import opened BridgeIds

  /** Step `i` of the run is a message the contract accepted. */
  ghost predicate AcceptedAt(s: State, hash: bytes -> Hash, steps: seq<Step>, i: int) {
    0 <= i < |steps| && steps[i].Call? && Handle(Run(s, hash, steps[..i]), steps[i].env, hash, steps[i].message).Ok?
  }

  /** Step `i` is an accepted deposit that was answered with `id`. */
  ghost predicate DepositAt(s: State, hash: bytes -> Hash, steps: seq<Step>, i: int, id: Hash) {
    && AcceptedAt(s, hash, steps, i) && steps[i].message.Deposit?
    && Handle(Run(s, hash, steps[..i]), steps[i].env, hash, steps[i].message).id == Some(id)
  }

  ghost predicate MessageAt(s: State, hash: bytes -> Hash, steps: seq<Step>, i: int, m: Message) {
    AcceptedAt(s, hash, steps, i) && steps[i].message == m
  }

  ghost predicate VoteAt(s: State, hash: bytes -> Hash, steps: seq<Step>, i: int, id: Hash) {
    AcceptedAt(s, hash, steps, i) && steps[i].message.AttestWithdrawal? && steps[i].message.id == id
  }

  lemma PrefixOfPrefix(steps: seq<Step>, i: nat, n: nat)
    requires i <= n <= |steps|
    ensures steps[..n][..i] == steps[..i]
  {
  }

  lemma RunSnoc(s: State, hash: bytes -> Hash, steps: seq<Step>, i: nat)
    requires i < |steps|
    ensures Run(s, hash, steps[..i + 1]) == Apply(Run(s, hash, steps[..i]), hash, steps[i])
  {
    PrefixOfPrefix(steps, i, i + 1);
  }

  // -------- deposits --------

  /** The record a deposit message stands for. */
  function RecordOf(step: Step, chainId: u16, nonce: u64, status: DepositStatus): (d: DepositRequest)
    requires step.Call? && step.message.Deposit?
  {
    DepositRequest(sender := step.env.caller, recipient := step.env.caller, amount := step.message.amount, nonce := nonce,
                   hotkey := step.message.hotkey, netuid := chainId, status := status, createdAt := step.env.block)
  }

  /** One step makes a deposit record from its own message, fails it, keeps it or removes it. */
  lemma StepDeposit(s: State, hash: bytes -> Hash, step: Step, id: Hash)
    requires id in Apply(s, hash, step).deposits
    ensures var s' := Apply(s, hash, step);
            if step.Call? && step.message.Deposit? && Handle(s, step.env, hash, step.message).Ok? && Handle(s, step.env, hash, step.message).id == Some(id)
            then s'.deposits[id] == RecordOf(step, s.chainId, s.nextNonce, Requested)
            else id in s.deposits &&
                 if step.Call? && step.message == AdminFailDeposit(id) && Handle(s, step.env, hash, step.message).Ok?
                 then s'.deposits[id] == s.deposits[id].(status := Failed)
                 else s'.deposits[id] == s.deposits[id]
  {
    if step.Call? && Handle(s, step.env, hash, step.message).Ok? {
      var env, m := step.env, step.message;
      if m.Deposit? {
        DepositMakes(s, env, hash, m.amount, m.hotkey, id);
      } else if OwnerOnly(m) {
        AdminFails(s, env, m, id);
      } else if !m.CleanupDeposit? {
        WithdrawalsKeepDeposits(s, env, hash, m);
      }
    }
  }

  lemma DepositMakes(s: State, env: Env, hash: bytes -> Hash, amount: u64, hotkey: AccountId, id: Hash)
    requires DoDeposit(s, env, hash, amount, hotkey).Ok?
    ensures var o := DoDeposit(s, env, hash, amount, hotkey);
            && (o.id == Some(id) ==>
                  && id in o.state.deposits
                  && o.state.deposits[id] == RecordOf(Call(env, Deposit(amount, hotkey)), s.chainId, s.nextNonce, Requested))
            && (o.id != Some(id) && id in o.state.deposits ==> id in s.deposits && o.state.deposits[id] == s.deposits[id])
            && o.id == Some(hash(DepositPreimage(env.caller, amount, s.nextNonce)))
            && DepositPreimage(env.caller, amount, s.nextNonce) in o.state.hashed && o.state.nextNonce == s.nextNonce + 1
  {
  }

  lemma AdminFails(s: State, env: Env, m: Message, id: Hash)
    requires OwnerOnly(m) && DoAdmin(s, env, m).Ok? && id in DoAdmin(s, env, m).state.deposits
    ensures id in s.deposits
    ensures DoAdmin(s, env, m).state.deposits[id] == if m == AdminFailDeposit(id) then s.deposits[id].(status := Failed) else s.deposits[id]
  {
  }

  lemma ChainIdStays(s: State, hash: bytes -> Hash, step: Step)
    ensures Apply(s, hash, step).chainId == s.chainId && Apply(s, hash, step).nextNonce >= s.nextNonce
  {
    if step.Call? && Handle(s, step.env, hash, step.message).Ok? {
      var env, m := step.env, step.message;
      if m.Deposit? {
        DepositKeepsChainId(s, env, hash, m.amount, m.hotkey);
      } else if m.AttestWithdrawal? {
        VoteKeepsChainId(s, env, hash, m.id, m.recipient, m.amount, m.nonce);
      } else if OwnerOnly(m) {
        AdminKeepsChainId(s, env, m);
      }
    }
  }

  lemma DepositKeepsChainId(s: State, env: Env, hash: bytes -> Hash, amount: u64, hotkey: AccountId)
    requires DoDeposit(s, env, hash, amount, hotkey).Ok?
    ensures DoDeposit(s, env, hash, amount, hotkey).state.chainId == s.chainId
    ensures DoDeposit(s, env, hash, amount, hotkey).state.nextNonce >= s.nextNonce
  {
  }

  lemma AdminKeepsChainId(s: State, env: Env, m: Message)
    requires OwnerOnly(m) && DoAdmin(s, env, m).Ok?
    ensures DoAdmin(s, env, m).state.chainId == s.chainId && DoAdmin(s, env, m).state.nextNonce == s.nextNonce
  {
  }

  lemma VoteKeepsChainId(s: State, env: Env, hash: bytes -> Hash, id: Hash, recipient: AccountId, amount: u64, nonce: u64)
    requires DoAttest(s, env, hash, id, recipient, amount, nonce).Ok?
    ensures DoAttest(s, env, hash, id, recipient, amount, nonce).state.chainId == s.chainId
    ensures DoAttest(s, env, hash, id, recipient, amount, nonce).state.nextNonce == s.nextNonce
  {
  }

  lemma {:induction false} RunChainId(s: State, hash: bytes -> Hash, steps: seq<Step>)
    ensures Run(s, hash, steps).chainId == s.chainId
    decreases |steps|
  {
    if steps != [] {
      RunChainId(s, hash, steps[..|steps| - 1]);
      ChainIdStays(Run(s, hash, steps[..|steps| - 1]), hash, steps[|steps| - 1]);
    }
  }

  /** Failed since it was made, by an accepted message of the owner. */
  ghost predicate FailedAfter(s: State, hash: bytes -> Hash, steps: seq<Step>, i: int, id: Hash) {
    exists j :: i < j < |steps| && MessageAt(s, hash, steps, j, AdminFailDeposit(id))
  }

  /**
   Every deposit record of a run is the record of an accepted deposit message of that run: sender and recipient are that
   message's caller, amount and hotkey the message's, the network the contract's, the creation block the message's, the
   nonce the next one at that moment. It is failed exactly when the owner has failed it since.
   */
  lemma {:induction false} DepositOrigin(s: State, hash: bytes -> Hash, steps: seq<Step>, id: Hash) returns (i: nat)
    requires s.deposits == map[] && id in Run(s, hash, steps).deposits
    ensures DepositAt(s, hash, steps, i, id)
    ensures var d := Run(s, hash, steps).deposits[id];
            && d == RecordOf(steps[i], s.chainId, Run(s, hash, steps[..i]).nextNonce, d.status)
            && (d.status == Failed <==> FailedAfter(s, hash, steps, i, id))
    decreases |steps|
  {
    var n := |steps| - 1;
    var front, last := steps[..n], steps[n];
    var before := Run(s, hash, front);
    StepDeposit(before, hash, last, id);
    RunChainId(s, hash, front);
    if DepositAt(s, hash, steps, n, id) {
      i := n;
    } else {
      i := DepositOrigin(s, hash, front, id);
      PrefixOfPrefix(steps, i, n);
      if before.deposits[id].status == Failed {
        var j :| i < j < |front| && MessageAt(s, hash, front, j, AdminFailDeposit(id));
        PrefixOfPrefix(steps, j, n);
        assert MessageAt(s, hash, steps, j, AdminFailDeposit(id));
      }
      FailedMeans(s, hash, steps, i, id);
    }
  }

  /** Failed in a run is failed in its front or by its last message. */
  lemma FailedMeans(s: State, hash: bytes -> Hash, steps: seq<Step>, i: nat, id: Hash)
    requires steps != [] && i < |steps| - 1
    ensures FailedAfter(s, hash, steps, i, id) <==>
              FailedAfter(s, hash, steps[..|steps| - 1], i, id) || MessageAt(s, hash, steps, |steps| - 1, AdminFailDeposit(id))
  {
    var n := |steps| - 1;
    forall j | 0 <= j < n ensures MessageAt(s, hash, steps, j, AdminFailDeposit(id)) <==> MessageAt(s, hash, steps[..n], j, AdminFailDeposit(id)) {
      PrefixOfPrefix(steps, j, n);
    }
  }

  // -------- one deposit, one record --------

  lemma {:induction false} RunForward(s: State, hash: bytes -> Hash, steps: seq<Step>, i: nat, j: nat)
    requires i <= j <= |steps|
    ensures Grows(Run(s, hash, steps[..i]), Run(s, hash, steps[..j]))
    ensures Run(s, hash, steps[..i]).nextNonce <= Run(s, hash, steps[..j]).nextNonce
    decreases j
  {
    if i < j {
      RunForward(s, hash, steps, i, j - 1);
      RunSnoc(s, hash, steps, j - 1);
      StepGrows(Run(s, hash, steps[..j - 1]), hash, steps[j - 1]);
      ChainIdStays(Run(s, hash, steps[..j - 1]), hash, steps[j - 1]);
    }
  }

  lemma DepositFacts(s: State, hash: bytes -> Hash, steps: seq<Step>, i: nat, id: Hash)
    requires DepositAt(s, hash, steps, i, id)
    ensures var n := Run(s, hash, steps[..i]).nextNonce;
            var p := DepositPreimage(steps[i].env.caller, steps[i].message.amount, n);
            && hash(p) == id && p in Run(s, hash, steps).hashed && Run(s, hash, steps[..i + 1]).nextNonce == n + 1
  {
    var at, env, m := Run(s, hash, steps[..i]), steps[i].env, steps[i].message;
    DepositMakes(at, env, hash, m.amount, m.hotkey, id);
    RunSnoc(s, hash, steps, i);
    RunForward(s, hash, steps, i + 1, |steps|);
    assert steps[..|steps|] == steps;
  }

  /** No two accepted deposits of a run get the same id. */
  lemma DepositIdsDiffer(s: State, hash: bytes -> Hash, steps: seq<Step>, i: nat, j: nat, id: Hash)
    requires CollisionFree(hash, Run(s, hash, steps).hashed) && i < j
    requires DepositAt(s, hash, steps, i, id)
    ensures !DepositAt(s, hash, steps, j, id)
  {
    if DepositAt(s, hash, steps, j, id) {
      DepositFacts(s, hash, steps, i, id);
      DepositFacts(s, hash, steps, j, id);
      RunForward(s, hash, steps, i + 1, j);
      DepositPreimageInjective(steps[i].env.caller, steps[i].message.amount, Run(s, hash, steps[..i]).nextNonce,
                               steps[j].env.caller, steps[j].message.amount, Run(s, hash, steps[..j]).nextNonce);
    }
  }

  /** A deposit is cleaned up only at or past the block of its own deposit message plus the time-to-live then in force. */
  lemma DepositCleanedInTime(s: State, hash: bytes -> Hash, steps: seq<Step>, k: nat, id: Hash) returns (i: nat)
    requires s.deposits == map[] && MessageAt(s, hash, steps, k, CleanupDeposit(id))
    ensures i < k && DepositAt(s, hash, steps, i, id)
    ensures steps[k].env.block >= SatAdd32(steps[i].env.block, Run(s, hash, steps[..k]).ttl)
    ensures steps[k].env.caller in Run(s, hash, steps[..k]).guardians
  {
    i := DepositOrigin(s, hash, steps[..k], id);
    PrefixOfPrefix(steps, i, k);
  }

  // -------- withdrawals --------

  /** One step makes a withdrawal record from its own vote, votes on it, completes or cancels it, keeps it or removes it. */
  ghost predicate WithdrawalStep(s: State, s': State, step: Step, id: Hash)
    requires id in s'.withdrawals
  {
    var w' := s'.withdrawals[id];
    if id !in s.withdrawals then
      && step.Call? && step.message.AttestWithdrawal? && step.message.id == id
      && w'.recipient == step.message.recipient && w'.amount == step.message.amount && w'.createdAt == step.env.block
      && w'.votes == [step.env.caller] && Finishes(w', step, id)
    else
      var w := s.withdrawals[id];
      && w'.recipient == w.recipient && w'.amount == w.amount && w'.createdAt == w.createdAt
      && (w'.votes == w.votes || (step.Call? && step.message.AttestWithdrawal? && step.message.id == id && w'.votes == w.votes + [step.env.caller]))
      && ((w'.status == w.status && w'.finalizedAt == w.finalizedAt) || (w.status == Pending && w'.status != Pending && Finishes(w', step, id)))
  }

  /** If the record is final, it was completed by this vote or cancelled by this message, at this message's block. */
  predicate Finishes(w: Withdrawal, step: Step, id: Hash) {
    && step.Call?
    && (w.status == Completed ==> step.message.AttestWithdrawal? && step.message.id == id && w.finalizedAt == Some(step.env.block))
    && (w.status == Cancelled ==> step.message == AdminCancelWithdrawal(id) && w.finalizedAt == Some(step.env.block))
  }

  lemma StepWithdrawal(s: State, hash: bytes -> Hash, step: Step, id: Hash)
    requires id in Apply(s, hash, step).withdrawals
    ensures WithdrawalStep(s, Apply(s, hash, step), step, id)
    ensures Apply(s, hash, step).withdrawals != s.withdrawals ==> step.Call? && Handle(s, step.env, hash, step.message).Ok?
  {
    if step.Call? && Handle(s, step.env, hash, step.message).Ok? {
      var env, m := step.env, step.message;
      if m.Deposit? {
        assert DoDeposit(s, env, hash, m.amount, m.hotkey).state.withdrawals == s.withdrawals;
      } else if m.AttestWithdrawal? {
        VoteWithdrawal(s, env, hash, m.id, m.recipient, m.amount, m.nonce, id);
      } else if OwnerOnly(m) {
        AdminWithdrawal(s, env, m, id);
      }
    }
  }

  lemma VoteWithdrawal(s: State, env: Env, hash: bytes -> Hash, x: Hash, recipient: AccountId, amount: u64, nonce: u64, id: Hash)
    requires DoAttest(s, env, hash, x, recipient, amount, nonce).Ok?
    requires id in DoAttest(s, env, hash, x, recipient, amount, nonce).state.withdrawals
    ensures WithdrawalStep(s, DoAttest(s, env, hash, x, recipient, amount, nonce).state, Call(env, AttestWithdrawal(x, recipient, amount, nonce)), id)
  {
  }

  lemma AdminWithdrawal(s: State, env: Env, m: Message, id: Hash)
    requires OwnerOnly(m) && DoAdmin(s, env, m).Ok? && id in DoAdmin(s, env, m).state.withdrawals
    ensures WithdrawalStep(s, DoAdmin(s, env, m).state, Call(env, m), id)
  {
  }

  /**
   Every withdrawal record of a run was made by an accepted vote of that run, for that vote's recipient and amount, at its
   block and with its caller as first voter; if it is completed, the vote `j` did it, if cancelled, the owner's message
   `j` did, and its finalisation block is the block of that message.
   */
  lemma {:induction false} WithdrawalOrigin(s: State, hash: bytes -> Hash, steps: seq<Step>, id: Hash) returns (i: nat, j: nat)
    requires s.withdrawals == map[] && id in Run(s, hash, steps).withdrawals
    ensures i <= j < |steps| && VoteAt(s, hash, steps, i, id)
    ensures var w := Run(s, hash, steps).withdrawals[id];
            && w.recipient == steps[i].message.recipient && w.amount == steps[i].message.amount
            && w.createdAt == steps[i].env.block && w.votes != [] && w.votes[0] == steps[i].env.caller
            && (w.status != Pending ==> AcceptedAt(s, hash, steps, j) && Finishes(w, steps[j], id))
    decreases |steps|
  {
    var n := |steps| - 1;
    var front, last := steps[..n], steps[n];
    var before := Run(s, hash, front);
    StepWithdrawal(before, hash, last, id);
    if id !in before.withdrawals {
      i, j := n, n;
    } else {
      i, j := WithdrawalOrigin(s, hash, front, id);
      PrefixOfPrefix(steps, i, n);
      PrefixOfPrefix(steps, j, n);
      if before.withdrawals[id].status == Pending {
        j := n;
      }
    }
  }

  /** A withdrawal is cleaned up only at or past the block of the message that completed or cancelled it plus the time-to-live. */
  lemma WithdrawalCleanedInTime(s: State, hash: bytes -> Hash, steps: seq<Step>, k: nat, id: Hash) returns (j: nat)
    requires s.withdrawals == map[] && MessageAt(s, hash, steps, k, CleanupWithdrawal(id))
    ensures j < k && (VoteAt(s, hash, steps, j, id) || MessageAt(s, hash, steps, j, AdminCancelWithdrawal(id)))
    ensures steps[k].env.block >= SatAdd32(steps[j].env.block, Run(s, hash, steps[..k]).ttl)
    ensures steps[k].env.caller in Run(s, hash, steps[..k]).guardians
  {
    var i;
    i, j := WithdrawalOrigin(s, hash, steps[..k], id);
    PrefixOfPrefix(steps, j, k);
  }

  // -------- what can be cleaned up --------

  /** In a reachable state a guardian can remove a withdrawal exactly when it is final and its time-to-live has passed. */
  lemma CleanableExactly(hash: bytes -> Hash, s: State, env: Env, id: Hash)
    requires Reachable(hash, s)
    ensures DoCleanupWithdrawal(s, env, id).Ok? <==>
              && env.caller in s.guardians && id in s.withdrawals && s.withdrawals[id].status != Pending
              && (s.withdrawals[id].finalizedAt.Some? ==> env.block >= SatAdd32(s.withdrawals[id].finalizedAt.value, s.ttl))
    ensures DoCleanupWithdrawal(s, env, id).Ok? ==> DoCleanupWithdrawal(s, env, id).state.withdrawals.Keys == s.withdrawals.Keys - {id}
  {
    ReachableOk(hash, s);
    if id in s.withdrawals {
      assert RecordOk(id, s.withdrawals[id]);
    }
  }
}
