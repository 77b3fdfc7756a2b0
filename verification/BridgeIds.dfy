/**
 Request ids: what an id commits to, that deposits and withdrawals never share one, that the deposit table and the
 nonce index are inverse to each other, and that every counted vote was cast for the record's own terms.
 */
module BridgeIds {
  import opened ByteStrings
  import opened Bridge
  import opened BridgeVotes

  // -------- preimages --------

  lemma PreimageParts(d: bytes, a: AccountId, m: nat, n: nat, a': AccountId, m': nat, n': nat)
    requires m < Pow256(16) && m' < Pow256(16) && n < Pow256(8) && n' < Pow256(8)
    requires d + (a + (LittleEndian(m, 16) + LittleEndian(n, 8))) == d + (a' + (LittleEndian(m', 16) + LittleEndian(n', 8)))
    ensures a == a' && m == m' && n == n'
  {
    var x, y := LittleEndian(m, 16) + LittleEndian(n, 8), LittleEndian(m', 16) + LittleEndian(n', 8);
    SplitAt(d, a + x, d, a' + y);
    SplitAt(a, x, a', y);
    SplitAt(LittleEndian(m, 16), LittleEndian(n, 8), LittleEndian(m', 16), LittleEndian(n', 8));
    LittleEndianInjective(m, m', 16);
    LittleEndianInjective(n, n', 8);
  }

  /** The scaled amount always fits its sixteen bytes, so the overflow branch of a deposit is never taken. */
  lemma ScaledFits(amount: u64)
    ensures amount * HALPHA_RAO_PER_ALPHA_RAO < TWO_128 == Pow256(16)
    ensures TWO_64 == Pow256(8)
  {
    Pow256Widths();
  }

  lemma DepositPreimageInjective(a: AccountId, m: u64, n: u64, a': AccountId, m': u64, n': u64)
    requires DepositPreimage(a, m, n) == DepositPreimage(a', m', n')
    ensures a == a' && m == m' && n == n'
  {
    ScaledFits(m);
    ScaledFits(m');
    PreimageParts(DOMAIN_DEPOSIT_REQUEST, a, m * HALPHA_RAO_PER_ALPHA_RAO, n, a', m' * HALPHA_RAO_PER_ALPHA_RAO, n');
  }

  lemma WithdrawalPreimageInjective(a: AccountId, m: u64, n: u64, a': AccountId, m': u64, n': u64)
    requires WithdrawalPreimage(a, m, n) == WithdrawalPreimage(a', m', n')
    ensures a == a' && m == m' && n == n'
  {
    ScaledFits(m);
    PreimageParts(DOMAIN_WITHDRAWAL_REQUEST, a, m, n, a', m', n');
  }

  /** A preimage, read from its bytes: the domain, the account, the amount and the nonce, the last two little-endian. */
  lemma PreimageSlices(p: bytes, d: bytes, a: AccountId, m: nat, n: nat)
    requires m < Pow256(16) && n < Pow256(8)
    ensures p == d + (a + (LittleEndian(m, 16) + LittleEndian(n, 8))) <==>
              && |p| == |d| + 56 && p[..|d|] == d && p[|d|..|d| + 32] == a
              && FromLittleEndian(p[|d| + 32..|d| + 48]) == m && FromLittleEndian(p[|d| + 48..]) == n
  {
    var k, x, y := |d|, LittleEndian(m, 16), LittleEndian(n, 8);
    SlicesOf(d, a, x, y);
    LittleEndianValue(m, 16);
    LittleEndianValue(n, 8);
    if |p| == k + 56 {
      LittleEndianReads(p[k + 32..k + 48]);
      LittleEndianReads(p[k + 48..]);
      FromSlices(p, k);
    }
  }

  lemma SlicesOf(d: bytes, a: bytes, x: bytes, y: bytes)
    requires |a| == 32 && |x| == 16 && |y| == 8
    ensures var p, k := d + (a + (x + y)), |d|;
            |p| == k + 56 && p[..k] == d && p[k..k + 32] == a && p[k + 32..k + 48] == x && p[k + 48..] == y
  {
  }

  lemma FromSlices(p: bytes, k: nat)
    requires |p| == k + 56
    ensures p == p[..k] + (p[k..k + 32] + (p[k + 32..k + 48] + p[k + 48..]))
  {
  }

  /** What a deposit id is the hash of, byte by byte: the amount in the destination chain's unit. */
  lemma DepositPreimageLayout(p: bytes, sender: AccountId, amount: u64, nonce: u64)
    ensures p == DepositPreimage(sender, amount, nonce) <==>
              && |p| == 74 && p[..18] == Ascii("DEPOSIT_REQUEST-V1") && p[18..50] == sender
              && FromLittleEndian(p[50..66]) == amount * 1_000_000_000 && FromLittleEndian(p[66..]) == nonce
  {
    ScaledFits(amount);
    PreimageSlices(p, DOMAIN_DEPOSIT_REQUEST, sender, amount * HALPHA_RAO_PER_ALPHA_RAO, nonce);
  }

  /** What a withdrawal id is the hash of, byte by byte. */
  lemma WithdrawalPreimageLayout(p: bytes, recipient: AccountId, amount: u64, nonce: u64)
    ensures p == WithdrawalPreimage(recipient, amount, nonce) <==>
              && |p| == 77 && p[..21] == Ascii("WITHDRAWAL_REQUEST-V1") && p[21..53] == recipient
              && FromLittleEndian(p[53..69]) == amount && FromLittleEndian(p[69..]) == nonce
  {
    ScaledFits(amount);
    PreimageSlices(p, DOMAIN_WITHDRAWAL_REQUEST, recipient, amount, nonce);
  }

  lemma PreimagesDisjoint(a: AccountId, m: u64, n: u64, a': AccountId, m': u64, n': u64)
    ensures DepositPreimage(a, m, n) != WithdrawalPreimage(a', m', n')
  {
    assert |DepositPreimage(a, m, n)| == 74 && |WithdrawalPreimage(a', m', n')| == 77;
  }

  // -------- the invariant --------

  /** No two of these preimages have the same hash. */
  ghost predicate CollisionFree(hash: bytes -> Hash, preimages: set<bytes>) {
    forall p, q :: p in preimages && q in preimages && hash(p) == hash(q) ==> p == q
  }

  ghost predicate DepositNamed(s: State, hash: bytes -> Hash, id: Hash, d: DepositRequest) {
    && DepositPreimage(d.sender, d.amount, d.nonce) in s.hashed
    && hash(DepositPreimage(d.sender, d.amount, d.nonce)) == id
  }

  ghost predicate WithdrawalNamed(s: State, hash: bytes -> Hash, id: Hash, w: Withdrawal) {
    exists nonce: u64 :: WithdrawalPreimage(w.recipient, w.amount, nonce) in s.hashed && hash(WithdrawalPreimage(w.recipient, w.amount, nonce)) == id
  }

  /** Table and index are inverse to each other, and every nonce in use has been handed out. */
  ghost predicate TablesInverse(s: State) {
    && (forall id :: id in s.deposits ==> s.deposits[id].nonce in s.nonceIndex && s.nonceIndex[s.deposits[id].nonce] == id)
    && (forall n :: n in s.nonceIndex ==>
          n < s.nextNonce && s.nonceIndex[n] in s.deposits && s.deposits[s.nonceIndex[n]].nonce == n)
  }

  function DepositCount(log: seq<Event>): (n: nat)
    decreases |log|
  {
    if log == [] then 0 else DepositCount(log[..|log| - 1]) + (if log[|log| - 1].DepositMade? then 1 else 0)
  }

  lemma DepositCountAppend(log: seq<Event>, e: Event)
    ensures DepositCount(log + [e]) == DepositCount(log) + if e.DepositMade? then 1 else 0
  {
    assert (log + [e])[..|log|] == log;
  }

  /** Every vote in the record was cast for the recipient and amount the record has. */
  ghost predicate VotesMatch(log: seq<Event>, id: Hash, w: Withdrawal) {
    forall v :: v in w.votes ==> VotedFor(log, id, v, w.recipient, w.amount)
  }

  ghost predicate VotedFor(log: seq<Event>, id: Hash, v: AccountId, recipient: AccountId, amount: u64) {
    exists e :: e in Since(log, id) && IsVote(e, id, v) && e.recipient == recipient && e.amount == amount
  }

  /** The votes a release lists were cast for the recipient and amount it pays. */
  ghost predicate ReleaseMatches(log: seq<Event>, e: Event) {
    e.Released? ==> forall v :: v in e.votes ==> VotedFor(log, e.id, v, e.recipient, e.amount)
  }

  ghost predicate ReleasesMatch(log: seq<Event>) {
    forall i :: 0 <= i < |log| ==> ReleaseMatches(log[..i], log[i])
  }

  lemma ReleasesMatchAppend(log: seq<Event>, e: Event)
    requires ReleasesMatch(log) && ReleaseMatches(log, e)
    ensures ReleasesMatch(log + [e])
  {
    forall i | 0 <= i < |log + [e]| ensures ReleaseMatches((log + [e])[..i], (log + [e])[i]) {
      if i < |log| {
        assert (log + [e])[..i] == log[..i];
      } else {
        assert (log + [e])[..i] == log;
      }
    }
  }

  ghost predicate IdsOk(s: State, hash: bytes -> Hash) {
    && (forall id :: id in s.deposits ==> DepositNamed(s, hash, id, s.deposits[id]))
    && (forall id :: id in s.withdrawals ==> WithdrawalNamed(s, hash, id, s.withdrawals[id]))
    && (forall id :: id in s.withdrawals ==> VotesMatch(s.log, id, s.withdrawals[id]))
    && TablesInverse(s)
    && s.nextNonce == DepositCount(s.log)
    && ReleasesMatch(s.log)
  }

  // -------- every step keeps it --------

  predicate SameTerms(w: Withdrawal, w': Withdrawal) {
    w'.recipient == w.recipient && w'.amount == w.amount && w'.votes == w.votes
  }

  /** Equal but for the status. */
  predicate SameDeposit(d: DepositRequest, d': DepositRequest) {
    d' == d.(status := d'.status)
  }

  lemma WithdrawalStaysNamed(s: State, s': State, hash: bytes -> Hash, id: Hash, w: Withdrawal, w': Withdrawal)
    requires WithdrawalNamed(s, hash, id, w)
    requires w'.recipient == w.recipient && w'.amount == w.amount && s.hashed <= s'.hashed
    ensures WithdrawalNamed(s', hash, id, w')
  {
    var nonce: u64 :| WithdrawalPreimage(w.recipient, w.amount, nonce) in s.hashed && hash(WithdrawalPreimage(w.recipient, w.amount, nonce)) == id;
    assert WithdrawalPreimage(w'.recipient, w'.amount, nonce) in s'.hashed;
  }

  lemma VotedForStays(log: seq<Event>, e: Event, id: Hash, v: AccountId, recipient: AccountId, amount: u64)
    requires VotedFor(log, id, v, recipient, amount) && !Cleans(e, id)
    ensures VotedFor(log + [e], id, v, recipient, amount)
  {
    SinceAppend(log, e, id);
    var x :| x in Since(log, id) && IsVote(x, id, v) && x.recipient == recipient && x.amount == amount;
    assert x in Since(log + [e], id);
  }

  lemma VotesMatchStay(log: seq<Event>, e: Event, id: Hash, w: Withdrawal)
    requires VotesMatch(log, id, w) && !Cleans(e, id)
    ensures VotesMatch(log + [e], id, w)
  {
    forall v | v in w.votes ensures VotedFor(log + [e], id, v, w.recipient, w.amount) {
      VotedForStays(log, e, id, v, w.recipient, w.amount);
    }
  }

  /** Records other than `id` after one event about `id` or about no record. */
  lemma OtherRecord(s: State, s': State, hash: bytes -> Hash, e: Event, x: Hash)
    requires IdsOk(s, hash) && x in s.withdrawals && x in s'.withdrawals
    requires SameTerms(s.withdrawals[x], s'.withdrawals[x])
    requires s'.log == s.log + [e] && s.hashed <= s'.hashed && !Cleans(e, x)
    ensures WithdrawalNamed(s', hash, x, s'.withdrawals[x]) && VotesMatch(s'.log, x, s'.withdrawals[x])
  {
    WithdrawalStaysNamed(s, s', hash, x, s.withdrawals[x], s'.withdrawals[x]);
    VotesMatchStay(s.log, e, x, s'.withdrawals[x]);
  }

  lemma RecordKeepsIds(s: State, env: Env, hash: bytes -> Hash, amount: u64, hotkey: AccountId)
    requires IdsOk(s, hash)
    requires RecordDeposit(s, env, hash, amount, hotkey).Ok?
    requires CollisionFree(hash, RecordDeposit(s, env, hash, amount, hotkey).state.hashed)
    ensures hash(DepositPreimage(env.caller, amount, s.nextNonce)) !in s.deposits && s.nextNonce !in s.nonceIndex
    ensures IdsOk(RecordDeposit(s, env, hash, amount, hotkey).state, hash)
  {
    var s' := RecordDeposit(s, env, hash, amount, hotkey).state;
    var id := hash(DepositPreimage(env.caller, amount, s.nextNonce));
    IdIsNew(s, hash, s'.hashed, env.caller, amount);
    TablesGrow(s, s', id, s'.deposits[id]);
    var e := DepositMade(id, env.caller, amount, s.nextNonce);
    DepositCountAppend(s.log, e);
    ReleasesMatchAppend(s.log, e);
    forall x | x in s'.withdrawals ensures WithdrawalNamed(s', hash, x, s'.withdrawals[x]) && VotesMatch(s'.log, x, s'.withdrawals[x]) {
      OtherRecord(s, s', hash, e, x);
    }
  }

  lemma TablesGrow(s: State, s': State, id: Hash, d: DepositRequest)
    requires TablesInverse(s) && id !in s.deposits && d.nonce == s.nextNonce && s'.nextNonce == s.nextNonce + 1
    requires s'.deposits == s.deposits[id := d] && s'.nonceIndex == s.nonceIndex[d.nonce := id]
    ensures TablesInverse(s') && s.nextNonce !in s.nonceIndex
  {
  }

  /** The next nonce makes an id no deposit has yet. */
  lemma IdIsNew(s: State, hash: bytes -> Hash, hashed: set<bytes>, sender: AccountId, amount: u64)
    requires IdsOk(s, hash) && s.hashed <= hashed && CollisionFree(hash, hashed)
    requires DepositPreimage(sender, amount, s.nextNonce) in hashed
    ensures hash(DepositPreimage(sender, amount, s.nextNonce)) !in s.deposits
  {
    forall id | id in s.deposits ensures hash(DepositPreimage(sender, amount, s.nextNonce)) != id {
      var d := s.deposits[id];
      assert DepositNamed(s, hash, id, d) && d.nonce < s.nextNonce;
      if DepositPreimage(sender, amount, s.nextNonce) == DepositPreimage(d.sender, d.amount, d.nonce) {
        DepositPreimageInjective(sender, amount, s.nextNonce, d.sender, d.amount, d.nonce);
      }
    }
  }

  lemma NewDeposit(s: State, env: Env, hash: bytes -> Hash, amount: u64, hotkey: AccountId)
    requires IdsOk(s, hash)
    requires DoDeposit(s, env, hash, amount, hotkey).Ok?
    requires CollisionFree(hash, DoDeposit(s, env, hash, amount, hotkey).state.hashed)
    ensures hash(DepositPreimage(env.caller, amount, s.nextNonce)) !in s.deposits && s.nextNonce !in s.nonceIndex
    ensures IdsOk(DoDeposit(s, env, hash, amount, hotkey).state, hash)
  {
    var paid := s.(ledger := Consolidated(s, env, hotkey, Pulled(s, env, amount, hotkey).after).1);
    LedgerIrrelevant(s, paid.ledger, hash);
    RecordKeepsIds(paid, env, hash, amount, hotkey);
  }

  lemma LedgerIrrelevant(s: State, ledger: Ledger, hash: bytes -> Hash)
    requires IdsOk(s, hash)
    ensures IdsOk(s.(ledger := ledger), hash)
  {
    var s' := s.(ledger := ledger);
    assert forall id :: id in s.deposits ==> DepositNamed(s, hash, id, s.deposits[id]) ==> DepositNamed(s', hash, id, s.deposits[id]);
    assert forall id :: id in s.withdrawals ==> WithdrawalNamed(s, hash, id, s.withdrawals[id]) ==> WithdrawalNamed(s', hash, id, s.withdrawals[id]);
  }

  /** A vote that is accepted names the record's own recipient and amount. */
  lemma VoteNamesRecord(s: State, s': State, hash: bytes -> Hash, id: Hash, recipient: AccountId, amount: u64, nonce: u64)
    requires IdsOk(s, hash) && id in s.withdrawals
    requires hash(WithdrawalPreimage(recipient, amount, nonce)) == id
    requires s'.hashed == s.hashed + {WithdrawalPreimage(recipient, amount, nonce)} && CollisionFree(hash, s'.hashed)
    ensures s.withdrawals[id].recipient == recipient && s.withdrawals[id].amount == amount
  {
    var w := s.withdrawals[id];
    assert WithdrawalNamed(s, hash, id, w);
    var n: u64 :| WithdrawalPreimage(w.recipient, w.amount, n) in s.hashed && hash(WithdrawalPreimage(w.recipient, w.amount, n)) == id;
    WithdrawalPreimageInjective(w.recipient, w.amount, n, recipient, amount, nonce);
  }

  /** The record after a vote: named by the id, and every vote in it, the new one included, for its terms. */
  lemma VotedRecordNamed(s: State, s': State, env: Env, hash: bytes -> Hash, id: Hash, recipient: AccountId, amount: u64, nonce: u64)
    requires IdsOk(s, hash) && env.caller in s.guardians
    requires hash(WithdrawalPreimage(recipient, amount, nonce)) == id
    requires s'.hashed == s.hashed + {WithdrawalPreimage(recipient, amount, nonce)} && CollisionFree(hash, s'.hashed)
    requires s'.log == s.log + [Voted(id, env.caller, s.guardians, recipient, amount)]
    ensures WithdrawalNamed(s', hash, id, VotedRecord(s, env, id, recipient, amount))
    ensures VotesMatch(s'.log, id, VotedRecord(s, env, id, recipient, amount))
    ensures VotedRecord(s, env, id, recipient, amount).recipient == recipient && VotedRecord(s, env, id, recipient, amount).amount == amount
  {
    var e := Voted(id, env.caller, s.guardians, recipient, amount);
    var w := VotedRecord(s, env, id, recipient, amount);
    SinceAppend(s.log, e, id);
    assert e in Since(s'.log, id) && IsVote(e, id, env.caller);
    assert WithdrawalPreimage(recipient, amount, nonce) in s'.hashed;
    if id in s.withdrawals {
      VoteNamesRecord(s, s', hash, id, recipient, amount, nonce);
      VotesMatchStay(s.log, e, id, s.withdrawals[id]);
    }
    assert VotedFor(s'.log, id, env.caller, w.recipient, w.amount);
  }

  /** The state right after an accepted vote has been recorded, before the threshold is looked at. */
  function AfterVote(s: State, env: Env, id: Hash, recipient: AccountId, amount: u64, nonce: u64): (s': State) {
    s.(hashed := s.hashed + {WithdrawalPreimage(recipient, amount, nonce)},
       log := s.log + [Voted(id, env.caller, s.guardians, recipient, amount)],
       withdrawals := s.withdrawals[id := VotedRecord(s, env, id, recipient, amount)])
  }

  lemma VoteKeepsIds(s: State, env: Env, hash: bytes -> Hash, id: Hash, recipient: AccountId, amount: u64, nonce: u64)
    requires IdsOk(s, hash) && env.caller in s.guardians
    requires hash(WithdrawalPreimage(recipient, amount, nonce)) == id
    requires CollisionFree(hash, AfterVote(s, env, id, recipient, amount, nonce).hashed)
    ensures IdsOk(AfterVote(s, env, id, recipient, amount, nonce), hash)
  {
    var mid := AfterVote(s, env, id, recipient, amount, nonce);
    var e := Voted(id, env.caller, s.guardians, recipient, amount);
    VotedRecordNamed(s, mid, env, hash, id, recipient, amount, nonce);
    DepositCountAppend(s.log, e);
    ReleasesMatchAppend(s.log, e);
    forall x | x in mid.withdrawals ensures WithdrawalNamed(mid, hash, x, mid.withdrawals[x]) && VotesMatch(mid.log, x, mid.withdrawals[x]) {
      if x != id {
        OtherRecord(s, mid, hash, e, x);
      }
    }
  }

  lemma FinalizeKeepsIds(s: State, env: Env, hash: bytes -> Hash, id: Hash, w: Withdrawal)
    requires IdsOk(s.(withdrawals := s.withdrawals[id := w]), hash)
    requires Finalize(s, env, id, w).Ok?
    ensures IdsOk(Finalize(s, env, id, w).state, hash)
  {
    WithdrawalsRevised(s.(withdrawals := s.withdrawals[id := w]), Finalize(s, env, id, w).state, hash,
                       Released(id, w.recipient, w.amount, s.threshold, w.votes, env.block));
  }

  lemma Voting(s: State, env: Env, hash: bytes -> Hash, id: Hash, recipient: AccountId, amount: u64, nonce: u64)
    requires IdsOk(s, hash)
    requires DoAttest(s, env, hash, id, recipient, amount, nonce).Ok?
    requires CollisionFree(hash, DoAttest(s, env, hash, id, recipient, amount, nonce).state.hashed)
    ensures IdsOk(DoAttest(s, env, hash, id, recipient, amount, nonce).state, hash)
  {
    var mid := AfterVote(s, env, id, recipient, amount, nonce);
    var w := VotedRecord(s, env, id, recipient, amount);
    VoteKeepsIds(s, env, hash, id, recipient, amount, nonce);
    if |w.votes| >= s.threshold {
      var unstored := mid.(withdrawals := s.withdrawals);
      assert unstored.(withdrawals := unstored.withdrawals[id := w]) == mid;
      FinalizeKeepsIds(unstored, env, hash, id, w);
    }
  }

  predicate PaysRecord(e: Event, w: Withdrawal)
    requires e.Released?
  {
    e.recipient == w.recipient && e.amount == w.amount && e.votes == w.votes
  }

  /** A step that logs one event and changes at most the statuses of records. */
  lemma WithdrawalsRevised(s: State, s': State, hash: bytes -> Hash, e: Event)
    requires IdsOk(s, hash)
    requires s'.log == s.log + [e] && s'.hashed == s.hashed && !e.DepositMade?
    requires e.Released? ==> e.id in s.withdrawals && PaysRecord(e, s.withdrawals[e.id])
    requires s'.deposits == s.deposits && s'.nonceIndex == s.nonceIndex && s'.nextNonce == s.nextNonce
    requires forall x :: x in s'.withdrawals ==> x in s.withdrawals && !Cleans(e, x) && SameTerms(s.withdrawals[x], s'.withdrawals[x])
    ensures IdsOk(s', hash)
  {
    DepositCountAppend(s.log, e);
    ReleasesMatchAppend(s.log, e);
    forall x | x in s'.withdrawals ensures WithdrawalNamed(s', hash, x, s'.withdrawals[x]) && VotesMatch(s'.log, x, s'.withdrawals[x]) {
      OtherRecord(s, s', hash, e, x);
    }
  }

  /** A step that logs one event and changes at most the status of a deposit, or removes one from both tables. */
  lemma DepositsRevised(s: State, s': State, hash: bytes -> Hash, e: Event)
    requires IdsOk(s, hash)
    requires e.DepositCleaned? || e.DepositFailed?
    requires s'.log == s.log + [e] && s'.hashed == s.hashed
    requires s'.withdrawals == s.withdrawals && s'.nextNonce == s.nextNonce
    requires TablesInverse(s')
    requires forall x :: x in s'.deposits ==> x in s.deposits && SameDeposit(s.deposits[x], s'.deposits[x])
    ensures IdsOk(s', hash)
  {
    DepositCountAppend(s.log, e);
    ReleasesMatchAppend(s.log, e);
    forall x | x in s'.withdrawals ensures WithdrawalNamed(s', hash, x, s'.withdrawals[x]) && VotesMatch(s'.log, x, s'.withdrawals[x]) {
      OtherRecord(s, s', hash, e, x);
    }
  }

  lemma FailKeepsIds(s: State, env: Env, hash: bytes -> Hash, id: Hash)
    requires IdsOk(s, hash)
    requires DoAdmin(s, env, AdminFailDeposit(id)).Ok?
    ensures IdsOk(DoAdmin(s, env, AdminFailDeposit(id)).state, hash)
  {
    DepositsRevised(s, DoAdmin(s, env, AdminFailDeposit(id)).state, hash, DepositFailed(id));
  }

  lemma AdminKeepsIds(s: State, env: Env, hash: bytes -> Hash, m: Message)
    requires IdsOk(s, hash) && OwnerOnly(m)
    requires DoAdmin(s, env, m).Ok?
    ensures IdsOk(DoAdmin(s, env, m).state, hash)
  {
    if m.AdminFailDeposit? {
      FailKeepsIds(s, env, hash, m.id);
    } else {
      var s' := DoAdmin(s, env, m).state;
      var e := s'.log[|s.log|];
      assert s'.log == s.log + [e];
      WithdrawalsRevised(s, s', hash, e);
    }
  }

  lemma CleanupKeepsIds(s: State, env: Env, hash: bytes -> Hash, m: Message)
    requires IdsOk(s, hash) && (m.CleanupDeposit? || m.CleanupWithdrawal?)
    requires Handle(s, env, hash, m).Ok?
    ensures IdsOk(Handle(s, env, hash, m).state, hash)
  {
    var s' := Handle(s, env, hash, m).state;
    if m.CleanupDeposit? {
      DepositsRevised(s, s', hash, DepositCleaned(m.id));
    } else {
      WithdrawalsRevised(s, s', hash, WithdrawalCleaned(m.id, env.block, s.ttl));
    }
  }

  lemma StepKeepsIds(s: State, hash: bytes -> Hash, step: Step)
    requires IdsOk(s, hash)
    requires CollisionFree(hash, Apply(s, hash, step).hashed)
    ensures IdsOk(Apply(s, hash, step), hash)
  {
    if step.Call? && Handle(s, step.env, hash, step.message).Ok? {
      var env, m := step.env, step.message;
      if m.Deposit? {
        NewDeposit(s, env, hash, m.amount, m.hotkey);
      } else if m.AttestWithdrawal? {
        Voting(s, env, hash, m.id, m.recipient, m.amount, m.nonce);
      } else if OwnerOnly(m) {
        AdminKeepsIds(s, env, hash, m);
      } else {
        CleanupKeepsIds(s, env, hash, m);
      }
    }
  }

  // -------- every run --------

  lemma {:induction false} RunKeepsIds(s: State, hash: bytes -> Hash, steps: seq<Step>)
    requires IdsOk(s, hash)
    requires CollisionFree(hash, Run(s, hash, steps).hashed)
    ensures IdsOk(Run(s, hash, steps), hash)
    decreases |steps|
  {
    if steps != [] {
      var front, last := steps[..|steps| - 1], steps[|steps| - 1];
      StepGrows(Run(s, hash, front), hash, last);
      RunKeepsIds(s, hash, front);
      StepKeepsIds(Run(s, hash, front), hash, last);
    }
  }

  lemma ReachableIdsOk(hash: bytes -> Hash, s: State)
    requires Reachable(hash, s) && CollisionFree(hash, s.hashed)
    ensures IdsOk(s, hash)
  {
    var self, owner, chainId, hotkey, ledger, steps :| s == Run(Init(self, owner, chainId, hotkey, ledger), hash, steps);
    RunKeepsIds(Init(self, owner, chainId, hotkey, ledger), hash, steps);
  }

  /**
   In every run the deposit table and the nonce index are inverse to each other, the next nonce is the number of
   deposits made, and every id is the hash of its record's own terms.
   */
  lemma DepositTables(hash: bytes -> Hash, s: State)
    requires Reachable(hash, s) && CollisionFree(hash, s.hashed)
    ensures forall id :: id in s.deposits ==> s.deposits[id].nonce in s.nonceIndex && s.nonceIndex[s.deposits[id].nonce] == id
    ensures forall n :: n in s.nonceIndex ==> n < s.nextNonce && s.nonceIndex[n] in s.deposits && s.deposits[s.nonceIndex[n]].nonce == n
    ensures s.nextNonce == DepositCount(s.log)
    ensures forall id :: id in s.deposits ==>
              var d := s.deposits[id]; hash(DepositPreimage(d.sender, d.amount, d.nonce)) == id
  {
    ReachableIdsOk(hash, s);
    forall id | id in s.deposits
      ensures var d := s.deposits[id]; hash(DepositPreimage(d.sender, d.amount, d.nonce)) == id
    {
      assert DepositNamed(s, hash, id, s.deposits[id]);
    }
  }

  /** A deposit never overwrites: its id and its nonce are both new. */
  lemma DepositNeverOverwrites(hash: bytes -> Hash, s: State, env: Env, amount: u64, hotkey: AccountId)
    requires Reachable(hash, s)
    requires DoDeposit(s, env, hash, amount, hotkey).Ok?
    requires CollisionFree(hash, DoDeposit(s, env, hash, amount, hotkey).state.hashed)
    ensures hash(DepositPreimage(env.caller, amount, s.nextNonce)) !in s.deposits && s.nextNonce !in s.nonceIndex
  {
    assert s.hashed <= DoDeposit(s, env, hash, amount, hotkey).state.hashed;
    ReachableIdsOk(hash, s);
    NewDeposit(s, env, hash, amount, hotkey);
  }

  lemma NamesOneKind(hash: bytes -> Hash, s: State, id: Hash, d: DepositRequest, w: Withdrawal)
    requires CollisionFree(hash, s.hashed) && DepositNamed(s, hash, id, d)
    ensures !WithdrawalNamed(s, hash, id, w)
  {
    forall n: u64
      ensures !(WithdrawalPreimage(w.recipient, w.amount, n) in s.hashed && hash(WithdrawalPreimage(w.recipient, w.amount, n)) == id)
    {
      PreimagesDisjoint(d.sender, d.amount, d.nonce, w.recipient, w.amount, n);
    }
  }

  /** No id names both a deposit and a withdrawal. */
  lemma IdsNeverShared(hash: bytes -> Hash, s: State)
    requires Reachable(hash, s) && CollisionFree(hash, s.hashed)
    ensures s.deposits.Keys !! s.withdrawals.Keys
  {
    ReachableIdsOk(hash, s);
    forall id | id in s.deposits && id in s.withdrawals ensures false {
      NamesOneKind(hash, s, id, s.deposits[id], s.withdrawals[id]);
    }
  }

  /** Every vote a record counts was cast, since its last clean-up, by a guardian for the record's own recipient and amount. */
  lemma VotesAreForTheRecord(hash: bytes -> Hash, s: State, id: Hash, v: AccountId)
    requires Reachable(hash, s) && CollisionFree(hash, s.hashed)
    requires id in s.withdrawals && v in s.withdrawals[id].votes
    ensures VotedFor(s.log, id, v, s.withdrawals[id].recipient, s.withdrawals[id].amount)
  {
    ReachableIdsOk(hash, s);
    assert VotesMatch(s.log, id, s.withdrawals[id]);
  }

  /** What may become of a deposit record: only its status changes, from requested to failed. */
  predicate LaterDeposits(s: State, s': State) {
    forall id :: id in s.deposits ==>
      && id in s'.deposits && SameDeposit(s.deposits[id], s'.deposits[id])
      && (s.deposits[id].status == Failed ==> s'.deposits[id].status == Failed)
  }

  /**
   A deposit record keeps everything but its status, which only goes to failed, until a guardian removes it, with its
   nonce, past its time-to-live.
   */
  lemma DepositsLater(hash: bytes -> Hash, s: State, step: Step)
    requires Reachable(hash, s) && CollisionFree(hash, Apply(s, hash, step).hashed)
    ensures var s' := Apply(s, hash, step);
            || LaterDeposits(s, s')
            || (&& step.Call? && step.message.CleanupDeposit? && step.env.caller in s.guardians
                && step.message.id in s.deposits
                && step.env.block >= SatAdd32(s.deposits[step.message.id].createdAt, s.ttl)
                && s'.deposits == s.deposits - {step.message.id}
                && s'.nonceIndex == s.nonceIndex - {s.deposits[step.message.id].nonce})
  {
    if step.Call? && Handle(s, step.env, hash, step.message).Ok? {
      var env, m := step.env, step.message;
      if m.Deposit? {
        DepositAdds(hash, s, env, m.amount, m.hotkey);
      } else if OwnerOnly(m) {
        AdminDeposits(s, env, m);
      } else if !m.CleanupDeposit? {
        WithdrawalsKeepDeposits(s, env, hash, m);
      }
    }
  }

  lemma WithdrawalsKeepDeposits(s: State, env: Env, hash: bytes -> Hash, m: Message)
    requires m.AttestWithdrawal? || m.CleanupWithdrawal?
    requires Handle(s, env, hash, m).Ok?
    ensures Handle(s, env, hash, m).state.deposits == s.deposits
  {
  }

  lemma DepositAdds(hash: bytes -> Hash, s: State, env: Env, amount: u64, hotkey: AccountId)
    requires Reachable(hash, s)
    requires DoDeposit(s, env, hash, amount, hotkey).Ok?
    requires CollisionFree(hash, DoDeposit(s, env, hash, amount, hotkey).state.hashed)
    ensures LaterDeposits(s, DoDeposit(s, env, hash, amount, hotkey).state)
  {
    DepositNeverOverwrites(hash, s, env, amount, hotkey);
  }

  lemma AdminDeposits(s: State, env: Env, m: Message)
    requires OwnerOnly(m) && DoAdmin(s, env, m).Ok?
    ensures LaterDeposits(s, DoAdmin(s, env, m).state)
  {
  }

  /** Every vote behind a release was cast, since the record's last clean-up, for the very recipient and amount it paid. */
  lemma ReleasesPayWhatWasVoted(hash: bytes -> Hash, s: State, i: nat, v: AccountId)
    requires Reachable(hash, s) && CollisionFree(hash, s.hashed)
    requires i < |s.log| && s.log[i].Released? && v in s.log[i].votes
    ensures exists k :: 0 <= k < i && IsVote(s.log[k], s.log[i].id, v)
                        && s.log[k].recipient == s.log[i].recipient && s.log[k].amount == s.log[i].amount
                        && Standing(s.log[..i], s.log[i].id, k)
  {
    ReachableIdsOk(hash, s);
    var r := s.log[i];
    assert ReleaseMatches(s.log[..i], r);
    var e :| e in Since(s.log[..i], r.id) && IsVote(e, r.id, v) && e.recipient == r.recipient && e.amount == r.amount;
    SinceMeans(s.log[..i], r.id, e);
  }

  /**
   A deposit is accepted exactly when the bridge is not paused, the amount is at least the minimum, every query it makes
   is answered, the caller has the stake, both sides of the transfer are seen to move by the amount less at most the
   tolerance, stake on a foreign hotkey can be moved, and a nonce is left. The multiplication never stands in the way.
   */
  lemma DepositAcceptedExactly(s: State, env: Env, hash: bytes -> Hash, amount: u64, hotkey: AccountId)
    ensures DoDeposit(s, env, hash, amount, hotkey).Ok? <==>
              && !s.paused && amount >= s.minDeposit && {0, 1, 2, 3} !! env.failing
              && StakeOf(s.ledger, env.caller, hotkey) >= amount
              && var pulled := env.transfer(StakeTransfer(env.caller, s.self, hotkey, s.chainId, amount));
              && pulled.Done?
              && Moved(StakeOf(s.ledger, env.caller, hotkey), StakeOf(pulled.after, env.caller, hotkey), amount)
              && Moved(StakeOf(pulled.after, s.self, hotkey), StakeOf(s.ledger, s.self, hotkey), amount)
              && (hotkey == s.contractHotkey
                  || (4 !in env.failing
                      && (var held := StakeOf(pulled.after, s.self, hotkey);
                          held == 0 || env.move(StakeMove(hotkey, s.contractHotkey, s.chainId, held)).Done?)))
              && s.nextNonce < MAX_U64
  {
    ScaledFits(amount);
    assert {0, 1, 2, 3} !! env.failing <==> 0 !in env.failing && 1 !in env.failing && 2 !in env.failing && 3 !in env.failing;
  }

  /** `high` exceeds `low` by the amount, short of it by at most ten; an amount up to ten may not have moved at all. */
  predicate Moved(high: nat, low: nat, amount: nat) {
    low + amount - 10 <= high <= low + amount || (amount <= 10 && high <= low)
  }
}
