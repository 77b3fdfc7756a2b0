/** Commitments of the audit VM: roots over sorted receipts and over sorted resource-class totals. */
module AuditVm {
  import opened ByteStrings
  import opened Sorting
  import opened Cbor
  import opened Canonical
  import opened Records
  import opened HostAttestor

  // -------- receipts --------

  datatype Receipt = Receipt(vmId: bytes, leaseId: bytes, seqNo: nat, digest: bytes)

  ghost predicate ReceiptTyped(r: Receipt) {
    IsString(r.vmId) && IsString(r.leaseId) && r.seqNo < TWO_64 && |r.digest| < TWO_64
  }

  ghost predicate ReceiptsTyped(s: seq<Receipt>) {
    |s| < TWO_64 && forall i :: 0 <= i < |s| ==> ReceiptTyped(s[i])
  }

  predicate SameTriple(a: Receipt, b: Receipt) {
    a.vmId == b.vmId && a.leaseId == b.leaseId && a.seqNo == b.seqNo
  }

  /** Order by vm, then lease, then sequence number. */
  predicate ReceiptLeq(a: Receipt, b: Receipt) {
    LexLess(a.vmId, b.vmId)
    || (a.vmId == b.vmId && (LexLess(a.leaseId, b.leaseId) || (a.leaseId == b.leaseId && a.seqNo <= b.seqNo)))
  }

  function ReceiptFields(): (f: seq<Field>) {
    [Field(Ascii("vm_id"), TextKind),
     Field(Ascii("digest"), BytesKind),
     Field(Ascii("lease_id"), TextKind),
     Field(Ascii("monotonic_seq"), UintKind(TWO_64))]
  }

  function ReceiptVals(r: Receipt): (x: FieldValue) {
    RecordVal([TextVal(r.vmId), BytesVal(r.digest), TextVal(r.leaseId), UintVal(r.seqNo)])
  }

  function ReceiptValue(r: Receipt): (v: Value)
    requires ReceiptTyped(r)
  {
    ToValue(RecordKind(ReceiptFields()), ReceiptVals(r))
  }

  function ReceiptValues(s: seq<Receipt>): (vs: seq<Value>)
    requires forall i :: 0 <= i < |s| ==> ReceiptTyped(s[i])
    ensures |vs| == |s| && forall i :: 0 <= i < |s| ==> vs[i] == ReceiptValue(s[i])
  {
    seq(|s|, i requires 0 <= i < |s| => ReceiptValue(s[i]))
  }

  predicate AdjacentSameTriple(s: seq<Receipt>) {
    exists i :: 0 <= i < |s| - 1 && SameTriple(s[i], s[i + 1])
  }

  /** The bytes `map_root` hashes, or failure. */
  function MapRootPreimage(entries: seq<Receipt>): (r: Option<bytes>)
    requires ReceiptsTyped(entries)
  {
    var sorted := Sort(entries, ReceiptLeq);
    SortedTyped(entries);
    if exists i :: 0 <= i < |sorted| && |sorted[i].digest| != 32 then None
    else if AdjacentSameTriple(sorted) then None
    else ToCanonicalVec(Array(ReceiptValues(sorted)))
  }

  lemma SortedTyped(s: seq<Receipt>)
    requires ReceiptsTyped(s)
    ensures ReceiptsTyped(Sort(s, ReceiptLeq))
  {
    SortPermutes(s, ReceiptLeq);
    var t := Sort(s, ReceiptLeq);
    forall i | 0 <= i < |t| ensures ReceiptTyped(t[i]) {
      SameElementsSameMembers(s, t, t[i]);
    }
  }

  lemma ReceiptOrder()
    ensures TotalPreorder(ReceiptLeq)
    ensures forall a, b :: ReceiptLeq(a, b) && ReceiptLeq(b, a) <==> SameTriple(a, b)
  {
    forall a: Receipt, b: Receipt
      ensures ReceiptLeq(a, b) || ReceiptLeq(b, a)
      ensures ReceiptLeq(a, b) && ReceiptLeq(b, a) <==> SameTriple(a, b)
    {
      LexTrichotomy(a.vmId, b.vmId);
      LexTrichotomy(a.leaseId, b.leaseId);
    }
    forall a: Receipt, b: Receipt, c: Receipt | ReceiptLeq(a, b) && ReceiptLeq(b, c) ensures ReceiptLeq(a, c) {
      ReceiptLeqTransitive(a, b, c);
    }
  }

  lemma ReceiptLeqTransitive(a: Receipt, b: Receipt, c: Receipt)
    requires ReceiptLeq(a, b) && ReceiptLeq(b, c)
    ensures ReceiptLeq(a, c)
  {
    if LexLess(a.vmId, b.vmId) && LexLess(b.vmId, c.vmId) {
      LexTransitive(a.vmId, b.vmId, c.vmId);
    } else if a.vmId == b.vmId == c.vmId && LexLess(a.leaseId, b.leaseId) && LexLess(b.leaseId, c.leaseId) {
      LexTransitive(a.leaseId, b.leaseId, c.leaseId);
    }
  }

  lemma ReceiptFieldsGood()
    ensures GoodKind(RecordKind(ReceiptFields()))
  {
    AscendingNamesDistinct(ReceiptFields());
  }

  /** A list of receipts always canonicalises, and its canonical bytes determine it. */
  lemma ReceiptListCanonical(s: seq<Receipt>)
    requires ReceiptsTyped(s)
    ensures WellFormed(Array(ReceiptValues(s))) && Canonicalize(Array(ReceiptValues(s))).Some?
  {
    var vs := ReceiptValues(s);
    forall i | 0 <= i < |vs| ensures WellFormed(vs[i]) && Canonicalize(vs[i]).Some? {
      ReceiptConforms(s[i]);
    }
    ItemsPointwise(vs);
  }

  lemma ReceiptValsInjective(a: Receipt, b: Receipt)
    requires ReceiptVals(a) == ReceiptVals(b)
    ensures a == b
  {
    var x, y := ReceiptVals(a).vals, ReceiptVals(b).vals;
    assert x[0] == y[0] && x[1] == y[1] && x[2] == y[2] && x[3] == y[3];
  }

  lemma ReceiptConforms(r: Receipt)
    requires ReceiptTyped(r)
    ensures Conforms(RecordKind(ReceiptFields()), ReceiptVals(r))
    ensures Canonicalize(ReceiptValue(r)).Some? && WellFormed(ReceiptValue(r))
    ensures FromValue(RecordKind(ReceiptFields()), Canonicalize(ReceiptValue(r)).value) == Some(ReceiptVals(r))
  {
    ReceiptFieldsGood();
    ToValueWellFormed(RecordKind(ReceiptFields()), ReceiptVals(r));
    EncodedDecodes(RecordKind(ReceiptFields()), ReceiptVals(r));
  }

  lemma ReceiptDetermined(a: Receipt, b: Receipt)
    requires ReceiptTyped(a) && ReceiptTyped(b)
    requires Canonicalize(ReceiptValue(a)) == Canonicalize(ReceiptValue(b))
    ensures a == b
  {
    ReceiptConforms(a);
    ReceiptConforms(b);
    ReceiptValsInjective(a, b);
  }

  lemma ReceiptListDetermined(s: seq<Receipt>, t: seq<Receipt>)
    requires ReceiptsTyped(s) && ReceiptsTyped(t)
    requires ToCanonicalVec(Array(ReceiptValues(s))) == ToCanonicalVec(Array(ReceiptValues(t)))
    ensures s == t
  {
    var vs, ws := ReceiptValues(s), ReceiptValues(t);
    ReceiptListCanonical(s);
    ReceiptListCanonical(t);
    CanonicalizeWellFormed(Array(vs));
    CanonicalizeWellFormed(Array(ws));
    EncodeInjective(Canonicalize(Array(vs)).value, Canonicalize(Array(ws)).value);
    ItemsPointwise(vs);
    ItemsPointwise(ws);
    forall i | 0 <= i < |s| ensures s[i] == t[i] {
      ReceiptDetermined(s[i], t[i]);
    }
  }

  /** Two entries anywhere in the list share (vm, lease, seq). */
  ghost predicate RepeatsTriple(s: seq<Receipt>) {
    exists i, j :: 0 <= i < j < |s| && SameTriple(s[i], s[j])
  }

  ghost predicate HasBadDigest(s: seq<Receipt>) {
    exists i :: 0 <= i < |s| && |s[i].digest| != 32
  }

  lemma SortedScan(s: seq<Receipt>)
    ensures AdjacentSameTriple(Sort(s, ReceiptLeq)) <==> RepeatsTriple(s)
    ensures HasBadDigest(Sort(s, ReceiptLeq)) <==> HasBadDigest(s)
  {
    var t := Sort(s, ReceiptLeq);
    ReceiptOrder();
    SortRevealsTies(s, ReceiptLeq);
    SortSorts(s, ReceiptLeq);
    assert AdjacentSameTriple(t) <==> AdjacentTie(t, ReceiptLeq) by {
      forall i | 0 <= i < |t| - 1 ensures SameTriple(t[i], t[i + 1]) <==> ReceiptLeq(t[i + 1], t[i]) {
        assert ReceiptLeq(t[i], t[i + 1]);
      }
    }
    SortPermutes(s, ReceiptLeq);
    BadDigestRearranged(s, t);
    BadDigestRearranged(t, s);
  }

  lemma BadDigestRearranged(s: seq<Receipt>, t: seq<Receipt>)
    requires multiset(s) == multiset(t)
    ensures HasBadDigest(s) ==> HasBadDigest(t)
  {
    if i :| 0 <= i < |s| && |s[i].digest| != 32 {
      SameElementsSameMembers(s, t, s[i]);
    }
  }

  /** `map_root` fails exactly when some digest is not 32 bytes or some (vm, lease, seq) occurs twice. */
  lemma MapRootFailsExactly(entries: seq<Receipt>)
    requires ReceiptsTyped(entries)
    ensures MapRootPreimage(entries).None? <==> HasBadDigest(entries) || RepeatsTriple(entries)
  {
    SortedScan(entries);
    SortedTyped(entries);
    ReceiptListCanonical(Sort(entries, ReceiptLeq));
  }

  lemma RepeatsRearranged(s: seq<Receipt>, t: seq<Receipt>)
    requires multiset(s) == multiset(t)
    ensures RepeatsTriple(s) ==> RepeatsTriple(t)
  {
    ReceiptOrder();
    if !RepeatsTriple(t) {
      assert NoTies(t, ReceiptLeq);
      NoTiesRearranged(t, s, ReceiptLeq);
    }
  }

  /** The root commits to the collection of receipts: order never matters, content always does. */
  lemma MapRootCommits(a: seq<Receipt>, b: seq<Receipt>)
    requires ReceiptsTyped(a) && ReceiptsTyped(b)
    ensures multiset(a) == multiset(b) ==> MapRootPreimage(a) == MapRootPreimage(b)
    ensures MapRootPreimage(a).Some? && MapRootPreimage(a) == MapRootPreimage(b) ==> multiset(a) == multiset(b)
  {
    MapRootFailsExactly(a);
    MapRootFailsExactly(b);
    if multiset(a) == multiset(b) {
      RepeatsRearranged(a, b);
      RepeatsRearranged(b, a);
      BadDigestRearranged(a, b);
      BadDigestRearranged(b, a);
      if MapRootPreimage(a).Some? {
        ReceiptOrder();
        assert NoTies(a, ReceiptLeq);
        SortForgetsOrder(a, b, ReceiptLeq);
      }
    }
    if MapRootPreimage(a).Some? && MapRootPreimage(a) == MapRootPreimage(b) {
      SortedTyped(a);
      SortedTyped(b);
      ReceiptListDetermined(Sort(a, ReceiptLeq), Sort(b, ReceiptLeq));
      SortPermutes(a, ReceiptLeq);
      SortPermutes(b, ReceiptLeq);
    }
  }

  /** The root as it is computed; sha stands for SHA-256. */
  method MapRoot(entries: seq<Receipt>, sha: bytes -> bytes) returns (r: Option<bytes>)
    requires ReceiptsTyped(entries)
    ensures MapRootPreimage(entries).None? ==> r.None?
    ensures MapRootPreimage(entries).Some? ==> r == Some(sha(MapRootPreimage(entries).value))
  {
    var sorted := Sort(entries, ReceiptLeq);
    SortedTyped(entries);
    for i := 0 to |sorted|
      invariant forall k :: 0 <= k < i ==> |sorted[k].digest| == 32
    {
      if |sorted[i].digest| != 32 { return None; }
    }
    var i := 0;
    while i + 1 < |sorted|
      invariant forall k :: 0 <= k < i && k + 1 < |sorted| ==> !SameTriple(sorted[k], sorted[k + 1])
      decreases |sorted| - i
    {
      if SameTriple(sorted[i], sorted[i + 1]) { return None; }
      i := i + 1;
    }
    var bytes := ToCanonicalVec(Array(ReceiptValues(sorted)));
    if bytes.None? { return None; }
    r := Some(sha(bytes.value));
  }

  // -------- 128-bit quantities --------

  function StripZeros(s: bytes): (r: bytes) {
    if s != [] && s[0] == 0 then StripZeros(s[1..]) else s
  }

  /** An unsigned integer below 2^64, otherwise tag 2 over the shortest big-endian string. */
  function CanonicalU128(n: nat): (v: Value) {
    if n < TWO_64 then Int(n) else Tag(2, Bytes(StripZeros(BigEndian(n, 16))))
  }

  method ComputeCanonicalU128(n: nat) returns (v: Value)
    requires n < TWO_128
    ensures v == CanonicalU128(n)
  {
    if n < TWO_64 { return Int(n); }
    var raw := BigEndian(n, 16);
    var start := 0;
    while start < |raw| && raw[start] == 0
      invariant 0 <= start <= |raw|
      invariant StripZeros(raw) == StripZeros(raw[start..])
    {
      assert raw[start..][1..] == raw[start + 1..];
      start := start + 1;
    }
    v := Tag(2, Bytes(raw[start..]));
  }

  lemma {:induction false} LeadingZeroFree(s: bytes)
    requires s != [] && s[0] == 0
    ensures FromBigEndian(s) == FromBigEndian(s[1..])
  {
    var n := |s| - 1;
    if n > 0 {
      LeadingZeroFree(s[..n]);
      assert s[1..][..n - 1] == s[..n][1..];
    }
  }

  lemma {:induction false} StripZerosKeepsValue(s: bytes)
    ensures FromBigEndian(StripZeros(s)) == FromBigEndian(s)
    ensures StripZeros(s) != [] ==> StripZeros(s)[0] != 0
    ensures |StripZeros(s)| <= |s|
  {
    if s != [] && s[0] == 0 {
      LeadingZeroFree(s);
      StripZerosKeepsValue(s[1..]);
    }
  }

  lemma {:induction false} Pow256Grows(j: nat, k: nat)
    requires j <= k
    ensures Pow256(j) <= Pow256(k)
  {
    if j < k { Pow256Grows(j, k - 1); }
  }

  /** The bignum form is 9 to 16 bytes, starts with a nonzero byte and has value n. */
  lemma U128Minimal(n: nat)
    requires TWO_64 <= n < TWO_128
    ensures CanonicalU128(n).Tag? && CanonicalU128(n).tag == 2 && CanonicalU128(n).content.Bytes?
    ensures var b := CanonicalU128(n).content.b; 9 <= |b| <= 16 && b[0] != 0 && FromBigEndian(b) == n
  {
    Pow256Widths();
    BigEndianRoundTrip(n, 16);
    var raw := BigEndian(n, 16);
    StripZerosKeepsValue(raw);
    var b := StripZeros(raw);
    FromBigEndianBound(b);
    if |b| < 9 { Pow256Grows(|b|, 8); }
  }

  lemma U128Injective(m: nat, n: nat)
    requires m < TWO_128 && n < TWO_128 && CanonicalU128(m) == CanonicalU128(n)
    ensures m == n
  {
    if m >= TWO_64 { U128Minimal(m); }
    if n >= TWO_64 { U128Minimal(n); }
  }

  // -------- resource-class totals --------

  datatype Total = Total(class_: bytes, units: nat)

  ghost predicate TotalTyped(t: Total) { IsString(t.class_) && t.units < TWO_128 }

  ghost predicate TotalsTyped(s: seq<Total>) {
    |s| < TWO_64 && forall i :: 0 <= i < |s| ==> TotalTyped(s[i])
  }

  predicate ClassLeq(a: Total, b: Total) { !LexLess(b.class_, a.class_) }

  function TotalValue(t: Total): (v: Value) {
    Map([Entry(Text(Ascii("class")), Text(t.class_)), Entry(Text(Ascii("served_units")), CanonicalU128(t.units))])
  }

  function TotalValues(s: seq<Total>): (vs: seq<Value>)
    ensures |vs| == |s| && forall i :: 0 <= i < |s| ==> vs[i] == TotalValue(s[i])
  {
    seq(|s|, i requires 0 <= i < |s| => TotalValue(s[i]))
  }

  predicate AdjacentSameClass(s: seq<Total>) {
    exists i :: 0 <= i < |s| - 1 && s[i].class_ == s[i + 1].class_
  }

  /** The bytes `totals_root` hashes, or failure. */
  function TotalsRootPreimage(totals: seq<Total>): (r: Option<bytes>) {
    var sorted := Sort(totals, ClassLeq);
    if AdjacentSameClass(sorted) then None else ToCanonicalVec(Array(TotalValues(sorted)))
  }

  lemma ClassOrder()
    ensures TotalPreorder(ClassLeq)
    ensures forall a, b :: ClassLeq(a, b) && ClassLeq(b, a) <==> a.class_ == b.class_
  {
    forall a: Total, b: Total
      ensures ClassLeq(a, b) || ClassLeq(b, a)
      ensures ClassLeq(a, b) && ClassLeq(b, a) <==> a.class_ == b.class_
    {
      LexTrichotomy(a.class_, b.class_);
    }
    forall a: Total, b: Total, c: Total | ClassLeq(a, b) && ClassLeq(b, c) ensures ClassLeq(a, c) {
      ClassLeqTransitive(a, b, c);
    }
  }

  lemma ClassLeqTransitive(a: Total, b: Total, c: Total)
    requires ClassLeq(a, b) && ClassLeq(b, c)
    ensures ClassLeq(a, c)
  {
    LexTrichotomy(a.class_, b.class_);
    LexTrichotomy(b.class_, c.class_);
    LexTrichotomy(a.class_, c.class_);
    if LexLess(a.class_, b.class_) && LexLess(b.class_, c.class_) {
      LexTransitive(a.class_, b.class_, c.class_);
    }
  }

  lemma U128WellFormed(n: nat)
    requires n < TWO_128
    ensures WellFormed(CanonicalU128(n))
  {
    if n >= TWO_64 {
      U128Minimal(n);
      assert WellFormed(Bytes(CanonicalU128(n).content.b));
    }
  }

  lemma TwoEntryMap(e: Entry, f: Entry)
    requires EntryWellFormed(e) && EntryWellFormed(f) && IsCanonicalEntry(e) && IsCanonicalEntry(f)
    requires LexLess(Encode(e.key), Encode(f.key))
    ensures WellFormed(Map([e, f])) && IsCanonical(Map([e, f]))
  {
  }

  lemma TotalValueCanonical(t: Total)
    requires TotalTyped(t)
    ensures WellFormed(TotalValue(t)) && IsCanonical(TotalValue(t))
  {
    U128WellFormed(t.units);
    PlainEntry("class", Text(t.class_));
    PlainEntry("served_units", CanonicalU128(t.units));
    TextKeyOrder(Ascii("class"), Ascii("served_units"));
    var es := TotalValue(t).entries;
    TwoEntryMap(es[0], es[1]);
  }

  lemma TotalListCanonical(s: seq<Total>)
    requires TotalsTyped(s)
    ensures WellFormed(Array(TotalValues(s))) && IsCanonical(Array(TotalValues(s)))
    ensures ToCanonicalVec(Array(TotalValues(s))) == Some(Encode(Array(TotalValues(s))))
  {
    forall i | 0 <= i < |s| ensures WellFormed(TotalValues(s)[i]) && IsCanonical(TotalValues(s)[i]) {
      TotalValueCanonical(s[i]);
    }
    CanonicalIsFixed(Array(TotalValues(s)));
  }

  lemma TotalsSorted(s: seq<Total>)
    ensures AdjacentSameClass(Sort(s, ClassLeq)) <==> !NoTies(s, ClassLeq)
    ensures TotalsTyped(s) ==> TotalsTyped(Sort(s, ClassLeq))
  {
    var t := Sort(s, ClassLeq);
    ClassOrder();
    SortRevealsTies(s, ClassLeq);
    SortSorts(s, ClassLeq);
    assert AdjacentSameClass(t) <==> AdjacentTie(t, ClassLeq) by {
      forall i | 0 <= i < |t| - 1 ensures t[i].class_ == t[i + 1].class_ <==> ClassLeq(t[i + 1], t[i]) {
        assert ClassLeq(t[i], t[i + 1]);
      }
    }
    SortPermutes(s, ClassLeq);
    forall i | TotalsTyped(s) && 0 <= i < |t| ensures TotalTyped(t[i]) {
      SameElementsSameMembers(s, t, t[i]);
    }
  }

  lemma TotalListDetermined(s: seq<Total>, t: seq<Total>)
    requires TotalsTyped(s) && TotalsTyped(t)
    requires ToCanonicalVec(Array(TotalValues(s))) == ToCanonicalVec(Array(TotalValues(t)))
    ensures s == t
  {
    TotalListCanonical(s);
    TotalListCanonical(t);
    EncodeInjective(Array(TotalValues(s)), Array(TotalValues(t)));
    forall i | 0 <= i < |s| ensures s[i] == t[i] {
      assert TotalValue(s[i]).entries[0] == TotalValue(t[i]).entries[0];
      assert TotalValue(s[i]).entries[1] == TotalValue(t[i]).entries[1];
      U128Injective(s[i].units, t[i].units);
    }
  }

  lemma TotalsRootFailsExactly(a: seq<Total>)
    requires TotalsTyped(a)
    ensures TotalsRootPreimage(a).None? <==> exists i, j :: 0 <= i < j < |a| && a[i].class_ == a[j].class_
    ensures TotalsRootPreimage(a).None? <==> !NoTies(a, ClassLeq)
  {
    ClassOrder();
    TotalsSorted(a);
    TotalListCanonical(Sort(a, ClassLeq));
  }

  lemma TotalsRootForgetsOrder(a: seq<Total>, b: seq<Total>)
    requires TotalsTyped(a) && TotalsTyped(b) && multiset(a) == multiset(b)
    ensures TotalsRootPreimage(a) == TotalsRootPreimage(b)
  {
    ClassOrder();
    TotalsRootFailsExactly(a);
    TotalsRootFailsExactly(b);
    if NoTies(a, ClassLeq) {
      SortForgetsOrder(a, b, ClassLeq);
    } else if NoTies(b, ClassLeq) {
      SortForgetsOrder(b, a, ClassLeq);
    }
  }

  lemma TotalsRootDetermines(a: seq<Total>, b: seq<Total>)
    requires TotalsTyped(a) && TotalsTyped(b)
    requires TotalsRootPreimage(a).Some? && TotalsRootPreimage(a) == TotalsRootPreimage(b)
    ensures multiset(a) == multiset(b)
  {
    TotalsSorted(a);
    TotalsSorted(b);
    TotalListDetermined(Sort(a, ClassLeq), Sort(b, ClassLeq));
    SortPermutes(a, ClassLeq);
    SortPermutes(b, ClassLeq);
  }

  /** The root commits to every class total, whatever the order; it fails exactly on a repeated class. */
  lemma TotalsRootCommits(a: seq<Total>, b: seq<Total>)
    requires TotalsTyped(a) && TotalsTyped(b)
    ensures TotalsRootPreimage(a).None? <==> exists i, j :: 0 <= i < j < |a| && a[i].class_ == a[j].class_
    ensures multiset(a) == multiset(b) ==> TotalsRootPreimage(a) == TotalsRootPreimage(b)
    ensures TotalsRootPreimage(a).Some? && TotalsRootPreimage(a) == TotalsRootPreimage(b) ==> multiset(a) == multiset(b)
  {
    TotalsRootFailsExactly(a);
    if multiset(a) == multiset(b) {
      TotalsRootForgetsOrder(a, b);
    }
    if TotalsRootPreimage(a).Some? && TotalsRootPreimage(a) == TotalsRootPreimage(b) {
      TotalsRootDetermines(a, b);
    }
  }

  method TotalsRoot(totals: seq<Total>, sha: bytes -> bytes) returns (r: Option<bytes>)
    ensures TotalsRootPreimage(totals).None? ==> r.None?
    ensures TotalsRootPreimage(totals).Some? ==> r == Some(sha(TotalsRootPreimage(totals).value))
  {
    var sorted := Sort(totals, ClassLeq);
    var i := 0;
    while i + 1 < |sorted|
      invariant forall k :: 0 <= k < i && k + 1 < |sorted| ==> sorted[k].class_ != sorted[k + 1].class_
      decreases |sorted| - i
    {
      if sorted[i].class_ == sorted[i + 1].class_ { return None; }
      i := i + 1;
    }
    var bytes := ToCanonicalVec(Array(TotalValues(sorted)));
    if bytes.None? { return None; }
    r := Some(sha(bytes.value));
  }
}
