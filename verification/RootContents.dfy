/** What the receipt root and the totals root are roots of, read from the bytes that are hashed. */
module RootContents {
  import opened ByteStrings
  import opened Sorting
  import opened Cbor
  import opened Canonical
  import opened Records
  import opened Lookups
  import opened HostAttestor
  import opened AuditVm

  /** The text-keyed map a value is. */
  function MapOf(v: Value): (m: Option<StringKeyed>) { if v.Map? then StringMap(v.entries) else None }

  // -------- receipts --------

  /** Strictly earlier by vm, then lease, then sequence number. */
  predicate Before(a: Receipt, b: Receipt) {
    || LexLess(a.vmId, b.vmId)
    || (a.vmId == b.vmId && LexLess(a.leaseId, b.leaseId))
    || (a.vmId == b.vmId && a.leaseId == b.leaseId && a.seqNo < b.seqNo)
  }

  /** The value is a map with exactly the four keys of a receipt, holding r's own values. */
  ghost predicate ReceiptItem(v: Value, r: Receipt) {
    && MapOf(v).Some? && |MapOf(v).value| == 4
    && HoldsText(MapOf(v).value, "vm_id", r.vmId) && HoldsText(MapOf(v).value, "lease_id", r.leaseId)
    && HoldsUint(MapOf(v).value, "monotonic_seq", r.seqNo)
    && HoldsBytes(MapOf(v).value, "digest", r.digest) && |r.digest| == 32
  }

  lemma ReceiptReads(v: Value, r: Receipt)
    requires FromValue(RecordKind(ReceiptFields()), v) == Some(ReceiptVals(r)) && |r.digest| == 32
    ensures ReceiptItem(v, r)
  {
    var m, f, xs := MapOf(v).value, ReceiptFields(), ReceiptVals(r).vals;
    ReceiptFieldsGood();
    TakenBySize(f, m, xs);
    ReadsAll(f, xs, m);
    TextRead("vm_id", m, r.vmId);
    BytesRead("digest", m, r.digest);
    TextRead("lease_id", m, r.leaseId);
    UintRead("monotonic_seq", TWO_64, m, r.seqNo);
  }

  lemma ReceiptListReads(rs: seq<Receipt>, p: bytes)
    requires ReceiptsTyped(rs) && ToCanonicalVec(Array(ReceiptValues(rs))) == Some(p) && !HasBadDigest(rs)
    ensures Decode(p).Parsed? && Decode(p).rest == [] && Decode(p).value.Array? && |Decode(p).value.items| == |rs|
    ensures forall i :: 0 <= i < |rs| ==> ReceiptItem(Decode(p).value.items[i], rs[i])
  {
    var vs := ReceiptValues(rs);
    ReceiptListCanonical(rs);
    var c := Canonicalize(Array(vs)).value;
    CanonicalizeWellFormed(Array(vs));
    CanonicalizeIsCanonical(Array(vs));
    CanonicalPasses(c);
    ItemsPointwise(vs);
    forall i | 0 <= i < |rs| ensures ReceiptItem(c.items[i], rs[i]) {
      ReceiptConforms(rs[i]);
      ReceiptReads(c.items[i], rs[i]);
    }
  }

  lemma SortedReceipts(entries: seq<Receipt>)
    requires ReceiptsTyped(entries) && MapRootPreimage(entries).Some?
    ensures var rs := Sort(entries, ReceiptLeq);
            && multiset(rs) == multiset(entries) && |rs| == |entries| && !HasBadDigest(rs)
            && forall i :: 0 <= i < |rs| - 1 ==> Before(rs[i], rs[i + 1])
  {
    var rs := Sort(entries, ReceiptLeq);
    ReceiptOrder();
    SortPermutes(entries, ReceiptLeq);
    SortSorts(entries, ReceiptLeq);
    forall i | 0 <= i < |rs| - 1 ensures Before(rs[i], rs[i + 1]) {
      assert ReceiptLeq(rs[i], rs[i + 1]) && !SameTriple(rs[i], rs[i + 1]);
    }
  }

  /**
   What `map_root` hashes decodes to an array with one map for each receipt, in strictly ascending order of vm, lease and
   sequence number, and each map has exactly the four keys with that receipt's own values.
   */
  lemma MapRootContents(entries: seq<Receipt>) returns (rs: seq<Receipt>)
    requires ReceiptsTyped(entries) && MapRootPreimage(entries).Some?
    ensures multiset(rs) == multiset(entries) && |rs| == |entries|
    ensures forall i :: 0 <= i < |rs| - 1 ==> Before(rs[i], rs[i + 1])
    ensures var d := Decode(MapRootPreimage(entries).value);
            && d.Parsed? && d.rest == [] && d.value.Array? && |d.value.items| == |rs|
            && forall i :: 0 <= i < |rs| ==> ReceiptItem(d.value.items[i], rs[i])
  {
    rs := Sort(entries, ReceiptLeq);
    SortedTyped(entries);
    SortedReceipts(entries);
    ReceiptListReads(rs, MapRootPreimage(entries).value);
  }

  // -------- totals --------

  /** The natural number a value stands for: an integer, or the big-endian bytes under tag 2. */
  function NumberIn(v: Value): (n: Option<nat>) {
    match v
    case Int(i) => if i >= 0 then Some(i) else None
    case Tag(2, Bytes(b)) => Some(FromBigEndian(b))
    case _ => None
  }

  /** The value is a map with exactly the class and the number of units of t. */
  ghost predicate TotalItem(v: Value, t: Total) {
    && MapOf(v).Some? && |MapOf(v).value| == 2 && HoldsText(MapOf(v).value, "class", t.class_)
    && Ascii("served_units") in MapOf(v).value && NumberIn(MapOf(v).value[Ascii("served_units")]) == Some(t.units)
  }

  lemma TotalReads(t: Total)
    requires TotalTyped(t)
    ensures TotalItem(TotalValue(t), t)
  {
    if t.units >= TWO_64 {
      U128Minimal(t.units);
    }
    TwoEntries(Ascii("class"), Text(t.class_), Ascii("served_units"), CanonicalU128(t.units));
  }

  lemma TwoEntries(a: bytes, v: Value, b: bytes, w: Value)
    requires a != b
    ensures StringMap([Entry(Text(a), v), Entry(Text(b), w)]) == Some(map[a := v, b := w]) && |map[a := v, b := w]| == 2
  {
    var es := [Entry(Text(a), v), Entry(Text(b), w)];
    assert es[..1] == [Entry(Text(a), v)] && es[..1][..0] == [];
    assert StringMap(es[..1]) == Some(map[a := v]);
    assert map[a := v][b := w] == map[a := v, b := w];
    assert map[a := v, b := w].Keys == {a, b};
  }

  /**
   What `totals_root` hashes decodes to an array with one map for each total, in strictly ascending order of class, and
   each map has exactly the class and the number of that total.
   */
  lemma TotalsRootContents(totals: seq<Total>) returns (ts: seq<Total>)
    requires TotalsTyped(totals) && TotalsRootPreimage(totals).Some?
    ensures multiset(ts) == multiset(totals) && |ts| == |totals|
    ensures forall i :: 0 <= i < |ts| - 1 ==> LexLess(ts[i].class_, ts[i + 1].class_)
    ensures var d := Decode(TotalsRootPreimage(totals).value);
            && d.Parsed? && d.rest == [] && d.value.Array? && |d.value.items| == |ts|
            && forall i :: 0 <= i < |ts| ==> TotalItem(d.value.items[i], ts[i])
  {
    ts := Sort(totals, ClassLeq);
    ClassOrder();
    SortPermutes(totals, ClassLeq);
    SortSorts(totals, ClassLeq);
    TotalsSorted(totals);
    TotalListCanonical(ts);
    CanonicalPasses(Array(TotalValues(ts)));
    forall i | 0 <= i < |ts| - 1 ensures LexLess(ts[i].class_, ts[i + 1].class_) {
      assert ClassLeq(ts[i], ts[i + 1]) && ts[i].class_ != ts[i + 1].class_;
      LexTrichotomy(ts[i].class_, ts[i + 1].class_);
    }
    forall i | 0 <= i < |ts| ensures TotalItem(TotalValues(ts)[i], ts[i]) {
      TotalReads(ts[i]);
    }
  }
}
