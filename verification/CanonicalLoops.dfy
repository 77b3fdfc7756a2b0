/** The canonicaliser as it runs: entries pushed with their encoded keys, sorted, scanned in windows of two. */
module CanonicalLoops {
  import opened ByteStrings
  import opened Sorting
  import opened Cbor
  import opened Canonical

  /** An entry carried with the encoding of its key. */
  datatype Keyed = Keyed(kbytes: bytes, key: Value, val: Value)

  predicate KeyedLeq(a: Keyed, b: Keyed) { !LexLess(b.kbytes, a.kbytes) }

  ghost predicate Consistent(s: seq<Keyed>) {
    forall i :: 0 <= i < |s| ==> s[i].kbytes == Encode(s[i].key)
  }

  function Strip(s: seq<Keyed>): (r: seq<Entry>)
    ensures |r| == |s| && forall i :: 0 <= i < |s| ==> r[i] == Entry(s[i].key, s[i].val)
  {
    seq(|s|, i requires 0 <= i < |s| => Entry(s[i].key, s[i].val))
  }

  lemma StripCons(x: Keyed, s: seq<Keyed>)
    ensures Strip([x] + s) == [Entry(x.key, x.val)] + Strip(s)
  {
  }

  lemma {:induction false} InsertKeyed(x: Keyed, s: seq<Keyed>)
    requires Consistent([x]) && Consistent(s)
    ensures Consistent(Insert(x, s, KeyedLeq))
    ensures Strip(Insert(x, s, KeyedLeq)) == Insert(Entry(x.key, x.val), Strip(s), KeyLeq)
  {
    assert [x][0].kbytes == Encode(x.key);
    if s == [] || KeyedLeq(x, s[0]) {
      StripCons(x, s);
    } else {
      var rest := Insert(x, s[1..], KeyedLeq);
      InsertKeyed(x, s[1..]);
      StripCons(s[0], rest);
      assert Strip(s)[1..] == Strip(s[1..]);
    }
  }

  /** Sorting by the cached key bytes is sorting by the encoded keys. */
  lemma {:induction false} SortKeyed(s: seq<Keyed>)
    requires Consistent(s)
    ensures Consistent(Sort(s, KeyedLeq))
    ensures Strip(Sort(s, KeyedLeq)) == Sort(Strip(s), KeyLeq)
  {
    if s != [] {
      SortKeyed(s[1..]);
      InsertKeyed(s[0], Sort(s[1..], KeyedLeq));
      assert Strip(s)[1..] == Strip(s[1..]);
    }
  }

  method CanonicalizeValue(v: Value) returns (r: Option<Value>)
    ensures r == Canonicalize(v)
    decreases v, 1
  {
    match v
    case Map(entries) => r := CanonicalizeMap(entries);
    case Array(items) => r := CanonicalizeArray(items);
    case _ => r := Some(v);
  }

  method CanonicalizeArray(items: seq<Value>) returns (r: Option<Value>)
    ensures r == Canonicalize(Array(items))
    decreases items, 0
  {
    var out: seq<Value> := [];
    for i := 0 to |items|
      invariant |out| == i
      invariant forall k :: 0 <= k < i ==> Canonicalize(items[k]) == Some(out[k])
    {
      var c := CanonicalizeValue(items[i]);
      if c.None? {
        ItemsPointwise(items);
        return None;
      }
      out := out + [c.value];
    }
    ItemsPointwise(items);
    assert CanonicalizeItems(items).value == out;
    r := Some(Array(out));
  }

  method CanonicalizeKeyed(e: Entry) returns (r: Option<Keyed>)
    ensures CanonicalizeEntry(e).None? ==> r.None?
    ensures CanonicalizeEntry(e).Some? ==>
              r == Some(Keyed(Encode(CanonicalizeEntry(e).value.key), CanonicalizeEntry(e).value.key, CanonicalizeEntry(e).value.val))
    decreases e, 0
  {
    var ck := CanonicalizeValue(e.key);
    if ck.None? { return None; }
    var cv := CanonicalizeValue(e.val);
    if cv.None? { return None; }
    r := Some(Keyed(Encode(ck.value), ck.value, cv.value));
  }

  method CanonicalizeMap(entries: seq<Entry>) returns (r: Option<Value>)
    ensures r == Canonicalize(Map(entries))
    decreases entries, 0
  {
    var canon: seq<Keyed> := [];
    for i := 0 to |entries|
      invariant |canon| == i && Consistent(canon)
      invariant forall k :: 0 <= k < i ==> CanonicalizeEntry(entries[k]) == Some(Entry(canon[k].key, canon[k].val))
    {
      var e := CanonicalizeKeyed(entries[i]);
      if e.None? {
        EntriesPointwise(entries);
        return None;
      }
      canon := canon + [e.value];
    }
    EntriesPointwise(entries);
    assert CanonicalizeEntries(entries).value == Strip(canon);
    var sorted := Sort(canon, KeyedLeq);
    SortKeyed(canon);
    var duplicate := FindDuplicate(sorted);
    if duplicate { return None; }
    r := Some(Map(Strip(sorted)));
  }

  /** The scan over windows of two finds a repeated key exactly when two neighbours share one. */
  method FindDuplicate(sorted: seq<Keyed>) returns (found: bool)
    requires Consistent(sorted)
    ensures found <==> AdjacentEqualKeys(Strip(sorted))
  {
    var i := 0;
    while i + 1 < |sorted|
      invariant forall k :: 0 <= k < i && k + 1 < |sorted| ==> sorted[k].kbytes != sorted[k + 1].kbytes
      decreases |sorted| - i
    {
      if sorted[i].kbytes == sorted[i + 1].kbytes {
        assert Encode(Strip(sorted)[i].key) == Encode(Strip(sorted)[i + 1].key);
        return true;
      }
      i := i + 1;
    }
    found := false;
  }
}
