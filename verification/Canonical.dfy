/** Deterministic CBOR (section 4.2.1 of RFC 8949): canonicalisation and the gate that refuses anything else. */
module Canonical {
  import opened ByteStrings
  import opened Sorting
  import opened Cbor

  // -------- canonicalisation --------

  /** Order of map entries: bytewise order of their encoded keys. */
  predicate KeyLeq(a: Entry, b: Entry) {
    !LexLess(Encode(b.key), Encode(a.key))
  }

  predicate AdjacentEqualKeys(entries: seq<Entry>) {
    exists i :: 0 <= i < |entries| - 1 && Encode(entries[i].key) == Encode(entries[i + 1].key)
  }

  /** Sorts the maps reached through arrays and maps; fails on a repeated key. Tags are not entered. */
  function Canonicalize(v: Value): (r: Option<Value>)
    decreases v
  {
    match v
    case Map(entries) =>
      (match CanonicalizeEntries(entries)
       case None => None
       case Some(canon) =>
         var sorted := Sort(canon, KeyLeq);
         if AdjacentEqualKeys(sorted) then None else Some(Map(sorted)))
    case Array(items) =>
      (match CanonicalizeItems(items)
       case None => None
       case Some(canon) => Some(Array(canon)))
    case _ => Some(v)
  }

  function CanonicalizeItems(items: seq<Value>): (r: Option<seq<Value>>)
    decreases items
  {
    if items == [] then Some([])
    else
      match (Canonicalize(items[0]), CanonicalizeItems(items[1..]))
      case (Some(c), Some(cs)) => Some([c] + cs)
      case _ => None
  }

  function CanonicalizeEntry(e: Entry): (r: Option<Entry>)
    decreases e
  {
    match (Canonicalize(e.key), Canonicalize(e.val))
    case (Some(k), Some(v)) => Some(Entry(k, v))
    case _ => None
  }

  function CanonicalizeEntries(entries: seq<Entry>): (r: Option<seq<Entry>>)
    decreases entries
  {
    if entries == [] then Some([])
    else
      match (CanonicalizeEntry(entries[0]), CanonicalizeEntries(entries[1..]))
      case (Some(c), Some(cs)) => Some([c] + cs)
      case _ => None
  }

  function ToCanonicalVec(v: Value): (r: Option<bytes>) {
    match Canonicalize(v)
    case None => None
    case Some(c) => Some(Encode(c))
  }

  /** `assert_canonical`: decode one item, encode it canonically, compare with the whole input. */
  predicate AssertCanonical(b: bytes) {
    var r := Decode(b);
    r.Parsed? && ToCanonicalVec(r.value) == Some(b)
  }

  // -------- the canonical values, described without the algorithm --------

  /** Every map reached through arrays and maps is in strictly ascending order of encoded keys. */
  ghost predicate IsCanonical(v: Value)
    decreases v
  {
    match v
    case Map(entries) =>
      && (forall i :: 0 <= i < |entries| ==> IsCanonicalEntry(entries[i]))
      && StrictlyAscending(entries)
    case Array(items) => forall i :: 0 <= i < |items| ==> IsCanonical(items[i])
    case _ => true
  }

  ghost predicate IsCanonicalEntry(e: Entry)
    decreases e
  {
    IsCanonical(e.key) && IsCanonical(e.val)
  }

  ghost predicate StrictlyAscending(entries: seq<Entry>) {
    forall i, j :: 0 <= i < j < |entries| ==> LexLess(Encode(entries[i].key), Encode(entries[j].key))
  }

  /** a and b differ only by reordering entries of maps reached through arrays and maps. */
  ghost predicate Reordered(a: Value, b: Value)
    decreases a
  {
    match a
    case Map(es) => b.Map? && exists p :: ReorderedEntries(es, b.entries, p)
    case Array(items) =>
      && b.Array? && |b.items| == |items|
      && forall i :: 0 <= i < |items| ==> Reordered(items[i], b.items[i])
    case _ => a == b
  }

  ghost predicate ReorderedEntry(e: Entry, f: Entry)
    decreases e
  {
    Reordered(e.key, f.key) && Reordered(e.val, f.val)
  }

  ghost predicate ReorderedEntries(es: seq<Entry>, fs: seq<Entry>, p: seq<nat>)
    decreases es
  {
    && |es| == |fs| && Permutation(p, |es|)
    && forall i :: 0 <= i < |es| ==> ReorderedEntry(es[i], fs[p[i]])
  }

  /** Some map reached through arrays and maps holds two keys that are the same up to reordering. */
  ghost predicate RepeatsKey(v: Value)
    decreases v
  {
    match v
    case Map(entries) =>
      || (exists i :: 0 <= i < |entries| && EntryRepeatsKey(entries[i]))
      || (exists i, j :: 0 <= i < j < |entries| && Reordered(entries[i].key, entries[j].key))
    case Array(items) => exists i :: 0 <= i < |items| && RepeatsKey(items[i])
    case _ => false
  }

  ghost predicate EntryRepeatsKey(e: Entry)
    decreases e
  {
    RepeatsKey(e.key) || RepeatsKey(e.val)
  }

  // -------- the order on entries --------

  lemma KeyLeqIsTotalPreorder()
    ensures TotalPreorder(KeyLeq)
  {
    forall a: Entry, b: Entry ensures KeyLeq(a, b) || KeyLeq(b, a) {
      LexTrichotomy(Encode(a.key), Encode(b.key));
    }
    forall a: Entry, b: Entry, c: Entry | KeyLeq(a, b) && KeyLeq(b, c) ensures KeyLeq(a, c) {
      KeyLeqTransitive(a, b, c);
    }
  }

  lemma KeyLeqTransitive(a: Entry, b: Entry, c: Entry)
    requires KeyLeq(a, b) && KeyLeq(b, c)
    ensures KeyLeq(a, c)
  {
    var x, y, z := Encode(a.key), Encode(b.key), Encode(c.key);
    LexTrichotomy(x, y);
    LexTrichotomy(y, z);
    if LexLess(z, x) {
      LexTrichotomy(z, x);
      if LexLess(x, y) {
        LexTransitive(z, x, y);
      }
    }
  }

  /** Sorted and without adjacent equal keys means strictly ascending. */
  lemma SortedAscends(s: seq<Entry>)
    requires Sorted(s, KeyLeq) && !AdjacentEqualKeys(s)
    ensures StrictlyAscending(s) && NoTies(s, KeyLeq)
  {
    KeyLeqIsTotalPreorder();
    forall i | 0 <= i < |s| - 1 ensures !KeyLeq(s[i + 1], s[i]) {
      assert KeyLeq(s[i], s[i + 1]);
      LexTrichotomy(Encode(s[i].key), Encode(s[i + 1].key));
    }
    TiesAreAdjacent(s, KeyLeq);
  }

  lemma AscendingIsSorted(s: seq<Entry>)
    requires StrictlyAscending(s)
    ensures Sorted(s, KeyLeq) && NoTies(s, KeyLeq) && !AdjacentEqualKeys(s)
  {
    forall i, j | 0 <= i < j < |s| ensures KeyLeq(s[i], s[j]) && !KeyLeq(s[j], s[i]) {
      LexTrichotomy(Encode(s[i].key), Encode(s[j].key));
    }
    forall i | 0 <= i < |s| - 1 ensures Encode(s[i].key) != Encode(s[i + 1].key) {
      LexTrichotomy(Encode(s[i].key), Encode(s[i + 1].key));
    }
  }

  // -------- canonicalising lists is pointwise --------

  lemma {:induction false} ItemsPointwise(items: seq<Value>)
    ensures CanonicalizeItems(items).Some? <==> forall i :: 0 <= i < |items| ==> Canonicalize(items[i]).Some?
    ensures CanonicalizeItems(items).Some? ==> |CanonicalizeItems(items).value| == |items|
    ensures CanonicalizeItems(items).Some? ==>
              forall i :: 0 <= i < |items| ==> Canonicalize(items[i]) == Some(CanonicalizeItems(items).value[i])
    decreases items
  {
    if items != [] {
      ItemsPointwise(items[1..]);
      assert items == [items[0]] + items[1..];
    }
  }

  lemma {:induction false} EntriesPointwise(es: seq<Entry>)
    ensures CanonicalizeEntries(es).Some? <==> forall i :: 0 <= i < |es| ==> CanonicalizeEntry(es[i]).Some?
    ensures CanonicalizeEntries(es).Some? ==> |CanonicalizeEntries(es).value| == |es|
    ensures CanonicalizeEntries(es).Some? ==>
              forall i :: 0 <= i < |es| ==> CanonicalizeEntry(es[i]) == Some(CanonicalizeEntries(es).value[i])
    decreases es
  {
    if es != [] {
      EntriesPointwise(es[1..]);
      assert es == [es[0]] + es[1..];
    }
  }

  // -------- canonicalisation yields canonical values and fixes them --------

  lemma SortKeeps(s: seq<Entry>, i: nat)
    requires i < |s|
    ensures Sort(s, KeyLeq)[i] in s
  {
    SortPermutes(s, KeyLeq);
    assert Sort(s, KeyLeq)[i] in multiset(Sort(s, KeyLeq));
  }

  lemma {:induction false} CanonicalizeIsCanonical(v: Value)
    requires Canonicalize(v).Some?
    ensures IsCanonical(Canonicalize(v).value)
    decreases v
  {
    match v
    case Map(es) => CanonicalMapIsCanonical(es);
    case Array(items) =>
      ItemsPointwise(items);
      forall i | 0 <= i < |items| ensures IsCanonical(CanonicalizeItems(items).value[i]) {
        CanonicalizeIsCanonical(items[i]);
      }
    case _ =>
  }

  lemma {:induction false} CanonicalEntryIsCanonical(e: Entry)
    requires CanonicalizeEntry(e).Some?
    ensures IsCanonicalEntry(CanonicalizeEntry(e).value)
    decreases e
  {
    CanonicalizeIsCanonical(e.key);
    CanonicalizeIsCanonical(e.val);
  }

  lemma {:induction false} CanonicalMapIsCanonical(es: seq<Entry>)
    requires CanonicalizeEntries(es).Some? && !AdjacentEqualKeys(Sort(CanonicalizeEntries(es).value, KeyLeq))
    ensures IsCanonical(Map(Sort(CanonicalizeEntries(es).value, KeyLeq)))
    decreases es
  {
    EntriesPointwise(es);
    var cs := CanonicalizeEntries(es).value;
    forall i | 0 <= i < |cs| ensures IsCanonicalEntry(cs[i]) {
      CanonicalEntryIsCanonical(es[i]);
    }
    var sorted := Sort(cs, KeyLeq);
    forall i | 0 <= i < |sorted| ensures IsCanonicalEntry(sorted[i]) {
      SortKeeps(cs, i);
    }
    KeyLeqIsTotalPreorder();
    SortSorts(cs, KeyLeq);
    SortedAscends(sorted);
  }

  /** Canonicalisation does not change a canonical value; so it is idempotent. */
  lemma {:induction false} CanonicalIsFixed(v: Value)
    requires IsCanonical(v)
    ensures Canonicalize(v) == Some(v)
    decreases v
  {
    match v
    case Map(es) =>
      forall i | 0 <= i < |es| ensures CanonicalizeEntry(es[i]) == Some(es[i]) {
        CanonicalEntryIsFixed(es[i]);
      }
      EntriesPointwise(es);
      assert CanonicalizeEntries(es).value == es;
      AscendingIsSorted(es);
      SortFixpoint(es, KeyLeq);
    case Array(items) =>
      forall i | 0 <= i < |items| ensures Canonicalize(items[i]) == Some(items[i]) {
        CanonicalIsFixed(items[i]);
      }
      ItemsPointwise(items);
      assert CanonicalizeItems(items).value == items;
    case _ =>
  }

  lemma {:induction false} CanonicalEntryIsFixed(e: Entry)
    requires IsCanonicalEntry(e)
    ensures CanonicalizeEntry(e) == Some(e)
    decreases e
  {
    CanonicalIsFixed(e.key);
    CanonicalIsFixed(e.val);
  }

  lemma {:induction false} CanonicalizeWellFormed(v: Value)
    requires WellFormed(v) && Canonicalize(v).Some?
    ensures WellFormed(Canonicalize(v).value)
    decreases v
  {
    match v
    case Map(es) =>
      EntriesPointwise(es);
      var cs := CanonicalizeEntries(es).value;
      forall i | 0 <= i < |cs| ensures EntryWellFormed(cs[i]) {
        CanonicalizeEntryWellFormed(es[i]);
      }
      forall i | 0 <= i < |cs| ensures EntryWellFormed(Sort(cs, KeyLeq)[i]) {
        SortKeeps(cs, i);
      }
    case Array(items) =>
      ItemsPointwise(items);
      forall i | 0 <= i < |items| ensures WellFormed(CanonicalizeItems(items).value[i]) {
        CanonicalizeWellFormed(items[i]);
      }
    case _ =>
  }

  lemma {:induction false} CanonicalizeEntryWellFormed(e: Entry)
    requires EntryWellFormed(e) && CanonicalizeEntry(e).Some?
    ensures EntryWellFormed(CanonicalizeEntry(e).value)
    decreases e
  {
    CanonicalizeWellFormed(e.key);
    CanonicalizeWellFormed(e.val);
  }

  // -------- the gate accepts exactly the canonical encodings --------

  /** What the gate checks of an input whose first item is v: v is canonical and the input is its encoding. */
  lemma GateChecks(b: bytes)
    requires Decode(b).Parsed?
    ensures AssertCanonical(b) <==> IsCanonical(Decode(b).value) && b == Encode(Decode(b).value)
  {
    var v := Decode(b).value;
    DecodedWellFormed(b);
    if AssertCanonical(b) {
      var c := Canonicalize(v).value;
      CanonicalizeWellFormed(v);
      CanonicalizeIsCanonical(v);
      DecodeEncode(c, []);
      assert b + [] == b;
    } else if IsCanonical(v) {
      CanonicalIsFixed(v);
    }
  }

  /** A canonical value passes the gate and is read back whole. */
  lemma CanonicalPasses(c: Value)
    requires WellFormed(c) && IsCanonical(c)
    ensures AssertCanonical(Encode(c)) && Decode(Encode(c)) == Parsed(c, [])
  {
    DecodeEncode(c, []);
    assert Encode(c) + [] == Encode(c);
    CanonicalIsFixed(c);
  }

  /** An input that passes is the encoding of a canonical value with nothing after it. */
  lemma PassingIsCanonical(b: bytes)
    requires AssertCanonical(b)
    ensures Decode(b).rest == [] && Encode(Decode(b).value) == b
    ensures WellFormed(Decode(b).value) && IsCanonical(Decode(b).value)
  {
    var v := Decode(b).value;
    GateChecks(b);
    DecodedWellFormed(b);
    DecodeEncode(v, []);
    assert Encode(v) + [] == b;
  }

  /** `assert_canonical` accepts exactly what `to_canonical_vec` produces. */
  lemma GateAcceptsExactlyCanonicalOutputs(b: bytes)
    ensures AssertCanonical(b) <==> exists v :: WellFormed(v) && ToCanonicalVec(v) == Some(b)
  {
    if AssertCanonical(b) {
      PassingIsCanonical(b);
    }
    forall v | WellFormed(v) && ToCanonicalVec(v) == Some(b) ensures AssertCanonical(b) {
      CanonicalizeWellFormed(v);
      CanonicalizeIsCanonical(v);
      CanonicalPasses(Canonicalize(v).value);
    }
  }

  /** Nothing can be appended to an accepted input, and no accepted input is a prefix of another. */
  lemma TrailingBytesRefused(b: bytes, extra: bytes)
    requires AssertCanonical(b) && extra != []
    ensures !AssertCanonical(b + extra)
  {
    PassingIsCanonical(b);
    DecodeEncode(Decode(b).value, extra);
    GateChecks(b + extra);
  }

  // -------- equal canonical bytes mean: the same up to reordering --------

  /** Sorting forgets the order the entries came in. */
  lemma SortOfRearranged(cs: seq<Entry>, ds: seq<Entry>)
    requires multiset(cs) == multiset(ds)
    ensures AdjacentEqualKeys(Sort(cs, KeyLeq)) == AdjacentEqualKeys(Sort(ds, KeyLeq))
    ensures !AdjacentEqualKeys(Sort(cs, KeyLeq)) ==> Sort(cs, KeyLeq) == Sort(ds, KeyLeq)
  {
    var s, t := Sort(cs, KeyLeq), Sort(ds, KeyLeq);
    KeyLeqIsTotalPreorder();
    SortSorts(cs, KeyLeq);
    SortSorts(ds, KeyLeq);
    SortPermutes(cs, KeyLeq);
    SortPermutes(ds, KeyLeq);
    if !AdjacentEqualKeys(s) {
      SortedAscends(s);
      SortedUnique(s, t, KeyLeq);
    } else if !AdjacentEqualKeys(t) {
      SortedAscends(t);
      SortedUnique(t, s, KeyLeq);
    }
  }

  lemma {:induction false} ReorderedCanonicalizeAlike(a: Value, b: Value)
    requires Reordered(a, b)
    ensures Canonicalize(a) == Canonicalize(b)
    decreases a
  {
    match a
    case Map(es) =>
      var p :| ReorderedEntries(es, b.entries, p);
      ReorderedMapsCanonicalizeAlike(es, b.entries, p);
    case Array(items) =>
      forall i | 0 <= i < |items| ensures Canonicalize(items[i]) == Canonicalize(b.items[i]) {
        ReorderedCanonicalizeAlike(items[i], b.items[i]);
      }
      ItemsPointwise(items);
      ItemsPointwise(b.items);
      if CanonicalizeItems(items).Some? {
        assert CanonicalizeItems(items).value == CanonicalizeItems(b.items).value;
      }
    case _ =>
  }

  lemma {:induction false} ReorderedEntryCanonicalizeAlike(e: Entry, f: Entry)
    requires ReorderedEntry(e, f)
    ensures CanonicalizeEntry(e) == CanonicalizeEntry(f)
    decreases e
  {
    ReorderedCanonicalizeAlike(e.key, f.key);
    ReorderedCanonicalizeAlike(e.val, f.val);
  }

  /** A permutation reaches every position. */
  lemma PermutationCovers(p: seq<nat>, n: nat, k: nat) returns (i: nat)
    requires Permutation(p, n) && k < n
    ensures i < n && p[i] == k
  {
    var ident := seq(n, j => j);
    PermutationKeepsElements(p, ident, p);
    assert ident[k] == k && k in multiset(ident);
    i :| 0 <= i < |p| && p[i] == k;
  }

  lemma RearrangedEntriesCanonicalize(es: seq<Entry>, fs: seq<Entry>, p: seq<nat>)
    requires |es| == |fs| && Permutation(p, |es|)
    requires forall i :: 0 <= i < |es| ==> CanonicalizeEntry(es[i]) == CanonicalizeEntry(fs[p[i]])
    ensures CanonicalizeEntries(es).Some? == CanonicalizeEntries(fs).Some?
  {
    EntriesPointwise(es);
    EntriesPointwise(fs);
    if CanonicalizeEntries(es).Some? {
      forall k | 0 <= k < |fs| ensures CanonicalizeEntry(fs[k]).Some? {
        var i := PermutationCovers(p, |es|, k);
      }
    }
  }

  lemma {:induction false} ReorderedMapsCanonicalizeAlike(es: seq<Entry>, fs: seq<Entry>, p: seq<nat>)
    requires ReorderedEntries(es, fs, p)
    ensures Canonicalize(Map(es)) == Canonicalize(Map(fs))
    decreases es
  {
    forall i | 0 <= i < |es| ensures CanonicalizeEntry(es[i]) == CanonicalizeEntry(fs[p[i]]) {
      assert ReorderedEntry(es[i], fs[p[i]]);
      ReorderedEntryCanonicalizeAlike(es[i], fs[p[i]]);
    }
    RearrangedEntriesCanonicalize(es, fs, p);
    if CanonicalizeEntries(es).Some? {
      EntriesPointwise(es);
      EntriesPointwise(fs);
      var cs, ds := CanonicalizeEntries(es).value, CanonicalizeEntries(fs).value;
      PermutationKeepsElements(cs, ds, p);
      SortOfRearranged(cs, ds);
    }
  }

  lemma {:induction false} SameCanonicalReordered(a: Value, b: Value)
    requires Canonicalize(a).Some? && Canonicalize(a) == Canonicalize(b)
    ensures Reordered(a, b)
    decreases a
  {
    match a
    case Map(es) =>
      SameCanonicalMapsReordered(es, b.entries);
    case Array(items) =>
      ItemsPointwise(items);
      ItemsPointwise(b.items);
      forall i | 0 <= i < |items| ensures Reordered(items[i], b.items[i]) {
        SameCanonicalReordered(items[i], b.items[i]);
      }
    case _ =>
  }

  lemma {:induction false} SameCanonicalEntryReordered(e: Entry, f: Entry)
    requires CanonicalizeEntry(e).Some? && CanonicalizeEntry(e) == CanonicalizeEntry(f)
    ensures ReorderedEntry(e, f)
    decreases e
  {
    SameCanonicalReordered(e.key, f.key);
    SameCanonicalReordered(e.val, f.val);
  }

  lemma {:induction false} SameCanonicalMapsReordered(es: seq<Entry>, fs: seq<Entry>)
    requires Canonicalize(Map(es)).Some? && Canonicalize(Map(es)) == Canonicalize(Map(fs))
    ensures Reordered(Map(es), Map(fs))
    decreases es
  {
    EntriesPointwise(es);
    EntriesPointwise(fs);
    var cs, ds := CanonicalizeEntries(es).value, CanonicalizeEntries(fs).value;
    SortPermutes(cs, KeyLeq);
    SortPermutes(ds, KeyLeq);
    var p := MatchingPermutation(cs, ds);
    forall i | 0 <= i < |es| ensures ReorderedEntry(es[i], fs[p[i]]) {
      SameCanonicalEntryReordered(es[i], fs[p[i]]);
    }
    assert ReorderedEntries(es, fs, p);
  }

  /** Two values have the same canonical bytes exactly when they differ only by reordering. */
  lemma EqualCanonicalBytes(a: Value, b: Value)
    requires WellFormed(a) && WellFormed(b)
    requires ToCanonicalVec(a).Some?
    ensures ToCanonicalVec(a) == ToCanonicalVec(b) <==> Reordered(a, b)
  {
    if ToCanonicalVec(a) == ToCanonicalVec(b) {
      CanonicalizeWellFormed(a);
      CanonicalizeWellFormed(b);
      EncodeInjective(Canonicalize(a).value, Canonicalize(b).value);
      SameCanonicalReordered(a, b);
    }
    if Reordered(a, b) {
      ReorderedCanonicalizeAlike(a, b);
    }
  }

  // -------- canonicalisation fails exactly on repeated keys --------

  lemma {:induction false} FailsExactlyOnRepeatedKeys(v: Value)
    requires WellFormed(v)
    ensures Canonicalize(v).None? <==> RepeatsKey(v)
    decreases v
  {
    match v
    case Map(es) => MapFailsExactlyOnRepeatedKeys(es);
    case Array(items) =>
      ItemsPointwise(items);
      forall i | 0 <= i < |items| ensures Canonicalize(items[i]).None? <==> RepeatsKey(items[i]) {
        FailsExactlyOnRepeatedKeys(items[i]);
      }
    case _ =>
  }

  lemma {:induction false} EntryFailsExactlyOnRepeatedKeys(e: Entry)
    requires EntryWellFormed(e)
    ensures CanonicalizeEntry(e).None? <==> EntryRepeatsKey(e)
    decreases e
  {
    FailsExactlyOnRepeatedKeys(e.key);
    FailsExactlyOnRepeatedKeys(e.val);
  }

  lemma {:induction false} MapFailsExactlyOnRepeatedKeys(es: seq<Entry>)
    requires AllEntriesWellFormed(es)
    ensures Canonicalize(Map(es)).None? <==> RepeatsKey(Map(es))
    decreases es
  {
    EntriesPointwise(es);
    forall i | 0 <= i < |es| ensures CanonicalizeEntry(es[i]).None? <==> EntryRepeatsKey(es[i]) {
      EntryFailsExactlyOnRepeatedKeys(es[i]);
    }
    if CanonicalizeEntries(es).Some? {
      TiesAreRepeatedKeys(es);
    }
  }

  /** Once every entry canonicalises, equal neighbours after sorting are keys that were the same up to reordering. */
  lemma TiesAreRepeatedKeys(es: seq<Entry>)
    requires AllEntriesWellFormed(es) && CanonicalizeEntries(es).Some?
    ensures AdjacentEqualKeys(Sort(CanonicalizeEntries(es).value, KeyLeq))
       <==> exists i, j :: 0 <= i < j < |es| && Reordered(es[i].key, es[j].key)
  {
    if AdjacentEqualKeys(Sort(CanonicalizeEntries(es).value, KeyLeq)) {
      var i, j := TieComesFromRepeatedKeys(es);
    }
    if i, j :| 0 <= i < j < |es| && Reordered(es[i].key, es[j].key) {
      RepeatedKeysTie(es, i, j);
    }
  }

  lemma TieComesFromRepeatedKeys(es: seq<Entry>) returns (i: nat, j: nat)
    requires AllEntriesWellFormed(es) && CanonicalizeEntries(es).Some?
    requires AdjacentEqualKeys(Sort(CanonicalizeEntries(es).value, KeyLeq))
    ensures i < j < |es| && Reordered(es[i].key, es[j].key)
  {
    EntriesPointwise(es);
    var cs := CanonicalizeEntries(es).value;
    var sorted := Sort(cs, KeyLeq);
    SortPermutes(cs, KeyLeq);
    var k :| 0 <= k < |sorted| - 1 && Encode(sorted[k].key) == Encode(sorted[k + 1].key);
    var p := MatchingPermutation(sorted, cs);
    assert p[k] != p[k + 1];
    if p[k] < p[k + 1] { i, j := p[k], p[k + 1]; } else { i, j := p[k + 1], p[k]; }
    EqualKeysReordered(es, i, j);
  }

  lemma RepeatedKeysTie(es: seq<Entry>, i: nat, j: nat)
    requires CanonicalizeEntries(es).Some? && i < j < |es| && Reordered(es[i].key, es[j].key)
    ensures AdjacentEqualKeys(Sort(CanonicalizeEntries(es).value, KeyLeq))
  {
    EntriesPointwise(es);
    var cs := CanonicalizeEntries(es).value;
    ReorderedCanonicalizeAlike(es[i].key, es[j].key);
    assert CanonicalizeEntry(es[i]) == Some(cs[i]) && CanonicalizeEntry(es[j]) == Some(cs[j]);
    SortPermutes(cs, KeyLeq);
    var p := MatchingPermutation(cs, Sort(cs, KeyLeq));
    TieForcesAdjacent(cs, p[i], p[j]);
  }

  lemma EqualKeysReordered(es: seq<Entry>, i: nat, j: nat)
    requires AllEntriesWellFormed(es) && i < j < |es|
    requires CanonicalizeEntry(es[i]).Some? && CanonicalizeEntry(es[j]).Some?
    requires Encode(CanonicalizeEntry(es[i]).value.key) == Encode(CanonicalizeEntry(es[j]).value.key)
    ensures Reordered(es[i].key, es[j].key)
  {
    assert EntryWellFormed(es[i]) && EntryWellFormed(es[j]);
    CanonicalizeWellFormed(es[i].key);
    CanonicalizeWellFormed(es[j].key);
    EncodeInjective(Canonicalize(es[i].key).value, Canonicalize(es[j].key).value);
    SameCanonicalReordered(es[i].key, es[j].key);
  }

  lemma TieForcesAdjacent(cs: seq<Entry>, i: nat, j: nat)
    requires i < |cs| && j < |cs| && i != j
    requires Sort(cs, KeyLeq)[i].key == Sort(cs, KeyLeq)[j].key
    ensures AdjacentEqualKeys(Sort(cs, KeyLeq))
  {
    var s := Sort(cs, KeyLeq);
    KeyLeqIsTotalPreorder();
    SortSorts(cs, KeyLeq);
    LexTrichotomy(Encode(s[i].key), Encode(s[j].key));
    if !AdjacentEqualKeys(s) {
      SortedAscends(s);
    }
  }

  /** An entry with an ASCII key and a value without entries of its own is canonical as it stands. */
  lemma PlainEntry(name: string, v: Value)
    requires |name| < TWO_64 && WellFormed(v) && !v.Map? && !v.Array?
    ensures EntryWellFormed(Entry(Text(Ascii(name)), v)) && IsCanonicalEntry(Entry(Text(Ascii(name)), v))
  {
    AsciiIsUtf8(Ascii(name));
    assert WellFormed(Text(Ascii(name)));
    assert IsCanonical(Text(Ascii(name))) && IsCanonical(v);
  }
}
