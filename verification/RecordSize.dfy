/** How long the encoding of a record can be. */
module RecordSize {
  import opened ByteStrings
  import opened Sorting
  import opened Cbor
  import opened Canonical
  import opened Records

  lemma HeadSize(m: Major, n: nat)
    ensures |Head(m, n)| <= 9
  {
  }

  // -------- canonicalising keeps the length --------

  lemma {:induction false} InsertLength(e: Entry, es: seq<Entry>)
    ensures |EncodeEntries(Insert(e, es, KeyLeq))| == |EncodeEntry(e)| + |EncodeEntries(es)|
  {
    if es == [] || KeyLeq(e, es[0]) {
      assert ([e] + es)[1..] == es;
    } else {
      InsertLength(e, es[1..]);
      assert ([es[0]] + Insert(e, es[1..], KeyLeq))[1..] == Insert(e, es[1..], KeyLeq);
    }
  }

  lemma {:induction false} SortLength(es: seq<Entry>)
    ensures |EncodeEntries(Sort(es, KeyLeq))| == |EncodeEntries(es)|
  {
    if es != [] {
      SortLength(es[1..]);
      InsertLength(es[0], Sort(es[1..], KeyLeq));
    }
  }

  /** The canonical form of a value is as long as the value. */
  lemma {:induction false} CanonicalLength(v: Value)
    requires Canonicalize(v).Some?
    ensures |Encode(Canonicalize(v).value)| == |Encode(v)|
    decreases v
  {
    match v
    case Map(entries) =>
      EntriesLength(entries);
      SortLength(CanonicalizeEntries(entries).value);
    case Array(items) => ItemsLength(items);
    case _ =>
  }

  lemma {:induction false} ItemsLength(items: seq<Value>)
    requires CanonicalizeItems(items).Some?
    ensures |CanonicalizeItems(items).value| == |items|
    ensures |EncodeItems(CanonicalizeItems(items).value)| == |EncodeItems(items)|
    decreases items
  {
    if items != [] {
      CanonicalLength(items[0]);
      ItemsLength(items[1..]);
      assert CanonicalizeItems(items).value[1..] == CanonicalizeItems(items[1..]).value;
    }
  }

  lemma {:induction false} EntryLength(e: Entry)
    requires CanonicalizeEntry(e).Some?
    ensures |EncodeEntry(CanonicalizeEntry(e).value)| == |EncodeEntry(e)|
    decreases e
  {
    CanonicalLength(e.key);
    CanonicalLength(e.val);
  }

  lemma {:induction false} EntriesLength(es: seq<Entry>)
    requires CanonicalizeEntries(es).Some?
    ensures |CanonicalizeEntries(es).value| == |es|
    ensures |EncodeEntries(CanonicalizeEntries(es).value)| == |EncodeEntries(es)|
    decreases es
  {
    if es != [] {
      EntryLength(es[0]);
      EntriesLength(es[1..]);
      assert CanonicalizeEntries(es).value[1..] == CanonicalizeEntries(es[1..]).value;
    }
  }

  // -------- a bound from the schema --------

  /** Nine bytes for every head, and every text and byte string in full. */
  function SizeBound(kind: Kind, x: FieldValue): (n: nat)
    decreases kind
  {
    match kind
    case ConstKind(text) => 9 + |text|
    case RecordKind(fields) => 9 + if x.RecordVal? then FieldsBound(fields, x.vals) else 0
    case _ => 9 + if x.TextVal? then |x.t| else if x.BytesVal? then |x.b| else 0
  }

  function FieldBound(f: Field, x: FieldValue): (n: nat)
    decreases f
  {
    9 + |f.name| + SizeBound(f.kind, x)
  }

  function FieldsBound(fields: seq<Field>, xs: seq<FieldValue>): (n: nat)
    decreases fields
  {
    if fields == [] || xs == [] then 0 else FieldBound(fields[0], xs[0]) + FieldsBound(fields[1..], xs[1..])
  }

  lemma {:induction false} ValueSize(kind: Kind, x: FieldValue)
    requires Conforms(kind, x)
    ensures |Encode(ToValue(kind, x))| <= SizeBound(kind, x)
    decreases kind
  {
    match kind
    case RecordKind(fields) =>
      HeadSize(5, |fields|);
      FieldsSize(fields, x.vals);
    case TextKind => HeadSize(3, |x.t|);
    case BytesKind => HeadSize(2, |x.b|);
    case ArrayKind(_) => HeadSize(2, |x.b|);
    case ConstKind(text) => HeadSize(3, |text|);
    case UintKind(_) => HeadSize(0, x.n);
  }

  lemma {:induction false} FieldSize(f: Field, x: FieldValue)
    requires FieldConforms(f, x)
    ensures |EncodeEntry(ToEntry(f, x))| <= FieldBound(f, x)
    decreases f
  {
    HeadSize(3, |f.name|);
    ValueSize(f.kind, x);
  }

  lemma {:induction false} FieldsSize(fields: seq<Field>, xs: seq<FieldValue>)
    requires |xs| == |fields| && forall i :: 0 <= i < |fields| ==> FieldConforms(fields[i], xs[i])
    ensures |EncodeEntries(ToEntries(fields, xs))| <= FieldsBound(fields, xs)
    decreases fields
  {
    if fields != [] {
      FieldSize(fields[0], xs[0]);
      FieldsSize(fields[1..], xs[1..]);
      assert ToEntries(fields, xs)[1..] == ToEntries(fields[1..], xs[1..]);
    }
  }

  /** A record's canonical encoding is no longer than the bound. */
  lemma RecordSizeBound(fields: seq<Field>, xs: seq<FieldValue>)
    requires Conforms(RecordKind(fields), RecordVal(xs)) && EncodeRecord(fields, xs).Some?
    ensures |EncodeRecord(fields, xs).value| <= SizeBound(RecordKind(fields), RecordVal(xs))
  {
    ValueSize(RecordKind(fields), RecordVal(xs));
    CanonicalLength(ToValue(RecordKind(fields), RecordVal(xs)));
  }

  lemma ConsBound(f: Field, fs: seq<Field>, x: FieldValue, xs: seq<FieldValue>)
    ensures FieldsBound([f] + fs, [x] + xs) == FieldBound(f, x) + FieldsBound(fs, xs)
  {
    assert ([f] + fs)[1..] == fs && ([x] + xs)[1..] == xs;
  }

  lemma BoundFrom(fs: seq<Field>, xs: seq<FieldValue>, i: nat)
    requires |fs| == |xs| && i < |fs|
    ensures FieldsBound(fs[i..], xs[i..]) == FieldBound(fs[i], xs[i]) + FieldsBound(fs[i + 1..], xs[i + 1..])
  {
    assert fs[i..][1..] == fs[i + 1..] && xs[i..][1..] == xs[i + 1..];
  }

  lemma SixFields(fs: seq<Field>, xs: seq<FieldValue>)
    requires |fs| == 6 && |xs| == 6
    ensures FieldsBound(fs, xs) == FieldBound(fs[0], xs[0]) + FieldBound(fs[1], xs[1]) + FieldBound(fs[2], xs[2])
                                   + FieldBound(fs[3], xs[3]) + FieldBound(fs[4], xs[4]) + FieldBound(fs[5], xs[5])
  {
    BoundFrom(fs, xs, 0);
    BoundFrom(fs, xs, 1);
    BoundFrom(fs, xs, 2);
    BoundFrom(fs, xs, 3);
    BoundFrom(fs, xs, 4);
    BoundFrom(fs, xs, 5);
    assert fs[0..] == fs && xs[0..] == xs && fs[6..] == [];
  }
}
