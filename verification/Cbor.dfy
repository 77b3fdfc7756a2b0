/** CBOR items: the value tree, its preferred encoding, and a decoder for one item (RFC 8949, sections 3 and 4.1). */
module Cbor {
  import opened ByteStrings

  /** `ciborium::value::Value` without floats. */
  datatype Value =
    | Int(i: int)
    | Bytes(b: bytes)
    | Text(t: bytes)
    | Bool(flag: bool)
    | Null
    | Tag(tag: nat, content: Value)
    | Array(items: seq<Value>)
    | Map(entries: seq<Entry>)

  datatype Entry = Entry(key: Value, val: Value)

  /** Values that exist in the implementation: 64-bit heads, and texts that are UTF-8. */
  ghost predicate WellFormed(v: Value)
    decreases v
  {
    match v
    case Int(i) => -TWO_64 <= i < TWO_64
    case Bytes(b) => |b| < TWO_64
    case Text(t) => |t| < TWO_64 && Utf8(t)
    case Tag(n, c) => n < TWO_64 && WellFormed(c)
    case Array(items) => |items| < TWO_64 && AllWellFormed(items)
    case Map(entries) => |entries| < TWO_64 && AllEntriesWellFormed(entries)
    case _ => true
  }

  ghost predicate AllWellFormed(items: seq<Value>)
    decreases items
  {
    forall i :: 0 <= i < |items| ==> WellFormed(items[i])
  }

  ghost predicate EntryWellFormed(e: Entry)
    decreases e
  {
    WellFormed(e.key) && WellFormed(e.val)
  }

  ghost predicate AllEntriesWellFormed(entries: seq<Entry>)
    decreases entries
  {
    forall i :: 0 <= i < |entries| ==> EntryWellFormed(entries[i])
  }

  // -------- encoding --------

  type Major = n: nat | n < 8

  /** The shortest head of major type m with argument n. */
  function Head(m: Major, n: nat): (h: bytes) {
    if n < 24 then [32 * m + n]
    else if n < 256 then [32 * m + 24] + BigEndian(n, 1)
    else if n < TWO_16 then [32 * m + 25] + BigEndian(n, 2)
    else if n < TWO_32 then [32 * m + 26] + BigEndian(n, 4)
    else [32 * m + 27] + BigEndian(n, 8)
  }

  function Encode(v: Value): (b: bytes)
    ensures b != []
    decreases v
  {
    match v
    case Int(i) => if i >= 0 then Head(0, i) else Head(1, -1 - i)
    case Bytes(b) => Head(2, |b|) + b
    case Text(t) => Head(3, |t|) + t
    case Array(items) => Head(4, |items|) + EncodeItems(items)
    case Map(entries) => Head(5, |entries|) + EncodeEntries(entries)
    case Tag(n, c) => Head(6, n) + Encode(c)
    case Bool(flag) => [if flag then 0xF5 else 0xF4]
    case Null => [0xF6]
  }

  function EncodeItems(items: seq<Value>): (b: bytes)
    decreases items
  {
    if items == [] then [] else Encode(items[0]) + EncodeItems(items[1..])
  }

  function EncodeEntry(e: Entry): (b: bytes)
    decreases e
  {
    Encode(e.key) + Encode(e.val)
  }

  function EncodeEntries(entries: seq<Entry>): (b: bytes)
    decreases entries
  {
    if entries == [] then [] else EncodeEntry(entries[0]) + EncodeEntries(entries[1..])
  }

  // -------- decoding --------

  /** The outcome of reading one thing from the front of the input. */
  datatype Parsed<+T> = Malformed | Parsed(value: T, rest: bytes)

  datatype HeadFields = HeadFields(major: Major, arg: nat, info: nat)

  function ArgumentWidth(info: nat): (w: nat) {
    if info < 24 then 0 else if info == 24 then 1 else if info == 25 then 2 else if info == 26 then 4 else 8
  }

  /** Reads a head of any width: a longer form than needed is accepted here. */
  function DecodeHead(b: bytes): (r: Parsed<HeadFields>)
    ensures r.Parsed? ==> |r.rest| < |b|
  {
    if b == [] then Malformed
    else
      var major, info := b[0] / 32, b[0] % 32;
      var w := ArgumentWidth(info);
      if info > 27 || |b| < 1 + w then Malformed
      else Parsed(HeadFields(major, if info < 24 then info else FromBigEndian(b[1..1 + w]), info), b[1 + w..])
  }

  /** Reads one item; what follows it is returned, not refused. */
  function Decode(b: bytes): (r: Parsed<Value>)
    ensures r.Parsed? ==> |r.rest| < |b|
    decreases |b|, 0
  {
    match DecodeHead(b)
    case Malformed => Malformed
    case Parsed(h, rest) =>
      if h.major == 4 then
        (match DecodeItems(rest, h.arg)
         case Malformed => Malformed
         case Parsed(items, rest') => Parsed(Array(items), rest'))
      else if h.major == 5 then
        (match DecodeEntries(rest, h.arg)
         case Malformed => Malformed
         case Parsed(entries, rest') => Parsed(Map(entries), rest'))
      else if h.major == 6 then
        (match Decode(rest)
         case Malformed => Malformed
         case Parsed(c, rest') => Parsed(Tag(h.arg, c), rest'))
      else DecodeLeaf(h, rest)
  }

  /** Items that hold no other items. */
  function DecodeLeaf(h: HeadFields, rest: bytes): (r: Parsed<Value>)
    ensures r.Parsed? ==> |r.rest| <= |rest|
  {
    match h.major
    case 0 => Parsed(Int(h.arg), rest)
    case 1 => Parsed(Int(-1 - h.arg), rest)
    case 2 => if |rest| < h.arg then Malformed else Parsed(Bytes(rest[..h.arg]), rest[h.arg..])
    case 3 =>
      if |rest| < h.arg || !Utf8(rest[..h.arg]) then Malformed
      else Parsed(Text(rest[..h.arg]), rest[h.arg..])
    case _ =>
      if h.info > 24 then Malformed
      else if h.arg == 20 || h.arg == 21 then Parsed(Bool(h.arg == 21), rest)
      else if h.arg == 22 then Parsed(Null, rest)
      else Malformed
  }

  function DecodeItems(b: bytes, n: nat): (r: Parsed<seq<Value>>)
    ensures r.Parsed? ==> |r.rest| <= |b| && |r.value| == n
    decreases |b|, 1
  {
    if n == 0 then Parsed([], b)
    else
      match Decode(b)
      case Malformed => Malformed
      case Parsed(v, rest) =>
        match DecodeItems(rest, n - 1)
        case Malformed => Malformed
        case Parsed(vs, rest') => Parsed([v] + vs, rest')
  }

  function DecodeEntry(b: bytes): (r: Parsed<Entry>)
    ensures r.Parsed? ==> |r.rest| < |b|
    decreases |b|, 1
  {
    match Decode(b)
    case Malformed => Malformed
    case Parsed(k, rest) =>
      match Decode(rest)
      case Malformed => Malformed
      case Parsed(v, rest') => Parsed(Entry(k, v), rest')
  }

  function DecodeEntries(b: bytes, n: nat): (r: Parsed<seq<Entry>>)
    ensures r.Parsed? ==> |r.rest| <= |b| && |r.value| == n
    decreases |b|, 2
  {
    if n == 0 then Parsed([], b)
    else
      match DecodeEntry(b)
      case Malformed => Malformed
      case Parsed(e, rest) =>
        match DecodeEntries(rest, n - 1)
        case Malformed => Malformed
        case Parsed(es, rest') => Parsed([e] + es, rest')
  }

  // -------- the initial bytes --------

  /** The major type of a value (section 3.1 of RFC 8949). */
  function MajorType(v: Value): (m: nat) {
    match v
    case Int(i) => if i < 0 then 1 else 0
    case Bytes(_) => 2
    case Text(_) => 3
    case Array(_) => 4
    case Map(_) => 5
    case Tag(_, _) => 6
    case Bool(_) => 7
    case Null => 7
  }

  /** The first byte has the major type in its upper three bits; false, true and null are 0xf4, 0xf5 and 0xf6. */
  lemma InitialByte(v: Value)
    requires WellFormed(v)
    ensures Encode(v)[0] / 32 == MajorType(v)
    ensures Encode(Bool(false)) == [0xF4] && Encode(Bool(true)) == [0xF5] && Encode(Null) == [0xF6]
  {
    match v
    case Int(i) => HeadLayout(MajorType(v), if i < 0 then -1 - i else i);
    case Bytes(b) => HeadLayout(2, |b|);
    case Text(t) => HeadLayout(3, |t|);
    case Array(items) => HeadLayout(4, |items|);
    case Map(entries) => HeadLayout(5, |entries|);
    case Tag(n, _) => HeadLayout(6, n);
    case _ =>
  }

  /**
   The lower five bits of the first byte are the argument below 24, and otherwise 24, 25, 26 or 27 for the fewest of one,
   two, four or eight bytes that hold it, which follow in big-endian order (sections 3 and 4.2.1 of RFC 8949).
   */
  lemma HeadLayout(m: Major, n: nat)
    requires n < TWO_64
    ensures var h := Head(m, n);
            && h[0] / 32 == m
            && (n < 24 ==> |h| == 1 && h[0] % 32 == n)
            && (24 <= n ==> FromBigEndian(h[1..]) == n)
            && (24 <= n < 256 ==> |h| == 2 && h[0] % 32 == 24)
            && (256 <= n < TWO_16 ==> |h| == 3 && h[0] % 32 == 25)
            && (TWO_16 <= n < TWO_32 ==> |h| == 5 && h[0] % 32 == 26)
            && (TWO_32 <= n ==> |h| == 9 && h[0] % 32 == 27)
  {
    Pow256Widths();
    var h := Head(m, n);
    if n >= 24 {
      var k := |h| - 1;
      assert h[1..] == BigEndian(n, k);
      BigEndianRoundTrip(n, k);
    }
  }

  // -------- decoding undoes encoding --------

  /** A long head parses as its argument's bytes, whatever they are. */
  lemma LongHeadParses(m: Major, info: nat, arg: bytes, rest: bytes)
    requires 24 <= info <= 27 && |arg| == ArgumentWidth(info)
    ensures DecodeHead([32 * m + info] + arg + rest) == Parsed(HeadFields(m, FromBigEndian(arg), info), rest)
  {
    var b := [32 * m + info] + arg + rest;
    assert b[0] / 32 == m && b[0] % 32 == info;
    assert b[1..1 + |arg|] == arg && b[1 + |arg|..] == rest;
  }

  lemma HeadRoundTrip(m: Major, n: nat, rest: bytes)
    requires n < TWO_64
    ensures DecodeHead(Head(m, n) + rest).Parsed?
    ensures DecodeHead(Head(m, n) + rest).value.major == m
    ensures DecodeHead(Head(m, n) + rest).value.arg == n
    ensures DecodeHead(Head(m, n) + rest).rest == rest
  {
    if n < 24 {
      assert (Head(m, n) + rest)[1..] == rest;
    } else {
      Pow256Widths();
      var info := if n < 256 then 24 else if n < TWO_16 then 25 else if n < TWO_32 then 26 else 27;
      var w := ArgumentWidth(info);
      LongHeadParses(m, info, BigEndian(n, w), rest);
      BigEndianRoundTrip(n, w);
    }
  }

  predicate Leaf(v: Value) { !v.Array? && !v.Map? && !v.Tag? }

  lemma DecodeAfterLeafHead(m: Major, n: nat, tail: bytes)
    requires m < 4 && n < TWO_64
    ensures Decode(Head(m, n) + tail) == DecodeLeaf(HeadFields(m, n, 0), tail)
  {
    HeadRoundTrip(m, n, tail);
  }

  lemma DecodeEncodeSimple(v: Value, rest: bytes)
    requires v.Bool? || v.Null?
    ensures Decode(Encode(v) + rest) == Parsed(v, rest)
  {
    var b := Encode(v) + rest;
    assert b[1..] == rest;
    assert DecodeHead(b) == Parsed(HeadFields(7, b[0] % 32, b[0] % 32), rest);
  }

  lemma DecodeEncodeString(m: Major, s: bytes, rest: bytes)
    requires m == 2 || (m == 3 && Utf8(s))
    requires |s| < TWO_64
    ensures Decode(Head(m, |s|) + s + rest) == Parsed(if m == 2 then Bytes(s) else Text(s), rest)
  {
    DecodeAfterLeafHead(m, |s|, s + rest);
    assert Head(m, |s|) + s + rest == Head(m, |s|) + (s + rest);
    assert (s + rest)[..|s|] == s && (s + rest)[|s|..] == rest;
  }

  lemma DecodeEncodeLeaf(v: Value, rest: bytes)
    requires WellFormed(v) && Leaf(v)
    ensures Decode(Encode(v) + rest) == Parsed(v, rest)
  {
    match v
    case Int(i) =>
      if i >= 0 { DecodeAfterLeafHead(0, i, rest); } else { DecodeAfterLeafHead(1, -1 - i, rest); }
    case Bytes(b) => DecodeEncodeString(2, b, rest);
    case Text(t) => DecodeEncodeString(3, t, rest);
    case _ => DecodeEncodeSimple(v, rest);
  }

  /** Reading the encoding of v, whatever follows it, gives back v and what follows. */
  lemma {:induction false} DecodeEncode(v: Value, rest: bytes)
    requires WellFormed(v)
    ensures Decode(Encode(v) + rest) == Parsed(v, rest)
    decreases v
  {
    match v
    case Array(items) =>
      HeadRoundTrip(4, |items|, EncodeItems(items) + rest);
      assert Encode(v) + rest == Head(4, |items|) + (EncodeItems(items) + rest);
      DecodeEncodeItems(items, rest);
    case Map(entries) =>
      HeadRoundTrip(5, |entries|, EncodeEntries(entries) + rest);
      assert Encode(v) + rest == Head(5, |entries|) + (EncodeEntries(entries) + rest);
      DecodeEncodeEntries(entries, rest);
    case Tag(n, c) =>
      HeadRoundTrip(6, n, Encode(c) + rest);
      assert Encode(v) + rest == Head(6, n) + (Encode(c) + rest);
      DecodeEncode(c, rest);
    case _ =>
      DecodeEncodeLeaf(v, rest);
  }

  lemma DecodeItemsStep(b: bytes, v: Value, mid: bytes, n: nat, vs: seq<Value>, rest: bytes)
    requires n > 0 && Decode(b) == Parsed(v, mid) && DecodeItems(mid, n - 1) == Parsed(vs, rest)
    ensures DecodeItems(b, n) == Parsed([v] + vs, rest)
  {
  }

  lemma {:induction false} DecodeEncodeItems(items: seq<Value>, rest: bytes)
    requires AllWellFormed(items)
    ensures DecodeItems(EncodeItems(items) + rest, |items|) == Parsed(items, rest)
    decreases items
  {
    if items == [] {
      assert EncodeItems(items) + rest == rest;
    } else {
      var v, tail := items[0], items[1..];
      var mid := EncodeItems(tail) + rest;
      DecodeEncode(v, mid);
      DecodeEncodeItems(tail, rest);
      DecodeItemsStep(Encode(v) + mid, v, mid, |items|, tail, rest);
      ConcatAssoc(Encode(v), EncodeItems(tail), rest);
      assert [v] + tail == items;
    }
  }

  lemma DecodeEntryStep(b: bytes, k: Value, mid: bytes, v: Value, rest: bytes)
    requires Decode(b) == Parsed(k, mid) && Decode(mid) == Parsed(v, rest)
    ensures DecodeEntry(b) == Parsed(Entry(k, v), rest)
  {
  }

  lemma {:induction false} DecodeEncodeEntry(e: Entry, rest: bytes)
    requires EntryWellFormed(e)
    ensures DecodeEntry(EncodeEntry(e) + rest) == Parsed(e, rest)
    decreases e
  {
    var mid := Encode(e.val) + rest;
    DecodeEncode(e.key, mid);
    DecodeEncode(e.val, rest);
    DecodeEntryStep(Encode(e.key) + mid, e.key, mid, e.val, rest);
    ConcatAssoc(Encode(e.key), Encode(e.val), rest);
  }

  lemma DecodeEntriesStep(b: bytes, e: Entry, mid: bytes, n: nat, es: seq<Entry>, rest: bytes)
    requires n > 0 && DecodeEntry(b) == Parsed(e, mid) && DecodeEntries(mid, n - 1) == Parsed(es, rest)
    ensures DecodeEntries(b, n) == Parsed([e] + es, rest)
  {
  }

  lemma {:induction false} DecodeEncodeEntries(entries: seq<Entry>, rest: bytes)
    requires AllEntriesWellFormed(entries)
    ensures DecodeEntries(EncodeEntries(entries) + rest, |entries|) == Parsed(entries, rest)
    decreases entries
  {
    if entries == [] {
      assert EncodeEntries(entries) + rest == rest;
    } else {
      var e, tail := entries[0], entries[1..];
      var mid := EncodeEntries(tail) + rest;
      DecodeEncodeEntry(e, mid);
      DecodeEncodeEntries(tail, rest);
      DecodeEntriesStep(EncodeEntry(e) + mid, e, mid, |entries|, tail, rest);
      ConcatAssoc(EncodeEntry(e), EncodeEntries(tail), rest);
      assert [e] + tail == entries;
    }
  }

  lemma {:induction false} EncodeEntriesConcat(a: seq<Entry>, b: seq<Entry>)
    ensures EncodeEntries(a + b) == EncodeEntries(a) + EncodeEntries(b)
  {
    if a == [] {
      assert a + b == b;
    } else {
      EncodeEntriesConcat(a[1..], b);
      assert (a + b)[1..] == a[1..] + b && (a + b)[0] == a[0];
      var x, y, z := EncodeEntry(a[0]), EncodeEntries(a[1..]), EncodeEntries(b);
      assert x + (y + z) == (x + y) + z;
    }
  }

  lemma EncodeSingle(e: Entry)
    ensures EncodeEntries([e]) == Encode(e.key) + Encode(e.val)
  {
    assert [e][1..] == [];
  }

  /** No encoding is a prefix of another one. */
  lemma PrefixFree(v: Value, w: Value)
    requires WellFormed(v) && WellFormed(w)
    requires Encode(v) <= Encode(w)
    ensures v == w
  {
    var suffix := Encode(w)[|Encode(v)|..];
    assert Encode(w) == Encode(v) + suffix == Encode(w) + [];
    DecodeEncode(v, suffix);
    DecodeEncode(w, []);
  }

  lemma EncodeInjective(v: Value, w: Value)
    requires WellFormed(v) && WellFormed(w)
    requires Encode(v) == Encode(w)
    ensures v == w
  {
    PrefixFree(v, w);
  }

  // -------- what the decoder yields --------

  lemma HeadArgumentBound(b: bytes)
    requires DecodeHead(b).Parsed?
    ensures DecodeHead(b).value.arg < TWO_64
  {
    Pow256Widths();
    var info := b[0] % 32;
    if info >= 24 { FromBigEndianBound(b[1..1 + ArgumentWidth(info)]); }
  }

  lemma {:induction false} DecodedWellFormed(b: bytes)
    requires Decode(b).Parsed?
    ensures WellFormed(Decode(b).value)
    decreases |b|, 0
  {
    HeadArgumentBound(b);
    var h := DecodeHead(b);
    match h.value.major
    case 4 => DecodedItemsWellFormed(h.rest, h.value.arg);
    case 5 => DecodedEntriesWellFormed(h.rest, h.value.arg);
    case 6 => DecodedWellFormed(h.rest);
    case _ =>
  }

  lemma {:induction false} DecodedItemsWellFormed(b: bytes, n: nat)
    requires DecodeItems(b, n).Parsed?
    ensures AllWellFormed(DecodeItems(b, n).value)
    decreases |b|, 1
  {
    if n > 0 {
      DecodedWellFormed(b);
      DecodedItemsWellFormed(Decode(b).rest, n - 1);
    }
  }

  lemma {:induction false} DecodedEntriesWellFormed(b: bytes, n: nat)
    requires DecodeEntries(b, n).Parsed?
    ensures AllEntriesWellFormed(DecodeEntries(b, n).value)
    decreases |b|, 1
  {
    if n > 0 {
      DecodedWellFormed(b);
      DecodedWellFormed(Decode(b).rest);
      DecodedEntriesWellFormed(DecodeEntry(b).rest, n - 1);
    }
  }

  // -------- the order of encoded text keys --------

  lemma HeadMonotone(m: Major, a: nat, b: nat, x: bytes, y: bytes)
    requires a < b < TWO_64
    ensures LexLess(Head(m, a) + x, Head(m, b) + y)
  {
    Pow256Widths();
    var p, q := Head(m, a), Head(m, b);
    if |p| == |q| {
      if b >= 24 {
        var k := |p| - 1;
        BigEndianMonotone(a, b, k);
        LexPrefix([p[0]], BigEndian(a, k), BigEndian(b, k));
      }
      LexDecidedByPrefix(p, q, x, y);
    } else {
      assert (p + x)[0] < (q + y)[0];
    }
  }

  /** Bytewise order of encoded text keys is: shorter first, then bytewise. */
  lemma TextKeyOrder(s: bytes, t: bytes)
    requires |s| < TWO_64 && |t| < TWO_64
    ensures LexLess(Encode(Text(s)), Encode(Text(t))) <==> ShortLex(s, t)
  {
    if |s| == |t| {
      LexPrefix(Head(3, |s|), s, t);
    } else if |s| < |t| {
      HeadMonotone(3, |s|, |t|, s, t);
    } else {
      HeadMonotone(3, |t|, |s|, t, s);
      LexTrichotomy(Encode(Text(s)), Encode(Text(t)));
    }
  }
}
