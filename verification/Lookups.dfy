/** What a body says, read by key from the map it decodes to. */
module Lookups {
  import opened ByteStrings
  import opened Sorting
  import opened Cbor
  import opened Canonical
  import opened Records

  type StringKeyed = map<bytes, Value>

  predicate HoldsText(m: StringKeyed, name: string, t: bytes) { Ascii(name) in m && m[Ascii(name)] == Text(t) }

  predicate HoldsBytes(m: StringKeyed, name: string, b: bytes) { Ascii(name) in m && m[Ascii(name)] == Bytes(b) }

  predicate HoldsUint(m: StringKeyed, name: string, n: nat) { Ascii(name) in m && m[Ascii(name)] == Int(n) }

  /** The value under `name` is a map with text keys, namely `inner`. */
  predicate HoldsMap(m: StringKeyed, name: string, inner: StringKeyed) {
    Ascii(name) in m && m[Ascii(name)].Map? && StringMap(m[Ascii(name)].entries) == Some(inner)
  }

  /** The map a body is, if it passes the canonical gate and is a map with text keys. */
  function BodyMap(b: bytes): (m: Option<StringKeyed>) {
    if AssertCanonical(b) && Decode(b).value.Map? then StringMap(Decode(b).value.entries) else None
  }

  // -------- the fields of a schema, read by key --------

  lemma TextRead(name: string, m: StringKeyed, t: bytes)
    ensures TakeField(Field(Ascii(name), TextKind), m) == Some(TextVal(t)) <==> HoldsText(m, name, t)
  {
  }

  lemma ConstRead(name: string, m: StringKeyed, t: bytes)
    ensures TakeField(Field(Ascii(name), ConstKind(t)), m) == Some(ConstVal) <==> HoldsText(m, name, t)
  {
  }

  lemma BytesRead(name: string, m: StringKeyed, b: bytes)
    ensures TakeField(Field(Ascii(name), BytesKind), m) == Some(BytesVal(b)) <==> HoldsBytes(m, name, b)
  {
  }

  lemma ArrayRead(name: string, len: nat, m: StringKeyed, b: bytes)
    ensures TakeField(Field(Ascii(name), ArrayKind(len)), m) == Some(BytesVal(b)) <==> HoldsBytes(m, name, b) && |b| == len
  {
  }

  lemma UintRead(name: string, limit: nat, m: StringKeyed, n: nat)
    ensures TakeField(Field(Ascii(name), UintKind(limit)), m) == Some(UintVal(n)) <==> HoldsUint(m, name, n) && n < limit
  {
  }

  lemma RecordRead(name: string, fields: seq<Field>, m: StringKeyed, xs: seq<FieldValue>)
    ensures TakeField(Field(Ascii(name), RecordKind(fields)), m) == Some(RecordVal(xs)) <==>
              exists inner :: HoldsMap(m, name, inner) && TakeFields(fields, inner) == Some(xs)
  {
    if Ascii(name) in m && m[Ascii(name)].Map? && StringMap(m[Ascii(name)].entries).Some? {
      assert HoldsMap(m, name, StringMap(m[Ascii(name)].entries).value);
    }
  }

  /** Field `i` of the schema is read from the map as value `i`. */
  predicate Reads(f: seq<Field>, v: seq<FieldValue>, m: StringKeyed, i: nat)
    requires i < |f| && i < |v|
  {
    TakeField(f[i], m) == Some(v[i])
  }

  /** The first eight fields from `i` on, as far as there are that many. */
  predicate ReadsEight(f: seq<Field>, v: seq<FieldValue>, m: StringKeyed, i: nat)
    requires |f| == |v|
  {
    && (i < |f| ==> Reads(f, v, m, i)) && (i + 1 < |f| ==> Reads(f, v, m, i + 1))
    && (i + 2 < |f| ==> Reads(f, v, m, i + 2)) && (i + 3 < |f| ==> Reads(f, v, m, i + 3))
    && (i + 4 < |f| ==> Reads(f, v, m, i + 4)) && (i + 5 < |f| ==> Reads(f, v, m, i + 5))
    && (i + 6 < |f| ==> Reads(f, v, m, i + 6)) && (i + 7 < |f| ==> Reads(f, v, m, i + 7))
  }

  lemma ReadsAll(f: seq<Field>, v: seq<FieldValue>, m: StringKeyed)
    requires |f| == |v| <= 16
    ensures (forall i :: 0 <= i < |f| ==> TakeField(f[i], m) == Some(v[i])) <==> ReadsEight(f, v, m, 0) && ReadsEight(f, v, m, 8)
  {
    if ReadsEight(f, v, m, 0) && ReadsEight(f, v, m, 8) {
      forall i | 0 <= i < |f| ensures Reads(f, v, m, i) {
      }
    }
    if forall i :: 0 <= i < |f| ==> TakeField(f[i], m) == Some(v[i]) {
      assert forall i :: 0 <= i < |f| ==> Reads(f, v, m, i);
    }
  }

  /** With distinct names, reading every field from a map with as many keys is taking them out and finding nothing left. */
  lemma TakenBySize(fields: seq<Field>, m: StringKeyed, xs: seq<FieldValue>)
    requires DistinctNames(fields)
    ensures TakeFields(fields, m) == Some(xs) <==>
              |m| == |fields| == |xs| && forall i :: 0 <= i < |fields| ==> TakeField(fields[i], m) == Some(xs[i])
  {
    TakeFieldsExactly(fields, m, xs);
    NamesCount(fields);
    if |m| == |fields| && forall i :: 0 <= i < |fields| ==> fields[i].name in m {
      SameSize(Names(fields), m.Keys);
    }
  }

  lemma {:induction false} SameSize<T>(a: set<T>, b: set<T>)
    requires a <= b && |a| == |b|
    ensures a == b
    decreases a
  {
    if a != {} {
      var x :| x in a;
      SameSize(a - {x}, b - {x});
    }
  }

  /** A body decodes to given field values exactly when the map it is has as many keys and holds each under its name. */
  lemma BodyRead(fields: seq<Field>, b: bytes, xs: seq<FieldValue>)
    requires DistinctNames(fields) && |fields| == |xs| <= 16
    ensures DecodeRecord(fields, b) == Some(xs) <==>
              && BodyMap(b).Some? && |BodyMap(b).value| == |fields|
              && ReadsEight(fields, xs, BodyMap(b).value, 0) && ReadsEight(fields, xs, BodyMap(b).value, 8)
  {
    if BodyMap(b).Some? {
      TakenBySize(fields, BodyMap(b).value, xs);
      ReadsAll(fields, xs, BodyMap(b).value);
    }
  }
}
