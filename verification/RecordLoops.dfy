/** The decoders as they run: a string-keyed map is filled entry by entry, then emptied field by field. */
module RecordLoops {
  import opened ByteStrings
  import opened Cbor
  import opened Canonical
  import opened Records

  lemma {:induction false} StringMapPrefix(es: seq<Entry>, n: nat)
    requires n <= |es| && StringMap(es).Some?
    ensures StringMap(es[..n]).Some?
  {
    if n == |es| {
      assert es[..n] == es;
    } else {
      StringMapPrefix(es[..|es| - 1], n);
      assert es[..|es| - 1][..n] == es[..n];
    }
  }

  /**
   `into_string_map`. The host-attestor and evidence decoders check each insert for a duplicate; the
   provenance decoder does not, and relies on the canonical gate having run before.
   */
  method IntoStringMap(v: Value, checked: bool) returns (r: Option<map<bytes, Value>>)
    requires !checked ==> IsCanonical(v)
    ensures r == if v.Map? then StringMap(v.entries) else None
  {
    if !v.Map? { return None; }
    var entries := v.entries;
    var out: map<bytes, Value> := map[];
    for i := 0 to |entries|
      invariant StringMap(entries[..i]) == Some(out)
    {
      assert entries[..i + 1][..i] == entries[..i];
      var key := entries[i].key;
      if !key.Text? || (checked && key.t in out) {
        if StringMap(entries).Some? { StringMapPrefix(entries, i + 1); }
        return None;
      }
      if !checked {
        InsertNeverOverwrites(entries, i);
        assert key.t !in out;
      }
      out := out[key.t := entries[i].val];
    }
    assert entries[..|entries|] == entries;
    r := Some(out);
  }

  /** Once the canonical gate has passed, the next key is never among those already collected. */
  lemma InsertNeverOverwrites(es: seq<Entry>, i: nat)
    requires StrictlyAscending(es) && i < |es| && es[i].key.Text?
    requires StringMap(es[..i]).Some?
    ensures es[i].key.t !in StringMap(es[..i]).value
  {
    StringMapRepresents(es[..i]);
    var m := StringMap(es[..i]).value;
    if es[i].key.t in m {
      var e := Entry(es[i].key, m[es[i].key.t]);
      assert EntryOf(e, m);
      var k :| 0 <= k < i && es[..i][k] == e;
      LexTrichotomy(Encode(es[k].key), Encode(es[i].key));
    }
  }

  /** Removes the fields one after the other; whatever is left then is an unknown field. */
  method TakeAll(fields: seq<Field>, m: map<bytes, Value>, checked: bool) returns (r: Option<seq<FieldValue>>)
    requires DistinctNames(fields)
    requires !checked ==> forall k :: k in m ==> IsCanonical(m[k])
    requires forall i :: 0 <= i < |fields| ==> GoodField(fields[i])
    ensures r == TakeFields(fields, m)
    decreases fields, 0
  {
    var remaining := m;
    var out: seq<FieldValue> := [];
    for i := 0 to |fields|
      invariant |out| == i
      invariant remaining == m - Names(fields[..i])
      invariant forall k :: 0 <= k < i ==> TakeField(fields[k], m) == Some(out[k])
    {
      NamesGrow(fields, i);
      if fields[i].name !in remaining {
        NotTaken(fields, m, i);
        return None;
      }
      var x := TakeOne(fields[i], m[fields[i].name], checked);
      if x.None? {
        NotTaken(fields, m, i);
        return None;
      }
      remaining := remaining - {fields[i].name};
      out := out + [x.value];
    }
    assert fields[..|fields|] == fields;
    assert m.Keys == Names(fields) ==> remaining == map[];
    if remaining != map[] {
      if TakeFields(fields, m).Some? {
        TakeFieldsExactly(fields, m, TakeFields(fields, m).value);
      }
      return None;
    }
    forall k | k in Names(fields) ensures k in m {
      var i :| 0 <= i < |fields| && fields[i].name == k;
    }
    assert m.Keys == Names(fields) by {
      assert forall k :: k in m && k !in Names(fields) ==> k in remaining;
    }
    TakeFieldsExactly(fields, m, out);
    r := Some(out);
  }

  lemma NamesGrow(fields: seq<Field>, i: nat)
    requires DistinctNames(fields) && i < |fields|
    ensures Names(fields[..i + 1]) == Names(fields[..i]) + {fields[i].name}
    ensures fields[i].name !in Names(fields[..i])
  {
    forall x ensures x in Names(fields[..i + 1]) <==> x in Names(fields[..i]) || x == fields[i].name {
      if x in Names(fields[..i + 1]) {
        var k :| 0 <= k < i + 1 && fields[..i + 1][k].name == x;
        assert k < i ==> fields[..i][k].name == x;
      }
      if x in Names(fields[..i]) {
        var k :| 0 <= k < i && fields[..i][k].name == x;
        assert fields[..i + 1][k].name == x;
      }
      assert fields[..i + 1][i] == fields[i];
    }
  }

  lemma NotTaken(fields: seq<Field>, m: map<bytes, Value>, i: nat)
    requires DistinctNames(fields) && i < |fields| && TakeField(fields[i], m).None?
    ensures TakeFields(fields, m).None?
  {
    if TakeFields(fields, m).Some? {
      TakeFieldsExactly(fields, m, TakeFields(fields, m).value);
    }
  }

  method TakeOne(f: Field, v: Value, checked: bool) returns (r: Option<FieldValue>)
    requires GoodField(f) && (!checked ==> IsCanonical(v))
    ensures r == FromValue(f.kind, v)
    decreases f, 0
  {
    match f.kind
    case RecordKind(fields) =>
      var m := IntoStringMap(v, checked);
      if m.None? { return None; }
      if !checked { MembersCanonical(v.entries, m.value); }
      var xs := TakeAll(fields, m.value, checked);
      if xs.None? { return None; }
      r := Some(RecordVal(xs.value));
    case _ =>
      r := FromValue(f.kind, v);
  }

  lemma MembersCanonical(es: seq<Entry>, m: map<bytes, Value>)
    requires IsCanonical(Map(es)) && StringMap(es) == Some(m)
    ensures forall k :: k in m ==> IsCanonical(m[k])
  {
    StringMapRepresents(es);
    forall k | k in m ensures IsCanonical(m[k]) {
      assert EntryOf(Entry(Text(k), m[k]), m);
      var i :| 0 <= i < |es| && es[i] == Entry(Text(k), m[k]);
      assert IsCanonicalEntry(es[i]);
    }
  }

  /** The whole decoder: gate, decode, collect, take; checked or not, it is the record decoder. */
  method DecodeBody(fields: seq<Field>, b: bytes, checked: bool) returns (r: Option<seq<FieldValue>>)
    requires GoodKind(RecordKind(fields))
    ensures r == DecodeRecord(fields, b)
  {
    if !AssertCanonical(b) { return None; }
    PassingIsCanonical(b);
    var v := Decode(b).value;
    var m := IntoStringMap(v, checked);
    if m.None? { return None; }
    if !checked { MembersCanonical(v.entries, m.value); }
    r := TakeAll(fields, m.value, checked);
  }
}
