/**
 Wire records: a canonical CBOR map with a fixed set of named fields, decoded fail-closed.
 One codec, driven by a list of fields, stands for the decoders that take fields out of a string-keyed map.
 */
module Records {
  import opened ByteStrings
  import opened Sorting
  import opened Cbor
  import opened Canonical

  /** What a field may hold. */
  datatype Kind =
    | TextKind
    | BytesKind
    | ArrayKind(len: nat)          // exactly len bytes
    | UintKind(limit: nat)         // an integer below limit
    | ConstKind(text: bytes)       // this very text (a domain tag)
    | RecordKind(fields: seq<Field>)

  datatype Field = Field(name: bytes, kind: Kind)

  datatype FieldValue =
    | TextVal(t: bytes)
    | BytesVal(b: bytes)
    | UintVal(n: nat)
    | ConstVal
    | RecordVal(vals: seq<FieldValue>)

  /** x is a value of the given kind. */
  ghost predicate Conforms(kind: Kind, x: FieldValue)
    decreases kind
  {
    match kind
    case TextKind => x.TextVal? && |x.t| < TWO_64 && Utf8(x.t)
    case BytesKind => x.BytesVal? && |x.b| < TWO_64
    case ArrayKind(len) => x.BytesVal? && |x.b| == len
    case UintKind(limit) => x.UintVal? && x.n < limit
    case ConstKind(_) => x.ConstVal?
    case RecordKind(fields) =>
      && x.RecordVal? && |x.vals| == |fields|
      && forall i :: 0 <= i < |fields| ==> FieldConforms(fields[i], x.vals[i])
  }

  ghost predicate FieldConforms(f: Field, x: FieldValue)
    decreases f
  {
    Conforms(f.kind, x)
  }

  /** The schema itself is sensible: distinct names, 64-bit limits. */
  ghost predicate GoodKind(kind: Kind)
    decreases kind
  {
    match kind
    case ArrayKind(len) => len < TWO_64
    case UintKind(limit) => limit <= TWO_64
    case ConstKind(text) => |text| < TWO_64 && AsciiOnly(text)
    case RecordKind(fields) =>
      && |fields| < TWO_64
      && (forall i :: 0 <= i < |fields| ==> GoodField(fields[i]))
      && DistinctNames(fields)
    case _ => true
  }

  ghost predicate GoodField(f: Field)
    decreases f
  {
    |f.name| < TWO_64 && AsciiOnly(f.name) && GoodKind(f.kind)
  }

  ghost predicate DistinctNames(fields: seq<Field>) {
    forall i, j :: 0 <= i < j < |fields| ==> fields[i].name != fields[j].name
  }

  /** Names listed shorter first, then bytewise, are distinct. */
  ghost predicate NamesAscend(fields: seq<Field>) {
    forall i :: 0 <= i < |fields| - 1 ==> ShortLex(fields[i].name, fields[i + 1].name)
  }

  lemma {:induction false} AscendingNames(fields: seq<Field>, i: nat, j: nat)
    requires NamesAscend(fields) && i < j < |fields|
    ensures ShortLex(fields[i].name, fields[j].name)
  {
    if i + 1 < j {
      AscendingNames(fields, i, j - 1);
      assert ShortLex(fields[j - 1].name, fields[j - 1 + 1].name);
      ShortLexTransitive(fields[i].name, fields[j - 1].name, fields[j].name);
    }
  }

  lemma AscendingNamesDistinct(fields: seq<Field>)
    requires NamesAscend(fields)
    ensures DistinctNames(fields)
  {
    forall i, j | 0 <= i < j < |fields| ensures fields[i].name != fields[j].name {
      AscendingNames(fields, i, j);
      LexTrichotomy(fields[i].name, fields[j].name);
    }
  }

  /** Entries whose text keys are listed shorter first, then bytewise, are in canonical order. */
  lemma AscendingTextKeys(es: seq<Entry>)
    requires forall i :: 0 <= i < |es| ==> es[i].key.Text? && |es[i].key.t| < TWO_64
    requires forall i :: 0 <= i < |es| - 1 ==> ShortLex(es[i].key.t, es[i + 1].key.t)
    ensures StrictlyAscending(es)
  {
    var fields := seq(|es|, i requires 0 <= i < |es| => Field(es[i].key.t, TextKind));
    forall i, j | 0 <= i < j < |es| ensures LexLess(Encode(es[i].key), Encode(es[j].key)) {
      AscendingNames(fields, i, j);
      TextKeyOrder(es[i].key.t, es[j].key.t);
    }
  }

  // -------- encoding --------

  function ToValue(kind: Kind, x: FieldValue): (v: Value)
    requires Conforms(kind, x)
    decreases kind
  {
    match kind
    case TextKind => Text(x.t)
    case BytesKind => Bytes(x.b)
    case ArrayKind(_) => Bytes(x.b)
    case UintKind(_) => Int(x.n)
    case ConstKind(text) => Text(text)
    case RecordKind(fields) => Map(ToEntries(fields, x.vals))
  }

  function ToEntry(f: Field, x: FieldValue): (e: Entry)
    requires FieldConforms(f, x)
    decreases f
  {
    Entry(Text(f.name), ToValue(f.kind, x))
  }

  function ToEntries(fields: seq<Field>, xs: seq<FieldValue>): (es: seq<Entry>)
    requires |xs| == |fields| && forall i :: 0 <= i < |fields| ==> FieldConforms(fields[i], xs[i])
    ensures |es| == |fields|
    ensures forall i :: 0 <= i < |fields| ==> es[i] == ToEntry(fields[i], xs[i])
    decreases fields
  {
    if fields == [] then [] else [ToEntry(fields[0], xs[0])] + ToEntries(fields[1..], xs[1..])
  }

  // -------- decoding --------

  /** `into_string_map`: text keys only, no key twice. */
  function StringMap(es: seq<Entry>): (r: Option<map<bytes, Value>>) {
    if es == [] then Some(map[])
    else
      var n := |es| - 1;
      match StringMap(es[..n])
      case None => None
      case Some(m) =>
        if !es[n].key.Text? || es[n].key.t in m then None else Some(m[es[n].key.t := es[n].val])
  }

  /** Takes each field out of the map and refuses leftovers. */
  function TakeFields(fields: seq<Field>, m: map<bytes, Value>): (r: Option<seq<FieldValue>>)
    decreases fields
  {
    if fields == [] then (if m == map[] then Some([]) else None)
    else
      match (TakeField(fields[0], m), TakeFields(fields[1..], m - {fields[0].name}))
      case (Some(x), Some(xs)) => Some([x] + xs)
      case _ => None
  }

  function TakeField(f: Field, m: map<bytes, Value>): (r: Option<FieldValue>)
    decreases f
  {
    if f.name in m then FromValue(f.kind, m[f.name]) else None
  }

  function FromValue(kind: Kind, v: Value): (r: Option<FieldValue>)
    decreases kind
  {
    match kind
    case TextKind => if v.Text? then Some(TextVal(v.t)) else None
    case BytesKind => if v.Bytes? then Some(BytesVal(v.b)) else None
    case ArrayKind(len) => if v.Bytes? && |v.b| == len then Some(BytesVal(v.b)) else None
    case UintKind(limit) => if v.Int? && 0 <= v.i < limit then Some(UintVal(v.i)) else None
    case ConstKind(text) => if v == Text(text) then Some(ConstVal) else None
    case RecordKind(fields) =>
      if !v.Map? then None
      else
        match StringMap(v.entries)
        case None => None
        case Some(m) =>
          match TakeFields(fields, m)
          case None => None
          case Some(xs) => Some(RecordVal(xs))
  }

  function EncodeRecord(fields: seq<Field>, xs: seq<FieldValue>): (r: Option<bytes>)
    requires Conforms(RecordKind(fields), RecordVal(xs))
  {
    ToCanonicalVec(ToValue(RecordKind(fields), RecordVal(xs)))
  }

  function DecodeRecord(fields: seq<Field>, b: bytes): (r: Option<seq<FieldValue>>) {
    if !AssertCanonical(b) then None
    else
      match FromValue(RecordKind(fields), Decode(b).value)
      case Some(RecordVal(xs)) => Some(xs)
      case _ => None
  }

  // -------- entry lists and the maps they stand for --------

  predicate EntryOf(e: Entry, m: map<bytes, Value>) {
    e.key.Text? && e.key.t in m && m[e.key.t] == e.val
  }

  /** es lists the entries of m, each once. */
  ghost predicate Represents(es: seq<Entry>, m: map<bytes, Value>) {
    NoRepeats(es) && forall e :: e in es <==> EntryOf(e, m)
  }

  lemma {:induction false} StringMapRepresents(es: seq<Entry>)
    requires StringMap(es).Some?
    ensures Represents(es, StringMap(es).value)
  {
    if es != [] {
      var n := |es| - 1;
      StringMapRepresents(es[..n]);
      assert es == es[..n] + [es[n]];
      var m, m' := StringMap(es[..n]).value, StringMap(es).value;
      forall e ensures e in es <==> EntryOf(e, m') {
        assert e in es <==> e in es[..n] || e == es[n];
      }
      forall i | 0 <= i < n ensures es[i] != es[n] {
        assert es[i] in es[..n];
      }
    }
  }

  lemma {:induction false} RepresentsStringMap(es: seq<Entry>, m: map<bytes, Value>)
    requires Represents(es, m)
    ensures StringMap(es) == Some(m)
  {
    if es == [] {
      assert forall k :: k in m ==> EntryOf(Entry(Text(k), m[k]), m);
      assert m == map[];
    } else {
      var n := |es| - 1;
      assert es[n] in es;
      var m' := m - {es[n].key.t};
      PrefixRepresents(es, m);
      RepresentsStringMap(es[..n], m');
      assert m'[es[n].key.t := es[n].val] == m;
    }
  }

  lemma PrefixRepresents(es: seq<Entry>, m: map<bytes, Value>)
    requires es != [] && Represents(es, m) && es[|es| - 1].key.Text?
    ensures Represents(es[..|es| - 1], m - {es[|es| - 1].key.t})
  {
    var n := |es| - 1;
    var m' := m - {es[n].key.t};
    assert es[n] in es;
    forall e ensures e in es[..n] <==> EntryOf(e, m') {
      if e in es[..n] {
        assert e in es;
      }
      if EntryOf(e, m') {
        assert EntryOf(e, m);
      }
    }
  }

  lemma RearrangedRepresents(es: seq<Entry>, fs: seq<Entry>, m: map<bytes, Value>)
    requires Represents(es, m) && multiset(es) == multiset(fs)
    ensures Represents(fs, m)
  {
    SameElementsNoRepeats(es, fs);
    forall e ensures e in fs <==> EntryOf(e, m) {
      SameElementsSameMembers(es, fs, e);
    }
  }

  lemma SameMapRearranged(es: seq<Entry>, fs: seq<Entry>, m: map<bytes, Value>)
    requires Represents(es, m) && Represents(fs, m)
    ensures multiset(es) == multiset(fs)
  {
    SameMembersSameElements(es, fs);
  }

  /** Sorting a list of text-keyed entries that repeats no key loses nothing and leaves no ties. */
  lemma SortRepresents(es: seq<Entry>, m: map<bytes, Value>)
    requires Represents(es, m) && AllEntriesWellFormed(es)
    ensures Represents(Sort(es, KeyLeq), m) && !AdjacentEqualKeys(Sort(es, KeyLeq))
  {
    var s := Sort(es, KeyLeq);
    SortPermutes(es, KeyLeq);
    RearrangedRepresents(es, s, m);
    forall i | 0 <= i < |s| - 1 ensures Encode(s[i].key) != Encode(s[i + 1].key) {
      SortKeeps(es, i);
      SortKeeps(es, i + 1);
      assert EntryOf(s[i], m) && EntryOf(s[i + 1], m);
      assert s[i] != s[i + 1];
      if Encode(s[i].key) == Encode(s[i + 1].key) {
        EncodeInjective(s[i].key, s[i + 1].key);
      }
    }
  }

  /** A canonical text-keyed map value is determined by the map it stands for. */
  lemma SortIsTheCanonicalList(es: seq<Entry>, canonical: seq<Entry>, m: map<bytes, Value>)
    requires Represents(es, m) && Represents(canonical, m) && StrictlyAscending(canonical)
    ensures Sort(es, KeyLeq) == canonical
  {
    SameMapRearranged(es, canonical, m);
    SortOfRearranged(canonical, es);
    AscendingIsSorted(canonical);
    SortFixpoint(canonical, KeyLeq);
  }

  /** In a canonical map with text keys no key occurs twice: collecting it never meets a duplicate. */
  lemma {:induction false} CanonicalKeysCollect(es: seq<Entry>)
    requires StrictlyAscending(es) && forall i :: 0 <= i < |es| ==> es[i].key.Text?
    ensures StringMap(es).Some?
  {
    if es != [] {
      var n := |es| - 1;
      CanonicalKeysCollect(es[..n]);
      StringMapRepresents(es[..n]);
      var m := StringMap(es[..n]).value;
      if es[n].key.t in m {
        var e := Entry(es[n].key, m[es[n].key.t]);
        assert EntryOf(e, m);
        var i :| 0 <= i < n && es[..n][i] == e;
        LexTrichotomy(Encode(es[i].key), Encode(es[n].key));
      }
    }
  }

  // -------- taking fields out of a map --------

  ghost function Names(fields: seq<Field>): set<bytes> { set i | 0 <= i < |fields| :: fields[i].name }

  lemma NamesSplit(fields: seq<Field>)
    requires fields != [] && DistinctNames(fields)
    ensures Names(fields[1..]) == Names(fields) - {fields[0].name} && fields[0].name in Names(fields)
  {
    var tail := fields[1..];
    forall x ensures x in Names(tail) <==> x in Names(fields) && x != fields[0].name {
      if x in Names(tail) {
        var i :| 0 <= i < |tail| && tail[i].name == x;
        assert fields[i + 1].name == x;
      }
      if x in Names(fields) && x != fields[0].name {
        var i :| 0 <= i < |fields| && fields[i].name == x;
        assert tail[i - 1].name == x;
      }
    }
    assert fields[0].name in Names(fields);
  }

  lemma {:induction false} NamesCount(fields: seq<Field>)
    requires DistinctNames(fields)
    ensures |Names(fields)| == |fields|
    decreases fields
  {
    if fields != [] {
      NamesSplit(fields);
      assert DistinctNames(fields[1..]);
      NamesCount(fields[1..]);
      assert Names(fields) == Names(fields[1..]) + {fields[0].name};
    }
  }

  /** xs are the fields of m and m has no other keys. */
  ghost predicate Taken(fields: seq<Field>, m: map<bytes, Value>, xs: seq<FieldValue>) {
    && m.Keys == Names(fields) && |xs| == |fields|
    && forall i :: 0 <= i < |fields| ==> TakeField(fields[i], m) == Some(xs[i])
  }

  lemma {:induction false} TakeFieldsExactly(fields: seq<Field>, m: map<bytes, Value>, xs: seq<FieldValue>)
    requires DistinctNames(fields)
    ensures TakeFields(fields, m) == Some(xs) <==> Taken(fields, m, xs)
    decreases fields
  {
    if fields == [] {
      assert m == map[] <==> m.Keys == {};
    } else {
      var tail, m' := fields[1..], m - {fields[0].name};
      NamesSplit(fields);
      TakeTail(fields, m);
      if xs != [] {
        TakeFieldsExactly(tail, m', xs[1..]);
        TakenSplits(fields, m, xs);
        assert xs == [xs[0]] + xs[1..];
      }
    }
  }

  lemma TakenSplits(fields: seq<Field>, m: map<bytes, Value>, xs: seq<FieldValue>)
    requires fields != [] && xs != [] && DistinctNames(fields)
    ensures Taken(fields, m, xs) <==> TakeField(fields[0], m) == Some(xs[0]) && Taken(fields[1..], m - {fields[0].name}, xs[1..])
  {
    var tail, m' := fields[1..], m - {fields[0].name};
    NamesSplit(fields);
    TakeTail(fields, m);
    if Taken(tail, m', xs[1..]) && TakeField(fields[0], m) == Some(xs[0]) {
      assert m.Keys == m'.Keys + {fields[0].name};
      forall i | 0 <= i < |fields| ensures TakeField(fields[i], m) == Some(xs[i]) {
        if i > 0 {
          assert TakeField(tail[i - 1], m') == Some(xs[1..][i - 1]);
        }
      }
    }
    if Taken(fields, m, xs) {
      forall i | 0 <= i < |tail| ensures TakeField(tail[i], m') == Some(xs[1..][i]) {
        assert TakeField(fields[i + 1], m) == Some(xs[i + 1]);
      }
    }
  }

  lemma TakeTail(fields: seq<Field>, m: map<bytes, Value>)
    requires fields != [] && DistinctNames(fields)
    ensures forall i :: 0 <= i < |fields[1..]| ==>
                          TakeField(fields[1..][i], m - {fields[0].name}) == TakeField(fields[i + 1], m)
  {
  }

  // -------- the codec theorem --------

  lemma {:induction false} ToValueWellFormed(kind: Kind, x: FieldValue)
    requires GoodKind(kind) && Conforms(kind, x)
    ensures WellFormed(ToValue(kind, x))
    decreases kind
  {
    match kind
    case ConstKind(text) => AsciiIsUtf8(text);
    case RecordKind(fields) =>
      forall i | 0 <= i < |fields| ensures EntryWellFormed(ToEntry(fields[i], x.vals[i])) {
        ToEntryWellFormed(fields[i], x.vals[i]);
      }
    case _ =>
  }

  lemma {:induction false} ToEntryWellFormed(f: Field, x: FieldValue)
    requires GoodField(f) && FieldConforms(f, x)
    ensures EntryWellFormed(ToEntry(f, x))
    decreases f
  {
    AsciiIsUtf8(f.name);
    ToValueWellFormed(f.kind, x);
  }

  /** The canonical form of a record's value. */
  ghost predicate Carries(kind: Kind, x: FieldValue, c: Value)
    requires Conforms(kind, x)
  {
    Canonicalize(ToValue(kind, x)) == Some(c)
  }

  /** What is encoded can be decoded. */
  lemma {:induction false} EncodedDecodes(kind: Kind, x: FieldValue)
    requires GoodKind(kind) && Conforms(kind, x)
    ensures Canonicalize(ToValue(kind, x)).Some?
    ensures FromValue(kind, Canonicalize(ToValue(kind, x)).value) == Some(x)
    decreases kind
  {
    match kind
    case RecordKind(fields) => EncodedRecordDecodes(fields, x.vals);
    case _ =>
  }

  lemma {:induction false} EncodedFieldDecodes(f: Field, x: FieldValue)
    requires GoodField(f) && FieldConforms(f, x)
    ensures CanonicalizeEntry(ToEntry(f, x)).Some?
    ensures CanonicalizeEntry(ToEntry(f, x)).value.key == Text(f.name)
    ensures FromValue(f.kind, CanonicalizeEntry(ToEntry(f, x)).value.val) == Some(x)
    decreases f
  {
    EncodedDecodes(f.kind, x);
  }

  /** Entries named after the fields, one each, represent the map from names to their values. */
  lemma NamedEntriesRepresent(fields: seq<Field>, cs: seq<Entry>) returns (m: map<bytes, Value>)
    requires DistinctNames(fields) && |cs| == |fields|
    requires forall i :: 0 <= i < |fields| ==> cs[i].key == Text(fields[i].name)
    ensures Represents(cs, m) && m.Keys == Names(fields)
    ensures forall i :: 0 <= i < |fields| ==> m[fields[i].name] == cs[i].val
  {
    m := map i | 0 <= i < |fields| :: fields[i].name := cs[i].val;
    forall e | EntryOf(e, m) ensures e in cs {
      var i :| 0 <= i < |fields| && fields[i].name == e.key.t;
      assert cs[i] == e;
    }
    assert m.Keys == Names(fields);
  }

  lemma {:induction false} EncodedRecordDecodes(fields: seq<Field>, xs: seq<FieldValue>)
    requires GoodKind(RecordKind(fields)) && Conforms(RecordKind(fields), RecordVal(xs))
    ensures Canonicalize(Map(ToEntries(fields, xs))).Some?
    ensures FromValue(RecordKind(fields), Canonicalize(Map(ToEntries(fields, xs))).value) == Some(RecordVal(xs))
    decreases fields
  {
    var es := ToEntries(fields, xs);
    forall i | 0 <= i < |fields|
      ensures CanonicalizeEntry(es[i]).Some?
      ensures CanonicalizeEntry(es[i]).value.key == Text(fields[i].name)
      ensures FromValue(fields[i].kind, CanonicalizeEntry(es[i]).value.val) == Some(xs[i])
      ensures EntryWellFormed(CanonicalizeEntry(es[i]).value)
    {
      EncodedFieldDecodes(fields[i], xs[i]);
      ToEntryWellFormed(fields[i], xs[i]);
      CanonicalizeEntryWellFormed(es[i]);
    }
    EntriesPointwise(es);
    FieldsSurviveSorting(fields, xs, CanonicalizeEntries(es).value);
  }

  lemma FieldsSurviveSorting(fields: seq<Field>, xs: seq<FieldValue>, cs: seq<Entry>)
    requires DistinctNames(fields) && |cs| == |fields| == |xs| && AllEntriesWellFormed(cs)
    requires forall i :: 0 <= i < |fields| ==> cs[i].key == Text(fields[i].name)
    requires forall i :: 0 <= i < |fields| ==> FromValue(fields[i].kind, cs[i].val) == Some(xs[i])
    ensures !AdjacentEqualKeys(Sort(cs, KeyLeq))
    ensures FromValue(RecordKind(fields), Map(Sort(cs, KeyLeq))) == Some(RecordVal(xs))
  {
    var m := NamedEntriesRepresent(fields, cs);
    SortRepresents(cs, m);
    RepresentsStringMap(Sort(cs, KeyLeq), m);
    assert Taken(fields, m, xs);
    TakeFieldsExactly(fields, m, xs);
  }

  /** What decodes is a value of the kind, and encoding it gives the same canonical value back. */
  lemma {:induction false} DecodedEncodes(kind: Kind, c: Value)
    requires GoodKind(kind) && WellFormed(c) && IsCanonical(c) && FromValue(kind, c).Some?
    ensures Conforms(kind, FromValue(kind, c).value)
    ensures Carries(kind, FromValue(kind, c).value, c)
    decreases kind
  {
    match kind
    case RecordKind(fields) => DecodedRecordEncodes(fields, c.entries);
    case _ =>
  }

  lemma {:induction false} DecodedFieldEncodes(f: Field, m: map<bytes, Value>)
    requires GoodField(f) && TakeField(f, m).Some?
    requires WellFormed(m[f.name]) && IsCanonical(m[f.name])
    ensures FieldConforms(f, TakeField(f, m).value)
    ensures CanonicalizeEntry(ToEntry(f, TakeField(f, m).value)) == Some(Entry(Text(f.name), m[f.name]))
    decreases f
  {
    DecodedEncodes(f.kind, m[f.name]);
  }

  lemma {:induction false} DecodedRecordEncodes(fields: seq<Field>, es: seq<Entry>)
    requires GoodKind(RecordKind(fields)) && WellFormed(Map(es)) && IsCanonical(Map(es))
    requires FromValue(RecordKind(fields), Map(es)).Some?
    ensures Conforms(RecordKind(fields), FromValue(RecordKind(fields), Map(es)).value)
    ensures Carries(RecordKind(fields), FromValue(RecordKind(fields), Map(es)).value, Map(es))
    decreases fields
  {
    StringMapRepresents(es);
    var m := StringMap(es).value;
    var xs := TakeFields(fields, m).value;
    TakeFieldsExactly(fields, m, xs);
    forall i | 0 <= i < |fields|
      ensures FieldConforms(fields[i], xs[i])
      ensures CanonicalizeEntry(ToEntry(fields[i], xs[i])) == Some(Entry(Text(fields[i].name), m[fields[i].name]))
    {
      assert TakeField(fields[i], m) == Some(xs[i]);
      MemberOfCanonicalMap(es, m, fields[i].name);
      DecodedFieldEncodes(fields[i], m);
    }
    NamedEntriesSort(fields, xs, es, m);
  }

  lemma MemberOfCanonicalMap(es: seq<Entry>, m: map<bytes, Value>, name: bytes)
    requires WellFormed(Map(es)) && IsCanonical(Map(es)) && Represents(es, m) && name in m
    ensures WellFormed(m[name]) && IsCanonical(m[name])
  {
    assert EntryOf(Entry(Text(name), m[name]), m);
    var i :| 0 <= i < |es| && es[i] == Entry(Text(name), m[name]);
    assert EntryWellFormed(es[i]) && IsCanonicalEntry(es[i]);
  }

  lemma NamedEntriesSort(fields: seq<Field>, xs: seq<FieldValue>, es: seq<Entry>, m: map<bytes, Value>)
    requires DistinctNames(fields) && |xs| == |fields| && m.Keys == Names(fields)
    requires forall i :: 0 <= i < |fields| ==> FieldConforms(fields[i], xs[i])
    requires forall i :: 0 <= i < |fields| ==>
                           CanonicalizeEntry(ToEntry(fields[i], xs[i])) == Some(Entry(Text(fields[i].name), m[fields[i].name]))
    requires Represents(es, m) && StrictlyAscending(es)
    ensures Canonicalize(Map(ToEntries(fields, xs))) == Some(Map(es))
  {
    var source := ToEntries(fields, xs);
    EntriesPointwise(source);
    var cs := CanonicalizeEntries(source).value;
    var m' := NamedEntriesRepresent(fields, cs);
    forall k | k in m ensures m'[k] == m[k] {
      var i :| 0 <= i < |fields| && fields[i].name == k;
    }
    assert m' == m;
    SortIsTheCanonicalList(cs, es, m);
    AscendingIsSorted(es);
  }

  /** `decode(b)` returns xs exactly when xs is a record of this schema and b is its canonical encoding. */
  lemma RecordCodec(fields: seq<Field>, b: bytes, xs: seq<FieldValue>)
    requires GoodKind(RecordKind(fields))
    ensures DecodeRecord(fields, b) == Some(xs)
       <==> Conforms(RecordKind(fields), RecordVal(xs)) && EncodeRecord(fields, xs) == Some(b)
  {
    var kind, x := RecordKind(fields), RecordVal(xs);
    if DecodeRecord(fields, b) == Some(xs) {
      PassingIsCanonical(b);
      DecodedEncodes(kind, Decode(b).value);
    }
    if Conforms(kind, x) && EncodeRecord(fields, xs) == Some(b) {
      var v := ToValue(kind, x);
      ToValueWellFormed(kind, x);
      EncodedDecodes(kind, x);
      CanonicalizeWellFormed(v);
      CanonicalizeIsCanonical(v);
      CanonicalPasses(Canonicalize(v).value);
    }
  }

  /** Encoding a record of a sensible schema never fails. */
  lemma EncodeRecordSucceeds(fields: seq<Field>, xs: seq<FieldValue>)
    requires GoodKind(RecordKind(fields)) && Conforms(RecordKind(fields), RecordVal(xs))
    ensures EncodeRecord(fields, xs).Some? && DecodeRecord(fields, EncodeRecord(fields, xs).value) == Some(xs)
  {
    EncodedDecodes(RecordKind(fields), RecordVal(xs));
    RecordCodec(fields, EncodeRecord(fields, xs).value, xs);
  }

  // -------- separation of schemas --------

  /** The schemas disagree: on which names they have, or on the constant a shared name must hold. */
  ghost predicate Separated(f: seq<Field>, g: seq<Field>) {
    || Names(f) != Names(g)
    || exists i, j :: 0 <= i < |f| && 0 <= j < |g| && f[i].name == g[j].name
                      && f[i].kind.ConstKind? && g[j].kind.ConstKind? && f[i].kind.text != g[j].kind.text
  }

  lemma ConstantTaken(f: Field, m: map<bytes, Value>)
    requires f.kind.ConstKind? && TakeField(f, m).Some?
    ensures f.name in m && m[f.name] == Text(f.kind.text)
  {
  }

  /** No byte string is accepted under two separated schemas. */
  lemma SeparatedSchemasShareNothing(f: seq<Field>, g: seq<Field>, b: bytes)
    requires DistinctNames(f) && DistinctNames(g) && Separated(f, g)
    ensures DecodeRecord(f, b).None? || DecodeRecord(g, b).None?
  {
    if DecodeRecord(f, b).Some? && DecodeRecord(g, b).Some? {
      var m := StringMap(Decode(b).value.entries).value;
      TakeFieldsExactly(f, m, DecodeRecord(f, b).value);
      TakeFieldsExactly(g, m, DecodeRecord(g, b).value);
      assert Names(f) == Names(g);
      var i, j :| 0 <= i < |f| && 0 <= j < |g| && f[i].name == g[j].name
                  && f[i].kind.ConstKind? && g[j].kind.ConstKind? && f[i].kind.text != g[j].kind.text;
      ConstantTaken(f[i], m);
      ConstantTaken(g[j], m);
      assert false;
    }
  }
}
