/** Broker requests and responses: what is encoded decodes to itself, and when the converse holds. */
module BrokerMessages {
  import opened ByteStrings
  import opened Cbor
  import opened Canonical
  import opened Records
  import opened RecordSize
  import opened HostAttestor
  import opened ScopePaths
  import opened VaultBroker

  datatype MessageKind = ChallengeRequestKind | RedeemRequestKind | RedeemResponseKind

  /** The messages that carry a scope. */
  datatype Message =
    | ChallengeRequest(scope: Scope)
    | RedeemRequest(scope: Scope, nonce: bytes, pubkey: bytes, report: bytes, vek: bytes)
    | RedeemResponse(scope: Scope, capExpiry: nat, token: bytes)

  function KindOf(x: Message): (k: MessageKind) {
    match x
    case ChallengeRequest(_) => ChallengeRequestKind
    case RedeemRequest(_, _, _, _, _) => RedeemRequestKind
    case RedeemResponse(_, _, _) => RedeemResponseKind
  }

  ghost predicate MessageTyped(x: Message) {
    && ScopeTyped(x.scope)
    && (x.RedeemRequest? ==> |x.nonce| == 32 && |x.pubkey| == 32 && |x.report| < TWO_64 && |x.vek| < TWO_64)
    && (x.RedeemResponse? ==> x.capExpiry < TWO_64 && |x.token| < TWO_64)
  }

  predicate PayloadValid(x: Message) {
    && (x.RedeemRequest? ==> MIN_REPORT_LEN <= |x.report| <= MAX_REPORT_LEN && |x.vek| <= MAX_VEK_DER_LEN)
    && (x.RedeemResponse? ==> x.capExpiry != 0 && 1 <= |x.token| <= MAX_VAULT_TOKEN_LEN)
  }

  function PayloadFields(k: MessageKind): (f: seq<Field>) {
    match k
    case ChallengeRequestKind => []
    case RedeemRequestKind =>
      [Field(Ascii("vek_der"), BytesKind), Field(Ascii("snp_report"), BytesKind),
       Field(Ascii("auth_pubkey"), ArrayKind(32)), Field(Ascii("challenge_nonce"), ArrayKind(32))]
    case RedeemResponseKind =>
      [Field(Ascii("vault_token"), BytesKind), Field(Ascii("cap_expiry_unix"), UintKind(TWO_64))]
  }

  function PayloadVals(x: Message): (xs: seq<FieldValue>) {
    match x
    case ChallengeRequest(_) => []
    case RedeemRequest(_, nonce, pubkey, report, vek) => [BytesVal(vek), BytesVal(report), BytesVal(pubkey), BytesVal(nonce)]
    case RedeemResponse(_, capExpiry, token) => [BytesVal(token), UintVal(capExpiry)]
  }

  function FromPayload(k: MessageKind, s: Scope, xs: seq<FieldValue>): (x: Message)
    requires Conforms(RecordKind(PayloadFields(k)), RecordVal(xs))
    ensures KindOf(x) == k && x.scope == s && PayloadVals(x) == xs
  {
    match k
    case ChallengeRequestKind => ChallengeRequest(s)
    case RedeemRequestKind =>
      var f := PayloadFields(k);
      assert FieldConforms(f[0], xs[0]) && FieldConforms(f[1], xs[1]) && FieldConforms(f[2], xs[2]) && FieldConforms(f[3], xs[3]);
      RedeemRequest(s, xs[3].b, xs[2].b, xs[1].b, xs[0].b)
    case RedeemResponseKind =>
      var f := PayloadFields(k);
      assert FieldConforms(f[0], xs[0]) && FieldConforms(f[1], xs[1]);
      RedeemResponse(s, xs[1].n, xs[0].b)
  }

  function ScopeField(lifecycle: bool): (f: Field) { Field(Ascii("scope"), RecordKind(ScopeFields(lifecycle))) }

  function TopFields(k: MessageKind, lifecycle: bool): (f: seq<Field>) { [ScopeField(lifecycle)] + PayloadFields(k) }

  function TopVals(x: Message): (xs: seq<FieldValue>) { [RecordVal(ScopeVals(x.scope))] + PayloadVals(x) }

  // -------- encoding and decoding --------

  function EncodeMessage(x: Message): (r: Option<bytes>)
    requires MessageTyped(x)
  {
    if !ScopeValid(x.scope) || !PayloadValid(x) then None
    else
      MessageConforms(x);
      match EncodeRecord(TopFields(KindOf(x), HasLifecycle(x.scope)), TopVals(x))
      case None => None
      case Some(b) => if |b| > MAX_BODY_LEN then None else Some(b)
  }

  /** The keys of the scope map inside an accepted body. */
  function ScopeMap(b: bytes): (r: Option<map<bytes, Value>>) {
    if !AssertCanonical(b) || !Decode(b).value.Map? then None
    else
      match StringMap(Decode(b).value.entries)
      case None => None
      case Some(m) =>
        if Ascii("scope") in m && m[Ascii("scope")].Map? then StringMap(m[Ascii("scope")].entries) else None
  }

  /** The rest of the body: the other fields of the message and no unknown top-level key. */
  function Payload(k: MessageKind, b: bytes): (r: Option<seq<FieldValue>>) {
    if !AssertCanonical(b) || !Decode(b).value.Map? then None
    else
      match StringMap(Decode(b).value.entries)
      case None => None
      case Some(m) => TakeFields(PayloadFields(k), m - {Ascii("scope")})
  }

  function DecodeMessage(k: MessageKind, b: bytes): (r: Option<Message>) {
    if |b| > MAX_BODY_LEN then None
    else
      match (ScopeMap(b), Payload(k, b))
      case (Some(sm), Some(xs)) =>
        (match ScopeFromMap(sm)
         case None => None
         case Some(s) =>
           PayloadConformsDecoded(k, b);
           var x := FromPayload(k, s, xs);
           if PayloadValid(x) then Some(x) else None)
      case _ => None
  }

  // -------- the schema --------

  lemma PayloadFieldsGood(k: MessageKind)
    ensures GoodKind(RecordKind(PayloadFields(k)))
  {
    assert DistinctNames(PayloadFields(k)) by {
      AscendingNamesDistinct(PayloadFields(k));
    }
  }

  lemma TopFieldsGood(k: MessageKind, lifecycle: bool)
    ensures GoodKind(RecordKind(TopFields(k, lifecycle)))
  {
    PayloadFieldsGood(k);
    ScopeFieldsGood(lifecycle);
    assert GoodField(ScopeField(lifecycle));
    var f, g := TopFields(k, lifecycle), PayloadFields(k);
    forall i | 0 <= i < |g| ensures |g[i].name| != 5 {
    }
    assert |ScopeField(lifecycle).name| == 5;
  }

  lemma ScopeConforms(s: Scope)
    requires ScopeTyped(s)
    ensures Conforms(RecordKind(ScopeFields(HasLifecycle(s))), RecordVal(ScopeVals(s)))
  {
  }

  lemma PayloadTyped(x: Message)
    requires MessageTyped(x)
    ensures Conforms(RecordKind(PayloadFields(KindOf(x))), RecordVal(PayloadVals(x)))
  {
  }

  lemma MessageConforms(x: Message)
    requires MessageTyped(x)
    ensures Conforms(RecordKind(TopFields(KindOf(x), HasLifecycle(x.scope))), RecordVal(TopVals(x)))
  {
    ScopeConforms(x.scope);
    PayloadTyped(x);
    assert FieldConforms(ScopeField(HasLifecycle(x.scope)), RecordVal(ScopeVals(x.scope)));
  }

  // -------- what the decoder finds is typed --------

  lemma MembersGood(b: bytes, m: map<bytes, Value>, name: bytes)
    requires AssertCanonical(b) && Decode(b).value.Map? && StringMap(Decode(b).value.entries) == Some(m) && name in m
    ensures WellFormed(m[name]) && IsCanonical(m[name])
  {
    PassingIsCanonical(b);
    StringMapRepresents(Decode(b).value.entries);
    MemberOfCanonicalMap(Decode(b).value.entries, m, name);
  }

  lemma PayloadConformsDecoded(k: MessageKind, b: bytes)
    requires Payload(k, b).Some?
    ensures Conforms(RecordKind(PayloadFields(k)), RecordVal(Payload(k, b).value))
  {
    var m := StringMap(Decode(b).value.entries).value;
    var m' := m - {Ascii("scope")};
    var f, xs := PayloadFields(k), Payload(k, b).value;
    PayloadFieldsGood(k);
    TakeFieldsExactly(f, m', xs);
    forall i | 0 <= i < |f| ensures FieldConforms(f[i], xs[i]) {
      assert TakeField(f[i], m') == Some(xs[i]);
      MembersGood(b, m, f[i].name);
      DecodedFieldEncodes(f[i], m');
    }
  }

  lemma ScopeMemberGood(b: bytes, sm: map<bytes, Value>, name: bytes)
    requires ScopeMap(b) == Some(sm) && name in sm
    ensures WellFormed(sm[name])
  {
    var m := StringMap(Decode(b).value.entries).value;
    MembersGood(b, m, Ascii("scope"));
    var es := m[Ascii("scope")].entries;
    StringMapRepresents(es);
    MemberOfCanonicalMap(es, sm, name);
  }

  lemma ReadTextTyped(b: bytes, sm: map<bytes, Value>, name: bytes)
    requires ScopeMap(b) == Some(sm) && GetText(sm, name).Some?
    ensures IsString(GetText(sm, name).value)
  {
    ScopeMemberGood(b, sm, name);
  }

  lemma ReadScopeTyped(b: bytes, sm: map<bytes, Value>)
    requires ScopeMap(b) == Some(sm) && ReadScope(sm).Some?
    ensures ScopeTyped(ReadScope(sm).value)
  {
    ReadTextTyped(b, sm, Ascii("vm_id"));
    ReadTextTyped(b, sm, Ascii("luks_path"));
    ReadTextTyped(b, sm, Ascii("userdata_path"));
    if GetText(sm, Ascii("lifecycle_path")).Some? { ReadTextTyped(b, sm, Ascii("lifecycle_path")); }
  }

  lemma DecodedTyped(k: MessageKind, b: bytes)
    requires DecodeMessage(k, b).Some?
    ensures MessageTyped(DecodeMessage(k, b).value) && KindOf(DecodeMessage(k, b).value) == k
    ensures ScopeValid(DecodeMessage(k, b).value.scope) && PayloadValid(DecodeMessage(k, b).value)
  {
    ReadScopeTyped(b, ScopeMap(b).value);
    PayloadConformsDecoded(k, b);
    PayloadFits(k, ScopeFromMap(ScopeMap(b).value).value, Payload(k, b).value);
  }

  lemma PayloadFits(k: MessageKind, s: Scope, xs: seq<FieldValue>)
    requires Conforms(RecordKind(PayloadFields(k)), RecordVal(xs)) && ScopeTyped(s)
    ensures MessageTyped(FromPayload(k, s, xs))
  {
  }

  // -------- strict and lenient decoding --------

  lemma RecordTaken(f: seq<Field>, b: bytes, xs: seq<FieldValue>)
    requires AssertCanonical(b)
    ensures DecodeRecord(f, b) == Some(xs)
       <==> Decode(b).value.Map? && StringMap(Decode(b).value.entries).Some?
            && TakeFields(f, StringMap(Decode(b).value.entries).value) == Some(xs)
  {
  }

  /** The strict record decoder succeeds with the fields of x exactly when both parts are found strictly. */
  lemma StrictParts(x: Message, b: bytes)
    requires AssertCanonical(b)
    ensures DecodeRecord(TopFields(KindOf(x), HasLifecycle(x.scope)), b) == Some(TopVals(x))
       <==> ScopeMap(b).Some? && TakeFields(ScopeFields(HasLifecycle(x.scope)), ScopeMap(b).value) == Some(ScopeVals(x.scope))
            && Payload(KindOf(x), b) == Some(PayloadVals(x))
  {
    var f := TopFields(KindOf(x), HasLifecycle(x.scope));
    var v := Decode(b).value;
    RecordTaken(f, b, TopVals(x));
    assert f[1..] == PayloadFields(KindOf(x)) && f[0] == ScopeField(HasLifecycle(x.scope));
    assert TopVals(x)[1..] == PayloadVals(x);
    if v.Map? && StringMap(v.entries).Some? {
      var m := StringMap(v.entries).value;
      SplitTake(f, m, TopVals(x));
      ScopeTaken(HasLifecycle(x.scope), m, ScopeVals(x.scope));
    }
  }

  lemma SplitTake(f: seq<Field>, m: map<bytes, Value>, xs: seq<FieldValue>)
    requires f != [] && xs != []
    ensures TakeFields(f, m) == Some(xs) <==> TakeField(f[0], m) == Some(xs[0]) && TakeFields(f[1..], m - {f[0].name}) == Some(xs[1..])
  {
    assert xs == [xs[0]] + xs[1..];
    if TakeFields(f, m) == Some(xs) {
      assert xs[0] == TakeField(f[0], m).value && xs[1..] == TakeFields(f[1..], m - {f[0].name}).value;
    }
  }

  lemma ScopeTaken(lifecycle: bool, m: map<bytes, Value>, xs: seq<FieldValue>)
    ensures TakeField(ScopeField(lifecycle), m) == Some(RecordVal(xs))
       <==> Ascii("scope") in m && m[Ascii("scope")].Map? && StringMap(m[Ascii("scope")].entries).Some?
            && TakeFields(ScopeFields(lifecycle), StringMap(m[Ascii("scope")].entries).value) == Some(xs)
  {
  }

  /** Decoding a canonical message gives it back, with or without the lifecycle pair. */
  lemma MessageDecodes(x: Message, b: bytes)
    requires MessageTyped(x) && EncodeMessage(x) == Some(b)
    ensures DecodeMessage(KindOf(x), b) == Some(x) && ScopeMap(b).Some? && ScopeMap(b).value.Keys <= KnownKeys()
  {
    var f := TopFields(KindOf(x), HasLifecycle(x.scope));
    TopFieldsGood(KindOf(x), HasLifecycle(x.scope));
    MessageConforms(x);
    RecordCodec(f, b, TopVals(x));
    StrictParts(x, b);
    LenientIsStrict(x.scope, ScopeMap(b).value);
    PayloadTyped(x);
    FromPayloadInverts(x);
  }

  lemma FromPayloadInverts(x: Message)
    requires Conforms(RecordKind(PayloadFields(KindOf(x))), RecordVal(PayloadVals(x)))
    ensures FromPayload(KindOf(x), x.scope, PayloadVals(x)) == x
  {
  }

  /** An accepted body is the canonical encoding of what it decodes to exactly when its scope has no unknown key. */
  lemma ReencodesExactly(k: MessageKind, b: bytes)
    requires DecodeMessage(k, b).Some?
    ensures MessageTyped(DecodeMessage(k, b).value)
    ensures EncodeMessage(DecodeMessage(k, b).value) == Some(b) <==> ScopeMap(b).value.Keys <= KnownKeys()
  {
    var x := DecodeMessage(k, b).value;
    DecodedTyped(k, b);
    if EncodeMessage(x) == Some(b) {
      MessageDecodes(x, b);
    }
    if ScopeMap(b).value.Keys <= KnownKeys() {
      PayloadConformsDecoded(k, b);
      StrictParts(x, b);
      LenientIsStrict(x.scope, ScopeMap(b).value);
      TopFieldsGood(k, HasLifecycle(x.scope));
      RecordCodec(TopFields(k, HasLifecycle(x.scope)), b, TopVals(x));
    }
  }

  // -------- an unknown key in the scope is accepted --------

  /** A scope map with one more key than the encoder would write. */
  function PaddedFields(name: bytes): (f: seq<Field>) {
    [Field(Ascii("scope"), RecordKind(ScopeFields(false) + [Field(name, TextKind)]))]
  }

  function PaddedVals(s: Scope, extra: bytes): (xs: seq<FieldValue>) {
    [RecordVal(ScopeVals(s) + [TextVal(extra)])]
  }

  lemma PaddedGood(name: bytes)
    requires 17 < |name| < TWO_64 && AsciiOnly(name)
    ensures GoodKind(RecordKind(PaddedFields(name)))
    ensures DistinctNames(ScopeFields(false) + [Field(name, TextKind)])
  {
    ScopeFieldsGood(false);
    var inner := ScopeFields(false) + [Field(name, TextKind)];
    forall i | 0 <= i < |inner| - 1 ensures inner[i].name != name {
    }
    assert GoodKind(RecordKind(inner));
    assert GoodField(PaddedFields(name)[0]);
  }

  lemma PaddedConforms(s: Scope, name: bytes, extra: bytes)
    requires ScopeTyped(s) && !HasLifecycle(s) && IsString(extra)
    ensures Conforms(RecordKind(PaddedFields(name)), RecordVal(PaddedVals(s, extra)))
  {
    ScopeConforms(s);
    var inner, xs := ScopeFields(false) + [Field(name, TextKind)], ScopeVals(s) + [TextVal(extra)];
    assert Conforms(RecordKind(inner), RecordVal(xs));
    assert FieldConforms(PaddedFields(name)[0], RecordVal(xs));
  }

  /** A body that decodes to the given field values. */
  lemma BodyOf(f: seq<Field>, xs: seq<FieldValue>) returns (b: bytes)
    requires GoodKind(RecordKind(f)) && Conforms(RecordKind(f), RecordVal(xs))
    ensures AssertCanonical(b) && DecodeRecord(f, b) == Some(xs)
    ensures |b| <= SizeBound(RecordKind(f), RecordVal(xs))
  {
    EncodeRecordSucceeds(f, xs);
    b := EncodeRecord(f, xs).value;
    RecordCodec(f, b, xs);
    RecordSizeBound(f, xs);
  }

  /** The padded body passes the gate, and its scope map reads as s and has the extra key. */
  lemma PaddedBody(s: Scope, name: bytes, extra: bytes) returns (b: bytes)
    requires ScopeTyped(s) && ScopeValid(s) && !HasLifecycle(s)
    requires 17 < |name| < TWO_64 && AsciiOnly(name) && IsString(extra)
    ensures AssertCanonical(b)
    ensures ScopeMap(b).Some? && name in ScopeMap(b).value && ScopeFromMap(ScopeMap(b).value) == Some(s)
    ensures Payload(ChallengeRequestKind, b) == Some([]) && |b| <= PaddedSize(s, name, extra)
  {
    PaddedGood(name);
    PaddedConforms(s, name, extra);
    PaddedSizeBound(s, name, extra);
    b := BodyOf(PaddedFields(name), PaddedVals(s, extra));
    PaddedParts(s, name, extra, b);
  }

  lemma PaddedParts(s: Scope, name: bytes, extra: bytes, b: bytes)
    requires ScopeValid(s) && !HasLifecycle(s) && |name| > 17 && AssertCanonical(b)
    requires DecodeRecord(PaddedFields(name), b) == Some(PaddedVals(s, extra))
    requires DistinctNames(ScopeFields(false) + [Field(name, TextKind)])
    ensures ScopeMap(b).Some? && name in ScopeMap(b).value && ScopeFromMap(ScopeMap(b).value) == Some(s)
    ensures Payload(ChallengeRequestKind, b) == Some([])
  {
    var f, xs := PaddedFields(name), PaddedVals(s, extra);
    RecordTaken(f, b, xs);
    var m := StringMap(Decode(b).value.entries).value;
    SplitTake(f, m, xs);
    assert f[1..] == PayloadFields(ChallengeRequestKind) && xs[1..] == [];
    PaddedScope(s, name, extra, m);
  }

  /** How many bytes the padded body takes at most besides its texts: heads and known names. */
  const PADDED_OVERHEAD: nat := 195

  function PaddedSize(s: Scope, name: bytes, extra: bytes): (n: nat) {
    |s.vmId| + |s.luksPath| + |s.userdataPath| + |name| + |extra| + PADDED_OVERHEAD
  }

  lemma PaddedScopeBound(s: Scope, name: bytes, extra: bytes)
    requires !HasLifecycle(s)
    ensures FieldsBound(ScopeFields(false) + [Field(name, TextKind)], ScopeVals(s) + [TextVal(extra)]) + 32 == PaddedSize(s, name, extra)
  {
    var f, xs := ScopeFields(false), ScopeVals(s);
    var g, y := Field(name, TextKind), TextVal(extra);
    SixFields(f + [g], xs + [y]);
  }

  lemma PaddedSizeBound(s: Scope, name: bytes, extra: bytes)
    requires !HasLifecycle(s)
    ensures SizeBound(RecordKind(PaddedFields(name)), RecordVal(PaddedVals(s, extra))) == PaddedSize(s, name, extra)
  {
    PaddedScopeBound(s, name, extra);
    OneRecord(Ascii("scope"), ScopeFields(false) + [Field(name, TextKind)], ScopeVals(s) + [TextVal(extra)]);
  }

  lemma OneRecord(name: bytes, f: seq<Field>, xs: seq<FieldValue>)
    ensures SizeBound(RecordKind([Field(name, RecordKind(f))]), RecordVal([RecordVal(xs)])) == 27 + |name| + FieldsBound(f, xs)
  {
    var outer, vals := Field(name, RecordKind(f)), RecordVal(xs);
    ConsBound(outer, [], vals, []);
    assert [outer] == [outer] + [] && [vals] == [vals] + [];
  }

  /** So the converse of MessageDecodes fails: such a body, if it is not too long, decodes to s, yet it is not what s encodes to. */
  lemma UnknownScopeKeyAccepted(s: Scope, name: bytes, extra: bytes) returns (b: bytes)
    requires ScopeTyped(s) && ScopeValid(s) && !HasLifecycle(s)
    requires 17 < |name| < TWO_64 && AsciiOnly(name) && IsString(extra)
    ensures AssertCanonical(b) && |b| <= PaddedSize(s, name, extra)
    ensures DecodeMessage(ChallengeRequestKind, b) == Some(ChallengeRequest(s)) <==> |b| <= MAX_BODY_LEN
    ensures PaddedSize(s, name, extra) <= MAX_BODY_LEN ==> DecodeMessage(ChallengeRequestKind, b) == Some(ChallengeRequest(s))
    ensures EncodeMessage(ChallengeRequest(s)) != Some(b)
  {
    b := PaddedBody(s, name, extra);
    if EncodeMessage(ChallengeRequest(s)) == Some(b) {
      MessageDecodes(ChallengeRequest(s), b);
      LongNameUnknown(name);
    }
  }

  lemma LongNameUnknown(name: bytes)
    requires |name| > 17
    ensures name !in KnownKeys()
  {
  }

  lemma PaddedScope(s: Scope, name: bytes, extra: bytes, m: map<bytes, Value>)
    requires ScopeValid(s) && !HasLifecycle(s) && |name| > 17
    requires TakeField(PaddedFields(name)[0], m) == Some(PaddedVals(s, extra)[0])
    requires DistinctNames(ScopeFields(false) + [Field(name, TextKind)])
    ensures Ascii("scope") in m && m[Ascii("scope")].Map? && StringMap(m[Ascii("scope")].entries).Some?
    ensures ScopeFromMap(StringMap(m[Ascii("scope")].entries).value) == Some(s)
    ensures name in StringMap(m[Ascii("scope")].entries).value
  {
    var sm := StringMap(m[Ascii("scope")].entries).value;
    var inner, xs := ScopeFields(false) + [Field(name, TextKind)], ScopeVals(s) + [TextVal(extra)];
    TakeFieldsExactly(inner, sm, xs);
    assert TakeField(inner[5], sm) == Some(xs[5]);
    PaddedRead(s, name, extra, sm);
  }

  lemma PaddedRead(s: Scope, name: bytes, extra: bytes, sm: map<bytes, Value>)
    requires PairComplete(s) && !HasLifecycle(s) && |name| > 17
    requires Taken(ScopeFields(false) + [Field(name, TextKind)], sm, ScopeVals(s) + [TextVal(extra)])
    ensures ReadScope(sm) == Some(s)
  {
    var inner, xs := ScopeFields(false) + [Field(name, TextKind)], ScopeVals(s) + [TextVal(extra)];
    assert TakeField(inner[0], sm) == Some(xs[0]) && TakeField(inner[1], sm) == Some(xs[1]) && TakeField(inner[2], sm) == Some(xs[2]);
    assert TakeField(inner[3], sm) == Some(xs[3]) && TakeField(inner[4], sm) == Some(xs[4]);
    forall k | k in Names(inner) ensures |k| != 14 && |k| != 17 {
    }
  }

  /** A scope the validator accepts. */
  lemma SampleScope() returns (s: Scope)
    ensures ScopeTyped(s) && ScopeValid(s) && !HasLifecycle(s)
    ensures |s.vmId| == 4 && |s.luksPath| == 21 && |s.userdataPath| == 21
  {
    var vm := Ascii("vm-1");
    var luks, userdata := Join([TENANTS, vm, LUKS_SEGMENT]), Join([TENANTS, vm, USERDATA_SEGMENT]);
    s := Scope(vm, luks, 1, userdata, 1, None, None);
    SamplePath(vm, LUKS_SEGMENT, luks);
    SamplePath(vm, USERDATA_SEGMENT, userdata);
    AsciiIsUtf8(vm);
  }

  /** A body that is accepted, decodes to a valid request, and is not that request's encoding. */
  lemma AcceptedWithUnknownKey() returns (s: Scope, b: bytes)
    ensures ScopeTyped(s) && DecodeMessage(ChallengeRequestKind, b) == Some(ChallengeRequest(s))
    ensures EncodeMessage(ChallengeRequest(s)) != Some(b)
  {
    s := SampleScope();
    b := UnknownScopeKeyAccepted(s, Ascii("unknown_scope_keys"), []);
  }

  lemma SamplePath(vm: bytes, segment: bytes, path: bytes)
    requires vm == Ascii("vm-1") && (segment == LUKS_SEGMENT || segment == USERDATA_SEGMENT)
    requires path == Join([TENANTS, vm, segment])
    ensures ValidPath(path, vm, segment) && IsString(path) && |path| == 21
  {
    TenantsLegal();
    assert |TENANTS| == 7 && |LUKS_SEGMENT| == 8 && |USERDATA_SEGMENT| == 8;
    var rest := [vm, segment];
    assert [TENANTS, vm, segment][1..] == rest && rest[1..] == [segment];
    assert Join(rest) == vm + [SLASH] + segment;
    assert path == TENANTS + [SLASH] + Join(rest);
    assert LegalSegment(vm) && LegalSegment(segment);
    assert path[0] != SLASH && TrimSlashes(path) == path;
    BoundAccepted(path, vm, segment, [TENANTS, vm, segment]);
    AsciiIsUtf8(path);
  }
}
