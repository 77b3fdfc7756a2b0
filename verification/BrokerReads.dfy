/** Which broker messages are accepted, key by key. */
module BrokerReads {
  import opened ByteStrings
  import opened Cbor
  import opened Canonical
  import opened Records
  import opened Lookups
  import opened ScopePaths
  import opened VaultBroker
  import opened BrokerMessages

  // -------- the scope --------

  /** The optional text under a name: absent, or there and a text. */
  predicate MayHoldText(m: StringKeyed, name: string, t: Option<bytes>) {
    if Ascii(name) in m then t.Some? && HoldsText(m, name, t.value) else t.None?
  }

  predicate MayHoldUint(m: StringKeyed, name: string, n: Option<nat>) {
    if Ascii(name) in m then n.Some? && n.value < TWO_64 && HoldsUint(m, name, n.value) else n.None?
  }

  /** The scope, read by key; other keys are not looked at. */
  predicate ScopeReadFrom(m: StringKeyed, s: Scope) {
    && HoldsText(m, "vm_id", s.vmId)
    && HoldsText(m, "luks_path", s.luksPath) && HoldsUint(m, "luks_version", s.luksVersion) && s.luksVersion < TWO_64
    && HoldsText(m, "userdata_path", s.userdataPath) && HoldsUint(m, "userdata_version", s.userdataVersion) && s.userdataVersion < TWO_64
    && MayHoldText(m, "lifecycle_path", s.lifecyclePath) && MayHoldUint(m, "lifecycle_version", s.lifecycleVersion)
  }

  lemma ScopeReads(m: StringKeyed, s: Scope)
    ensures ReadScope(m) == Some(s) <==> ScopeReadFrom(m, s)
  {
  }

  /** A lower-case letter, a digit or a hyphen. */
  predicate VmIdByte(b: byte) { 'a' as int <= b <= 'z' as int || '0' as int <= b <= '9' as int || b == '-' as int }

  /** The vm id is 1 to 64 such bytes and every path ends in tenants, the vm id and its own segment. */
  ghost predicate ScopeBound(s: Scope) {
    && 1 <= |s.vmId| <= 64 && (forall i :: 0 <= i < |s.vmId| ==> VmIdByte(s.vmId[i]))
    && EndsBound(s.luksPath, s.vmId, Ascii("luks-kek")) && EndsBound(s.userdataPath, s.vmId, Ascii("userdata"))
    && s.lifecyclePath.Some? == s.lifecycleVersion.Some?
    && (s.lifecyclePath.Some? ==> EndsBound(s.lifecyclePath.value, s.vmId, Ascii("lifecycle-key")))
  }

  lemma VmIdLegal(vm: bytes)
    requires 1 <= |vm| && forall i :: 0 <= i < |vm| ==> VmIdByte(vm[i])
    ensures LegalSegment(vm)
  {
    assert vm[0] != 46;
  }

  lemma SegmentsLegal()
    ensures LegalSegment(LUKS_SEGMENT) && LegalSegment(USERDATA_SEGMENT) && LegalSegment(LIFECYCLE_SEGMENT)
  {
    assert |LUKS_SEGMENT| == 8 && |USERDATA_SEGMENT| == 8 && |LIFECYCLE_SEGMENT| == 13;
  }

  /** For a vm id and a segment that are legal, the path check is the bound shape. */
  lemma PathExactly(path: bytes, vm: bytes, segment: bytes)
    requires 1 <= |vm| && forall i :: 0 <= i < |vm| ==> VmIdByte(vm[i])
    requires LegalSegment(segment)
    ensures ValidPath(path, vm, segment) <==> EndsBound(path, vm, segment)
  {
    VmIdLegal(vm);
    AcceptedExactly(path, vm, segment);
  }

  lemma ValidIsBound(s: Scope)
    requires ScopeValid(s)
    ensures ScopeBound(s)
  {
    SegmentsLegal();
    PathExactly(s.luksPath, s.vmId, LUKS_SEGMENT);
    PathExactly(s.userdataPath, s.vmId, USERDATA_SEGMENT);
    if s.lifecyclePath.Some? {
      PathExactly(s.lifecyclePath.value, s.vmId, LIFECYCLE_SEGMENT);
    }
  }

  lemma BoundIsValid(s: Scope)
    requires ScopeBound(s)
    ensures ScopeValid(s)
  {
    SegmentsLegal();
    PathExactly(s.luksPath, s.vmId, LUKS_SEGMENT);
    PathExactly(s.userdataPath, s.vmId, USERDATA_SEGMENT);
    if s.lifecyclePath.Some? {
      PathExactly(s.lifecyclePath.value, s.vmId, LIFECYCLE_SEGMENT);
    }
  }

  /** A scope is valid exactly when it is bound. */
  lemma ScopeValidExactly(s: Scope)
    ensures ScopeValid(s) <==> ScopeBound(s)
  {
    if ScopeValid(s) {
      ValidIsBound(s);
    } else if ScopeBound(s) {
      BoundIsValid(s);
    }
  }

  // -------- the rest of the message --------

  /** Besides the scope, exactly the keys of this kind of message, with their bounds. */
  ghost predicate PayloadMap(m: StringKeyed, x: Message) {
    match x
    case ChallengeRequest(_) => |m| == 1
    case RedeemRequest(_, nonce, pubkey, report, vek) =>
      && |m| == 5
      && HoldsBytes(m, "challenge_nonce", nonce) && |nonce| == 32 && HoldsBytes(m, "auth_pubkey", pubkey) && |pubkey| == 32
      && HoldsBytes(m, "snp_report", report) && 1184 <= |report| <= 4096 && HoldsBytes(m, "vek_der", vek) && |vek| <= 8192
    case RedeemResponse(_, capExpiry, token) =>
      && |m| == 3
      && HoldsUint(m, "cap_expiry_unix", capExpiry) && 0 < capExpiry < TWO_64
      && HoldsBytes(m, "vault_token", token) && 1 <= |token| <= 1024
  }

  lemma PayloadFieldsRead(m: StringKeyed, x: Message)
    requires Ascii("scope") in m
    ensures TakeFields(PayloadFields(KindOf(x)), m - {Ascii("scope")}) == Some(PayloadVals(x)) && PayloadValid(x) <==> PayloadMap(m, x)
  {
    var f, v, rest := PayloadFields(KindOf(x)), PayloadVals(x), m - {Ascii("scope")};
    PayloadFieldsGood(KindOf(x));
    TakenBySize(f, rest, v);
    ReadsAll(f, v, rest);
    assert rest.Keys == m.Keys - {Ascii("scope")};
    match x
    case ChallengeRequest(_) =>
    case RedeemRequest(_, nonce, pubkey, report, vek) => RedeemRequestReads(m, nonce, pubkey, report, vek);
    case RedeemResponse(_, capExpiry, token) => RedeemResponseReads(m, capExpiry, token);
  }

  lemma RedeemRequestReads(m: StringKeyed, nonce: bytes, pubkey: bytes, report: bytes, vek: bytes)
    ensures ReadsEight(PayloadFields(RedeemRequestKind), [BytesVal(vek), BytesVal(report), BytesVal(pubkey), BytesVal(nonce)], m - {Ascii("scope")}, 0)
       <==> && HoldsBytes(m, "challenge_nonce", nonce) && |nonce| == 32 && HoldsBytes(m, "auth_pubkey", pubkey) && |pubkey| == 32
            && HoldsBytes(m, "snp_report", report) && HoldsBytes(m, "vek_der", vek)
  {
    var rest := m - {Ascii("scope")};
    BytesRead("vek_der", rest, vek);
    BytesRead("snp_report", rest, report);
    ArrayRead("auth_pubkey", 32, rest, pubkey);
    ArrayRead("challenge_nonce", 32, rest, nonce);
    assert |Ascii("scope")| == 5 && |Ascii("vek_der")| == 7 && |Ascii("snp_report")| == 10 && |Ascii("auth_pubkey")| == 11 && |Ascii("challenge_nonce")| == 15;
  }

  lemma RedeemResponseReads(m: StringKeyed, capExpiry: nat, token: bytes)
    ensures ReadsEight(PayloadFields(RedeemResponseKind), [BytesVal(token), UintVal(capExpiry)], m - {Ascii("scope")}, 0)
       <==> HoldsUint(m, "cap_expiry_unix", capExpiry) && capExpiry < TWO_64 && HoldsBytes(m, "vault_token", token)
  {
    var rest := m - {Ascii("scope")};
    BytesRead("vault_token", rest, token);
    UintRead("cap_expiry_unix", TWO_64, rest, capExpiry);
    assert |Ascii("scope")| == 5 && |Ascii("vault_token")| == 11 && |Ascii("cap_expiry_unix")| == 15;
  }

  // -------- whole messages --------

  lemma PartsDecode(k: MessageKind, b: bytes, x: Message)
    requires KindOf(x) == k
    ensures DecodeMessage(k, b) == Some(x) <==>
              && |b| <= 16384 && ScopeMap(b).Some? && ScopeFromMap(ScopeMap(b).value) == Some(x.scope)
              && Payload(k, b) == Some(PayloadVals(x)) && PayloadValid(x)
  {
    if Payload(k, b).Some? {
      PayloadConformsDecoded(k, b);
      if Payload(k, b).value == PayloadVals(x) {
        FromPayloadInverts(x);
      }
    }
  }

  lemma ScopeMapRead(b: bytes, sm: StringKeyed)
    ensures ScopeMap(b) == Some(sm) <==> BodyMap(b).Some? && HoldsMap(BodyMap(b).value, "scope", sm)
  {
  }

  /** The scope of a body, read by key and bound. */
  lemma ScopeFound(b: bytes, s: Scope)
    ensures ScopeMap(b).Some? && ScopeFromMap(ScopeMap(b).value) == Some(s) <==>
              && BodyMap(b).Some? && (exists sm :: HoldsMap(BodyMap(b).value, "scope", sm) && ScopeReadFrom(sm, s))
              && ScopeBound(s)
  {
    ScopeValidExactly(s);
    forall sm ensures ScopeMap(b) == Some(sm) <==> BodyMap(b).Some? && HoldsMap(BodyMap(b).value, "scope", sm) {
      ScopeMapRead(b, sm);
    }
    forall sm ensures ReadScope(sm) == Some(s) <==> ScopeReadFrom(sm, s) {
      ScopeReads(sm, s);
    }
  }

  /**
   A body is accepted as the message x exactly when it is a canonical map of at most 16 KiB with a scope that reads as
   x's and is bound to its vm, and otherwise exactly the keys of this kind of message holding x's own values.
   */
  lemma MessageAcceptedExactly(k: MessageKind, b: bytes, x: Message)
    requires KindOf(x) == k
    ensures DecodeMessage(k, b) == Some(x) <==>
              && |b| <= 16384 && BodyMap(b).Some?
              && (exists sm :: HoldsMap(BodyMap(b).value, "scope", sm) && ScopeReadFrom(sm, x.scope))
              && ScopeBound(x.scope) && PayloadMap(BodyMap(b).value, x)
  {
    PartsDecode(k, b, x);
    ScopeFound(b, x.scope);
    if BodyMap(b).Some? && Ascii("scope") in BodyMap(b).value {
      PayloadFieldsRead(BodyMap(b).value, x);
    }
  }
}
