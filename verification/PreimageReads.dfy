/** The hash preimages read back from their bytes: which field stands where. */
module PreimageReads {
  import opened ByteStrings
  import opened Records
  import opened Lookups
  import opened Framing

  // -------- the user-data digest --------

  /** Reads a length of eight little-endian bytes, then that many bytes. */
  function ReadFramed(b: bytes): (r: Option<(bytes, bytes)>)
    ensures r.Some? ==> |r.value.1| < |b|
  {
    if |b| < 8 || |b| - 8 < FromLittleEndian(b[..8]) then None
    else var n := FromLittleEndian(b[..8]); Some((b[8..8 + n], b[8 + n..]))
  }

  function ReadFields(b: bytes, n: nat): (r: Option<(seq<bytes>, bytes)>)
    decreases n
  {
    if n == 0 then Some(([], b))
    else
      match ReadFramed(b)
      case None => None
      case Some((s, rest)) =>
        match ReadFields(rest, n - 1)
        case None => None
        case Some((ss, end)) => Some(([s] + ss, end))
  }

  lemma FramedReads(s: bytes, rest: bytes)
    requires |s| < TWO_64
    ensures ReadFramed(Framed(s) + rest) == Some((s, rest))
  {
    var b := Framed(s) + rest;
    Pow256Widths();
    LittleEndianValue(|s|, 8);
    assert b[..8] == LittleEndian(|s|, 8) && b[8..] == s + rest;
    assert b[8..8 + |s|] == s && b[8 + |s|..] == rest;
  }

  lemma FieldsRead(s: bytes, rest: bytes, n: nat, ss: seq<bytes>, end: bytes)
    requires |s| < TWO_64 && ReadFields(rest, n) == Some((ss, end))
    ensures ReadFields(Framed(s) + rest, n + 1) == Some(([s] + ss, end))
  {
    FramedReads(s, rest);
  }

  /**
   Read from the front, the user-data preimage is six framed fields, the domain, tenant, vm, ticket, secret type and path
   in this order, then the version in eight little-endian bytes, then the framed plaintext, and nothing else.
   */
  lemma UserdataReads(u: Userdata) returns (rest: bytes)
    requires UserdataTyped(u)
    ensures ReadFields(UserdataPreimage(u), 6) ==
            Some(([Ascii("HIPPIUS_USERDATA_DIGEST_V1"), u.tenantId, u.vmId, u.ticketId, u.secretType, u.path], rest))
    ensures |rest| >= 8 && FromLittleEndian(rest[..8]) == u.version && ReadFields(rest[8..], 1) == Some(([u.plaintext], []))
  {
    rest := LittleEndian(u.version, 8) + Framed(u.plaintext);
    RegroupUserdata(u);
    SixRead(USERDATA_DIGEST_DOMAIN, u.tenantId, u.vmId, u.ticketId, u.secretType, u.path, rest);
    TailReads(u.version, u.plaintext);
  }

  lemma TailReads(version: nat, plaintext: bytes)
    requires version < TWO_64 && |plaintext| < TWO_64
    ensures var rest := LittleEndian(version, 8) + Framed(plaintext);
            |rest| >= 8 && FromLittleEndian(rest[..8]) == version && ReadFields(rest[8..], 1) == Some(([plaintext], []))
  {
    var rest := LittleEndian(version, 8) + Framed(plaintext);
    Pow256Widths();
    LittleEndianValue(version, 8);
    assert rest[..8] == LittleEndian(version, 8) && rest[8..] == Framed(plaintext) + [];
    FieldsRead(plaintext, [], 0, [], []);
    assert [plaintext] + [] == [plaintext];
  }

  lemma SixRead(a: bytes, b: bytes, c: bytes, d: bytes, e: bytes, f: bytes, rest: bytes)
    requires |a| < TWO_64 && |b| < TWO_64 && |c| < TWO_64 && |d| < TWO_64 && |e| < TWO_64 && |f| < TWO_64
    ensures ReadFields(Framed(a) + (Framed(b) + (Framed(c) + (Framed(d) + (Framed(e) + (Framed(f) + rest))))), 6)
         == Some(([a, b, c, d, e, f], rest))
  {
    var r4 := Framed(d) + (Framed(e) + (Framed(f) + rest));
    ThreeRead(d, e, f, rest, 0, [], rest);
    ThreeRead(a, b, c, r4, 3, [d] + ([e] + ([f] + [])), rest);
    assert [a] + ([b] + ([c] + ([d] + ([e] + ([f] + []))))) == [a, b, c, d, e, f];
  }

  lemma ThreeRead(a: bytes, b: bytes, c: bytes, rest: bytes, n: nat, ss: seq<bytes>, end: bytes)
    requires |a| < TWO_64 && |b| < TWO_64 && |c| < TWO_64 && ReadFields(rest, n) == Some((ss, end))
    ensures ReadFields(Framed(a) + (Framed(b) + (Framed(c) + rest)), n + 3) == Some(([a] + ([b] + ([c] + ss)), end))
  {
    FieldsRead(c, rest, n, ss, end);
    FieldsRead(b, Framed(c) + rest, n + 1, [c] + ss, end);
    FieldsRead(a, Framed(b) + (Framed(c) + rest), n + 2, [b] + ([c] + ss), end);
  }

  // -------- the audit-VM binding --------

  /** Reads a length of four big-endian bytes, then that many bytes. */
  function ReadFramed32(b: bytes): (r: Option<(bytes, bytes)>) {
    if |b| < 4 || |b| - 4 < FromBigEndian(b[..4]) then None
    else var n := FromBigEndian(b[..4]); Some((b[4..4 + n], b[4 + n..]))
  }

  lemma Framed32Reads(s: bytes, rest: bytes)
    requires |s| < TWO_32
    ensures ReadFramed32(Framed32(s) + rest) == Some((s, rest))
  {
    var b := Framed32(s) + rest;
    Pow256Widths();
    BigEndianRoundTrip(|s|, 4);
    assert b[..4] == BigEndian(|s|, 4) && b[4..] == s + rest;
    assert b[4..4 + |s|] == s && b[4 + |s|..] == rest;
  }

  /** Read from the front, the audit-VM preimage is the framed key, the bare domain, the framed node and the framed platform. */
  lemma AuditVmReads(key: bytes, node: bytes, platform: bytes) returns (r: bytes, r': bytes)
    requires |key| < TWO_32 && |node| < TWO_32 && |platform| < TWO_32
    ensures ReadFramed32(AuditVmPreimage(key, node, platform)) == Some((key, r))
    ensures |r| >= 19 && r[..19] == Ascii("HIPPIUS_AUDIT_VM_V1")
    ensures ReadFramed32(r[19..]) == Some((node, r')) && ReadFramed32(r') == Some((platform, []))
  {
    r' := Framed32(platform);
    r := AUDIT_VM_DOMAIN + (Framed32(node) + r');
    Framed32Reads(key, r);
    assert r[..19] == AUDIT_VM_DOMAIN && r[19..] == Framed32(node) + r';
    Framed32Reads(node, r');
    assert r' == Framed32(platform) + [];
    Framed32Reads(platform, []);
  }

  // -------- bindings that are maps --------

  /** The canonical map a binding hashes. */
  ghost predicate BindingMap(m: StringKeyed, b: Binding) {
    match b
    case Telemetry(key, node, vm) =>
      && |m| == 4 && HoldsText(m, "domain", Ascii("HIPPIUS_TENANT_TELEMETRY_V1"))
      && HoldsBytes(m, "signer_pubkey", key) && HoldsBytes(m, "node_id", node) && HoldsText(m, "vm_id", vm)
    case Live(vm) =>
      |m| == 2 && HoldsText(m, "domain", Ascii("HIPPIUS_LIVE_ATTESTATION_REPORT_V1")) && HoldsText(m, "vm_id", vm)
    case Enrolling(key, host) =>
      && |m| == 3 && HoldsText(m, "domain", Ascii("HIPPIUS_HOST_ATTESTOR_REPORT_V1"))
      && HoldsBytes(m, "attestor_pubkey", key) && HoldsText(m, "node_id", host)
  }

  lemma BindingFieldsRead(m: StringKeyed, b: Binding)
    requires BindingTyped(b)
    ensures BindingMap(m, b) <==> |m| == |BindingFields(b)| && ReadsEight(BindingFields(b), BindingVals(b), m, 0)
  {
    match b
    case Telemetry(key, node, vm) =>
      TextRead("vm_id", m, vm);
      ConstRead("domain", m, Ascii("HIPPIUS_TENANT_TELEMETRY_V1"));
      BytesRead("node_id", m, node);
      ArrayRead("signer_pubkey", 32, m, key);
    case Live(vm) =>
      TextRead("vm_id", m, vm);
      ConstRead("domain", m, Ascii("HIPPIUS_LIVE_ATTESTATION_REPORT_V1"));
    case Enrolling(key, host) =>
      ConstRead("domain", m, Ascii("HIPPIUS_HOST_ATTESTOR_REPORT_V1"));
      TextRead("node_id", m, host);
      ArrayRead("attestor_pubkey", 32, m, key);
  }

  /** A byte string is the preimage of a binding exactly when it is the canonical encoding of that map. */
  lemma BindingReads(b: Binding, p: bytes)
    requires BindingTyped(b)
    ensures BindingPreimage(b) == Some(p) <==> BodyMap(p).Some? && BindingMap(BodyMap(p).value, b)
  {
    BindingFieldsGood(b);
    BindingDecodes(b);
    BindingConforms(b);
    RecordCodec(BindingFields(b), p, BindingVals(b));
    BodyRead(BindingFields(b), p, BindingVals(b));
    if BodyMap(p).Some? {
      BindingFieldsRead(BodyMap(p).value, b);
    }
  }

  lemma BindingConforms(b: Binding)
    requires BindingTyped(b)
    ensures Conforms(RecordKind(BindingFields(b)), RecordVal(BindingVals(b)))
  {
  }
}
