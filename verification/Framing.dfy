/** Hash preimages built from length-framed fields, and the report-data bindings. */
module Framing {
  import opened ByteStrings
  import opened Records
  import opened HostAttestor

  /** A streaming hasher: what it has absorbed so far. */
  class Hasher {
    var absorbed: bytes

    constructor ()
      ensures absorbed == []
    {
      absorbed := [];
    }

    method Update(s: bytes)
      modifies this
      ensures absorbed == old(absorbed) + s
    {
      absorbed := absorbed + s;
    }

    /** `put_framed`: the length as eight little-endian bytes, then the field. */
    method PutFramed(s: bytes)
      modifies this
      ensures absorbed == old(absorbed) + Framed(s)
    {
      Update(LittleEndian(|s|, 8));
      Update(s);
    }
  }

  function Framed(s: bytes): (r: bytes) { LittleEndian(|s|, 8) + s }

  const USERDATA_DIGEST_DOMAIN := Ascii("HIPPIUS_USERDATA_DIGEST_V1")

  /** The seven inputs of the user-data digest. */
  datatype Userdata = Userdata(
    tenantId: bytes, vmId: bytes, ticketId: bytes, secretType: bytes, path: bytes, version: nat, plaintext: bytes)

  ghost predicate UserdataTyped(u: Userdata) {
    && |u.tenantId| < TWO_64 && |u.vmId| < TWO_64 && |u.ticketId| < TWO_64 && |u.secretType| < TWO_64
    && |u.path| < TWO_64 && u.version < TWO_64 && |u.plaintext| < TWO_64
  }

  function UserdataPreimage(u: Userdata): (p: bytes) {
    Framed(USERDATA_DIGEST_DOMAIN) + Framed(u.tenantId) + Framed(u.vmId) + Framed(u.ticketId)
    + Framed(u.secretType) + Framed(u.path) + LittleEndian(u.version, 8) + Framed(u.plaintext)
  }

  method UserdataDigest(u: Userdata, sha: bytes -> bytes) returns (d: bytes)
    ensures d == sha(UserdataPreimage(u))
  {
    var h := new Hasher();
    h.PutFramed(USERDATA_DIGEST_DOMAIN);
    assert h.absorbed == Framed(USERDATA_DIGEST_DOMAIN);
    h.PutFramed(u.tenantId);
    h.PutFramed(u.vmId);
    h.PutFramed(u.ticketId);
    h.PutFramed(u.secretType);
    h.PutFramed(u.path);
    h.Update(LittleEndian(u.version, 8));
    h.PutFramed(u.plaintext);
    d := sha(h.absorbed);
  }

  /** A framed field can be read off the front: its length says where it ends. */
  lemma FramedSplits(s: bytes, x: bytes, t: bytes, y: bytes)
    requires |s| < TWO_64 && |t| < TWO_64 && Framed(s) + x == Framed(t) + y
    ensures s == t && x == y
  {
    assert Framed(s) + x == LittleEndian(|s|, 8) + (s + x);
    assert Framed(t) + y == LittleEndian(|t|, 8) + (t + y);
    SplitAt(LittleEndian(|s|, 8), s + x, LittleEndian(|t|, 8), t + y);
    Pow256Widths();
    LittleEndianInjective(|s|, |t|, 8);
    SplitAt(s, x, t, y);
  }

  lemma VersionedSplits(m: nat, s: bytes, n: nat, t: bytes)
    requires m < TWO_64 && n < TWO_64 && |s| < TWO_64 && |t| < TWO_64
    requires LittleEndian(m, 8) + Framed(s) == LittleEndian(n, 8) + Framed(t)
    ensures m == n && s == t
  {
    SplitAt(LittleEndian(m, 8), Framed(s), LittleEndian(n, 8), Framed(t));
    Pow256Widths();
    LittleEndianInjective(m, n, 8);
    assert Framed(s) + [] == Framed(t) + [];
    FramedSplits(s, [], t, []);
  }

  lemma RegroupFramed(a: bytes, b: bytes, c: bytes, d: bytes, e: bytes, f: bytes, g: bytes, h: bytes)
    ensures a + b + c + d + e + f + g + h == a + (b + (c + (d + (e + (f + (g + h))))))
  {
    assert a + b + c + d + e + f + g + h == a + b + c + d + (e + (f + (g + h)));
    var rest := e + (f + (g + h));
    assert a + b + c + d + rest == a + (b + (c + (d + rest)));
  }

  lemma RegroupUserdata(u: Userdata)
    ensures UserdataPreimage(u) ==
            Framed(USERDATA_DIGEST_DOMAIN) + (Framed(u.tenantId) + (Framed(u.vmId) + (Framed(u.ticketId)
            + (Framed(u.secretType) + (Framed(u.path) + (LittleEndian(u.version, 8) + Framed(u.plaintext)))))))
  {
    RegroupFramed(Framed(USERDATA_DIGEST_DOMAIN), Framed(u.tenantId), Framed(u.vmId), Framed(u.ticketId),
            Framed(u.secretType), Framed(u.path), LittleEndian(u.version, 8), Framed(u.plaintext));
  }

  /** The user-data preimage determines all seven fields. */
  lemma UserdataInjective(u: Userdata, w: Userdata)
    requires UserdataTyped(u) && UserdataTyped(w)
    requires UserdataPreimage(u) == UserdataPreimage(w)
    ensures u == w
  {
    RegroupUserdata(u);
    RegroupUserdata(w);
    var x5 := LittleEndian(u.version, 8) + Framed(u.plaintext);
    var y5 := LittleEndian(w.version, 8) + Framed(w.plaintext);
    var x4, y4 := Framed(u.path) + x5, Framed(w.path) + y5;
    var x3, y3 := Framed(u.secretType) + x4, Framed(w.secretType) + y4;
    var x2, y2 := Framed(u.ticketId) + x3, Framed(w.ticketId) + y3;
    var x1, y1 := Framed(u.vmId) + x2, Framed(w.vmId) + y2;
    var x0, y0 := Framed(u.tenantId) + x1, Framed(w.tenantId) + y1;
    FramedSplits(USERDATA_DIGEST_DOMAIN, x0, USERDATA_DIGEST_DOMAIN, y0);
    FramedSplits(u.tenantId, x1, w.tenantId, y1);
    FramedSplits(u.vmId, x2, w.vmId, y2);
    FramedSplits(u.ticketId, x3, w.ticketId, y3);
    FramedSplits(u.secretType, x4, w.secretType, y4);
    FramedSplits(u.path, x5, w.path, y5);
    VersionedSplits(u.version, u.plaintext, w.version, w.plaintext);
  }

  // -------- the audit-VM binding --------

  const AUDIT_VM_DOMAIN := Ascii("HIPPIUS_AUDIT_VM_V1")

  /** A length cast to 32 bits, big-endian, then the field. */
  function Framed32(s: bytes): (r: bytes) { BigEndian(|s|, 4) + s }

  function AuditVmPreimage(key: bytes, node: bytes, platform: bytes): (p: bytes) {
    Framed32(key) + (AUDIT_VM_DOMAIN + (Framed32(node) + Framed32(platform)))
  }

  method AuditVmReportData(nonce: bytes, key: bytes, node: bytes, platform: bytes, sha: bytes -> bytes) returns (out: bytes)
    requires |nonce| == 32 && |sha(AuditVmPreimage(key, node, platform))| == 32
    ensures |out| == 64 && out[..32] == nonce && out[32..] == sha(AuditVmPreimage(key, node, platform))
  {
    var h := new Hasher();
    h.Update(BigEndian(|key|, 4));
    h.Update(key);
    h.Update(AUDIT_VM_DOMAIN);
    h.Update(BigEndian(|node|, 4));
    h.Update(node);
    h.Update(BigEndian(|platform|, 4));
    h.Update(platform);
    RegroupFields(BigEndian(|key|, 4), key, AUDIT_VM_DOMAIN, BigEndian(|node|, 4), node, BigEndian(|platform|, 4), platform);
    out := nonce + sha(h.absorbed);
  }

  lemma RegroupFields(a: bytes, b: bytes, c: bytes, d: bytes, e: bytes, f: bytes, g: bytes)
    ensures [] + a + b + c + d + e + f + g == (a + b) + (c + ((d + e) + (f + g)))
  {
  }

  lemma Framed32Splits(s: bytes, x: bytes, t: bytes, y: bytes)
    requires |s| < TWO_32 && |t| < TWO_32 && Framed32(s) + x == Framed32(t) + y
    ensures s == t && x == y
  {
    assert Framed32(s) + x == BigEndian(|s|, 4) + (s + x);
    assert Framed32(t) + y == BigEndian(|t|, 4) + (t + y);
    SplitAt(BigEndian(|s|, 4), s + x, BigEndian(|t|, 4), t + y);
    Pow256Widths();
    BigEndianRoundTrip(|s|, 4);
    BigEndianRoundTrip(|t|, 4);
    SplitAt(s, x, t, y);
  }

  lemma AuditVmInjective(k: bytes, n: bytes, p: bytes, k': bytes, n': bytes, p': bytes)
    requires |k| < TWO_32 && |n| < TWO_32 && |p| < TWO_32
    requires |k'| < TWO_32 && |n'| < TWO_32 && |p'| < TWO_32
    requires AuditVmPreimage(k, n, p) == AuditVmPreimage(k', n', p')
    ensures k == k' && n == n' && p == p'
  {
    var x, y := Framed32(n) + Framed32(p), Framed32(n') + Framed32(p');
    Framed32Splits(k, AUDIT_VM_DOMAIN + x, k', AUDIT_VM_DOMAIN + y);
    SplitAt(AUDIT_VM_DOMAIN, x, AUDIT_VM_DOMAIN, y);
    Framed32Splits(n, Framed32(p), n', Framed32(p'));
    assert Framed32(p) + [] == Framed32(p') + [];
    Framed32Splits(p, [], p', []);
  }

  /** Field triples with every field shorter than the limit have different preimages. */
  ghost predicate InjectiveBelow(limit: nat) {
    forall k, n, p, k', n', p' |
      AllBelow(k, n, p, limit) && AllBelow(k', n', p', limit)
      && AuditVmPreimage(k, n, p) == AuditVmPreimage(k', n', p') :: k == k' && n == n' && p == p'
  }

  predicate AllBelow(k: bytes, n: bytes, p: bytes, limit: nat) { |k| < limit && |n| < limit && |p| < limit }

  lemma LengthWraps()
    ensures BigEndian(TWO_32, 4) == [0, 0, 0, 0] && BigEndian(0, 4) == [0, 0, 0, 0]
  {
    assert BigEndian(TWO_32 / 256 / 256 / 256, 1) == [0];
    assert BigEndian(TWO_32 / 256 / 256, 2) == [0, 0];
    assert BigEndian(TWO_32 / 256, 3) == [0, 0, 0];
    assert BigEndian(0, 1) == [0];
    assert BigEndian(0, 2) == [0, 0];
    assert BigEndian(0, 3) == [0, 0, 0];
  }

  /** A field of 2^32 bytes: its length reads as zero, and the boundary moves. */
  lemma LongFieldsCollide() returns (key: bytes, node: bytes)
    ensures |key| == TWO_32 && |node| == TWO_32
    ensures AuditVmPreimage(key, [], []) == AuditVmPreimage([], node, [])
  {
    var zero: bytes := [0, 0, 0, 0];
    var filler: bytes := seq(TWO_32 - 23, i => 0);
    key := AUDIT_VM_DOMAIN + (zero + filler);
    node := filler + (AUDIT_VM_DOMAIN + zero);
    LengthWraps();
    assert Framed32([]) == zero && Framed32(key) == zero + key && Framed32(node) == zero + node;
    calc {
      AuditVmPreimage(key, [], []);
      zero + key + (AUDIT_VM_DOMAIN + (zero + zero));
      zero + (AUDIT_VM_DOMAIN + (zero + node + zero));
      AuditVmPreimage([], node, []);
    }
  }

  /** The binding is injective on fields shorter than a limit exactly when the limit is at most 2^32. */
  lemma AuditVmInjectiveExactly(limit: nat)
    ensures InjectiveBelow(limit) <==> limit <= TWO_32
  {
    if limit <= TWO_32 {
      forall k, n, p, k', n', p' |
        AllBelow(k, n, p, limit) && AllBelow(k', n', p', limit)
        && AuditVmPreimage(k, n, p) == AuditVmPreimage(k', n', p')
        ensures k == k' && n == n' && p == p'
      {
        AuditVmInjective(k, n, p, k', n', p');
      }
    } else {
      var key, node := LongFieldsCollide();
      var none: bytes := [];
      assert AllBelow(key, none, none, limit) && AllBelow(none, node, none, limit) && key != none;
    }
  }

  // -------- bindings whose preimage is a canonical map --------

  datatype Binding =
    | Telemetry(pubkey: bytes, node: bytes, vm: bytes)
    | Live(vm: bytes)
    | Enrolling(pubkey: bytes, host: bytes)

  ghost predicate BindingTyped(b: Binding) {
    match b
    case Telemetry(k, n, v) => |k| == 32 && |n| < TWO_64 && IsString(v)
    case Live(v) => IsString(v)
    case Enrolling(k, n) => |k| == 32 && IsString(n)
  }

  function BindingFields(b: Binding): (f: seq<Field>) {
    match b
    case Telemetry(_, _, _) =>
      [Field(Ascii("vm_id"), TextKind), Field(Ascii("domain"), ConstKind(Ascii("HIPPIUS_TENANT_TELEMETRY_V1"))),
       Field(Ascii("node_id"), BytesKind), Field(Ascii("signer_pubkey"), ArrayKind(32))]
    case Live(_) =>
      [Field(Ascii("vm_id"), TextKind), Field(Ascii("domain"), ConstKind(Ascii("HIPPIUS_LIVE_ATTESTATION_REPORT_V1")))]
    case Enrolling(_, _) =>
      [Field(Ascii("domain"), ConstKind(Ascii("HIPPIUS_HOST_ATTESTOR_REPORT_V1"))),
       Field(Ascii("node_id"), TextKind), Field(Ascii("attestor_pubkey"), ArrayKind(32))]
  }

  function BindingVals(b: Binding): (xs: seq<FieldValue>) {
    match b
    case Telemetry(k, n, v) => [TextVal(v), ConstVal, BytesVal(n), BytesVal(k)]
    case Live(v) => [TextVal(v), ConstVal]
    case Enrolling(k, n) => [ConstVal, TextVal(n), BytesVal(k)]
  }

  function BindingPreimage(b: Binding): (r: Option<bytes>)
    requires BindingTyped(b)
  {
    EncodeRecord(BindingFields(b), BindingVals(b))
  }

  lemma BindingFieldsGood(b: Binding)
    ensures GoodKind(RecordKind(BindingFields(b)))
  {
    AscendingNamesDistinct(BindingFields(b));
  }

  lemma BindingDecodes(b: Binding)
    requires BindingTyped(b)
    ensures BindingPreimage(b).Some? && DecodeRecord(BindingFields(b), BindingPreimage(b).value) == Some(BindingVals(b))
  {
    BindingFieldsGood(b);
    EncodeRecordSucceeds(BindingFields(b), BindingVals(b));
  }

  lemma BindingKindsDiffer(a: Binding, b: Binding)
    requires |BindingFields(a)| != |BindingFields(b)|
    ensures Separated(BindingFields(a), BindingFields(b))
  {
    BindingFieldsGood(a);
    BindingFieldsGood(b);
    NamesCount(BindingFields(a));
    NamesCount(BindingFields(b));
  }

  lemma BindingValsInjective(a: Binding, b: Binding)
    requires |BindingFields(a)| == |BindingFields(b)| && BindingVals(a) == BindingVals(b)
    ensures a == b
  {
    var x, y := BindingVals(a), BindingVals(b);
    assert x[0] == y[0] && x[1] == y[1];
    assert a.Telemetry? ==> x[2] == y[2] && x[3] == y[3];
    assert a.Enrolling? ==> x[2] == y[2];
  }

  /** Every map-based binding preimage determines which binding it is and all its fields. */
  lemma BindingsDetermined(a: Binding, b: Binding)
    requires BindingTyped(a) && BindingTyped(b)
    ensures BindingPreimage(a) == BindingPreimage(b) <==> a == b
  {
    BindingDecodes(a);
    BindingDecodes(b);
    if BindingPreimage(a) == BindingPreimage(b) {
      if |BindingFields(a)| != |BindingFields(b)| {
        BindingKindsDiffer(a, b);
        BindingFieldsGood(a);
        BindingFieldsGood(b);
        SeparatedSchemasShareNothing(BindingFields(a), BindingFields(b), BindingPreimage(a).value);
      } else {
        SameFields(a, b);
        BindingValsInjective(a, b);
      }
    }
  }

  lemma SameFields(a: Binding, b: Binding)
    requires |BindingFields(a)| == |BindingFields(b)|
    ensures BindingFields(a) == BindingFields(b)
  {
  }
}
