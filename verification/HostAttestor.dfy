/** Host-attestor wire records: enrollment, liveness beacon, enrollment certificate, signed envelope. */
module HostAttestor {
  import opened ByteStrings
  import opened Records

  const SCHEMA_VERSION: nat := 1
  const SNP_REPORT_LEN: nat := 1184
  const PUBKEY_LEN: nat := 32
  const SIGNATURE_LEN: nat := 64
  const DIGEST_LEN: nat := 32
  const MEASUREMENT_LEN: nat := 48
  const CHIP_ID_LEN: nat := 64

  datatype PlatformTcb = PlatformTcb(reported: nat, committed: nat, current: nat)

  datatype Beacon = Beacon(
    schemaVersion: nat, chainGenesis: bytes, palletInstance: bytes, chipId: bytes, measurement: bytes,
    nodeId: bytes, bootId: bytes, seqNo: nat, observedAt: nat, tcb: PlatformTcb, policy: nat,
    nonce: bytes, signerPubkey: bytes, expiry: nat)

  /** The values the Rust struct can hold. */
  ghost predicate BeaconTyped(x: Beacon) {
    && x.schemaVersion < TWO_16
    && |x.chainGenesis| == DIGEST_LEN && |x.palletInstance| == DIGEST_LEN && |x.chipId| == CHIP_ID_LEN
    && |x.measurement| == MEASUREMENT_LEN && |x.nonce| == DIGEST_LEN && |x.signerPubkey| == PUBKEY_LEN
    && IsString(x.nodeId) && IsString(x.bootId)
    && x.seqNo < TWO_64 && x.observedAt < TWO_64 && x.policy < TWO_64 && x.expiry < TWO_64
    && x.tcb.reported < TWO_64 && x.tcb.committed < TWO_64 && x.tcb.current < TWO_64
  }

  ghost predicate IsString(s: bytes) { |s| < TWO_64 && Utf8(s) }

  predicate BeaconValid(x: Beacon) {
    && x.schemaVersion == SCHEMA_VERSION
    && x.nodeId != [] && x.bootId != []
    && x.seqNo > 0 && x.observedAt != 0 && x.expiry > x.observedAt
  }

  function TcbFields(): (f: seq<Field>) {
    [Field(Ascii("current"), UintKind(TWO_64)),
     Field(Ascii("reported"), UintKind(TWO_64)),
     Field(Ascii("committed"), UintKind(TWO_64))]
  }

  const BEACON_DOMAIN := Ascii("HIPPIUS_HOST_ATTESTOR_BEACON_V1")

  /** In the order the keys have on the wire. */
  function BeaconFields(): (f: seq<Field>) {
    [Field(Ascii("seq"), UintKind(TWO_64)),
     Field(Ascii("nonce"), ArrayKind(DIGEST_LEN)),
     Field(Ascii("domain"), ConstKind(BEACON_DOMAIN)),
     Field(Ascii("policy"), UintKind(TWO_64)),
     Field(Ascii("boot_id"), TextKind),
     Field(Ascii("chip_id"), ArrayKind(CHIP_ID_LEN)),
     Field(Ascii("node_id"), TextKind),
     Field(Ascii("expiry_unix"), UintKind(TWO_64)),
     Field(Ascii("measurement"), ArrayKind(MEASUREMENT_LEN)),
     Field(Ascii("platform_tcb"), RecordKind(TcbFields())),
     Field(Ascii("chain_genesis"), ArrayKind(DIGEST_LEN)),
     Field(Ascii("signer_pubkey"), ArrayKind(PUBKEY_LEN)),
     Field(Ascii("schema_version"), UintKind(TWO_16)),
     Field(Ascii("pallet_instance"), ArrayKind(DIGEST_LEN)),
     Field(Ascii("observed_at_unix"), UintKind(TWO_64))]
  }

  function BeaconVals(x: Beacon): (xs: seq<FieldValue>) {
    [UintVal(x.seqNo), BytesVal(x.nonce), ConstVal, UintVal(x.policy), TextVal(x.bootId), BytesVal(x.chipId),
     TextVal(x.nodeId), UintVal(x.expiry), BytesVal(x.measurement),
     RecordVal([UintVal(x.tcb.current), UintVal(x.tcb.reported), UintVal(x.tcb.committed)]),
     BytesVal(x.chainGenesis), BytesVal(x.signerPubkey), UintVal(x.schemaVersion), BytesVal(x.palletInstance),
     UintVal(x.observedAt)]
  }

  lemma TcbFieldsGood()
    ensures GoodKind(RecordKind(TcbFields()))
  {
    AscendingNamesDistinct(TcbFields());
  }

  lemma BeaconNames()
    ensures NamesAscend(BeaconFields())
  {
    FirstLetter("domain", "policy");
    FirstLetter("boot_id", "chip_id");
    FirstLetter("chip_id", "node_id");
    FirstLetter("expiry_unix", "measurement");
    FirstLetter("chain_genesis", "signer_pubkey");
  }

  lemma BeaconFieldsGood()
    ensures GoodKind(RecordKind(BeaconFields()))
  {
    TcbFieldsGood();
    assert DistinctNames(BeaconFields()) by {
      BeaconNames();
      AscendingNamesDistinct(BeaconFields());
    }
  }

  lemma BeaconToVals(x: Beacon)
    requires BeaconTyped(x)
    ensures Conforms(RecordKind(BeaconFields()), RecordVal(BeaconVals(x)))
  {
  }

  /** The values carry what their fields ask for. */
  predicate BeaconShape(xs: seq<FieldValue>) { |xs| == 15 && BeaconFront(xs) && BeaconBack(xs) }

  predicate BeaconFront(xs: seq<FieldValue>)
    requires |xs| == 15
  {
    && xs[0].UintVal? && xs[1].BytesVal? && xs[2].ConstVal? && xs[3].UintVal? && xs[4].TextVal?
    && xs[5].BytesVal? && xs[6].TextVal? && xs[7].UintVal?
  }

  predicate BeaconBack(xs: seq<FieldValue>)
    requires |xs| == 15
  {
    && xs[8].BytesVal? && xs[9].RecordVal? && TcbShape(xs[9].vals) && xs[10].BytesVal? && xs[11].BytesVal?
    && xs[12].UintVal? && xs[13].BytesVal? && xs[14].UintVal?
  }

  predicate TcbShape(xs: seq<FieldValue>) {
    |xs| == 3 && xs[0].UintVal? && xs[1].UintVal? && xs[2].UintVal?
  }

  function BeaconFromVals(xs: seq<FieldValue>): (x: Beacon)
    requires BeaconShape(xs)
  {
    var tcb := xs[9].vals;
    Beacon(xs[12].n, xs[10].b, xs[13].b, xs[5].b, xs[8].b, xs[6].t, xs[4].t, xs[0].n, xs[14].n,
           PlatformTcb(tcb[1].n, tcb[2].n, tcb[0].n), xs[3].n, xs[1].b, xs[11].b, xs[7].n)
  }

  lemma BeaconFromValsTyped(xs: seq<FieldValue>)
    requires Conforms(RecordKind(BeaconFields()), RecordVal(xs))
    ensures BeaconShape(xs) && BeaconTyped(BeaconFromVals(xs))
  {
    BeaconFrontConforms(xs);
    BeaconBackConforms(xs);
  }

  lemma BeaconFrontConforms(xs: seq<FieldValue>)
    requires Conforms(RecordKind(BeaconFields()), RecordVal(xs))
    ensures |xs| == 15 && BeaconFront(xs)
    ensures xs[0].n < TWO_64 && |xs[1].b| == DIGEST_LEN && xs[3].n < TWO_64 && IsString(xs[4].t)
    ensures |xs[5].b| == CHIP_ID_LEN && IsString(xs[6].t) && xs[7].n < TWO_64
  {
    var f := BeaconFields();
    assert FieldConforms(f[0], xs[0]) && FieldConforms(f[1], xs[1]) && FieldConforms(f[2], xs[2]) && FieldConforms(f[3], xs[3]);
    assert FieldConforms(f[4], xs[4]) && FieldConforms(f[5], xs[5]) && FieldConforms(f[6], xs[6]) && FieldConforms(f[7], xs[7]);
  }

  lemma BeaconBackConforms(xs: seq<FieldValue>)
    requires Conforms(RecordKind(BeaconFields()), RecordVal(xs))
    ensures |xs| == 15 && BeaconBack(xs)
    ensures |xs[8].b| == MEASUREMENT_LEN && |xs[10].b| == DIGEST_LEN && |xs[11].b| == PUBKEY_LEN
    ensures xs[12].n < TWO_16 && |xs[13].b| == DIGEST_LEN && xs[14].n < TWO_64
    ensures xs[9].vals[0].n < TWO_64 && xs[9].vals[1].n < TWO_64 && xs[9].vals[2].n < TWO_64
  {
    var f := BeaconFields();
    assert FieldConforms(f[9], xs[9]);
    TcbShaped(xs[9]);
    assert FieldConforms(f[8], xs[8]) && FieldConforms(f[10], xs[10]) && FieldConforms(f[11], xs[11]);
    assert FieldConforms(f[12], xs[12]) && FieldConforms(f[13], xs[13]) && FieldConforms(f[14], xs[14]);
  }

  lemma TcbShaped(v: FieldValue)
    requires Conforms(RecordKind(TcbFields()), v)
    ensures v.RecordVal? && TcbShape(v.vals)
    ensures v.vals[0].n < TWO_64 && v.vals[1].n < TWO_64 && v.vals[2].n < TWO_64
  {
  }

  lemma BeaconFromValsInverts(xs: seq<FieldValue>)
    requires BeaconShape(xs)
    ensures BeaconVals(BeaconFromVals(xs)) == xs
  {
    var tcb := xs[9].vals;
    assert tcb == [UintVal(tcb[0].n), UintVal(tcb[1].n), UintVal(tcb[2].n)];
  }

  function BeaconCanonical(x: Beacon): (r: Option<bytes>)
    requires BeaconTyped(x)
  {
    BeaconToVals(x);
    if BeaconValid(x) then EncodeRecord(BeaconFields(), BeaconVals(x)) else None
  }

  function BeaconDecode(b: bytes): (r: Option<Beacon>) {
    match DecodeRecord(BeaconFields(), b)
    case None => None
    case Some(xs) =>
      BeaconFieldsGood();
      RecordCodec(BeaconFields(), b, xs);
      BeaconFromValsTyped(xs);
      var x := BeaconFromVals(xs);
      if BeaconValid(x) then Some(x) else None
  }

  lemma BeaconDecodes(x: Beacon, b: bytes)
    requires BeaconTyped(x) && BeaconCanonical(x) == Some(b)
    ensures BeaconDecode(b) == Some(x)
  {
    BeaconFieldsGood();
    BeaconToVals(x);
    RecordCodec(BeaconFields(), b, BeaconVals(x));
    BeaconValsInvert(x);
  }

  lemma BeaconValsInvert(x: Beacon)
    ensures BeaconShape(BeaconVals(x)) && BeaconFromVals(BeaconVals(x)) == x
  {
  }

  lemma BeaconCanonicalOf(x: Beacon, xs: seq<FieldValue>, b: bytes)
    requires BeaconTyped(x) && BeaconValid(x) && BeaconVals(x) == xs
    requires Conforms(RecordKind(BeaconFields()), RecordVal(xs)) && EncodeRecord(BeaconFields(), xs) == Some(b)
    ensures BeaconCanonical(x) == Some(b)
  {
  }

  lemma BeaconReencodes(b: bytes)
    requires BeaconDecode(b).Some?
    ensures BeaconTyped(BeaconDecode(b).value) && BeaconCanonical(BeaconDecode(b).value) == Some(b)
  {
    var xs := DecodeRecord(BeaconFields(), b).value;
    BeaconFieldsGood();
    RecordCodec(BeaconFields(), b, xs);
    BeaconFromValsTyped(xs);
    BeaconFromValsInverts(xs);
    BeaconCanonicalOf(BeaconFromVals(xs), xs, b);
  }

  /** A beacon body decodes to x exactly when x is valid and the body is its canonical encoding. */
  lemma BeaconCodec(b: bytes, x: Beacon)
    ensures BeaconDecode(b) == Some(x) <==> BeaconTyped(x) && BeaconValid(x) && BeaconCanonical(x) == Some(b)
  {
    if BeaconDecode(b) == Some(x) {
      BeaconReencodes(b);
    }
    if BeaconTyped(x) && BeaconCanonical(x) == Some(b) {
      BeaconDecodes(x, b);
    }
  }

  // -------- enrollment --------

  datatype Enrollment = Enrollment(
    schemaVersion: nat, snpReport: bytes, signerPubkey: bytes, nodeId: bytes, bootId: bytes, issuedAt: nat)

  ghost predicate EnrollmentTyped(x: Enrollment) {
    && x.schemaVersion < TWO_16 && x.issuedAt < TWO_64
    && |x.snpReport| == SNP_REPORT_LEN && |x.signerPubkey| == PUBKEY_LEN
    && IsString(x.nodeId) && IsString(x.bootId)
  }

  predicate EnrollmentValid(x: Enrollment) {
    x.schemaVersion == SCHEMA_VERSION && x.nodeId != [] && x.bootId != [] && x.issuedAt != 0
  }

  function EnrollmentFields(): (f: seq<Field>) {
    [Field(Ascii("boot_id"), TextKind),
     Field(Ascii("node_id"), TextKind),
     Field(Ascii("snp_report"), ArrayKind(SNP_REPORT_LEN)),
     Field(Ascii("signer_pubkey"), ArrayKind(PUBKEY_LEN)),
     Field(Ascii("issued_at_unix"), UintKind(TWO_64)),
     Field(Ascii("schema_version"), UintKind(TWO_16))]
  }

  function EnrollmentVals(x: Enrollment): (xs: seq<FieldValue>) {
    [TextVal(x.bootId), TextVal(x.nodeId), BytesVal(x.snpReport), BytesVal(x.signerPubkey),
     UintVal(x.issuedAt), UintVal(x.schemaVersion)]
  }

  function EnrollmentFromVals(xs: seq<FieldValue>): (x: Enrollment)
    requires Conforms(RecordKind(EnrollmentFields()), RecordVal(xs))
    ensures EnrollmentTyped(x) && EnrollmentVals(x) == xs
  {
    Enrollment(xs[5].n, xs[2].b, xs[3].b, xs[1].t, xs[0].t, xs[4].n)
  }

  lemma EnrollmentNames()
    ensures NamesAscend(EnrollmentFields())
  {
    FirstLetter("boot_id", "node_id");
    FirstLetter("issued_at_unix", "schema_version");
  }

  lemma EnrollmentFieldsGood()
    ensures GoodKind(RecordKind(EnrollmentFields()))
  {
    assert DistinctNames(EnrollmentFields()) by {
      EnrollmentNames();
      AscendingNamesDistinct(EnrollmentFields());
    }
  }

  lemma EnrollmentToVals(x: Enrollment)
    requires EnrollmentTyped(x)
    ensures Conforms(RecordKind(EnrollmentFields()), RecordVal(EnrollmentVals(x)))
  {
  }

  function EnrollmentCanonical(x: Enrollment): (r: Option<bytes>)
    requires EnrollmentTyped(x)
  {
    EnrollmentToVals(x);
    if EnrollmentValid(x) then EncodeRecord(EnrollmentFields(), EnrollmentVals(x)) else None
  }

  function EnrollmentDecode(b: bytes): (r: Option<Enrollment>) {
    match DecodeRecord(EnrollmentFields(), b)
    case None => None
    case Some(xs) =>
      EnrollmentFieldsGood();
      RecordCodec(EnrollmentFields(), b, xs);
      var x := EnrollmentFromVals(xs);
      if EnrollmentValid(x) then Some(x) else None
  }

  lemma EnrollmentCodec(b: bytes, x: Enrollment)
    ensures EnrollmentDecode(b) == Some(x)
       <==> EnrollmentTyped(x) && EnrollmentValid(x) && EnrollmentCanonical(x) == Some(b)
  {
    EnrollmentFieldsGood();
    if EnrollmentDecode(b) == Some(x) {
      RecordCodec(EnrollmentFields(), b, DecodeRecord(EnrollmentFields(), b).value);
    }
    if EnrollmentTyped(x) && EnrollmentCanonical(x) == Some(b) {
      EnrollmentToVals(x);
      RecordCodec(EnrollmentFields(), b, EnrollmentVals(x));
    }
  }

  // -------- enrollment certificate --------

  datatype Cert = Cert(
    schemaVersion: nat, nodeId: bytes, chipId: bytes, attestorPubkey: bytes, measurement: bytes, tcb: nat,
    nonce: bytes, expiry: nat)

  ghost predicate CertTyped(x: Cert) {
    && x.schemaVersion < TWO_16 && x.tcb < TWO_64 && x.expiry < TWO_64 && IsString(x.nodeId)
    && |x.chipId| == CHIP_ID_LEN && |x.attestorPubkey| == PUBKEY_LEN
    && |x.measurement| == MEASUREMENT_LEN && |x.nonce| == DIGEST_LEN
  }

  predicate CertValid(x: Cert) {
    x.schemaVersion == SCHEMA_VERSION && x.nodeId != [] && x.expiry != 0
  }

  const CERT_DOMAIN := Ascii("HIPPIUS_HOST_ATTESTOR_CERT_V1")

  function CertFields(): (f: seq<Field>) {
    [Field(Ascii("tcb"), UintKind(TWO_64)),
     Field(Ascii("nonce"), ArrayKind(DIGEST_LEN)),
     Field(Ascii("domain"), ConstKind(CERT_DOMAIN)),
     Field(Ascii("chip_id"), ArrayKind(CHIP_ID_LEN)),
     Field(Ascii("node_id"), TextKind),
     Field(Ascii("expiry_unix"), UintKind(TWO_64)),
     Field(Ascii("measurement"), ArrayKind(MEASUREMENT_LEN)),
     Field(Ascii("schema_version"), UintKind(TWO_16)),
     Field(Ascii("attestor_pubkey"), ArrayKind(PUBKEY_LEN))]
  }

  function CertVals(x: Cert): (xs: seq<FieldValue>) {
    [UintVal(x.tcb), BytesVal(x.nonce), ConstVal, BytesVal(x.chipId), TextVal(x.nodeId), UintVal(x.expiry),
     BytesVal(x.measurement), UintVal(x.schemaVersion), BytesVal(x.attestorPubkey)]
  }

  function CertFromVals(xs: seq<FieldValue>): (x: Cert)
    requires Conforms(RecordKind(CertFields()), RecordVal(xs))
    ensures CertTyped(x)
  {
    Cert(xs[7].n, xs[4].t, xs[3].b, xs[8].b, xs[6].b, xs[0].n, xs[1].b, xs[5].n)
  }

  lemma CertFromValsInverts(xs: seq<FieldValue>)
    requires Conforms(RecordKind(CertFields()), RecordVal(xs))
    ensures CertVals(CertFromVals(xs)) == xs
  {
    assert xs[2] == ConstVal;
  }

  lemma CertNames()
    ensures NamesAscend(CertFields())
  {
    FirstLetter("chip_id", "node_id");
    FirstLetter("expiry_unix", "measurement");
  }

  lemma CertFieldsGood()
    ensures GoodKind(RecordKind(CertFields()))
  {
    assert DistinctNames(CertFields()) by {
      CertNames();
      AscendingNamesDistinct(CertFields());
    }
  }

  lemma CertToVals(x: Cert)
    requires CertTyped(x)
    ensures Conforms(RecordKind(CertFields()), RecordVal(CertVals(x)))
  {
  }

  function CertCanonical(x: Cert): (r: Option<bytes>)
    requires CertTyped(x)
  {
    CertToVals(x);
    if CertValid(x) then EncodeRecord(CertFields(), CertVals(x)) else None
  }

  function CertDecode(b: bytes): (r: Option<Cert>) {
    match DecodeRecord(CertFields(), b)
    case None => None
    case Some(xs) =>
      CertFieldsGood();
      RecordCodec(CertFields(), b, xs);
      var x := CertFromVals(xs);
      if CertValid(x) then Some(x) else None
  }

  lemma CertCanonicalOf(x: Cert, xs: seq<FieldValue>, b: bytes)
    requires CertTyped(x) && CertValid(x) && CertVals(x) == xs
    requires Conforms(RecordKind(CertFields()), RecordVal(xs)) && EncodeRecord(CertFields(), xs) == Some(b)
    ensures CertCanonical(x) == Some(b)
  {
  }

  lemma CertReencodes(b: bytes)
    requires CertDecode(b).Some?
    ensures CertTyped(CertDecode(b).value) && CertCanonical(CertDecode(b).value) == Some(b)
  {
    var xs := DecodeRecord(CertFields(), b).value;
    CertFieldsGood();
    RecordCodec(CertFields(), b, xs);
    CertFromValsInverts(xs);
    CertCanonicalOf(CertFromVals(xs), xs, b);
  }

  lemma CertDecodes(x: Cert, b: bytes)
    requires CertTyped(x) && CertCanonical(x) == Some(b)
    ensures CertDecode(b) == Some(x)
  {
    CertFieldsGood();
    CertToVals(x);
    RecordCodec(CertFields(), b, CertVals(x));
    CertValsInvert(x);
  }

  lemma CertValsInvert(x: Cert)
    requires Conforms(RecordKind(CertFields()), RecordVal(CertVals(x)))
    ensures CertFromVals(CertVals(x)) == x
  {
  }

  lemma CertCodec(b: bytes, x: Cert)
    ensures CertDecode(b) == Some(x) <==> CertTyped(x) && CertValid(x) && CertCanonical(x) == Some(b)
  {
    if CertDecode(b) == Some(x) {
      CertReencodes(b);
    }
    if CertTyped(x) && CertCanonical(x) == Some(b) {
      CertDecodes(x, b);
    }
  }

  // -------- signed envelope --------

  /** The `{body, sig}` wrapper, shared in shape by every signed record. */
  datatype Envelope = Envelope(body: bytes, sig: bytes)

  ghost predicate EnvelopeTyped(x: Envelope) { |x.body| < TWO_64 && |x.sig| == SIGNATURE_LEN }

  function EnvelopeFields(): (f: seq<Field>) {
    [Field(Ascii("sig"), ArrayKind(SIGNATURE_LEN)), Field(Ascii("body"), BytesKind)]
  }

  function EnvelopeEncode(x: Envelope): (r: Option<bytes>)
    requires EnvelopeTyped(x)
  {
    EncodeRecord(EnvelopeFields(), [BytesVal(x.sig), BytesVal(x.body)])
  }

  function EnvelopeDecode(b: bytes): (r: Option<Envelope>) {
    match DecodeRecord(EnvelopeFields(), b)
    case None => None
    case Some(xs) =>
      EnvelopeFieldsGood();
      RecordCodec(EnvelopeFields(), b, xs);
      Some(Envelope(xs[1].b, xs[0].b))
  }

  lemma EnvelopeFieldsGood()
    ensures GoodKind(RecordKind(EnvelopeFields()))
  {
    AscendingNamesDistinct(EnvelopeFields());
  }

  lemma EnvelopeCodec(b: bytes, x: Envelope)
    ensures EnvelopeDecode(b) == Some(x) <==> EnvelopeTyped(x) && EnvelopeEncode(x) == Some(b)
  {
    EnvelopeFieldsGood();
    if EnvelopeDecode(b) == Some(x) {
      var xs := DecodeRecord(EnvelopeFields(), b).value;
      RecordCodec(EnvelopeFields(), b, xs);
      assert xs == [BytesVal(x.sig), BytesVal(x.body)];
    }
    if EnvelopeTyped(x) && EnvelopeEncode(x) == Some(b) {
      RecordCodec(EnvelopeFields(), b, [BytesVal(x.sig), BytesVal(x.body)]);
    }
  }
}
