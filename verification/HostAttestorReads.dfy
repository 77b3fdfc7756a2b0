/** Which beacon, enrollment and certificate bodies are accepted, key by key. */
module HostAttestorReads {
  import opened ByteStrings
  import opened Records
  import opened Lookups
  import opened HostAttestor

  // -------- beacons --------

  ghost predicate BeaconMapFront(m: StringKeyed, x: Beacon) {
    && HoldsUint(m, "seq", x.seqNo) && x.seqNo < TWO_64
    && HoldsBytes(m, "nonce", x.nonce) && |x.nonce| == 32
    && HoldsText(m, "domain", Ascii("HIPPIUS_HOST_ATTESTOR_BEACON_V1"))
    && HoldsUint(m, "policy", x.policy) && x.policy < TWO_64
    && HoldsText(m, "boot_id", x.bootId)
    && HoldsBytes(m, "chip_id", x.chipId) && |x.chipId| == 64
    && HoldsText(m, "node_id", x.nodeId)
    && HoldsUint(m, "expiry_unix", x.expiry) && x.expiry < TWO_64
  }

  ghost predicate BeaconMapBack(m: StringKeyed, x: Beacon) {
    && HoldsBytes(m, "measurement", x.measurement) && |x.measurement| == 48
    && (exists tcb :: HoldsMap(m, "platform_tcb", tcb) && TcbMap(tcb, x.tcb))
    && HoldsBytes(m, "chain_genesis", x.chainGenesis) && |x.chainGenesis| == 32
    && HoldsBytes(m, "signer_pubkey", x.signerPubkey) && |x.signerPubkey| == 32
    && HoldsUint(m, "schema_version", x.schemaVersion) && x.schemaVersion < TWO_16
    && HoldsBytes(m, "pallet_instance", x.palletInstance) && |x.palletInstance| == 32
    && HoldsUint(m, "observed_at_unix", x.observedAt) && x.observedAt < TWO_64
  }

  /** Exactly the three counters of the platform's trusted computing base. */
  ghost predicate TcbMap(m: StringKeyed, t: PlatformTcb) {
    && |m| == 3 && HoldsUint(m, "reported", t.reported) && HoldsUint(m, "committed", t.committed) && HoldsUint(m, "current", t.current)
    && t.reported < TWO_64 && t.committed < TWO_64 && t.current < TWO_64
  }

  lemma TcbReads(m: StringKeyed, t: PlatformTcb)
    ensures TakeFields(TcbFields(), m) == Some([UintVal(t.current), UintVal(t.reported), UintVal(t.committed)]) <==> TcbMap(m, t)
  {
    var f := TcbFields();
    TcbFieldsGood();
    TakenBySize(f, m, [UintVal(t.current), UintVal(t.reported), UintVal(t.committed)]);
    UintRead("current", TWO_64, m, t.current);
    UintRead("reported", TWO_64, m, t.reported);
    UintRead("committed", TWO_64, m, t.committed);
    assert f[0].name == Ascii("current") && f[1].name == Ascii("reported") && f[2].name == Ascii("committed");
  }

  lemma BeaconFrontReads(m: StringKeyed, x: Beacon)
    ensures BeaconMapFront(m, x) <==> ReadsEight(BeaconFields(), BeaconVals(x), m, 0)
  {
    UintRead("seq", TWO_64, m, x.seqNo);
    ArrayRead("nonce", 32, m, x.nonce);
    ConstRead("domain", m, BEACON_DOMAIN);
    UintRead("policy", TWO_64, m, x.policy);
    TextRead("boot_id", m, x.bootId);
    ArrayRead("chip_id", 64, m, x.chipId);
    TextRead("node_id", m, x.nodeId);
    UintRead("expiry_unix", TWO_64, m, x.expiry);
  }

  lemma BeaconBackReads(m: StringKeyed, x: Beacon)
    ensures BeaconMapBack(m, x) <==> ReadsEight(BeaconFields(), BeaconVals(x), m, 8)
  {
    ArrayRead("measurement", 48, m, x.measurement);
    TcbFieldReads(m, x);
    ArrayRead("chain_genesis", 32, m, x.chainGenesis);
    ArrayRead("signer_pubkey", 32, m, x.signerPubkey);
    UintRead("schema_version", TWO_16, m, x.schemaVersion);
    ArrayRead("pallet_instance", 32, m, x.palletInstance);
    UintRead("observed_at_unix", TWO_64, m, x.observedAt);
  }

  lemma TcbFieldReads(m: StringKeyed, x: Beacon)
    ensures TakeField(Field(Ascii("platform_tcb"), RecordKind(TcbFields())), m)
            == Some(RecordVal([UintVal(x.tcb.current), UintVal(x.tcb.reported), UintVal(x.tcb.committed)]))
       <==> exists tcb :: HoldsMap(m, "platform_tcb", tcb) && TcbMap(tcb, x.tcb)
  {
    RecordRead("platform_tcb", TcbFields(), m, [UintVal(x.tcb.current), UintVal(x.tcb.reported), UintVal(x.tcb.committed)]);
    forall tcb ensures TakeFields(TcbFields(), tcb) == Some([UintVal(x.tcb.current), UintVal(x.tcb.reported), UintVal(x.tcb.committed)]) <==> TcbMap(tcb, x.tcb) {
      TcbReads(tcb, x.tcb);
    }
  }

  /** The body is a canonical map with exactly the fifteen keys of a beacon, holding the fields of x. */
  ghost predicate BeaconBody(b: bytes, x: Beacon) {
    BodyMap(b).Some? && |BodyMap(b).value| == 15 && BeaconMapFront(BodyMap(b).value, x) && BeaconMapBack(BodyMap(b).value, x)
  }

  lemma BeaconBodyDecodes(b: bytes, x: Beacon)
    ensures DecodeRecord(BeaconFields(), b) == Some(BeaconVals(x)) <==> BeaconBody(b, x)
  {
    BeaconFieldsGood();
    BodyRead(BeaconFields(), b, BeaconVals(x));
    if BodyMap(b).Some? {
      BeaconFrontReads(BodyMap(b).value, x);
      BeaconBackReads(BodyMap(b).value, x);
    }
  }

  lemma BeaconTypedFromVals(x: Beacon)
    requires Conforms(RecordKind(BeaconFields()), RecordVal(BeaconVals(x)))
    ensures BeaconTyped(x)
  {
    BeaconFromValsTyped(BeaconVals(x));
    BeaconValsInvert(x);
  }

  lemma BeaconDecodesTo(b: bytes, x: Beacon)
    ensures BeaconDecode(b) == Some(x) <==> DecodeRecord(BeaconFields(), b) == Some(BeaconVals(x)) && BeaconValid(x)
  {
    BeaconCodec(b, x);
    BeaconFieldsGood();
    RecordCodec(BeaconFields(), b, BeaconVals(x));
    if BeaconTyped(x) {
      BeaconToVals(x);
    } else if Conforms(RecordKind(BeaconFields()), RecordVal(BeaconVals(x))) {
      BeaconTypedFromVals(x);
    }
  }

  /**
   A body is accepted as the beacon x exactly when it is a canonical map with exactly those keys and values, of schema
   version 1, with node and boot id, a sequence number from 1, an observation time, and an expiry after it.
   */
  lemma BeaconAcceptedExactly(b: bytes, x: Beacon)
    ensures BeaconDecode(b) == Some(x) <==>
              && BeaconBody(b, x) && x.schemaVersion == 1 && x.nodeId != [] && x.bootId != []
              && x.seqNo >= 1 && x.observedAt != 0 && x.expiry > x.observedAt
  {
    BeaconDecodesTo(b, x);
    BeaconBodyDecodes(b, x);
  }

  // -------- enrollments --------

  /** Exactly the six keys of an enrollment, which has no domain. */
  ghost predicate EnrollmentMap(m: StringKeyed, x: Enrollment) {
    && |m| == 6
    && HoldsText(m, "boot_id", x.bootId) && HoldsText(m, "node_id", x.nodeId)
    && HoldsBytes(m, "snp_report", x.snpReport) && |x.snpReport| == 1184
    && HoldsBytes(m, "signer_pubkey", x.signerPubkey) && |x.signerPubkey| == 32
    && HoldsUint(m, "issued_at_unix", x.issuedAt) && x.issuedAt < TWO_64
    && HoldsUint(m, "schema_version", x.schemaVersion) && x.schemaVersion < TWO_16
  }

  lemma EnrollmentReads(m: StringKeyed, x: Enrollment)
    ensures EnrollmentMap(m, x) <==> |m| == 6 && ReadsEight(EnrollmentFields(), EnrollmentVals(x), m, 0)
  {
    TextRead("boot_id", m, x.bootId);
    TextRead("node_id", m, x.nodeId);
    ArrayRead("snp_report", 1184, m, x.snpReport);
    ArrayRead("signer_pubkey", 32, m, x.signerPubkey);
    UintRead("issued_at_unix", TWO_64, m, x.issuedAt);
    UintRead("schema_version", TWO_16, m, x.schemaVersion);
  }

  lemma EnrollmentDecodesTo(b: bytes, x: Enrollment)
    ensures EnrollmentDecode(b) == Some(x) <==> DecodeRecord(EnrollmentFields(), b) == Some(EnrollmentVals(x)) && EnrollmentValid(x)
  {
    EnrollmentCodec(b, x);
    EnrollmentFieldsGood();
    RecordCodec(EnrollmentFields(), b, EnrollmentVals(x));
    if EnrollmentTyped(x) {
      EnrollmentToVals(x);
    } else if Conforms(RecordKind(EnrollmentFields()), RecordVal(EnrollmentVals(x))) {
      EnrollmentTypedFromVals(x);
    }
  }

  lemma EnrollmentTypedFromVals(x: Enrollment)
    requires Conforms(RecordKind(EnrollmentFields()), RecordVal(EnrollmentVals(x)))
    ensures EnrollmentTyped(x)
  {
    assert EnrollmentFromVals(EnrollmentVals(x)) == x;
  }

  /** A body is accepted as the enrollment x exactly when it is such a map, of version 1, with node and boot id and an issue time. */
  lemma EnrollmentAcceptedExactly(b: bytes, x: Enrollment)
    ensures EnrollmentDecode(b) == Some(x) <==>
              && BodyMap(b).Some? && EnrollmentMap(BodyMap(b).value, x)
              && x.schemaVersion == 1 && x.nodeId != [] && x.bootId != [] && x.issuedAt != 0
  {
    EnrollmentDecodesTo(b, x);
    EnrollmentFieldsGood();
    BodyRead(EnrollmentFields(), b, EnrollmentVals(x));
    if BodyMap(b).Some? {
      EnrollmentReads(BodyMap(b).value, x);
    }
  }

  // -------- certificates --------

  /** Exactly the nine keys of a certificate. */
  ghost predicate CertMap(m: StringKeyed, x: Cert) {
    && |m| == 9 && CertMapFront(m, x)
    && HoldsBytes(m, "attestor_pubkey", x.attestorPubkey) && |x.attestorPubkey| == 32
  }

  ghost predicate CertMapFront(m: StringKeyed, x: Cert) {
    && HoldsUint(m, "tcb", x.tcb) && x.tcb < TWO_64
    && HoldsBytes(m, "nonce", x.nonce) && |x.nonce| == 32
    && HoldsText(m, "domain", Ascii("HIPPIUS_HOST_ATTESTOR_CERT_V1"))
    && HoldsBytes(m, "chip_id", x.chipId) && |x.chipId| == 64
    && HoldsText(m, "node_id", x.nodeId)
    && HoldsUint(m, "expiry_unix", x.expiry) && x.expiry < TWO_64
    && HoldsBytes(m, "measurement", x.measurement) && |x.measurement| == 48
    && HoldsUint(m, "schema_version", x.schemaVersion) && x.schemaVersion < TWO_16
  }

  lemma CertFrontReads(m: StringKeyed, x: Cert)
    ensures CertMapFront(m, x) <==> ReadsEight(CertFields(), CertVals(x), m, 0)
  {
    UintRead("tcb", TWO_64, m, x.tcb);
    ArrayRead("nonce", 32, m, x.nonce);
    ConstRead("domain", m, CERT_DOMAIN);
    ArrayRead("chip_id", 64, m, x.chipId);
    TextRead("node_id", m, x.nodeId);
    UintRead("expiry_unix", TWO_64, m, x.expiry);
    ArrayRead("measurement", 48, m, x.measurement);
    UintRead("schema_version", TWO_16, m, x.schemaVersion);
  }

  lemma CertBackReads(m: StringKeyed, x: Cert)
    ensures HoldsBytes(m, "attestor_pubkey", x.attestorPubkey) && |x.attestorPubkey| == 32 <==> ReadsEight(CertFields(), CertVals(x), m, 8)
  {
    ArrayRead("attestor_pubkey", 32, m, x.attestorPubkey);
  }

  lemma CertTypedFromVals(x: Cert)
    requires Conforms(RecordKind(CertFields()), RecordVal(CertVals(x)))
    ensures CertTyped(x)
  {
    CertValsInvert(x);
  }

  lemma CertDecodesTo(b: bytes, x: Cert)
    ensures CertDecode(b) == Some(x) <==> DecodeRecord(CertFields(), b) == Some(CertVals(x)) && CertValid(x)
  {
    CertCodec(b, x);
    CertFieldsGood();
    RecordCodec(CertFields(), b, CertVals(x));
    if CertTyped(x) {
      CertToVals(x);
    } else if Conforms(RecordKind(CertFields()), RecordVal(CertVals(x))) {
      CertTypedFromVals(x);
    }
  }

  /** A body is accepted as the certificate x exactly when it is such a map, of version 1, with a node id and an expiry. */
  lemma CertAcceptedExactly(b: bytes, x: Cert)
    ensures CertDecode(b) == Some(x) <==>
              && BodyMap(b).Some? && CertMap(BodyMap(b).value, x)
              && x.schemaVersion == 1 && x.nodeId != [] && x.expiry != 0
  {
    CertDecodesTo(b, x);
    CertFieldsGood();
    BodyRead(CertFields(), b, CertVals(x));
    if BodyMap(b).Some? {
      CertFrontReads(BodyMap(b).value, x);
      CertBackReads(BodyMap(b).value, x);
    }
  }

  // -------- signed envelopes --------

  /** An envelope is accepted exactly when it is a canonical map with a body and a 64-byte signature and nothing else. */
  lemma EnvelopeAcceptedExactly(b: bytes, x: Envelope)
    ensures EnvelopeDecode(b) == Some(x) <==>
              && BodyMap(b).Some? && |BodyMap(b).value| == 2
              && HoldsBytes(BodyMap(b).value, "body", x.body) && HoldsBytes(BodyMap(b).value, "sig", x.sig) && |x.sig| == 64
  {
    var f, v := EnvelopeFields(), [BytesVal(x.sig), BytesVal(x.body)];
    EnvelopeFieldsGood();
    EnvelopeDecodesTo(b, x);
    BodyRead(f, b, v);
    if BodyMap(b).Some? {
      ArrayRead("sig", 64, BodyMap(b).value, x.sig);
      BytesRead("body", BodyMap(b).value, x.body);
    }
  }

  lemma EnvelopeDecodesTo(b: bytes, x: Envelope)
    ensures EnvelopeDecode(b) == Some(x) <==> DecodeRecord(EnvelopeFields(), b) == Some([BytesVal(x.sig), BytesVal(x.body)])
  {
    EnvelopeFieldsGood();
    RecordCodec(EnvelopeFields(), b, [BytesVal(x.sig), BytesVal(x.body)]);
    EnvelopeCodec(b, x);
    if Conforms(RecordKind(EnvelopeFields()), RecordVal([BytesVal(x.sig), BytesVal(x.body)])) {
      EnvelopeTypedFromVals(x);
    }
    if EnvelopeTyped(x) {
      EnvelopeConforms(x);
    }
  }

  lemma EnvelopeTypedFromVals(x: Envelope)
    requires Conforms(RecordKind(EnvelopeFields()), RecordVal([BytesVal(x.sig), BytesVal(x.body)]))
    ensures EnvelopeTyped(x)
  {
    assert FieldConforms(EnvelopeFields()[0], BytesVal(x.sig)) && FieldConforms(EnvelopeFields()[1], BytesVal(x.body));
  }

  lemma EnvelopeConforms(x: Envelope)
    requires EnvelopeTyped(x)
    ensures Conforms(RecordKind(EnvelopeFields()), RecordVal([BytesVal(x.sig), BytesVal(x.body)]))
  {
  }
}
