/** Which provenance maps and evidence bundles are accepted, key by key. */
module ArtifactReads {
  import opened ByteStrings
  import opened Records
  import opened Lookups
  import P = Provenance
  import E = EvidenceBundle

  // -------- provenance maps --------

  ghost predicate ProvenanceFront(m: StringKeyed, x: P.ProvenanceMap) {
    && HoldsText(m, "domain", Ascii("HIPPIUS_IMAGE_PROVENANCE_V1"))
    && HoldsText(m, "s3_key", x.key) && HoldsText(m, "s3_bucket", x.bucket)
    && HoldsBytes(m, "ovmf_sha256", x.ovmf) && |x.ovmf| == 32
    && HoldsUint(m, "built_at_unix", x.builtAt) && x.builtAt < TWO_64
    && HoldsBytes(m, "initrd_sha256", x.initrd) && |x.initrd| == 32
    && HoldsBytes(m, "kernel_sha256", x.kernel) && |x.kernel| == 32
    && HoldsBytes(m, "signer_pubkey", x.signerPubkey) && |x.signerPubkey| == 32
  }

  ghost predicate ProvenanceBack(m: StringKeyed, x: P.ProvenanceMap) {
    && HoldsBytes(m, "cmdline_sha256", x.cmdline) && |x.cmdline| == 32
    && HoldsUint(m, "schema_version", x.schemaVersion) && x.schemaVersion < TWO_32
    && HoldsBytes(m, "artifact_sha256", x.artifact) && |x.artifact| == 32
    && HoldsText(m, "measurement_kind", x.measurementKind)
    && HoldsBytes(m, "verity_root_hash", x.verityRoot) && |x.verityRoot| == 32
    && (exists config :: HoldsMap(m, "snp_launch_config", config) && ConfigMap(config, x.config))
    && HoldsBytes(m, "launch_measurement", x.launchMeasurement) && |x.launchMeasurement| == 48
  }

  /** Exactly the three keys of the launch configuration. */
  ghost predicate ConfigMap(m: StringKeyed, c: P.LaunchConfig) {
    && |m| == 3 && HoldsUint(m, "vcpus", c.vcpus) && c.vcpus < TWO_32
    && HoldsText(m, "vcpu_type", c.vcpuType) && HoldsText(m, "guest_features", c.guestFeatures)
  }

  function ConfigVals(c: P.LaunchConfig): (xs: seq<FieldValue>) { [UintVal(c.vcpus), TextVal(c.vcpuType), TextVal(c.guestFeatures)] }

  lemma ConfigReads(m: StringKeyed, c: P.LaunchConfig)
    ensures TakeFields(P.ConfigFields(), m) == Some(ConfigVals(c)) <==> ConfigMap(m, c)
  {
    P.ConfigFieldsGood();
    TakenBySize(P.ConfigFields(), m, ConfigVals(c));
    ReadsAll(P.ConfigFields(), ConfigVals(c), m);
    UintRead("vcpus", TWO_32, m, c.vcpus);
    TextRead("vcpu_type", m, c.vcpuType);
    TextRead("guest_features", m, c.guestFeatures);
  }

  lemma ConfigFieldReads(m: StringKeyed, c: P.LaunchConfig)
    ensures TakeField(Field(Ascii("snp_launch_config"), RecordKind(P.ConfigFields())), m) == Some(RecordVal(ConfigVals(c)))
       <==> exists config :: HoldsMap(m, "snp_launch_config", config) && ConfigMap(config, c)
  {
    RecordRead("snp_launch_config", P.ConfigFields(), m, ConfigVals(c));
    forall config ensures TakeFields(P.ConfigFields(), config) == Some(ConfigVals(c)) <==> ConfigMap(config, c) {
      ConfigReads(config, c);
    }
  }

  lemma ProvenanceFrontReads(m: StringKeyed, x: P.ProvenanceMap)
    ensures ProvenanceFront(m, x) <==> ReadsEight(P.Fields(), P.Vals(x), m, 0)
  {
    ConstRead("domain", m, P.PROVENANCE_DOMAIN);
    TextRead("s3_key", m, x.key);
    TextRead("s3_bucket", m, x.bucket);
    ArrayRead("ovmf_sha256", 32, m, x.ovmf);
    UintRead("built_at_unix", TWO_64, m, x.builtAt);
    ArrayRead("initrd_sha256", 32, m, x.initrd);
    ArrayRead("kernel_sha256", 32, m, x.kernel);
    ArrayRead("signer_pubkey", 32, m, x.signerPubkey);
  }

  lemma ProvenanceBackReads(m: StringKeyed, x: P.ProvenanceMap)
    ensures ProvenanceBack(m, x) <==> ReadsEight(P.Fields(), P.Vals(x), m, 8)
  {
    ArrayRead("cmdline_sha256", 32, m, x.cmdline);
    UintRead("schema_version", TWO_32, m, x.schemaVersion);
    ArrayRead("artifact_sha256", 32, m, x.artifact);
    TextRead("measurement_kind", m, x.measurementKind);
    ArrayRead("verity_root_hash", 32, m, x.verityRoot);
    ConfigFieldReads(m, x.config);
    ArrayRead("launch_measurement", 48, m, x.launchMeasurement);
  }

  lemma ProvenanceTypedFromVals(x: P.ProvenanceMap)
    requires Conforms(RecordKind(P.Fields()), RecordVal(P.Vals(x)))
    ensures P.Typed(x)
  {
    P.FromValsTyped(P.Vals(x));
    P.ValsInvert(x);
  }

  lemma ProvenanceDecodesTo(b: bytes, x: P.ProvenanceMap)
    ensures P.DecodeProvenance(b) == Some(x) <==> DecodeRecord(P.Fields(), b) == Some(P.Vals(x)) && P.Valid(x)
  {
    P.ProvenanceCodec(b, x);
    P.FieldsGood();
    RecordCodec(P.Fields(), b, P.Vals(x));
    if P.Typed(x) {
      P.ToVals(x);
    } else if Conforms(RecordKind(P.Fields()), RecordVal(P.Vals(x))) {
      ProvenanceTypedFromVals(x);
    }
  }

  lemma ProvenanceBodyDecodes(b: bytes, x: P.ProvenanceMap)
    ensures DecodeRecord(P.Fields(), b) == Some(P.Vals(x)) <==>
              BodyMap(b).Some? && |BodyMap(b).value| == 15 && ProvenanceFront(BodyMap(b).value, x) && ProvenanceBack(BodyMap(b).value, x)
  {
    P.FieldsGood();
    BodyRead(P.Fields(), b, P.Vals(x));
    if BodyMap(b).Some? {
      ProvenanceFrontReads(BodyMap(b).value, x);
      ProvenanceBackReads(BodyMap(b).value, x);
    }
  }

  /**
   A body is accepted as the provenance map x exactly when it is a canonical map with exactly the fifteen keys holding
   the fields of x, of version 1 and the one known measurement kind, with an object location, a build time, and a launch
   configuration with processors, a processor type and guest features.
   */
  lemma ProvenanceAcceptedExactly(b: bytes, x: P.ProvenanceMap)
    ensures P.DecodeProvenance(b) == Some(x) <==>
              && BodyMap(b).Some? && |BodyMap(b).value| == 15 && ProvenanceFront(BodyMap(b).value, x) && ProvenanceBack(BodyMap(b).value, x)
              && x.schemaVersion == 1 && x.measurementKind == Ascii("snp_launch_digest_v1")
              && x.bucket != [] && x.key != [] && x.builtAt != 0
              && x.config.vcpus != 0 && x.config.vcpuType != [] && x.config.guestFeatures != []
  {
    ProvenanceDecodesTo(b, x);
    ProvenanceBodyDecodes(b, x);
  }

  // -------- evidence bundles --------

  ghost predicate BundleFront(m: StringKeyed, x: E.Bundle) {
    && HoldsText(m, "vm_id", x.vmId) && HoldsText(m, "domain", Ascii("HIPPIUS_EVIDENCE_BUNDLE_V1"))
    && HoldsText(m, "tenant_id", x.tenantId) && HoldsText(m, "ticket_id", x.ticketId)
    && HoldsBytes(m, "measurement", x.measurement) && |x.measurement| == 48
    && HoldsUint(m, "schema_version", x.schemaVersion) && x.schemaVersion < TWO_32
    && HoldsBytes(m, "vcek_chain_pem", x.vcekChain)
    && HoldsUint(m, "allowlist_epoch", x.epoch) && x.epoch < TWO_64
  }

  ghost predicate BundleBack(m: StringKeyed, x: E.Bundle) {
    && HoldsUint(m, "granted_at_unix", x.grantedAt) && x.grantedAt < TWO_64
    && HoldsBytes(m, "snp_report_bytes", x.snpReport)
    && HoldsBytes(m, "kbs_signer_pubkey", x.kbsPubkey) && |x.kbsPubkey| == 32
    && HoldsBytes(m, "ticket_cose_bytes", x.ticketCose)
    && HoldsBytes(m, "allowlist_manifest_digest", x.manifestDigest) && |x.manifestDigest| == 32
  }

  lemma BundleFrontReads(m: StringKeyed, x: E.Bundle)
    ensures BundleFront(m, x) <==> ReadsEight(E.Fields(), E.Vals(x), m, 0)
  {
    TextRead("vm_id", m, x.vmId);
    ConstRead("domain", m, E.BUNDLE_DOMAIN);
    TextRead("tenant_id", m, x.tenantId);
    TextRead("ticket_id", m, x.ticketId);
    ArrayRead("measurement", 48, m, x.measurement);
    UintRead("schema_version", TWO_32, m, x.schemaVersion);
    BytesRead("vcek_chain_pem", m, x.vcekChain);
    UintRead("allowlist_epoch", TWO_64, m, x.epoch);
  }

  lemma BundleBackReads(m: StringKeyed, x: E.Bundle)
    ensures BundleBack(m, x) <==> ReadsEight(E.Fields(), E.Vals(x), m, 8)
  {
    UintRead("granted_at_unix", TWO_64, m, x.grantedAt);
    BytesRead("snp_report_bytes", m, x.snpReport);
    ArrayRead("kbs_signer_pubkey", 32, m, x.kbsPubkey);
    BytesRead("ticket_cose_bytes", m, x.ticketCose);
    ArrayRead("allowlist_manifest_digest", 32, m, x.manifestDigest);
  }

  lemma BundleTypedFromVals(x: E.Bundle)
    requires Conforms(RecordKind(E.Fields()), RecordVal(E.Vals(x)))
    ensures E.Typed(x)
  {
    E.ValsInvert(x);
  }

  lemma BundleDecodesTo(b: bytes, x: E.Bundle)
    ensures E.DecodeBundle(b) == Some(x) <==> |b| <= 32768 && DecodeRecord(E.Fields(), b) == Some(E.Vals(x)) && E.Valid(x)
  {
    E.BundleCodec(b, x);
    E.FieldsGood();
    RecordCodec(E.Fields(), b, E.Vals(x));
    if E.Typed(x) {
      E.ToVals(x);
    } else if Conforms(RecordKind(E.Fields()), RecordVal(E.Vals(x))) {
      BundleTypedFromVals(x);
    }
  }

  lemma BundleBodyDecodes(b: bytes, x: E.Bundle)
    ensures DecodeRecord(E.Fields(), b) == Some(E.Vals(x)) <==>
              BodyMap(b).Some? && |BodyMap(b).value| == 13 && BundleFront(BodyMap(b).value, x) && BundleBack(BodyMap(b).value, x)
  {
    E.FieldsGood();
    BodyRead(E.Fields(), b, E.Vals(x));
    if BodyMap(b).Some? {
      BundleFrontReads(BodyMap(b).value, x);
      BundleBackReads(BodyMap(b).value, x);
    }
  }

  /**
   A body is accepted as the bundle x exactly when it is a canonical map of at most 32 KiB with exactly the thirteen keys
   holding the fields of x, of version 1, with vm, tenant and ticket, a grant time, a report of 1184 to 4096 bytes, and a
   certificate chain and a ticket that are not empty.
   */
  lemma BundleAcceptedExactly(b: bytes, x: E.Bundle)
    ensures E.DecodeBundle(b) == Some(x) <==>
              && |b| <= 32768
              && BodyMap(b).Some? && |BodyMap(b).value| == 13 && BundleFront(BodyMap(b).value, x) && BundleBack(BodyMap(b).value, x)
              && x.schemaVersion == 1 && x.vmId != [] && x.tenantId != [] && x.ticketId != [] && x.grantedAt != 0
              && 1184 <= |x.snpReport| <= 4096 && x.vcekChain != [] && x.ticketCose != []
  {
    BundleDecodesTo(b, x);
    BundleBodyDecodes(b, x);
  }
}
