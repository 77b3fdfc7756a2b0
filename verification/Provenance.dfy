/** The signed image-provenance map, with its nested launch configuration. */
module Provenance {
  import opened ByteStrings
  import opened Canonical
  import opened Records
  import opened RecordLoops
  import opened HostAttestor

  const PROVENANCE_VERSION: nat := 1
  const MEASUREMENT_KIND_SNP := Ascii("snp_launch_digest_v1")
  const PROVENANCE_DOMAIN := Ascii("HIPPIUS_IMAGE_PROVENANCE_V1")
  const LAUNCH_MEASUREMENT_LEN: nat := 48
  const SHA256_LEN: nat := 32

  datatype LaunchConfig = LaunchConfig(vcpus: nat, vcpuType: bytes, guestFeatures: bytes)

  datatype ProvenanceMap = ProvenanceMap(
    schemaVersion: nat, measurementKind: bytes, launchMeasurement: bytes, artifact: bytes, verityRoot: bytes,
    kernel: bytes, initrd: bytes, cmdline: bytes, ovmf: bytes, config: LaunchConfig, bucket: bytes, key: bytes,
    builtAt: nat, signerPubkey: bytes)

  ghost predicate Typed(x: ProvenanceMap) {
    && x.schemaVersion < TWO_32 && x.builtAt < TWO_64 && x.config.vcpus < TWO_32
    && |x.launchMeasurement| == LAUNCH_MEASUREMENT_LEN && |x.artifact| == SHA256_LEN && |x.verityRoot| == SHA256_LEN
    && |x.kernel| == SHA256_LEN && |x.initrd| == SHA256_LEN && |x.cmdline| == SHA256_LEN && |x.ovmf| == SHA256_LEN
    && |x.signerPubkey| == SHA256_LEN
    && IsString(x.measurementKind) && IsString(x.bucket) && IsString(x.key)
    && IsString(x.config.vcpuType) && IsString(x.config.guestFeatures)
  }

  predicate Valid(x: ProvenanceMap) {
    && x.schemaVersion == PROVENANCE_VERSION && x.measurementKind == MEASUREMENT_KIND_SNP
    && x.bucket != [] && x.key != [] && x.builtAt != 0
    && x.config.vcpus != 0 && x.config.vcpuType != [] && x.config.guestFeatures != []
  }

  function ConfigFields(): (f: seq<Field>) {
    [Field(Ascii("vcpus"), UintKind(TWO_32)),
     Field(Ascii("vcpu_type"), TextKind),
     Field(Ascii("guest_features"), TextKind)]
  }

  function Fields(): (f: seq<Field>) {
    [Field(Ascii("domain"), ConstKind(PROVENANCE_DOMAIN)),
     Field(Ascii("s3_key"), TextKind),
     Field(Ascii("s3_bucket"), TextKind),
     Field(Ascii("ovmf_sha256"), ArrayKind(SHA256_LEN)),
     Field(Ascii("built_at_unix"), UintKind(TWO_64)),
     Field(Ascii("initrd_sha256"), ArrayKind(SHA256_LEN)),
     Field(Ascii("kernel_sha256"), ArrayKind(SHA256_LEN)),
     Field(Ascii("signer_pubkey"), ArrayKind(SHA256_LEN)),
     Field(Ascii("cmdline_sha256"), ArrayKind(SHA256_LEN)),
     Field(Ascii("schema_version"), UintKind(TWO_32)),
     Field(Ascii("artifact_sha256"), ArrayKind(SHA256_LEN)),
     Field(Ascii("measurement_kind"), TextKind),
     Field(Ascii("verity_root_hash"), ArrayKind(SHA256_LEN)),
     Field(Ascii("snp_launch_config"), RecordKind(ConfigFields())),
     Field(Ascii("launch_measurement"), ArrayKind(LAUNCH_MEASUREMENT_LEN))]
  }

  function Vals(x: ProvenanceMap): (xs: seq<FieldValue>) {
    [ConstVal, TextVal(x.key), TextVal(x.bucket), BytesVal(x.ovmf), UintVal(x.builtAt), BytesVal(x.initrd),
     BytesVal(x.kernel), BytesVal(x.signerPubkey), BytesVal(x.cmdline), UintVal(x.schemaVersion),
     BytesVal(x.artifact), TextVal(x.measurementKind), BytesVal(x.verityRoot),
     RecordVal([UintVal(x.config.vcpus), TextVal(x.config.vcpuType), TextVal(x.config.guestFeatures)]),
     BytesVal(x.launchMeasurement)]
  }

  /** The values carry what their fields ask for. */
  predicate Shape(xs: seq<FieldValue>) { |xs| == 15 && Front(xs) && Back(xs) }

  predicate Front(xs: seq<FieldValue>)
    requires |xs| == 15
  {
    && xs[0].ConstVal? && xs[1].TextVal? && xs[2].TextVal? && xs[3].BytesVal? && xs[4].UintVal?
    && xs[5].BytesVal? && xs[6].BytesVal? && xs[7].BytesVal?
  }

  predicate Back(xs: seq<FieldValue>)
    requires |xs| == 15
  {
    && xs[8].BytesVal? && xs[9].UintVal? && xs[10].BytesVal? && xs[11].TextVal? && xs[12].BytesVal?
    && xs[13].RecordVal? && ConfigShape(xs[13].vals) && xs[14].BytesVal?
  }

  predicate ConfigShape(xs: seq<FieldValue>) {
    |xs| == 3 && xs[0].UintVal? && xs[1].TextVal? && xs[2].TextVal?
  }

  function FromVals(xs: seq<FieldValue>): (x: ProvenanceMap)
    requires Shape(xs)
  {
    var c := xs[13].vals;
    ProvenanceMap(xs[9].n, xs[11].t, xs[14].b, xs[10].b, xs[12].b, xs[6].b, xs[5].b, xs[8].b, xs[3].b,
                  LaunchConfig(c[0].n, c[1].t, c[2].t), xs[2].t, xs[1].t, xs[4].n, xs[7].b)
  }

  lemma FromValsTyped(xs: seq<FieldValue>)
    requires Conforms(RecordKind(Fields()), RecordVal(xs))
    ensures Shape(xs) && Typed(FromVals(xs))
  {
    FrontConforms(xs);
    BackConforms(xs);
  }

  lemma FrontConforms(xs: seq<FieldValue>)
    requires Conforms(RecordKind(Fields()), RecordVal(xs))
    ensures |xs| == 15 && Front(xs)
    ensures IsString(xs[1].t) && IsString(xs[2].t) && |xs[3].b| == SHA256_LEN && xs[4].n < TWO_64
    ensures |xs[5].b| == SHA256_LEN && |xs[6].b| == SHA256_LEN && |xs[7].b| == SHA256_LEN
  {
    var f := Fields();
    assert FieldConforms(f[0], xs[0]) && FieldConforms(f[1], xs[1]) && FieldConforms(f[2], xs[2]) && FieldConforms(f[3], xs[3]);
    assert FieldConforms(f[4], xs[4]) && FieldConforms(f[5], xs[5]) && FieldConforms(f[6], xs[6]) && FieldConforms(f[7], xs[7]);
  }

  lemma BackConforms(xs: seq<FieldValue>)
    requires Conforms(RecordKind(Fields()), RecordVal(xs))
    ensures |xs| == 15 && Back(xs)
    ensures |xs[8].b| == SHA256_LEN && xs[9].n < TWO_32 && |xs[10].b| == SHA256_LEN && IsString(xs[11].t)
    ensures |xs[12].b| == SHA256_LEN && |xs[14].b| == LAUNCH_MEASUREMENT_LEN
    ensures xs[13].vals[0].n < TWO_32 && IsString(xs[13].vals[1].t) && IsString(xs[13].vals[2].t)
  {
    var f := Fields();
    assert FieldConforms(f[13], xs[13]);
    ConfigShaped(xs[13]);
    assert FieldConforms(f[8], xs[8]) && FieldConforms(f[9], xs[9]) && FieldConforms(f[10], xs[10]) && FieldConforms(f[11], xs[11]);
    assert FieldConforms(f[12], xs[12]) && FieldConforms(f[14], xs[14]);
  }

  lemma ConfigShaped(v: FieldValue)
    requires Conforms(RecordKind(ConfigFields()), v)
    ensures v.RecordVal? && ConfigShape(v.vals)
    ensures v.vals[0].n < TWO_32 && IsString(v.vals[1].t) && IsString(v.vals[2].t)
  {
  }

  lemma FromValsInverts(xs: seq<FieldValue>)
    requires Shape(xs)
    ensures Vals(FromVals(xs)) == xs
  {
    var c := xs[13].vals;
    assert c == [UintVal(c[0].n), TextVal(c[1].t), TextVal(c[2].t)];
  }

  lemma ValsInvert(x: ProvenanceMap)
    ensures Shape(Vals(x)) && FromVals(Vals(x)) == x
  {
  }

  lemma ToVals(x: ProvenanceMap)
    requires Typed(x)
    ensures Conforms(RecordKind(Fields()), RecordVal(Vals(x)))
  {
  }

  lemma FieldNames()
    ensures NamesAscend(Fields())
  {
    FirstLetter("domain", "s3_key");
    FirstLetter("built_at_unix", "initrd_sha256");
    FirstLetter("initrd_sha256", "kernel_sha256");
    FirstLetter("kernel_sha256", "signer_pubkey");
    FirstLetter("cmdline_sha256", "schema_version");
    FirstLetter("measurement_kind", "verity_root_hash");
  }

  lemma ConfigFieldsGood()
    ensures GoodKind(RecordKind(ConfigFields()))
  {
    AscendingNamesDistinct(ConfigFields());
  }

  lemma FieldsGood()
    ensures GoodKind(RecordKind(Fields()))
  {
    ConfigFieldsGood();
    assert DistinctNames(Fields()) by {
      FieldNames();
      AscendingNamesDistinct(Fields());
    }
  }

  function CanonicalBytes(x: ProvenanceMap): (r: Option<bytes>)
    requires Typed(x)
  {
    ToVals(x);
    if Valid(x) then EncodeRecord(Fields(), Vals(x)) else None
  }

  function DecodeProvenance(b: bytes): (r: Option<ProvenanceMap>) {
    match DecodeRecord(Fields(), b)
    case None => None
    case Some(xs) =>
      FieldsGood();
      RecordCodec(Fields(), b, xs);
      FromValsTyped(xs);
      var x := FromVals(xs);
      if Valid(x) then Some(x) else None
  }

  lemma CanonicalOf(x: ProvenanceMap, xs: seq<FieldValue>, b: bytes)
    requires Typed(x) && Valid(x) && Vals(x) == xs
    requires Conforms(RecordKind(Fields()), RecordVal(xs)) && EncodeRecord(Fields(), xs) == Some(b)
    ensures CanonicalBytes(x) == Some(b)
  {
  }

  lemma ProvenanceReencodes(b: bytes)
    requires DecodeProvenance(b).Some?
    ensures Typed(DecodeProvenance(b).value) && CanonicalBytes(DecodeProvenance(b).value) == Some(b)
  {
    var xs := DecodeRecord(Fields(), b).value;
    FieldsGood();
    RecordCodec(Fields(), b, xs);
    FromValsTyped(xs);
    FromValsInverts(xs);
    CanonicalOf(FromVals(xs), xs, b);
  }

  lemma ProvenanceDecodes(x: ProvenanceMap, b: bytes)
    requires Typed(x) && CanonicalBytes(x) == Some(b)
    ensures DecodeProvenance(b) == Some(x)
  {
    FieldsGood();
    ToVals(x);
    RecordCodec(Fields(), b, Vals(x));
    ValsInvert(x);
  }

  lemma ProvenanceCodec(b: bytes, x: ProvenanceMap)
    ensures DecodeProvenance(b) == Some(x) <==> Typed(x) && Valid(x) && CanonicalBytes(x) == Some(b)
  {
    if DecodeProvenance(b) == Some(x) {
      ProvenanceReencodes(b);
    }
    if Typed(x) && CanonicalBytes(x) == Some(b) {
      ProvenanceDecodes(x, b);
    }
  }

  /** The decoder as it runs, with inserts that do not look for duplicates: the gate makes that safe. */
  method Decode(b: bytes) returns (r: Option<ProvenanceMap>)
    ensures r == DecodeProvenance(b)
  {
    FieldsGood();
    var xs := DecodeBody(Fields(), b, false);
    if xs.None? { return None; }
    RecordCodec(Fields(), b, xs.value);
    FromValsTyped(xs.value);
    var x := FromVals(xs.value);
    r := if Valid(x) then Some(x) else None;
  }
}
