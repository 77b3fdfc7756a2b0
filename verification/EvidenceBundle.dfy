/** The evidence bundle a key broker signs per granted release: bounded report, capped body. */
module EvidenceBundle {
  import opened ByteStrings
  import opened Records
  import opened HostAttestor

  const BUNDLE_VERSION: nat := 1
  const BUNDLE_DOMAIN := Ascii("HIPPIUS_EVIDENCE_BUNDLE_V1")
  const MIN_SNP_REPORT_LEN: nat := 1184
  const MAX_SNP_REPORT_LEN: nat := 4096
  const MAX_BUNDLE_BODY_LEN: nat := 32 * 1024

  datatype Bundle = Bundle(
    schemaVersion: nat, vmId: bytes, tenantId: bytes, ticketId: bytes, grantedAt: nat, measurement: bytes,
    epoch: nat, manifestDigest: bytes, snpReport: bytes, vcekChain: bytes, ticketCose: bytes, kbsPubkey: bytes)

  ghost predicate Typed(x: Bundle) {
    && x.schemaVersion < TWO_32 && x.grantedAt < TWO_64 && x.epoch < TWO_64
    && IsString(x.vmId) && IsString(x.tenantId) && IsString(x.ticketId)
    && |x.measurement| == MEASUREMENT_LEN && |x.manifestDigest| == DIGEST_LEN && |x.kbsPubkey| == PUBKEY_LEN
    && |x.snpReport| < TWO_64 && |x.vcekChain| < TWO_64 && |x.ticketCose| < TWO_64
  }

  predicate Valid(x: Bundle) {
    && x.schemaVersion == BUNDLE_VERSION && x.vmId != [] && x.tenantId != [] && x.ticketId != []
    && x.grantedAt != 0 && MIN_SNP_REPORT_LEN <= |x.snpReport| <= MAX_SNP_REPORT_LEN
    && x.vcekChain != [] && x.ticketCose != []
  }

  function Fields(): (f: seq<Field>) {
    [Field(Ascii("vm_id"), TextKind),
     Field(Ascii("domain"), ConstKind(BUNDLE_DOMAIN)),
     Field(Ascii("tenant_id"), TextKind),
     Field(Ascii("ticket_id"), TextKind),
     Field(Ascii("measurement"), ArrayKind(MEASUREMENT_LEN)),
     Field(Ascii("schema_version"), UintKind(TWO_32)),
     Field(Ascii("vcek_chain_pem"), BytesKind),
     Field(Ascii("allowlist_epoch"), UintKind(TWO_64)),
     Field(Ascii("granted_at_unix"), UintKind(TWO_64)),
     Field(Ascii("snp_report_bytes"), BytesKind),
     Field(Ascii("kbs_signer_pubkey"), ArrayKind(PUBKEY_LEN)),
     Field(Ascii("ticket_cose_bytes"), BytesKind),
     Field(Ascii("allowlist_manifest_digest"), ArrayKind(DIGEST_LEN))]
  }

  function Vals(x: Bundle): (xs: seq<FieldValue>) {
    [TextVal(x.vmId), ConstVal, TextVal(x.tenantId), TextVal(x.ticketId), BytesVal(x.measurement),
     UintVal(x.schemaVersion), BytesVal(x.vcekChain), UintVal(x.epoch), UintVal(x.grantedAt), BytesVal(x.snpReport),
     BytesVal(x.kbsPubkey), BytesVal(x.ticketCose), BytesVal(x.manifestDigest)]
  }

  function FromVals(xs: seq<FieldValue>): (x: Bundle)
    requires Conforms(RecordKind(Fields()), RecordVal(xs))
    ensures Typed(x)
  {
    Bundle(xs[5].n, xs[0].t, xs[2].t, xs[3].t, xs[8].n, xs[4].b, xs[7].n, xs[12].b, xs[9].b, xs[6].b, xs[11].b, xs[10].b)
  }

  lemma FromValsInverts(xs: seq<FieldValue>)
    requires Conforms(RecordKind(Fields()), RecordVal(xs))
    ensures Vals(FromVals(xs)) == xs
  {
    assert xs[1] == ConstVal;
  }

  lemma ValsInvert(x: Bundle)
    requires Conforms(RecordKind(Fields()), RecordVal(Vals(x)))
    ensures FromVals(Vals(x)) == x
  {
  }

  lemma ToVals(x: Bundle)
    requires Typed(x)
    ensures Conforms(RecordKind(Fields()), RecordVal(Vals(x)))
  {
  }

  lemma FieldNames()
    ensures NamesAscend(Fields())
  {
    LiteralOrder("tenant_id", "ticket_id", 1);
    FirstLetter("schema_version", "vcek_chain_pem");
    FirstLetter("allowlist_epoch", "granted_at_unix");
    FirstLetter("kbs_signer_pubkey", "ticket_cose_bytes");
  }

  lemma FieldsGood()
    ensures GoodKind(RecordKind(Fields()))
  {
    assert DistinctNames(Fields()) by {
      FieldNames();
      AscendingNamesDistinct(Fields());
    }
  }

  /** Encoding fails on an invalid bundle and on one whose body would exceed the cap. */
  function CanonicalBytes(x: Bundle): (r: Option<bytes>)
    requires Typed(x)
    ensures r.Some? ==> |r.value| <= MAX_BUNDLE_BODY_LEN
  {
    ToVals(x);
    if !Valid(x) then None
    else
      match EncodeRecord(Fields(), Vals(x))
      case None => None
      case Some(b) => if |b| > MAX_BUNDLE_BODY_LEN then None else Some(b)
  }

  function DecodeBundle(b: bytes): (r: Option<Bundle>) {
    if |b| > MAX_BUNDLE_BODY_LEN then None
    else
      match DecodeRecord(Fields(), b)
      case None => None
      case Some(xs) =>
        FieldsGood();
        RecordCodec(Fields(), b, xs);
        var x := FromVals(xs);
        if Valid(x) then Some(x) else None
  }

  lemma CanonicalOf(x: Bundle, xs: seq<FieldValue>, b: bytes)
    requires Typed(x) && Valid(x) && Vals(x) == xs && |b| <= MAX_BUNDLE_BODY_LEN
    requires Conforms(RecordKind(Fields()), RecordVal(xs)) && EncodeRecord(Fields(), xs) == Some(b)
    ensures CanonicalBytes(x) == Some(b)
  {
  }

  lemma BundleReencodes(b: bytes)
    requires DecodeBundle(b).Some?
    ensures Typed(DecodeBundle(b).value) && CanonicalBytes(DecodeBundle(b).value) == Some(b)
  {
    var xs := DecodeRecord(Fields(), b).value;
    FieldsGood();
    RecordCodec(Fields(), b, xs);
    FromValsInverts(xs);
    CanonicalOf(FromVals(xs), xs, b);
  }

  lemma EncodedDecodes(x: Bundle, xs: seq<FieldValue>, b: bytes)
    requires Valid(x) && |b| <= MAX_BUNDLE_BODY_LEN && Conforms(RecordKind(Fields()), RecordVal(xs))
    requires FromVals(xs) == x && EncodeRecord(Fields(), xs) == Some(b)
    ensures DecodeBundle(b) == Some(x)
  {
    FieldsGood();
    RecordCodec(Fields(), b, xs);
  }

  lemma BundleDecodes(x: Bundle, b: bytes)
    requires Typed(x) && CanonicalBytes(x) == Some(b)
    ensures DecodeBundle(b) == Some(x)
  {
    ToVals(x);
    ValsInvert(x);
    EncodedDecodes(x, Vals(x), b);
  }

  /** Bounds, ranges, cap and all: a body decodes to x exactly when encoding the valid x yields that body. */
  lemma BundleCodec(b: bytes, x: Bundle)
    ensures DecodeBundle(b) == Some(x) <==> Typed(x) && Valid(x) && CanonicalBytes(x) == Some(b)
  {
    if DecodeBundle(b) == Some(x) {
      BundleReencodes(b);
    }
    if Typed(x) && CanonicalBytes(x) == Some(b) {
      BundleDecodes(x, b);
    }
  }
}
