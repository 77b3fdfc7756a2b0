/** Signed bodies of different schemes never coincide. */
module Separation {
  import opened ByteStrings
  import opened Records
  import H = HostAttestor
  import P = Provenance
  import E = EvidenceBundle

  datatype Scheme = BeaconBody | CertBody | EnrollmentBody | ProvenanceBody | BundleBody

  function SchemeFields(s: Scheme): (f: seq<Field>) {
    match s
    case BeaconBody => H.BeaconFields()
    case CertBody => H.CertFields()
    case EnrollmentBody => H.EnrollmentFields()
    case ProvenanceBody => P.Fields()
    case BundleBody => E.Fields()
  }

  /** The body decoder of the scheme accepts b. */
  predicate Accepts(s: Scheme, b: bytes) {
    match s
    case BeaconBody => H.BeaconDecode(b).Some?
    case CertBody => H.CertDecode(b).Some?
    case EnrollmentBody => H.EnrollmentDecode(b).Some?
    case ProvenanceBody => P.DecodeProvenance(b).Some?
    case BundleBody => E.DecodeBundle(b).Some?
  }

  function Domain(s: Scheme): (d: bytes) {
    match s
    case BeaconBody => H.BEACON_DOMAIN
    case CertBody => H.CERT_DOMAIN
    case EnrollmentBody => []
    case ProvenanceBody => P.PROVENANCE_DOMAIN
    case BundleBody => E.BUNDLE_DOMAIN
  }

  lemma SchemeGood(s: Scheme)
    ensures DistinctNames(SchemeFields(s))
  {
    match s
    case BeaconBody => H.BeaconFieldsGood();
    case CertBody => H.CertFieldsGood();
    case EnrollmentBody => H.EnrollmentFieldsGood();
    case ProvenanceBody => P.FieldsGood();
    case BundleBody => E.FieldsGood();
  }

  /** Position of the domain field. */
  function DomainIndex(s: Scheme): (i: nat) {
    match s
    case ProvenanceBody => 0
    case BundleBody => 1
    case _ => 2
  }

  lemma DomainField(s: Scheme)
    requires s != EnrollmentBody
    ensures DomainIndex(s) < |SchemeFields(s)|
    ensures SchemeFields(s)[DomainIndex(s)] == Field(Ascii("domain"), ConstKind(Domain(s)))
  {
  }

  lemma NoDomainInEnrollment()
    ensures Ascii("domain") !in Names(H.EnrollmentFields())
  {
    var f := H.EnrollmentFields();
    forall i | 0 <= i < |f| ensures f[i].name != Ascii("domain") {
      assert |f[i].name| != 6;
    }
  }

  lemma DomainsDiffer(s: Scheme, t: Scheme)
    requires s != t
    ensures Domain(s) != Domain(t)
  {
    assert |Domain(BeaconBody)| == 31 && |Domain(CertBody)| == 29 && |Domain(ProvenanceBody)| == 27;
    assert |Domain(BundleBody)| == 26 && |Domain(EnrollmentBody)| == 0;
  }

  lemma EnrollmentSeparated(s: Scheme)
    requires s != EnrollmentBody
    ensures Names(SchemeFields(s)) != Names(SchemeFields(EnrollmentBody))
  {
    NoDomainInEnrollment();
    DomainField(s);
    assert SchemeFields(s)[DomainIndex(s)].name in Names(SchemeFields(s));
  }

  lemma DomainsSeparated(s: Scheme, t: Scheme)
    requires s != t && s != EnrollmentBody && t != EnrollmentBody
    ensures Separated(SchemeFields(s), SchemeFields(t))
  {
    DomainField(s);
    DomainField(t);
    DomainsDiffer(s, t);
    SeparatedAt(SchemeFields(s), SchemeFields(t), DomainIndex(s), DomainIndex(t));
  }

  lemma SeparatedAt(f: seq<Field>, g: seq<Field>, i: nat, j: nat)
    requires i < |f| && j < |g| && f[i].name == g[j].name
    requires f[i].kind.ConstKind? && g[j].kind.ConstKind? && f[i].kind.text != g[j].kind.text
    ensures Separated(f, g)
  {
  }

  lemma SchemesSeparated(s: Scheme, t: Scheme)
    requires s != t
    ensures Separated(SchemeFields(s), SchemeFields(t))
  {
    if s == EnrollmentBody {
      EnrollmentSeparated(t);
    } else if t == EnrollmentBody {
      EnrollmentSeparated(s);
    } else {
      DomainsSeparated(s, t);
    }
  }

  /** No byte string is accepted by two different body decoders. */
  lemma BodiesNeverCoincide(s: Scheme, t: Scheme, b: bytes)
    requires s != t
    ensures !(Accepts(s, b) && Accepts(t, b))
  {
    SchemesSeparated(s, t);
    SchemeGood(s);
    SchemeGood(t);
    SeparatedSchemasShareNothing(SchemeFields(s), SchemeFields(t), b);
    AcceptsOnlySchemeRecords(s, b);
    AcceptsOnlySchemeRecords(t, b);
  }

  lemma AcceptsOnlySchemeRecords(s: Scheme, b: bytes)
    ensures Accepts(s, b) ==> DecodeRecord(SchemeFields(s), b).Some?
  {
  }
}
