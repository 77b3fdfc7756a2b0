/** Messages between the key broker service and the Vault broker. */
module VaultBroker {
  import opened ByteStrings
  import opened Cbor
  import opened Records
  import opened HostAttestor
  import opened ScopePaths

  const MAX_BODY_LEN: nat := 16 * 1024
  const MAX_VEK_DER_LEN: nat := 8192
  const MAX_VAULT_TOKEN_LEN: nat := 1024
  const MIN_REPORT_LEN: nat := 1184
  const MAX_REPORT_LEN: nat := 4096

  datatype Scope = Scope(
    vmId: bytes, luksPath: bytes, luksVersion: nat, userdataPath: bytes, userdataVersion: nat,
    lifecyclePath: Option<bytes>, lifecycleVersion: Option<nat>)

  ghost predicate ScopeTyped(s: Scope) {
    && IsString(s.vmId) && IsString(s.luksPath) && IsString(s.userdataPath)
    && s.luksVersion < TWO_64 && s.userdataVersion < TWO_64
    && (s.lifecyclePath.Some? ==> IsString(s.lifecyclePath.value))
    && (s.lifecycleVersion.Some? ==> s.lifecycleVersion.value < TWO_64)
  }

  /** `[a-z0-9-]` */
  predicate VmByte(b: byte) { 97 <= b < 123 || 48 <= b < 58 || b == 45 }

  predicate ScopeValid(s: Scope) {
    && 1 <= |s.vmId| <= 64 && (forall i :: 0 <= i < |s.vmId| ==> VmByte(s.vmId[i]))
    && ValidPath(s.luksPath, s.vmId, LUKS_SEGMENT)
    && ValidPath(s.userdataPath, s.vmId, USERDATA_SEGMENT)
    && (match (s.lifecyclePath, s.lifecycleVersion)
        case (Some(p), Some(_)) => p != [] && ValidPath(p, s.vmId, LIFECYCLE_SEGMENT)
        case (None, None) => true
        case _ => false)
  }

  // -------- what a scope authorises --------

  /** The paths a minted token may read. */
  function Paths(s: Scope): (ps: seq<bytes>) {
    [s.luksPath, s.userdataPath] + (if s.lifecyclePath.Some? then [s.lifecyclePath.value] else [])
  }

  function SegmentAt(i: nat): (seg: bytes) {
    if i == 0 then LUKS_SEGMENT else if i == 1 then USERDATA_SEGMENT else LIFECYCLE_SEGMENT
  }

  lemma PathBound(s: Scope, i: nat)
    requires ScopeValid(s) && i < |Paths(s)|
    ensures ValidPath(Paths(s)[i], s.vmId, SegmentAt(i))
  {
  }

  lemma SegmentsDiffer(i: nat, j: nat)
    requires i < j < 3
    ensures SegmentAt(i) != SegmentAt(j)
  {
    assert |LUKS_SEGMENT| == 8 && |USERDATA_SEGMENT| == 8 && |LIFECYCLE_SEGMENT| == 13;
    assert LUKS_SEGMENT[0] != USERDATA_SEGMENT[0];
  }

  /** Accepted scopes of different VMs share no path, and the paths of one scope are pairwise different. */
  lemma ScopesSeparate(s: Scope, t: Scope)
    requires ScopeValid(s) && ScopeValid(t)
    ensures s.vmId != t.vmId ==>
              forall i, j :: 0 <= i < |Paths(s)| && 0 <= j < |Paths(t)| ==> TrimSlashes(Paths(s)[i]) != TrimSlashes(Paths(t)[j])
    ensures forall i, j :: 0 <= i < j < |Paths(s)| ==> TrimSlashes(Paths(s)[i]) != TrimSlashes(Paths(s)[j])
  {
    forall i, j | s.vmId != t.vmId && 0 <= i < |Paths(s)| && 0 <= j < |Paths(t)|
      ensures TrimSlashes(Paths(s)[i]) != TrimSlashes(Paths(t)[j])
    {
      PathBound(s, i);
      PathBound(t, j);
      PathsSeparate(Paths(s)[i], s.vmId, SegmentAt(i), Paths(t)[j], t.vmId, SegmentAt(j));
    }
    forall i, j | 0 <= i < j < |Paths(s)| ensures TrimSlashes(Paths(s)[i]) != TrimSlashes(Paths(s)[j]) {
      PathBound(s, i);
      PathBound(s, j);
      SegmentsDiffer(i, j);
      PathsSeparate(Paths(s)[i], s.vmId, SegmentAt(i), Paths(s)[j], s.vmId, SegmentAt(j));
    }
  }

  // -------- the scope on the wire --------

  /** The keys a scope is encoded with: the lifecycle pair only when it is set. */
  function ScopeFields(lifecycle: bool): (f: seq<Field>) {
    if lifecycle then
      [Field(Ascii("vm_id"), TextKind), Field(Ascii("luks_path"), TextKind), Field(Ascii("luks_version"), UintKind(TWO_64)),
       Field(Ascii("userdata_path"), TextKind), Field(Ascii("lifecycle_path"), TextKind),
       Field(Ascii("userdata_version"), UintKind(TWO_64)), Field(Ascii("lifecycle_version"), UintKind(TWO_64))]
    else
      [Field(Ascii("vm_id"), TextKind), Field(Ascii("luks_path"), TextKind), Field(Ascii("luks_version"), UintKind(TWO_64)),
       Field(Ascii("userdata_path"), TextKind), Field(Ascii("userdata_version"), UintKind(TWO_64))]
  }

  predicate HasLifecycle(s: Scope) { s.lifecyclePath.Some? && s.lifecycleVersion.Some? }

  function ScopeVals(s: Scope): (xs: seq<FieldValue>) {
    if HasLifecycle(s) then
      [TextVal(s.vmId), TextVal(s.luksPath), UintVal(s.luksVersion), TextVal(s.userdataPath),
       TextVal(s.lifecyclePath.value), UintVal(s.userdataVersion), UintVal(s.lifecycleVersion.value)]
    else
      [TextVal(s.vmId), TextVal(s.luksPath), UintVal(s.luksVersion), TextVal(s.userdataPath), UintVal(s.userdataVersion)]
  }

  function GetText(m: map<bytes, Value>, name: bytes): (r: Option<bytes>) {
    if name in m && m[name].Text? then Some(m[name].t) else None
  }

  function GetUint(m: map<bytes, Value>, name: bytes): (r: Option<nat>) {
    if name in m && m[name].Int? && 0 <= m[name].i < TWO_64 then Some(m[name].i) else None
  }

  function ReadScope(m: map<bytes, Value>): (r: Option<Scope>) {
    var path, version := Ascii("lifecycle_path"), Ascii("lifecycle_version");
    if (path in m && GetText(m, path).None?) || (version in m && GetUint(m, version).None?) then None
    else
      match (GetText(m, Ascii("vm_id")), GetText(m, Ascii("luks_path")), GetUint(m, Ascii("luks_version")),
             GetText(m, Ascii("userdata_path")), GetUint(m, Ascii("userdata_version")))
      case (Some(vm), Some(lp), Some(lv), Some(up), Some(uv)) =>
        Some(Scope(vm, lp, lv, up, uv, GetText(m, path), GetUint(m, version)))
      case _ => None
  }

  /** `from_map`: reads the keys it knows, ignores any other key, then validates. */
  function ScopeFromMap(m: map<bytes, Value>): (r: Option<Scope>) {
    match ReadScope(m)
    case None => None
    case Some(s) => if ScopeValid(s) then Some(s) else None
  }

  lemma ScopeNamesAscend(lifecycle: bool)
    ensures NamesAscend(ScopeFields(lifecycle))
  {
  }

  lemma ScopeFieldsGood(lifecycle: bool)
    ensures GoodKind(RecordKind(ScopeFields(lifecycle)))
  {
    assert DistinctNames(ScopeFields(lifecycle)) by {
      ScopeNamesAscend(lifecycle);
      AscendingNamesDistinct(ScopeFields(lifecycle));
    }
  }

  /** The keys `from_map` knows. */
  function KnownKeys(): (ks: set<bytes>) {
    {Ascii("vm_id"), Ascii("luks_path"), Ascii("luks_version"), Ascii("userdata_path"), Ascii("lifecycle_path"),
     Ascii("userdata_version"), Ascii("lifecycle_version")}
  }

  lemma ScopeNames(lifecycle: bool)
    ensures Names(ScopeFields(lifecycle)) ==
            if lifecycle then KnownKeys() else KnownKeys() - {Ascii("lifecycle_path"), Ascii("lifecycle_version")}
  {
    var f := ScopeFields(lifecycle);
    assert f[0].name in Names(f) && f[1].name in Names(f) && f[2].name in Names(f) && f[3].name in Names(f) && f[4].name in Names(f);
    if lifecycle {
      assert f[5].name in Names(f) && f[6].name in Names(f);
    }
  }

  predicate PairComplete(s: Scope) { s.lifecyclePath.Some? == s.lifecycleVersion.Some? }

  lemma ReadPlain(s: Scope, m: map<bytes, Value>)
    requires PairComplete(s) && !HasLifecycle(s)
    ensures ReadScope(m) == Some(s) && m.Keys <= KnownKeys() <==> Taken(ScopeFields(false), m, ScopeVals(s))
  {
    var f, xs := ScopeFields(false), ScopeVals(s);
    ScopeNames(false);
    if Taken(f, m, xs) {
      assert TakeField(f[0], m) == Some(xs[0]) && TakeField(f[1], m) == Some(xs[1]) && TakeField(f[2], m) == Some(xs[2]);
      assert TakeField(f[3], m) == Some(xs[3]) && TakeField(f[4], m) == Some(xs[4]);
    }
    if ReadScope(m) == Some(s) && m.Keys <= KnownKeys() {
      assert m.Keys == Names(f);
    }
  }

  lemma ReadWithLifecycle(s: Scope, m: map<bytes, Value>)
    requires HasLifecycle(s)
    ensures ReadScope(m) == Some(s) && m.Keys <= KnownKeys() <==> Taken(ScopeFields(true), m, ScopeVals(s))
  {
    if Taken(ScopeFields(true), m, ScopeVals(s)) {
      TakenReads(s, m);
    }
    if ReadScope(m) == Some(s) && m.Keys <= KnownKeys() {
      ReadIsTaken(s, m);
    }
  }

  lemma TakenReads(s: Scope, m: map<bytes, Value>)
    requires HasLifecycle(s) && Taken(ScopeFields(true), m, ScopeVals(s))
    ensures ReadScope(m) == Some(s) && m.Keys <= KnownKeys()
  {
    var f, xs := ScopeFields(true), ScopeVals(s);
    ScopeNames(true);
    assert TakeField(f[0], m) == Some(xs[0]) && TakeField(f[1], m) == Some(xs[1]) && TakeField(f[2], m) == Some(xs[2]);
    assert TakeField(f[3], m) == Some(xs[3]) && TakeField(f[4], m) == Some(xs[4]);
    assert TakeField(f[5], m) == Some(xs[5]) && TakeField(f[6], m) == Some(xs[6]);
  }

  lemma ReadIsTaken(s: Scope, m: map<bytes, Value>)
    requires HasLifecycle(s) && ReadScope(m) == Some(s) && m.Keys <= KnownKeys()
    ensures Taken(ScopeFields(true), m, ScopeVals(s))
  {
    ScopeNames(true);
    assert m.Keys == Names(ScopeFields(true));
  }

  /** The lenient reader and the strict one agree exactly on maps without unknown keys. */
  lemma LenientIsStrict(s: Scope, m: map<bytes, Value>)
    requires ScopeValid(s)
    ensures ScopeFromMap(m) == Some(s) && m.Keys <= KnownKeys()
       <==> TakeFields(ScopeFields(HasLifecycle(s)), m) == Some(ScopeVals(s))
  {
    ScopeFieldsGood(HasLifecycle(s));
    TakeFieldsExactly(ScopeFields(HasLifecycle(s)), m, ScopeVals(s));
    if HasLifecycle(s) { ReadWithLifecycle(s, m); } else { ReadPlain(s, m); }
  }
}
