/** Vault paths a broker scope may carry: bound to one tenant VM and one secret. */
module ScopePaths {
  import opened ByteStrings

  const SLASH: byte := 47
  const TENANTS := Ascii("tenants")
  const LUKS_SEGMENT := Ascii("luks-kek")
  const USERDATA_SEGMENT := Ascii("userdata")
  const LIFECYCLE_SEGMENT := Ascii("lifecycle-key")

  /** `trim_start_matches('/')` */
  function TrimSlashes(p: bytes): (r: bytes) {
    if p != [] && p[0] == SLASH then TrimSlashes(p[1..]) else p
  }

  predicate AlphaNumeric(b: byte) { 48 <= b < 58 || 65 <= b < 91 || 97 <= b < 123 }

  /** ASCII alphanumerics and `. _ - /`. */
  predicate PathByte(b: byte) { AlphaNumeric(b) || b == 46 || b == 95 || b == 45 || b == SLASH }

  predicate AllPathBytes(p: bytes) { forall i :: 0 <= i < |p| ==> PathByte(p[i]) }

  predicate SlashFree(s: bytes) { forall i :: 0 <= i < |s| ==> s[i] != SLASH }

  /** `split('/')` */
  function Split(s: bytes): (r: seq<bytes>)
    ensures |r| >= 1
  {
    if s == [] then [[]]
    else
      var r := Split(s[1..]);
      if s[0] == SLASH then [[]] + r else [[s[0]] + r[0]] + r[1..]
  }

  function Join(segs: seq<bytes>): (s: bytes)
    requires |segs| >= 1
  {
    if |segs| == 1 then segs[0] else segs[0] + [SLASH] + Join(segs[1..])
  }

  predicate BadSegment(s: bytes) { s == [] || s == [46] || s == [46, 46] }

  /** What `rsplit('/')` yields as its k-th item, or the empty string past its end. */
  function FromEnd(segs: seq<bytes>, k: nat): (s: bytes) {
    if k < |segs| then segs[|segs| - 1 - k] else []
  }

  predicate ValidPath(path: bytes, vm: bytes, segment: bytes) {
    var p := TrimSlashes(path);
    var segs := Split(p);
    && p != []
    && AllPathBytes(p)
    && (forall i :: 0 <= i < |segs| ==> !BadSegment(segs[i]))
    && FromEnd(segs, 0) == segment && FromEnd(segs, 1) == vm && FromEnd(segs, 2) == TENANTS
  }

  /** `validate_scope_path`, stepping through the segments from the last. */
  method ValidateScopePath(path: bytes, vm: bytes, segment: bytes) returns (ok: bool)
    ensures ok <==> ValidPath(path, vm, segment)
  {
    var p := path;
    while p != [] && p[0] == SLASH
      invariant TrimSlashes(p) == TrimSlashes(path)
      decreases |p|
    {
      p := p[1..];
    }
    assert p == TrimSlashes(path);
    if p == [] { return false; }
    for i := 0 to |p|
      invariant forall k :: 0 <= k < i ==> PathByte(p[k])
    {
      if !PathByte(p[i]) { return false; }
    }
    var segs := Split(p);
    for i := 0 to |segs|
      invariant forall k :: 0 <= k < i ==> !BadSegment(segs[k])
    {
      if BadSegment(segs[i]) { return false; }
    }
    var remaining := segs;
    var last, mid, pre: bytes := [], [], [];
    if remaining != [] { last := remaining[|remaining| - 1]; remaining := remaining[..|remaining| - 1]; }
    if remaining != [] { mid := remaining[|remaining| - 1]; remaining := remaining[..|remaining| - 1]; }
    if remaining != [] { pre := remaining[|remaining| - 1]; }
    assert last == FromEnd(segs, 0) && mid == FromEnd(segs, 1) && pre == FromEnd(segs, 2);
    ok := last == segment && mid == vm && pre == TENANTS;
  }

  // -------- splitting and joining are inverse --------

  lemma {:induction false} JoinSplit(s: bytes)
    ensures Join(Split(s)) == s
  {
    if s != [] {
      JoinSplit(s[1..]);
      var r := Split(s[1..]);
      if s[0] != SLASH && |r| > 1 {
        assert Split(s)[1..] == r[1..];
        assert [s[0]] + r[0] + [SLASH] + Join(r[1..]) == [s[0]] + Join(r);
      }
      if s[0] == SLASH {
        assert Split(s)[1..] == r;
      }
    }
  }

  lemma {:induction false} SplitSlashFree(s: bytes)
    ensures forall i :: 0 <= i < |Split(s)| ==> SlashFree(Split(s)[i])
  {
    if s != [] { SplitSlashFree(s[1..]); }
  }

  lemma {:induction false} SplitSegment(a: bytes)
    requires SlashFree(a)
    ensures Split(a) == [a]
  {
    if a != [] {
      SplitSegment(a[1..]);
      assert [a[0]] + a[1..] == a;
    }
  }

  lemma {:induction false} SplitFirst(a: bytes, rest: bytes)
    requires SlashFree(a)
    ensures Split(a + [SLASH] + rest) == [a] + Split(rest)
  {
    var s := a + [SLASH] + rest;
    if a == [] {
      assert s[1..] == rest;
    } else {
      SplitFirst(a[1..], rest);
      assert s[1..] == a[1..] + [SLASH] + rest;
      assert [a[0]] + a[1..] == a;
    }
  }

  lemma {:induction false} SplitJoin(segs: seq<bytes>)
    requires |segs| >= 1 && forall i :: 0 <= i < |segs| ==> SlashFree(segs[i])
    ensures Split(Join(segs)) == segs
  {
    if |segs| == 1 {
      SplitSegment(segs[0]);
    } else {
      SplitJoin(segs[1..]);
      SplitFirst(segs[0], Join(segs[1..]));
      assert [segs[0]] + segs[1..] == segs;
    }
  }

  // -------- which paths are accepted --------

  predicate LegalSegment(s: bytes) { !BadSegment(s) && SlashFree(s) && AllPathBytes(s) }

  /** A letter, a digit, a dot, an underscore or a hyphen. */
  predicate SegmentByte(b: byte) {
    || 'a' as int <= b <= 'z' as int || 'A' as int <= b <= 'Z' as int || '0' as int <= b <= '9' as int
    || b == '.' as int || b == '_' as int || b == '-' as int
  }

  /** The legal segments: some of those bytes, but neither one dot nor two. */
  lemma LegalSegmentExactly(s: bytes)
    ensures LegalSegment(s) <==> s != [] && (forall i :: 0 <= i < |s| ==> SegmentByte(s[i])) && s != Ascii(".") && s != Ascii("..")
  {
    assert Ascii(".") == [46] && Ascii("..") == [46, 46];
    if forall i :: 0 <= i < |s| ==> SegmentByte(s[i]) {
      assert forall i :: 0 <= i < |s| ==> PathByte(s[i]);
    }
  }

  lemma {:induction false} TrimmedHead(p: bytes)
    ensures TrimSlashes(p) != [] ==> TrimSlashes(p)[0] != SLASH
  {
    if p != [] && p[0] == SLASH { TrimmedHead(p[1..]); }
  }

  lemma {:induction false} JoinBytes(segs: seq<bytes>)
    requires |segs| >= 1
    ensures AllPathBytes(Join(segs)) <==> forall i :: 0 <= i < |segs| ==> AllPathBytes(segs[i])
  {
    if |segs| > 1 {
      JoinBytes(segs[1..]);
      var a, rest := segs[0], Join(segs[1..]);
      PathBytesConcat(a, rest);
      assert segs == [segs[0]] + segs[1..];
    }
  }

  lemma PathBytesConcat(a: bytes, b: bytes)
    ensures AllPathBytes(a + [SLASH] + b) <==> AllPathBytes(a) && AllPathBytes(b)
  {
    var s := a + [SLASH] + b;
    if AllPathBytes(s) {
      forall i | 0 <= i < |a| ensures PathByte(a[i]) { assert s[i] == a[i]; }
      forall i | 0 <= i < |b| ensures PathByte(b[i]) { assert s[|a| + 1 + i] == b[i]; }
    }
  }

  /** The trimmed path is legal segments ending in tenants/<vm>/<segment>. */
  ghost predicate EndsBound(path: bytes, vm: bytes, segment: bytes) {
    exists prefix: seq<bytes> ::
      (forall i :: 0 <= i < |prefix| ==> LegalSegment(prefix[i]))
      && TrimSlashes(path) == Join(prefix + [TENANTS, vm, segment])
  }

  /** Acceptance, described by the shape of the path: for a legal vm and segment, both directions. */
  lemma AcceptedExactly(path: bytes, vm: bytes, segment: bytes)
    requires LegalSegment(vm) && LegalSegment(segment)
    ensures ValidPath(path, vm, segment) <==> EndsBound(path, vm, segment)
  {
    if ValidPath(path, vm, segment) {
      AcceptedEndsBound(path, vm, segment);
    }
    if prefix: seq<bytes> :|
      (forall i :: 0 <= i < |prefix| ==> LegalSegment(prefix[i]))
      && TrimSlashes(path) == Join(prefix + [TENANTS, vm, segment])
    {
      TenantsLegal();
      BoundAccepted(path, vm, segment, prefix + [TENANTS, vm, segment]);
    }
  }

  lemma TenantsLegal()
    ensures LegalSegment(TENANTS)
  {
    assert |TENANTS| == 7;
  }

  lemma AcceptedEndsBound(path: bytes, vm: bytes, segment: bytes)
    requires ValidPath(path, vm, segment)
    ensures EndsBound(path, vm, segment)
  {
    var p := TrimSlashes(path);
    var segs := Split(p);
    JoinSplit(p);
    SplitSlashFree(p);
    JoinBytes(segs);
    var n := LastThree(segs, vm, segment);
    var prefix := segs[..n];
    forall i | 0 <= i < |prefix| ensures LegalSegment(prefix[i]) {
      assert prefix[i] == segs[i];
    }
    assert segs == prefix + [TENANTS, vm, segment];
  }

  lemma LastThree(segs: seq<bytes>, vm: bytes, segment: bytes) returns (n: nat)
    requires forall i :: 0 <= i < |segs| ==> !BadSegment(segs[i])
    requires FromEnd(segs, 0) == segment && FromEnd(segs, 1) == vm && FromEnd(segs, 2) == TENANTS
    ensures n + 3 == |segs| && segs[n] == TENANTS && segs[n + 1] == vm && segs[n + 2] == segment
  {
    assert |TENANTS| == 7;
    n := |segs| - 3;
  }

  lemma BoundAccepted(path: bytes, vm: bytes, segment: bytes, segs: seq<bytes>)
    requires |segs| >= 3 && segs[|segs| - 3..] == [TENANTS, vm, segment]
    requires forall i :: 0 <= i < |segs| ==> LegalSegment(segs[i])
    requires TrimSlashes(path) == Join(segs)
    ensures ValidPath(path, vm, segment)
  {
    SplitJoin(segs);
    JoinBytes(segs);
    var tail := segs[|segs| - 3..];
    assert segs[|segs| - 1] == tail[2] && segs[|segs| - 2] == tail[1] && segs[|segs| - 3] == tail[0];
    assert Join(segs) != [] by { assert segs[0] != []; }
  }

  /** Different VMs, or different secrets, never share a path, even after leading slashes are stripped. */
  lemma PathsSeparate(p: bytes, vm: bytes, segment: bytes, q: bytes, vm': bytes, segment': bytes)
    requires ValidPath(p, vm, segment) && ValidPath(q, vm', segment')
    requires vm != vm' || segment != segment'
    ensures TrimSlashes(p) != TrimSlashes(q) && p != q
  {
  }
}
