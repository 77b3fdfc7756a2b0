/** Byte strings: fixed-width integers in both byte orders, lexicographic order, and UTF-8. */
module ByteStrings {
  type byte = n: int | 0 <= n < 256
  type bytes = seq<byte>

  datatype Option<+T> = None | Some(value: T)

  const TWO_16: int := 0x1_0000
  const TWO_32: int := 0x1_0000_0000
  const TWO_64: int := 0x1_0000_0000_0000_0000
  const TWO_128: int := 0x1_0000_0000_0000_0000_0000_0000_0000_0000

  /** A 32-byte account id. */
  type AccountId = a: bytes | |a| == 32 witness [0, 0, 0, 0, 0, 0, 0, 0, 0, 0, 0, 0, 0, 0, 0, 0, 0, 0, 0, 0, 0, 0, 0, 0, 0, 0, 0, 0, 0, 0, 0, 0]

  /** What a hash function returns; nothing is assumed of its form. */
  type Hash = bytes

  // -------- fixed-width integers --------

  ghost function Pow256(k: nat): nat { if k == 0 then 1 else 256 * Pow256(k - 1) }

  lemma Pow256Widths()
    ensures Pow256(1) == 256 && Pow256(2) == TWO_16 && Pow256(4) == TWO_32
    ensures Pow256(8) == TWO_64 && Pow256(16) == TWO_128
  {
    assert Pow256(8) == TWO_64;
    assert Pow256(16) == TWO_128;
  }

  /** The low k bytes of n, most significant first (`to_be_bytes`). */
  function BigEndian(n: nat, k: nat): (s: bytes)
    ensures |s| == k
  {
    if k == 0 then [] else BigEndian(n / 256, k - 1) + [n % 256]
  }

  function FromBigEndian(s: bytes): (n: nat) {
    if s == [] then 0 else 256 * FromBigEndian(s[..|s| - 1]) + s[|s| - 1]
  }

  lemma {:induction false} FromBigEndianBound(s: bytes)
    ensures FromBigEndian(s) < Pow256(|s|)
  {
    if s != [] { FromBigEndianBound(s[..|s| - 1]); }
  }

  lemma {:induction false} BigEndianRoundTrip(n: nat, k: nat)
    requires n < Pow256(k)
    ensures FromBigEndian(BigEndian(n, k)) == n
  {
    if k != 0 {
      BigEndianRoundTrip(n / 256, k - 1);
      assert BigEndian(n, k)[..k - 1] == BigEndian(n / 256, k - 1);
    }
  }

  lemma {:induction false} FromBigEndianRoundTrip(s: bytes)
    ensures BigEndian(FromBigEndian(s), |s|) == s
  {
    if s != [] {
      FromBigEndianRoundTrip(s[..|s| - 1]);
      assert s == s[..|s| - 1] + [s[|s| - 1]];
    }
  }

  /** The low k bytes of n, least significant first (`to_le_bytes`). */
  function LittleEndian(n: nat, k: nat): (s: bytes)
    ensures |s| == k
  {
    if k == 0 then [] else [n % 256] + LittleEndian(n / 256, k - 1)
  }

  function FromLittleEndian(s: bytes): (n: nat) {
    if s == [] then 0 else s[0] + 256 * FromLittleEndian(s[1..])
  }

  lemma {:induction false} LittleEndianReads(s: bytes)
    ensures LittleEndian(FromLittleEndian(s), |s|) == s && FromLittleEndian(s) < Pow256(|s|)
  {
    if s != [] {
      LittleEndianReads(s[1..]);
      assert FromLittleEndian(s) % 256 == s[0] && FromLittleEndian(s) / 256 == FromLittleEndian(s[1..]);
    }
  }

  lemma {:induction false} LittleEndianInjective(m: nat, n: nat, k: nat)
    requires m < Pow256(k) && n < Pow256(k)
    requires LittleEndian(m, k) == LittleEndian(n, k)
    ensures m == n
  {
    if k != 0 {
      assert LittleEndian(m, k)[1..] == LittleEndian(m / 256, k - 1);
      assert LittleEndian(n, k)[1..] == LittleEndian(n / 256, k - 1);
      LittleEndianInjective(m / 256, n / 256, k - 1);
      assert LittleEndian(m, k)[0] == m % 256 && LittleEndian(n, k)[0] == n % 256;
    }
  }

  /** `FromLittleEndian` undoes `LittleEndian`. */
  lemma LittleEndianValue(m: nat, k: nat)
    requires m < Pow256(k)
    ensures FromLittleEndian(LittleEndian(m, k)) == m
  {
    LittleEndianReads(LittleEndian(m, k));
    LittleEndianInjective(FromLittleEndian(LittleEndian(m, k)), m, k);
  }

  // -------- cutting --------

  lemma SplitAt(p: bytes, x: bytes, q: bytes, y: bytes)
    requires |p| == |q| && p + x == q + y
    ensures p == q && x == y
  {
    assert p == (p + x)[..|p|] && q == (q + y)[..|q|];
    assert x == (p + x)[|p|..] && y == (q + y)[|q|..];
  }

  lemma ConcatAssoc(a: bytes, b: bytes, c: bytes)
    ensures a + b + c == a + (b + c)
  {
  }

  // -------- lexicographic order --------

  /** `a < b` for Rust byte slices. */
  predicate LexLess(a: bytes, b: bytes) {
    b != [] && (a == [] || a[0] < b[0] || (a[0] == b[0] && LexLess(a[1..], b[1..])))
  }

  lemma {:induction false} LexTrichotomy(a: bytes, b: bytes)
    ensures a == b || LexLess(a, b) || LexLess(b, a)
    ensures !(LexLess(a, b) && LexLess(b, a))
    ensures a == b ==> !LexLess(a, b)
  {
    if a != [] && b != [] {
      LexTrichotomy(a[1..], b[1..]);
      if a[0] == b[0] && a[1..] == b[1..] {
        assert a == [a[0]] + a[1..] == [b[0]] + b[1..] == b;
      }
    }
  }

  lemma {:induction false} LexTransitive(a: bytes, b: bytes, c: bytes)
    requires LexLess(a, b) && LexLess(b, c)
    ensures LexLess(a, c)
  {
    if a != [] && a[0] == b[0] && b[0] == c[0] {
      LexTransitive(a[1..], b[1..], c[1..]);
    }
  }

  /** A common prefix does not affect the order. */
  lemma {:induction false} LexPrefix(p: bytes, a: bytes, b: bytes)
    ensures LexLess(p + a, p + b) == LexLess(a, b)
  {
    if p == [] {
      assert p + a == a && p + b == b;
    } else {
      assert (p + a)[1..] == p[1..] + a && (p + b)[1..] == p[1..] + b;
      LexPrefix(p[1..], a, b);
    }
  }

  /** Different prefixes of one length decide the order, whatever follows. */
  lemma {:induction false} LexDecidedByPrefix(p: bytes, q: bytes, a: bytes, b: bytes)
    requires |p| == |q| && LexLess(p, q)
    ensures LexLess(p + a, q + b)
  {
    assert (p + a)[1..] == p[1..] + a && (q + b)[1..] == q[1..] + b;
    if p[0] == q[0] {
      LexDecidedByPrefix(p[1..], q[1..], a, b);
    }
  }

  /** Big-endian strings of one width are ordered as the numbers they hold. */
  lemma {:induction false} BigEndianMonotone(m: nat, n: nat, k: nat)
    requires m < n < Pow256(k)
    ensures LexLess(BigEndian(m, k), BigEndian(n, k))
  {
    var p, q := BigEndian(m / 256, k - 1), BigEndian(n / 256, k - 1);
    if m / 256 < n / 256 {
      BigEndianMonotone(m / 256, n / 256, k - 1);
      LexDecidedByPrefix(p, q, [m % 256], [n % 256]);
    } else {
      assert p == q && m % 256 < n % 256;
      LexPrefix(p, [m % 256], [n % 256]);
    }
  }

  /** Shorter first, then bytewise: the order of text keys. */
  predicate ShortLex(a: bytes, b: bytes) {
    |a| < |b| || (|a| == |b| && LexLess(a, b))
  }

  // -------- UTF-8 --------

  predicate Continuation(b: byte) { 0x80 <= b < 0xC0 }

  /** Length of the well-formed UTF-8 sequence at the front of s, or 0. */
  function Utf8Front(s: bytes): (n: nat)
    ensures n <= |s| && n <= 4
  {
    if |s| >= 1 && s[0] < 0x80 then 1
    else if |s| >= 2 && 0xC2 <= s[0] < 0xE0 && Continuation(s[1]) then 2
    else if |s| >= 3 && 0xE0 <= s[0] < 0xF0 && Continuation(s[1]) && Continuation(s[2])
            && (s[0] == 0xE0 ==> s[1] >= 0xA0) && (s[0] == 0xED ==> s[1] < 0xA0) then 3
    else if |s| >= 4 && 0xF0 <= s[0] < 0xF5 && Continuation(s[1]) && Continuation(s[2]) && Continuation(s[3])
            && (s[0] == 0xF0 ==> s[1] >= 0x90) && (s[0] == 0xF4 ==> s[1] < 0x90) then 4
    else 0
  }

  /** s is the content of some Rust `String`. */
  predicate Utf8(s: bytes) {
    s == [] || (Utf8Front(s) > 0 && Utf8(s[Utf8Front(s)..]))
  }

  lemma {:induction false} AsciiIsUtf8(s: bytes)
    requires AsciiOnly(s)
    ensures Utf8(s)
  {
    if s != [] { AsciiIsUtf8(s[1..]); }
  }

  /** The bytes of an ASCII literal. */
  function Ascii(s: string): (r: bytes)
    ensures |r| == |s| && AsciiOnly(r)
  {
    seq(|s|, i requires 0 <= i < |s| => if s[i] < 128 as char then s[i] as int else 63)
  }

  ghost predicate AsciiOnly(s: bytes) { forall i :: 0 <= i < |s| ==> s[i] < 128 }

  /** Two literals of one length are ordered by the first character in which they differ. */
  lemma LiteralOrder(a: string, b: string, k: nat)
    requires |a| == |b| && k < |a| && a[..k] == b[..k] && a[k] < b[k] < 128 as char
    ensures ShortLex(Ascii(a), Ascii(b))
  {
    var x, y := Ascii(a), Ascii(b);
    forall i | 0 <= i < k ensures x[i] == y[i] {
      assert a[..k][i] == b[..k][i];
    }
    assert x[..k] == y[..k];
    assert x == x[..k] + x[k..] && y == y[..k] + y[k..];
    LexPrefix(x[..k], x[k..], y[k..]);
  }

  lemma FirstLetter(a: string, b: string)
    requires |a| == |b| > 0 && a[0] < b[0] < 128 as char
    ensures ShortLex(Ascii(a), Ascii(b))
  {
  }

  lemma {:induction false} ShortLexTransitive(a: bytes, b: bytes, c: bytes)
    requires ShortLex(a, b) && ShortLex(b, c)
    ensures ShortLex(a, c)
  {
    if |a| == |b| == |c| { LexTransitive(a, b, c); }
  }
}
