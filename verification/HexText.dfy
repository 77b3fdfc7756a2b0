/** Hex text as the account-profile pallet reads it. */
module HexText {
  import opened ByteStrings

  predicate IsUpper(c: byte) { 65 <= c <= 90 }

  predicate HexDigit(c: byte) { 48 <= c <= 57 || 97 <= c <= 102 || 65 <= c <= 70 }

  function LowerByte(c: byte): (r: byte) { if IsUpper(c) then c + 32 else c }

  /** ASCII letters to lower case; every other byte as it is. */
  function ToLowercase(s: bytes): (r: bytes)
    ensures |r| == |s|
    ensures forall i :: 0 <= i < |s| ==> !IsUpper(r[i])
  {
    if s == [] then [] else [LowerByte(s[0])] + ToLowercase(s[1..])
  }

  lemma {:induction false} LowercaseFixed(s: bytes)
    requires forall i :: 0 <= i < |s| ==> !IsUpper(s[i])
    ensures ToLowercase(s) == s
  {
    if s != [] {
      LowercaseFixed(s[1..]);
    }
  }

  /** Lower-casing twice is lower-casing once. */
  lemma LowercaseIdempotent(s: bytes)
    ensures ToLowercase(ToLowercase(s)) == ToLowercase(s)
  {
    LowercaseFixed(ToLowercase(s));
  }

  /** Without a leading "0x". */
  function StripPrefix(s: bytes): (r: bytes) {
    if |s| >= 2 && s[0] == 48 && s[1] == 120 then s[2..] else s
  }

  predicate IsValidHex(s: bytes) { forall i :: 0 <= i < |s| ==> HexDigit(s[i]) }

  function Nibble(c: byte): (n: nat)
    requires HexDigit(c)
    ensures n < 16
  {
    if c <= 57 then c - 48 else if c >= 97 then c - 87 else c - 55
  }

  function DecodePairs(s: bytes): (r: bytes)
    requires IsValidHex(s) && |s| % 2 == 0
  {
    if s == [] then [] else [16 * Nibble(s[0]) + Nibble(s[1])] + DecodePairs(s[2..])
  }

  function HexToBytes(s: bytes): (r: Option<bytes>) {
    if !Utf8(s) then None
    else
      var t := StripPrefix(s);
      if t == [] || !IsValidHex(t) || |t| % 2 != 0 then None else Some(DecodePairs(t))
  }

  function Digit(n: nat): (c: byte)
    requires n < 16
  {
    if n < 10 then 48 + n else 87 + n
  }

  /** Two lower-case digits for each byte. */
  function ToHex(b: bytes): (r: bytes)
    ensures |r| == 2 * |b|
  {
    if b == [] then [] else [Digit(b[0] / 16), Digit(b[0] % 16)] + ToHex(b[1..])
  }

  lemma {:induction false} ToHexIsHex(b: bytes)
    ensures IsValidHex(ToHex(b))
  {
    if b != [] {
      ToHexIsHex(b[1..]);
    }
  }

  lemma LowerDigit(c: byte)
    requires HexDigit(c)
    ensures LowerByte(c) == Digit(Nibble(c))
  {
  }

  /** A hex string in any case is, lower-cased, the spelling of exactly one byte string. */
  lemma {:induction false} PairsSpell(s: bytes, b: bytes)
    requires IsValidHex(s) && |s| % 2 == 0
    ensures DecodePairs(s) == b <==> ToLowercase(s) == ToHex(b)
    decreases |s|
  {
    if s != [] {
      var hi, lo, rest := s[0], s[1], s[2..];
      assert s[1..][1..] == rest;
      assert ToLowercase(s) == [LowerByte(hi), LowerByte(lo)] + ToLowercase(rest);
      if b != [] {
        PairsSpell(rest, b[1..]);
        FirstPair(hi, lo, b[0]);
        assert b == [b[0]] + b[1..];
        assert DecodePairs(s)[0] == 16 * Nibble(hi) + Nibble(lo) && DecodePairs(s)[1..] == DecodePairs(rest);
        assert ToLowercase(s)[2..] == ToLowercase(rest) && ToHex(b)[2..] == ToHex(b[1..]);
        assert ToLowercase(s)[0] == LowerByte(hi) && ToLowercase(s)[1] == LowerByte(lo);
        assert ToHex(b)[0] == Digit(b[0] / 16) && ToHex(b)[1] == Digit(b[0] % 16);
        if ToLowercase(rest) == ToHex(b[1..]) && LowerByte(hi) == Digit(b[0] / 16) && LowerByte(lo) == Digit(b[0] % 16) {
          assert ToLowercase(s) == ToHex(b);
        }
      }
    }
  }

  lemma FirstPair(hi: byte, lo: byte, x: byte)
    requires HexDigit(hi) && HexDigit(lo)
    ensures 16 * Nibble(hi) + Nibble(lo) == x <==> LowerByte(hi) == Digit(x / 16) && LowerByte(lo) == Digit(x % 16)
  {
    LowerDigit(hi);
    LowerDigit(lo);
  }

  lemma HexIsUtf8(s: bytes)
    requires IsValidHex(StripPrefix(s))
    ensures Utf8(s)
  {
    AsciiIsUtf8(s);
  }

  /**
   Hex text is accepted as `b` exactly when, without a leading "0x" and lower-cased, it is the non-empty `b`
   spelled two digits a byte: every other text is refused.
   */
  lemma HexAcceptedExactly(s: bytes, b: bytes)
    ensures HexToBytes(s) == Some(b) <==> b != [] && ToLowercase(StripPrefix(s)) == ToHex(b)
  {
    var t := StripPrefix(s);
    if b != [] && ToLowercase(t) == ToHex(b) {
      ToHexIsHex(b);
      forall i | 0 <= i < |t| ensures HexDigit(t[i]) {
        LowercaseAt(t, i);
        assert ToHex(b)[i] == LowerByte(t[i]);
      }
      HexIsUtf8(s);
    }
    if IsValidHex(t) && |t| % 2 == 0 {
      PairsSpell(t, b);
    }
  }

  lemma {:induction false} LowercaseAt(s: bytes, i: nat)
    requires i < |s|
    ensures ToLowercase(s)[i] == LowerByte(s[i])
  {
    if i > 0 {
      LowercaseAt(s[1..], i - 1);
    }
  }

  /** Round trip, with or without the prefix. */
  lemma HexRoundTrip(b: bytes)
    requires b != []
    ensures HexToBytes(ToHex(b)) == Some(b) && HexToBytes([48, 120] + ToHex(b)) == Some(b)
  {
    ToHexIsHex(b);
    LowercaseToHex(b);
    assert HexDigit(ToHex(b)[1]);
    assert StripPrefix(ToHex(b)) == ToHex(b);
    assert StripPrefix([48, 120] + ToHex(b)) == ToHex(b);
    HexAcceptedExactly(ToHex(b), b);
    HexAcceptedExactly([48, 120] + ToHex(b), b);
  }

  lemma LowercaseToHex(b: bytes)
    ensures ToLowercase(ToHex(b)) == ToHex(b)
  {
    NoUpper(b);
    LowercaseFixed(ToHex(b));
  }

  lemma {:induction false} NoUpper(b: bytes)
    ensures forall i :: 0 <= i < |ToHex(b)| ==> !IsUpper(ToHex(b)[i])
  {
    if b != [] {
      NoUpper(b[1..]);
    }
  }
}
