/**
 * UTF-8 as Python's `str.encode('utf8')` and strict `bytes.decode('utf8')`
 * apply it (RFC 3629): a character becomes one to four bytes, and decoding
 * refuses overlong forms, surrogates and code points above U+10FFFF.
 */
module Utf8 {
  import opened Wrappers
  import opened PyLib

  /** A continuation byte, 10xxxxxx. */
  predicate IsCont(b: byte) { 0x80 <= b < 0xC0 }

  /** The bytes of one character. */
  function EncodeChar(c: char): (r: seq<byte>)
    ensures 1 <= |r| <= 4
  {
    var n := c as int;
    if n < 0x80 then [n]
    else if n < 0x800 then [0xC0 + n / 64, 0x80 + n % 64]
    else if n < 0x1_0000 then [0xE0 + n / 4096, 0x80 + (n / 64) % 64, 0x80 + n % 64]
    else [0xF0 + n / 262144, 0x80 + (n / 4096) % 64, 0x80 + (n / 64) % 64, 0x80 + n % 64]
  }

  /** `s.encode('utf8')`. */
  function Encode(s: string): seq<byte> {
    if s == [] then [] else EncodeChar(s[0]) + Encode(s[1..])
  }

  /** A code point that a Dafny `char` (a Unicode scalar value) can hold. */
  predicate IsScalar(n: int) { 0 <= n < 0xD800 || 0xE000 <= n < 0x11_0000 }

  /** Decodes the character at the front of `b` and says how many bytes it took. */
  function DecodeFirst(b: seq<byte>): (r: Option<(char, nat)>)
    requires |b| > 0
    ensures r.Some? ==> 1 <= r.value.1 <= |b|
  {
    var b0: int := b[0];
    if b0 < 0x80 then Some((b0 as char, 1))
    else if 0xC2 <= b0 < 0xE0 then
      if |b| >= 2 && IsCont(b[1]) then
        var n := (b0 - 0xC0) * 64 + (b[1] as int - 0x80);
        assert 0x80 <= n < 0x800;
        Some((n as char, 2))
      else None
    else if 0xE0 <= b0 < 0xF0 then
      var lo := if b0 == 0xE0 then 0xA0 else 0x80;
      var hi := if b0 == 0xED then 0xA0 else 0xC0;
      if |b| >= 3 && lo <= b[1] < hi && IsCont(b[2]) then
        var n := (b0 - 0xE0) * 4096 + (b[1] as int - 0x80) * 64 + (b[2] as int - 0x80);
        assert IsScalar(n);
        Some((n as char, 3))
      else None
    else if 0xF0 <= b0 < 0xF5 then
      var lo := if b0 == 0xF0 then 0x90 else 0x80;
      var hi := if b0 == 0xF4 then 0x90 else 0xC0;
      if |b| >= 4 && lo <= b[1] < hi && IsCont(b[2]) && IsCont(b[3]) then
        var n := (b0 - 0xF0) * 262144 + (b[1] as int - 0x80) * 4096 + (b[2] as int - 0x80) * 64 + (b[3] as int - 0x80);
        assert IsScalar(n);
        Some((n as char, 4))
      else None
    else None
  }

  /** `b.decode('utf8')`; None where Python raises UnicodeDecodeError. */
  function Decode(b: seq<byte>): Option<string>
    decreases |b|
  {
    if b == [] then Some([])
    else match DecodeFirst(b)
      case None => None
      case Some((c, k)) =>
        match Decode(b[k..])
        case None => None
        case Some(rest) => Some([c] + rest)
  }

  /** Decoding reads back the character that was encoded, whatever follows it. */
  lemma DecodeFirstEncodeChar(c: char, rest: seq<byte>)
    ensures DecodeFirst(EncodeChar(c) + rest) == Some((c, |EncodeChar(c)|))
  {
    var n := c as int;
    if n < 0x80 {
    } else if n < 0x800 {
      DecodeTwo(c, rest);
    } else if n < 0x1_0000 {
      DecodeThree(c, rest);
    } else {
      DecodeFour(c, rest);
    }
  }

  lemma DecodeTwo(c: char, rest: seq<byte>)
    requires 0x80 <= c as int < 0x800
    ensures DecodeFirst(EncodeChar(c) + rest) == Some((c, 2))
  {
    var n := c as int;
    var b := EncodeChar(c) + rest;
    assert b[0] == 0xC0 + n / 64 && b[1] == 0x80 + n % 64;
    assert (n / 64) * 64 + n % 64 == n;
  }

  lemma DecodeThree(c: char, rest: seq<byte>)
    requires 0x800 <= c as int < 0x1_0000
    ensures DecodeFirst(EncodeChar(c) + rest) == Some((c, 3))
  {
    var n := c as int;
    var b := EncodeChar(c) + rest;
    var q, m, r := n / 4096, (n / 64) % 64, n % 64;
    assert n == q * 4096 + m * 64 + r;
    assert b[0] == 0xE0 + q && b[1] == 0x80 + m && b[2] == 0x80 + r;
    assert q == 0 ==> m >= 32;
    assert q == 13 ==> m < 32;
  }

  /** The base-64 digits of a four-byte code point. */
  lemma FourDigits(n: int)
    requires 0x1_0000 <= n < 0x11_0000
    ensures var q, m1, m2, r := n / 262144, (n / 4096) % 64, (n / 64) % 64, n % 64;
      && n == q * 262144 + m1 * 4096 + m2 * 64 + r
      && 0 <= q <= 4 && 0 <= m1 < 64 && 0 <= m2 < 64 && 0 <= r < 64
      && (q == 0 ==> m1 >= 16)
      && (q == 4 ==> m1 < 16)
  {
    var q, t := n / 262144, n % 262144;
    assert n == q * 262144 + t;
    assert n / 4096 == q * 64 + t / 4096;
    assert (n / 4096) % 64 == t / 4096;
    var u := t % 4096;
    assert t == (t / 4096) * 4096 + u;
    assert n / 64 == q * 4096 + (t / 4096) * 64 + u / 64;
    assert (n / 64) % 64 == u / 64;
  }

  lemma DecodeFour(c: char, rest: seq<byte>)
    requires 0x1_0000 <= c as int
    ensures DecodeFirst(EncodeChar(c) + rest) == Some((c, 4))
  {
    var n := c as int;
    assert n < 0x11_0000;
    FourDigits(n);
    var b := EncodeChar(c) + rest;
    var q, m1, m2, r := n / 262144, (n / 4096) % 64, (n / 64) % 64, n % 64;
    assert b[0] == 0xF0 + q && b[1] == 0x80 + m1 && b[2] == 0x80 + m2 && b[3] == 0x80 + r;
  }

  /** Round trip: strict decoding inverts encoding on every string. */
  lemma {:induction false} DecodeEncode(s: string)
    ensures Decode(Encode(s)) == Some(s)
  {
    if s != [] {
      var e := EncodeChar(s[0]);
      DecodeFirstEncodeChar(s[0], Encode(s[1..]));
      assert (e + Encode(s[1..]))[|e|..] == Encode(s[1..]);
      DecodeEncode(s[1..]);
      assert [s[0]] + s[1..] == s;
    }
  }

  /** An ASCII string encodes to its own code points, one byte each. */
  lemma {:induction false} EncodeAscii(s: string)
    requires forall i :: 0 <= i < |s| ==> s[i] as int < 0x80
    ensures |Encode(s)| == |s|
    ensures forall i :: 0 <= i < |s| ==> Encode(s)[i] == s[i] as int
  {
    if s != [] {
      EncodeAscii(s[1..]);
      assert Encode(s) == [s[0] as int] + Encode(s[1..]);
    }
  }

  /** Encoding is injective, so distinct names never share their bytes. */
  lemma EncodeInjective(s: string, t: string)
    requires Encode(s) == Encode(t)
    ensures s == t
  {
    DecodeEncode(s);
    DecodeEncode(t);
  }
}
