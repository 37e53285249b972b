/**
 * Base64 as Python's `base64` module applies it (RFC 4648): encoding with the
 * standard alphabet (section 4) or the URL- and filename-safe alphabet
 * (section 5), and the non-validating decoder behind `base64.b64decode` and
 * `base64.urlsafe_b64decode`, written as the character-by-character state
 * machine of CPython 3.11's `binascii.a2b_base64` with strict mode off:
 * characters outside the alphabet are skipped, a `=` ends the input once it
 * completes a quantum, and a quantum left incomplete is an error.
 */
module Base64 {
  import opened Wrappers
  import opened PyLib

  datatype Alphabet = Standard | UrlSafe

  /** The character for the 6-bit value `v`. */
  function Symbol(a: Alphabet, v: int): (c: char)
    requires 0 <= v < 64
  {
    if v < 26 then ('A' as int + v) as char
    else if v < 52 then ('a' as int + v - 26) as char
    else if v < 62 then ('0' as int + v - 52) as char
    else if v == 62 then (if a == Standard then '+' else '-')
    else (if a == Standard then '/' else '_')
  }

  /** The 6-bit value of `c` in the standard alphabet, or -1 when `c` is not in it. */
  function StandardValue(c: char): (v: int)
    ensures -1 <= v < 64
    ensures v >= 0 ==> Symbol(Standard, v) == c
  {
    if 'A' <= c <= 'Z' then c as int - 'A' as int
    else if 'a' <= c <= 'z' then c as int - 'a' as int + 26
    else if '0' <= c <= '9' then c as int - '0' as int + 52
    else if c == '+' then 62
    else if c == '/' then 63
    else -1
  }

  lemma StandardValueOfSymbol(v: int)
    requires 0 <= v < 64
    ensures StandardValue(Symbol(Standard, v)) == v
  {
  }

  /** The four characters for three bytes. */
  function EncodeGroup(a: Alphabet, b0: byte, b1: byte, b2: byte): string {
    [Symbol(a, b0 / 4), Symbol(a, (b0 % 4) * 16 + b1 / 16), Symbol(a, (b1 % 16) * 4 + b2 / 64), Symbol(a, b2 % 64)]
  }

  /** `base64.b64encode` (Standard) or `base64.urlsafe_b64encode` (UrlSafe). */
  function Encode(a: Alphabet, b: seq<byte>): (r: string)
    ensures |r| == 4 * ((|b| + 2) / 3)
  {
    if |b| == 0 then []
    else if |b| == 1 then [Symbol(a, b[0] / 4), Symbol(a, (b[0] % 4) * 16), '=', '=']
    else if |b| == 2 then [Symbol(a, b[0] / 4), Symbol(a, (b[0] % 4) * 16 + b[1] / 16), Symbol(a, (b[1] % 16) * 4), '=']
    else EncodeGroup(a, b[0], b[1], b[2]) + Encode(a, b[3..])
  }

  /** The character `urlsafe_b64decode` substitutes for `c`: `-` becomes `+` and `_` becomes `/`. */
  function ToStandardChar(c: char): char {
    if c == '-' then '+' else if c == '_' then '/' else c
  }

  /** `s.translate(...)` as `urlsafe_b64decode` applies it before decoding. */
  function ToStandard(s: string): (r: string)
    ensures |r| == |s|
    ensures forall i :: 0 <= i < |s| ==> r[i] == ToStandardChar(s[i])
  {
    if s == [] then [] else [ToStandardChar(s[0])] + ToStandard(s[1..])
  }

  /** The decoder's state between two input characters. */
  datatype DecodeState = DecodeState(quadPos: int, leftchar: int, pads: int, out: seq<byte>, done: bool)

  /** The state before the first character, with `out` already produced. */
  function Fresh(out: seq<byte>): DecodeState {
    DecodeState(0, 0, 0, out, false)
  }

  predicate ValidState(st: DecodeState) {
    && 0 <= st.quadPos < 4
    && 0 <= st.leftchar
    && (st.quadPos == 0 ==> st.leftchar == 0)
    && (st.quadPos == 1 ==> st.leftchar < 64)
    && (st.quadPos == 2 ==> st.leftchar < 16)
    && (st.quadPos == 3 ==> st.leftchar < 4)
  }

  /** A data character of value `v`: one more 6-bit group, and a byte out once 8 bits are complete. */
  function Feed(st: DecodeState, v: int): (r: DecodeState)
    requires ValidState(st) && 0 <= v < 64
    ensures ValidState(r)
  {
    if st.quadPos == 0 then st.(quadPos := 1, leftchar := v, pads := 0)
    else if st.quadPos == 1 then st.(quadPos := 2, leftchar := v % 16, pads := 0, out := st.out + [st.leftchar * 4 + v / 16])
    else if st.quadPos == 2 then st.(quadPos := 3, leftchar := v % 4, pads := 0, out := st.out + [st.leftchar * 16 + v / 4])
    else st.(quadPos := 0, leftchar := 0, pads := 0, out := st.out + [st.leftchar * 64 + v])
  }

  /**
   * One input character: a pad counts once two data characters of the
   * quantum are in and ends the input when the quantum is complete; any
   * other character outside the alphabet is skipped.
   */
  function Step(st: DecodeState, c: char): (r: DecodeState)
    requires ValidState(st) && !st.done
    ensures ValidState(r)
  {
    if c == '=' then
      if st.quadPos >= 2 && st.quadPos + st.pads + 1 >= 4 then st.(pads := st.pads + 1, done := true)
      else if st.quadPos >= 2 then st.(pads := st.pads + 1)
      else st
    else
      var v := StandardValue(c);
      if v < 0 then st else Feed(st, v)
  }

  function Run(st: DecodeState, s: string): (r: DecodeState)
    requires ValidState(st)
    ensures ValidState(r)
    decreases |s|
  {
    if s == [] || st.done then st else Run(Step(st, s[0]), s[1..])
  }

  /** `base64.b64decode(s)`; None where it raises `binascii.Error`. */
  function DecodeLenient(s: string): Option<seq<byte>> {
    var st := Run(Fresh([]), s);
    if st.done || st.quadPos == 0 then Some(st.out) else None
  }

  /** `base64.urlsafe_b64decode(s)`. */
  function UrlSafeDecode(s: string): Option<seq<byte>> {
    DecodeLenient(ToStandard(s))
  }

  lemma RunUnfold(st: DecodeState, s: string)
    requires ValidState(st) && !st.done && s != []
    ensures Run(st, s) == Run(Step(st, s[0]), s[1..])
  {
  }

  /** Four characters, none but the last of which ends the input. */
  lemma RunQuad(st: DecodeState, s: string)
    requires ValidState(st) && !st.done && |s| >= 4
    requires !Step(st, s[0]).done && !Step(Step(st, s[0]), s[1]).done
    requires !Step(Step(Step(st, s[0]), s[1]), s[2]).done
    ensures Run(st, s) == Run(Step(Step(Step(Step(st, s[0]), s[1]), s[2]), s[3]), s[4..])
  {
    var s1 := Step(st, s[0]);
    var s2 := Step(s1, s[1]);
    var s3 := Step(s2, s[2]);
    RunUnfold(st, s);
    RunUnfold(s1, s[1..]);
    assert s[1..][1..] == s[2..];
    RunUnfold(s2, s[2..]);
    assert s[2..][1..] == s[3..];
    RunUnfold(s3, s[3..]);
    assert s[3..][1..] == s[4..];
  }

  /** A data character of the standard alphabet is fed by its value. */
  lemma StepSymbol(st: DecodeState, v: int)
    requires ValidState(st) && !st.done && 0 <= v < 64
    ensures Step(st, Symbol(Standard, v)) == Feed(st, v)
  {
    StandardValueOfSymbol(v);
  }

  /** The first two data characters of a quantum give back its first byte. */
  lemma FeedFirstByte(o: seq<byte>, b0: byte, low: int, c1: int)
    requires 0 <= low < 16 && c1 == (b0 % 4) * 16 + low
    ensures Feed(Feed(Fresh(o), b0 / 4), c1) == DecodeState(2, low, 0, o + [b0], false)
  {
    assert c1 / 16 == b0 % 4 && c1 % 16 == low;
  }

  /** The third data character gives back the second byte. */
  lemma FeedSecondByte(o: seq<byte>, b1: byte, high: int, c2: int)
    requires 0 <= high < 4 && c2 == (b1 % 16) * 4 + high
    ensures Feed(DecodeState(2, b1 / 16, 0, o, false), c2) == DecodeState(3, high, 0, o + [b1], false)
  {
    assert c2 / 4 == b1 % 16 && c2 % 4 == high;
  }

  /** The fourth data character gives back the third byte. */
  lemma FeedThirdByte(o: seq<byte>, b2: byte)
    ensures Feed(DecodeState(3, b2 / 64, 0, o, false), b2 % 64) == Fresh(o + [b2])
  {
  }

  lemma RunGroup(o: seq<byte>, b0: byte, b1: byte, b2: byte, rest: string)
    ensures Run(Fresh(o), EncodeGroup(Standard, b0, b1, b2) + rest) == Run(Fresh(o + [b0, b1, b2]), rest)
  {
    var s := EncodeGroup(Standard, b0, b1, b2) + rest;
    var c0, c1, c2, c3 := b0 / 4, (b0 % 4) * 16 + b1 / 16, (b1 % 16) * 4 + b2 / 64, b2 % 64;
    assert s[0] == Symbol(Standard, c0) && s[1] == Symbol(Standard, c1);
    assert s[2] == Symbol(Standard, c2) && s[3] == Symbol(Standard, c3);
    var s1 := Step(Fresh(o), s[0]);
    StepSymbol(Fresh(o), c0);
    var s2 := Step(s1, s[1]);
    StepSymbol(s1, c1);
    FeedFirstByte(o, b0, b1 / 16, c1);
    assert s2 == DecodeState(2, b1 / 16, 0, o + [b0], false);
    var s3 := Step(s2, s[2]);
    StepSymbol(s2, c2);
    FeedSecondByte(o + [b0], b1, b2 / 64, c2);
    assert o + [b0] + [b1] == o + [b0, b1];
    assert s3 == DecodeState(3, b2 / 64, 0, o + [b0, b1], false);
    StepSymbol(s3, c3);
    FeedThirdByte(o + [b0, b1], b2);
    assert o + [b0, b1] + [b2] == o + [b0, b1, b2];
    RunQuad(Fresh(o), s);
    assert s[4..] == rest;
  }

  lemma EncodeUnfold(a: Alphabet, b: seq<byte>)
    requires |b| >= 3
    ensures Encode(a, b) == EncodeGroup(a, b[0], b[1], b[2]) + Encode(a, b[3..])
  {
  }

  lemma EncodeOne(a: Alphabet, b: seq<byte>)
    requires |b| == 1
    ensures Encode(a, b) == [Symbol(a, b[0] / 4), Symbol(a, (b[0] % 4) * 16), '=', '=']
  {
  }

  lemma EncodeTwo(a: Alphabet, b: seq<byte>)
    requires |b| == 2
    ensures Encode(a, b) == [Symbol(a, b[0] / 4), Symbol(a, (b[0] % 4) * 16 + b[1] / 16), Symbol(a, (b[1] % 16) * 4), '=']
  {
  }

  /** The last quantum of a one-byte tail: two symbols and two pads. */
  lemma RunTailOne(o: seq<byte>, b: seq<byte>)
    requires |b| == 1
    ensures var st := Run(Fresh(o), Encode(Standard, b)); st.done && st.out == o + b
  {
    var e := Encode(Standard, b);
    var c0, c1 := b[0] / 4, (b[0] % 4) * 16;
    EncodeOne(Standard, b);
    assert b == [b[0]];
    var s1 := Step(Fresh(o), e[0]);
    StepSymbol(Fresh(o), c0);
    var s2 := Step(s1, e[1]);
    StepSymbol(s1, c1);
    FeedFirstByte(o, b[0], 0, c1);
    assert s2 == DecodeState(2, 0, 0, o + b, false);
    var s3 := Step(s2, e[2]);
    assert s3 == DecodeState(2, 0, 1, o + b, false);
    var s4 := Step(s3, e[3]);
    assert s4 == DecodeState(2, 0, 2, o + b, true);
    RunQuad(Fresh(o), e);
  }

  /** The last quantum of a two-byte tail: three symbols and one pad. */
  lemma RunTailTwo(o: seq<byte>, b: seq<byte>)
    requires |b| == 2
    ensures var st := Run(Fresh(o), Encode(Standard, b)); st.done && st.out == o + b
  {
    var e := Encode(Standard, b);
    var c0, c1, c2 := b[0] / 4, (b[0] % 4) * 16 + b[1] / 16, (b[1] % 16) * 4;
    EncodeTwo(Standard, b);
    assert b == [b[0], b[1]];
    var s1 := Step(Fresh(o), e[0]);
    StepSymbol(Fresh(o), c0);
    var s2 := Step(s1, e[1]);
    StepSymbol(s1, c1);
    FeedFirstByte(o, b[0], b[1] / 16, c1);
    assert s2 == DecodeState(2, b[1] / 16, 0, o + [b[0]], false);
    var s3 := Step(s2, e[2]);
    StepSymbol(s2, c2);
    FeedSecondByte(o + [b[0]], b[1], 0, c2);
    assert o + [b[0]] + [b[1]] == o + b;
    assert s3 == DecodeState(3, 0, 0, o + b, false);
    var s4 := Step(s3, e[3]);
    assert s4 == DecodeState(3, 0, 1, o + b, true);
    RunQuad(Fresh(o), e);
  }

  lemma {:induction false} RunEncode(o: seq<byte>, b: seq<byte>)
    ensures var st := Run(Fresh(o), Encode(Standard, b)); (st.done || st.quadPos == 0) && st.out == o + b
    decreases |b|
  {
    if |b| == 0 {
    } else if |b| == 1 {
      RunTailOne(o, b);
    } else if |b| == 2 {
      RunTailTwo(o, b);
    } else {
      EncodeUnfold(Standard, b);
      RunGroup(o, b[0], b[1], b[2], Encode(Standard, b[3..]));
      RunEncode(o + [b[0], b[1], b[2]], b[3..]);
      assert o + [b[0], b[1], b[2]] + b[3..] == o + b;
    }
  }

  /** Round trip with the standard alphabet: `b64decode(b64encode(b)) == b`. */
  lemma DecodeEncodeStandard(b: seq<byte>)
    ensures DecodeLenient(Encode(Standard, b)) == Some(b)
  {
    RunEncode([], b);
    assert [] + b == b;
  }

  /** A symbol of the URL-safe alphabet, translated, is the standard symbol of the same value. */
  lemma SymbolToStandard(v: int)
    requires 0 <= v < 64
    ensures ToStandardChar(Symbol(UrlSafe, v)) == Symbol(Standard, v)
  {
  }

  lemma ToStandardAppend(x: string, y: string)
    ensures ToStandard(x + y) == ToStandard(x) + ToStandard(y)
  {
    var l, r := ToStandard(x + y), ToStandard(x) + ToStandard(y);
    assert forall i :: 0 <= i < |l| ==> l[i] == r[i] by {
      forall i | 0 <= i < |l|
        ensures l[i] == r[i]
      {
        if i < |x| {
          assert (x + y)[i] == x[i];
        } else {
          assert (x + y)[i] == y[i - |x|];
        }
      }
    }
  }

  lemma ToStandardGroup(b0: byte, b1: byte, b2: byte)
    ensures ToStandard(EncodeGroup(UrlSafe, b0, b1, b2)) == EncodeGroup(Standard, b0, b1, b2)
  {
    SymbolToStandard(b0 / 4);
    SymbolToStandard((b0 % 4) * 16 + b1 / 16);
    SymbolToStandard((b1 % 16) * 4 + b2 / 64);
    SymbolToStandard(b2 % 64);
  }

  /** Translating URL-safe output to the standard alphabet gives the standard encoding. */
  lemma {:induction false} ToStandardOfUrlSafe(b: seq<byte>)
    ensures ToStandard(Encode(UrlSafe, b)) == Encode(Standard, b)
    decreases |b|
  {
    if |b| == 1 {
      EncodeOne(UrlSafe, b);
      EncodeOne(Standard, b);
      SymbolToStandard(b[0] / 4);
      SymbolToStandard((b[0] % 4) * 16);
    } else if |b| == 2 {
      EncodeTwo(UrlSafe, b);
      EncodeTwo(Standard, b);
      SymbolToStandard(b[0] / 4);
      SymbolToStandard((b[0] % 4) * 16 + b[1] / 16);
      SymbolToStandard((b[1] % 16) * 4);
    } else if |b| >= 3 {
      EncodeUnfold(UrlSafe, b);
      EncodeUnfold(Standard, b);
      ToStandardAppend(EncodeGroup(UrlSafe, b[0], b[1], b[2]), Encode(UrlSafe, b[3..]));
      ToStandardGroup(b[0], b[1], b[2]);
      ToStandardOfUrlSafe(b[3..]);
    }
  }

  /** Round trip with the URL-safe alphabet: `urlsafe_b64decode(urlsafe_b64encode(b)) == b`. */
  lemma DecodeEncodeUrlSafe(b: seq<byte>)
    ensures UrlSafeDecode(Encode(UrlSafe, b)) == Some(b)
  {
    ToStandardOfUrlSafe(b);
    DecodeEncodeStandard(b);
  }

  /** URL-safe encoding is injective. */
  lemma EncodeUrlSafeInjective(b: seq<byte>, c: seq<byte>)
    requires Encode(UrlSafe, b) == Encode(UrlSafe, c)
    ensures b == c
  {
    DecodeEncodeUrlSafe(b);
    DecodeEncodeUrlSafe(c);
  }

  /** A character `urlsafe_b64encode` can produce. */
  predicate IsUrlSafeChar(c: char) {
    'A' <= c <= 'Z' || 'a' <= c <= 'z' || '0' <= c <= '9' || c == '-' || c == '_' || c == '='
  }

  /**
   * URL-safe output is made of letters, digits, `-`, `_` and `=` only, so it
   * holds no `/` and no `.`, and it is empty only for empty input.
   */
  lemma {:induction false} UrlSafeAlphabet(b: seq<byte>)
    ensures forall i :: 0 <= i < |Encode(UrlSafe, b)| ==> IsUrlSafeChar(Encode(UrlSafe, b)[i])
    ensures Encode(UrlSafe, b) == [] <==> b == []
    decreases |b|
  {
    if |b| == 1 {
      EncodeOne(UrlSafe, b);
      SymbolIsUrlSafe(b[0] / 4);
      SymbolIsUrlSafe((b[0] % 4) * 16);
    } else if |b| == 2 {
      EncodeTwo(UrlSafe, b);
      SymbolIsUrlSafe(b[0] / 4);
      SymbolIsUrlSafe((b[0] % 4) * 16 + b[1] / 16);
      SymbolIsUrlSafe((b[1] % 16) * 4);
    } else if |b| >= 3 {
      EncodeUnfold(UrlSafe, b);
      UrlSafeAlphabet(b[3..]);
      var g, rest := EncodeGroup(UrlSafe, b[0], b[1], b[2]), Encode(UrlSafe, b[3..]);
      SymbolIsUrlSafe(b[0] / 4);
      SymbolIsUrlSafe((b[0] % 4) * 16 + b[1] / 16);
      SymbolIsUrlSafe((b[1] % 16) * 4 + b[2] / 64);
      SymbolIsUrlSafe(b[2] % 64);
      forall i | 0 <= i < |g + rest|
        ensures IsUrlSafeChar((g + rest)[i])
      {
        if i >= 4 {
          assert (g + rest)[i] == rest[i - 4];
        } else {
          assert (g + rest)[i] == g[i];
        }
      }
    }
  }

  lemma SymbolIsUrlSafe(v: int)
    requires 0 <= v < 64
    ensures IsUrlSafeChar(Symbol(UrlSafe, v))
  {
  }

  /**
   * Where the URL-safe encoding uses neither `-` nor `_`, it equals the
   * standard one, so the standard decoder reads it back too.
   */
  lemma StandardDecodesUrlSafeWithoutSymbols(b: seq<byte>)
    requires '-' !in Encode(UrlSafe, b) && '_' !in Encode(UrlSafe, b)
    ensures DecodeLenient(Encode(UrlSafe, b)) == Some(b)
  {
    var e := Encode(UrlSafe, b);
    ToStandardOfUrlSafe(b);
    assert ToStandard(e) == e;
    DecodeEncodeStandard(b);
  }
}
