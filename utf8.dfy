/** UTF-8 as Python's `str.encode("utf-8")` and strict `bytes.decode("utf-8")`
    use it: every scalar value is written in its shortest form, and the decoder
    accepts exactly the well-formed byte sequences (no overlong forms, no
    surrogates, nothing above U+10FFFF). */
module Utf8 {
  import opened Wrappers
  import opened Bytes
  import Seqs

  /** The bytes of one character. */
  function EncodeChar(c: char): (r: bytes)
    ensures 1 <= |r| <= 4
  {
    // the scalar value in base 64, one continuation byte per digit
    var n := c as int;
    var q1 := n / 64;
    var q2 := q1 / 64;
    var q3 := q2 / 64;
    if n < 0x80 then [n]
    else if n < 0x800 then [0xC0 + q1, 0x80 + n % 64]
    else if n < 0x10000 then [0xE0 + q2, 0x80 + q1 % 64, 0x80 + n % 64]
    else [0xF0 + q3, 0x80 + q2 % 64, 0x80 + q1 % 64, 0x80 + n % 64]
  }

  function Encode(s: string): (r: bytes)
    ensures |s| <= |r| <= 4 * |s|
  {
    if s == [] then [] else EncodeChar(s[0]) + Encode(s[1..])
  }

  predicate InRange(x: byte, lo: int, hi: int) {
    lo <= x <= hi
  }

  /** Decodes the character at the start of `b`, with the number of bytes it
      takes; fails on an ill-formed or truncated sequence. */
  function DecodeFirst(b: bytes): (r: Option<(char, nat)>)
    requires |b| > 0
    ensures r.Some? ==> 1 <= r.value.1 <= |b|
  {
    var b0 := b[0] as int;
    if b0 < 0x80 then
      Some((b0 as char, 1))
    else if 0xC2 <= b0 <= 0xDF then
      if |b| >= 2 && InRange(b[1], 0x80, 0xBF)
      then Some((((b0 - 0xC0) * 64 + (b[1] as int - 0x80)) as char, 2))
      else None
    else if 0xE0 <= b0 <= 0xEF then
      var lo := if b0 == 0xE0 then 0xA0 else 0x80;
      var hi := if b0 == 0xED then 0x9F else 0xBF;
      if |b| >= 3 && InRange(b[1], lo, hi) && InRange(b[2], 0x80, 0xBF)
      then Some((((b0 - 0xE0) * 4096 + (b[1] as int - 0x80) * 64 + (b[2] as int - 0x80)) as char, 3))
      else None
    else if 0xF0 <= b0 <= 0xF4 then
      var lo := if b0 == 0xF0 then 0x90 else 0x80;
      var hi := if b0 == 0xF4 then 0x8F else 0xBF;
      if |b| >= 4 && InRange(b[1], lo, hi) && InRange(b[2], 0x80, 0xBF) && InRange(b[3], 0x80, 0xBF)
      then Some((((b0 - 0xF0) * 262144 + (b[1] as int - 0x80) * 4096 + (b[2] as int - 0x80) * 64 + (b[3] as int - 0x80)) as char, 4))
      else None
    else
      None
  }

  /** Strict decoding: `None` is Python's `UnicodeDecodeError`. */
  function Decode(b: bytes): (r: Option<string>)
    ensures r.Some? ==> |r.value| <= |b|
    decreases |b|
  {
    if b == [] then Some([])
    else
      match DecodeFirst(b)
      case None => None
      case Some((c, k)) =>
        match Decode(b[k..])
        case None => None
        case Some(s) => Some([c] + s)
  }

  /** The decoder reads back exactly the character the encoder wrote. */
  lemma {:induction false} DecodeEncodeChar(c: char, rest: bytes)
    ensures DecodeFirst(EncodeChar(c) + rest) == Some((c, |EncodeChar(c)|))
  {
    var n := c as int;
    if n < 0x80 {
    } else if n < 0x800 {
      DecodeEncodeTwoBytes(c, rest);
    } else if n < 0x10000 {
      DecodeEncodeThreeBytes(c, rest);
    } else {
      DecodeEncodeFourBytes(c, rest);
    }
  }

  lemma {:induction false} DecodeEncodeTwoBytes(c: char, rest: bytes)
    requires 0x80 <= c as int < 0x800
    ensures DecodeFirst(EncodeChar(c) + rest) == Some((c, 2))
  {
    var n := c as int;
    var x0, x1 := n / 64, n % 64;
    assert n == x0 * 64 + x1;
    var b := EncodeChar(c) + rest;
    assert b[0] as int == 0xC0 + x0 && b[1] as int == 0x80 + x1;
  }

  lemma {:induction false} DecodeEncodeThreeBytes(c: char, rest: bytes)
    requires 0x800 <= c as int < 0x10000
    ensures DecodeFirst(EncodeChar(c) + rest) == Some((c, 3))
  {
    var n := c as int;
    var x0, x1, x2 := n / 64 / 64, n / 64 % 64, n % 64;
    assert n == x0 * 4096 + x1 * 64 + x2;
    var b := EncodeChar(c) + rest;
    assert b[0] as int == 0xE0 + x0 && b[1] as int == 0x80 + x1 && b[2] as int == 0x80 + x2;
    assert x0 == 0 ==> x1 >= 32;
    assert x0 == 0xD ==> x1 < 32;
  }

  lemma {:induction false} DecodeEncodeFourBytes(c: char, rest: bytes)
    requires 0x10000 <= c as int
    ensures DecodeFirst(EncodeChar(c) + rest) == Some((c, 4))
  {
    var n := c as int;
    var x0, x1, x2, x3 := n / 64 / 64 / 64, n / 64 / 64 % 64, n / 64 % 64, n % 64;
    assert n == x0 * 262144 + x1 * 4096 + x2 * 64 + x3;
    var b := EncodeChar(c) + rest;
    assert b[0] as int == 0xF0 + x0 && b[1] as int == 0x80 + x1 && b[2] as int == 0x80 + x2 && b[3] as int == 0x80 + x3;
    assert x0 == 0 ==> x1 >= 16;
    assert x0 == 4 ==> x1 < 16;
  }

  lemma {:induction false} Digits2(x0: int, x1: int)
    requires 0 <= x0 && 0 <= x1 < 64
    ensures (x0 * 64 + x1) / 64 == x0 && (x0 * 64 + x1) % 64 == x1
  {}

  lemma {:induction false} Digits3(x0: int, x1: int, x2: int)
    requires 0 <= x0 && 0 <= x1 < 64 && 0 <= x2 < 64
    ensures var n := x0 * 4096 + x1 * 64 + x2;
      n / 64 / 64 == x0 && n / 64 % 64 == x1 && n % 64 == x2
  {
    Digits2(x0 * 64 + x1, x2);
    Digits2(x0, x1);
  }

  lemma {:induction false} Digits4(x0: int, x1: int, x2: int, x3: int)
    requires 0 <= x0 && 0 <= x1 < 64 && 0 <= x2 < 64 && 0 <= x3 < 64
    ensures var n := x0 * 262144 + x1 * 4096 + x2 * 64 + x3;
      n / 64 / 64 / 64 == x0 && n / 64 / 64 % 64 == x1 && n / 64 % 64 == x2 && n % 64 == x3
  {
    Digits3(x0 * 64 + x1, x2, x3);
    Digits2(x0, x1);
  }

  /** Whatever the decoder accepts at the front of `b` is the encoder's own
      output for that character: there is one encoding per character. */
  lemma {:induction false} EncodeDecodeChar(b: bytes)
    requires |b| > 0 && DecodeFirst(b).Some?
    ensures EncodeChar(DecodeFirst(b).value.0) == b[..DecodeFirst(b).value.1]
  {
    if b[0] < 0x80 {
    } else if b[0] <= 0xDF {
      EncodeDecodeTwoBytes(b);
    } else if b[0] <= 0xEF {
      EncodeDecodeThreeBytes(b);
    } else {
      EncodeDecodeFourBytes(b);
    }
  }

  lemma {:induction false} EncodeDecodeTwoBytes(b: bytes)
    requires |b| > 0 && DecodeFirst(b).Some? && 0x80 <= b[0] <= 0xDF
    ensures EncodeChar(DecodeFirst(b).value.0) == b[..2]
  {
    Digits2(b[0] as int - 0xC0, b[1] as int - 0x80);
  }

  lemma {:induction false} EncodeDecodeThreeBytes(b: bytes)
    requires |b| > 0 && DecodeFirst(b).Some? && 0xE0 <= b[0] <= 0xEF
    ensures EncodeChar(DecodeFirst(b).value.0) == b[..3]
  {
    Digits3(b[0] as int - 0xE0, b[1] as int - 0x80, b[2] as int - 0x80);
  }

  lemma {:induction false} EncodeDecodeFourBytes(b: bytes)
    requires |b| > 0 && DecodeFirst(b).Some? && 0xF0 <= b[0]
    ensures EncodeChar(DecodeFirst(b).value.0) == b[..4]
  {
    Digits4(b[0] as int - 0xF0, b[1] as int - 0x80, b[2] as int - 0x80, b[3] as int - 0x80);
  }

  /** `s.encode("utf-8").decode("utf-8") == s` for every string. */
  lemma {:induction false} DecodeEncode(s: string)
    ensures Decode(Encode(s)) == Some(s)
  {
    if s != [] {
      var e := EncodeChar(s[0]);
      DecodeEncodeChar(s[0], Encode(s[1..]));
      assert (e + Encode(s[1..]))[|e|..] == Encode(s[1..]);
      DecodeEncode(s[1..]);
      assert [s[0]] + s[1..] == s;
    }
  }

  /** A successful decode is undone by encoding: the decoder accepts only
      canonical encodings. */
  lemma {:induction false} EncodeDecode(b: bytes)
    requires Decode(b).Some?
    ensures Encode(Decode(b).value) == b
    decreases |b|
  {
    if b != [] {
      var (c, k) := DecodeFirst(b).value;
      var s := Decode(b[k..]).value;
      EncodeDecodeChar(b);
      EncodeDecode(b[k..]);
      EncodeCons(c, s);
      Seqs.SplitAt(b, k);
    }
  }

  /** Encoding a string is encoding its characters one after another. */
  lemma {:induction false} EncodeCons(c: char, s: string)
    ensures Encode([c] + s) == EncodeChar(c) + Encode(s)
  {
    assert ([c] + s)[1..] == s;
  }
}
