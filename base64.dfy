/** The Base64 encoding of section 4 of RFC 4648 (standard alphabet, `=`
    padding), over bytes, as `base64.b64encode` writes it. Decoding is the
    strict reading of the same section: only alphabet bytes, length a
    multiple of four, padding only at the end of the last quantum. */
module Base64 {
  import opened Wrappers
  import opened Bytes

  type sextet = x: int | 0 <= x < 64

  /** The pad byte `=`. */
  const PAD: byte := 61

  /** Table 1 of RFC 4648: `A`-`Z`, `a`-`z`, `0`-`9`, `+`, `/`. */
  function Letter(i: sextet): (r: byte)
    ensures r != PAD && r < 128
  {
    if i < 26 then 65 + i
    else if i < 52 then 97 + (i - 26)
    else if i < 62 then 48 + (i - 52)
    else if i == 62 then 43
    else 47
  }

  /** The value of an alphabet byte; `None` for any other byte (including `=`). */
  function Value(c: byte): (r: Option<sextet>)
    ensures c == PAD ==> r.None?
  {
    if 65 <= c <= 90 then Some(c - 65)
    else if 97 <= c <= 122 then Some(c - 71)
    else if 48 <= c <= 57 then Some(c + 4)
    else if c == 43 then Some(62)
    else if c == 47 then Some(63)
    else None
  }

  lemma {:induction false} ValueLetter(i: sextet)
    ensures Value(Letter(i)) == Some(i)
  {}

  /** A byte with a sextet value is the letter for that value. */
  lemma {:induction false} LetterValue(c: byte)
    requires Value(c).Some?
    ensures Letter(Value(c).value) == c
  {}

  predicate IsEncodingByte(c: byte) {
    c == PAD || Value(c).Some?
  }

  /** One 24-bit group of three bytes as four characters (section 4 of RFC 4648). */
  function EncodeGroup(b0: byte, b1: byte, b2: byte): bytes {
    [Letter(b0 / 4), Letter((b0 % 4) * 16 + b1 / 16), Letter((b1 % 16) * 4 + b2 / 64), Letter(b2 % 64)]
  }

  function Encode(b: bytes): (r: bytes)
    ensures forall i :: 0 <= i < |r| ==> r[i] < 128
    decreases |b|
  {
    if |b| == 0 then []
    else if |b| == 1 then
      [Letter(b[0] / 4), Letter((b[0] % 4) * 16), PAD, PAD]
    else if |b| == 2 then
      [Letter(b[0] / 4), Letter((b[0] % 4) * 16 + b[1] / 16), Letter((b[1] % 16) * 4), PAD]
    else
      EncodeGroup(b[0], b[1], b[2]) + Encode(b[3..])
  }

  /** Every three input bytes, and a final partial group, take four characters. */
  lemma {:induction false} EncodeLength(b: bytes)
    ensures |Encode(b)| == 4 * ((|b| + 2) / 3)
    decreases |b|
  {
    if |b| > 3 {
      EncodeLength(b[3..]);
      var k := (|b| - 3 + 2) / 3;
      assert |Encode(b)| == 4 + 4 * k;
      assert (|b| + 2) / 3 == k + 1;
    }
  }

  lemma {:induction false} LetterIsEncoding(i: sextet)
    ensures IsEncodingByte(Letter(i))
  {
    ValueLetter(i);
  }

  /** The encoding holds only alphabet and pad bytes. */
  lemma {:induction false} EncodeAlphabet(b: bytes)
    ensures forall i :: 0 <= i < |Encode(b)| ==> IsEncodingByte(Encode(b)[i])
    decreases |b|
  {
    if |b| == 1 {
      LetterIsEncoding(b[0] / 4);
      LetterIsEncoding((b[0] % 4) * 16);
    } else if |b| == 2 {
      LetterIsEncoding(b[0] / 4);
      LetterIsEncoding((b[0] % 4) * 16 + b[1] / 16);
      LetterIsEncoding((b[1] % 16) * 4);
    } else if |b| >= 3 {
      var g, e := EncodeGroup(b[0], b[1], b[2]), Encode(b[3..]);
      LetterIsEncoding(b[0] / 4);
      LetterIsEncoding((b[0] % 4) * 16 + b[1] / 16);
      LetterIsEncoding((b[1] % 16) * 4 + b[2] / 64);
      LetterIsEncoding(b[2] % 64);
      EncodeAlphabet(b[3..]);
      assert Encode(b) == g + e;
    }
  }

  /** The three bytes of a group, from its four sextets (section 4 of RFC 4648). */
  function Byte0(c0: sextet, c1: sextet): byte { (c0 as int) * 4 + (c1 as int) / 16 }
  function Byte1(c1: sextet, c2: sextet): byte { ((c1 as int) % 16) * 16 + (c2 as int) / 4 }
  function Byte2(c2: sextet, c3: sextet): byte { ((c2 as int) % 4) * 64 + c3 as int }

  /** Four characters without padding back to three bytes. */
  function DecodeQuantum(q: bytes): (r: Option<bytes>)
    requires |q| == 4
    ensures r.Some? <==> forall i :: 0 <= i < 4 ==> Value(q[i]).Some?
  {
    match (Value(q[0]), Value(q[1]), Value(q[2]), Value(q[3]))
    case (Some(c0), Some(c1), Some(c2), Some(c3)) =>
      Some([Byte0(c0, c1), Byte1(c1, c2), Byte2(c2, c3)])
    case _ => None
  }

  /** The final quantum, which may end in `==` (one byte) or `=` (two bytes). */
  function DecodeFinalQuantum(q: bytes): (r: Option<bytes>)
    requires |q| == 4
    ensures r.Some? ==> forall i :: 0 <= i < 4 ==> IsEncodingByte(q[i])
  {
    if q[2] == PAD && q[3] == PAD then
      match (Value(q[0]), Value(q[1]))
      case (Some(c0), Some(c1)) => Some([Byte0(c0, c1)])
      case _ => None
    else if q[3] == PAD then
      match (Value(q[0]), Value(q[1]), Value(q[2]))
      case (Some(c0), Some(c1), Some(c2)) => Some([Byte0(c0, c1), Byte1(c1, c2)])
      case _ => None
    else
      DecodeQuantum(q)
  }

  /** `None` is Python's `binascii.Error`. */
  function Decode(s: bytes): (r: Option<bytes>)
    ensures r.Some? ==> 4 * |r.value| <= 3 * |s|
    decreases |s|
  {
    if |s| == 0 then Some([])
    else if |s| < 4 then None
    else if |s| == 4 then DecodeFinalQuantum(s)
    else
      match DecodeQuantum(s[..4])
      case None => None
      case Some(h) =>
        match Decode(s[4..])
        case None => None
        case Some(t) => Some(h + t)
  }

  /** Accepted input is whole quanta. */
  lemma {:induction false} DecodeLength(s: bytes)
    requires Decode(s).Some?
    ensures |s| % 4 == 0
    decreases |s|
  {
    if |s| > 4 {
      var tail := s[4..];
      assert Decode(tail).Some?;
      DecodeLength(tail);
      QuantumStep(|tail|);
    }
  }

  lemma {:induction false} QuantumStep(n: nat)
    ensures (n + 4) % 4 == n % 4
  {
  }

  /** Accepted input holds only alphabet and pad bytes. */
  lemma {:induction false} DecodeAccepts(s: bytes)
    requires Decode(s).Some?
    ensures forall i :: 0 <= i < |s| ==> IsEncodingByte(s[i])
    decreases |s|
  {
    if |s| > 4 {
      var head, tail := s[..4], s[4..];
      assert DecodeQuantum(head).Some? && Decode(tail).Some?;
      DecodeAccepts(tail);
      forall i | 0 <= i < |s| ensures IsEncodingByte(s[i]) {
        if i < 4 {
          assert s[i] == head[i];
        } else {
          assert s[i] == tail[i - 4];
        }
      }
    }
  }

  lemma {:induction false} GroupArithmetic(b0: byte, b1: byte, b2: byte)
    ensures var c1 := (b0 % 4) * 16 + b1 / 16;
      var c2 := (b1 % 16) * 4 + b2 / 64;
      Byte0(b0 / 4, c1) == b0 && Byte1(c1, c2) == b1 && Byte2(c2, b2 % 64) == b2
  {}

  lemma {:induction false} DecodeGroup(b0: byte, b1: byte, b2: byte)
    ensures DecodeQuantum(EncodeGroup(b0, b1, b2)) == Some([b0, b1, b2])
    ensures DecodeFinalQuantum(EncodeGroup(b0, b1, b2)) == Some([b0, b1, b2])
  {
    ValueLetter(b0 / 4);
    ValueLetter((b0 % 4) * 16 + b1 / 16);
    ValueLetter((b1 % 16) * 4 + b2 / 64);
    ValueLetter(b2 % 64);
    GroupArithmetic(b0, b1, b2);
  }

  lemma {:induction false} DecodeOne(b0: byte)
    ensures DecodeFinalQuantum([Letter(b0 / 4), Letter((b0 % 4) * 16), PAD, PAD]) == Some([b0])
  {
    ValueLetter(b0 / 4);
    ValueLetter((b0 % 4) * 16);
    GroupArithmetic(b0, 0, 0);
  }

  lemma {:induction false} DecodeTwo(b0: byte, b1: byte)
    ensures DecodeFinalQuantum([Letter(b0 / 4), Letter((b0 % 4) * 16 + b1 / 16), Letter((b1 % 16) * 4), PAD])
         == Some([b0, b1])
  {
    ValueLetter(b0 / 4);
    ValueLetter((b0 % 4) * 16 + b1 / 16);
    ValueLetter((b1 % 16) * 4);
    GroupArithmetic(b0, b1, 0);
  }

  /** A full leading quantum decodes on its own, ahead of the rest. */
  lemma {:induction false} DecodeAppend(g: bytes, rest: bytes, h: bytes, t: bytes)
    requires |g| == 4 && |rest| > 0
    requires DecodeQuantum(g) == Some(h) && Decode(rest) == Some(t)
    ensures Decode(g + rest) == Some(h + t)
  {
    var s := g + rest;
    assert s[..4] == g && s[4..] == rest;
  }

  /** Inputs of at most one group make a single final quantum. */
  lemma {:induction false} DecodeEncodeOne(b0: byte)
    ensures Decode(Encode([b0])) == Some([b0])
  {
    var e := [Letter(b0 / 4), Letter((b0 % 4) * 16), PAD, PAD];
    assert Encode([b0]) == e;
    DecodeOne(b0);
  }

  lemma {:induction false} DecodeEncodeTwo(b0: byte, b1: byte)
    ensures Decode(Encode([b0, b1])) == Some([b0, b1])
  {
    var e := [Letter(b0 / 4), Letter((b0 % 4) * 16 + b1 / 16), Letter((b1 % 16) * 4), PAD];
    assert Encode([b0, b1]) == e;
    DecodeTwo(b0, b1);
  }

  lemma {:induction false} DecodeEncodeThree(b0: byte, b1: byte, b2: byte)
    ensures Decode(Encode([b0, b1, b2])) == Some([b0, b1, b2])
  {
    var b := [b0, b1, b2];
    assert Encode(b) == EncodeGroup(b0, b1, b2) + Encode(b[3..]);
    assert Encode(b) == EncodeGroup(b0, b1, b2);
    DecodeGroup(b0, b1, b2);
  }

  lemma {:induction false} DecodeEncodeShort(b: bytes)
    requires |b| <= 3
    ensures Decode(Encode(b)) == Some(b)
  {
    if |b| == 1 {
      assert b == [b[0]];
      DecodeEncodeOne(b[0]);
    } else if |b| == 2 {
      assert b == [b[0], b[1]];
      DecodeEncodeTwo(b[0], b[1]);
    } else if |b| == 3 {
      assert b == [b[0], b[1], b[2]];
      DecodeEncodeThree(b[0], b[1], b[2]);
    }
  }

  /** A leading group decodes ahead of the rest of a longer input. */
  lemma {:induction false} DecodeEncodeLong(b: bytes)
    requires |b| > 3 && Decode(Encode(b[3..])) == Some(b[3..])
    ensures Decode(Encode(b)) == Some(b)
  {
    var t := b[3..];
    FirstThree(b);
    EncodeFirstGroup(b);
    DecodeGroupThen(b[0], b[1], b[2], Encode(t), t);
  }

  lemma {:induction false} FirstThree(b: bytes)
    requires |b| >= 3
    ensures [b[0], b[1], b[2]] + b[3..] == b
  {
  }

  /** A group's encoding followed by decodable text decodes to the group's
      bytes followed by what the text decodes to. */
  lemma {:induction false} DecodeGroupThen(b0: byte, b1: byte, b2: byte, e: bytes, t: bytes)
    requires |e| > 0 && Decode(e) == Some(t)
    ensures Decode(EncodeGroup(b0, b1, b2) + e) == Some([b0, b1, b2] + t)
  {
    DecodeGroup(b0, b1, b2);
    DecodeAppend(EncodeGroup(b0, b1, b2), e, [b0, b1, b2], t);
  }

  /** Input longer than one group encodes as its first group followed by the
      non-empty encoding of the rest. */
  lemma {:induction false} EncodeFirstGroup(b: bytes)
    requires |b| > 3
    ensures Encode(b) == EncodeGroup(b[0], b[1], b[2]) + Encode(b[3..])
    ensures |Encode(b[3..])| > 0
  {
  }

  /** Decoding is not injective: like Python's `b64decode`, it ignores the
      pad bits of a final group, so `QR==` decodes to `A` although `A`
      encodes as `QQ==`. Encoding is therefore a right inverse of decoding
      only on canonical input. */
  lemma {:induction false} DecodeIgnoresPadBits()
    ensures Decode([0x51, 0x52, PAD, PAD]) == Some([0x41])
    ensures Encode([0x41]) == [0x51, 0x51, PAD, PAD] != [0x51, 0x52, PAD, PAD]
  {
  }

  /** Decoding reads back exactly the bytes that were encoded. */
  lemma {:induction false} DecodeEncode(b: bytes)
    ensures Decode(Encode(b)) == Some(b)
    decreases |b|
  {
    if |b| <= 3 {
      DecodeEncodeShort(b);
    } else {
      DecodeEncode(b[3..]);
      DecodeEncodeLong(b);
    }
  }
}
