/** The ASCII codec: `str.encode("ascii")` fails on any character above
    U+007F; `bytes.decode("ascii")` is total on 7-bit input. */
module Ascii {
  import opened Wrappers
  import opened Bytes

  predicate IsAscii(b: bytes) {
    forall i :: 0 <= i < |b| ==> b[i] < 128
  }

  /** `None` is Python's `UnicodeEncodeError`. */
  function Encode(s: string): (r: Option<bytes>)
    ensures r.Some? <==> forall i :: 0 <= i < |s| ==> s[i] as int < 128
    ensures r.Some? ==> |r.value| == |s| && forall i :: 0 <= i < |s| ==> r.value[i] == s[i] as int
  {
    if s == [] then Some([])
    else if s[0] as int >= 128 then None
    else
      match Encode(s[1..])
      case None => None
      case Some(t) => Some([s[0] as int] + t)
  }

  function Decode(b: bytes): (r: string)
    requires IsAscii(b)
    ensures |r| == |b| && forall i :: 0 <= i < |b| ==> r[i] as int == b[i]
  {
    seq(|b|, i requires 0 <= i < |b| => b[i] as char)
  }

  /** Decoding 7-bit bytes and encoding the text again gives the bytes back. */
  lemma {:induction false} EncodeDecode(b: bytes)
    requires IsAscii(b)
    ensures Encode(Decode(b)) == Some(b)
  {
    var r := Encode(Decode(b));
    assert r.Some?;
    assert r.value == b;
  }

  /** Encoding ASCII text and decoding the bytes gives the text back. */
  lemma {:induction false} DecodeEncode(s: string)
    requires Encode(s).Some?
    ensures IsAscii(Encode(s).value) && Decode(Encode(s).value) == s
  {
    var b := Encode(s).value;
    assert Decode(b) == s;
  }
}
