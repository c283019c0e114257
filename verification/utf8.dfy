/** UTF-8, as used by Python's `str.encode()` and strict `bytes.decode()` (RFC 3629).
    Dafny's `char` is a Unicode scalar value (0 to 0x10FFFF without the surrogates),
    which is exactly the set of values a UTF-8 encoder accepts, so encoding is total. */
module Utf8 {
  import opened Common

  /** A continuation byte 10xxxxxx. */
  predicate IsCont(b: byte) {
    0x80 <= b < 0xC0
  }

  /** The UTF-8 bytes of one scalar value (section 3 of RFC 3629). */
  function EncodeChar(c: char): (r: Bytes)
    ensures 1 <= |r| <= 4
  {
    var cp := c as int;
    if cp < 0x80 then
      [cp as byte]
    else if cp < 0x800 then
      [(0xC0 + cp / 64) as byte, (0x80 + cp % 64) as byte]
    else if cp < 0x1_0000 then
      [(0xE0 + cp / 4096) as byte, (0x80 + (cp / 64) % 64) as byte, (0x80 + cp % 64) as byte]
    else
      [(0xF0 + cp / 0x4_0000) as byte, (0x80 + (cp / 4096) % 64) as byte,
       (0x80 + (cp / 64) % 64) as byte, (0x80 + cp % 64) as byte]
  }

  function Encode(s: string): (r: Bytes)
    ensures |s| <= |r| <= 4 * |s|
  {
    if |s| == 0 then [] else EncodeChar(s[0]) + Encode(s[1..])
  }

  /** The payload bits of a continuation byte. */
  function Low(b: byte): int {
    b as int - 0x80
  }

  /** A two-byte sequence 110xxxxx 10xxxxxx; lead bytes 0xC0 and 0xC1 would only spell
      overlong forms and are excluded by the caller. */
  function DecodeTwo(b: Bytes): (r: Option<(char, nat)>)
    requires |b| > 0 && 0xC2 <= b[0] <= 0xDF
    ensures r.Some? ==> r.value.1 == 2 <= |b|
  {
    if |b| < 2 || !IsCont(b[1]) then None
    else Some((((b[0] as int - 0xC0) * 64 + Low(b[1])) as char, 2))
  }

  /** A three-byte sequence 1110xxxx 10xxxxxx 10xxxxxx: overlong forms (below U+0800) and
      surrogates are rejected. */
  function DecodeThree(b: Bytes): (r: Option<(char, nat)>)
    requires |b| > 0 && 0xE0 <= b[0] <= 0xEF
    ensures r.Some? ==> r.value.1 == 3 <= |b|
  {
    if |b| < 3 || !IsCont(b[1]) || !IsCont(b[2]) then None
    else
      var cp := (b[0] as int - 0xE0) * 4096 + Low(b[1]) * 64 + Low(b[2]);
      if cp < 0x800 || (0xD800 <= cp && cp <= 0xDFFF) then None
      else Some((cp as char, 3))
  }

  /** A four-byte sequence 11110xxx 10xxxxxx 10xxxxxx 10xxxxxx: overlong forms (below
      U+10000) and values above U+10FFFF are rejected. */
  function DecodeFour(b: Bytes): (r: Option<(char, nat)>)
    requires |b| > 0 && 0xF0 <= b[0] <= 0xF4
    ensures r.Some? ==> r.value.1 == 4 <= |b|
  {
    if |b| < 4 || !IsCont(b[1]) || !IsCont(b[2]) || !IsCont(b[3]) then None
    else
      var cp := (b[0] as int - 0xF0) * 0x4_0000 + Low(b[1]) * 4096 + Low(b[2]) * 64 + Low(b[3]);
      if cp < 0x1_0000 || cp > 0x10_FFFF then None
      else Some((cp as char, 4))
  }

  /** Decodes the scalar value at the head of `b` strictly, the way Python's default
      `bytes.decode()` does: truncated sequences, stray continuation bytes, overlong forms,
      surrogates and values above U+10FFFF are all errors. Returns the character and the
      number of bytes it occupies. */
  function DecodeChar(b: Bytes): (r: Option<(char, nat)>)
    ensures r.Some? ==> 1 <= r.value.1 <= |b| && r.value.1 <= 4
  {
    if |b| == 0 then None
    else if b[0] < 0x80 then Some((b[0] as int as char, 1))
    else if 0xC2 <= b[0] <= 0xDF then DecodeTwo(b)
    else if 0xE0 <= b[0] <= 0xEF then DecodeThree(b)
    else if 0xF0 <= b[0] <= 0xF4 then DecodeFour(b)
    else None
  }

  /** Strict decoding of a whole byte string; any malformed sequence fails the whole decode. */
  function Decode(b: Bytes): Option<string>
    decreases |b|
  {
    if |b| == 0 then Some([])
    else
      match DecodeChar(b)
      case None => None
      case Some((c, k)) =>
        match Decode(b[k..])
        case None => None
        case Some(rest) => Some([c] + rest)
  }

  lemma DivMod64(q: int, r: int)
    requires 0 <= r < 64
    ensures (q * 64 + r) / 64 == q
    ensures (q * 64 + r) % 64 == r
  {
  }

  /** Writing `q` as `q / 64` sixty-fours plus `q % 64`. */
  lemma Split64(q: int)
    requires q >= 0
    ensures q == (q / 64) * 64 + q % 64
    ensures 0 <= q % 64 < 64
  {
  }

  lemma DecodeEncodeChar2(c: char, rest: Bytes)
    requires 0x80 <= c as int < 0x800
    ensures DecodeChar(EncodeChar(c) + rest) == Some((c, 2))
  {
    var cp := c as int;
    var b := EncodeChar(c) + rest;
    Split64(cp);
    assert b[0] as int == 0xC0 + cp / 64 && b[1] as int == 0x80 + cp % 64;
    assert (b[0] as int - 0xC0) * 64 + Low(b[1]) == cp;
  }

  lemma DecodeEncodeChar3(c: char, rest: Bytes)
    requires 0x800 <= c as int < 0x1_0000
    ensures DecodeChar(EncodeChar(c) + rest) == Some((c, 3))
  {
    var cp := c as int;
    var b := EncodeChar(c) + rest;
    var q := cp / 64;
    Split64(cp);
    Split64(q);
    assert cp / 4096 == q / 64;
    assert b[0] as int == 0xE0 + q / 64 && b[1] as int == 0x80 + q % 64 && b[2] as int == 0x80 + cp % 64;
    assert (b[0] as int - 0xE0) * 4096 + Low(b[1]) * 64 + Low(b[2]) == (q / 64 * 64 + q % 64) * 64 + cp % 64;
  }

  lemma DecodeEncodeChar4(c: char, rest: Bytes)
    requires 0x1_0000 <= c as int
    ensures DecodeChar(EncodeChar(c) + rest) == Some((c, 4))
  {
    var cp := c as int;
    var b := EncodeChar(c) + rest;
    var q1 := cp / 64;
    var q2 := q1 / 64;
    Split64(cp);
    Split64(q1);
    Split64(q2);
    assert cp / 4096 == q2;
    assert cp / 0x4_0000 == q2 / 64;
    assert b[0] as int == 0xF0 + q2 / 64 && b[1] as int == 0x80 + q2 % 64;
    assert b[2] as int == 0x80 + q1 % 64 && b[3] as int == 0x80 + cp % 64;
    assert (b[0] as int - 0xF0) * 0x4_0000 + Low(b[1]) * 4096 + Low(b[2]) * 64 + Low(b[3])
        == ((q2 / 64 * 64 + q2 % 64) * 64 + q1 % 64) * 64 + cp % 64;
  }

  /** The decoder reads back exactly the character the encoder wrote, whatever follows it. */
  lemma DecodeEncodeChar(c: char, rest: Bytes)
    ensures DecodeChar(EncodeChar(c) + rest) == Some((c, |EncodeChar(c)|))
  {
    var cp := c as int;
    if cp < 0x80 {
    } else if cp < 0x800 {
      DecodeEncodeChar2(c, rest);
    } else if cp < 0x1_0000 {
      DecodeEncodeChar3(c, rest);
    } else {
      DecodeEncodeChar4(c, rest);
    }
  }

  lemma DecodeTwoCanonical(b: Bytes)
    requires |b| > 0 && 0xC2 <= b[0] <= 0xDF && DecodeTwo(b).Some?
    ensures b[..2] == EncodeChar(DecodeTwo(b).value.0)
  {
    DivMod64(b[0] as int - 0xC0, Low(b[1]));
  }

  lemma DecodeThreeCanonical(b: Bytes)
    requires |b| > 0 && 0xE0 <= b[0] <= 0xEF && DecodeThree(b).Some?
    ensures b[..3] == EncodeChar(DecodeThree(b).value.0)
  {
    var cp := DecodeThree(b).value.0 as int;
    var q := (b[0] as int - 0xE0) * 64 + Low(b[1]);
    assert cp == q * 64 + Low(b[2]);
    DivMod64(q, Low(b[2]));
    DivMod64(b[0] as int - 0xE0, Low(b[1]));
    assert cp / 4096 == (cp / 64) / 64;
  }

  lemma DecodeFourCanonical(b: Bytes)
    requires |b| > 0 && 0xF0 <= b[0] <= 0xF4 && DecodeFour(b).Some?
    ensures b[..4] == EncodeChar(DecodeFour(b).value.0)
  {
    var cp := DecodeFour(b).value.0 as int;
    var q1 := (b[0] as int - 0xF0) * 64 + Low(b[1]);
    var q2 := q1 * 64 + Low(b[2]);
    assert cp == q2 * 64 + Low(b[3]);
    DivMod64(q2, Low(b[3]));
    DivMod64(q1, Low(b[2]));
    DivMod64(b[0] as int - 0xF0, Low(b[1]));
    assert cp / 4096 == (cp / 64) / 64;
    assert cp / 0x4_0000 == (cp / 4096) / 64;
  }

  /** Whatever the decoder accepts at the head of `b` is the canonical encoding of the
      character it returns: there is no second spelling of any character. */
  lemma DecodeCharCanonical(b: Bytes)
    requires DecodeChar(b).Some?
    ensures b[..DecodeChar(b).value.1] == EncodeChar(DecodeChar(b).value.0)
  {
    if b[0] < 0x80 {
    } else if 0xC2 <= b[0] <= 0xDF {
      DecodeTwoCanonical(b);
    } else if 0xE0 <= b[0] <= 0xEF {
      DecodeThreeCanonical(b);
    } else {
      DecodeFourCanonical(b);
    }
  }

  /** `s.encode().decode() == s` for every string. */
  lemma {:induction false} DecodeEncode(s: string)
    ensures Decode(Encode(s)) == Some(s)
  {
    if |s| > 0 {
      var e := EncodeChar(s[0]);
      DecodeEncodeChar(s[0], Encode(s[1..]));
      assert (e + Encode(s[1..]))[|e|..] == Encode(s[1..]);
      DecodeEncode(s[1..]);
      assert [s[0]] + s[1..] == s;
    }
  }

  lemma EncodeCons(c: char, rest: string)
    ensures Encode([c] + rest) == EncodeChar(c) + Encode(rest)
  {
    assert ([c] + rest)[1..] == rest;
  }

  /** One step of `Decode` on a non-empty input that decodes. */
  lemma DecodeStep(b: Bytes)
    requires |b| > 0 && Decode(b).Some?
    ensures DecodeChar(b).Some?
    ensures Decode(b[DecodeChar(b).value.1..]).Some?
    ensures Decode(b).value == [DecodeChar(b).value.0] + Decode(b[DecodeChar(b).value.1..]).value
  {
  }

  /** Only canonical encodings decode: whatever decodes to `s` is `s.encode()`. */
  lemma {:induction false} EncodeDecode(b: Bytes, s: string)
    requires Decode(b) == Some(s)
    ensures Encode(s) == b
    decreases |b|
  {
    if |b| > 0 {
      DecodeStep(b);
      var c := DecodeChar(b).value.0;
      var k := DecodeChar(b).value.1;
      var rest := Decode(b[k..]).value;
      assert s == [c] + rest;
      DecodeCharCanonical(b);
      EncodeDecode(b[k..], rest);
      EncodeCons(c, rest);
      assert b == b[..k] + b[k..];
    }
  }

  /** Decoding and encoding are inverse bijections between strings and valid UTF-8. */
  lemma DecodeIffEncode(b: Bytes, s: string)
    ensures Decode(b) == Some(s) <==> Encode(s) == b
  {
    if Decode(b) == Some(s) {
      EncodeDecode(b, s);
    }
    if Encode(s) == b {
      DecodeEncode(s);
    }
  }
}
