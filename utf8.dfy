/**
  The UTF-8 transformation format of section 3 of RFC 3629, on Dafny's
  `char` (a Unicode scalar value: U+0000..U+D7FF and U+E000..U+10FFFF).
  `EncodeString` is what `str.encode('utf-8')` produces; `Decode` is the
  strict decoder of `bytes.decode('utf-8')`: it rejects stray continuation
  bytes, truncated sequences, overlong forms, encoded surrogates and values
  above U+10FFFF, so that it accepts exactly the encodings of strings.
 */
module Utf8 {
  import opened Wrappers

  type Byte = b: nat | b < 256

  predicate IsContinuation(b: Byte)
  {
    0x80 <= b < 0xC0
  }

  /** The one- to four-byte encoding of one scalar value (the table of section 3 of RFC 3629). */
  function EncodeChar(c: char): (r: seq<Byte>)
    ensures 1 <= |r| <= 4
  {
    var cp := c as int;
    if cp < 0x80 then [cp]
    else if cp < 0x800 then [0xC0 + cp / 64, 0x80 + cp % 64]
    else if cp < 0x1_0000 then [0xE0 + cp / 64 / 64, 0x80 + cp / 64 % 64, 0x80 + cp % 64]
    else [0xF0 + cp / 64 / 64 / 64, 0x80 + cp / 64 / 64 % 64, 0x80 + cp / 64 % 64, 0x80 + cp % 64]
  }

  /** The bytes of a string: each character encoded, in order. */
  function EncodeString(s: string): seq<Byte>
  {
    if s == [] then [] else EncodeChar(s[0]) + EncodeString(s[1..])
  }

  /**
    The first character of a non-empty byte sequence and the number of bytes
    it takes, or None when the sequence does not start with a well-formed
    UTF-8 character (the byte ranges of section 4 of RFC 3629).
   */
  function DecodeFirst(b: seq<Byte>): (r: Option<(char, nat)>)
    requires |b| > 0
    ensures r.Some? ==> 1 <= r.value.1 <= 4 && r.value.1 <= |b|
  {
    var b0 := b[0] as int;
    if b0 < 0x80 then Some((b0 as char, 1))
    else if b0 < 0xC2 then None
    else if b0 < 0xE0 then
      if |b| < 2 || !IsContinuation(b[1]) then None
      else Some((((b0 - 0xC0) * 64 + (b[1] as int - 0x80)) as char, 2))
    else if b0 < 0xF0 then
      if |b| < 3 || !IsContinuation(b[1]) || !IsContinuation(b[2]) then None
      else
        var cp := ((b0 - 0xE0) * 64 + (b[1] as int - 0x80)) * 64 + (b[2] as int - 0x80);
        if cp < 0x800 || 0xD800 <= cp < 0xE000 then None else Some((cp as char, 3))
    else if b0 < 0xF5 then
      if |b| < 4 || !IsContinuation(b[1]) || !IsContinuation(b[2]) || !IsContinuation(b[3]) then None
      else
        var cp := (((b0 - 0xF0) * 64 + (b[1] as int - 0x80)) * 64 + (b[2] as int - 0x80)) * 64 + (b[3] as int - 0x80);
        if cp < 0x1_0000 || cp > 0x10_FFFF then None else Some((cp as char, 4))
    else None
  }

  /** `bytes.decode('utf-8')`: the decoded string, or None where Python raises UnicodeDecodeError. */
  function Decode(b: seq<Byte>): Option<string>
    decreases |b|
  {
    if b == [] then Some([])
    else
      match DecodeFirst(b)
      case None => None
      case Some((c, n)) =>
        match Decode(b[n..])
        case None => None
        case Some(s) => Some([c] + s)
  }

  lemma DivMod64(q: int, r: int)
    requires 0 <= r < 64
    ensures (q * 64 + r) / 64 == q && (q * 64 + r) % 64 == r
  {
  }

  /** The decoder reads back the character the encoder wrote, whatever follows it. */
  lemma DecodeFirstEncodeChar(c: char, rest: seq<Byte>)
    ensures DecodeFirst(EncodeChar(c) + rest) == Some((c, |EncodeChar(c)|))
  {
    var cp := c as int;
    var b := EncodeChar(c) + rest;
    var q1 := cp / 64;
    var q2 := q1 / 64;
    var q3 := q2 / 64;
    assert cp == q1 * 64 + cp % 64;
    assert q1 == q2 * 64 + q1 % 64;
    assert q2 == q3 * 64 + q2 % 64;
    if cp < 0x80 {
    } else if cp < 0x800 {
      assert b[0] == 0xC0 + q1 && b[1] == 0x80 + cp % 64;
    } else if cp < 0x1_0000 {
      assert b[0] == 0xE0 + q2 && b[1] == 0x80 + q1 % 64 && b[2] == 0x80 + cp % 64;
    } else {
      assert b[0] == 0xF0 + q3 && b[1] == 0x80 + q2 % 64 && b[2] == 0x80 + q1 % 64 && b[3] == 0x80 + cp % 64;
    }
  }

  /** The decoder accepts a character only in its one canonical encoding. */
  lemma DecodeFirstCanonical(b: seq<Byte>)
    requires |b| > 0 && DecodeFirst(b).Some?
    ensures b[..DecodeFirst(b).value.1] == EncodeChar(DecodeFirst(b).value.0)
  {
    var (c, n) := DecodeFirst(b).value;
    var cp := c as int;
    if n == 2 {
      DivMod64(b[0] as int - 0xC0, b[1] as int - 0x80);
    } else if n == 3 {
      var x := (b[0] as int - 0xE0) * 64 + (b[1] as int - 0x80);
      DivMod64(x, b[2] as int - 0x80);
      DivMod64(b[0] as int - 0xE0, b[1] as int - 0x80);
    } else if n == 4 {
      var y := (b[0] as int - 0xF0) * 64 + (b[1] as int - 0x80);
      var x := y * 64 + (b[2] as int - 0x80);
      DivMod64(x, b[3] as int - 0x80);
      DivMod64(y, b[2] as int - 0x80);
      DivMod64(b[0] as int - 0xF0, b[1] as int - 0x80);
    }
  }

  /** Round trip: decoding the encoding of a string gives the string back. */
  lemma {:induction false} DecodeEncode(s: string)
    ensures Decode(EncodeString(s)) == Some(s)
  {
    if s != [] {
      var e := EncodeChar(s[0]);
      var b := EncodeString(s);
      assert b == e + EncodeString(s[1..]);
      DecodeFirstEncodeChar(s[0], EncodeString(s[1..]));
      assert b[|e|..] == EncodeString(s[1..]);
      DecodeEncode(s[1..]);
      assert [s[0]] + s[1..] == s;
    }
  }

  lemma EncodeStringCons(c: char, s: string)
    ensures EncodeString([c] + s) == EncodeChar(c) + EncodeString(s)
  {
    assert ([c] + s)[1..] == s;
  }

  /** Proof helper: one unfolding of `Decode` on a successful decode. */
  lemma DecodeCons(b: seq<Byte>)
    requires b != [] && Decode(b).Some?
    ensures DecodeFirst(b).Some?
    ensures Decode(b[DecodeFirst(b).value.1..]).Some?
    ensures Decode(b).value == [DecodeFirst(b).value.0] + Decode(b[DecodeFirst(b).value.1..]).value
  {
  }

  /** Whatever the decoder accepts is the encoding of the string it returns. */
  lemma {:induction false} EncodeDecode(b: seq<Byte>)
    requires Decode(b).Some?
    ensures EncodeString(Decode(b).value) == b
    decreases |b|
  {
    if b != [] {
      DecodeCons(b);
      var (c, n) := DecodeFirst(b).value;
      DecodeFirstCanonical(b);
      EncodeDecode(b[n..]);
      EncodeStringCons(c, Decode(b[n..]).value);
      assert b == b[..n] + b[n..];
    }
  }

  /** The decoder succeeds with `s` exactly on the encoding of `s`. */
  lemma DecodeIff(b: seq<Byte>, s: string)
    ensures Decode(b) == Some(s) <==> EncodeString(s) == b
  {
    if Decode(b) == Some(s) {
      EncodeDecode(b);
    }
    if EncodeString(s) == b {
      DecodeEncode(s);
    }
  }
}
