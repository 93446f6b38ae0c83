/**
 * UTF-8, as section 3 of RFC 3629 defines it: the encoding of text into
 * bytes, and the strict decoder that accepts only well-formed byte
 * sequences (what Rust's `str::as_bytes` and `std::str::from_utf8` do).
 */
module Utf8 {
  import opened Wrappers
  import opened Text

  predicate IsContinuation(b: U8) {
    0x80 <= b <= 0xBF
  }

  /** The bytes of one scalar value: one to four of them, by magnitude. */
  function EncodeChar(c: char): (bytes: seq<U8>)
    ensures 1 <= |bytes| <= 4
    ensures |bytes| == 1 <==> (c as int) < 0x80
  {
    var v := c as int;
    if v < 0x80 then [v as U8]
    else if v < 0x800 then [(0xC0 + v / 64) as U8, (0x80 + v % 64) as U8]
    else if v < 0x10000 then
      [(0xE0 + v / 4096) as U8, (0x80 + (v / 64) % 64) as U8, (0x80 + v % 64) as U8]
    else
      [(0xF0 + v / 262144) as U8, (0x80 + (v / 4096) % 64) as U8,
       (0x80 + (v / 64) % 64) as U8, (0x80 + v % 64) as U8]
  }

  /** The encoding of a text: its characters' encodings, in order. */
  function Encode(s: string): (bytes: seq<U8>)
    ensures |bytes| >= |s|
  {
    if s == [] then [] else EncodeChar(s[0]) + Encode(s[1..])
  }

  /** The well-formed character at the head of `b`, with its length in
      bytes, following the table of well-formed sequences: a lead byte
      fixes the length and the range of the second byte, the other
      trailing bytes are continuation bytes. Overlong forms, surrogates
      and values past U+10FFFF are rejected. */
  function DecodeChar(b: seq<U8>): (r: Option<(char, nat)>)
    ensures r.Some? ==> 1 <= r.value.1 <= |b| && r.value.1 <= 4
  {
    if |b| == 0 then None
    else
      var b0 := b[0] as int;
      if b0 <= 0x7F then Some((b0 as char, 1))
      else if 0xC2 <= b0 <= 0xDF then
        if |b| >= 2 && IsContinuation(b[1]) then
          Some((((b0 - 0xC0) * 64 + (b[1] as int - 0x80)) as char, 2))
        else None
      else if 0xE0 <= b0 <= 0xEF then
        var lo := if b0 == 0xE0 then 0xA0 else 0x80;
        var hi := if b0 == 0xED then 0x9F else 0xBF;
        if |b| >= 3 && lo <= b[1] as int <= hi && IsContinuation(b[2]) then
          var v := (b0 - 0xE0) * 4096 + (b[1] as int - 0x80) * 64 + (b[2] as int - 0x80);
          Some((v as char, 3))
        else None
      else if 0xF0 <= b0 <= 0xF4 then
        var lo := if b0 == 0xF0 then 0x90 else 0x80;
        var hi := if b0 == 0xF4 then 0x8F else 0xBF;
        if |b| >= 4 && lo <= b[1] as int <= hi && IsContinuation(b[2]) && IsContinuation(b[3]) then
          var v := (b0 - 0xF0) * 262144 + (b[1] as int - 0x80) * 4096
                   + (b[2] as int - 0x80) * 64 + (b[3] as int - 0x80);
          Some((v as char, 4))
        else None
      else None
  }

  /** `std::str::from_utf8`: the text the bytes encode, or `None` when they
      are not well-formed UTF-8. */
  function Decode(b: seq<U8>): (r: Option<string>)
    decreases |b|
  {
    if b == [] then Some([])
    else match DecodeChar(b)
      case None => None
      case Some((c, n)) =>
        match Decode(b[n..])
        case None => None
        case Some(rest) => Some([c] + rest)
  }

  /** A character's encoding is decoded back to it, whatever follows. */
  lemma DecodeEncodeChar(c: char, rest: seq<U8>)
    ensures DecodeChar(EncodeChar(c) + rest) == Some((c, |EncodeChar(c)|))
  {
    var v := c as int;
    if v < 0x80 {
    } else if v < 0x800 {
      DecodeTwo(c, rest);
    } else if v < 0x10000 {
      DecodeThree(c, rest);
    } else {
      DecodeFour(c, rest);
    }
  }

  lemma DecodeTwo(c: char, rest: seq<U8>)
    requires 0x80 <= c as int < 0x800
    ensures DecodeChar(EncodeChar(c) + rest) == Some((c, 2))
  {
    var v := c as int;
    var b := EncodeChar(c) + rest;
    assert b[0] as int == 0xC0 + v / 64 && b[1] as int == 0x80 + v % 64;
  }

  lemma DecodeThree(c: char, rest: seq<U8>)
    requires 0x800 <= c as int < 0x10000
    ensures DecodeChar(EncodeChar(c) + rest) == Some((c, 3))
  {
    var v := c as int;
    var b := EncodeChar(c) + rest;
    var x, y, z := v / 4096, (v / 64) % 64, v % 64;
    assert v == x * 4096 + y * 64 + z;
    assert b[0] as int == 0xE0 + x && b[1] as int == 0x80 + y && b[2] as int == 0x80 + z;
  }

  /** The four base-64 digits of a code point, as the four-byte form
      spreads them. */
  lemma FourDigits(v: nat)
    ensures v == (v / 262144) * 262144 + ((v / 4096) % 64) * 4096 + ((v / 64) % 64) * 64 + v % 64
  {
    var q1, r1 := v / 64, v % 64;
    var q2, r2 := q1 / 64, q1 % 64;
    assert v == q2 * 4096 + r2 * 64 + r1;
    assert v / 4096 == q2;
    var q3, r3 := q2 / 64, q2 % 64;
    assert v == q3 * 262144 + r3 * 4096 + r2 * 64 + r1;
    assert v / 262144 == q3;
  }

  lemma DecodeFour(c: char, rest: seq<U8>)
    requires 0x10000 <= c as int
    ensures DecodeChar(EncodeChar(c) + rest) == Some((c, 4))
  {
    var v := c as int;
    var b := EncodeChar(c) + rest;
    var w, x, y, z := v / 262144, (v / 4096) % 64, (v / 64) % 64, v % 64;
    FourDigits(v);
    assert b[0] as int == 0xF0 + w && b[1] as int == 0x80 + x;
    assert b[2] as int == 0x80 + y && b[3] as int == 0x80 + z;
  }

  /** Decoding undoes encoding. */
  lemma {:induction false} DecodeEncode(s: string)
    ensures Decode(Encode(s)) == Some(s)
  {
    if s != [] {
      var e := EncodeChar(s[0]);
      var tail := Encode(s[1..]);
      DecodeEncodeChar(s[0], tail);
      assert (e + tail)[|e|..] == tail;
      DecodeEncode(s[1..]);
      assert [s[0]] + s[1..] == s;
    }
  }

  /** A code point built from a lead value and base-64 digits yields those
      digits back under the encoder's divisions. */
  lemma Digits(a: int, x: int, y: int, z: int)
    requires 0 <= a && 0 <= x < 64 && 0 <= y < 64 && 0 <= z < 64
    ensures var v := a * 262144 + x * 4096 + y * 64 + z;
      v / 262144 == a && (v / 4096) % 64 == x && (v / 64) % 64 == y && v % 64 == z
  {
    var v := a * 262144 + x * 4096 + y * 64 + z;
    var q1 := a * 4096 + x * 64 + y;
    assert v == q1 * 64 + z;
    assert v / 64 == q1 && v % 64 == z;
    var q2 := a * 64 + x;
    assert q1 == q2 * 64 + y;
    assert q1 / 64 == q2 && q1 % 64 == y;
    assert v == q2 * 4096 + (y * 64 + z);
    assert v / 4096 == q2;
    assert q2 / 64 == a && q2 % 64 == x;
    assert v == a * 262144 + (x * 4096 + y * 64 + z);
  }

  /** The character at the head of well-formed bytes is encoded as exactly
      the bytes it was decoded from. */
  lemma EncodeDecodeChar(b: seq<U8>)
    requires DecodeChar(b).Some?
    ensures EncodeChar(DecodeChar(b).value.0) == b[..DecodeChar(b).value.1]
  {
    var b0 := b[0] as int;
    if 0xC2 <= b0 <= 0xDF {
      EncodeDecodeTwo(b);
    } else if 0xE0 <= b0 <= 0xEF {
      EncodeDecodeThree(b);
    } else if 0xF0 <= b0 <= 0xF4 {
      EncodeDecodeFour(b);
    }
  }

  lemma EncodeDecodeTwo(b: seq<U8>)
    requires DecodeChar(b).Some? && 0xC2 <= b[0] as int <= 0xDF
    ensures EncodeChar(DecodeChar(b).value.0) == b[..2]
  {
    Digits(0, 0, b[0] as int - 0xC0, b[1] as int - 0x80);
  }

  lemma EncodeDecodeThree(b: seq<U8>)
    requires DecodeChar(b).Some? && 0xE0 <= b[0] as int <= 0xEF
    ensures EncodeChar(DecodeChar(b).value.0) == b[..3]
  {
    Digits(0, b[0] as int - 0xE0, b[1] as int - 0x80, b[2] as int - 0x80);
  }

  lemma EncodeDecodeFour(b: seq<U8>)
    requires DecodeChar(b).Some? && 0xF0 <= b[0] as int <= 0xF4
    ensures EncodeChar(DecodeChar(b).value.0) == b[..4]
  {
    Digits(b[0] as int - 0xF0, b[1] as int - 0x80, b[2] as int - 0x80, b[3] as int - 0x80);
  }

  /** Encoding undoes decoding: well-formed bytes are the encoding of the
      text they decode to. */
  lemma {:induction false} EncodeDecode(b: seq<U8>)
    requires Decode(b).Some?
    ensures Encode(Decode(b).value) == b
    decreases |b|
  {
    if b != [] {
      var (c, n) := DecodeChar(b).value;
      EncodeDecodeChar(b);
      EncodeDecode(b[n..]);
      var s := Decode(b).value;
      assert s == [c] + Decode(b[n..]).value;
      assert s[1..] == Decode(b[n..]).value;
      assert b == b[..n] + b[n..];
    }
  }

  /** ASCII text is encoded byte for byte. */
  lemma {:induction false} EncodeAscii(s: string)
    requires forall i :: 0 <= i < |s| ==> (s[i] as int) < 0x80
    ensures |Encode(s)| == |s|
    ensures forall i :: 0 <= i < |s| ==> Encode(s)[i] as int == s[i] as int
  {
    if s != [] {
      EncodeAscii(s[1..]);
    }
  }

  /** A byte that can never start or continue a well-formed sequence makes
      the whole input ill-formed. */
  lemma InvalidLeadByte(b: seq<U8>)
    requires |b| >= 1 && (0xF5 <= b[0] as int || (0x80 <= b[0] as int <= 0xC1))
    ensures Decode(b) == None
  {
  }
}
