/**
 * Bytes and the UTF-8 transformation between strings and bytes
 * (Python's `str.encode('utf-8')` and strict `bytes.decode('utf-8')`).
 * A Dafny `char` is a Unicode scalar value, so every string is encodable.
 */
module Utf8 {
  import opened Wrappers

  newtype byte = x: int | 0 <= x < 256

  /** A continuation byte 10xxxxxx. */
  predicate IsCont(x: byte) {
    0x80 <= x < 0xC0
  }

  predicate IsAscii(s: string) {
    forall i :: 0 <= i < |s| ==> (s[i] as int) < 0x80
  }

  /** The shortest UTF-8 byte sequence for one scalar value. */
  function EncodeChar(c: char): (r: seq<byte>)
    ensures 1 <= |r| <= 4
    ensures (c as int) < 0x80 <==> |r| == 1
    ensures |r| == 1 ==> r[0] as int == c as int
  {
    var n := c as int;
    if n < 0x80 then
      [n as byte]
    else if n < 0x800 then
      [(0xC0 + n / 64) as byte, (0x80 + n % 64) as byte]
    else if n < 0x10000 then
      [(0xE0 + n / 4096) as byte, (0x80 + (n / 64) % 64) as byte, (0x80 + n % 64) as byte]
    else
      [(0xF0 + n / 262144) as byte, (0x80 + (n / 4096) % 64) as byte,
       (0x80 + (n / 64) % 64) as byte, (0x80 + n % 64) as byte]
  }

  function Encode(s: string): (r: seq<byte>)
    ensures |s| <= |r| <= 4 * |s|
  {
    if s == [] then [] else EncodeChar(s[0]) + Encode(s[1..])
  }

  /**
   * Decodes the scalar value at the front of `b`, returning it with the number
   * of bytes it occupies, or None when the front is not a well-formed UTF-8
   * sequence (stray continuation byte, overlong form, surrogate, value above
   * U+10FFFF, or truncation).
   */
  function DecodeFirst(b: seq<byte>): (r: Option<(char, nat)>)
    requires |b| > 0
    ensures r.Some? ==> 1 <= r.value.1 <= |b| && r.value.1 <= 4
  {
    var b0 := b[0] as int;
    if b0 < 0x80 then
      Some((b0 as char, 1))
    else if 0xC2 <= b0 < 0xE0 then
      if |b| >= 2 && IsCont(b[1]) then
        Some((((b0 - 0xC0) * 64 + (b[1] as int - 0x80)) as char, 2))
      else None
    else if 0xE0 <= b0 < 0xF0 then
      var lo := if b0 == 0xE0 then 0xA0 else 0x80;
      var hi := if b0 == 0xED then 0xA0 else 0xC0;
      if |b| >= 3 && lo <= b[1] as int < hi && IsCont(b[2]) then
        Some((((b0 - 0xE0) * 4096 + (b[1] as int - 0x80) * 64 + (b[2] as int - 0x80)) as char, 3))
      else None
    else if 0xF0 <= b0 < 0xF5 then
      var lo := if b0 == 0xF0 then 0x90 else 0x80;
      var hi := if b0 == 0xF4 then 0x90 else 0xC0;
      if |b| >= 4 && lo <= b[1] as int < hi && IsCont(b[2]) && IsCont(b[3]) then
        Some((((b0 - 0xF0) * 262144 + (b[1] as int - 0x80) * 4096
               + (b[2] as int - 0x80) * 64 + (b[3] as int - 0x80)) as char, 4))
      else None
    else
      None
  }

  function Decode(b: seq<byte>): (r: Option<string>)
    ensures r.Some? ==> |r.value| <= |b|
    ensures r.Some? ==> (r.value == [] <==> b == [])
    decreases |b|
  {
    if b == [] then Some([])
    else match DecodeFirst(b)
      case None => None
      case Some((c, n)) =>
        match Decode(b[n..])
        case None => None
        case Some(rest) => Some([c] + rest)
  }

  lemma DivMod64(q: int, r: int)
    requires 0 <= r < 64
    ensures (q * 64 + r) / 64 == q && (q * 64 + r) % 64 == r
  {
  }

  lemma DecodeEncodeChar2(c: char, rest: seq<byte>)
    requires 0x80 <= c as int < 0x800
    ensures DecodeFirst(EncodeChar(c) + rest) == Some((c, 2))
  {
    var n := c as int;
    var b := EncodeChar(c) + rest;
    assert b[0] as int == 0xC0 + n / 64 && b[1] as int == 0x80 + n % 64;
    assert (n / 64) * 64 + n % 64 == n;
  }

  lemma DecodeEncodeChar3(c: char, rest: seq<byte>)
    requires 0x800 <= c as int < 0x10000
    ensures DecodeFirst(EncodeChar(c) + rest) == Some((c, 3))
  {
    var n := c as int;
    var q := n / 64;
    var q2 := q / 64;
    assert n == q * 64 + n % 64;
    assert q == q2 * 64 + q % 64;
    assert n / 4096 == q2;
    var b := EncodeChar(c) + rest;
    assert b[0] as int == 0xE0 + q2 && b[1] as int == 0x80 + q % 64 && b[2] as int == 0x80 + n % 64;
  }

  lemma DecodeEncodeChar4(c: char, rest: seq<byte>)
    requires 0x10000 <= c as int
    ensures DecodeFirst(EncodeChar(c) + rest) == Some((c, 4))
  {
    var n := c as int;
    var q := n / 64;
    var q2 := q / 64;
    var q3 := q2 / 64;
    assert n == q * 64 + n % 64;
    assert q == q2 * 64 + q % 64;
    assert q2 == q3 * 64 + q2 % 64;
    assert n / 4096 == q2;
    assert n / 262144 == q3;
    var b := EncodeChar(c) + rest;
    assert b[0] as int == 0xF0 + q3 && b[1] as int == 0x80 + q2 % 64;
    assert b[2] as int == 0x80 + q % 64 && b[3] as int == 0x80 + n % 64;
  }

  /** Decoding the encoding of one character yields it back and consumes exactly its bytes. */
  lemma DecodeEncodeChar(c: char, rest: seq<byte>)
    ensures DecodeFirst(EncodeChar(c) + rest) == Some((c, |EncodeChar(c)|))
  {
    var n := c as int;
    if n < 0x80 {
    } else if n < 0x800 {
      DecodeEncodeChar2(c, rest);
    } else if n < 0x10000 {
      DecodeEncodeChar3(c, rest);
    } else {
      DecodeEncodeChar4(c, rest);
    }
  }

  lemma EncodeDecodeFirst2(b: seq<byte>)
    requires |b| > 0 && 0x80 <= b[0] < 0xE0 && DecodeFirst(b).Some?
    ensures EncodeChar(DecodeFirst(b).value.0) == b[..2]
  {
    var b0 := b[0] as int;
    var c := DecodeFirst(b).value.0;
    assert c as int == (b0 - 0xC0) * 64 + (b[1] as int - 0x80);
    DivMod64(b0 - 0xC0, b[1] as int - 0x80);
    var e := EncodeChar(c);
    assert |e| == 2 && e[0] == b[0] && e[1] == b[1];
  }

  lemma EncodeDecodeFirst3(b: seq<byte>)
    requires |b| > 0 && 0xE0 <= b[0] < 0xF0 && DecodeFirst(b).Some?
    ensures EncodeChar(DecodeFirst(b).value.0) == b[..3]
  {
    var b0 := b[0] as int;
    var c := DecodeFirst(b).value.0;
    var q := (b0 - 0xE0) * 64 + (b[1] as int - 0x80);
    var n := q * 64 + (b[2] as int - 0x80);
    assert c as int == n;
    DivMod64(q, b[2] as int - 0x80);
    DivMod64(b0 - 0xE0, b[1] as int - 0x80);
    assert n / 4096 == b0 - 0xE0;
    var e := EncodeChar(c);
    assert |e| == 3 && e[0] == b[0] && e[1] == b[1] && e[2] == b[2];
  }

  lemma EncodeDecodeFirst4(b: seq<byte>)
    requires |b| > 0 && 0xF0 <= b[0] && DecodeFirst(b).Some?
    ensures EncodeChar(DecodeFirst(b).value.0) == b[..4]
  {
    var b0 := b[0] as int;
    var c := DecodeFirst(b).value.0;
    var q2 := (b0 - 0xF0) * 64 + (b[1] as int - 0x80);
    var q := q2 * 64 + (b[2] as int - 0x80);
    var n := q * 64 + (b[3] as int - 0x80);
    assert c as int == n;
    DivMod64(q, b[3] as int - 0x80);
    DivMod64(q2, b[2] as int - 0x80);
    DivMod64(b0 - 0xF0, b[1] as int - 0x80);
    assert n / 4096 == q2;
    assert n / 262144 == b0 - 0xF0;
    var e := EncodeChar(c);
    assert |e| == 4 && e[0] == b[0] && e[1] == b[1] && e[2] == b[2] && e[3] == b[3];
  }

  /** A well-formed sequence decodes to a character whose encoding is exactly that sequence. */
  lemma EncodeDecodeFirst(b: seq<byte>)
    requires |b| > 0 && DecodeFirst(b).Some?
    ensures EncodeChar(DecodeFirst(b).value.0) == b[..DecodeFirst(b).value.1]
  {
    if b[0] < 0x80 {
      assert b[..1] == [b[0]];
    } else if b[0] < 0xE0 {
      EncodeDecodeFirst2(b);
    } else if b[0] < 0xF0 {
      EncodeDecodeFirst3(b);
    } else {
      EncodeDecodeFirst4(b);
    }
  }

  /** Strict decoding inverts encoding for every string. */
  lemma {:induction false} DecodeEncode(s: string)
    ensures Decode(Encode(s)) == Some(s)
  {
    if s != [] {
      var e := EncodeChar(s[0]);
      var b := Encode(s);
      assert b == e + Encode(s[1..]);
      DecodeEncodeChar(s[0], Encode(s[1..]));
      assert DecodeFirst(b) == Some((s[0], |e|));
      assert b[|e|..] == Encode(s[1..]);
      DecodeEncode(s[1..]);
      assert Decode(b) == Some([s[0]] + s[1..]);
      assert [s[0]] + s[1..] == s;
    }
  }

  /** A byte string that is the encoding of some text decodes to exactly that text. */
  lemma DecodeEncodings(b: seq<byte>)
    ensures forall t :: b == Encode(t) ==> Decode(b) == Some(t)
  {
    forall t | b == Encode(t)
      ensures Decode(b) == Some(t)
    {
      DecodeEncode(t);
    }
  }

  /** The encoding of a string is its first character's bytes followed by the rest's. */
  lemma EncodeCons(c: char, rest: string)
    ensures Encode([c] + rest) == EncodeChar(c) + Encode(rest)
  {
    assert ([c] + rest)[0] == c && ([c] + rest)[1..] == rest;
  }

  /** A successful decode is the first character followed by the decoding of the rest. */
  lemma DecodeStep(b: seq<byte>)
    requires b != [] && Decode(b).Some?
    ensures DecodeFirst(b).Some?
    ensures var n := DecodeFirst(b).value.1;
            && Decode(b[n..]).Some?
            && Decode(b).value == [DecodeFirst(b).value.0] + Decode(b[n..]).value
  {
  }

  /** Gluing the encoded first character to the encoded rest gives back the bytes. */
  lemma EncodeGlue(b: seq<byte>, n: nat, c: char, rest: string)
    requires n <= |b|
    requires EncodeChar(c) == b[..n] && Encode(rest) == b[n..]
    ensures Encode([c] + rest) == b
  {
    EncodeCons(c, rest);
    assert b == b[..n] + b[n..];
  }

  /** Encoding inverts successful decoding: UTF-8 is a bijection onto the well-formed byte sequences. */
  lemma {:induction false} EncodeDecode(b: seq<byte>)
    requires Decode(b).Some?
    ensures Encode(Decode(b).value) == b
    decreases |b|
  {
    if b != [] {
      DecodeStep(b);
      var c := DecodeFirst(b).value.0;
      var n := DecodeFirst(b).value.1;
      var rest := Decode(b[n..]).value;
      EncodeDecodeFirst(b);
      EncodeDecode(b[n..]);
      EncodeGlue(b, n, c, rest);
    }
  }

  /** An ASCII string encodes to one byte per character, each equal to the character's code. */
  lemma {:induction false} EncodeAscii(s: string)
    requires IsAscii(s)
    ensures |Encode(s)| == |s|
    ensures forall i :: 0 <= i < |s| ==> Encode(s)[i] as int == s[i] as int
  {
    if s != [] {
      assert IsAscii(s[1..]);
      EncodeAscii(s[1..]);
    }
  }
}
