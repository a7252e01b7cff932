/**
 * Hexadecimal text for byte strings: Python's `bytes.hex()` (always lowercase,
 * two digits per byte) and `bytes.fromhex()` (either case, ASCII whitespace
 * allowed before each digit pair, anything else is a ValueError).
 */
module Hex {
  import opened Wrappers
  import Utf8

  type byte = Utf8.byte

  /** The lowercase digit for a value below 16, as in "0123456789abcdef". */
  function Digit(k: nat): (c: char)
    requires k < 16
    ensures IsLowerHexDigit(c)
  {
    if k < 10 then ('0' as int + k) as char else ('a' as int + k - 10) as char
  }

  predicate IsLowerHexDigit(c: char) {
    '0' <= c <= '9' || 'a' <= c <= 'f'
  }

  predicate IsLowerHex(s: string) {
    forall i :: 0 <= i < |s| ==> IsLowerHexDigit(s[i])
  }

  /** The whitespace `bytes.fromhex` skips: space, \t, \n, \v, \f, \r. */
  predicate IsAsciiSpace(c: char) {
    c == ' ' || c == '\t' || c == '\n' || c == '\U{0B}' || c == '\U{0C}' || c == '\r'
  }

  /** The value of one hex digit of either case. */
  function DigitValue(c: char): (r: Option<nat>)
    ensures r.Some? ==> r.value < 16
    ensures IsLowerHexDigit(c) ==> r.Some? && Digit(r.value) == c
    ensures forall k :: 0 <= k < 16 && c == Digit(k) ==> r == Some(k)
  {
    if '0' <= c <= '9' then Some(c as int - '0' as int)
    else if 'a' <= c <= 'f' then Some(c as int - 'a' as int + 10)
    else if 'A' <= c <= 'F' then Some(c as int - 'A' as int + 10)
    else None
  }

  function ByteHex(x: byte): (r: string)
    ensures |r| == 2 && IsLowerHexDigit(r[0]) && IsLowerHexDigit(r[1])
    ensures DigitValue(r[0]).Some? && DigitValue(r[1]).Some?
    ensures DigitValue(r[0]).value * 16 + DigitValue(r[1]).value == x as int
  {
    [Digit(x as int / 16), Digit(x as int % 16)]
  }

  /** `bytes.hex()`. */
  function Encode(b: seq<byte>): (r: string)
    ensures |r| == 2 * |b|
    ensures IsLowerHex(r)
  {
    if b == [] then [] else ByteHex(b[0]) + Encode(b[1..])
  }

  /** `bytes.fromhex()`: None where Python raises ValueError. */
  function Decode(s: string): (r: Option<seq<byte>>)
    ensures r.Some? ==> 2 * |r.value| <= |s|
    decreases |s|
  {
    if s == [] then Some([])
    else if IsAsciiSpace(s[0]) then Decode(s[1..])
    else if |s| >= 2 && DigitValue(s[0]).Some? && DigitValue(s[1]).Some? then
      match Decode(s[2..])
      case None => None
      case Some(rest) => Some([(DigitValue(s[0]).value * 16 + DigitValue(s[1]).value) as byte] + rest)
    else None
  }

  /** One step of `fromhex` on a leading digit pair. */
  lemma DecodePair(s: string)
    requires |s| >= 2 && !IsAsciiSpace(s[0]) && DigitValue(s[0]).Some? && DigitValue(s[1]).Some?
    ensures Decode(s)
         == if Decode(s[2..]).Some?
            then Some([(DigitValue(s[0]).value * 16 + DigitValue(s[1]).value) as byte] + Decode(s[2..]).value)
            else None
  {
  }

  /** Text opening with a byte's two digits is read as that byte, then the rest. */
  lemma DecodeDigits(s: string, x: byte)
    requires |s| >= 2 && s[0] == ByteHex(x)[0] && s[1] == ByteHex(x)[1]
    ensures Decode(s) == if Decode(s[2..]).Some? then Some([x] + Decode(s[2..]).value) else None
  {
    var hi := DigitValue(s[0]).value;
    var lo := DigitValue(s[1]).value;
    assert (hi * 16 + lo) as byte == x;
    assert !IsAsciiSpace(s[0]);
    DecodePair(s);
  }

  /** A byte's two digits are read back as that byte, in front of whatever follows. */
  lemma DecodeByteHex(x: byte, t: string)
    ensures Decode(ByteHex(x) + t) == if Decode(t).Some? then Some([x] + Decode(t).value) else None
  {
    var s := ByteHex(x) + t;
    assert s[2..] == t;
    DecodeDigits(s, x);
  }

  /** `fromhex(hex(b)) == b` for every byte string. */
  lemma {:induction false} DecodeEncode(b: seq<byte>)
    ensures Decode(Encode(b)) == Some(b)
  {
    if b != [] {
      assert Encode(b) == ByteHex(b[0]) + Encode(b[1..]);
      DecodeEncode(b[1..]);
      DecodeByteHex(b[0], Encode(b[1..]));
      assert [b[0]] + b[1..] == b;
    }
  }

  /** A successful decode of lowercase text starts with a digit pair and decodes the rest. */
  lemma DecodePairStep(s: string)
    requires IsLowerHex(s) && s != [] && Decode(s).Some?
    ensures |s| >= 2 && DigitValue(s[0]).Some? && DigitValue(s[1]).Some?
    ensures IsLowerHex(s[2..]) && Decode(s[2..]).Some?
    ensures Decode(s).value
         == [(DigitValue(s[0]).value * 16 + DigitValue(s[1]).value) as byte] + Decode(s[2..]).value
  {
    assert !IsAsciiSpace(s[0]);
  }

  /** Two lowercase digits are the rendering of the byte they denote. */
  lemma ByteHexOfDigits(x: byte, h: string)
    requires |h| == 2 && IsLowerHexDigit(h[0]) && IsLowerHexDigit(h[1])
    requires DigitValue(h[0]).Some? && DigitValue(h[1]).Some?
    requires x as int == DigitValue(h[0]).value * 16 + DigitValue(h[1]).value
    ensures ByteHex(x) == h
  {
    var hi := DigitValue(h[0]).value;
    var lo := DigitValue(h[1]).value;
    assert hi == x as int / 16 && lo == x as int % 16;
  }

  /**
   * Conversely, any lowercase hex text `fromhex` accepts is exactly the
   * `hex()` of what it decodes to, so on such text the two are inverse.
   */
  lemma {:induction false} EncodeDecode(s: string)
    requires IsLowerHex(s)
    requires Decode(s).Some?
    ensures Encode(Decode(s).value) == s
    decreases |s|
  {
    if s != [] {
      DecodePairStep(s);
      var rest := Decode(s[2..]).value;
      var x := (DigitValue(s[0]).value * 16 + DigitValue(s[1]).value) as byte;
      EncodeDecode(s[2..]);
      ByteHexOfDigits(x, s[..2]);
      EncodeGlue(x, rest, s);
    }
  }

  /** Gluing a byte's rendering to the rest's rendering gives back the text. */
  lemma EncodeGlue(x: byte, rest: seq<byte>, s: string)
    requires |s| >= 2 && ByteHex(x) == s[..2] && Encode(rest) == s[2..]
    ensures Encode([x] + rest) == s
  {
    assert ([x] + rest)[0] == x && ([x] + rest)[1..] == rest;
    assert s == s[..2] + s[2..];
  }

  /** Odd-length runs of hex digits, of either case, are rejected. */
  lemma {:induction false} DecodeOddLength(s: string)
    requires forall i :: 0 <= i < |s| ==> DigitValue(s[i]).Some?
    requires |s| % 2 == 1
    ensures Decode(s) == None
    decreases |s|
  {
    assert !IsAsciiSpace(s[0]);
    if |s| > 1 {
      assert forall i :: 0 <= i < |s[2..]| ==> DigitValue(s[2..][i]).Some? by {
        forall i | 0 <= i < |s[2..]|
          ensures DigitValue(s[2..][i]).Some?
        {
          assert s[2..][i] == s[i + 2];
        }
      }
      DecodeOddLength(s[2..]);
    }
  }

  /** Distinct byte strings have distinct hex renderings. */
  lemma EncodeInjective(a: seq<byte>, b: seq<byte>)
    requires Encode(a) == Encode(b)
    ensures a == b
  {
    DecodeEncode(a);
    DecodeEncode(b);
  }
}
