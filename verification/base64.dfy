/**
 * Base64 (section 4 of RFC 4648) as Python's `base64.b64encode` writes it: the
 * standard alphabet and '=' padding to a multiple of four characters.
 */
module Base64 {
  import opened Wrappers
  import opened Bytes
  import Seqs

  const Pad: char := '='

  predicate IsDigit(c: char) {
    'A' <= c <= 'Z' || 'a' <= c <= 'z' || '0' <= c <= '9' || c == '+' || c == '/'
  }

  /** The character for a six-bit value (Table 1 of RFC 4648). */
  function Digit(v: int): (c: char)
    requires 0 <= v < 64
    ensures IsDigit(c)
  {
    if v < 26 then ('A' as int + v) as char
    else if v < 52 then ('a' as int + v - 26) as char
    else if v < 62 then ('0' as int + v - 52) as char
    else if v == 62 then '+'
    else '/'
  }

  function DigitValue(c: char): (v: int)
    requires IsDigit(c)
    ensures 0 <= v < 64
  {
    if 'A' <= c <= 'Z' then c as int - 'A' as int
    else if 'a' <= c <= 'z' then c as int - 'a' as int + 26
    else if '0' <= c <= '9' then c as int - '0' as int + 52
    else if c == '+' then 62
    else 63
  }

  lemma DigitValueOfDigit(v: int)
    requires 0 <= v < 64
    ensures DigitValue(Digit(v)) == v
  {
  }

  /** Three bytes become four characters; a final one or two bytes become two or
      three characters followed by padding. */
  function Encode(bs: seq<byte>): (s: string)
    decreases |bs|
  {
    if bs == [] then []
    else if |bs| == 1 then
      [Digit(bs[0] / 4), Digit(bs[0] % 4 * 16), Pad, Pad]
    else if |bs| == 2 then
      [Digit(bs[0] / 4), Digit(bs[0] % 4 * 16 + bs[1] / 16), Digit(bs[1] % 16 * 4), Pad]
    else
      Group(bs[0], bs[1], bs[2]) + Encode(bs[3..])
  }

  /** The four characters of three bytes: their 24 bits cut into four six-bit values. */
  function Group(b0: byte, b1: byte, b2: byte): (s: string)
    ensures |s| == 4
  {
    [Digit(b0 / 4), Digit(b0 % 4 * 16 + b1 / 16), Digit(b1 % 16 * 4 + b2 / 64), Digit(b2 % 64)]
  }

  /** Every three bytes, and a final one or two, take four characters. */
  lemma {:induction false} EncodeLength(bs: seq<byte>)
    ensures |Encode(bs)| == 4 * ((|bs| + 2) / 3)
    decreases |bs|
  {
    if |bs| > 2 {
      EncodeLength(bs[3..]);
      assert (|bs| + 2) / 3 == (|bs[3..]| + 2) / 3 + 1;
    }
  }

  /** Reads back four-character groups of the alphabet, with padding allowed only
      in the last group; None for anything else. */
  function Decode(s: string): Option<seq<byte>>
    decreases |s|
  {
    if s == [] then Some([])
    else if |s| < 4 || !IsDigit(s[0]) || !IsDigit(s[1]) then None
    else
      var v0 := DigitValue(s[0]);
      var v1 := DigitValue(s[1]);
      var b0 := v0 * 4 + v1 / 16;
      if |s| == 4 && s[2] == Pad && s[3] == Pad then Some([b0])
      else if !IsDigit(s[2]) then None
      else
        var v2 := DigitValue(s[2]);
        var b1 := v1 % 16 * 16 + v2 / 4;
        if |s| == 4 && s[3] == Pad then Some([b0, b1])
        else if !IsDigit(s[3]) then None
        else
          var b2 := v2 % 4 * 64 + DigitValue(s[3]);
          match Decode(s[4..])
          case None => None
          case Some(rest) => Some([b0, b1, b2] + rest)
  }

  /** How the bits of three bytes are split into four six-bit values and rejoined. */
  lemma Regroup(b0: byte, b1: byte, b2: byte)
    ensures (b0 % 4 * 16 + b1 / 16) / 16 == b0 % 4 && (b0 % 4 * 16 + b1 / 16) % 16 == b1 / 16
    ensures (b1 % 16 * 4 + b2 / 64) / 4 == b1 % 16 && (b1 % 16 * 4 + b2 / 64) % 4 == b2 / 64
    ensures b0 / 4 * 4 + b0 % 4 == b0 && b1 / 16 * 16 + b1 % 16 == b1 && b2 / 64 * 64 + b2 % 64 == b2
  {
  }

  /** A full group of four characters is read back as its three bytes. */
  lemma DecodeGroup(b0: byte, b1: byte, b2: byte, rest: string)
    ensures Decode(Group(b0, b1, b2) + rest)
      == match Decode(rest) case None => None case Some(r) => Some([b0, b1, b2] + r)
  {
    var (v0, v1, v2, v3) := (b0 / 4, b0 % 4 * 16 + b1 / 16, b1 % 16 * 4 + b2 / 64, b2 % 64);
    var s := Group(b0, b1, b2) + rest;
    Regroup(b0, b1, b2);
    DigitValueOfDigit(v0);
    DigitValueOfDigit(v1);
    DigitValueOfDigit(v2);
    DigitValueOfDigit(v3);
    assert s[4..] == rest;
    assert IsDigit(s[0]) && IsDigit(s[1]) && IsDigit(s[2]) && IsDigit(s[3]);
    assert s[2] != Pad && s[3] != Pad;
    assert DigitValue(s[0]) == v0 && DigitValue(s[1]) == v1 && DigitValue(s[2]) == v2 && DigitValue(s[3]) == v3;
    assert v0 * 4 + v1 / 16 == b0 && v1 % 16 * 16 + v2 / 4 == b1 && v2 % 4 * 64 + v3 == b2;
  }

  /** A final group holding one byte is read back as that byte. */
  lemma DecodeOne(b0: byte)
    ensures Decode([Digit(b0 / 4), Digit(b0 % 4 * 16), Pad, Pad]) == Some([b0])
  {
    var (v0, v1) := (b0 / 4, b0 % 4 * 16);
    var s := [Digit(v0), Digit(v1), Pad, Pad];
    DigitValueOfDigit(v0);
    DigitValueOfDigit(v1);
    assert IsDigit(s[0]) && IsDigit(s[1]);
    assert DigitValue(s[0]) == v0 && DigitValue(s[1]) == v1;
    assert v0 * 4 + v1 / 16 == b0;
  }

  /** A final group holding two bytes is read back as those bytes. */
  lemma DecodeTwo(b0: byte, b1: byte)
    ensures Decode([Digit(b0 / 4), Digit(b0 % 4 * 16 + b1 / 16), Digit(b1 % 16 * 4), Pad]) == Some([b0, b1])
  {
    var (v0, v1, v2) := (b0 / 4, b0 % 4 * 16 + b1 / 16, b1 % 16 * 4);
    var s := [Digit(v0), Digit(v1), Digit(v2), Pad];
    Regroup(b0, b1, 0);
    DigitValueOfDigit(v0);
    DigitValueOfDigit(v1);
    DigitValueOfDigit(v2);
    assert IsDigit(s[0]) && IsDigit(s[1]) && IsDigit(s[2]);
    assert s[2] != Pad;
    assert DigitValue(s[0]) == v0 && DigitValue(s[1]) == v1 && DigitValue(s[2]) == v2;
    assert v0 * 4 + v1 / 16 == b0 && v1 % 16 * 16 + v2 / 4 == b1;
  }

  /** A final byte is read back. */
  lemma DecodeEncodeOne(b0: byte)
    ensures Decode(Encode([b0])) == Some([b0])
  {
    DecodeOne(b0);
  }

  /** A final two bytes are read back. */
  lemma DecodeEncodeTwo(b0: byte, b1: byte)
    ensures Decode(Encode([b0, b1])) == Some([b0, b1])
  {
    DecodeTwo(b0, b1);
  }

  /** Three leading bytes become one group ahead of the encoding of the rest. */
  lemma EncodeGroup(bs: seq<byte>)
    requires |bs| >= 3
    ensures Encode(bs) == Group(bs[0], bs[1], bs[2]) + Encode(bs[3..])
  {
  }

  /** A group of three bytes is read back ahead of the rest, once the rest is. */
  lemma DecodeEncodeGroup(bs: seq<byte>)
    requires |bs| >= 3 && Decode(Encode(bs[3..])) == Some(bs[3..])
    ensures Decode(Encode(bs)) == Some(bs)
  {
    EncodeGroup(bs);
    DecodeGroup(bs[0], bs[1], bs[2], Encode(bs[3..]));
    Seqs.SplitThree(bs);
  }


  /** Decoding undoes encoding. */
  lemma {:induction false} DecodeEncode(bs: seq<byte>)
    ensures Decode(Encode(bs)) == Some(bs)
    decreases |bs|
  {
    if |bs| == 1 {
      assert bs == [bs[0]];
      DecodeEncodeOne(bs[0]);
    } else if |bs| == 2 {
      assert bs == [bs[0], bs[1]];
      DecodeEncodeTwo(bs[0], bs[1]);
    } else if |bs| >= 3 {
      DecodeEncode(bs[3..]);
      DecodeEncodeGroup(bs);
    }
  }

  /** Distinct byte strings have distinct encodings. */
  lemma EncodeInjective(a: seq<byte>, b: seq<byte>)
    requires Encode(a) == Encode(b)
    ensures a == b
  {
    DecodeEncode(a);
    DecodeEncode(b);
  }
}
