/**
 * Base16 (section 8 of RFC 4648) as Python's `base64.b16encode` writes it, with
 * upper-case digits, and as `base64.b16decode(s)` (casefold=False) reads it.
 */
module Base16 {
  import opened Wrappers
  import opened Bytes

  predicate IsDigit(c: char) { '0' <= c <= '9' || 'A' <= c <= 'F' }

  function Digit(v: int): (c: char)
    requires 0 <= v < 16
    ensures IsDigit(c)
  {
    if v < 10 then ('0' as int + v) as char else ('A' as int + v - 10) as char
  }

  function DigitValue(c: char): (v: int)
    requires IsDigit(c)
    ensures 0 <= v < 16 && Digit(v) == c
  {
    if c <= '9' then c as int - '0' as int else c as int - 'A' as int + 10
  }

  /** Two digits per byte, high nibble first. */
  function Encode(bs: seq<byte>): (s: string)
    ensures |s| == 2 * |bs|
    ensures forall i | 0 <= i < |s| :: IsDigit(s[i])
    decreases |bs|
  {
    if bs == [] then [] else [Digit(bs[0] / 16), Digit(bs[0] % 16)] + Encode(bs[1..])
  }

  /** None where Python raises binascii.Error: a character outside the upper-case
      alphabet, or an odd number of digits. */
  function Decode(s: string): Option<seq<byte>>
    decreases |s|
  {
    if s == [] then Some([])
    else if |s| == 1 || !IsDigit(s[0]) || !IsDigit(s[1]) then None
    else match Decode(s[2..])
      case None => None
      case Some(rest) => Some([DigitValue(s[0]) * 16 + DigitValue(s[1])] + rest)
  }

  lemma {:induction false} DecodeEncode(bs: seq<byte>)
    ensures Decode(Encode(bs)) == Some(bs)
    decreases |bs|
  {
    if bs != [] {
      var s := Encode(bs);
      assert s[2..] == Encode(bs[1..]);
      DecodeEncode(bs[1..]);
      assert DigitValue(s[0]) == bs[0] / 16 && DigitValue(s[1]) == bs[0] % 16;
      assert [bs[0]] + bs[1..] == bs;
    }
  }

  lemma {:induction false} EncodeDecode(s: string)
    requires Decode(s).Some?
    ensures Encode(Decode(s).value) == s
    decreases |s|
  {
    if s != [] {
      EncodeDecode(s[2..]);
      var b := DigitValue(s[0]) * 16 + DigitValue(s[1]);
      assert b / 16 == DigitValue(s[0]) && b % 16 == DigitValue(s[1]);
      assert Decode(s).value[1..] == Decode(s[2..]).value;
      assert s == [s[0], s[1]] + s[2..];
    }
  }

  /** Decode and Encode are inverse bijections between byte strings and
      even-length strings of upper-case hexadecimal digits. */
  lemma Bijection(bs: seq<byte>, s: string)
    ensures Decode(s) == Some(bs) <==> Encode(bs) == s
  {
    if Decode(s) == Some(bs) {
      EncodeDecode(s);
    }
    if Encode(bs) == s {
      DecodeEncode(bs);
    }
  }
}
