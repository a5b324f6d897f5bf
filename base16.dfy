/**
 * Lowercase hexadecimal, the base16 alphabet of section 8 of RFC 4648 in its
 * lowercase form, as `base16ct::lower::encode_string` produces it: every byte
 * becomes two characters, the high nibble first, then the low nibble.
 */
module Base16 {
  import opened Wrappers

  /** The sixteen digits, in value order. */
  const LowerAlphabet: string := "0123456789abcdef"

  predicate IsLowerHexDigit(c: char) {
    '0' <= c <= '9' || 'a' <= c <= 'f'
  }

  predicate IsLowerHex(s: string) {
    forall i :: 0 <= i < |s| ==> IsLowerHexDigit(s[i])
  }

  function HighNibble(b: byte): (n: nat)
    ensures n < 16
  {
    (b as int) / 16
  }

  function LowNibble(b: byte): (n: nat)
    ensures n < 16
  {
    (b as int) % 16
  }

  /** The digit that stands for the nibble `n`. */
  function Digit(n: nat): (c: char)
    requires n < 16
    ensures IsLowerHexDigit(c)
    ensures DigitValue(c) == Some(n)
  {
    LowerAlphabet[n]
  }

  /** The value of a lowercase digit; anything else is not a digit. */
  function DigitValue(c: char): (r: Option<nat>)
    ensures r.Some? <==> IsLowerHexDigit(c)
    ensures r.Some? ==> r.value < 16 && LowerAlphabet[r.value] == c
  {
    if '0' <= c <= '9' then Some(c as int - '0' as int)
    else if 'a' <= c <= 'f' then Some(c as int - 'a' as int + 10)
    else None
  }

  /** The byte whose nibbles are `hi` and `lo`. */
  function Join(hi: nat, lo: nat): (b: byte)
    requires hi < 16 && lo < 16
    ensures HighNibble(b) == hi && LowNibble(b) == lo
  {
    (hi * 16 + lo) as byte
  }

  function EncodeByte(b: byte): (s: string)
  {
    [Digit(HighNibble(b)), Digit(LowNibble(b))]
  }

  /** Encodes the bytes in order, two digits per byte. */
  function Encode(bs: seq<byte>): (s: string)
    ensures |s| == 2 * |bs|
    ensures IsLowerHex(s)
  {
    if bs == [] then [] else EncodeByte(bs[0]) + Encode(bs[1..])
  }

  /**
   * Reads pairs of lowercase digits back into bytes; an odd length or a
   * character outside the lowercase alphabet is rejected.
   */
  function Decode(s: string): (r: Option<seq<byte>>)
    ensures r.Some? ==> 2 * |r.value| == |s|
  {
    if s == [] then Some([])
    else if |s| == 1 then None
    else
      match (DigitValue(s[0]), DigitValue(s[1]), Decode(s[2..]))
      case (Some(hi), Some(lo), Some(rest)) => Some([Join(hi, lo)] + rest)
      case _ => None
  }

  /** Character pair `i` of the encoding is the high then the low nibble of byte `i`. */
  lemma {:induction false} EncodeAt(bs: seq<byte>, i: nat)
    requires i < |bs|
    ensures Encode(bs)[2 * i] == Digit(HighNibble(bs[i]))
    ensures Encode(bs)[2 * i + 1] == Digit(LowNibble(bs[i]))
  {
    if i > 0 {
      EncodeAt(bs[1..], i - 1);
    }
  }

  /** Decoding undoes encoding. */
  lemma {:induction false} DecodeEncode(bs: seq<byte>)
    ensures Decode(Encode(bs)) == Some(bs)
  {
    if bs != [] {
      var s := Encode(bs);
      assert s[..2] == EncodeByte(bs[0]) && s[2..] == Encode(bs[1..]);
      DecodeEncode(bs[1..]);
      assert Join(HighNibble(bs[0]), LowNibble(bs[0])) == bs[0];
      assert [bs[0]] + bs[1..] == bs;
    }
  }

  /** Encoding undoes decoding: the only strings that decode are encodings. */
  lemma {:induction false} EncodeDecode(s: string)
    requires Decode(s).Some?
    ensures Encode(Decode(s).value) == s
  {
    if s != [] {
      var rest := Decode(s[2..]).value;
      var b := Join(DigitValue(s[0]).value, DigitValue(s[1]).value);
      EncodeDecode(s[2..]);
      assert ([b] + rest)[1..] == rest;
      assert s == [s[0], s[1]] + s[2..];
    }
  }

  /** Distinct byte strings have distinct encodings. */
  lemma EncodeInjective(a: seq<byte>, b: seq<byte>)
    ensures Encode(a) == Encode(b) <==> a == b
  {
    if Encode(a) == Encode(b) {
      DecodeEncode(a);
      DecodeEncode(b);
    }
  }
}
