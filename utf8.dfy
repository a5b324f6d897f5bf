/**
 * UTF-8, the byte form of a Rust `String`. Hashing a `String` hashes these
 * bytes, so the identifier is a function of the UTF-8 encoding of the salted
 * name. A Dafny `char` is a Unicode scalar value, as a Rust `char` is.
 */
module Utf8 {
  import opened Wrappers

  /** Code points that are Unicode scalar values (no surrogates). */
  predicate IsScalar(cp: int) {
    0 <= cp < 0xD800 || 0xE000 <= cp < 0x11_0000
  }

  /** The smallest code point that needs `n` bytes; smaller ones would be overlong. */
  function MinCodePoint(n: nat): int
    requires 1 <= n <= 4
  {
    if n == 1 then 0 else if n == 2 then 0x80 else if n == 3 then 0x800 else 0x1_0000
  }

  /** The number of bytes the encoding of `cp` takes. */
  function EncodedLength(cp: int): (n: nat)
    ensures 1 <= n <= 4
  {
    if cp < 0x80 then 1 else if cp < 0x800 then 2 else if cp < 0x1_0000 then 3 else 4
  }

  /** The 1 to 4 bytes of one scalar value. */
  function EncodeScalar(c: char): (bs: seq<byte>)
    ensures |bs| == EncodedLength(c as int)
  {
    var cp := c as int;
    if cp < 0x80 then
      [cp as byte]
    else if cp < 0x800 then
      [(0xC0 + cp / 0x40) as byte, (0x80 + cp % 0x40) as byte]
    else if cp < 0x1_0000 then
      [(0xE0 + cp / 0x1000) as byte, (0x80 + cp / 0x40 % 0x40) as byte, (0x80 + cp % 0x40) as byte]
    else
      [(0xF0 + cp / 0x4_0000) as byte, (0x80 + cp / 0x1000 % 0x40) as byte,
       (0x80 + cp / 0x40 % 0x40) as byte, (0x80 + cp % 0x40) as byte]
  }

  /** The encoding of a string: its scalars' encodings, in order. */
  function Encode(s: string): (bs: seq<byte>)
    ensures |s| <= |bs| <= 4 * |s|
  {
    if s == [] then [] else EncodeScalar(s[0]) + Encode(s[1..])
  }

  /** The sequence length a lead byte announces; 0 for a byte that cannot lead. */
  function LeadLength(lead: byte): (n: nat)
    ensures n <= 4
  {
    if lead < 0x80 then 1
    else if 0xC0 <= lead < 0xE0 then 2
    else if 0xE0 <= lead < 0xF0 then 3
    else if 0xF0 <= lead < 0xF8 then 4
    else 0
  }

  predicate IsContinuation(b: byte) {
    0x80 <= b < 0xC0
  }

  /** The `n - 1` bytes after the lead byte are all continuation bytes. */
  predicate ContinuationsFollow(bs: seq<byte>, n: nat)
    requires n <= |bs|
  {
    forall k :: 1 <= k < n ==> IsContinuation(bs[k])
  }

  /** The six payload bits of a continuation byte. */
  function Payload(b: byte): int {
    b as int - 0x80
  }

  /** The code point that the `n` bytes at the front of `bs` spell out. */
  function CodePoint(bs: seq<byte>, n: nat): int
    requires 1 <= n <= 4 && n <= |bs|
  {
    if n == 1 then bs[0] as int
    else if n == 2 then (bs[0] as int - 0xC0) * 0x40 + Payload(bs[1])
    else if n == 3 then (bs[0] as int - 0xE0) * 0x1000 + Payload(bs[1]) * 0x40 + Payload(bs[2])
    else (bs[0] as int - 0xF0) * 0x4_0000 + Payload(bs[1]) * 0x1000 + Payload(bs[2]) * 0x40 + Payload(bs[3])
  }

  /**
   * Decodes the scalar at the front of `bs` and says how many bytes it took;
   * a bad lead byte, a truncated or broken sequence, an overlong form, a
   * surrogate or a value past U+10FFFF is rejected.
   */
  function DecodeScalar(bs: seq<byte>): (r: Option<(char, nat)>)
    ensures r.Some? ==> 1 <= r.value.1 <= |bs|
  {
    if bs == [] then None
    else
      var n := LeadLength(bs[0]);
      if n == 0 || |bs| < n then None
      else if !ContinuationsFollow(bs, n) then None
      else
        var cp := CodePoint(bs, n);
        if cp < MinCodePoint(n) || !IsScalar(cp) then None
        else Some((cp as char, n))
  }

  /** Decodes a whole byte string, or rejects it if it is not well-formed UTF-8. */
  function Decode(bs: seq<byte>): (r: Option<string>)
    decreases |bs|
  {
    if bs == [] then Some([])
    else
      match DecodeScalar(bs)
      case None => None
      case Some((c, n)) =>
        match Decode(bs[n..])
        case None => None
        case Some(rest) => Some([c] + rest)
  }

  /** Splitting a code point into 6-bit groups and joining them again is the identity. */
  lemma SixBitGroups(cp: int)
    requires 0 <= cp < 0x20_0000
    ensures (cp / 0x40) * 0x40 + cp % 0x40 == cp
    ensures (cp / 0x1000) * 0x1000 + (cp / 0x40 % 0x40) * 0x40 + cp % 0x40 == cp
    ensures (cp / 0x4_0000) * 0x4_0000 + (cp / 0x1000 % 0x40) * 0x1000 + (cp / 0x40 % 0x40) * 0x40 + cp % 0x40 == cp
  {
    var q := cp / 0x40;
    assert cp == q * 0x40 + cp % 0x40;
    assert q == (q / 0x40) * 0x40 + q % 0x40;
    assert q / 0x40 == cp / 0x1000;
    var r := q / 0x40;
    assert r == (r / 0x40) * 0x40 + r % 0x40;
    assert r / 0x40 == cp / 0x4_0000;
  }

  /** What `DecodeScalar` checks, gathered in one place. */
  lemma DecodeScalarAccepts(bs: seq<byte>, c: char, n: nat)
    requires 1 <= n <= |bs| && LeadLength(bs[0]) == n && ContinuationsFollow(bs, n)
    requires CodePoint(bs, n) == c as int && MinCodePoint(n) <= c as int
    ensures DecodeScalar(bs) == Some((c, n))
  {
  }

  /** The encoding of a character, followed by anything, decodes to that character. */
  lemma DecodeScalarEncodeScalar(c: char, rest: seq<byte>)
    ensures DecodeScalar(EncodeScalar(c) + rest) == Some((c, |EncodeScalar(c)|))
  {
    var cp := c as int;
    var bs := EncodeScalar(c) + rest;
    SixBitGroups(cp);
    if cp < 0x80 {
      DecodeScalarAccepts(bs, c, 1);
    } else if cp < 0x800 {
      TwoBytes(c, rest);
    } else if cp < 0x1_0000 {
      ThreeBytes(c, rest);
    } else {
      FourBytes(c, rest);
    }
  }

  /** The two-byte case of `DecodeScalarEncodeScalar`. */
  lemma TwoBytes(c: char, rest: seq<byte>)
    requires 0x80 <= c as int < 0x800
    ensures DecodeScalar(EncodeScalar(c) + rest) == Some((c, 2))
  {
    var cp := c as int;
    var bs := EncodeScalar(c) + rest;
    SixBitGroups(cp);
    assert bs[0] as int == 0xC0 + cp / 0x40 && bs[1] as int == 0x80 + cp % 0x40;
    assert CodePoint(bs, 2) == cp;
    DecodeScalarAccepts(bs, c, 2);
  }

  /** The three-byte case of `DecodeScalarEncodeScalar`. */
  lemma ThreeBytes(c: char, rest: seq<byte>)
    requires 0x800 <= c as int < 0x1_0000
    ensures DecodeScalar(EncodeScalar(c) + rest) == Some((c, 3))
  {
    var cp := c as int;
    var bs := EncodeScalar(c) + rest;
    SixBitGroups(cp);
    assert bs[0] as int == 0xE0 + cp / 0x1000;
    assert bs[1] as int == 0x80 + cp / 0x40 % 0x40;
    assert bs[2] as int == 0x80 + cp % 0x40;
    assert CodePoint(bs, 3) == cp;
    DecodeScalarAccepts(bs, c, 3);
  }

  /** The four-byte case of `DecodeScalarEncodeScalar`. */
  lemma FourBytes(c: char, rest: seq<byte>)
    requires 0x1_0000 <= c as int
    ensures DecodeScalar(EncodeScalar(c) + rest) == Some((c, 4))
  {
    var cp := c as int;
    var bs := EncodeScalar(c) + rest;
    SixBitGroups(cp);
    assert bs[0] as int == 0xF0 + cp / 0x4_0000;
    assert bs[1] as int == 0x80 + cp / 0x1000 % 0x40;
    assert bs[2] as int == 0x80 + cp / 0x40 % 0x40;
    assert bs[3] as int == 0x80 + cp % 0x40;
    assert CodePoint(bs, 4) == cp;
    DecodeScalarAccepts(bs, c, 4);
  }

  /** Joining 6-bit groups and splitting the result again gives the groups back. */
  lemma JoinGroups(a: int, b: int, c: int, d: int)
    requires 0 <= a && 0 <= b < 0x40 && 0 <= c < 0x40 && 0 <= d < 0x40
    ensures (c * 0x40 + d) / 0x40 == c && (c * 0x40 + d) % 0x40 == d
    ensures var x := b * 0x1000 + c * 0x40 + d;
      x / 0x1000 == b && x / 0x40 % 0x40 == c && x % 0x40 == d
    ensures var x := a * 0x4_0000 + b * 0x1000 + c * 0x40 + d;
      x / 0x4_0000 == a && x / 0x1000 % 0x40 == b && x / 0x40 % 0x40 == c && x % 0x40 == d
  {
    var y := c * 0x40 + d;
    assert y / 0x40 == c && y % 0x40 == d;
    var z := b * 0x40 + c;
    assert z / 0x40 == b && z % 0x40 == c;
    var w := a * 0x40 + b;
    assert w / 0x40 == a && w % 0x40 == b;
    var x := a * 0x4_0000 + b * 0x1000 + c * 0x40 + d;
    assert x == (w * 0x40 + c) * 0x40 + d;
    assert x / 0x40 == w * 0x40 + c;
    assert x / 0x1000 == (x / 0x40) / 0x40;
    assert x / 0x4_0000 == (x / 0x1000) / 0x40;
  }

  /** A scalar that decodes is encoded back to exactly the bytes it came from. */
  lemma EncodeScalarDecodeScalar(bs: seq<byte>)
    requires DecodeScalar(bs).Some?
    ensures var (c, n) := DecodeScalar(bs).value; EncodeScalar(c) == bs[..n]
  {
    var (c, n) := DecodeScalar(bs).value;
    assert n == LeadLength(bs[0]) && ContinuationsFollow(bs, n);
    assert c as int == CodePoint(bs, n) && MinCodePoint(n) <= c as int;
    if n == 2 {
      FromTwoBytes(bs, c);
    } else if n == 3 {
      FromThreeBytes(bs, c);
    } else if n == 4 {
      FromFourBytes(bs, c);
    }
  }

  /** The two-byte case of `EncodeScalarDecodeScalar`. */
  lemma FromTwoBytes(bs: seq<byte>, c: char)
    requires 2 <= |bs| && LeadLength(bs[0]) == 2 && ContinuationsFollow(bs, 2)
    requires c as int == CodePoint(bs, 2) && 0x80 <= c as int
    ensures EncodeScalar(c) == bs[..2]
  {
    assert IsContinuation(bs[1]);
    JoinGroups(0, 0, bs[0] as int - 0xC0, Payload(bs[1]));
  }

  /** The three-byte case of `EncodeScalarDecodeScalar`. */
  lemma FromThreeBytes(bs: seq<byte>, c: char)
    requires 3 <= |bs| && LeadLength(bs[0]) == 3 && ContinuationsFollow(bs, 3)
    requires c as int == CodePoint(bs, 3) && 0x800 <= c as int
    ensures EncodeScalar(c) == bs[..3]
  {
    assert IsContinuation(bs[1]) && IsContinuation(bs[2]);
    JoinGroups(0, bs[0] as int - 0xE0, Payload(bs[1]), Payload(bs[2]));
  }

  /** The four-byte case of `EncodeScalarDecodeScalar`. */
  lemma FromFourBytes(bs: seq<byte>, c: char)
    requires 4 <= |bs| && LeadLength(bs[0]) == 4 && ContinuationsFollow(bs, 4)
    requires c as int == CodePoint(bs, 4) && 0x1_0000 <= c as int
    ensures EncodeScalar(c) == bs[..4]
  {
    assert IsContinuation(bs[1]) && IsContinuation(bs[2]) && IsContinuation(bs[3]);
    JoinGroups(bs[0] as int - 0xF0, Payload(bs[1]), Payload(bs[2]), Payload(bs[3]));
  }

  /** Decoding undoes encoding. */
  lemma {:induction false} DecodeEncode(s: string)
    ensures Decode(Encode(s)) == Some(s)
  {
    if s != [] {
      var head := EncodeScalar(s[0]);
      var bs := Encode(s);
      DecodeScalarEncodeScalar(s[0], Encode(s[1..]));
      assert bs[|head|..] == Encode(s[1..]);
      DecodeEncode(s[1..]);
      assert [s[0]] + s[1..] == s;
    }
  }

  /** Encoding undoes decoding: only encodings of strings are accepted. */
  lemma {:induction false} EncodeDecode(bs: seq<byte>)
    requires Decode(bs).Some?
    ensures Encode(Decode(bs).value) == bs
    decreases |bs|
  {
    if bs != [] {
      var (c, n) := DecodeScalar(bs).value;
      var tail := Decode(bs[n..]).value;
      EncodeScalarDecodeScalar(bs);
      EncodeDecode(bs[n..]);
      EncodeCons(c, tail);
      assert bs == bs[..n] + bs[n..];
    }
  }

  /** Encoding a string that starts with `c`. */
  lemma EncodeCons(c: char, tail: string)
    ensures Encode([c] + tail) == EncodeScalar(c) + Encode(tail)
  {
    var s := [c] + tail;
    assert s[0] == c && s[1..] == tail;
  }

  /** Distinct strings have distinct encodings. */
  lemma EncodeInjective(a: string, b: string)
    ensures Encode(a) == Encode(b) <==> a == b
  {
    if Encode(a) == Encode(b) {
      DecodeEncode(a);
      DecodeEncode(b);
    }
  }

  /** The encoding of a concatenation is the concatenation of the encodings. */
  lemma {:induction false} EncodeConcat(a: string, b: string)
    ensures Encode(a + b) == Encode(a) + Encode(b)
  {
    if a != [] {
      assert (a + b)[0] == a[0] && (a + b)[1..] == a[1..] + b;
      EncodeConcat(a[1..], b);
    } else {
      assert a + b == b;
    }
  }

  /** A string of ASCII characters is encoded one byte per character, as its code. */
  lemma {:induction false} EncodeAscii(s: string)
    requires forall i :: 0 <= i < |s| ==> s[i] as int < 0x80
    ensures Encode(s) == seq(|s|, i requires 0 <= i < |s| => s[i] as int as byte)
  {
    if s != [] {
      EncodeAscii(s[1..]);
    }
  }
}
