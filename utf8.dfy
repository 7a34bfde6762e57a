/**
 * UTF-8 as the PHP code relies on it: `mb_check_encoding($s, 'UTF-8')` is
 * `Decode(s).Some?`, text handed to the byte world is `Encode`d, and
 * `mb_convert_encoding($s, 'UTF-8', 'ISO-8859-1')` is `Latin1`.
 * Dafny's `char` is a Unicode scalar value, so every string encodes.
 */
module Utf8 {
  import opened Wrappers
  import opened ByteCodec

  predicate IsScalar(n: int)
  {
    0 <= n < 0xD800 || 0xE000 <= n < 0x11_0000
  }

  /** The byte at index i as an int, or 0 past the end. */
  function At(bs: seq<Byte>, i: nat): int
  {
    if i < |bs| then bs[i] as int else 0
  }

  predicate IsContinuation(b: int)
  {
    0x80 <= b < 0xC0
  }

  function EncodeChar(c: char): (r: seq<Byte>)
    ensures 1 <= |r| <= 4
  {
    var n := c as int;
    if n < 0x80 then [n]
    else if n < 0x800 then [0xC0 + n / 64, 0x80 + n % 64]
    else if n < 0x1_0000 then [0xE0 + n / 4096, 0x80 + (n / 64) % 64, 0x80 + n % 64]
    else [0xF0 + n / 262144, 0x80 + (n / 4096) % 64, 0x80 + (n / 64) % 64, 0x80 + n % 64]
  }

  function Encode(s: string): seq<Byte>
  {
    if s == [] then [] else EncodeChar(s[0]) + Encode(s[1..])
  }

  /**
   * The first scalar of a non-empty byte string and how many bytes it takes;
   * None for a malformed, overlong, surrogate or out-of-range sequence.
   */
  function DecodeFirst(bs: seq<Byte>): (r: Option<(char, nat)>)
    requires |bs| > 0
    ensures r.Some? ==> 1 <= r.value.1 <= |bs|
  {
    var b0, b1, b2, b3 := bs[0] as int, At(bs, 1), At(bs, 2), At(bs, 3);
    if b0 < 0x80 then Some((b0 as char, 1))
    else if 0xC2 <= b0 < 0xE0 && |bs| >= 2 && IsContinuation(b1) then
      Some((((b0 - 0xC0) * 64 + (b1 - 0x80)) as char, 2))
    else if 0xE0 <= b0 < 0xF0 && |bs| >= 3 && IsContinuation(b1) && IsContinuation(b2) then
      var n := (b0 - 0xE0) * 4096 + (b1 - 0x80) * 64 + (b2 - 0x80);
      if 0x800 <= n && IsScalar(n) then Some((n as char, 3)) else None
    else if 0xF0 <= b0 < 0xF5 && |bs| >= 4 && IsContinuation(b1) && IsContinuation(b2) && IsContinuation(b3) then
      var n := (b0 - 0xF0) * 262144 + (b1 - 0x80) * 4096 + (b2 - 0x80) * 64 + (b3 - 0x80);
      if 0x1_0000 <= n < 0x11_0000 then Some((n as char, 4)) else None
    else None
  }

  /** Strict UTF-8 decoding; None exactly when the bytes are not valid UTF-8. */
  function Decode(bs: seq<Byte>): Option<string>
    decreases |bs|
  {
    if bs == [] then Some([])
    else match DecodeFirst(bs)
      case None => None
      case Some((c, k)) =>
        match Decode(bs[k..])
        case None => None
        case Some(rest) => Some([c] + rest)
  }

  predicate IsValid(bs: seq<Byte>)
  {
    Decode(bs).Some?
  }

  /** ISO-8859-1 reinterpretation: each byte is the code point of the same value. */
  function Latin1(bs: seq<Byte>): (r: string)
    ensures |r| == |bs|
    ensures forall i | 0 <= i < |bs| :: r[i] as int == bs[i]
  {
    seq(|bs|, i requires 0 <= i < |bs| => bs[i] as char)
  }

  lemma DecodeFirstOfEncoding(c: char, rest: seq<Byte>)
    ensures DecodeFirst(EncodeChar(c) + rest) == Some((c, |EncodeChar(c)|))
  {
    var n := c as int;
    if n < 0x80 {
    } else if n < 0x800 {
      DecodeTwoBytes(c, rest);
    } else if n < 0x1_0000 {
      DecodeThreeBytes(c, rest);
    } else {
      DecodeFourBytes(c, rest);
    }
  }

  lemma DecodeTwoBytes(c: char, rest: seq<Byte>)
    requires 0x80 <= c as int < 0x800
    ensures DecodeFirst(EncodeChar(c) + rest) == Some((c, 2))
  {
    var n := c as int;
    var bs := EncodeChar(c) + rest;
    var b0, b1 := At(bs, 0), At(bs, 1);
    assert b0 == 0xC0 + n / 64 && b1 == 0x80 + n % 64;
    assert 0xC2 <= b0 < 0xE0 && |bs| >= 2 && IsContinuation(b1);
    assert (b0 - 0xC0) * 64 + (b1 - 0x80) == n;
  }

  lemma DecodeThreeBytes(c: char, rest: seq<Byte>)
    requires 0x800 <= c as int < 0x1_0000
    ensures DecodeFirst(EncodeChar(c) + rest) == Some((c, 3))
  {
    var n := c as int;
    var bs := EncodeChar(c) + rest;
    var b0, b1, b2 := At(bs, 0), At(bs, 1), At(bs, 2);
    assert b0 == 0xE0 + n / 4096 && b1 == 0x80 + (n / 64) % 64 && b2 == 0x80 + n % 64;
    assert 0xE0 <= b0 < 0xF0 && |bs| >= 3 && IsContinuation(b1) && IsContinuation(b2);
    assert (n / 64) / 64 == n / 4096;
    assert (b0 - 0xE0) * 4096 + (b1 - 0x80) * 64 + (b2 - 0x80) == n;
  }

  lemma DecodeFourBytes(c: char, rest: seq<Byte>)
    requires 0x1_0000 <= c as int
    ensures DecodeFirst(EncodeChar(c) + rest) == Some((c, 4))
  {
    var n := c as int;
    var bs := EncodeChar(c) + rest;
    var b0, b1, b2, b3 := At(bs, 0), At(bs, 1), At(bs, 2), At(bs, 3);
    assert b0 == 0xF0 + n / 262144;
    assert b1 == 0x80 + (n / 4096) % 64 && b2 == 0x80 + (n / 64) % 64 && b3 == 0x80 + n % 64;
    assert 0xF0 <= b0 < 0xF5 && |bs| >= 4 && IsContinuation(b1) && IsContinuation(b2) && IsContinuation(b3);
    assert (n / 4096) / 64 == n / 262144;
    assert (n / 64) / 64 == n / 4096;
    assert (b0 - 0xF0) * 262144 + (b1 - 0x80) * 4096 + (b2 - 0x80) * 64 + (b3 - 0x80) == n;
  }

  /** Round trip: decoding what was encoded gives the text back. */
  lemma {:induction false} DecodeEncode(s: string)
    ensures Decode(Encode(s)) == Some(s)
  {
    if s != [] {
      var e := EncodeChar(s[0]);
      var tail := Encode(s[1..]);
      DecodeFirstOfEncoding(s[0], tail);
      assert (e + tail)[|e|..] == tail;
      DecodeEncode(s[1..]);
      assert [s[0]] + s[1..] == s;
    }
  }

  /** Encoding never produces a NUL byte unless the text holds U+0000. */
  lemma {:induction false} EncodeHasNoNul(s: string)
    requires forall i | 0 <= i < |s| :: s[i] != 0 as char
    ensures forall i | 0 <= i < |Encode(s)| :: Encode(s)[i] != 0
  {
    if s != [] {
      EncodeHasNoNul(s[1..]);
      var e := EncodeChar(s[0]);
      var n := s[0] as int;
      assert n >= 0x80 ==> forall i | 0 <= i < |e| :: e[i] >= 0x80;
      forall i | 0 <= i < |Encode(s)| ensures Encode(s)[i] != 0 {
        if i >= |e| {
          assert Encode(s)[i] == Encode(s[1..])[i - |e|];
        }
      }
    }
  }
}
