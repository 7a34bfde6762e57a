/**
 * Low-level integer decoding of StarDict index fields, and the upper-case
 * hexadecimal rendering used for diagnostics (`bin2hex` + `strtoupper`).
 */
module ByteCodec {

  type Byte = b: int | 0 <= b < 256

  /** 256^n: the number of values an n-byte field can hold. */
  function Pow256(n: nat): (r: nat)
    ensures r >= 1
  {
    if n == 0 then 1 else 256 * Pow256(n - 1)
  }

  function Zeros(n: nat): (r: seq<Byte>)
    ensures |r| == n && forall i | 0 <= i < n :: r[i] == 0
  {
    seq(n, _ => 0)
  }

  /**
   * The field a decoder actually looks at: the bytes read, right-padded with
   * zero bytes (a short read at end of file is padded, not rejected) and cut
   * to the field width.
   */
  function Field(bs: seq<Byte>, width: nat): (r: seq<Byte>)
    ensures |r| == width
    ensures |bs| <= width ==> r[..|bs|] == bs && forall i | |bs| <= i < width :: r[i] == 0
    ensures |bs| >= width ==> r == bs[..width]
  {
    (bs + Zeros(width))[..width]
  }

  /** Unsigned big-endian value of a byte string (PHP `unpack('N')` for 4 bytes). */
  function BE(bs: seq<Byte>): nat
  {
    if bs == [] then 0 else BE(bs[..|bs| - 1]) * 256 + bs[|bs| - 1]
  }

  /** Unsigned little-endian value of a byte string (PHP `unpack('V')` for 4 bytes). */
  function LE(bs: seq<Byte>): nat
  {
    if bs == [] then 0 else bs[0] + 256 * LE(bs[1..])
  }

  function Reverse<T>(s: seq<T>): (r: seq<T>)
    ensures |r| == |s|
    ensures forall i | 0 <= i < |s| :: r[i] == s[|s| - 1 - i]
  {
    if s == [] then [] else Reverse(s[1..]) + [s[0]]
  }

  /** uInt32be: four bytes, big-endian; a short field is zero-padded on the right. */
  function UInt32BE(bs: seq<Byte>): nat
  {
    BE(Field(bs, 4))
  }

  /** uInt32le: four bytes, little-endian; a short field is zero-padded on the right. */
  function UInt32LE(bs: seq<Byte>): nat
  {
    LE(Field(bs, 4))
  }

  /** uInt64be: high word (bytes 0..4) times 2^32 plus low word (bytes 4..8), both big-endian. */
  function UInt64BE(bs: seq<Byte>): nat
  {
    var f := Field(bs, 8);
    BE(f[..4]) * 4294967296 + BE(f[4..])
  }

  /** uInt64le: low word (bytes 0..4) plus high word (bytes 4..8) times 2^32, both little-endian. */
  function UInt64LE(bs: seq<Byte>): nat
  {
    var f := Field(bs, 8);
    LE(f[4..]) * 4294967296 + LE(f[..4])
  }

  /** An n-byte big-endian field holds a value below 256^n. */
  lemma {:induction false} BEBound(bs: seq<Byte>)
    ensures BE(bs) < Pow256(|bs|)
  {
    if bs != [] {
      BEBound(bs[..|bs| - 1]);
    }
  }

  /** Splitting a big-endian field: the high part is scaled by 256^|low|. */
  lemma {:induction false} BEAppend(hi: seq<Byte>, lo: seq<Byte>)
    ensures BE(hi + lo) == BE(hi) * Pow256(|lo|) + BE(lo)
    decreases |lo|
  {
    if lo == [] {
      assert hi + lo == hi;
    } else {
      var lo' := lo[..|lo| - 1];
      assert (hi + lo)[..|hi + lo| - 1] == hi + lo';
      BEAppend(hi, lo');
      calc {
        BE(hi + lo);
        BE(hi + lo') * 256 + lo[|lo| - 1];
        (BE(hi) * Pow256(|lo'|) + BE(lo')) * 256 + lo[|lo| - 1];
        { ShiftSum(BE(hi), Pow256(|lo'|), BE(lo'), lo[|lo| - 1]); }
        BE(hi) * (Pow256(|lo'|) * 256) + (BE(lo') * 256 + lo[|lo| - 1]);
      }
    }
  }

  lemma ShiftSum(a: int, p: int, b: int, x: int)
    ensures (a * p + b) * 256 + x == a * (p * 256) + (b * 256 + x)
  {
  }

  /** A little-endian field reads as the big-endian value of its reversal. */
  lemma {:induction false} LEIsBEOfReverse(bs: seq<Byte>)
    ensures LE(bs) == BE(Reverse(bs))
  {
    if bs != [] {
      LEIsBEOfReverse(bs[1..]);
      var r := Reverse(bs);
      assert r == Reverse(bs[1..]) + [bs[0]];
      assert r[..|r| - 1] == Reverse(bs[1..]);
    }
  }

  /** The 64-bit decoders read all eight bytes as one big-/little-endian number. */
  lemma UInt64IsWideField(bs: seq<Byte>)
    ensures UInt64BE(bs) == BE(Field(bs, 8))
    ensures UInt64LE(bs) == LE(Field(bs, 8))
  {
    var f := Field(bs, 8);
    assert f == f[..4] + f[4..];
    BEAppend(f[..4], f[4..]);
    LEAppend(f[..4], f[4..]);
  }

  lemma {:induction false} LEAppend(lo: seq<Byte>, hi: seq<Byte>)
    ensures LE(lo + hi) == LE(lo) + Pow256(|lo|) * LE(hi)
  {
    if lo != [] {
      var t := lo[1..];
      assert (lo + hi)[1..] == t + hi;
      LEAppend(t, hi);
      var a, p, h := LE(t), Pow256(|t|), LE(hi);
      calc {
        LE(lo + hi);
        lo[0] + 256 * LE(t + hi);
        lo[0] + 256 * (a + p * h);
        { ScaleSum(a, p, h); }
        lo[0] + 256 * a + (256 * p) * h;
        { assert LE(lo) == lo[0] + 256 * a && Pow256(|lo|) == 256 * p; }
        LE(lo) + Pow256(|lo|) * h;
      }
    } else {
      assert lo + hi == hi;
    }
  }

  lemma ScaleSum(a: int, p: int, h: int)
    ensures 256 * (a + p * h) == 256 * a + (256 * p) * h
  {
  }

  /**
   * Every little-endian decoding equals the big-endian decoding of the
   * byte-reversed (padded) field; for a full-width field that is the
   * big-endian decoding of the reversed bytes as read.
   */
  lemma LittleEndianIsReversedBigEndian(bs: seq<Byte>)
    ensures UInt32LE(bs) == BE(Reverse(Field(bs, 4)))
    ensures UInt64LE(bs) == BE(Reverse(Field(bs, 8)))
    ensures |bs| == 4 ==> UInt32LE(bs) == UInt32BE(Reverse(bs))
    ensures |bs| == 8 ==> UInt64LE(bs) == UInt64BE(Reverse(bs))
  {
    LEIsBEOfReverse(Field(bs, 4));
    LEIsBEOfReverse(Field(bs, 8));
    UInt64IsWideField(bs);
    UInt64IsWideField(Reverse(bs));
  }

  /** Decoded 32-bit values fit in 32 bits, 64-bit values in 64 bits. */
  lemma DecodedRanges(bs: seq<Byte>)
    ensures UInt32BE(bs) < 4294967296 && UInt32LE(bs) < 4294967296
    ensures UInt64BE(bs) < 18446744073709551616 && UInt64LE(bs) < 18446744073709551616
  {
    BEBound(Field(bs, 4));
    LittleEndianIsReversedBigEndian(bs);
    BEBound(Reverse(Field(bs, 4)));
    UInt64IsWideField(bs);
    BEBound(Field(bs, 8));
    BEBound(Reverse(Field(bs, 8)));
    assert Pow256(4) == 4294967296;
    assert Pow256(8) == 18446744073709551616;
  }

  /** Big-endian encoding of a value into n bytes: the inverse of BE. */
  function EncodeBE(v: nat, n: nat): (r: seq<Byte>)
    ensures |r| == n
  {
    if n == 0 then [] else EncodeBE(v / 256, n - 1) + [v % 256]
  }

  lemma {:induction false} EncodeBERoundTrip(v: nat, n: nat)
    requires v < Pow256(n)
    ensures BE(EncodeBE(v, n)) == v
  {
    if n > 0 {
      var e := EncodeBE(v, n);
      assert e[..|e| - 1] == EncodeBE(v / 256, n - 1);
      EncodeBERoundTrip(v / 256, n - 1);
    }
  }

  /* ---------------- hexadecimal (bin2hex, upper-cased) ---------------- */

  function HexDigit(d: int): (c: char)
    requires 0 <= d < 16
  {
    if d < 10 then ('0' as int + d) as char else ('A' as int + d - 10) as char
  }

  function HexDigitValue(c: char): int
  {
    if '0' <= c <= '9' then c as int - '0' as int
    else if 'A' <= c <= 'F' then c as int - 'A' as int + 10
    else 0
  }

  /** strtoupper(bin2hex(bs)): two upper-case hex digits per byte, high nibble first. */
  function Hex(bs: seq<Byte>): (r: string)
    ensures |r| == 2 * |bs|
  {
    if bs == [] then [] else Hex(bs[..|bs| - 1]) + [HexDigit(bs[|bs| - 1] / 16), HexDigit(bs[|bs| - 1] % 16)]
  }

  /** The numeral a hex string spells. */
  function HexValue(h: string): nat
  {
    if h == [] then 0 else HexValue(h[..|h| - 1]) * 16 + HexDigitValue(h[|h| - 1])
  }

  /** Hex strings are exact: the numeral they spell is the big-endian value of the bytes. */
  lemma {:induction false} HexSpellsBigEndian(bs: seq<Byte>)
    ensures HexValue(Hex(bs)) == BE(bs)
    ensures forall i | 0 <= i < |Hex(bs)| :: '0' <= Hex(bs)[i] <= '9' || 'A' <= Hex(bs)[i] <= 'F'
  {
    if bs != [] {
      var p := bs[..|bs| - 1];
      var b := bs[|bs| - 1];
      HexSpellsBigEndian(p);
      var h := Hex(bs);
      assert h[..|h| - 1] == Hex(p) + [HexDigit(b / 16)];
      assert h[..|h| - 1][..|h| - 2] == Hex(p);
      assert HexDigitValue(HexDigit(b / 16)) == b / 16;
      assert HexDigitValue(HexDigit(b % 16)) == b % 16;
    }
  }
}
