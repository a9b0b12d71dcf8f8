/**
 * Bytes and fixed-width integers as the mapped stores hold them.
 *
 * The native store reads and writes multi-byte integers in the host's byte order.
 * This model fixes that order to little-endian: least significant byte first.
 * Java's narrowing casts (`(int)` of a `long`, `(byte)` of an `int`) keep the low
 * bits and reinterpret them in two's complement; `Wrap` writes that out.
 */
module Bytes {

  type byte = x: int | 0 <= x < 256

  /** Java's primitive integer ranges. */
  type int8 = x: int | -0x80 <= x < 0x80
  type int16 = x: int | -0x8000 <= x < 0x8000
  type int32 = x: int | -0x8000_0000 <= x < 0x8000_0000
  type int64 = x: int | -0x8000_0000_0000_0000 <= x < 0x8000_0000_0000_0000

  /** Integer.MAX_VALUE, the bound every Java array length obeys. */
  const INT_MAX: int := 0x7fff_ffff

  function Pow256(n: nat): (r: nat)
    ensures r >= 1
  {
    if n == 0 then 1 else 256 * Pow256(n - 1)
  }

  /** Half the range of an `n`-byte word: the bound of the signed values it holds. */
  function Half(n: nat): (h: int)
    requires n > 0
    ensures 2 * h == Pow256(n) && h >= 128
  {
    128 * Pow256(n - 1)
  }

  /** Euclidean division is determined by the quotient and the remainder. */
  lemma DivModUnique(a: int, p: int, q: int, r: int)
    requires p > 0 && 0 <= r < p && a == q * p + r
    ensures a / p == q && a % p == r
  {
    var q', r' := a / p, a % p;
    assert a == q' * p + r';
    if q' > q {
      MulMono(q' - q, p);
      assert false;
    } else if q' < q {
      MulMono(q - q', p);
      assert false;
    }
  }

  lemma MulMono(k: int, p: int)
    requires k >= 1 && p > 0
    ensures k * p >= p
    ensures forall q: int :: (q + k) * p - q * p == k * p
  {
    assert k * p == (k - 1) * p + p;
    assert (k - 1) * p >= 0;
  }

  lemma Pow256Widths()
    ensures Pow256(1) == 0x100 && Pow256(2) == 0x1_0000
    ensures Pow256(4) == 0x1_0000_0000
    ensures Pow256(8) == 0x1_0000_0000_0000_0000
  {
  }

  /** Unsigned little-endian encoding of `x` in `n` bytes. */
  function LeBytes(x: nat, n: nat): (r: seq<byte>)
    requires x < Pow256(n)
    ensures |r| == n
  {
    if n == 0 then [] else [x % 256] + LeBytes(x / 256, n - 1)
  }

  /** The unsigned value of a little-endian byte string. */
  function LeValue(s: seq<byte>): (v: nat)
    ensures v < Pow256(|s|)
  {
    if s == [] then 0 else s[0] + 256 * LeValue(s[1..])
  }

  lemma {:induction false} LeValueOfBytes(x: nat, n: nat)
    requires x < Pow256(n)
    ensures LeValue(LeBytes(x, n)) == x
  {
    if n > 0 {
      var r := LeBytes(x, n);
      assert r[1..] == LeBytes(x / 256, n - 1);
      LeValueOfBytes(x / 256, n - 1);
    }
  }

  lemma {:induction false} LeBytesOfValue(s: seq<byte>)
    ensures LeBytes(LeValue(s), |s|) == s
  {
    if s != [] {
      var v := LeValue(s);
      assert v % 256 == s[0] && v / 256 == LeValue(s[1..]);
      LeBytesOfValue(s[1..]);
    }
  }

  /** The two's-complement reading of the low `8n` bits of `x` (a Java narrowing cast). */
  function Wrap(x: int, n: nat): (r: int)
    requires n > 0
    ensures -Half(n) <= r < Half(n)
    ensures (r - x) % Pow256(n) == 0
  {
    var p := Pow256(n);
    var u := x % p;
    assert (u - x) % p == 0 by { DivModUnique(u - x, p, -(x / p), 0); }
    assert ((u - p) - x) % p == 0 by { DivModUnique(u - p - x, p, -(x / p) - 1, 0); }
    if u < Half(n) then u else u - p
  }

  lemma {:induction false} WrapInRange(x: int, n: nat)
    requires n > 0
    requires -Half(n) <= x < Half(n)
    ensures Wrap(x, n) == x
  {
    var p := Pow256(n);
    if x < 0 {
      DivModUnique(x, p, -1, x + p);
    } else {
      DivModUnique(x, p, 0, x);
    }
  }

  /** Two's-complement little-endian encoding of `x` in `n` bytes (a native typed write). */
  function EncodeInt(x: int, n: nat): (r: seq<byte>)
    requires n > 0
    ensures |r| == n
  {
    LeBytes(x % Pow256(n), n)
  }

  /** The signed value of `n` little-endian bytes (a native typed read). */
  function DecodeInt(s: seq<byte>): (v: int)
    requires |s| > 0
    ensures -Half(|s|) <= v < Half(|s|)
  {
    Wrap(LeValue(s), |s|)
  }

  /** A typed write followed by a typed read of the same width returns the value written. */
  lemma DecodeEncodeInt(x: int, n: nat)
    requires n > 0 && -Half(n) <= x < Half(n)
    ensures DecodeInt(EncodeInt(x, n)) == x
  {
    var p := Pow256(n);
    var u := x % p;
    LeValueOfBytes(u, n);
    DivModUnique(u, p, 0, u);
    assert Wrap(u, n) == Wrap(x, n);
    WrapInRange(x, n);
  }

  /** Any `n` stored bytes are exactly the encoding of the value they decode to. */
  lemma EncodeDecodeInt(s: seq<byte>)
    requires |s| > 0
    ensures EncodeInt(DecodeInt(s), |s|) == s
  {
    var p, v := Pow256(|s|), LeValue(s);
    DivModUnique(v, p, 0, v);
    if v < Half(|s|) {
      assert DecodeInt(s) == v;
    } else {
      assert DecodeInt(s) == v - p;
      DivModUnique(v - p, p, -1, v);
    }
    LeBytesOfValue(s);
  }

  function EncodeLong(x: int64): (r: seq<byte>)
    ensures |r| == 8
  {
    EncodeInt(x, 8)
  }

  /** The signed value of 8 little-endian bytes: DecodeInt at width 8. */
  function DecodeLong(s: seq<byte>): (v: int64)
    requires |s| == 8
  {
    var u := LeValue(s);
    assert u < 0x1_0000_0000_0000_0000 by { Pow256Widths(); }
    if u < 0x8000_0000_0000_0000 then u else u - 0x1_0000_0000_0000_0000
  }

  lemma DecodeLongIsInt(s: seq<byte>)
    requires |s| == 8
    ensures DecodeLong(s) == DecodeInt(s)
  {
    Pow256Widths();
    var u := LeValue(s);
    DivModUnique(u, Pow256(8), 0, u);
  }

  lemma DecodeEncodeLong(x: int64)
    ensures DecodeLong(EncodeLong(x)) == x
  {
    Pow256Widths();
    DecodeEncodeInt(x, 8);
    DecodeLongIsInt(EncodeLong(x));
  }

  /** Java's `(int)` cast of a `long`. */
  function ToInt32(x: int): (r: int32)
  {
    Pow256Widths();
    Wrap(x, 4)
  }

  lemma ToInt32Identity(x: int)
    requires -0x8000_0000 <= x < 0x8000_0000
    ensures ToInt32(x) == x
  {
    Pow256Widths();
    WrapInRange(x, 4);
  }
}
