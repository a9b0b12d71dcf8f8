/**
 * Java's integer bit operators on `int`/`long` values, written over unbounded
 * integers: `<<` keeps the low bits of the product (a narrowing cast), `>>` is
 * arithmetic (floor division by a power of two), `x & (2^k - 1)` keeps the low k
 * bits, and `|` is the OR of the two's-complement bit patterns.
 */
module Bits {
  import opened Bytes

  function Pow2(n: nat): (r: nat)
    ensures r >= 1
  {
    if n == 0 then 1 else 2 * Pow2(n - 1)
  }

  lemma {:induction false} Pow2Add(a: nat, b: nat)
    ensures Pow2(a + b) == Pow2(a) * Pow2(b)
  {
    if b > 0 {
      Pow2Add(a, b - 1);
      assert Pow2(a + b) == 2 * Pow2(a + b - 1);
    }
  }

  lemma {:induction false} Pow2Bytes(n: nat)
    ensures Pow2(8 * n) == Pow256(n)
  {
    if n > 0 {
      Pow2Bytes(n - 1);
      Pow2Add(8 * (n - 1), 8);
      assert Pow2(8) == 256;
    }
  }

  /** The powers of two the packed calendar and address words use. */
  lemma Pow2Table()
    ensures Pow2(4) == 0x10 && Pow2(5) == 0x20 && Pow2(6) == 0x40 && Pow2(8) == 0x100
    ensures Pow2(10) == 0x400 && Pow2(12) == 0x1000 && Pow2(14) == 0x4000
    ensures Pow2(16) == 0x1_0000 && Pow2(17) == 0x2_0000 && Pow2(20) == 0x10_0000
    ensures Pow2(21) == 0x20_0000 && Pow2(24) == 0x100_0000 && Pow2(26) == 0x400_0000
    ensures Pow2(27) == 0x800_0000 && Pow2(33) == 0x2_0000_0000 && Pow2(39) == 0x80_0000_0000
    ensures Pow2(44) == 0x1000_0000_0000 && Pow2(49) == 0x2_0000_0000_0000
    ensures Pow2(53) == 0x20_0000_0000_0000
  {
    assert Pow2(4) == 0x10 && Pow2(5) == 0x20 && Pow2(6) == 0x40;
    Pow2Add(4, 4);
    Pow2Add(5, 5);
    Pow2Add(6, 6);
    Pow2Add(6, 8);
    Pow2Add(8, 8);
    Pow2Add(12, 5);
    Pow2Add(10, 10);
    Pow2Add(16, 5);
    Pow2Add(12, 12);
    Pow2Add(21, 5);
    Pow2Add(21, 6);
    Pow2Add(27, 6);
    Pow2Add(33, 6);
    Pow2Add(39, 5);
    Pow2Add(44, 5);
    Pow2Add(49, 4);
  }

  /** Java's `x << n` on a `w`-byte word. */
  function Shl(x: int, n: nat, w: nat): (r: int)
    requires w > 0
    ensures -Half(w) <= r < Half(w)
  {
    Wrap(x * Pow2(n), w)
  }

  /** Java's arithmetic `x >> n`: Euclidean division by a positive divisor rounds down. */
  function Shr(x: int, n: nat): int {
    x / Pow2(n)
  }

  /** Java's `x & (2^k - 1)`: the low `k` bits of the two's-complement pattern. */
  function Low(x: int, k: nat): (r: nat)
    ensures r < Pow2(k)
  {
    x % Pow2(k)
  }

  /** Bitwise OR of two bit patterns. */
  function Or(a: nat, b: nat): nat
    decreases a + b
  {
    if a == 0 then b
    else if b == 0 then a
    else 2 * Or(a / 2, b / 2) + (if a % 2 == 1 || b % 2 == 1 then 1 else 0)
  }

  /** Java's `x | y` on `w`-byte words: the OR of their unsigned patterns, read back signed. */
  function JOr(x: int, y: int, w: nat): (r: int)
    requires w > 0
    ensures -Half(w) <= r < Half(w)
  {
    Wrap(Or(x % Pow256(w), y % Pow256(w)), w)
  }

  /** When the bits of `a` and `b` do not overlap, OR is addition. */
  lemma {:induction false} OrAdd(a: nat, b: nat, k: nat)
    requires a % Pow2(k) == 0 && b < Pow2(k)
    ensures Or(a, b) == a + b
  {
    if a != 0 && b != 0 {
      assert k > 0;
      var h := Pow2(k - 1);
      assert a % 2 == 0 && (a / 2) % h == 0 by {
        DivModUnique(a, 2 * h, a / (2 * h), 0);
        DivModUnique(a, 2, (a / (2 * h)) * h, 0);
        DivModUnique(a / 2, h, a / (2 * h), 0);
      }
      assert b / 2 < h;
      OrAdd(a / 2, b / 2, k - 1);
    }
  }

  /** Equal residues wrap to the same word. */
  lemma WrapCongruent(x: int, y: int, w: nat)
    requires w > 0 && (x - y) % Pow256(w) == 0
    ensures Wrap(x, w) == Wrap(y, w)
  {
    var p := Pow256(w);
    var d := (x - y) / p;
    DivModUnique(x - y, p, d, 0);
    DivModUnique(x, p, y / p + d, y % p);
  }

  /** A multiple of `a` stays one after reduction modulo a multiple of `a`. */
  lemma MultipleMod(x: int, a: int, e: int)
    requires a > 0 && e > 0 && x % a == 0
    ensures (x % (a * e)) % a == 0
  {
    var q, d := x / a, x / (a * e);
    assert x == q * a;
    var m := x % (a * e);
    assert x == d * (a * e) + m;
    assert d * (a * e) == (d * e) * a;
    assert m == (q - d * e) * a;
    DivModUnique(m, a, q - d * e, 0);
  }

  /** A multiple of 2^k stays one after reduction modulo a word of at least k bits. */
  lemma ModKeepsMultiple(x: int, k: nat, w: nat)
    requires w > 0 && k <= 8 * w && x % Pow2(k) == 0
    ensures (x % Pow256(w)) % Pow2(k) == 0
  {
    Pow2Bytes(w);
    Pow2Add(k, 8 * w - k);
    MultipleMod(x, Pow2(k), Pow2(8 * w - k));
  }

  /** Numbers that differ by a multiple of `p` leave the same remainder. */
  lemma SameResidue(y: int, x: int, p: int)
    requires p > 0 && (y - x) % p == 0
    ensures y % p == x % p
  {
    var q := (y - x) / p;
    assert y - x == q * p;
    DivModUnique(y, p, x / p + q, x % p);
  }

  lemma SmallResidue(b: int, p: int)
    requires 0 <= b < p
    ensures b % p == b
  {
    DivModUnique(b, p, 0, b);
  }

  lemma ResidueDiff(x: int, p: int)
    requires p > 0
    ensures (x % p - x) % p == 0
  {
    var q := x / p;
    assert x % p - x == (-q) * p;
    DivModUnique(x % p - x, p, -q, 0);
  }

  lemma MultipleOfFactor(x: int, a: int, e: int)
    requires a > 0 && e > 0 && x % (a * e) == 0
    ensures x % a == 0
  {
    var q := x / (a * e);
    assert x == (q * e) * a;
    DivModUnique(x, a, q * e, 0);
  }

  lemma AddMultiple(x: int, v: int, a: int)
    requires a > 0 && x % a == 0
    ensures (x + v * a) % a == 0
  {
    var q := x / a;
    assert x + v * a == (q + v) * a;
    DivModUnique(x + v * a, a, q + v, 0);
  }

  lemma {:induction false} Pow2Mono(a: nat, b: nat)
    requires a <= b
    ensures Pow2(a) <= Pow2(b)
  {
    if a < b {
      Pow2Mono(a, b - 1);
    }
  }

  /** The unsigned residue of a wrapped value is the residue of the original. */
  lemma WrapResidue(x: int, w: nat)
    requires w > 0
    ensures Wrap(x, w) % Pow256(w) == x % Pow256(w)
  {
    SameResidue(Wrap(x, w), x, Pow256(w));
  }

  /**
   * A packed word as the source writes it: each `(value, shift)` field shifted into
   * place and OR-ed onto the fields before it, left to right.
   */
  function Pack(fs: seq<(int, nat)>, w: nat): (r: int)
    requires w > 0 && |fs| > 0
    ensures -Half(w) <= r < Half(w)
    decreases |fs|
  {
    var last := Shl(fs[|fs| - 1].0, fs[|fs| - 1].1, w);
    if |fs| == 1 then last else JOr(Pack(fs[..|fs| - 1], w), last, w)
  }

  /** The arithmetic value of the fields: each value times two to its shift. */
  function Sum(fs: seq<(int, nat)>): int
    decreases |fs|
  {
    if fs == [] then 0 else Sum(fs[..|fs| - 1]) + fs[|fs| - 1].0 * Pow2(fs[|fs| - 1].1)
  }

  lemma SumSnoc(fs: seq<(int, nat)>, n: nat)
    requires 0 < n <= |fs|
    ensures Sum(fs[..n]) == Sum(fs[..n - 1]) + fs[n - 1].0 * Pow2(fs[n - 1].1)
  {
    assert fs[..n][..n - 1] == fs[..n - 1];
  }

  /**
   * Fields whose bits cannot overlap within the word: shifts strictly decrease,
   * every field after the first is a natural number that fits below its
   * predecessor's shift, and the first shift lies inside the word.
   */
  predicate Disjoint(fs: seq<(int, nat)>, w: nat) {
    && |fs| > 0
    && fs[0].1 <= 8 * w
    && forall i :: 0 < i < |fs| ==>
         fs[i].1 < fs[i - 1].1 && 0 <= fs[i].0 && fs[i].0 * Pow2(fs[i].1) < Pow2(fs[i - 1].1)
  }

  lemma {:induction false} SumMultiple(fs: seq<(int, nat)>, w: nat)
    requires Disjoint(fs, w)
    ensures Sum(fs) % Pow2(fs[|fs| - 1].1) == 0
    decreases |fs|
  {
    var n := |fs|;
    var s := fs[n - 1].1;
    if n == 1 {
      assert fs[..n - 1] == [];
      assert Sum(fs) == fs[0].0 * Pow2(s);
      DivModUnique(Sum(fs), Pow2(s), fs[0].0, 0);
    } else {
      var init := fs[..n - 1];
      DisjointPrefix(fs, w);
      SumMultiple(init, w);
      var t := init[|init| - 1].1;
      assert t == fs[n - 2].1 && s < t;
      Pow2Add(s, t - s);
      MultipleOfFactor(Sum(init), Pow2(s), Pow2(t - s));
      AddMultiple(Sum(init), fs[n - 1].0, Pow2(s));
    }
  }

  /** One OR step of the packing: the new field `b` lands in zero bits, so OR is addition. */
  lemma PackStep(acc: int, b: int, t: nat, w: nat)
    requires w > 0 && t <= 8 * w
    requires acc % Pow2(t) == 0
    requires 0 <= b < Pow2(t)
    ensures JOr(Wrap(acc, w), Wrap(b, w), w) == Wrap(acc + b, w)
  {
    var p := Pow256(w);
    var a := acc % p;
    assert Pow2(t) <= p by {
      Pow2Bytes(w);
      Pow2Mono(t, 8 * w);
    }
    assert Wrap(b, w) % p == b by {
      SmallResidue(b, p);
      WrapResidue(b, w);
    }
    assert Wrap(acc, w) % p == a by {
      WrapResidue(acc, w);
    }
    assert Or(a, b) == a + b by {
      ModKeepsMultiple(acc, t, w);
      OrAdd(a, b, t);
    }
    assert Wrap(a + b, w) == Wrap(acc + b, w) by {
      ResidueDiff(acc, p);
      WrapCongruent(a + b, acc + b, w);
    }
  }

  /** The OR-packing of disjoint fields is their sum, narrowed to the word. */
  lemma {:induction false} PackSum(fs: seq<(int, nat)>, w: nat)
    requires w > 0 && Disjoint(fs, w)
    ensures Pack(fs, w) == Wrap(Sum(fs), w)
    decreases |fs|
  {
    var n := |fs|;
    if n == 1 {
      assert Sum(fs) == fs[0].0 * Pow2(fs[0].1) by {
        assert fs[..n - 1] == [];
      }
    } else {
      var init := fs[..n - 1];
      DisjointPrefix(fs, w);
      PackSum(init, w);
      SumMultiple(init, w);
      assert init[|init| - 1] == fs[n - 2];
      assert fs[n - 2].1 <= fs[0].1 by { Descending(fs, w, n - 2); }
      PackStep(Sum(init), fs[n - 1].0 * Pow2(fs[n - 1].1), fs[n - 2].1, w);
    }
  }

  lemma DisjointPrefix(fs: seq<(int, nat)>, w: nat)
    requires Disjoint(fs, w) && |fs| > 1
    ensures Disjoint(fs[..|fs| - 1], w)
  {
    var init := fs[..|fs| - 1];
    forall i | 0 < i < |init|
      ensures init[i].1 < init[i - 1].1
    {
      assert init[i] == fs[i] && init[i - 1] == fs[i - 1];
    }
  }


  lemma {:induction false} Descending(fs: seq<(int, nat)>, w: nat, i: nat)
    requires Disjoint(fs, w) && i < |fs|
    ensures fs[i].1 <= fs[0].1
  {
    if i > 0 {
      Descending(fs, w, i - 1);
    }
  }
}
