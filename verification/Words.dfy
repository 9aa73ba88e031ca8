// Bytes as small integers, bit strings, and the arithmetic that connects them.
// Shifts and masks of the modelled program are written as products, quotients
// and remainders by powers of two.
module Words {
  type Byte = b: int | 0 <= b < 256

  /** A string of bits, most significant first. */
  type Bits = seq<bool>

  const INT_MODULUS: nat := 0x1_0000_0000_0000_0000

  /** Int is a 64-bit word: a left shift drops what leaves it. */
  function Wrap(x: nat): (w: nat) { x % INT_MODULUS }

  /** The low |bs| bits of the word are bs. */
  ghost predicate Holds(word: nat, bs: Bits) {
    word % Pow2(|bs|) == Val(bs)
  }

  function Pow2(n: nat): (r: nat)
    ensures r > 0
  {
    if n == 0 then 1 else 2 * Pow2(n - 1)
  }

  /** The number a bit string denotes. */
  function Val(bs: Bits): nat {
    if bs == [] then 0 else 2 * Val(bs[..|bs| - 1]) + (if bs[|bs| - 1] then 1 else 0)
  }

  /** The low n bits of v. */
  function BitsOf(v: nat, n: nat): (bs: Bits)
    ensures |bs| == n
  {
    if n == 0 then [] else BitsOf(v / 2, n - 1) + [v % 2 == 1]
  }

  function ByteBits(bytes: seq<Byte>): (bs: Bits)
    ensures |bs| == 8 * |bytes|
  {
    if bytes == [] then [] else ByteBits(bytes[..|bytes| - 1]) + BitsOf(bytes[|bytes| - 1], 8)
  }

  /** Pieces of an input, put together. */
  function Concat(pieces: seq<seq<Byte>>): seq<Byte> {
    if pieces == [] then [] else pieces[0] + Concat(pieces[1..])
  }

  function Ones(n: nat): Bits { seq(n, _ => true) }

  function Zeros(n: nat): Bits { seq(n, _ => false) }

  lemma {:induction false} Pow2Add(a: nat, b: nat)
    ensures Pow2(a + b) == Pow2(a) * Pow2(b)
  {
    if a > 0 {
      Pow2Add(a - 1, b);
      MulAssoc(2, Pow2(a - 1), Pow2(b));
    }
  }

  lemma MulAssoc(a: int, b: int, c: int)
    ensures a * (b * c) == (a * b) * c
  {
  }

  lemma MulDistributes(a: int, b: int, c: int)
    ensures (a + b) * c == a * c + b * c
  {
  }

  lemma Pow2Values()
    ensures Pow2(0) == 1 && Pow2(1) == 2 && Pow2(2) == 4 && Pow2(3) == 8 && Pow2(4) == 16
    ensures Pow2(5) == 32 && Pow2(6) == 64 && Pow2(7) == 128 && Pow2(8) == 256
  {
    assert Pow2(4) == 16;
  }

  lemma {:induction false} ValBound(bs: Bits)
    ensures Val(bs) < Pow2(|bs|)
  {
    if bs != [] { ValBound(bs[..|bs| - 1]); }
  }

  lemma {:induction false} ValAppend(a: Bits, b: Bits)
    ensures Val(a + b) == Val(a) * Pow2(|b|) + Val(b)
  {
    if b == [] {
      assert a + b == a;
    } else {
      var b' := b[..|b| - 1];
      ValAppend(a, b');
      assert (a + b)[..|a + b| - 1] == a + b';
      MulAssoc(2, Val(a), Pow2(|b'|));
      MulAssoc(Val(a), 2, Pow2(|b'|));
    }
  }

  lemma {:induction false} BitsOfVal(bs: Bits)
    ensures BitsOf(Val(bs), |bs|) == bs
  {
    if bs != [] {
      var bs' := bs[..|bs| - 1];
      BitsOfVal(bs');
      assert bs == bs' + [bs[|bs| - 1]];
      assert Val(bs) / 2 == Val(bs');
    }
  }

  lemma {:induction false} ValBitsOf(v: nat, n: nat)
    requires v < Pow2(n)
    ensures Val(BitsOf(v, n)) == v
  {
    if n > 0 {
      ValBitsOf(v / 2, n - 1);
      assert BitsOf(v, n)[..n - 1] == BitsOf(v / 2, n - 1);
    }
  }

  lemma SameVal(a: Bits, b: Bits)
    requires |a| == |b| && Val(a) == Val(b)
    ensures a == b
  {
    BitsOfVal(a);
    BitsOfVal(b);
  }

  lemma DivModUnique(x: int, d: int, q: int, r: int)
    requires d > 0 && 0 <= r < d && x == q * d + r
    ensures x / d == q && x % d == r
  {
    var q' := x / d;
    MulDistributes(q, -q', d);
    if q > q' {
      MulAtLeast(q - q', d);
    } else if q < q' {
      MulDistributes(q', -q, d);
      MulAtLeast(q' - q, d);
    }
  }

  /** A quotient in two steps. */
  lemma Halved(x: nat, d: nat)
    requires d > 0
    ensures x / (2 * d) == x / 2 / d
  {
    var q, r := x / 2 / d, x / 2 % d;
    assert x / 2 == q * d + r;
    assert x == 2 * (q * d + r) + x % 2;
    MulAssoc(q, 2, d);
    assert x == q * (2 * d) + (2 * r + x % 2);
    DivModUnique(x, 2 * d, q, 2 * r + x % 2);
  }

  lemma MulAtLeast(k: int, d: int)
    requires k >= 1 && d > 0
    ensures k * d >= d
  {
    MulDistributes(k - 1, 1, d);
  }

  lemma QuotientNonnegative(x: nat, d: nat)
    requires d > 0
    ensures x / d >= 0 && x == x / d * d + x % d
  {
  }

  /** If x agrees with hi + lo on its low bits, its two parts agree with hi and with lo. */
  lemma SplitWord(x: nat, hi: Bits, lo: Bits)
    requires Holds(x, hi + lo)
    ensures x / Pow2(|lo|) % Pow2(|hi|) == Val(hi)
    ensures Holds(x, lo)
  {
    var p, q := Pow2(|hi|), Pow2(|lo|);
    Pow2Add(|hi|, |lo|);
    ValAppend(hi, lo);
    ValBound(hi);
    ValBound(lo);
    assert |hi + lo| == |hi| + |lo|;
    SplitNumber(x, p, q, Val(hi), Val(lo));
  }

  lemma SplitNumber(x: nat, p: nat, q: nat, hi: nat, lo: nat)
    requires p > 0 && q > 0 && hi < p && lo < q && p * q > 0
    requires x % (p * q) == hi * q + lo
    ensures x / q % p == hi && x % q == lo
  {
    var k := x / (p * q);
    QuotientNonnegative(x, p * q);
    MulAssoc(k, p, q);
    MulDistributes(k * p, hi, q);
    DivModUnique(x, q, k * p + hi, lo);
    DivModUnique(k * p + hi, p, k, hi);
  }

  /** Shifting `add` into the low end of a word that holds `bs`. */
  lemma ShiftIn(x: nat, bs: Bits, add: Bits)
    requires Holds(x, bs) && |bs| + |add| <= 64
    ensures x * Pow2(|add|) + Val(add) >= 0
    ensures Holds(Wrap(x * Pow2(|add|) + Val(add)), bs + add)
  {
    MulNonnegative(x, Pow2(|add|));
    var y: nat := x * Pow2(|add|) + Val(add);
    ShiftInUnbounded(x, bs, add);
    assert |bs + add| == |bs| + |add|;
    WrapKeepsLow(y, |bs + add|);
  }

  lemma WrapKeepsLow(y: nat, n: nat)
    requires n <= 64
    ensures Wrap(y) % Pow2(n) == y % Pow2(n)
  {
    WordModulus();
    ModOfMod(y, n, 64);
  }

  lemma WordModulus()
    ensures Pow2(64) == INT_MODULUS
  {
    hide Pow2;
    Pow2Values();
    Pow2Add(8, 8);
    Pow2Add(16, 16);
    assert Pow2(32) == 0x1_0000_0000;
    Pow2Add(32, 32);
  }

  lemma ShiftInUnbounded(x: nat, bs: Bits, add: Bits)
    requires x % Pow2(|bs|) == Val(bs)
    ensures (x * Pow2(|add|) + Val(add)) % Pow2(|bs| + |add|) == Val(bs + add)
  {
    hide Pow2, Val;
    Pow2Add(|bs|, |add|);
    ValAppend(bs, add);
    ValBound(bs + add);
    assert |bs + add| == |bs| + |add|;
    ShiftNumber(x, Pow2(|bs|), Pow2(|add|), Pow2(|bs| + |add|), Val(bs), Val(add), Val(bs + add));
  }

  lemma MulNonnegative(a: nat, b: nat)
    ensures a * b >= 0
  {
  }

  lemma ShiftNumber(x: nat, p: nat, q: nat, m: nat, hi: nat, lo: nat, v: nat)
    requires p > 0 && q > 0 && m > 0 && m == p * q
    requires v == hi * q + lo && v < m
    requires x % p == hi
    ensures (x * q + lo) % m == v
  {
    var k := x / p;
    QuotientNonnegative(x, p);
    MulAssoc(k, p, q);
    MulDistributes(k * p, hi, q);
    DivModUnique(x * q + lo, m, k, v);
  }

  lemma ModOfMod(y: nat, a: nat, b: nat)
    requires a <= b
    ensures y % Pow2(b) % Pow2(a) == y % Pow2(a)
  {
    Pow2Add(a, b - a);
    ModOfProduct(y, Pow2(a), Pow2(b - a));
  }

  lemma ModOfProduct(y: nat, p: nat, r: nat)
    requires p > 0 && r > 0 && p * r > 0
    ensures y % (p * r) % p == y % p
  {
    var k := y / (p * r);
    var z := y % (p * r);
    QuotientNonnegative(y, p * r);
    QuotientNonnegative(z, p);
    MulAssoc(k, r, p);
    MulDistributes(k * r, z / p, p);
    DivModUnique(y, p, k * r + z / p, z % p);
  }

  lemma {:induction false} ByteBitsAppend(a: seq<Byte>, b: seq<Byte>)
    ensures ByteBits(a + b) == ByteBits(a) + ByteBits(b)
  {
    hide BitsOf;
    if b == [] {
      assert a + b == a;
    } else {
      var b' := b[..|b| - 1];
      ByteBitsAppend(a, b');
      assert (a + b)[..|a + b| - 1] == a + b';
    }
  }

  lemma {:induction false} ByteBitsSingle(b: Byte)
    ensures ByteBits([b]) == BitsOf(b, 8)
  {
    assert [b][..0] == [];
  }

  lemma {:induction false} ValOnes(n: nat)
    ensures Val(Ones(n)) == Pow2(n) - 1
  {
    if n > 0 {
      ValOnes(n - 1);
      assert Ones(n)[..n - 1] == Ones(n - 1);
    }
  }
}
