// A prefix-free code whose Kraft sum is 1 leaves no bit string uncovered.
module HuffmanKraft {
  import opened Words
  import opened HuffmanCode
  import opened HuffmanDecode
  import opened HuffmanTree

  /** 2^w times the sum of 2^-length over the first k symbols. */
  function KraftSum(t: Table, w: nat, k: nat): nat
    requires WellFormed(t) && w >= 32 && k <= SYMBOLS
  {
    if k == 0 then 0 else KraftSum(t, w, k - 1) + Pow2(w - t.lengths[k - 1])
  }

  function Interval(a: int, b: int): (r: set<int>)
    ensures forall x :: x in r <==> a <= x < b
    ensures a <= b ==> |r| == b - a
    decreases b - a
  {
    if a >= b then {} else Interval(a, b - 1) + {b - 1}
  }

  /** The w-bit numbers whose bits begin with the code of some symbol below k. */
  ghost function Covered(t: Table, w: nat, k: nat): set<int>
    requires WellFormed(t) && w >= 32 && k <= SYMBOLS
  {
    set x | 0 <= x < Pow2(w) && HitBelow(t, BitsOf(x, w), k)
  }

  ghost predicate HitBelow(t: Table, q: Bits, k: nat)
    requires WellFormed(t) && k <= SYMBOLS
  {
    exists s: Symbol :: s < k && IsHit(t, q, s)
  }

  /** The numbers that begin with one code are an interval. */
  lemma HitsAreInterval(t: Table, w: nat, s: Symbol, x: nat)
    requires WellFormed(t) && w >= 32 && x < Pow2(w)
    ensures var p := Pow2(w - t.lengths[s]); var lo := t.codes[s] * p;
            IsHit(t, BitsOf(x, w), s) <==> lo <= x < lo + p
  {
    ValBitsOf(t.codes[s], t.lengths[s]);
    StartsWith(Code(t, s), x, w);
  }

  lemma IntervalFits(t: Table, w: nat, s: Symbol)
    requires WellFormed(t) && w >= 32
    ensures var p := Pow2(w - t.lengths[s]); 0 <= t.codes[s] * p && t.codes[s] * p + p <= Pow2(w)
  {
    var p := Pow2(w - t.lengths[s]);
    Pow2Add(t.lengths[s], w - t.lengths[s]);
    MulUpTo(t.codes[s] + 1, Pow2(t.lengths[s]), p);
    MulDistributes(t.codes[s], 1, p);
    MulNonnegative(t.codes[s], p);
  }

  lemma CoveredStep(t: Table, w: nat, k: nat)
    requires WellFormed(t) && PrefixFree(t) && w >= 32 && k < SYMBOLS
    ensures |Covered(t, w, k + 1)| == |Covered(t, w, k)| + Pow2(w - t.lengths[k])
  {
    hide PrefixFree, Pow2, BitsOf, Code, IsHit, HitBelow;
    var p := Pow2(w - t.lengths[k]);
    var lo := t.codes[k] * p;
    IntervalFits(t, w, k);
    forall x | 0 <= x < Pow2(w)
      ensures HitBelow(t, BitsOf(x, w), k + 1) <==> HitBelow(t, BitsOf(x, w), k) || x in Interval(lo, lo + p)
      ensures !(x in Interval(lo, lo + p) && HitBelow(t, BitsOf(x, w), k))
    {
      HitsAreInterval(t, w, k, x);
      HitsDisjoint(t, BitsOf(x, w), k);
    }
    assert Covered(t, w, k + 1) == Covered(t, w, k) + Interval(lo, lo + p);
    assert Covered(t, w, k) !! Interval(lo, lo + p);
  }

  lemma HitsDisjoint(t: Table, q: Bits, k: Symbol)
    requires WellFormed(t) && PrefixFree(t)
    ensures HitBelow(t, q, k + 1) <==> HitBelow(t, q, k) || IsHit(t, q, k)
    ensures !(HitBelow(t, q, k) && IsHit(t, q, k))
  {
    if IsHit(t, q, k) {
      forall s: Symbol ensures IsHit(t, q, s) ==> s == k { OneHit(t, q, k, s); }
    }
  }

  lemma {:induction false} CoveredSize(t: Table, w: nat, k: nat)
    requires WellFormed(t) && PrefixFree(t) && w >= 32 && k <= SYMBOLS
    ensures |Covered(t, w, k)| == KraftSum(t, w, k)
  {
    if k > 0 {
      CoveredSize(t, w, k - 1);
      CoveredStep(t, w, k - 1);
    } else {
      assert Covered(t, w, 0) == {};
    }
  }

  lemma SubsetOfSameSize(a: set<int>, b: set<int>)
    requires a <= b && |a| == |b|
    ensures a == b
  {
    assert b == a + (b - a);
  }

  /** Kraft sum 1 and no code a prefix of another: every bit string is decided. */
  lemma KraftIsComplete(t: Table, w: nat)
    requires WellFormed(t) && PrefixFree(t) && w >= 32
    requires KraftSum(t, w, SYMBOLS) == Pow2(w)
    ensures Complete(t)
  {
    CoveredSize(t, w, SYMBOLS);
    SubsetOfSameSize(Covered(t, w, SYMBOLS), Interval(0, Pow2(w)));
    forall q: Bits
      ensures HasComparable(t, q)
    {
      AllCovered(t, w, q);
    }
  }

  lemma AllCovered(t: Table, w: nat, q: Bits)
    requires WellFormed(t) && w >= 32
    requires Covered(t, w, SYMBOLS) == Interval(0, Pow2(w))
    ensures HasComparable(t, q)
  {
    hide WellFormed, BitsOf, Pow2;
    var r := if |q| < w then q + Zeros(w - |q|) else q[..w];
    ValBound(r);
    BitsOfVal(r);
    assert Val(r) in Interval(0, Pow2(w));
    assert Val(r) in Covered(t, w, SYMBOLS);
    var s: Symbol :| IsHit(t, r, s);
    if |q| < w {
      assert q <= r;
      PrefixesCompare(Code(t, s), q, r);
    } else {
      PrefixTransitive(Code(t, s), r, q);
    }
    assert Comparable(Code(t, s), q);
  }
}
