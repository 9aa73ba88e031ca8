// The code of Appendix B of RFC 7541 is in order: of two symbols with codes of one length the
// smaller has the smaller code, and shorter codes come before longer ones.
module HuffmanOrder {
  import opened Words
  import opened HuffmanData
  import opened HuffmanCode
  import opened HuffmanRfc

  // ---- sixteen places to a lemma

  lemma Row0(j: nat)
    requires j < 15
    ensures LengthAt(0 + j) == LengthAt(0 + j + 1) ==> Symbol0(j) < Symbol0(j + 1)
  {
  }

  lemma Row1(j: nat)
    requires j < 15
    ensures LengthAt(16 + j) == LengthAt(16 + j + 1) ==> Symbol1(j) < Symbol1(j + 1)
  {
  }

  lemma Row2(j: nat)
    requires j < 15
    ensures LengthAt(32 + j) == LengthAt(32 + j + 1) ==> Symbol2(j) < Symbol2(j + 1)
  {
  }

  lemma Row3(j: nat)
    requires j < 15
    ensures LengthAt(48 + j) == LengthAt(48 + j + 1) ==> Symbol3(j) < Symbol3(j + 1)
  {
  }

  lemma Row4(j: nat)
    requires j < 15
    ensures LengthAt(64 + j) == LengthAt(64 + j + 1) ==> Symbol4(j) < Symbol4(j + 1)
  {
  }

  lemma Row5(j: nat)
    requires j < 15
    ensures LengthAt(80 + j) == LengthAt(80 + j + 1) ==> Symbol5(j) < Symbol5(j + 1)
  {
  }

  lemma Row6(j: nat)
    requires j < 15
    ensures LengthAt(96 + j) == LengthAt(96 + j + 1) ==> Symbol6(j) < Symbol6(j + 1)
  {
  }

  lemma Row7(j: nat)
    requires j < 15
    ensures LengthAt(112 + j) == LengthAt(112 + j + 1) ==> Symbol7(j) < Symbol7(j + 1)
  {
  }

  lemma Row8(j: nat)
    requires j < 15
    ensures LengthAt(128 + j) == LengthAt(128 + j + 1) ==> Symbol8(j) < Symbol8(j + 1)
  {
  }

  lemma Row9(j: nat)
    requires j < 15
    ensures LengthAt(144 + j) == LengthAt(144 + j + 1) ==> Symbol9(j) < Symbol9(j + 1)
  {
  }

  lemma Row10(j: nat)
    requires j < 15
    ensures LengthAt(160 + j) == LengthAt(160 + j + 1) ==> Symbol10(j) < Symbol10(j + 1)
  {
  }

  lemma Row11(j: nat)
    requires j < 15
    ensures LengthAt(176 + j) == LengthAt(176 + j + 1) ==> Symbol11(j) < Symbol11(j + 1)
  {
  }

  lemma Row12(j: nat)
    requires j < 15
    ensures LengthAt(192 + j) == LengthAt(192 + j + 1) ==> Symbol12(j) < Symbol12(j + 1)
  {
  }

  lemma Row13(j: nat)
    requires j < 15
    ensures LengthAt(208 + j) == LengthAt(208 + j + 1) ==> Symbol13(j) < Symbol13(j + 1)
  {
  }

  lemma Row14(j: nat)
    requires j < 15
    ensures LengthAt(224 + j) == LengthAt(224 + j + 1) ==> Symbol14(j) < Symbol14(j + 1)
  {
  }

  lemma Row15(j: nat)
    requires j < 15
    ensures LengthAt(240 + j) == LengthAt(240 + j + 1) ==> Symbol15(j) < Symbol15(j + 1)
  {
  }

  lemma Seams()
    ensures Symbol0(15) < Symbol1(0)
    ensures Symbol1(15) < Symbol2(0)
    ensures Symbol2(15) < Symbol3(0)
    ensures Symbol3(15) < Symbol4(0)
    ensures Symbol4(15) < Symbol5(0)
    ensures Symbol5(15) < Symbol6(0)
    ensures Symbol6(15) < Symbol7(0)
    ensures Symbol7(15) < Symbol8(0)
    ensures Symbol8(15) < Symbol9(0)
    ensures Symbol9(15) < Symbol10(0)
    ensures Symbol10(15) < Symbol11(0)
    ensures Symbol11(15) < Symbol12(0)
    ensures Symbol12(15) < Symbol13(0)
    ensures LengthAt(223) != LengthAt(224)
    ensures Symbol14(15) < Symbol15(0)
    ensures Symbol15(15) < Symbol16(0)
  {
  }

  /** From one place to the next. */
  lemma Rising(n: nat)
    requires n < 256
    ensures LengthAt(n) == LengthAt(n + 1) ==> Nth(n) < Nth(n + 1)
  {
    hide LengthAt, Symbol0, Symbol1, Symbol2, Symbol3, Symbol4, Symbol5, Symbol6, Symbol7, Symbol8, Symbol9, Symbol10, Symbol11, Symbol12, Symbol13, Symbol14, Symbol15, Symbol16;
    Seams();
    var r, j := n / 16, n % 16;
    if j < 15 {
      assert (n + 1) / 16 == r && (n + 1) % 16 == j + 1;
      match r {
        case 0 => Row0(j);
        case 1 => Row1(j);
        case 2 => Row2(j);
        case 3 => Row3(j);
        case 4 => Row4(j);
        case 5 => Row5(j);
        case 6 => Row6(j);
        case 7 => Row7(j);
        case 8 => Row8(j);
        case 9 => Row9(j);
        case 10 => Row10(j);
        case 11 => Row11(j);
        case 12 => Row12(j);
        case 13 => Row13(j);
        case 14 => Row14(j);
        case _ => Row15(j);
      }
    } else {
      assert (n + 1) / 16 == r + 1 && (n + 1) % 16 == 0;
    }
  }

  lemma LengthsRise(n: nat)
    requires n < 256
    ensures LengthAt(n) <= LengthAt(n + 1)
  {
    var d, k := Next(n);
  }

  lemma {:induction false} RisingFar(m: nat, n: nat)
    requires m < n <= 256
    ensures LengthAt(m) <= LengthAt(n) && (LengthAt(m) == LengthAt(n) ==> Nth(m) < Nth(n))
    decreases n - m
  {
    hide LengthAt, Nth;
    LengthsRise(n - 1);
    Rising(n - 1);
    if m < n - 1 { RisingFar(m, n - 1); }
  }

  /** Of two symbols with codes of one length the smaller has the smaller code. */
  lemma CodesInOrder(a: Symbol, b: Symbol)
    requires a < b && LengthOf(a) == LengthOf(b)
    ensures CodeOf(a) < CodeOf(b)
  {
    hide LengthAt, Nth, CodeOf, LengthOf, CodeAt, Start, Size;
    var m := PlaceOf(a);
    var n := PlaceOf(b);
    if m < n {
      InOrder(m, n);
      SameSize(m, n);
    } else if n < m {
      RisingFar(n, m);
    }
  }

  /** Places in order and lengths alike: the codes are in order. */
  lemma SameSize(m: nat, n: nat)
    requires LengthAt(m) == LengthAt(n) && Start(m) + Size(m) <= Start(n)
    ensures CodeAt(m) < CodeAt(n)
  {
    hide CodeAt, LengthAt, Pow2;
    var s := Size(m);
    assert Size(n) == s && Start(m) == CodeAt(m) * s && Start(n) == CodeAt(n) * s;
    if CodeAt(n) <= CodeAt(m) { NoLess(CodeAt(n), CodeAt(m), s); }
  }

  lemma NoLess(x: int, y: int, s: nat)
    requires x <= y
    ensures x * s <= y * s
  {
    MulDistributes(x, y - x, s);
    MulNonnegative(y - x, s);
  }

  /** Shorter codes come first: padded with zeros, a shorter code is the smaller number. */
  lemma ShorterFirst(a: Symbol, b: Symbol)
    requires LengthOf(a) < LengthOf(b) <= 30
    ensures CodeOf(a) * Pow2(30 - LengthOf(a)) < CodeOf(b) * Pow2(30 - LengthOf(b))
  {
    hide LengthAt, Nth, CodeOf, LengthOf, CodeAt, Start, Size, Pow2;
    var m := PlaceOf(a);
    var n := PlaceOf(b);
    if n < m { RisingFar(n, m); }
    InOrder(m, n);
    Scaled(m);
    Scaled(n);
    SizePositive(m);
  }

  lemma SizePositive(m: nat)
    ensures Size(m) >= 1
  {
    hide Pow2, LengthAt;
  }

  /** The same numbers at 32 bits. */
  lemma Scaled(n: nat)
    requires n <= 256 && LengthAt(n) <= 30
    ensures Start(n) == 4 * (CodeAt(n) * Pow2(30 - LengthAt(n)))
  {
    hide CodeAt, LengthAt;
    var k := 30 - LengthAt(n);
    assert Pow2(k + 2) == 4 * Pow2(k);
    assert Size(n) == Pow2(k + 2);
    MulAssoc(CodeAt(n), 4, Pow2(k));
    Regroup(CodeAt(n), Pow2(k));
  }

  lemma Regroup(a: int, b: int)
    ensures a * (4 * b) == 4 * (a * b)
  {
  }
}
