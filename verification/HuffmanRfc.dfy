// The code of Appendix B of RFC 7541 has the properties everything else asks of a table.
module HuffmanRfc {
  import opened Words
  import opened HuffmanData
  import opened HuffmanCode
  import opened HuffmanDecode
  import HuffmanTree
  import HuffmanKraft

  function RfcTable(): Table {
    Table(seq(SYMBOLS, s requires 0 <= s < SYMBOLS => CodeOf(s)), seq(SYMBOLS, s requires 0 <= s < SYMBOLS => LengthOf(s)))
  }

  // ---- padded to 32 bits, the codes in their order divide the 32-bit numbers between them

  function Size(n: nat): (r: nat)
    ensures r > 0
  {
    if LengthAt(n) <= 32 then Pow2(32 - LengthAt(n)) else 1
  }

  function Start(n: nat): int { CodeAt(n) * Size(n) }

  predicate Doubles(d: int, k: int) {
    (d == 0 && k == 1) || (d == 1 && k == 2) || (d == 2 && k == 4) || (d == 4 && k == 16)
  }

  /** A code begins where the one before it ends. */
  lemma Next(n: nat) returns (d: nat, k: nat)
    requires n < 256
    ensures Doubles(d, k) && LengthAt(n + 1) == LengthAt(n) + d && CodeAt(n + 1) == (CodeAt(n) + 1) * k
    ensures 5 <= LengthAt(n) && LengthAt(n + 1) <= 30
  {
    d := LengthAt(n + 1) - LengthAt(n);
    k := if d == 0 then 1 else if d == 1 then 2 else if d == 2 then 4 else 16;
  }

  lemma StartNext(n: nat)
    requires n < 256
    ensures Start(n + 1) == Start(n) + Size(n)
  {
    hide LengthAt, CodeAt, Pow2;
    var d, k := Next(n);
    var p := Size(n + 1);
    Pow2Add(d, 32 - LengthAt(n + 1));
    Pow2Values();
    assert Size(n) == k * p;
    MulAssoc(CodeAt(n) + 1, k, p);
    MulDistributes(CodeAt(n), 1, Size(n));
  }

  lemma {:induction false} InOrder(m: nat, n: nat)
    requires m < n <= 256
    ensures Start(m) + Size(m) <= Start(n)
    decreases n - m
  {
    hide Start, Size;
    StartNext(n - 1);
    if m < n - 1 { InOrder(m, n - 1); }
  }

  lemma Ends()
    ensures Start(0) == 0 && Start(256) + Size(256) == Pow2(32) && LengthAt(256) == 30
  {
    Pow2Values();
    assert Pow2(2) == 4;
    Pow2Add(16, 16);
  }

  lemma Positive(n: nat)
    requires n <= 256
    ensures CodeAt(n) >= 0 && 5 <= LengthAt(n) <= 30 && 0 <= Start(n) && Start(n) + Size(n) <= Pow2(32)
  {
    hide Start, Size;
    Ends();
    if n > 0 { InOrder(0, n); }
    if n < 256 { InOrder(n, 256); }
    Bounds(n);
  }

  lemma Bounds(n: nat)
    requires n <= 256
    ensures CodeAt(n) >= 0 && 5 <= LengthAt(n) <= 30
  {
  }

  /** The n-th code fits in its length. */
  lemma CodeFits(n: nat)
    requires n <= 256
    ensures CodeAt(n) < Pow2(LengthAt(n))
  {
    hide CodeAt, LengthAt, Pow2;
    Positive(n);
    var l := LengthAt(n);
    Pow2Add(l, 32 - l);
    MulDistributes(CodeAt(n), 1, Size(n));
    if CodeAt(n) >= Pow2(l) { HuffmanTree.MulUpTo(Pow2(l) + 1, CodeAt(n) + 1, Size(n)); MulDistributes(Pow2(l), 1, Size(n)); }
  }

  // ---- every symbol has a place in the order

  ghost function Symbols(n: nat): set<int> {
    if n == 0 then {} else Symbols(n - 1) + {Nth(n - 1)}
  }

  lemma {:induction false} SymbolsAre(n: nat, s: int)
    ensures s in Symbols(n) <==> exists k :: 0 <= k < n && Nth(k) == s
  {
    hide Nth;
    if n > 0 { SymbolsAre(n - 1, s); }
  }

  lemma NewSymbol(n: nat)
    requires n <= 256
    ensures Nth(n) !in Symbols(n)
  {
    hide Nth, Symbols;
    SymbolsAre(n, Nth(n));
    forall k | 0 <= k < n
      ensures Nth(k) != Nth(n)
    {
      Apart(k, n);
    }
  }

  lemma {:induction false} SymbolsCount(n: nat)
    requires n <= SYMBOLS
    ensures |Symbols(n)| == n && forall s :: s in Symbols(n) ==> 0 <= s < SYMBOLS
  {
    hide Nth;
    if n > 0 {
      SymbolsCount(n - 1);
      IsSymbol(n - 1);
      NewSymbol(n - 1);
    }
  }

  lemma IsSymbol(n: nat)
    requires n <= 256
    ensures Nth(n) < SYMBOLS
  {
    hide Nth, CodeOf, LengthOf, CodeAt, LengthAt, Short;
    AllEntries(n);
  }

  /** Different places, different codes, so different symbols. */
  lemma Apart(k: nat, n: nat)
    requires k < n <= 256
    ensures Nth(k) != Nth(n)
  {
    hide Nth, CodeOf, LengthOf, CodeAt, LengthAt, Short;
    AllEntries(k);
    AllEntries(n);
    InOrder(k, n);
  }

  lemma AllSymbols()
    ensures Symbols(SYMBOLS) == HuffmanKraft.Interval(0, SYMBOLS)
  {
    hide Nth, Symbols;
    SymbolsCount(SYMBOLS);
    HuffmanKraft.SubsetOfSameSize(Symbols(SYMBOLS), HuffmanKraft.Interval(0, SYMBOLS));
  }

  /** The place of a symbol. */
  lemma PlaceOf(s: Symbol) returns (n: nat)
    ensures n <= 256 && Nth(n) == s && CodeOf(s) == CodeAt(n) && LengthOf(s) == LengthAt(n)
    ensures Short(s) <==> LengthOf(s) <= 8
  {
    hide Nth, CodeOf, LengthOf, CodeAt, LengthAt, Short, Symbols;
    AllSymbols();
    assert s in HuffmanKraft.Interval(0, SYMBOLS);
    SymbolsAre(SYMBOLS, s);
    n :| 0 <= n < SYMBOLS && Nth(n) == s;
    AllEntries(n);
  }

  lemma RfcWellFormed()
    ensures WellFormed(RfcTable())
  {
    hide Nth, CodeOf, LengthOf, CodeAt, LengthAt, Short;
    forall s | 0 <= s < SYMBOLS
      ensures 1 <= RfcTable().lengths[s] <= 32 && RfcTable().codes[s] < Pow2(RfcTable().lengths[s])
    {
      var n := PlaceOf(s);
      CodeFits(n);
      Positive(n);
    }
  }

  // ---- what a 32-bit number begins with

  lemma HitIs(x: nat, s: Symbol, n: nat)
    requires WellFormed(RfcTable()) && x < Pow2(32) && n <= 256 && Nth(n) == s
    ensures IsHit(RfcTable(), BitsOf(x, 32), s) <==> Start(n) <= x < Start(n) + Size(n)
  {
    hide Nth, CodeOf, LengthOf, CodeAt, LengthAt, Short, IsHit, BitsOf, WellFormed;
    AllEntries(n);
    Positive(n);
    HuffmanKraft.HitsAreInterval(RfcTable(), 32, s, x);
  }

  /** Two codes cannot both begin the same number. */
  lemma OnlyHit(x: nat, a: Symbol, b: Symbol)
    requires WellFormed(RfcTable()) && x < Pow2(32)
    ensures IsHit(RfcTable(), BitsOf(x, 32), a) && IsHit(RfcTable(), BitsOf(x, 32), b) ==> a == b
  {
    hide Nth, CodeOf, LengthOf, Start, Size, CodeAt, LengthAt, Short, IsHit, BitsOf, WellFormed, Pow2;
    var m := PlaceOf(a);
    var n := PlaceOf(b);
    HitIs(x, a, m);
    HitIs(x, b, n);
    if m < n { InOrder(m, n); }
    if n < m { InOrder(n, m); }
  }

  lemma RfcPrefixFree()
    requires WellFormed(RfcTable())
    ensures PrefixFree(RfcTable())
  {
    hide Nth, CodeOf, LengthOf, CodeAt, LengthAt, Short, BitsOf, WellFormed, Pow2, Code;
    var t := RfcTable();
    forall a: Symbol, b: Symbol | a != b
      ensures !(Code(t, a) <= Code(t, b))
    {
      var n := PlaceOf(b);
      Positive(n);
      HitIs(Start(n), b, n);
      PrefixTransitive(Code(t, a), Code(t, b), BitsOf(Start(n), 32));
      OnlyHit(Start(n), a, b);
    }
  }

  /** Every number lies with one of the codes up to n that ends behind it. */
  lemma {:induction false} Locate(x: nat, n: nat) returns (k: nat)
    requires n <= 256 && x < Start(n) + Size(n)
    ensures k <= n && Start(k) <= x < Start(k) + Size(k)
    decreases n
  {
    hide Start, Size;
    if x >= Start(n) {
      k := n;
    } else {
      Ends();
      if n > 0 { StartNext(n - 1); }
      k := Locate(x, n - 1);
    }
  }

  lemma RfcComplete()
    requires WellFormed(RfcTable())
    ensures Complete(RfcTable())
  {
    hide Nth, CodeOf, LengthOf, Start, Size, CodeAt, LengthAt, Short, IsHit, BitsOf, WellFormed, Pow2, HasComparable;
    var t := RfcTable();
    Ends();
    forall x | 0 <= x < Pow2(32)
      ensures HuffmanKraft.HitBelow(t, BitsOf(x, 32), SYMBOLS)
    {
      var k := Locate(x, 256);
      AllEntries(k);
      HitIs(x, Nth(k), k);
    }
    assert HuffmanKraft.Covered(t, 32, SYMBOLS) == HuffmanKraft.Interval(0, Pow2(32));
    forall q: Bits
      ensures HasComparable(t, q)
    {
      HuffmanKraft.AllCovered(t, 32, q);
    }
  }

  lemma RfcEosIsOnes()
    requires WellFormed(RfcTable())
    ensures EosIsOnes(RfcTable())
  {
    hide Nth, CodeOf, LengthOf, Short, WellFormed, BitsOf, Ones;
    LastEntry();
    ThirtyOnes();
  }

  lemma ThirtyOnes()
    ensures BitsOf(0x3fffffff, 30) == Ones(30)
  {
    hide BitsOf, Val;
    Pow2Values();
    Pow2Add(8, 7);
    Pow2Add(15, 15);
    ValOnes(30);
    BitsOfVal(Ones(30));
  }

  /** Prefix-free, nothing undecided, end of string all ones. */
  lemma RfcIsGood()
    ensures Good(RfcTable())
  {
    hide WellFormed, PrefixFree, Complete, EosIsOnes;
    RfcWellFormed();
    RfcPrefixFree();
    RfcComplete();
    RfcEosIsOnes();
  }

  /** The texts whose codes all fit in a byte are those of the space, letters, digits and % & * , - . / : ; = _. */
  lemma ShortTexts(s: seq<Byte>)
    ensures WellFormed(RfcTable())
    ensures AllShort(RfcTable(), s) <==> forall i :: 0 <= i < |s| ==> Short(s[i])
  {
    hide Nth, CodeOf, LengthOf, CodeAt, LengthAt, Short;
    RfcWellFormed();
    forall i | 0 <= i < |s|
      ensures RfcTable().lengths[s[i]] <= 8 <==> Short(s[i])
    {
      var n := PlaceOf(s[i]);
    }
  }

  /** With the real table: exactly the texts in that alphabet survive the coder as written. */
  lemma RfcRoundTrip(s: seq<Byte>)
    ensures Good(RfcTable())
    ensures Decode(RfcTable(), Encoding(RfcTable(), s)) == Text(s) <==> forall i :: 0 <= i < |s| ==> Short(s[i])
  {
    hide Good, Decode, Encoding, AllShort, Short, RfcTable;
    RfcIsGood();
    ShortTexts(s);
    RoundTrip(RfcTable(), s);
  }
}
