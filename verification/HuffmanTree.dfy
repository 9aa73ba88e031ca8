// The decoder's 256-way tree and the walk over it. Nodes live on the heap; what a
// node's children are is mirrored by a value, so that the reasoning is about values.
module HuffmanTree {
  import opened Words
  import opened HuffmanCode
  import opened HuffmanDecode

  class Node {
    const symbol: nat
    const bits: nat
    const children: array?<Node?>

    constructor Internal()
      ensures children != null && fresh(children) && children.Length == 256
      ensures children[..] == NoChildren() && bits == 8
    {
      symbol, bits := 0, 8;
      children := new Node?[256](_ => null);
    }

    constructor Terminal(symbol: nat, bits: nat)
      ensures this.symbol == symbol && this.bits == bits && children == null
    {
      this.symbol, this.bits, children := symbol, bits, null;
    }

    predicate IsTerminal() { children == null }
  }

  function NoChildren(): seq<Node?> { seq(256, _ => null) }

  /** The internal nodes by the bits that lead to them, and what their children are. */
  datatype Shape = Shape(inner: map<Bits, Node>, kids: map<Bits, seq<Node?>>)

  function Child(p: Bits, i: nat): Bits { p + BitsOf(i, 8) }

  function Parent(q: Bits): Bits { if |q| < 8 then [] else q[..|q| - 8] }

  predicate Before(p: Bits, q: Bits) { p <= q && |p| < |q| }

  /** Some symbol below m has a code that goes on beyond p. */
  ghost predicate Extended(t: Table, m: nat, p: Bits)
    requires WellFormed(t) && m <= SYMBOLS
  {
    exists s: Symbol :: s < m && Before(p, Code(t, s))
  }

  predicate IsLeafFor(t: Table, n: Node?, s: Symbol)
    requires WellFormed(t)
  {
    n != null && n.IsTerminal() && n.symbol == s && n.bits == t.lengths[s]
  }

  /** Slot i of the node at p, once the symbols below k are inserted. */
  ghost predicate SlotOk(t: Table, k: nat, h: Shape, p: Bits, i: nat)
    requires WellFormed(t) && k <= SYMBOLS && p in h.kids && |h.kids[p]| == 256 && i < 256
  {
    var q, n := Child(p, i), h.kids[p][i];
    if q in h.inner then n == h.inner[q]
    else
      && (n != null ==> n.symbol < k && IsLeafFor(t, n, n.symbol) && Code(t, n.symbol) <= q)
      && forall s: Symbol :: s < k && IsHit(t, q, s) && |p| < |Code(t, s)| ==> IsLeafFor(t, n, s)
  }

  ghost predicate KeysOk(t: Table, m: nat, h: Shape)
    requires WellFormed(t) && m <= SYMBOLS
  {
    && [] in h.inner
    && h.kids.Keys == h.inner.Keys
    && (forall p :: p in h.kids ==> |p| % 8 == 0 && |h.kids[p]| == 256)
    && (forall p :: p in h.inner ==> h.inner[p].bits == 8 && !h.inner[p].IsTerminal())
    && (forall p :: p in h.inner && p != [] ==> Extended(t, m, p) && Parent(p) in h.inner)
  }

  /** The symbols below k are inserted, and nodes exist only for codes of symbols below m. */
  ghost predicate ShapeOk(t: Table, k: nat, m: nat, h: Shape)
    requires WellFormed(t) && k <= m <= SYMBOLS
  {
    && KeysOk(t, m, h)
    && (forall p, i :: p in h.kids && 0 <= i < 256 ==> SlotOk(t, k, h, p, i))
    && (forall p :: |p| % 8 == 0 && Extended(t, k, p) ==> p in h.inner)
  }

  // ---- bit string facts

  lemma ChildInjective(p: Bits, i: nat, p': Bits, i': nat)
    requires i < 256 && i' < 256 && Child(p, i) == Child(p', i')
    ensures p == p' && i == i'
  {
    assert p == Child(p, i)[..|p|] && p' == Child(p, i)[..|p'|];
    assert BitsOf(i, 8) == Child(p, i)[|p|..] && BitsOf(i', 8) == Child(p, i)[|p'|..];
    Pow2Values();
    ValBitsOf(i, 8);
    ValBitsOf(i', 8);
  }

  /** A hit and an extension of the same bits would make one code a prefix of another. */
  lemma HitNotExtended(t: Table, q: Bits, s: Symbol, m: nat)
    requires WellFormed(t) && PrefixFree(t) && IsHit(t, q, s) && m <= SYMBOLS
    ensures !Extended(t, m, q)
  {
    forall s': Symbol
      ensures !Before(q, Code(t, s'))
    {
      PrefixTransitive(Code(t, s), q, Code(t, s'));
      assert s != s' ==> !(Code(t, s) <= Code(t, s'));
    }
  }

  lemma OneHit(t: Table, q: Bits, s: Symbol, s': Symbol)
    requires WellFormed(t) && PrefixFree(t) && IsHit(t, q, s)
    ensures IsHit(t, q, s') ==> s' == s
  {
    if IsHit(t, q, s') { PrefixesCompare(Code(t, s), Code(t, s'), q); }
  }

  // ---- insertion, on shapes

  ghost function WithNode(h: Shape, p: Bits, i: nat, n: Node): Shape
    requires p in h.kids && i < |h.kids[p]|
  {
    Shape(h.inner[Child(p, i) := n], h.kids[p := h.kids[p][i := n]][Child(p, i) := NoChildren()])
  }

  /** Descending into an empty slot: it holds no terminal that the new node would displace. */
  lemma AddNode(t: Table, k: nat, h: Shape, p: Bits, i: nat, n: Node)
    requires WellFormed(t) && k < SYMBOLS && ShapeOk(t, k, k + 1, h)
    requires p in h.kids && i < 256 && h.kids[p][i] == null
    requires Before(Child(p, i), Code(t, k)) && n.bits == 8 && !n.IsTerminal()
    ensures ShapeOk(t, k, k + 1, WithNode(h, p, i, n))
  {
    var q := Child(p, i);
    var h' := WithNode(h, p, i, n);
    assert SlotOk(t, k, h, p, i);
    AddNodeKeys(t, k, h, p, i, n);
    forall p', i' | p' in h'.kids && 0 <= i' < 256
      ensures SlotOk(t, k, h', p', i')
    {
      AddNodeSlot(t, k, h, p, i, n, p', i');
    }
  }

  lemma ChildLengths(p: Bits, i: nat)
    ensures |Child(p, i)| == |p| + 8 && Parent(Child(p, i)) == p
  {
    assert Child(p, i)[..|p|] == p;
  }

  lemma ExtendedByCode(t: Table, k: nat, q: Bits)
    requires WellFormed(t) && k < SYMBOLS && Before(q, Code(t, k))
    ensures Extended(t, k + 1, q)
  {
  }

  lemma AddNodeKeys(t: Table, k: nat, h: Shape, p: Bits, i: nat, n: Node)
    requires WellFormed(t) && k < SYMBOLS && KeysOk(t, k + 1, h)
    requires p in h.kids && i < 256 && Before(Child(p, i), Code(t, k)) && n.bits == 8 && !n.IsTerminal()
    ensures KeysOk(t, k + 1, WithNode(h, p, i, n))
  {
    hide WellFormed, Code, BitsOf, Child, Parent, Extended, Before;
    var q, h' := Child(p, i), WithNode(h, p, i, n);
    ChildLengths(p, i);
    ExtendedByCode(t, k, q);
    assert h'.kids.Keys == h'.inner.Keys;
    forall r | r in h'.kids
      ensures |r| % 8 == 0 && |h'.kids[r]| == 256
    {
      assert r == q || r in h.kids;
    }
  }

  lemma AddNodeSlot(t: Table, k: nat, h: Shape, p: Bits, i: nat, n: Node, p': Bits, i': nat)
    requires WellFormed(t) && k < SYMBOLS && ShapeOk(t, k, k + 1, h)
    requires p in h.kids && i < 256 && Child(p, i) !in h.inner
    requires KeysOk(t, k + 1, WithNode(h, p, i, n))
    requires p' in WithNode(h, p, i, n).kids && i' < 256
    ensures SlotOk(t, k, WithNode(h, p, i, n), p', i')
  {
    var q := Child(p, i);
    if Child(p', i') == q {
      ChildInjective(p', i', p, i);
    } else if p' == q {
      NewSlotEmpty(t, k, h, q, i');
    } else {
      assert SlotOk(t, k, h, p', i');
    }
  }

  lemma NewSlotEmpty(t: Table, k: nat, h: Shape, q: Bits, i: nat)
    requires WellFormed(t) && k < SYMBOLS && ShapeOk(t, k, k + 1, h)
    requires |q| % 8 == 0 && q !in h.inner && i < 256
    ensures Child(q, i) !in h.inner
    ensures forall s: Symbol :: s < k && IsHit(t, Child(q, i), s) ==> |Code(t, s)| <= |q|
  {
    assert Parent(Child(q, i)) == q;
    assert !Extended(t, k, q);
    forall s: Symbol | s < k && IsHit(t, Child(q, i), s)
      ensures |Code(t, s)| <= |q|
    {
      PrefixesCompare(q, Code(t, s), Child(q, i));
      assert !Before(q, Code(t, s));
    }
  }

  /** The node n in every slot below p that the code of k reaches. */
  ghost function WithTerminal(t: Table, k: Symbol, h: Shape, p: Bits, n: Node): Shape
    requires WellFormed(t) && p in h.kids
  {
    h.(kids := h.kids[p := Fill(t, k, h.kids[p], p, n)])
  }

  ghost function Fill(t: Table, k: Symbol, slots: seq<Node?>, p: Bits, n: Node): (r: seq<Node?>)
    requires WellFormed(t)
    ensures |r| == |slots|
  {
    seq(|slots|, i requires 0 <= i < |slots| => if IsHit(t, Child(p, i), k) then n else slots[i])
  }

  lemma AddTerminal(t: Table, k: Symbol, h: Shape, p: Bits, n: Node)
    requires WellFormed(t) && PrefixFree(t) && ShapeOk(t, k, k + 1, h)
    requires p in h.kids && Before(p, Code(t, k)) && |Code(t, k)| - |p| <= 8
    requires IsLeafFor(t, n, k)
    ensures ShapeOk(t, k + 1, k + 1, WithTerminal(t, k, h, p, n))
  {
    hide WellFormed, Code, BitsOf, SlotOk, IsLeafFor, PrefixFree, IsHit, Fill;
    var m := k + 1;
    var h' := WithTerminal(t, k, h, p, n);
    forall p', i' | p' in h'.kids && 0 <= i' < 256
      ensures SlotOk(t, m, h', p', i')
    {
      AddTerminalSlot(t, k, h, p, n, p', i');
    }
    forall p' | |p'| % 8 == 0 && Extended(t, m, p')
      ensures p' in h'.inner
    {
      AddTerminalPath(t, k, h, p, p');
    }
  }

  lemma AddTerminalPath(t: Table, k: Symbol, h: Shape, p: Bits, p': Bits)
    requires WellFormed(t) && ShapeOk(t, k, k + 1, h)
    requires p in h.kids && Before(p, Code(t, k)) && |Code(t, k)| - |p| <= 8
    requires |p'| % 8 == 0 && Extended(t, k + 1, p')
    ensures p' in h.inner
  {
    if !Extended(t, k, p') {
      var s: Symbol :| s < k + 1 && Before(p', Code(t, s));
      assert s == k;
      AncestorOfCode(t, k, h, p, p');
    }
  }

  lemma AncestorOfCode(t: Table, k: Symbol, h: Shape, p: Bits, p': Bits)
    requires WellFormed(t) && KeysOk(t, k + 1, h)
    requires p in h.kids && Before(p, Code(t, k)) && |Code(t, k)| - |p| <= 8
    requires |p'| % 8 == 0 && Before(p', Code(t, k))
    ensures p' in h.inner
  {
    NotBeyond(|p'|, |p|);
    PrefixOfShorter(p', Code(t, k), p);
    AncestorInside(t, k + 1, h, p, p');
  }

  lemma NotBeyond(a: nat, b: nat)
    requires a % 8 == 0 && b % 8 == 0
    ensures a < b + 8 ==> a <= b
  {
  }

  lemma {:induction false} AncestorInside(t: Table, m: nat, h: Shape, p: Bits, a: Bits)
    requires WellFormed(t) && m <= SYMBOLS && KeysOk(t, m, h)
    requires p in h.inner && a <= p && |a| % 8 == 0
    ensures a in h.inner
    decreases |p|
  {
    hide WellFormed, Extended, Code, BitsOf;
    if a != p {
      NotBeyond(|a| + 8, |p|);
      PrefixOfShorter(a, p, Parent(p));
      AncestorInside(t, m, h, Parent(p), a);
    }
  }

  /** A slot the code of k reaches was empty, whatever was inserted before. */
  lemma ReachedSlotEmpty(t: Table, k: Symbol, h: Shape, p: Bits, i: nat)
    requires WellFormed(t) && PrefixFree(t) && ShapeOk(t, k, k + 1, h)
    requires p in h.kids && i < 256 && IsHit(t, Child(p, i), k)
    ensures h.kids[p][i] == null && Child(p, i) !in h.inner
  {
    var q := Child(p, i);
    HitNotExtended(t, q, k, k + 1);
    assert SlotOk(t, k, h, p, i);
    if h.kids[p][i] != null {
      OneHit(t, q, k, h.kids[p][i].symbol);
    }
  }

  lemma AddTerminalSlot(t: Table, k: Symbol, h: Shape, p: Bits, n: Node, p': Bits, i': nat)
    requires WellFormed(t) && PrefixFree(t) && ShapeOk(t, k, k + 1, h)
    requires p in h.kids && Before(p, Code(t, k)) && |Code(t, k)| - |p| <= 8
    requires IsLeafFor(t, n, k)
    requires p' in h.kids && i' < 256
    ensures SlotOk(t, k + 1, WithTerminal(t, k, h, p, n), p', i')
  {
    var q := Child(p', i');
    assert SlotOk(t, k, h, p', i');
    if IsHit(t, q, k) {
      ReachedSlotEmpty(t, k, h, p', i');
      forall s: Symbol ensures IsHit(t, q, s) ==> s == k { OneHit(t, q, k, s); }
      if p' != p {
        FarSlot(t, k, p, p', i');
      }
    }
  }

  /** Only the node one level above its end has slots that a code newly reaches. */
  lemma FarSlot(t: Table, k: Symbol, p: Bits, p': Bits, i': nat)
    requires WellFormed(t) && |p| % 8 == 0 && |p'| % 8 == 0 && p != p' && i' < 256
    requires Before(p, Code(t, k)) && |Code(t, k)| - |p| <= 8
    requires IsHit(t, Child(p', i'), k)
    ensures |Code(t, k)| <= |p'|
  {
    var q := Child(p', i');
    PrefixTransitive(p, Code(t, k), q);
    SameLengthPrefixes(p, p', q);
  }

  lemma SameLengthPrefixes(a: Bits, b: Bits, q: Bits)
    requires a <= q && b <= q
    ensures |a| == |b| ==> a == b
  {
    assert a == q[..|a|] && b == q[..|b|];
  }

  // ---- insertion, on the heap

  function Arrays(inner: map<Bits, Node>): set<array?<Node?>> {
    set p | p in inner :: inner[p].children
  }

  /** The heap nodes are as the shape says, and no two share a child array. */
  ghost predicate Mirrors(h: Shape)
    reads Arrays(h.inner)
  {
    && h.kids.Keys == h.inner.Keys
    && (forall p :: p in h.inner ==> h.inner[p].children != null && h.inner[p].children[..] == h.kids[p])
    && (forall p, p' :: p in h.inner && p' in h.inner && p != p' ==> h.inner[p].children != h.inner[p'].children)
  }

  ghost predicate Built(t: Table, k: nat, root: Node, h: Shape)
    requires WellFormed(t) && k <= SYMBOLS
    reads Arrays(h.inner)
  {
    ShapeOk(t, k, k, h) && Mirrors(h) && h.inner[[]] == root
  }

  /** The numbers whose w bits begin with r form an interval. */
  lemma StartsWith(r: Bits, x: nat, w: nat)
    requires |r| <= w && x < Pow2(w)
    ensures r <= BitsOf(x, w) <==> Val(r) * Pow2(w - |r|) <= x < Val(r) * Pow2(w - |r|) + Pow2(w - |r|)
  {
    hide BitsOf, Pow2;
    var bi := BitsOf(x, w);
    var hi, lo := bi[..|r|], bi[|r|..];
    ValBitsOf(x, w);
    assert bi == hi + lo;
    ValAppend(hi, lo);
    ValBound(lo);
    if Val(hi) == Val(r) {
      SameVal(hi, r);
    } else {
      assert hi != r;
      Apart(Val(hi), Val(r), Pow2(|lo|), Val(lo));
    }
  }

  lemma Apart(a: nat, b: nat, p: nat, lo: nat)
    requires a != b && lo < p
    ensures !(b * p <= a * p + lo < b * p + p)
  {
    if a < b {
      MulUpTo(a + 1, b, p);
    } else {
      MulUpTo(b + 1, a, p);
    }
  }

  lemma MulUpTo(a: nat, b: nat, p: nat)
    requires a <= b
    ensures a * p <= b * p
  {
    MulDistributes(a, b - a, p);
    MulNonnegative(b - a, p);
  }

  lemma CodeTail(t: Table, k: Symbol, p: Bits)
    requires WellFormed(t) && p <= Code(t, k)
    ensures Holds(t.codes[k], Code(t, k)[|p|..])
  {
    var c := Code(t, k);
    assert c == c[..|p|] + c[|p|..];
    HoldsCode(t, k);
    SplitWord(t.codes[k], c[..|p|], c[|p|..]);
  }

  lemma HoldsCode(t: Table, k: Symbol)
    requires WellFormed(t)
    ensures Holds(t.codes[k], Code(t, k))
  {
    ValBitsOf(t.codes[k], t.lengths[k]);
    DivModUnique(t.codes[k], Pow2(t.lengths[k]), 0, t.codes[k]);
  }

  /** insert's start index. */
  lemma StartOf(x: nat, r: Bits)
    requires Holds(x, r) && |r| <= 8
    ensures x * Pow2(8 - |r|) % 256 == Val(r) * Pow2(8 - |r|)
    ensures Val(r) * Pow2(8 - |r|) + Pow2(8 - |r|) <= 256
  {
    var p, q := Pow2(|r|), Pow2(8 - |r|);
    Pow2Values();
    Pow2Add(|r|, 8 - |r|);
    ValBound(r);
    MulUpTo(Val(r) + 1, p, q);
    MulDistributes(Val(r), 1, q);
    MulNonnegative(Val(r), q);
    ShiftNumber(x, p, q, 256, Val(r), 0, Val(r) * q);
  }

  /** The slots start .. start + end of insert are those the code reaches. */
  lemma SlotRange(t: Table, k: Symbol, p: Bits, i: nat)
    requires WellFormed(t) && Before(p, Code(t, k)) && |Code(t, k)| - |p| <= 8 && i < 256
    ensures var shift := 8 - (|Code(t, k)| - |p|);
            var start := t.codes[k] * Pow2(shift) % 256;
            && start + Pow2(shift) <= 256
            && (IsHit(t, Child(p, i), k) <==> start <= i < start + Pow2(shift))
  {
    var r := Code(t, k)[|p|..];
    CodeTail(t, k, p);
    StartOf(t.codes[k], r);
    Pow2Values();
    StartsWith(r, i, 8);
    HitOfByte(t, k, p, i);
  }

  lemma HitOfByte(t: Table, k: Symbol, p: Bits, i: nat)
    requires WellFormed(t) && Before(p, Code(t, k)) && |Code(t, k)| - |p| <= 8 && i < 256
    ensures IsHit(t, Child(p, i), k) <==> Code(t, k)[|p|..] <= BitsOf(i, 8)
  {
    var c, b := Code(t, k), BitsOf(i, 8);
    assert c == p + c[|p|..];
    assert Child(p, i)[..|c|] == p + b[..|c| - |p|];
    if c == Child(p, i)[..|c|] {
      assert c[|p|..] == (p + b[..|c| - |p|])[|p|..];
    }
  }

  lemma RoomForOneMore(t: Table, k: Symbol, h: Shape)
    requires WellFormed(t) && ShapeOk(t, k, k, h)
    ensures ShapeOk(t, k, k + 1, h) && [] in h.inner
  {
    forall p | p in h.inner && p != [] ensures Extended(t, k + 1, p) {
      assert Extended(t, k, p);
    }
  }

  /** The byte insert reads at its current level leads towards the code's end. */
  lemma NextLevel(t: Table, k: Symbol, p: Bits, len: nat)
    requires WellFormed(t) && Before(p, Code(t, k)) && 0 < len && |p| + 8 + len == t.lengths[k]
    ensures var i := t.codes[k] / Pow2(len) % 256; Before(Child(p, i), Code(t, k))
  {
    var c := Code(t, k);
    var hi, lo := c[|p|..|p| + 8], c[|p| + 8..];
    assert c[|p|..] == hi + lo;
    CodeTail(t, k, p);
    SplitWord(t.codes[k], hi, lo);
    BitsOfVal(hi);
    Pow2Values();
    assert c == p + hi + lo;
  }

  /** An occupied slot on the way to a code is an internal node, never a terminal. */
  lemma OccupiedIsInner(t: Table, k: Symbol, h: Shape, p: Bits, i: nat)
    requires WellFormed(t) && PrefixFree(t) && ShapeOk(t, k, k + 1, h)
    requires p in h.kids && i < 256 && Before(Child(p, i), Code(t, k)) && h.kids[p][i] != null
    ensures Child(p, i) in h.inner && h.kids[p][i] == h.inner[Child(p, i)]
  {
    assert SlotOk(t, k, h, p, i);
    var s: nat := h.kids[p][i].symbol;
    if Child(p, i) !in h.inner {
      PrefixTransitive(Code(t, s), Child(p, i), Code(t, k));
    }
  }

  /** Everything below p's slots that the code of k reaches is free. */
  lemma RangeFree(t: Table, k: Symbol, h: Shape, p: Bits)
    requires WellFormed(t) && PrefixFree(t) && ShapeOk(t, k, k + 1, h)
    requires p in h.kids && Before(p, Code(t, k)) && |Code(t, k)| - |p| <= 8
    ensures var shift := 8 - (|Code(t, k)| - |p|); var start := t.codes[k] * Pow2(shift) % 256;
            && start + Pow2(shift) <= 256
            && forall i :: start <= i < start + Pow2(shift) ==> h.kids[p][i] == null
  {
    var shift := 8 - (|Code(t, k)| - |p|);
    var start := t.codes[k] * Pow2(shift) % 256;
    SlotRange(t, k, p, 0);
    forall i | start <= i < start + Pow2(shift)
      ensures h.kids[p][i] == null
    {
      SlotRange(t, k, p, i);
      ReachedSlotEmpty(t, k, h, p, i);
    }
  }

  lemma FillIsRange(t: Table, k: Symbol, slots: seq<Node?>, p: Bits, n: Node, filled: seq<Node?>)
    requires WellFormed(t) && Before(p, Code(t, k)) && |Code(t, k)| - |p| <= 8
    requires |slots| == |filled| == 256
    requires var shift := 8 - (|Code(t, k)| - |p|); var start := t.codes[k] * Pow2(shift) % 256;
             forall i :: 0 <= i < 256 ==> filled[i] == if start <= i < start + Pow2(shift) then n else slots[i]
    ensures filled == Fill(t, k, slots, p, n)
  {
    forall i | 0 <= i < 256
      ensures filled[i] == Fill(t, k, slots, p, n)[i]
    {
      SlotRange(t, k, p, i);
    }
  }

  /** The heap mirrors h, but for the node at p. */
  ghost predicate MirrorsBut(h: Shape, p: Bits)
    reads Arrays(h.inner)
  {
    && h.kids.Keys == h.inner.Keys
    && (forall q :: q in h.inner ==> h.inner[q].children != null)
    && (forall q :: q in h.inner && q != p ==> h.inner[q].children[..] == h.kids[q])
    && (forall q, q' :: q in h.inner && q' in h.inner && q != q' ==> h.inner[q].children != h.inner[q'].children)
  }

  lemma MirrorsWithNode(h: Shape, p: Bits, i: nat, n: Node)
    requires MirrorsBut(h, p) && p in h.inner && i < |h.kids[p]|
    requires Child(p, i) !in h.inner && n.children != null && n.children !in Arrays(h.inner)
    requires h.inner[p].children[..] == h.kids[p][i := n] && n.children[..] == NoChildren()
    ensures Mirrors(WithNode(h, p, i, n))
  {
  }

  lemma MirrorsWithTerminal(t: Table, k: Symbol, h: Shape, p: Bits, n: Node)
    requires WellFormed(t) && MirrorsBut(h, p) && p in h.inner
    requires h.inner[p].children[..] == Fill(t, k, h.kids[p], p, n)
    ensures Mirrors(WithTerminal(t, k, h, p, n))
  {
  }

  /** insert's last loop. The slots were free: no other symbol is overwritten. */
  method FillSlots(children: array<Node?>, start: nat, end: nat, terminal: Node)
    requires start + end <= children.Length
    requires forall i :: start <= i < start + end ==> children[i] == null
    modifies children
    ensures forall i :: 0 <= i < children.Length ==>
              children[i] == if start <= i < start + end then terminal else old(children[i])
  {
    for i := start to start + end
      invariant forall j :: 0 <= j < children.Length ==>
                  children[j] == if start <= j < i then terminal else old(children[j])
    {
      children[i] := terminal;
    }
  }

  /** One level of insert's descent. */
  method Descend(current: Node, i: nat, ghost t: Table, ghost k: Symbol, ghost h: Shape, ghost p: Bits)
    returns (next: Node, ghost h': Shape)
    requires WellFormed(t) && PrefixFree(t) && ShapeOk(t, k, k + 1, h) && Mirrors(h)
    requires p in h.inner && current == h.inner[p] && i < 256 && Before(Child(p, i), Code(t, k))
    modifies current.children
    ensures ShapeOk(t, k, k + 1, h') && Mirrors(h')
    ensures [] in h.inner && [] in h'.inner && h'.inner[[]] == h.inner[[]]
    ensures Child(p, i) in h'.inner && next == h'.inner[Child(p, i)]
    ensures fresh(Arrays(h'.inner) - Arrays(h.inner))
  {
    hide ShapeOk, SlotOk, KeysOk, Extended;
    h' := h;
    InsideFacts(t, k, h, p, i);
    assert current.children[..] == h.kids[p];
    if current.children[i] == null {
      var n := new Node.Internal();
      current.children[i] := n;
      MirrorsWithNode(h, p, i, n);
      AddNode(t, k, h, p, i, n);
      h' := WithNode(h, p, i, n);
    } else {
      OccupiedIsInner(t, k, h, p, i);
    }
    next := current.children[i];
  }

  lemma InsideFacts(t: Table, k: Symbol, h: Shape, p: Bits, i: nat)
    requires WellFormed(t) && ShapeOk(t, k, k + 1, h) && p in h.kids && i < 256
    ensures [] in h.inner && |h.kids[p]| == 256
    ensures h.kids[p][i] == null ==> Child(p, i) !in h.inner
  {
    assert SlotOk(t, k, h, p, i);
  }

  /** insert, once it stands one level above the end of the code. */
  method PlaceTerminal(current: Node, len: nat, symbol: Symbol, code: nat, length: nat,
                       ghost t: Table, ghost h: Shape, ghost p: Bits)
    returns (ghost h': Shape)
    requires WellFormed(t) && PrefixFree(t) && code == t.codes[symbol] && length == t.lengths[symbol]
    requires ShapeOk(t, symbol, symbol + 1, h) && Mirrors(h)
    requires p in h.inner && current == h.inner[p]
    requires 0 < len <= 8 && |p| + len == length && Before(p, Code(t, symbol))
    modifies current.children
    ensures ShapeOk(t, symbol + 1, symbol + 1, h') && Mirrors(h') && h'.inner == h.inner
  {
    hide ShapeOk, SlotOk, KeysOk, Extended, Fill, Pow2, BitsOf, Code, PrefixFree, IsHit;
    var terminal := new Node.Terminal(symbol, length);
    var shift := 8 - len;
    var start := code * Pow2(shift) % 256;
    var end := Pow2(shift);
    RangeFree(t, symbol, h, p);
    InsideFacts(t, symbol, h, p, 0);
    assert current.children[..] == h.kids[p];
    assert forall i :: 0 <= i < 256 ==> current.children[i] == h.kids[p][i];
    FillSlots(current.children, start, end, terminal);
    FillIsRange(t, symbol, h.kids[p], p, terminal, current.children[..]);
    AddTerminal(t, symbol, h, p, terminal);
    MirrorsWithTerminal(t, symbol, h, p, terminal);
    h' := WithTerminal(t, symbol, h, p, terminal);
  }

  method Insert(root: Node, symbol: Symbol, code: nat, length: nat, ghost t: Table, ghost h: Shape)
    returns (ghost h': Shape)
    requires WellFormed(t) && PrefixFree(t) && code == t.codes[symbol] && length == t.lengths[symbol]
    requires Built(t, symbol, root, h)
    modifies Arrays(h.inner)
    ensures Built(t, symbol + 1, root, h')
    ensures fresh(Arrays(h'.inner) - Arrays(h.inner))
  {
    hide ShapeOk, SlotOk, KeysOk, Extended, Fill, Pow2, BitsOf, Code, PrefixFree, IsHit;
    var current := root;
    var len := length;
    h' := h;
    ghost var p: Bits := [];
    RoomForOneMore(t, symbol, h);
    while len > 8
      invariant ShapeOk(t, symbol, symbol + 1, h') && Mirrors(h') && [] in h'.inner && h'.inner[[]] == root
      invariant p in h'.inner && current == h'.inner[p]
      invariant 0 < len && |p| + len == length && Before(p, Code(t, symbol))
      invariant fresh(Arrays(h'.inner) - Arrays(h.inner))
    {
      len := len - 8;
      var i := code / Pow2(len) % 256;
      NextLevel(t, symbol, p, len);
      current, h' := Descend(current, i, t, symbol, h', p);
      p := Child(p, i);
    }
    h' := PlaceTerminal(current, len, symbol, code, length, t, h', p);
  }

  lemma EmptyShape(t: Table, root: Node)
    requires WellFormed(t) && root.bits == 8 && !root.IsTerminal()
    ensures ShapeOk(t, 0, 0, Shape(map[[] := root], map[[] := NoChildren()]))
  {
    var h := Shape(map[[] := root], map[[] := NoChildren()]);
    forall p, i | p in h.kids && 0 <= i < 256
      ensures SlotOk(t, 0, h, p, i)
    {
      assert |Child(p, i)| == 8;
    }
  }

  /** A root with nothing below it. */
  method EmptyTree(ghost t: Table) returns (root: Node, ghost h: Shape)
    requires WellFormed(t)
    ensures Built(t, 0, root, h) && fresh(Arrays(h.inner))
  {
    hide ShapeOk, Pow2, WellFormed;
    root := new Node.Internal();
    h := Shape(map[[] := root], map[[] := NoChildren()]);
    EmptyShape(t, root);
  }

  method BuildTree(codes: seq<nat>, lengths: seq<nat>, ghost t: Table) returns (root: Node, ghost h: Shape)
    requires t == Table(codes, lengths) && WellFormed(t) && PrefixFree(t)
    ensures Built(t, SYMBOLS, root, h) && fresh(Arrays(h.inner))
    ensures Complete(t) && EosIsOnes(t) ==> NoEmptySlot(h)
  {
    hide ShapeOk, PrefixFree, Pow2, Complete, EosIsOnes, NoEmptySlot, Built;
    root, h := EmptyTree(t);
    for i := 0 to |codes|
      invariant Built(t, i, root, h) && fresh(Arrays(h.inner))
    {
      h := Insert(root, i, codes[i], lengths[i], t, h);
    }
    if Complete(t) && EosIsOnes(t) {
      BuiltShape(t, root, h);
      EverySlotFilled(t, h);
    }
  }

  lemma BuiltShape(t: Table, root: Node, h: Shape)
    requires WellFormed(t) && Built(t, SYMBOLS, root, h)
    ensures ShapeOk(t, SYMBOLS, SYMBOLS, h)
  {
  }

  /** Every internal node has 256 slots and a node in each. */
  ghost predicate NoEmptySlot(h: Shape) {
    && (forall p :: p in h.kids ==> |h.kids[p]| == 256)
    && (forall p, i :: p in h.kids && 0 <= i < 256 ==> h.kids[p][i] != null)
  }

  lemma EverySlotFilled(t: Table, h: Shape)
    requires Good(t) && ShapeOk(t, SYMBOLS, SYMBOLS, h)
    ensures NoEmptySlot(h)
  {
    hide SlotOk;
    forall p, i | p in h.kids && 0 <= i < 256
      ensures h.kids[p][i] != null
    {
      Lookup(t, h, p, i);
    }
  }

  // ---- the finished tree answers every lookup

  /** For a complete code no slot is empty, and a slot holds what prefix search finds. */
  lemma Lookup(t: Table, h: Shape, p: Bits, i: nat)
    requires Good(t) && ShapeOk(t, SYMBOLS, SYMBOLS, h) && p in h.kids && i < 256
    ensures |h.kids[p]| == 256 && h.kids[p][i] != null
    ensures var s := Find(t, Child(p, i)); var n := h.kids[p][i];
            if s == SYMBOLS then Child(p, i) in h.inner && n == h.inner[Child(p, i)] && n.bits == 8 && !n.IsTerminal()
            else IsLeafFor(t, n, s)
  {
    hide WellFormed, PrefixFree, Complete, EosIsOnes, Extended, Code, BitsOf, Find;
    var q := Child(p, i);
    assert SlotOk(t, SYMBOLS, h, p, i);
    var s := Find(t, q);
    if s < SYMBOLS {
      HitIsLeaf(t, h, p, q, s);
    } else {
      MissIsExtended(t, q);
      assert |q| % 8 == 0;
    }
  }

  lemma HitIsLeaf(t: Table, h: Shape, p: Bits, q: Bits, s: Symbol)
    requires Good(t) && KeysOk(t, SYMBOLS, h) && p in h.kids && p <= q && IsHit(t, q, s)
    ensures |p| < |Code(t, s)| && q !in h.inner
  {
    HitNotExtended(t, q, s, SYMBOLS);
    LateHit(t, h, p, q, s);
  }

  lemma MissIsExtended(t: Table, q: Bits)
    requires Good(t) && Find(t, q) == SYMBOLS
    ensures Extended(t, SYMBOLS, q)
  {
    assert HasComparable(t, q);
    var c: Symbol :| Comparable(Code(t, c), q);
    assert !IsHit(t, q, c);
    assert Before(q, Code(t, c));
  }

  lemma LateHit(t: Table, h: Shape, p: Bits, q: Bits, s: Symbol)
    requires Good(t) && KeysOk(t, SYMBOLS, h) && p in h.kids && p <= q && IsHit(t, q, s)
    ensures |p| < |Code(t, s)|
  {
    PrefixOfShorter(Code(t, s), q, p);
    if p != [] && IsHit(t, p, s) { HitNotExtended(t, p, s, SYMBOLS); }
  }

  // ---- the walk over the tree

  /** The accumulator holds the last bits read, up to a word. */
  ghost predicate Tail(current: nat, bits: Bits) {
    current == Wrap(Val(bits))
  }

  lemma TailByte(current: nat, bits: Bits, b: Byte)
    requires Tail(current, bits)
    ensures Tail(Wrap(current * 256 + b), bits + BitsOf(b, 8))
  {
    Pow2Values();
    ValBitsOf(b, 8);
    ValAppend(bits, BitsOf(b, 8));
    WrapShift(Val(bits), b);
  }

  lemma WrapShift(v: nat, b: Byte)
    ensures Wrap(Wrap(v) * 256 + b) == Wrap(v * 256 + b)
  {
    var k, y := v / INT_MODULUS, Wrap(v) * 256 + b;
    DivModUnique(v * 256 + b, INT_MODULUS, 256 * k + y / INT_MODULUS, y % INT_MODULUS);
  }

  /** Reading a window out of the accumulator. */
  lemma WindowOf(current: nat, bits: Bits, all: Bits, left: nat)
    requires Tail(current, bits) && 8 <= left <= |bits| && left <= 64 && bits <= all
    ensures BitsOf(current / Pow2(left - 8) % 256, 8) == Window(all, |bits| - left)
  {
    var p := |bits| - left;
    LowBits(current, bits, left);
    TopBits(current, bits[p..]);
    assert bits[p..][..8] == all[p..p + 8];
  }

  lemma LowBits(current: nat, bits: Bits, left: nat)
    requires Tail(current, bits) && left <= |bits| && left <= 64
    ensures Holds(current, bits[|bits| - left..])
  {
    var hi, lo := bits[..|bits| - left], bits[|bits| - left..];
    assert hi + lo == bits;
    ValAppend(hi, lo);
    ValBound(lo);
    DivModUnique(Val(bits), Pow2(left), Val(hi), Val(lo));
    WrapKeepsLow(Val(bits), left);
  }

  /** The zero-filled window of the bits that remain at the end. */
  lemma LastWindow(current: nat, bits: Bits, left: nat)
    requires Tail(current, bits) && 0 < left <= |bits| && left < 8
    ensures BitsOf(Wrap(current * Pow2(8 - left)) % 256, 8) == Window(bits, |bits| - left)
  {
    var rest, zeros := bits[|bits| - left..], Zeros(8 - left);
    LowBits(current, bits, left);
    ValZeros(8 - left);
    ShiftIn(current, rest, zeros);
    Pow2Values();
    BitsOfVal(rest + zeros);
  }

  lemma {:induction false} ValZeros(n: nat)
    ensures Val(Zeros(n)) == 0
  {
    if n > 0 {
      ValZeros(n - 1);
      assert Zeros(n)[..n - 1] == Zeros(n - 1);
    }
  }

  /** current & mask == mask says the remaining bits are ones. */
  lemma MaskIsOnes(current: nat, bits: Bits, left: nat)
    requires Tail(current, bits) && left <= |bits| && left < 8
    ensures current % Pow2(left) == Pow2(left) - 1 <==> bits[|bits| - left..] == Ones(left)
  {
    var rest := bits[|bits| - left..];
    LowBits(current, bits, left);
    ValOnes(left);
    if Val(rest) == Val(Ones(left)) { SameVal(rest, Ones(left)); }
  }

  class HuffmanDecoder {
    const root: Node
    ghost const table: Table
    ghost const shape: Shape

    ghost predicate Valid()
      reads Arrays(shape.inner)
    {
      Good(table) && Built(table, SYMBOLS, root, shape)
    }

    constructor (codes: seq<nat>, lengths: seq<nat>, ghost t: Table)
      requires t == Table(codes, lengths) && Good(t)
      ensures Valid() && table == t && fresh(Arrays(shape.inner))
    {
      var r, h := BuildTree(codes, lengths, t);
      root, table, shape := r, t, h;
    }

    /** The node is the one the path leads to. */
    ghost predicate At(node: Node, path: Bits) {
      path in shape.inner && node == shape.inner[path]
    }

    lemma AtRoot()
      requires Valid()
      ensures At(root, [])
    {
    }

    /** node.children![c]!: neither unwrapping fails, whatever the byte c. */
    method Step(node: Node, c: nat, ghost path: Bits) returns (next: Node)
      requires Valid() && At(node, path) && c < 256
      ensures Valid()
      ensures var q := Child(path, c); var s := Find(table, q);
              if s == SYMBOLS then At(next, q) && next.bits == 8 && !next.IsTerminal()
              else IsLeafFor(table, next, s)
    {
      hide ShapeOk, PrefixFree, Complete, EosIsOnes;
      Lookup(table, shape, path, c);
      assert node.children[..] == shape.kids[path];
      next := node.children[c];
    }

    /** decode's inner loop: look nodes up while a whole byte of bits is left. */
    method WalkBytes(current: nat, bits: int, node: Node, out: seq<Byte>, ghost all: Bits, ghost read: Bits, ghost path: Bits)
      returns (bits': int, node': Node, out': seq<Byte>, eos: bool, ghost path': Bits)
      requires Valid() && Tail(current, read) && read <= all && bits <= |read| && bits < 16 && At(node, path)
      ensures Valid()
      ensures eos ==> Walk(table, all, |read| - bits, path, out) == EosDecoded
      ensures !eos ==> bits' < 8 && bits' <= |read| && At(node', path')
      ensures !eos ==> Walk(table, all, |read| - bits, path, out) == Walk(table, all, |read| - bits', path', out')
    {
      hide Walk, ShapeOk, Find, Mirrors, IsHit, PrefixFree, Complete, EosIsOnes, WellFormed, Code, Built, Tail, Wrap, Pow2;
      hide At, BitsOf, Window;
      bits', node', out', eos, path' := bits, node, out, false, path;
      AtRoot();
      while bits' >= 8
        invariant Valid() && bits' < 16 && bits' <= |read| && At(node', path')
        invariant Walk(table, all, |read| - bits, path, out) == Walk(table, all, |read| - bits', path', out')
        decreases bits'
      {
        var c := current / Pow2(bits' - 8) % 256;
        WindowOf(current, read, all, bits');
        WalkByte(table, all, |read| - bits', path', out');
        node' := Step(node', c, path');
        path' := Child(path', c);
        bits' := bits' - node'.bits;
        if node'.IsTerminal() {
          if node'.symbol == EOS {
            eos := true;
            return;
          }
          out' := out' + [node'.symbol];
          node', path' := root, [];
        }
      }
    }

    /** The trailing loop and the padding check. */
    method WalkRest(current: nat, bits: int, node: Node, out: seq<Byte>, ghost all: Bits, ghost path: Bits)
      returns (r: Decoded)
      requires Valid() && Tail(current, all) && bits < 8 && bits <= |all| && At(node, path)
      ensures Valid() && r == Walk(table, all, |all| - bits, path, out)
    {
      hide Walk, ShapeOk, Find, Mirrors, IsHit, PrefixFree, Complete, EosIsOnes, WellFormed, Code, Built, Tail, Wrap, Pow2, Finish;
      var bits', node', out': seq<Byte> := bits, node, out;
      ghost var path' := path;
      AtRoot();
      while bits' > 0
        invariant Valid() && bits' < 8 && bits' <= |all| && At(node', path')
        invariant Walk(table, all, |all| - bits, path, out) == Walk(table, all, |all| - bits', path', out')
        decreases bits'
      {
        var c := Wrap(current * Pow2(8 - bits')) % 256;
        LastWindow(current, all, bits');
        WalkByte(table, all, |all| - bits', path', out');
        node' := Step(node', c, path');
        if node'.IsTerminal() && node'.bits <= bits' {
          bits' := bits' - node'.bits;
          out' := out' + [node'.symbol];
          node', path' := root, [];
        } else {
          assert Walk(table, all, |all| - bits, path, out) == Finish(all, |all| - bits', out');
          break;
        }
      }
      if bits' <= 0 { WalkEnd(table, all, |all| - bits', path', out'); }
      PaddingCheck(current, all, bits', out');
      if bits' < 0 {
        return Trap;
      }
      var mask := Pow2(bits') - 1;
      r := if current % Pow2(bits') != mask then InvalidPadding else Text(out');
    }

    /** Decodes a Huffman-coded string: exactly the walk over its bits. */
    method Decode(buf: seq<Byte>) returns (r: Decoded)
      requires Valid()
      ensures Valid() && r == HuffmanDecode.Decode(table, buf)
    {
      hide Walk, ShapeOk, PrefixFree, Complete, EosIsOnes, WellFormed, Built, Tail, Wrap, At, BitsOf;
      var out: seq<Byte>, node, current: nat, bits := [], root, 0, 0;
      ghost var all, path: Bits := ByteBits(buf), [];
      AtRoot();
      TailNothing();
      for k := 0 to |buf|
        invariant Valid() && At(node, path) && bits < 8 && bits <= 8 * k
        invariant Tail(current, ByteBits(buf[..k]))
        invariant Walk(table, all, 8 * k - bits, path, out) == HuffmanDecode.Decode(table, buf)
      {
        assert buf[..k] + [buf[k]] == buf[..k + 1] && buf[..k + 1] + buf[k + 1..] == buf;
        ReadByte(buf[..k], buf[k], buf[k + 1..]);
        TailByte(current, ByteBits(buf[..k]), buf[k]);
        current := Wrap(current * 256 + buf[k]);
        bits := bits + 8;
        var eos: bool;
        bits, node, out, eos, path := WalkBytes(current, bits, node, out, all, ByteBits(buf[..k + 1]), path);
        if eos {
          return EosDecoded;
        }
      }
      assert buf[..|buf|] == buf;
      r := WalkRest(current, bits, node, out, all, path);
    }
  }

  lemma PaddingCheck(current: nat, all: Bits, bits: int, out: seq<Byte>)
    requires Tail(current, all) && bits < 8 && bits <= |all|
    ensures Finish(all, |all| - bits, out) ==
            if bits < 0 then Trap
            else if current % Pow2(bits) != Pow2(bits) - 1 then InvalidPadding
            else Text(out)
  {
    if bits >= 0 { MaskIsOnes(current, all, bits); }
  }

  lemma TailNothing()
    ensures Tail(0, [])
  {
  }

  lemma ReadByte(read: seq<Byte>, b: Byte, rest: seq<Byte>)
    ensures ByteBits(read + [b]) == ByteBits(read) + BitsOf(b, 8)
    ensures ByteBits(read + [b]) <= ByteBits(read + [b] + rest)
  {
    hide ByteBits, BitsOf;
    ByteBitsAppend(read, [b]);
    ByteBitsSingle(b);
    ByteBitsAppend(read + [b], rest);
  }

  lemma WalkEnd(t: Table, all: Bits, p: nat, path: Bits, out: seq<Byte>)
    requires WellFormed(t) && p >= |all|
    ensures Walk(t, all, p, path, out) == Finish(all, p, out)
  {
  }

  /** One lookup of the walk. */
  lemma WalkByte(t: Table, all: Bits, p: nat, path: Bits, out: seq<Byte>)
    requires Good(t) && p < |all|
    ensures WellFormed(t) && Len(t, EOS) >= 8
    ensures var q := path + Window(all, p); var s := Find(t, q); var r := Walk(t, all, p, path, out);
            if p + 8 <= |all| then
              if s == SYMBOLS then r == Walk(t, all, p + 8, q, out)
              else if s == EOS then r == EosDecoded
              else r == Walk(t, all, p + Len(t, s), [], out + [s])
            else if s < EOS && Len(t, s) <= |all| - p then r == Walk(t, all, p + Len(t, s), [], out + [s])
            else r == Finish(all, p, out)
  {
    hide WellFormed, PrefixFree, Complete, Find, IsHit, Window, Finish, Code;
  }
}
