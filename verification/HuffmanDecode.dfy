// What the Huffman decoder makes of a bit string, as it is written, against the
// plain prefix decoding of section 5.2 of RFC 7541.
module HuffmanDecode {
  import opened Words
  import opened HuffmanCode

  datatype Decoded = Text(bytes: seq<Byte>) | EosDecoded | InvalidPadding | Trap

  ghost predicate IsHit(t: Table, q: Bits, s: Symbol)
    requires WellFormed(t)
  {
    Code(t, s) <= q
  }

  /** The symbol whose code begins q; SYMBOLS when there is none. */
  ghost function Find(t: Table, q: Bits): (r: nat)
    requires WellFormed(t)
    ensures r <= SYMBOLS
    ensures r < SYMBOLS ==> IsHit(t, q, r)
    ensures r == SYMBOLS ==> forall s: Symbol :: !IsHit(t, q, s)
  {
    if exists s: Symbol :: IsHit(t, q, s) then
      var s: Symbol :| IsHit(t, q, s);
      s
    else SYMBOLS
  }

  lemma FindUnique(t: Table, q: Bits, s: Symbol)
    requires WellFormed(t) && PrefixFree(t) && Code(t, s) <= q
    ensures Find(t, q) == s
  {
    assert IsHit(t, q, s);
    var r: Symbol := Find(t, q);
    assert Code(t, r) <= Code(t, s) || Code(t, s) <= Code(t, r) by {
      PrefixesCompare(Code(t, r), Code(t, s), q);
    }
  }

  lemma PrefixesCompare(a: Bits, b: Bits, q: Bits)
    requires a <= q && b <= q
    ensures a <= b || b <= a
  {
    assert a == q[..|a|] && b == q[..|b|];
    if |a| <= |b| { assert a == b[..|a|]; } else { assert b == a[..|b|]; }
  }

  lemma PrefixOfShorter(a: Bits, q: Bits, r: Bits)
    requires a <= q && r <= q
    ensures |a| <= |r| ==> a <= r
  {
    PrefixesCompare(a, r, q);
  }

  lemma PrefixTransitive(a: Bits, b: Bits, c: Bits)
    ensures a <= b && b <= c ==> a <= c
  {
    if b <= c { assert b == c[..|b|]; }
  }

  /** Section 5.2: read codes off the front; fewer than eight ones may remain. */
  ghost function PrefixDecode(t: Table, bits: Bits): Decoded
    requires WellFormed(t)
    decreases |bits|
  {
    var s := Find(t, bits);
    if s == SYMBOLS then
      if |bits| < 8 && bits == Ones(|bits|) then Text([]) else InvalidPadding
    else if s == EOS then EosDecoded
    else
      match PrefixDecode(t, bits[|Code(t, s)|..])
      case Text(rest) => Text([s] + rest)
      case other => other
  }

  /**
   * The decoder's walk over the whole bit string: p bits consumed, standing at the
   * tree node reached by `path`, `out` decoded so far. A node is looked up a byte at
   * a time. A terminal node consumes its whole code length, even when earlier levels
   * have consumed eight bits of that code already.
   */
  ghost function Walk(t: Table, bits: Bits, p: nat, path: Bits, out: seq<Byte>): Decoded
    requires WellFormed(t)
    decreases |bits| - p
  {
    if p >= |bits| then Finish(bits, p, out)
    else
      var q := path + Window(bits, p);
      var s := Find(t, q);
      if p + 8 <= |bits| then
        if s == SYMBOLS then Walk(t, bits, p + 8, q, out)
        else if s == EOS then EosDecoded
        else Walk(t, bits, p + Len(t, s), [], out + [s])
      else if s < EOS && Len(t, s) <= |bits| - p then Walk(t, bits, p + Len(t, s), [], out + [s])
      else Finish(bits, p, out)
  }

  /** The byte the decoder looks up at p: the next eight bits, with zeros past the end. */
  ghost function Window(bits: Bits, p: nat): (w: Bits)
    requires p < |bits|
    ensures |w| == 8
  {
    if p + 8 <= |bits| then bits[p..p + 8] else bits[p..] + Zeros(8 - (|bits| - p))
  }

  /** The padding check. A negative bit count is a shift by a negative amount. */
  ghost function Finish(bits: Bits, p: nat, out: seq<Byte>): Decoded {
    if p > |bits| then Trap
    else if bits[p..] == Ones(|bits| - p) then Text(out)
    else InvalidPadding
  }

  ghost function Decode(t: Table, buf: seq<Byte>): Decoded
    requires WellFormed(t)
  {
    Walk(t, ByteBits(buf), 0, [], [])
  }

  // ---- as written, the decoder is exact for symbols with codes of at most 8 bits

  /** The bits left after the walk has consumed p of them. */
  lemma {:induction false} WalkShort(t: Table, bits: Bits, p: nat, out: seq<Byte>, s: seq<Byte>)
    requires Good(t) && p <= |bits|
    requires PrefixDecode(t, bits[p..]) == Text(s) && AllShort(t, s)
    ensures Walk(t, bits, p, [], out) == Text(out + s)
    decreases |s|
  {
    hide Walk, PrefixDecode, Find, AllShort, WellFormed, PrefixFree, Complete, EosIsOnes;
    var rest := bits[p..];
    var c := Find(t, rest);
    if c == SYMBOLS {
      DecodedEnd(t, rest, s);
      WalkPadding(t, bits, p, out);
    } else {
      var tail := DecodedTail(t, rest, s);
      var len := Len(t, c);
      assert rest[len..] == bits[p + len..];
      assert out + [c] + tail == out + s;
      WalkShort(t, bits, p + len, out + [c], tail);
      WalkSymbol(t, bits, p, out, c);
    }
  }

  lemma DecodedEnd(t: Table, bits: Bits, s: seq<Byte>)
    requires WellFormed(t) && PrefixDecode(t, bits) == Text(s) && Find(t, bits) == SYMBOLS
    ensures |bits| < 8 && bits == Ones(|bits|)
    ensures forall out: seq<Byte> :: out + s == out
  {
  }

  lemma DecodedTail(t: Table, bits: Bits, s: seq<Byte>) returns (tail: seq<Byte>)
    requires WellFormed(t) && PrefixDecode(t, bits) == Text(s) && Find(t, bits) < SYMBOLS
    ensures Find(t, bits) < EOS && s == [Find(t, bits)] + tail
    ensures Len(t, Find(t, bits)) <= |bits| && Code(t, Find(t, bits)) <= bits
    ensures PrefixDecode(t, bits[Len(t, Find(t, bits))..]) == Text(tail)
    ensures AllShort(t, s) ==> Len(t, Find(t, bits)) <= 8 && AllShort(t, tail)
  {
    var c := Find(t, bits);
    tail := PrefixDecode(t, bits[|Code(t, c)|..]).bytes;
    assert s[0] == c;
    assert forall i :: 0 <= i < |tail| ==> s[i + 1] == tail[i];
  }

  lemma WalkSymbol(t: Table, bits: Bits, p: nat, out: seq<Byte>, c: Symbol)
    requires Good(t) && p <= |bits| && c != EOS
    requires Code(t, c) <= bits[p..] && Len(t, c) <= 8
    ensures Walk(t, bits, p, [], out) == Walk(t, bits, p + Len(t, c), [], out + [c])
  {
    hide Window, Find, IsHit, WellFormed, PrefixFree, Complete, EosIsOnes, Finish;
    WindowStarts(bits, p, Code(t, c));
    FindUnique(t, [] + Window(bits, p), c);
  }

  lemma WindowStarts(bits: Bits, p: nat, c: Bits)
    requires p < |bits| && c <= bits[p..] && |c| <= 8
    ensures c <= [] + Window(bits, p)
  {
    if p + 8 <= |bits| { assert bits[p..p + 8] == bits[p..][..8]; }
  }

  lemma WalkPadding(t: Table, bits: Bits, p: nat, out: seq<Byte>)
    requires Good(t) && p <= |bits| && |bits| - p < 8
    requires bits[p..] == Ones(|bits| - p) && Find(t, bits[p..]) == SYMBOLS
    ensures Walk(t, bits, p, [], out) == Text(out)
  {
    if p < |bits| {
      var q := [] + Window(bits, p);
      var s := Find(t, q);
      if s < SYMBOLS {
        assert bits[p..] <= q;
        PrefixOfShorter(Code(t, s), q, bits[p..]);
        assert !IsHit(t, bits[p..], s);
      }
    }
  }

  // ---- and for no others

  /** Bits a symbol takes off the decoder's count: its length, and eight for every level above the terminal. */
  function Cost(t: Table, s: Symbol): nat
    requires WellFormed(t)
  {
    Len(t, s) + 8 * ((Len(t, s) - 1) / 8)
  }

  function TotalCost(t: Table, s: seq<Byte>): nat
    requires WellFormed(t)
  {
    if s == [] then 0 else TotalCost(t, s[..|s| - 1]) + Cost(t, s[|s| - 1])
  }

  lemma TotalCostSnoc(t: Table, s: seq<Byte>, b: Byte)
    requires WellFormed(t)
    ensures TotalCost(t, s + [b]) == TotalCost(t, s) + Cost(t, b)
  {
    assert (s + [b])[..|s|] == s;
  }

  /** A text comes out only if the costs of its symbols fit in the input. */
  lemma {:induction false} WalkCost(t: Table, bits: Bits, p: nat, path: Bits, out: seq<Byte>)
    requires Good(t) && |path| % 8 == 0 && p == TotalCost(t, out) + |path|
    requires forall s: Symbol :: !IsHit(t, path, s)
    ensures var r := Walk(t, bits, p, path, out); r.Text? ==> TotalCost(t, r.bytes) <= |bits|
    decreases |bits| - p
  {
    hide Find, IsHit, WellFormed, PrefixFree, Complete, EosIsOnes, Window, TotalCost;
    if p < |bits| {
      var q := path + Window(bits, p);
      var s := Find(t, q);
      if s == SYMBOLS {
        if p + 8 <= |bits| { WalkCost(t, bits, p + 8, q, out); }
      } else if s != EOS && (p + 8 <= |bits| || Len(t, s) <= |bits| - p) {
        HitCost(t, out, path, q, s);
        WalkCost(t, bits, p + Len(t, s), [], out + [s]);
      }
    }
  }

  lemma EmptyPathMisses(t: Table)
    requires WellFormed(t)
    ensures forall s: Symbol :: !IsHit(t, [], s)
  {
  }

  lemma HitCost(t: Table, out: seq<Byte>, path: Bits, q: Bits, s: Byte)
    requires WellFormed(t) && |path| % 8 == 0 && path <= q && |q| == |path| + 8
    requires IsHit(t, q, s) && !IsHit(t, path, s)
    ensures TotalCost(t, out + [s]) == TotalCost(t, out) + |path| + Len(t, s)
    ensures forall c: Symbol :: !IsHit(t, [], c)
  {
    PrefixOfShorter(Code(t, s), q, path);
    TotalCostSnoc(t, out, s);
    EmptyPathMisses(t);
  }

  lemma {:induction false} CostOfText(t: Table, s: seq<Byte>)
    requires WellFormed(t)
    ensures TotalCost(t, s) >= CodeLength(t, s)
    ensures !AllShort(t, s) ==> TotalCost(t, s) >= CodeLength(t, s) + 8
  {
    if s != [] {
      var s' := s[..|s| - 1];
      CostOfText(t, s');
      if !AllShort(t, s) && t.lengths[s[|s| - 1]] <= 8 {
        assert !AllShort(t, s') by {
          var i :| 0 <= i < |s| && t.lengths[s[i]] > 8;
          assert s'[i] == s[i];
        }
      }
    }
  }

  /** Prefix decoding consumes the codes of what it returns and leaves less than a byte. */
  lemma {:induction false} PrefixDecodeLength(t: Table, bits: Bits)
    requires WellFormed(t)
    ensures PrefixDecode(t, bits).Text? ==> |bits| < CodeLength(t, PrefixDecode(t, bits).bytes) + 8
    decreases |bits|
  {
    var s := Find(t, bits);
    if s < EOS {
      var tail := bits[|Code(t, s)|..];
      PrefixDecodeLength(t, tail);
      if PrefixDecode(t, tail).Text? {
        CodeLengthAppend(t, [s], PrefixDecode(t, tail).bytes);
        assert CodeLength(t, [s]) == t.lengths[s] by { assert [s][..0] == []; }
      }
    }
  }

  lemma {:induction false} CodeLengthAppend(t: Table, a: seq<Byte>, b: seq<Byte>)
    requires WellFormed(t)
    ensures CodeLength(t, a + b) == CodeLength(t, a) + CodeLength(t, b)
  {
    if b == [] {
      assert a + b == a;
    } else {
      CodeLengthAppend(t, a, b[..|b| - 1]);
      assert (a + b)[..|a + b| - 1] == a + b[..|b| - 1];
    }
  }

  /**
   * On every buffer that section 5.2 decodes to s, the decoder as written returns s
   * if and only if every symbol of s has a code of at most eight bits.
   */
  lemma DecodeExactlyShort(t: Table, buf: seq<Byte>, s: seq<Byte>)
    requires Good(t) && PrefixDecode(t, ByteBits(buf)) == Text(s)
    ensures Decode(t, buf) == Text(s) <==> AllShort(t, s)
  {
    var bits := ByteBits(buf);
    if AllShort(t, s) {
      assert bits[0..] == bits;
      WalkShort(t, bits, 0, [], s);
      assert [] + s == s;
    } else {
      EmptyPathMisses(t);
      WalkCost(t, bits, 0, [], []);
      CostOfText(t, s);
      PrefixDecodeLength(t, bits);
    }
  }

  // ---- the encoder's output

  /** Up to seven ones begin no code: they are the start of EOS. */
  lemma OnesAreNoCode(t: Table, n: nat)
    requires Good(t) && n < 8
    ensures Find(t, Ones(n)) == SYMBOLS
  {
    assert Ones(n) <= Code(t, EOS) by {
      assert Ones(n) == Ones(t.lengths[EOS])[..n];
    }
    forall s: Symbol
      ensures !IsHit(t, Ones(n), s)
    {
      PrefixTransitive(Code(t, s), Ones(n), Code(t, EOS));
      assert s != EOS ==> !(Code(t, s) <= Code(t, EOS));
    }
  }

  lemma {:induction false} PrefixDecodeCodes(t: Table, s: seq<Byte>, n: nat)
    requires Good(t) && n < 8
    ensures PrefixDecode(t, CodeString(t, s) + Ones(n)) == Text(s)
  {
    if s == [] {
      assert [] + Ones(n) == Ones(n);
      OnesAreNoCode(t, n);
    } else {
      CodeStringCons(t, s);
      var c := s[0];
      var tail := CodeString(t, s[1..]) + Ones(n);
      assert CodeString(t, s) + Ones(n) == Code(t, c) + tail;
      FindUnique(t, Code(t, c) + tail, c);
      PrefixDecodeCodes(t, s[1..], n);
      assert (Code(t, c) + tail)[|Code(t, c)|..] == tail;
      assert [c] + s[1..] == s;
    }
  }

  lemma {:induction false} CodeStringCons(t: Table, s: seq<Byte>)
    requires WellFormed(t) && s != []
    ensures CodeString(t, s) == Code(t, s[0]) + CodeString(t, s[1..])
  {
    if |s| == 1 {
      assert s[..0] == [];
      assert Code(t, s[0]) + [] == Code(t, s[0]);
      assert [] + Code(t, s[0]) == Code(t, s[0]);
    } else {
      var s' := s[..|s| - 1];
      CodeStringCons(t, s');
      assert s'[1..] == s[1..][..|s| - 2];
      assert s[1..][|s| - 2] == s[|s| - 1];
    }
  }

  /** Section 5.2 round trip of the reference reading, for every byte string. */
  lemma EncodingDecodes(t: Table, s: seq<Byte>)
    requires Good(t)
    ensures PrefixDecode(t, ByteBits(Encoding(t, s))) == Text(s)
  {
    PrefixDecodeCodes(t, s, Padding(|CodeString(t, s)|));
  }

  /** The coder as written: decoding an encoding returns the text iff all its codes fit in a byte. */
  lemma RoundTrip(t: Table, s: seq<Byte>)
    requires Good(t)
    ensures Decode(t, Encoding(t, s)) == Text(s) <==> AllShort(t, s)
  {
    EncodingDecodes(t, s);
    DecodeExactlyShort(t, Encoding(t, s), s);
  }
}
