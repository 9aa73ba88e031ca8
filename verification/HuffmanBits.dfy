// The Huffman code bit for bit (section 5.2 of RFC 7541), and what the decoder makes of what is
// left over at the end.
module HuffmanBits {
  import opened Words
  import opened HuffmanCode
  import opened HuffmanDecode

  /** Bit k of a number of n bits, the highest first. */
  predicate BitOf(v: nat, n: nat, k: nat)
    requires k < n
  {
    v / Pow2(n - 1 - k) % 2 == 1
  }

  lemma {:induction false} BitsOfAt(v: nat, n: nat, k: nat)
    requires k < n
    ensures BitsOf(v, n)[k] <==> BitOf(v, n, k)
  {
    hide Pow2;
    if k < n - 1 {
      BitsOfAt(v / 2, n - 1, k);
      PowStep(n - 1 - k);
      Halved(v, Pow2(n - 2 - k));
    } else {
      Pow2Values();
      assert v / Pow2(0) == v;
    }
  }

  lemma PowStep(n: nat)
    requires n > 0
    ensures Pow2(n) == 2 * Pow2(n - 1)
  {
  }

  /** Bit k of a byte string, the highest of each byte first. */
  predicate ByteBit(bytes: seq<Byte>, k: nat)
    requires k < 8 * |bytes|
  {
    BitOf(bytes[k / 8], 8, k % 8)
  }

  lemma {:induction false} ByteBitsAt(bytes: seq<Byte>, k: nat)
    requires k < 8 * |bytes|
    ensures ByteBits(bytes)[k] <==> ByteBit(bytes, k)
  {
    hide BitOf, BitsOf;
    var n := |bytes| - 1;
    if k < 8 * n {
      ByteBitsAt(bytes[..n], k);
      assert bytes[..n][k / 8] == bytes[k / 8];
    } else {
      assert k / 8 == n && k % 8 == k - 8 * n;
      BitsOfAt(bytes[n], 8, k - 8 * n);
    }
  }

  /** Where the code of the i-th byte begins. */
  function Begins(t: Table, s: seq<Byte>, i: nat): nat
    requires WellFormed(t) && i <= |s|
  {
    if i == 0 then 0 else Begins(t, s, i - 1) + t.lengths[s[i - 1]]
  }

  lemma {:induction false} CodeStringAt(t: Table, s: seq<Byte>, i: nat, j: nat)
    requires WellFormed(t) && i < |s| && j < t.lengths[s[i]]
    ensures Begins(t, s, i) + j < |CodeString(t, s)| == Begins(t, s, |s|)
    ensures CodeString(t, s)[Begins(t, s, i) + j] <==> BitOf(t.codes[s[i]], t.lengths[s[i]], j)
  {
    hide BitOf, BitsOf, Pow2;
    var n := |s| - 1;
    BeginsSame(t, s, n);
    if i < n {
      CodeStringAt(t, s[..n], i, j);
      BeginsSame(t, s, i);
    } else {
      LengthIs(t, s[..n]);
      BitsOfAt(t.codes[s[n]], t.lengths[s[n]], j);
    }
    LengthIs(t, s);
  }

  lemma {:induction false} BeginsSame(t: Table, s: seq<Byte>, i: nat)
    requires WellFormed(t) && s != [] && i < |s|
    ensures Begins(t, s[..|s| - 1], i) == Begins(t, s, i)
  {
    if i > 0 { BeginsSame(t, s, i - 1); }
  }

  lemma {:induction false} LengthIs(t: Table, s: seq<Byte>)
    requires WellFormed(t)
    ensures |CodeString(t, s)| == Begins(t, s, |s|)
  {
    if s != [] {
      LengthIs(t, s[..|s| - 1]);
      BeginsSame(t, s, |s| - 1);
    }
  }

  /** The i-th byte's code stands in its place, bit for bit. */
  predicate CodeStands(t: Table, s: seq<Byte>, bytes: seq<Byte>, i: nat)
    requires WellFormed(t) && i < |s|
  {
    && Begins(t, s, i) + t.lengths[s[i]] <= 8 * |bytes|
    && forall j :: 0 <= j < t.lengths[s[i]] ==> (ByteBit(bytes, Begins(t, s, i) + j) <==> BitOf(t.codes[s[i]], t.lengths[s[i]], j))
  }

  /** All bits from place n on are ones. */
  predicate OnesFrom(bytes: seq<Byte>, n: nat) { forall k :: n <= k < 8 * |bytes| ==> ByteBit(bytes, k) }

  lemma CodeIsThere(t: Table, s: seq<Byte>, bytes: seq<Byte>, i: nat)
    requires WellFormed(t) && i < |s| && CodeString(t, s) <= ByteBits(bytes)
    ensures CodeStands(t, s, bytes, i)
  {
    hide BitOf, ByteBit, Pow2, ByteBits, CodeString, Begins;
    var all, b, n := ByteBits(bytes), Begins(t, s, i), t.lengths[s[i]];
    CodeStringAt(t, s, i, n - 1);
    forall j | 0 <= j < n
      ensures ByteBit(bytes, b + j) <==> BitOf(t.codes[s[i]], n, j)
    {
      CodeStringAt(t, s, i, j);
      ByteBitsAt(bytes, b + j);
      assert all[b + j] == CodeString(t, s)[b + j];
    }
  }

  /**
   * The bits of an encoding: those of each byte's code in turn, the highest first, and ones up to
   * the end of the last byte.
   */
  lemma EncodingBits(t: Table, s: seq<Byte>, bytes: seq<Byte>)
    requires WellFormed(t) && IsEncoding(t, s, bytes)
    ensures var n := Begins(t, s, |s|); n <= 8 * |bytes| < n + 8 && OnesFrom(bytes, n)
    ensures forall i :: 0 <= i < |s| ==> CodeStands(t, s, bytes, i)
  {
    hide ByteBit, WellFormed, CodeStands;
    var n, all := Begins(t, s, |s|), ByteBits(bytes);
    LengthIs(t, s);
    forall k | n <= k < 8 * |bytes|
      ensures ByteBit(bytes, k)
    {
      ByteBitsAt(bytes, k);
      assert all[k];
    }
    forall i | 0 <= i < |s|
      ensures CodeStands(t, s, bytes, i)
    {
      CodeIsThere(t, s, bytes, i);
    }
  }

  // ---- what is left at the end

  /** No code begins these bits. */
  ghost predicate NoCode(t: Table, tail: Bits)
    requires WellFormed(t)
  {
    forall s: Symbol :: !(Code(t, s) <= tail)
  }

  predicate AllOnes(bits: Bits) { forall k :: 0 <= k < |bits| ==> bits[k] }

  /** Behind the last code fewer than eight bits are left: they are padding exactly if they are ones. */
  lemma TailExactly(t: Table, bits: Bits, p: nat, out: seq<Byte>)
    requires Good(t) && p <= |bits| < p + 8 && NoCode(t, bits[p..])
    ensures Walk(t, bits, p, [], out) == if AllOnes(bits[p..]) then Text(out) else InvalidPadding
  {
    var tail := bits[p..];
    assert tail == Ones(|bits| - p) <==> AllOnes(tail);
    if p < |bits| {
      var q := [] + Window(bits, p);
      var s := Find(t, q);
      if s < SYMBOLS && Len(t, s) <= |bits| - p {
        assert tail <= q;
        PrefixOfShorter(Code(t, s), q, tail);
      }
    }
  }

  lemma {:induction false} CodesThenTail(t: Table, bits: Bits, p: nat, out: seq<Byte>, s: seq<Byte>, tail: Bits)
    requires Good(t) && p <= |bits| && AllShort(t, s) && bits[p..] == CodeString(t, s) + tail
    requires |tail| < 8 && NoCode(t, tail)
    ensures Walk(t, bits, p, [], out) == if AllOnes(tail) then Text(out + s) else InvalidPadding
    decreases |s|
  {
    hide Walk, NoCode, PrefixFree, Complete, EosIsOnes, AllOnes;
    if s == [] {
      assert bits[p..] == tail && out + s == out;
      TailExactly(t, bits, p, out);
    } else {
      var len, rest := Len(t, s[0]), s[1..];
      CodeStringCons(t, s);
      assert bits[p..] == Code(t, s[0]) + (CodeString(t, rest) + tail);
      BehindCode(bits, p, Code(t, s[0]), CodeString(t, rest) + tail);
      WalkSymbol(t, bits, p, out, s[0]);
      assert AllShort(t, rest) by { assert forall i :: 0 <= i < |rest| ==> rest[i] == s[i + 1]; }
      CodesThenTail(t, bits, p + len, out + [s[0]], rest, tail);
      assert out + [s[0]] + rest == out + s;
    }
  }

  lemma BehindCode(bits: Bits, p: nat, a: Bits, b: Bits)
    requires p <= |bits| && bits[p..] == a + b
    ensures p + |a| <= |bits| && bits[p + |a|..] == b && a <= bits[p..]
  {
    assert bits[p + |a|..] == bits[p..][|a|..];
  }

  /** A text of short codes with fewer than eight bits behind it that are no code: they decide. */
  lemma PaddingExactly(t: Table, buf: seq<Byte>, s: seq<Byte>, tail: Bits)
    requires Good(t) && AllShort(t, s) && ByteBits(buf) == CodeString(t, s) + tail && |tail| < 8 && NoCode(t, tail)
    ensures Decode(t, buf) == if OnesFrom(buf, Begins(t, s, |s|)) then Text(s) else InvalidPadding
  {
    hide Walk, NoCode, AllShort, PrefixFree, Complete, EosIsOnes;
    var bits := ByteBits(buf);
    assert bits[0..] == bits;
    CodesThenTail(t, bits, 0, [], s, tail);
    assert [] + s == s;
    TailBits(t, buf, s, tail);
  }

  lemma TailBits(t: Table, buf: seq<Byte>, s: seq<Byte>, tail: Bits)
    requires WellFormed(t) && ByteBits(buf) == CodeString(t, s) + tail
    ensures AllOnes(tail) <==> OnesFrom(buf, Begins(t, s, |s|))
  {
    hide ByteBit, WellFormed;
    LengthIs(t, s);
    var bits, n := ByteBits(buf), Begins(t, s, |s|);
    forall k | n <= k < 8 * |buf|
      ensures ByteBit(buf, k) <==> tail[k - n]
    {
      ByteBitsAt(buf, k);
      assert bits[k] == tail[k - n];
    }
    if OnesFrom(buf, n) {
      forall j | 0 <= j < |tail| ensures tail[j] { assert ByteBit(buf, n + j); }
    }
  }
}
