// The Huffman code as a table of (code, length) pairs, its bit-level meaning
// (section 5.2 of RFC 7541) and the packing encoder.
module HuffmanCode {
  import opened Words
  import opened ByteBuffer

  const EOS: nat := 256
  const SYMBOLS: nat := 257

  datatype Table = Table(codes: seq<nat>, lengths: seq<nat>)

  predicate WellFormed(t: Table) {
    && |t.codes| == SYMBOLS && |t.lengths| == SYMBOLS
    && forall s :: 0 <= s < SYMBOLS ==> 1 <= t.lengths[s] <= 32 && t.codes[s] < Pow2(t.lengths[s])
  }

  type Symbol = s: nat | s < SYMBOLS

  function Code(t: Table, s: Symbol): (bs: Bits)
    requires WellFormed(t)
    ensures |bs| == t.lengths[s] && 1 <= |bs| <= 32
  {
    BitsOf(t.codes[s], t.lengths[s])
  }

  function Len(t: Table, s: Symbol): (n: nat)
    requires WellFormed(t)
    ensures n == |Code(t, s)| && 1 <= n <= 32
  {
    t.lengths[s]
  }

  ghost predicate PrefixFree(t: Table)
    requires WellFormed(t)
  {
    forall a: Symbol, b: Symbol {:trigger Code(t, a), Code(t, b)} :: a != b ==> !(Code(t, a) <= Code(t, b))
  }

  ghost predicate Comparable(a: Bits, b: Bits) {
    a <= b || b <= a
  }

  ghost predicate HasComparable(t: Table, q: Bits)
    requires WellFormed(t)
  {
    exists s: Symbol :: Comparable(Code(t, s), q)
  }

  /** Kraft sum 1: there is no bit string every code disagrees with. */
  ghost predicate Complete(t: Table)
    requires WellFormed(t)
  {
    forall q: Bits :: HasComparable(t, q)
  }

  /** EOS is at least a byte of ones, so that up to seven ones are not a code. */
  ghost predicate EosIsOnes(t: Table)
    requires WellFormed(t)
  {
    t.lengths[EOS] >= 8 && Code(t, EOS) == Ones(t.lengths[EOS])
  }

  ghost predicate Good(t: Table) {
    WellFormed(t) && PrefixFree(t) && Complete(t) && EosIsOnes(t)
  }

  /** The codes of the bytes of s, one after the other. */
  ghost function CodeString(t: Table, s: seq<Byte>): (bs: Bits)
    requires WellFormed(t)
  {
    if s == [] then [] else CodeString(t, s[..|s| - 1]) + Code(t, s[|s| - 1])
  }

  lemma CodeStringSnoc(t: Table, s: seq<Byte>, b: Byte)
    requires WellFormed(t)
    ensures CodeString(t, s + [b]) == CodeString(t, s) + Code(t, b)
  {
    assert (s + [b])[..|s|] == s;
  }

  function CodeLength(t: Table, s: seq<Byte>): nat
    requires WellFormed(t)
  {
    if s == [] then 0 else CodeLength(t, s[..|s| - 1]) + t.lengths[s[|s| - 1]]
  }

  lemma {:induction false} CodeLengthIsLength(t: Table, s: seq<Byte>)
    requires WellFormed(t)
    ensures CodeLength(t, s) == |CodeString(t, s)|
  {
    if s != [] { CodeLengthIsLength(t, s[..|s| - 1]); }
  }

  /** Ones that fill the last byte. */
  function Padding(n: nat): nat { (8 - n % 8) % 8 }

  /** `bytes` is the section 5.2 encoding of s: its codes, then ones up to a byte boundary. */
  ghost predicate IsEncoding(t: Table, s: seq<Byte>, bytes: seq<Byte>)
    requires WellFormed(t)
  {
    ByteBits(bytes) == CodeString(t, s) + Ones(Padding(|CodeString(t, s)|))
  }

  /** Every symbol of s has a code of at most eight bits. */
  predicate AllShort(t: Table, s: seq<Byte>)
    requires WellFormed(t)
  {
    forall i :: 0 <= i < |s| ==> t.lengths[s[i]] <= 8
  }

  lemma TopBits(current: nat, pending: Bits)
    requires |pending| >= 8 && Holds(current, pending)
    ensures Holds(current, pending[8..])
    ensures BitsOf(current / Pow2(|pending| - 8) % 256, 8) == pending[..8]
  {
    var hi, lo := pending[..8], pending[8..];
    assert hi + lo == pending;
    SplitWord(current, hi, lo);
    BitsOfVal(hi);
    Pow2Values();
  }

  lemma AppendByte(written: seq<Byte>, b: Byte, bits: Bits, rest: Bits)
    requires BitsOf(b, 8) == bits
    ensures ByteBits(written + [b]) + rest == ByteBits(written) + (bits + rest)
  {
    ByteBitsAppend(written, [b]);
    ByteBitsSingle(b);
  }

  /** The top eight of the pending bits, output as a byte. */
  lemma TopByte(current: nat, pending: Bits, written: seq<Byte>)
    requires |pending| >= 8 && Holds(current, pending)
    ensures Holds(current, pending[8..])
    ensures ByteBits(written + [current / Pow2(|pending| - 8) % 256]) + pending[8..] == ByteBits(written) + pending
  {
    TopBits(current, pending);
    AppendByte(written, current / Pow2(|pending| - 8) % 256, pending[..8], pending[8..]);
    assert pending[..8] + pending[8..] == pending;
  }

  /** One more code among the pending bits. */
  lemma AddCode(t: Table, b: Byte, current: nat, pending: Bits, s: seq<Byte>, written: seq<Byte>)
    requires WellFormed(t) && Holds(current, pending) && |pending| < 8
    requires ByteBits(written) + pending == CodeString(t, s)
    ensures current * Pow2(t.lengths[b]) + t.codes[b] >= 0
    ensures Holds(Wrap(current * Pow2(t.lengths[b]) + t.codes[b]), pending + Code(t, b))
    ensures ByteBits(written) + (pending + Code(t, b)) == CodeString(t, s + [b])
  {
    hide Pow2, Wrap, Val, BitsOf, Holds, CodeString;
    ValBitsOf(t.codes[b], t.lengths[b]);
    ShiftIn(current, pending, Code(t, b));
    CodeStringSnoc(t, s, b);
  }

  lemma PaddingAfterBytes(k: nat, n: nat)
    requires n < 8
    ensures Padding(8 * k + n) == if n == 0 then 0 else 8 - n
  {
  }

  /** n pending bits shifted to the top of a byte, with ones below them. */
  function FilledUp(current: nat, n: nat): Byte
    requires 0 < n < 8
  {
    MulNonnegative(current, Pow2(8 - n));
    Wrap(current * Pow2(8 - n) + (Pow2(8 - n) - 1)) % 256
  }

  lemma FilledUpBits(current: nat, pending: Bits)
    requires 0 < |pending| < 8 && Holds(current, pending)
    ensures BitsOf(FilledUp(current, |pending|), 8) == pending + Ones(8 - |pending|)
  {
    var ones := Ones(8 - |pending|);
    ValOnes(8 - |pending|);
    ShiftIn(current, pending, ones);
    BitsOfVal(pending + ones);
    Pow2Values();
  }

  /** The final byte: fewer than eight pending bits, filled up. */
  lemma LastByte(t: Table, s: seq<Byte>, current: nat, pending: Bits, written: seq<Byte>)
    requires WellFormed(t) && 0 < |pending| < 8 && Holds(current, pending)
    requires ByteBits(written) + pending == CodeString(t, s)
    ensures IsEncoding(t, s, written + [FilledUp(current, |pending|)])
  {
    FilledUpBits(current, pending);
    PadByte(t, s, pending, written, FilledUp(current, |pending|));
  }

  lemma PadByte(t: Table, s: seq<Byte>, pending: Bits, written: seq<Byte>, b: Byte)
    requires WellFormed(t) && 0 < |pending| < 8
    requires ByteBits(written) + pending == CodeString(t, s)
    requires BitsOf(b, 8) == pending + Ones(8 - |pending|)
    ensures IsEncoding(t, s, written + [b])
  {
    AppendByte(written, b, pending + Ones(8 - |pending|), []);
    PaddingAfterBytes(|written|, |pending|);
  }

  lemma NoLastByte(t: Table, s: seq<Byte>, written: seq<Byte>)
    requires WellFormed(t) && ByteBits(written) == CodeString(t, s)
    ensures IsEncoding(t, s, written)
  {
    PaddingAfterBytes(|written|, 0);
    assert CodeString(t, s) + Ones(0) == CodeString(t, s);
  }

  /** The encoding exists and is unique. */
  ghost function Encoding(t: Table, s: seq<Byte>): (bytes: seq<Byte>)
    requires WellFormed(t)
    ensures IsEncoding(t, s, bytes)
  {
    var bs := CodeString(t, s) + Ones(Padding(|CodeString(t, s)|));
    PaddingFills(|CodeString(t, s)|);
    PackBits(bs)
  }

  lemma PaddingFills(n: nat)
    ensures (n + Padding(n)) % 8 == 0
  {
  }

  ghost function PackBits(bs: Bits): (bytes: seq<Byte>)
    requires |bs| % 8 == 0
    ensures ByteBits(bytes) == bs
  {
    if bs == [] then []
    else
      var hi, lo := bs[..|bs| - 8], bs[|bs| - 8..];
      ByteOf(lo);
      AppendByte(PackBits(hi), Val(lo), lo, []);
      assert hi + lo == bs;
      PackBits(hi) + [Val(lo)]
  }

  lemma ByteOf(bs: Bits)
    requires |bs| == 8
    ensures Val(bs) < 256 && BitsOf(Val(bs), 8) == bs
  {
    Pow2Values();
    ValBound(bs);
    BitsOfVal(bs);
  }

  lemma {:induction false} ByteBitsInjective(a: seq<Byte>, b: seq<Byte>)
    requires ByteBits(a) == ByteBits(b)
    ensures a == b
  {
    if a != [] && b != [] {
      var x, y := a[|a| - 1], b[|b| - 1];
      assert |a| == |b|;
      assert ByteBits(a)[8 * |a| - 8..] == BitsOf(x, 8) && ByteBits(b)[8 * |a| - 8..] == BitsOf(y, 8);
      assert ByteBits(a)[..8 * |a| - 8] == ByteBits(a[..|a| - 1]) && ByteBits(b)[..8 * |a| - 8] == ByteBits(b[..|b| - 1]);
      Pow2Values();
      ValBitsOf(x, 8);
      ValBitsOf(y, 8);
      ByteBitsInjective(a[..|a| - 1], b[..|b| - 1]);
      assert a == a[..|a| - 1] + [x] && b == b[..|b| - 1] + [y];
    }
  }

  lemma EncodingIsUnique(t: Table, s: seq<Byte>, bytes: seq<Byte>)
    requires WellFormed(t) && IsEncoding(t, s, bytes)
    ensures bytes == Encoding(t, s)
  {
    ByteBitsInjective(bytes, Encoding(t, s));
  }

  class HuffmanEncoder {
    const table: Table

    constructor (t: Table)
      ensures table == t
    {
      table := t;
    }

    /** Encode's inner loop: output whole bytes while there are eight pending bits. */
    method OutputBytes(out: Bytes, current: nat, n: nat, ghost pending: Bits, ghost written: seq<Byte>)
      returns (left: nat, ghost pending': Bits, ghost written': seq<Byte>)
      requires n == |pending| && Holds(current, pending)
      modifies out`data
      ensures written <= written' && out.data == old(out.data) + written'[|written|..]
      ensures left == |pending'| < 8 && Holds(current, pending')
      ensures ByteBits(written') + pending' == ByteBits(written) + pending
    {
      left, pending', written' := n, pending, written;
      while left >= 8
        invariant written <= written' && out.data == old(out.data) + written'[|written|..]
        invariant left == |pending'| && Holds(current, pending')
        invariant ByteBits(written') + pending' == ByteBits(written) + pending
      {
        left := left - 8;
        var newVal := current / Pow2(left) % 256;
        TopByte(current, pending', written');
        out.Import8Bits(newVal);
        pending', written' := pending'[8..], written' + [newVal];
      }
    }

    /** Packs the codes of the unread bytes of `input` onto `out`, most significant bit first. */
    method Encode(out: Bytes, input: Bytes)
      requires WellFormed(table) && input != out && input.Valid()
      modifies out`data, input`position
      ensures input.position == |input.data|
      ensures out.data == old(out.data) + Encoding(table, input.data[old(input.position)..])
    {
      hide IsEncoding, Wrap, Pow2, BitsOf, FilledUp, PrefixFree, Encoding;
      var current: nat, n: nat := 0, 0;
      ghost var start, pos := out.data, input.position;
      ghost var written: seq<Byte>, pending: Bits, s: seq<Byte> := [], [], [];
      while input.AvailableExportBytes() > 0
        invariant pos <= input.position <= |input.data| && s == input.data[pos..input.position]
        invariant out.data == start + written
        invariant n == |pending| < 8 && Holds(current, pending)
        invariant ByteBits(written) + pending == CodeString(table, s)
        decreases |input.data| - input.position
      {
        var b := input.Export8Bits();
        var code, nbits := table.codes[b], table.lengths[b];
        AddCode(table, b, current, pending, s, written);
        current := Wrap(current * Pow2(nbits) + code);
        s, pending := s + [b], pending + Code(table, b);
        ghost var before := written;
        n, pending, written := OutputBytes(out, current, n + nbits, pending, written);
        assert before + written[|before|..] == written;
      }
      assert s == input.data[pos..];
      if n > 0 {
        LastByte(table, s, current, pending, written);
        var newVal := FilledUp(current, n);
        out.Import8Bits(newVal);
        written := written + [newVal];
      } else {
        NoLastByte(table, s, written);
      }
      EncodingIsUnique(table, s, written);
    }

    /** The number of bytes Encode writes. */
    method GetEncodedLength(data: seq<Byte>) returns (n: nat)
      requires WellFormed(table)
      ensures n == EncodedLength(table, data)
    {
      var len: nat := 0;
      for i := 0 to |data|
        invariant len == CodeLength(table, data[..i])
      {
        assert data[..i + 1][..i] == data[..i];
        len := len + table.lengths[data[i]];
      }
      assert data[..|data|] == data;
      n := (len + 7) / 8;
    }
  }

  function EncodedLength(t: Table, s: seq<Byte>): nat
    requires WellFormed(t)
  {
    (CodeLength(t, s) + 7) / 8
  }

  lemma EncodedLengthIsLength(t: Table, s: seq<Byte>, bytes: seq<Byte>)
    requires WellFormed(t) && IsEncoding(t, s, bytes)
    ensures |bytes| == EncodedLength(t, s)
  {
    CodeLengthIsLength(t, s);
  }
}
