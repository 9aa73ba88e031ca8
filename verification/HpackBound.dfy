// Between resets the decoder delivers no more than maxHeaderSize bytes of names and values.
module HpackBound {
  import opened Words
  import opened HpackFormat
  import opened PrefixInteger
  import opened HpackDecode
  import DT = DynamicTable
  import opened HpackStream
  import HuffmanCode

  function Delivered(out: seq<Header>): nat {
    if out == [] then 0 else |out[0].name| + |out[0].value| + Delivered(out[1..])
  }

  lemma {:induction false} DeliveredAppend(a: seq<Header>, b: seq<Header>)
    ensures Delivered(a + b) == Delivered(a) + Delivered(b)
  {
    if a == [] {
      assert a + b == b;
    } else {
      DeliveredAppend(a[1..], b);
      assert (a + b)[1..] == a[1..] + b;
    }
  }

  /** headerSize counts what is delivered, until it is set past the limit; from then on nothing is. */
  predicate Counted(d: Decoder, d': Decoder, out: seq<Header>) {
    && d'.maxHeaderSize == d.maxHeaderSize
    && (if d'.headerSize <= d.maxHeaderSize then d'.headerSize == d.headerSize + Delivered(out)
        else d'.headerSize == d.maxHeaderSize + 1 && out == [])
  }

  /** total bytes have been delivered since the last reset. */
  predicate Account(d: Decoder, total: nat) {
    total <= d.maxHeaderSize && (d.headerSize == total || d.headerSize == d.maxHeaderSize + 1)
  }

  lemma AddHeaderCounts(d: Decoder, name: seq<Byte>, value: seq<Byte>, sensitive: bool)
    ensures var r := AddHeader(d, name, value, sensitive); Counted(d, r.0, r.1)
  {
    var h := Header(name, value, sensitive);
    assert [h][1..] == [];
  }

  function StepOut(s: Step): seq<Header> { if s.Next? then s.out else [] }

  predicate StepCounted(d: Decoder, s: Step) { Counted(d, s.d, StepOut(s)) }

  lemma InsertHeaderCounts(d: Decoder, name: seq<Byte>, value: seq<Byte>)
    requires d.table.Valid()
    ensures var r := InsertHeader(d, name, value); Counted(d, r.0, r.1)
  {
    hide AddHeader;
    AddHeaderCounts(d, name, value, d.indexType == NeverIndexed);
  }

  lemma IndexHeaderCounts(c: Codec, d: Decoder, i: nat, pos: nat)
    requires i >= 1 && d.headerSize <= d.maxHeaderSize + 1
    ensures StepCounted(d, IndexHeader(c, d, i, pos))
  {
    hide AddHeader, FieldAt;
    var f := FieldAt(c, d.table, i);
    if f.Some? { AddHeaderCounts(d, f.value.name, f.value.value, false); }
  }

  lemma LengthsCount(d: Decoder, n: nat)
    requires d.headerSize <= d.maxHeaderSize + 1
    ensures Counted(d, NameLengthKnown(d, n), []) && Counted(d, ValueLengthKnown(d, n).0, [])
  {
  }

  lemma FirstByteCounts(c: Codec, d: Decoder, b: Byte, pos: nat)
    requires d.Valid() && d.headerSize <= d.maxHeaderSize + 1
    ensures StepCounted(d, FirstByte(c, d, b, pos))
  {
    hide IndexHeader, FieldAt;
    if b >= 128 && b % 128 != 0 {
      IndexHeaderCounts(c, d.(index := b % 128), b % 128, pos);
    }
  }

  lemma IntegerCounts(c: Codec, d: Decoder, v: nat, pos: nat)
    requires d.Valid() && d.headerSize <= d.maxHeaderSize + 1
    requires d.state in {ReadMaxDynamicTableSize, ReadIndexedHeader, ReadIndexedHeaderName,
                         ReadLiteralHeaderNameLength, ReadLiteralHeaderValueLength}
    requires d.index >= 1 || d.state !in {ReadIndexedHeader, ReadIndexedHeaderName}
    ensures StepCounted(d, IntegerKnown(c, d, v, pos))
  {
    hide IndexHeader, FieldAt, NameLengthKnown, ValueLengthKnown, DT.Table.Valid, DT.Table.Resize, DT.Table.ResizeOutcome, Ready;
    LengthsCount(d, d.index + v);
    if d.state == ReadIndexedHeader { IndexHeaderCounts(c, d, d.index + v, pos); }
  }

  lemma ValuePrefixCounts(d: Decoder, b: Byte, pos: nat)
    requires d.table.Valid() && d.headerSize <= d.maxHeaderSize + 1
    ensures StepCounted(d, ValueLengthPrefix(d, b, pos))
  {
    hide ValueLengthKnown, InsertHeader;
    var d1 := d.(huffmanEncoded := b >= 128, index := b % 128);
    LengthsCount(d1, d1.index);
    var d2 := ValueLengthKnown(d1, d1.index).0;
    if d1.index == 0 {
      ValueReadOrPast(d1);
      InsertHeaderCounts(d2, d2.name, []);
      CountedThrough(d1, d2, InsertHeader(d2, d2.name, []).0, InsertHeader(d2, d2.name, []).1);
    }
  }

  lemma ValueReadOrPast(d: Decoder)
    ensures var d' := ValueLengthKnown(d, 0).0; d'.table.Valid() <== d.table.Valid()
  {
  }

  /** Two changes in a row, the first delivering nothing. */
  lemma CountedThrough(d: Decoder, d1: Decoder, d2: Decoder, out: seq<Header>)
    requires Counted(d, d1, []) && Counted(d1, d2, out)
    ensures Counted(d, d2, out)
  {
  }

  lemma LiteralCounts(c: Codec, d: Decoder, data: seq<Byte>, pos: nat)
    requires c.WellFormed() && Ready(d) && pos < |data| && d.headerSize <= d.maxHeaderSize + 1
    ensures d.state == ReadLiteralHeaderName ==> d.nameLength >= 0 && StepCounted(d, ReadNameLiteral(c, d, data, pos))
    ensures d.state == ReadLiteralHeaderValue ==>
              d.valueLength >= 0 && d.table.Valid() && StepCounted(d, ReadValueLiteral(c, d, data, pos))
  {
    hide StringLiteral, InsertHeader;
    if d.state == ReadLiteralHeaderValue && pos + d.valueLength <= |data| {
      var r := StringLiteral(c, d.huffmanEncoded, data[pos..pos + d.valueLength]);
      if r.Bytes? { InsertHeaderCounts(d, d.name, r.bytes); }
    }
  }

  lemma TurnCounts(c: Codec, d: Decoder, data: seq<Byte>, pos: nat)
    requires c.WellFormed() && Ready(d) && pos < |data| && d.headerSize <= d.maxHeaderSize + 1
    ensures StepCounted(d, Turn(c, d, data, pos))
  {
    hide FirstByte, NameLengthKnown, ReadNameLiteral, ValueLengthPrefix, ReadValueLiteral, IntegerKnown, DecodeULE, Settled, HuffmanCode.WellFormed;
    hide DT.Table.Valid;
    LiteralCounts(c, d, data, pos);
    match d.state
    case ReadHeaderRepresentation => FirstByteCounts(c, d, data[pos], pos + 1);
    case ReadLiteralHeaderNameLengthPrefix =>
      LengthsCount(d.(huffmanEncoded := data[pos] >= 128, index := data[pos] % 128), data[pos] % 128);
    case ReadLiteralHeaderValueLengthPrefix => ValuePrefixCounts(d, data[pos], pos + 1);
    case ReadLiteralHeaderName =>
    case ReadLiteralHeaderValue =>
    case SkipLiteralHeaderName =>
    case SkipLiteralHeaderValue =>
    case _ =>
      var u := DecodeULE(data, pos);
      if u.Value? { IntegerCounts(c, d, u.value, u.next); }
  }

  /** Property over whole runs: the accounts stay right whatever the input. */
  lemma {:induction false} DecodeCounts(c: Codec, d: Decoder, data: seq<Byte>, pos: nat, total: nat)
    requires c.WellFormed() && Ready(d) && pos <= |data| && Account(d, total)
    ensures var r := Decode(c, d, data, pos);
            && r.d.maxHeaderSize == d.maxHeaderSize
            && Account(r.d, total + Delivered(r.out))
            && (d.headerSize > d.maxHeaderSize ==> r.out == [] && r.d.headerSize == d.headerSize)
    decreases |data| - pos, Pending(d)
  {
    hide Turn, Ready, Decode;
    if pos == |data| {
      DecodeEnd(c, d, data);
    } else {
      TurnCounts(c, d, data, pos);
      DecodeTurn(c, d, data, pos);
      var s := Turn(c, d, data, pos);
      if s.Next? {
        var rest := Decode(c, s.d, data, s.pos);
        DecodeCounts(c, s.d, data, s.pos, total + Delivered(s.out));
        DeliveredAppend(s.out, rest.out);
      }
    }
  }
}
