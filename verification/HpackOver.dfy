// Headers past the limit (maxHeaderSize): nothing is delivered, and what becomes of the table.
module HpackOver {
  import opened Words
  import opened Wrappers
  import opened HeaderTable
  import opened PrefixInteger
  import opened HpackFormat
  import opened HpackDecode
  import opened HpackReading
  import opened HpackStream
  import opened HpackWire
  import opened LockStep
  import DT = DynamicTable
  import HuffmanCode

  /** The decoder behind a name of a literal, read or skipped. */
  ghost predicate BehindName(d: Decoder, d2: Decoder, t: IndexType, name: seq<Byte>) {
    var over, tooBig := |name| + d.headerSize > d.maxHeaderSize, |name| + 32 > d.table.capacity;
    && Ready(d2) && d2.state == ReadLiteralHeaderValueLengthPrefix && d2.indexType == t && d2.nameLength == |name|
    && d2.maxHeaderSize == d.maxHeaderSize && d2.maxDynamicTableSizeChangeRequired == d.maxDynamicTableSizeChangeRequired
    && d2.headerSize == (if over then d.maxHeaderSize + 1 else d.headerSize)
    && d2.table == (if over && t != NotIndexed && tooBig then Cleared(d.table) else d.table)
    && (!over || (t != NotIndexed && !tooBig) ==> d2.name == name)
  }

  /** The decoder behind a whole literal that was too long. */
  ghost predicate BehindValue(d2: Decoder, d3: Decoder, value: seq<Byte>) {
    var tooBig := d2.nameLength + |value| + 32 > d2.table.capacity;
    && Ready(d3) && d3.state == ReadHeaderRepresentation
    && d3.maxHeaderSize == d2.maxHeaderSize && d3.maxDynamicTableSizeChangeRequired == d2.maxDynamicTableSizeChangeRequired
    && d3.headerSize == d2.maxHeaderSize + 1 && d2.table.Valid()
    && d3.table == match d2.indexType {
         case NotIndexed => d2.table
         case Incremental => if tooBig then Cleared(d2.table) else d2.table.Add(Field(d2.name, value))
         case NeverIndexed => if tooBig then Cleared(d2.table) else d2.table
       }
  }

  lemma NameKnown(d: Decoder, n: nat, pos: nat)
    requires 0 < n < 127 && d.table.Valid()
    ensures var d0 := d.(huffmanEncoded := false, index := n, nameLength := n);
            var over, tooBig := n + d.headerSize > d.maxHeaderSize, n + 32 > d.table.capacity;
            var o := d0.(headerSize := d.maxHeaderSize + 1);
            NameLengthPrefix(d, n, pos) ==
            Next(if !over then d0.(state := ReadLiteralHeaderName)
                 else if d.indexType == NotIndexed then o.(name := [], skipLength := n, state := SkipLiteralHeaderName)
                 else if tooBig then o.(table := Cleared(d.table), name := [], skipLength := n, state := SkipLiteralHeaderName)
                 else o.(state := ReadLiteralHeaderName), pos, [])
  {
    hide DT.Table.Valid;
  }

  lemma SkipNameTurn(c: Codec, d: Decoder, data: seq<Byte>, pos: nat)
    requires c.WellFormed() && Ready(d) && pos < |data| && d.state == SkipLiteralHeaderName
    ensures d.skipLength <= |data| - pos ==>
            Turn(c, d, data, pos) == Next(d.(skipLength := 0, state := ReadLiteralHeaderValueLengthPrefix), pos + d.skipLength, [])
  {
    hide DT.Table.Valid;
  }

  lemma SkipValueTurn(c: Codec, d: Decoder, data: seq<Byte>, pos: nat)
    requires c.WellFormed() && Ready(d) && pos < |data| && d.state == SkipLiteralHeaderValue
    ensures d.valueLength >= 0
    ensures d.valueLength <= |data| - pos ==>
            Turn(c, d, data, pos) == Next(d.(valueLength := 0, state := ReadHeaderRepresentation), pos + d.valueLength, [])
  {
    hide DT.Table.Valid;
  }

  /** A name is read or skipped, with what that does to the table. */
  lemma NameOver(c: Codec, d: Decoder, data: seq<Byte>, pos: nat, name: seq<Byte>) returns (d2: Decoder)
    requires c.WellFormed() && Ready(d) && d.state == ReadLiteralHeaderNameLengthPrefix
    requires 0 < |name| < 127 && Has(data, pos, [|name|] + name)
    ensures Reaches(c, d, data, pos, d2, pos + 1 + |name|, [])
    ensures BehindName(d, d2, d.indexType, name)
  {
    hide Decode, Turn, Ready, DT.Table.Valid, StringLiteral, HuffmanCode.WellFormed, ReadNameLiteral, NameLengthPrefix, Reaches;
    HasParts(data, pos, [|name|], name);
    assert data[pos] == data[pos..pos + 1][0] == |name|;
    PrefixTurns(c, d, data, pos);
    NameKnown(d, |name|, pos + 1);
    ReachesStep(c, d, data, pos);
    var d1 := Turn(c, d, data, pos).d;
    StepReady(c, d, data, pos);
    if d1.state == ReadLiteralHeaderName {
      NameTurn(c, d1, data, pos + 1);
      PlainBytes(c, data, pos + 1, name);
      WholeName(c, d1, data, pos + 1, name);
    } else {
      SkipNameTurn(c, d1, data, pos + 1);
    }
    ReachesStep(c, d1, data, pos + 1);
    StepReady(c, d1, data, pos + 1);
    d2 := Turn(c, d1, data, pos + 1).d;
    var none: seq<Header> := [];
    assert none + none == none;
    ReachesTwice(c, d, data, pos, d1, pos + 1, none, d2, pos + 1 + |name|, none);
  }

  lemma StepReady(c: Codec, d: Decoder, data: seq<Byte>, pos: nat)
    requires c.WellFormed() && Ready(d) && pos < |data| && Turn(c, d, data, pos).Next?
    ensures Ready(Turn(c, d, data, pos).d)
  {
    hide Turn, Ready;
  }

  lemma ValueKnownOver(d: Decoder, n: nat, pos: nat)
    requires 0 < n < 127 && d.table.Valid() && d.nameLength + n + d.headerSize > d.maxHeaderSize
    ensures var d0 := d.(huffmanEncoded := false, index := n, valueLength := n, headerSize := d.maxHeaderSize + 1);
            var tooBig := d.nameLength + n + 32 > d.table.capacity;
            ValueLengthPrefix(d, n, pos) ==
            Next(if d.indexType == NotIndexed then d0.(state := SkipLiteralHeaderValue)
                 else if tooBig then d0.(table := Cleared(d.table), state := SkipLiteralHeaderValue)
                 else d0.(state := ReadLiteralHeaderValue), pos, [])
  {
    hide DT.Table.Valid;
  }

  lemma InsertedOver(d: Decoder, value: seq<Byte>)
    requires d.table.Valid() && d.headerSize == d.maxHeaderSize + 1
    ensures var (d', out) := Inserted(d, value);
            && out == [] && d' == d.(headerSize := d.maxHeaderSize + 1, state := ReadHeaderRepresentation,
                                     table := if d.indexType == Incremental then d.table.Add(Field(d.name, value)) else d.table)
  {
    hide DT.Table.Add, DT.Table.Valid;
  }

  lemma ValueOver(c: Codec, d: Decoder, data: seq<Byte>, pos: nat, value: seq<Byte>) returns (d3: Decoder)
    requires c.WellFormed() && Ready(d) && d.state == ReadLiteralHeaderValueLengthPrefix
    requires 0 < |value| < 127 && Has(data, pos, [|value|] + value) && d.nameLength + |value| + d.headerSize > d.maxHeaderSize
    ensures Reaches(c, d, data, pos, d3, pos + 1 + |value|, [])
    ensures BehindValue(d, d3, value)
  {
    hide Decode, Turn, Ready, DT.Table.Valid, StringLiteral, HuffmanCode.WellFormed, ReadValueLiteral, ValueLengthPrefix, Reaches;
    hide Inserted, DT.Table.Add;
    HasParts(data, pos, [|value|], value);
    assert data[pos] == data[pos..pos + 1][0] == |value|;
    PrefixTurns(c, d, data, pos);
    ValueKnownOver(d, |value|, pos + 1);
    ReachesStep(c, d, data, pos);
    var d1 := Turn(c, d, data, pos).d;
    StepReady(c, d, data, pos);
    var none: seq<Header> := [];
    if d1.state == ReadLiteralHeaderValue {
      ValueTurn(c, d1, data, pos + 1);
      PlainBytes(c, data, pos + 1, value);
      WholeValue(c, d1, data, pos + 1, value);
      InsertedOver(d1, value);
    } else {
      SkipValueTurn(c, d1, data, pos + 1);
    }
    ReachesStep(c, d1, data, pos + 1);
    StepReady(c, d1, data, pos + 1);
    d3 := Turn(c, d1, data, pos + 1).d;
    assert none + none == none;
    ReachesTwice(c, d, data, pos, d1, pos + 1, none, d3, pos + 1 + |value|, none);
  }

  /**
   * A literal past the limit, byte by byte: it is consumed whole and nothing is delivered. One
   * with the byte 64 goes into the table as it would have; one with 0 leaves it alone; one with
   * 16 empties it if it is larger than the table, although such a header is never to be kept.
   */
  lemma PlainLiteralOver(c: Codec, d: Decoder, t: IndexType, flags: Byte, bits: nat, name: seq<Byte>, value: seq<Byte>)
    requires c.WellFormed() && AtHeader(d) && IsForm(t, flags, bits)
    requires 0 < |name| < 127 && 0 < |value| < 127 && !RoomFor(d, Field(name, value))
    ensures Ready(d) && d.table.Valid()
    ensures var data, f := [flags, |name|] + name + [|value|] + value, Field(name, value);
            var r := Decode(c, d, data, 0);
            && r.outcome == Done && r.pos == |data| && AtHeader(r.d) && r.out == [] && r.d.headerSize == d.maxHeaderSize + 1
            && r.d.table == if flags == 64 then d.table.Add(f)
                            else if flags == 16 && |name| + |value| + 32 > d.table.capacity then DT.Table([], d.table.capacity, 0)
                            else d.table
  {
    hide Decode, Turn, Ready, HuffmanCode.WellFormed, DT.Table.Valid, DT.Table.Add, AtHeader, Reaches;
    FormExactly(t, flags, bits);
    AtHeaderIs(d);
    TableIsValid(d);
    var data := [flags, |name|] + name + [|value|] + value;
    var n, v := [|name|] + name, [|value|] + value;
    assert data == [flags] + n + v;
    assert data[1..1 + |n|] == n && data[1 + |n|..1 + |n| + |v|] == v && data[0..1] == [flags];
    ZeroIndex(flags, bits);
    ReadNewName(c, d, data, 0, t);
    var d1 := d.(indexType := t, index := 0, state := ReadLiteralHeaderNameLengthPrefix);
    ReachesReady(c, d, data, 0, d1, 1, []);
    var d2 := NameOver(c, d1, data, 1, name);
    var none: seq<Header> := [];
    assert none + none == none;
    ReachesTwice(c, d, data, 0, d1, 1, none, d2, 1 + |n|, none);
    var d3 := ValueOver(c, d2, data, 1 + |n|, value);
    ReachesTwice(c, d, data, 0, d2, 1 + |n|, none, d3, |data|, none);
    DecodeEnd(c, d3, data);
    ReachesEnd(c, d, data, d3);
    ReadyAgain(d, d3);
    TooBigIsEmpty(d.table, Field(name, value));
  }

  lemma ReachesReady(c: Codec, d: Decoder, data: seq<Byte>, pos: nat, d': Decoder, pos': nat, out: seq<Header>)
    requires c.WellFormed() && Reaches(c, d, data, pos, d', pos', out)
    ensures Ready(d')
  {
    hide Ready, Decode;
  }

  lemma ReachesEnd(c: Codec, d: Decoder, data: seq<Byte>, d': Decoder)
    requires c.WellFormed() && Reaches(c, d, data, 0, d', |data|, []) && Decode(c, d', data, |data|) == Run(d', |data|, [], Done)
    ensures Decode(c, d, data, 0) == Run(d', |data|, [], Done)
  {
    hide Ready, Decode;
    var none: seq<Header> := [];
    assert none + none == none;
  }

  lemma TooBigIsEmpty(t: DT.Table, f: Field)
    requires t.Valid()
    ensures |f.name| + |f.value| + 32 > t.capacity ==> t.Add(f) == DT.Table([], t.capacity, 0)
  {
    hide DT.Table.Valid;
  }

  // ---- what a sensitive header does to the two ends

  /** A sensitive header with a new name, neither string shorter in Huffman code: the byte 16, and both strings plain. */
  lemma SensitiveBytes(c: Codec, e: Encoder, f: Field, incrementalIndexing: bool)
    requires c.WellFormed() && e.NameIndex(c, f.name) == -1 && !IsHuffman(c, f.name) && !IsHuffman(c, f.value)
    requires 0 < |f.name| < 127 && 0 < |f.value| < 127
    ensures Encode(c, e, f, true, incrementalIndexing) == ([16, |f.name|] + f.name + [|f.value|] + f.value, e)
  {
    hide LiteralBytes, IsHuffman, Encoder.NameIndex;
    SpelledPlain(c, f);
  }

  lemma SpelledPlain(c: Codec, f: Field)
    requires c.WellFormed() && !IsHuffman(c, f.name) && !IsHuffman(c, f.value)
    requires 0 < |f.name| < 127 && 0 < |f.value| < 127
    ensures LiteralBytes(c, f, NeverIndexed, -1) == [16, |f.name|] + f.name + [|f.value|] + f.value
  {
    hide IsHuffman, StringBytes, IntegerBytes, HuffmanCode.WellFormed;
    FormExactly(NeverIndexed, 16, 4);
    ZeroIndex(16, 4);
    PlainString(c, f.name);
    PlainString(c, f.value);
    assert [16] + ([|f.name|] + f.name) + ([|f.value|] + f.value) == [16, |f.name|] + f.name + [|f.value|] + f.value;
  }

  lemma PlainString(c: Codec, s: seq<Byte>)
    requires c.WellFormed() && !IsHuffman(c, s) && |s| < 127
    ensures StringBytes(c, s) == [|s|] + s
  {
    PrefixMaxes();
  }

  /**
   * Past the decoder's limit such a header empties the decoder's table if it is larger than the
   * table, and the encoder's never: the two stay in step if and only if it is not, or both are empty.
   */
  lemma SensitiveOverExactly(c: Codec, e: Encoder, d: Decoder, f: Field, incrementalIndexing: bool)
    requires c.WellFormed() && InStep(e, d) && e.NameIndex(c, f.name) == -1 && !IsHuffman(c, f.name) && !IsHuffman(c, f.value)
    requires 0 < |f.name| < 127 && 0 < |f.value| < 127 && !RoomFor(d, f)
    ensures Ready(d)
    ensures var (data, e') := Encode(c, e, f, true, incrementalIndexing);
            var r := Decode(c, d, data, 0);
            && r.outcome == Done && r.out == []
            && (InStep(e', r.d) <==> |f.name| + |f.value| + 32 <= e.capacity || e.table.fields == [])
  {
    hide Decode, Ready, Encode, IsHuffman, DT.Table.Add, RoomFor, AtHeader;
    InStepAtHeader(e, d);
    SensitiveBytes(c, e, f, incrementalIndexing);
    FormExactly(NeverIndexed, 16, 4);
    assert f == Field(f.name, f.value);
    PlainLiteralOver(c, d, NeverIndexed, 16, 4, f.name, f.value);
  }
}
