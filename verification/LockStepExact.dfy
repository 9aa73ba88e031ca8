// Exactly when a header survives the trip: the conditions of LockStep are necessary too.
module LockStepExact {
  import opened Words
  import opened Wrappers
  import opened HeaderTable
  import opened PrefixInteger
  import opened HpackFormat
  import opened HpackDecode
  import opened HpackReading
  import opened HpackStream
  import opened HpackBound
  import opened LockStep
  import DT = DynamicTable
  import ET = EncoderTable
  import Static = StaticTable
  import HuffmanCode

  /** A call that ends without an exception and delivers something. */
  predicate Delivers(r: Run) { r.outcome == Done && r.out != [] }

  /** Past the limit nothing is delivered. */
  lemma PastLimit(c: Codec, d: Decoder, data: seq<Byte>, pos: nat)
    requires c.WellFormed() && Ready(d) && pos <= |data| && d.headerSize == d.maxHeaderSize + 1
    ensures Decode(c, d, data, pos).out == []
  {
    hide Decode;
    DecodeCounts(c, d, data, pos, 0);
  }

  /** The length of a string as decodeULE128 meets it, whatever its size. */
  lemma LongLength(data: seq<Byte>, pos: nat, mask: nat, n: nat)
    requires ValidPrefix(mask, 7) && Has(data, pos, IntegerBytes(mask, 7, n))
    ensures pos < |data| && data[pos] == mask + Cap(n, 7)
    ensures n >= 127 ==> pos + 1 < |data|
    ensures n >= 127 ==> !DecodeULE(data, pos + 1).Incomplete?
    ensures n >= 127 && DecodeULE(data, pos + 1).Value? ==> DecodeULE(data, pos + 1).value == n - 127
  {
    PrefixMaxes();
    assert data[pos] == IntegerBytes(mask, 7, n)[0];
    if n >= 127 {
      HasParts(data, pos, [mask + 127], Groups(n - 127));
      assert Limit(0) == INDEX_MAX + 1;
      GroupsValue(data, pos + 1, n - 127, 0);
    }
  }

  // ---- the value

  /** A length that overruns the limit, in one byte or in several: nothing will be delivered. */
  lemma ValueTooLong(c: Codec, d: Decoder, data: seq<Byte>, pos: nat, mask: nat, n: nat)
    requires c.WellFormed() && Ready(d) && d.state == ReadLiteralHeaderValueLengthPrefix
    requires (mask == 0 || mask == 0x80) && ValidPrefix(mask, 7) && Has(data, pos, IntegerBytes(mask, 7, n))
    requires d.nameLength + n + d.headerSize > d.maxHeaderSize && d.headerSize <= d.maxHeaderSize
    ensures !Delivers(Decode(c, d, data, pos))
  {
    hide Decode, ReadULE, InsertHeader, Turn, Ready;
    LongLength(data, pos, mask, n);
    PrefixTurns(c, d, data, pos);
    FlagAndLength(mask, n, data[pos]);
    PrefixMaxes();
    DecodeTurn(c, d, data, pos);
    var s := Turn(c, d, data, pos);
    if n >= 127 {
      assert s == Next(d.(huffmanEncoded := mask == 0x80, index := 127, state := ReadLiteralHeaderValueLength), pos + 1, []);
      ValueLengthTooLong(c, s.d, data, pos + 1, n);
    } else {
      ValuePrefixTooLong(d, data[pos], pos + 1);
      PastLimit(c, s.d, data, s.pos);
    }
  }

  lemma ValuePrefixTooLong(d: Decoder, b: Byte, pos: nat)
    requires d.table.Valid() && b % 128 != 127
    requires d.nameLength + b % 128 + d.headerSize > d.maxHeaderSize
    ensures var s := ValueLengthPrefix(d, b, pos); s.Next? && s.out == [] && s.d.headerSize == s.d.maxHeaderSize + 1
  {
    hide Ready, Settled, DT.Table.Add, DT.Table.Valid;
  }

  lemma ValueLengthTooLong(c: Codec, d: Decoder, data: seq<Byte>, pos: nat, n: nat)
    requires c.WellFormed() && Ready(d) && d.state == ReadLiteralHeaderValueLength && d.index == 127
    requires pos < |data| && n >= 127
    requires DecodeULE(data, pos).Value? ==> DecodeULE(data, pos).value == n - 127
    requires !DecodeULE(data, pos).Incomplete?
    requires d.nameLength + n + d.headerSize > d.maxHeaderSize
    ensures !Delivers(Decode(c, d, data, pos))
  {
    hide Decode, DecodeULE, Ready;
    DecodeTurn(c, d, data, pos);
    var s := Turn(c, d, data, pos);
    if s.Next? { PastLimit(c, s.d, data, s.pos); }
  }

  /** A length past what the decoder's integers hold. */
  lemma ValueUnreadable(c: Codec, d: Decoder, data: seq<Byte>, pos: nat, mask: nat, n: nat)
    requires c.WellFormed() && Ready(d) && d.state == ReadLiteralHeaderValueLengthPrefix
    requires (mask == 0 || mask == 0x80) && ValidPrefix(mask, 7) && Has(data, pos, IntegerBytes(mask, 7, n)) && n > INDEX_MAX
    ensures !Delivers(Decode(c, d, data, pos))
  {
    hide Decode, DecodeULE, ReadULE, InsertHeader, Turn, Ready, Has, IntegerBytes, HuffmanCode.WellFormed, ValueLengthKnown, DT.Table.Valid;
    LongLength(data, pos, mask, n);
    PrefixTurns(c, d, data, pos);
    FlagAndLength(mask, n, data[pos]);
    PrefixMaxes();
    DecodeTurn(c, d, data, pos);
    var d1 := d.(huffmanEncoded := mask == 0x80, index := 127, state := ReadLiteralHeaderValueLength);
    assert Turn(c, d, data, pos) == Next(d1, pos + 1, []);
    LengthUnreadable(c, d1, data, pos + 1, n);
  }

  lemma LengthUnreadable(c: Codec, d: Decoder, data: seq<Byte>, pos: nat, n: nat)
    requires c.WellFormed() && Ready(d) && d.state in {ReadLiteralHeaderNameLength, ReadLiteralHeaderValueLength} && d.index == 127
    requires pos < |data| && n > INDEX_MAX && !DecodeULE(data, pos).Incomplete?
    requires DecodeULE(data, pos).Value? ==> DecodeULE(data, pos).value == n - 127
    ensures !Delivers(Decode(c, d, data, pos))
  {
    hide Decode, DecodeULE, Ready;
    DecodeTurn(c, d, data, pos);
  }

  /** A value that is delivered was within the limit and came through as it was sent. */
  lemma ValueStage(c: Codec, d: Decoder, data: seq<Byte>, pos: nat, s: seq<Byte>)
    requires c.WellFormed() && HuffmanCode.Good(c.huffman) && Ready(d) && d.state == ReadLiteralHeaderValueLengthPrefix
    requires d.headerSize <= d.maxHeaderSize
    requires Has(data, pos, StringBytes(c, s)) && |data| == pos + |StringBytes(c, s)|
    ensures var r := Decode(c, d, data, pos);
            Delivers(r) ==>
              && |r.out| == 1 && r.out[0].name == d.name && r.out[0].sensitive == (d.indexType == NeverIndexed)
              && (r.out[0].value == s ==>
                    && Carried(c, s)
                    && d.nameLength + |Raw(c, s)| + d.headerSize <= d.maxHeaderSize
                    && d.headerSize + |d.name| + |s| <= d.maxHeaderSize)
  {
    hide Decode, Turn, Raw, IsHuffman, StringBytes, StringOk, HuffmanCode.Good, HuffmanCode.WellFormed, InsertHeader, Ready, ReadULE;
    hide Has, Inserted, IntegerBytes, ValidPrefix, DT.Table.Valid;
    StringParts(c, s);
    var mask, n := if IsHuffman(c, s) then 0x80 else 0x00, |Raw(c, s)|;
    HasParts(data, pos, IntegerBytes(mask, 7, n), Raw(c, s));
    if d.nameLength + n + d.headerSize > d.maxHeaderSize {
      ValueTooLong(c, d, data, pos, mask, n);
    } else if n > INDEX_MAX {
      ValueUnreadable(c, d, data, pos, mask, n);
    } else if s == [] {
      EmptyStringOk(c);
      ReadEmptyValue(c, d, data, pos);
      var d' := Inserted(BeforeValue(c, d, []), []).0;
      DecodeEnd(c, d', data);
      OneDelivered(Decode(c, d, data, pos), d', |data|, Inserted(BeforeValue(c, d, []), []).1);
      InsertedOut(BeforeValue(c, d, []), []);
    } else {
      ReadValueLength(c, d, data, pos, s);
      AfterNothing(Decode(c, BeforeValue(c, d, s), data, pos + |StringBytes(c, s)| - n));
      ValueBytesStage(c, BeforeValue(c, d, s), data, pos + |StringBytes(c, s)| - n, s);
    }
  }

  lemma EmptyStringOk(c: Codec)
    requires c.WellFormed()
    ensures Carried(c, [])
  {
  }

  lemma InsertedOut(d: Decoder, value: seq<Byte>)
    requires d.table.Valid()
    ensures var out := Inserted(d, value).1;
            && (out == [] || out == [Header(d.name, value, d.indexType == NeverIndexed)])
            && (out != [] ==> d.headerSize + |d.name| + |value| <= d.maxHeaderSize)
  {
  }

  lemma ValueBytesStage(c: Codec, d: Decoder, data: seq<Byte>, pos: nat, s: seq<Byte>)
    requires c.WellFormed() && HuffmanCode.Good(c.huffman) && Ready(d) && d.state == ReadLiteralHeaderValue
    requires d.huffmanEncoded == IsHuffman(c, s) && d.valueLength == |Raw(c, s)| && s != []
    requires Has(data, pos, Raw(c, s)) && |data| == pos + |Raw(c, s)|
    ensures var r := Decode(c, d, data, pos);
            Delivers(r) ==>
              && |r.out| == 1 && r.out[0].name == d.name && r.out[0].sensitive == (d.indexType == NeverIndexed)
              && (r.out[0].value == s ==> StringOk(c, s) && d.headerSize + |d.name| + |s| <= d.maxHeaderSize)
  {
    hide *;
    RawStands(c, data, pos, s);
    LiteralRoundTrip(c, s);
    ValueTurn(c, d, data, pos);
    DecodeTurn(c, d, data, pos);
    var lit := StringLiteral(c, d.huffmanEncoded, Raw(c, s));
    if lit.Bytes? {
      WholeValue(c, d, data, pos, lit.bytes);
      DecodeEnd(c, Inserted(d, lit.bytes).0, data);
      OneDelivered(Decode(c, d, data, pos), Inserted(d, lit.bytes).0, |data|, Inserted(d, lit.bytes).1);
      InsertedOut(d, lit.bytes);
    } else {
      NoValue(c, d, data, pos, lit.outcome);
      FailedDelivers(Decode(c, d, data, pos));
    }
  }

  lemma NoValue(c: Codec, d: Decoder, data: seq<Byte>, pos: nat, o: Outcome)
    requires c.WellFormed() && d.table.Valid() && d.valueLength >= 0 && pos + d.valueLength <= |data|
    requires StringLiteral(c, d.huffmanEncoded, data[pos..pos + d.valueLength]) == Failed(o)
    ensures ReadValueLiteral(c, d, data, pos) == Stop(d, pos + d.valueLength, o)
  {
    hide StringLiteral, HuffmanCode.WellFormed;
  }

  lemma FailedDelivers(r: Run)
    requires r.out == []
    ensures !Delivers(r)
  {
  }

  lemma OneDelivered(r: Run, d: Decoder, pos: nat, out: seq<Header>)
    requires r == Run(d, pos, [], Done).After(out)
    ensures r.out == out && (Delivers(r) <==> out != [])
  {
    assert out + [] == out;
  }

  // ---- the name

  lemma NameTooLong(c: Codec, d: Decoder, data: seq<Byte>, pos: nat, mask: nat, n: nat)
    requires c.WellFormed() && Ready(d) && d.state == ReadLiteralHeaderNameLengthPrefix
    requires (mask == 0 || mask == 0x80) && ValidPrefix(mask, 7) && Has(data, pos, IntegerBytes(mask, 7, n))
    requires n == 0 || n + d.headerSize > d.maxHeaderSize
    requires d.headerSize <= d.maxHeaderSize
    ensures !Delivers(Decode(c, d, data, pos))
  {
    hide Decode, ReadULE, Turn, Ready;
    LongLength(data, pos, mask, n);
    PrefixTurns(c, d, data, pos);
    FlagAndLength(mask, n, data[pos]);
    PrefixMaxes();
    DecodeTurn(c, d, data, pos);
    var s := Turn(c, d, data, pos);
    if n >= 127 {
      assert s == Next(d.(huffmanEncoded := mask == 0x80, index := 127, state := ReadLiteralHeaderNameLength), pos + 1, []);
      NameLengthTooLong(c, s.d, data, pos + 1, n);
    } else if n > 0 {
      PastLimit(c, s.d, data, s.pos);
    }
  }

  lemma NameLengthTooLong(c: Codec, d: Decoder, data: seq<Byte>, pos: nat, n: nat)
    requires c.WellFormed() && Ready(d) && d.state == ReadLiteralHeaderNameLength && d.index == 127
    requires pos < |data| && n >= 127
    requires DecodeULE(data, pos).Value? ==> DecodeULE(data, pos).value == n - 127
    requires !DecodeULE(data, pos).Incomplete?
    requires n + d.headerSize > d.maxHeaderSize
    ensures !Delivers(Decode(c, d, data, pos))
  {
    hide Decode, DecodeULE, Ready;
    DecodeTurn(c, d, data, pos);
    var s := Turn(c, d, data, pos);
    if s.Next? { PastLimit(c, s.d, data, s.pos); }
  }

  lemma NameUnreadable(c: Codec, d: Decoder, data: seq<Byte>, pos: nat, mask: nat, n: nat)
    requires c.WellFormed() && Ready(d) && d.state == ReadLiteralHeaderNameLengthPrefix
    requires (mask == 0 || mask == 0x80) && ValidPrefix(mask, 7) && Has(data, pos, IntegerBytes(mask, 7, n)) && n > INDEX_MAX
    ensures !Delivers(Decode(c, d, data, pos))
  {
    hide Decode, ReadULE, Turn, Ready;
    LongLength(data, pos, mask, n);
    PrefixTurns(c, d, data, pos);
    FlagAndLength(mask, n, data[pos]);
    PrefixMaxes();
    DecodeTurn(c, d, data, pos);
    var d1 := d.(huffmanEncoded := mask == 0x80, index := 127, state := ReadLiteralHeaderNameLength);
    assert Turn(c, d, data, pos) == Next(d1, pos + 1, []);
    LengthUnreadable(c, d1, data, pos + 1, n);
  }

  /** A spelled-out name: what is delivered under it came through as it was sent. */
  lemma NameStage(c: Codec, d: Decoder, data: seq<Byte>, pos: nat, s: seq<Byte>, value: seq<Byte>)
    requires c.WellFormed() && HuffmanCode.Good(c.huffman) && Ready(d) && d.state == ReadLiteralHeaderNameLengthPrefix
    requires d.headerSize <= d.maxHeaderSize
    requires Has(data, pos, StringBytes(c, s) + StringBytes(c, value))
    requires |data| == pos + |StringBytes(c, s)| + |StringBytes(c, value)|
    ensures var r := Decode(c, d, data, pos);
            Delivers(r) && r.out == [Header(s, value, r.out[0].sensitive)] ==>
              && s != [] && Carried(c, s) && Carried(c, value)
              && d.headerSize + |s| + |value| <= d.maxHeaderSize
              && r.out[0].sensitive == (d.indexType == NeverIndexed)
  {
    hide Decode, Turn, Raw, IsHuffman, StringBytes, StringOk, HuffmanCode.Good, Ready, ReadULE, IntegerBytes;
    StringParts(c, s);
    var mask, n := if IsHuffman(c, s) then 0x80 else 0x00, |Raw(c, s)|;
    HasParts(data, pos, StringBytes(c, s), StringBytes(c, value));
    HasParts(data, pos, IntegerBytes(mask, 7, n), Raw(c, s));
    if n == 0 || n + d.headerSize > d.maxHeaderSize {
      NameTooLong(c, d, data, pos, mask, n);
    } else if n > INDEX_MAX {
      NameUnreadable(c, d, data, pos, mask, n);
    } else {
      ReadNameLength(c, d, data, pos, s);
      NameBytesStage(c, BeforeName(c, d, s), data, pos + |StringBytes(c, s)| - n, s, value);
    }
  }

  lemma NameBytesStage(c: Codec, d: Decoder, data: seq<Byte>, pos: nat, s: seq<Byte>, value: seq<Byte>)
    requires c.WellFormed() && HuffmanCode.Good(c.huffman) && Ready(d) && d.state == ReadLiteralHeaderName
    requires d.huffmanEncoded == IsHuffman(c, s) && d.nameLength == |Raw(c, s)| && s != []
    requires d.headerSize <= d.maxHeaderSize
    requires Has(data, pos, Raw(c, s)) && Has(data, pos + |Raw(c, s)|, StringBytes(c, value))
    requires |data| == pos + |Raw(c, s)| + |StringBytes(c, value)|
    ensures var r := Decode(c, d, data, pos);
            Delivers(r) && r.out == [Header(s, value, r.out[0].sensitive)] ==>
              && StringOk(c, s) && Carried(c, value)
              && d.headerSize + |s| + |value| <= d.maxHeaderSize
              && r.out[0].sensitive == (d.indexType == NeverIndexed)
  {
    hide Decode, Turn, Raw, IsHuffman, StringOk, StringLiteral, StringBytes, HuffmanCode.Good, Ready;
    StringParts(c, s);
    LiteralRoundTrip(c, s);
    NameTurn(c, d, data, pos);
    DecodeTurn(c, d, data, pos);
    assert data[pos..pos + d.nameLength] == Raw(c, s);
    var lit := StringLiteral(c, d.huffmanEncoded, Raw(c, s));
    if lit.Bytes? {
      var d1 := d.(name := lit.bytes, state := ReadLiteralHeaderValueLengthPrefix);
      ValueStage(c, d1, data, pos + |Raw(c, s)|, value);
      AfterNothing(Decode(c, d1, data, pos + |Raw(c, s)|));
    }
  }

  // ---- the header

  lemma IndexedExact(c: Codec, d: Decoder, f: Field, i: nat, data: seq<Byte>)
    requires c.WellFormed() && AtHeader(d) && data == IndexedBytes(i) && i <= INDEX_MAX
    ensures var r := Decode(c, d, data, 0);
            Delivers(r) && r.out == [Header(f.name, f.value, false)] ==>
              i >= 1 && FieldAt(c, d.table, i) == Some(f) && d.headerSize + |f.name| + |f.value| <= d.maxHeaderSize
  {
    hide Decode, Turn, FieldAt, IndexedBytes, Ready;
    assert Has(data, 0, IndexedBytes(i));
    IndexedShape(i);
    if i == 0 {
      ZeroIndexTurn(c, d, data);
      DecodeTurn(c, d, data, 0);
    } else if FieldAt(c, d.table, i).None? {
      MissingIndex(c, d, data, i);
    } else {
      ReadIndexed(c, d, data, 0, i);
      var s := IndexHeader(c, d.(index := Cap(i, 7)), i, |data|);
      DecodeEnd(c, s.d, data);
      IndexHeaderOut(c, d.(index := Cap(i, 7)), i, |data|);
      var g := FieldAt(c, d.table, i);
      assert g == Some(Field(g.value.name, g.value.value));
      assert s.out + [] == s.out;
    }
  }

  lemma IndexedShape(i: nat)
    ensures |IndexedBytes(i)| > 0 && (i == 0 ==> IndexedBytes(i) == [0x80])
  {
    PrefixMaxes();
  }

  lemma IndexHeaderOut(c: Codec, d: Decoder, i: nat, pos: nat)
    requires i >= 1 && FieldAt(c, d.table, i).Some?
    ensures var s, g := IndexHeader(c, d, i, pos), FieldAt(c, d.table, i).value;
            && s.Next?
            && (s.out == [] || (s.out == [Header(g.name, g.value, false)]
                                && d.headerSize + |g.name| + |g.value| <= d.maxHeaderSize))
  {
  }

  lemma ZeroIndexTurn(c: Codec, d: Decoder, data: seq<Byte>)
    requires c.WellFormed() && AtHeader(d) && data == [0x80]
    ensures Turn(c, d, data, 0).Stop?
  {
  }

  lemma MissingIndex(c: Codec, d: Decoder, data: seq<Byte>, i: nat)
    requires c.WellFormed() && AtHeader(d) && data == IndexedBytes(i) && 1 <= i <= INDEX_MAX
    requires FieldAt(c, d.table, i).None?
    ensures Decode(c, d, data, 0).outcome == Threw(IllegalIndexValue) && Decode(c, d, data, 0).out == []
  {
    hide Decode, ReadULE, Turn, FieldAt;
    PrefixMaxes();
    PrefixesAreValid();
    assert Has(data, 0, IntegerBytes(0x80, 7, i));
    ReadsInteger(data, 0, 0x80, 7, i);
    IndexedTurn(c, d, data, 0, i);
    DecodeTurn(c, d, data, 0);
    if i >= 127 {
      var d1 := d.(index := 127, state := ReadIndexedHeader);
      IndexedMoreTurn(c, d1, data, 1, i - 127, |data|);
      DecodeTurn(c, d1, data, 1);
    }
  }

  lemma AllThere(data: seq<Byte>)
    ensures Has(data, 0, data)
  {
    assert data[0..|data|] == data;
  }

  /** Two strings behind one byte. */
  lemma NameAndValue(data: seq<Byte>, name: seq<Byte>, value: seq<Byte>)
    requires Has(data, 1, name) && Has(data, 1 + |name|, value) && |data| == 1 + |name| + |value|
    ensures Has(data, 1, name + value)
  {
    assert data[1..] == data[1..1 + |name|] + data[1 + |name|..];
  }

  lemma NewNameExact(c: Codec, d: Decoder, f: Field, t: IndexType, data: seq<Byte>)
    requires c.WellFormed() && HuffmanCode.Good(c.huffman) && AtHeader(d) && Ready(d) && d.headerSize <= d.maxHeaderSize
    requires data == LiteralBytes(c, f, t, -1)
    ensures var r := Decode(c, d, data, 0);
            Delivers(r) && r.out == [Header(f.name, f.value, r.out[0].sensitive)] ==>
              NameOk(c, f, -1) && Carried(c, f.value) && Room(c, d, f, Literal(t, -1))
  {
    hide Decode, Turn, FieldAt, StringBytes, IntegerBytes, LiteralBytes, Raw, IsHuffman, StringOk, HuffmanCode.Good;
    hide ReadULE, AtHeader, Ready, HuffmanCode.WellFormed, DT.Table.Valid, Has;
    AllThere(data);
    LiteralParts(c, f, t, -1, data, 0);
    var first, name, value := IntegerBytes(Mask(t), PrefixBits(t), 0), StringBytes(c, f.name), StringBytes(c, f.value);
    HasParts(data, 0, first, name);
    ReadNewName(c, d, data, 0, t);
    var d1 := d.(indexType := t, index := 0, state := ReadLiteralHeaderNameLengthPrefix);
    NameAndValue(data, name, value);
    NameStage(c, d1, data, 1, f.name, f.value);
    AfterNothing(Decode(c, d1, data, 1));
  }

  lemma IndexedNameExact(c: Codec, d: Decoder, f: Field, t: IndexType, nameIndex: int, data: seq<Byte>)
    requires c.WellFormed() && HuffmanCode.Good(c.huffman) && AtHeader(d) && Ready(d) && d.headerSize <= d.maxHeaderSize
    requires 1 <= nameIndex <= INDEX_MAX && FieldAt(c, d.table, nameIndex).Some?
    requires data == LiteralBytes(c, f, t, nameIndex)
    ensures var r := Decode(c, d, data, 0);
            Delivers(r) && r.out == [Header(f.name, f.value, r.out[0].sensitive)] ==>
              && FieldAt(c, d.table, nameIndex).value.name == f.name
              && Carried(c, f.value) && Room(c, d, f, Literal(t, nameIndex))
  {
    hide Decode, Turn, FieldAt, StringBytes, IntegerBytes, LiteralBytes, Raw, IsHuffman, StringOk, HuffmanCode.Good;
    hide ReadULE, AtHeader, Ready;
    assert Has(data, 0, LiteralBytes(c, f, t, nameIndex)) by { assert data[0..] == data; }
    LiteralParts(c, f, t, nameIndex, data, 0);
    var first := IntegerBytes(Mask(t), PrefixBits(t), nameIndex);
    ReadIndexedName(c, d, data, 0, t, nameIndex);
    var d1 := Named(d, t, Cap(nameIndex, PrefixBits(t)), FieldAt(c, d.table, nameIndex).value.name);
    ValueStage(c, d1, data, |first|, f.value);
    AfterNothing(Decode(c, d1, data, |first|));
  }

  lemma LiteralExact(c: Codec, e: Encoder, d: Decoder, f: Field, t: IndexType, nameIndex: int, data: seq<Byte>)
    requires c.WellFormed() && HuffmanCode.Good(c.huffman) && InStep(e, d) && Modest(c, e)
    requires d.headerSize <= d.maxHeaderSize
    requires nameIndex == e.NameIndex(c, f.name) && data == LiteralBytes(c, f, t, nameIndex)
    ensures var r := Decode(c, d, data, 0);
            Delivers(r) && r.out == [Header(f.name, f.value, r.out[0].sensitive)] ==>
              NameOk(c, f, nameIndex) && Carried(c, f.value) && Room(c, d, f, Literal(t, nameIndex))
  {
    hide Decode, Turn, FieldAt, LiteralBytes, Raw, StringOk, HuffmanCode.Good, InStep, AtHeader, Ready;
    InStepAtHeader(e, d);
    AtHeaderReady(d);
    NameIndexMeans(c, e, d, f.name);
    if nameIndex == -1 {
      NewNameExact(c, d, f, t, data);
    } else {
      IndexedNameExact(c, d, f, t, nameIndex, data);
    }
  }

  /**
   * A header encoded by an encoder in step and decoded by itself is delivered, and nothing
   * else is, if and only if HeaderOk holds of it and there is Room.
   */
  lemma HeaderExact(c: Codec, e: Encoder, d: Decoder, f: Field, sensitive: bool, incrementalIndexing: bool)
    requires c.WellFormed() && HuffmanCode.Good(c.huffman) && InStep(e, d) && Modest(c, e)
    requires d.headerSize <= d.maxHeaderSize
    ensures AtHeader(d)
    ensures var r := Decode(c, d, Encode(c, e, f, sensitive, incrementalIndexing).0, 0);
            r.outcome == Done && r.out == [Header(f.name, f.value, sensitive)] <==>
              && HeaderOk(c, e, f, sensitive, incrementalIndexing)
              && Room(c, d, f, Choose(c, e, f, sensitive, incrementalIndexing).rep)
  {
    hide Decode, Turn, Choose, HuffmanCode.Good, LiteralBytes, IndexedBytes, FieldAt, Raw, StringOk, InStep, AtHeader, Ready;
    InStepAtHeader(e, d);
    AtHeaderReady(d);
    ChoiceMeans(c, e, d, f, sensitive, incrementalIndexing);
    var data := Encode(c, e, f, sensitive, incrementalIndexing).0;
    assert data[0..] == data;
    var rep := Choose(c, e, f, sensitive, incrementalIndexing).rep;
    if HeaderOk(c, e, f, sensitive, incrementalIndexing) && Room(c, d, f, rep) {
      var d' := HeaderStep(c, e, d, f, sensitive, incrementalIndexing, data, 0);
      AtHeaderReady(d');
      DecodeEnd(c, d', data);
      assert [Header(f.name, f.value, sensitive)] + [] == [Header(f.name, f.value, sensitive)];
    } else {
      match rep
      case Indexed(i) => IndexedExact(c, d, f, i, data);
      case Literal(t, nameIndex) => LiteralExact(c, e, d, f, t, nameIndex, data);
    }
  }

  // ---- incrementalIndexing == false

  /** A full table of nothing but f: adding f once more leaves it as it is. */
  predicate AllCopies(fs: seq<Field>, capacity: nat, f: Field) {
    fs != [] && (forall i :: 0 <= i < |fs| ==> fs[i] == f) && Total(fs) + f.Size() > capacity
  }

  /** Insertion changes the table, except for one that is full of copies. */
  lemma SameTableExactly(fs: seq<Field>, capacity: nat, f: Field)
    requires Total(fs) <= capacity && f.Size() <= capacity
    ensures Insert(fs, capacity, f) == fs <==> AllCopies(fs, capacity, f)
  {
    hide Evict, Total;
    if Insert(fs, capacity, f) == fs { SameIsCopies(fs, capacity, f); }
    if AllCopies(fs, capacity, f) { CopiesAreSame(fs, capacity, f); }
  }

  lemma SameIsCopies(fs: seq<Field>, capacity: nat, f: Field)
    requires Insert(fs, capacity, f) == fs && f.Size() <= capacity
    ensures AllCopies(fs, capacity, f)
  {
    hide Evict, Total;
    var r := Evict(fs, capacity - f.Size());
    EvictFits(fs, capacity - f.Size());
    assert r + [f] == fs;
    assert fs[|fs| - 1] == f && |r| == |fs| - 1;
    assert fs[1..] == r;
    Shifted(fs, f);
    if Total(fs) <= capacity - f.Size() { EvictNothing(fs, capacity - f.Size()); }
  }

  lemma CopiesAreSame(fs: seq<Field>, capacity: nat, f: Field)
    requires AllCopies(fs, capacity, f) && Total(fs) <= capacity && f.Size() <= capacity
    ensures Insert(fs, capacity, f) == fs
  {
    hide Evict, Total;
    EvictOne(fs, capacity - f.Size());
    assert fs[0] == f;
    EvictNothing(fs[1..], capacity - f.Size());
    assert fs[1..] + [f] == fs;
  }

  /** A sequence that is itself again when moved up by one is constant. */
  lemma Shifted(fs: seq<Field>, f: Field)
    requires fs != [] && fs[1..] + [f] == fs
    ensures forall i :: 0 <= i < |fs| ==> fs[i] == f
  {
    var i := |fs| - 1;
    assert fs[i] == f;
    while i > 0
      invariant 0 <= i < |fs| && forall k :: i <= k < |fs| ==> fs[k] == f
    {
      assert fs[i - 1] == (fs[1..] + [f])[i - 1] == fs[i];
      i := i - 1;
    }
  }

  /** Only a field without a value is not found when it is there, and so added again. */
  lemma CopiesHaveNoValue(c: Codec, e: Encoder, f: Field, sensitive: bool)
    requires c.WellFormed() && f.name != [] && Choose(c, e, f, sensitive, false).addsToTable
    requires AllCopies(e.table.fields, e.capacity, f)
    ensures f.value == []
  {
    AddsFits(c, e, f, sensitive, false);
    assert e.table.fields[0] == f;
  }

  /**
   * Without incremental indexing the encoder still adds what it did not find, and the decoder
   * does not: the tables stay equal if and only if nothing was added, or what was added went
   * into a table full of copies of it.
   */
  lemma WithoutIndexingExact(c: Codec, e: Encoder, d: Decoder, f: Field, sensitive: bool, d': Decoder)
    requires c.WellFormed() && InStep(e, d) && Finished(d, d', f, d.table)
    ensures InStep(Encode(c, e, f, sensitive, false).1, d') <==>
            (Choose(c, e, f, sensitive, false).addsToTable ==> AllCopies(e.table.fields, e.capacity, f))
    ensures f.value != [] ==> (InStep(Encode(c, e, f, sensitive, false).1, d') <==> !Choose(c, e, f, sensitive, false).addsToTable)
  {
    hide Choose, HeaderBytes, Evict, AllCopies;
    AddsFits(c, e, f, sensitive, false);
    if Choose(c, e, f, sensitive, false).addsToTable {
      AddedTwice(e.table, e.capacity, f);
      SameTableExactly(e.table.fields, e.capacity, f);
      if AllCopies(e.table.fields, e.capacity, f) {
        CopiesAreNamed(e.table.fields, e.capacity, f);
        CopiesHaveNoValue(c, e, f, sensitive);
      }
    }
  }

  lemma CopiesAreNamed(fs: seq<Field>, capacity: nat, f: Field)
    requires AllCopies(fs, capacity, f) && AllNamed(fs)
    ensures f.name != []
  {
    assert fs[0] == f;
  }

  /** A new encoder asked not to index: a literal, and an entry all the same. */
  lemma FirstTime(c: Codec, capacity: nat, maxHeaderSize: nat, f: Field)
    requires c.WellFormed() && ItemOk(c, f) && Static.FieldIndex(c.staticTable, f) == -1
    requires f.Size() <= capacity && |f.name| + |f.value| <= maxHeaderSize
    ensures var e, d := FreshEncoder(capacity), Fresh(maxHeaderSize, capacity);
            && Choose(c, e, f, false, false).addsToTable
            && HeaderOk(c, e, f, false, false) && Room(c, d, f, Choose(c, e, f, false, false).rep)
            && Encode(c, e, f, false, false).1 == Encoder(ET.State([f], ET.INDEX_MAX - 1), capacity)
  {
    hide HeaderBytes, StringOk, Raw, Static.FieldIndex, Static.NameIndex;
    var e := FreshEncoder(capacity);
    StringParts(c, f.value);
    AddedTwice(e.table, capacity, f);
    assert Evict([], capacity - f.Size()) == [] && [] + [f] == [f];
  }

  /** And the next time the index of that entry. */
  lemma SecondTime(c: Codec, capacity: nat, f: Field)
    requires c.WellFormed() && f.name != [] && f.value != [] && f.Size() <= capacity
    ensures var e := Encoder(ET.State([f], ET.INDEX_MAX - 1), capacity);
            Encode(c, e, f, false, false).0 == IndexedBytes(|c.staticTable| + 1)
  {
    hide IndexedBytes;
    assert ET.FindField([f], f) == 0;
  }

  /**
   * What a peer sees of it, from the start: a new encoder sends the same header twice, the
   * second time by an index that the new decoder's table does not have.
   */
  lemma WithoutIndexingFails(c: Codec, capacity: nat, maxHeaderSize: nat, f: Field)
    requires c.WellFormed() && HuffmanCode.Good(c.huffman)
    requires |c.staticTable| + capacity <= INDEX_MAX
    requires ItemOk(c, f) && f.value != [] && Static.FieldIndex(c.staticTable, f) == -1
    requires f.Size() <= capacity && |f.name| + |f.value| <= maxHeaderSize
    ensures var (first, e) := Encode(c, FreshEncoder(capacity), f, false, false);
            var r := Decode(c, Fresh(maxHeaderSize, capacity), first, 0);
            && r.outcome == Done && r.out == [Header(f.name, f.value, false)] && r.pos == |first|
            && e.table.fields == [f] && r.d.table.entries == []
            && Decode(c, r.d, Encode(c, e, f, false, false).0, 0).outcome == Threw(IllegalIndexValue)
  {
    hide Decode, HuffmanCode.Good, Room, InStep, ItemOk, HeaderBytes, HeaderOk, Choose, Encode, IndexedBytes, Reaches, Ready, FieldAt;
    var e0, d0 := FreshEncoder(capacity), Fresh(maxHeaderSize, capacity);
    FreshInStep(maxHeaderSize, capacity);
    InStepAtHeader(e0, d0);
    NameNotEmpty(c, f);
    FirstTime(c, capacity, maxHeaderSize, f);
    var d1 := DeliversFirst(c, e0, d0, f);
    SecondTime(c, capacity, f);
    NoSuchEntry(c, d1);
    MissingIndex(c, d1, IndexedBytes(|c.staticTable| + 1), |c.staticTable| + 1);
  }

  lemma NoSuchEntry(c: Codec, d: Decoder)
    requires d.table.entries == [] && d.table.Valid()
    ensures FieldAt(c, d.table, |c.staticTable| + 1).None?
  {
  }

  /** A header that is added to the encoder's table alone. */
  lemma DeliversFirst(c: Codec, e: Encoder, d: Decoder, f: Field) returns (d': Decoder)
    requires c.WellFormed() && HuffmanCode.Good(c.huffman) && InStep(e, d) && Modest(c, e)
    requires HeaderOk(c, e, f, false, false) && Room(c, d, f, Choose(c, e, f, false, false).rep)
    ensures var data := Encode(c, e, f, false, false).0;
            AtHeader(d) && Decode(c, d, data, 0) == Run(d', |data|, [Header(f.name, f.value, false)], Done)
    ensures AtHeader(d') && d'.table == d.table && d'.table.Valid()
  {
    hide Decode, HuffmanCode.Good, Room, InStep, HeaderOk, Choose, Encode, Ready;
    InStepAtHeader(e, d);
    var data := Encode(c, e, f, false, false).0;
    assert data[0..] == data;
    d' := HeaderStep(c, e, d, f, false, false, data, 0);
    DecodeEnd(c, d', data);
    assert [Header(f.name, f.value, false)] + [] == [Header(f.name, f.value, false)];
  }
}
