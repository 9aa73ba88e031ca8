// The decoder itself: decode's loop over the ring buffer, the Huffman tree and the input
// buffer, each call equal to the specification's Decode.
module HpackDecoder {
  import opened Words
  import opened Wrappers
  import ByteBuffer
  import opened HeaderTable
  import opened PrefixInteger
  import opened HpackFormat
  import opened HpackDecode
  import TableSize
  import HuffmanCode
  import HuffmanDecode
  import HuffmanTree
  import HpackStream
  import DT = DynamicTable

  /** A listener that keeps what it is told. */
  class HeaderListener {
    var headers: seq<Header>

    constructor ()
      ensures headers == []
    {
      headers := [];
    }

    method AddHeader(name: seq<Byte>, value: seq<Byte>, sensitive: bool)
      modifies this`headers
      ensures headers == old(headers) + [Header(name, value, sensitive)]
    {
      headers := headers + [Header(name, value, sensitive)];
    }
  }

  /** How one case of decode's switch ends: go round again, return, or leave by an exception or a trap. */
  datatype Flow = Continue | Return | Fail(outcome: Outcome)

  /** The new state, position and headers are what the step says. A crash leaves no state to speak of. */
  predicate Follows(s: Step, flow: Flow, pos: nat, heard: seq<Header>, d: Decoder, pos': nat, heard': seq<Header>) {
    match s
    case Wait(e) => flow == Return && d == e && pos' == pos && heard' == heard
    case Next(e, p, out) => flow == Continue && d == e && pos' == p && heard' == heard + out
    case Stop(e, p, outcome) => flow == Fail(outcome) && pos' == p && heard' == heard && (outcome == Crashed || d == e)
  }

  class HPACKDecoder {
    ghost const codec: Codec
    const huffman: HuffmanTree.HuffmanDecoder
    const staticTable: seq<Field>
    const dynamicTable: DT.DynamicTable
    const maxHeaderSize: nat
    var maxDynamicTableSize: nat
    var encoderMaxDynamicTableSize: nat
    var maxDynamicTableSizeChangeRequired: bool
    var state: State
    var index: nat
    var headerSize: nat
    var indexType: IndexType
    var huffmanEncoded: bool
    var name: seq<Byte>
    var skipLength: nat
    var nameLength: int
    var valueLength: int

    /** Nothing decode writes to is part of the tree. */
    lemma Apart(input: ByteBuffer.Bytes?, listener: HeaderListener?, ring: array<Option<Field>>)
      ensures forall a: array<HuffmanTree.Node?> :: a in HuffmanTree.Arrays(huffman.shape.inner) ==>
                a as object? !in {input, listener, ring, dynamicTable, this}
    {
    }

    ghost predicate Parts()
      reads HuffmanTree.Arrays(huffman.shape.inner)
    {
      && codec.WellFormed() && staticTable == codec.staticTable
      && huffman.Valid() && huffman.table == codec.huffman
    }

    ghost function Abs(): Decoder
      reads this, dynamicTable
    {
      Decoder(dynamicTable.Abs(), maxHeaderSize, maxDynamicTableSize, encoderMaxDynamicTableSize, maxDynamicTableSizeChangeRequired,
              state, index, headerSize, indexType, huffmanEncoded, name, skipLength, nameLength, valueLength)
    }

    ghost predicate Valid()
      reads this, dynamicTable, dynamicTable.headerFields, HuffmanTree.Arrays(huffman.shape.inner)
    {
      Parts() && dynamicTable.Valid()
    }

    constructor (c: Codec, maxHeaderSize: nat, maxHeaderTableSize: nat)
      requires c.WellFormed() && HuffmanCode.Good(c.huffman)
      ensures Valid() && codec == c && Abs() == Fresh(maxHeaderSize, maxHeaderTableSize)
      ensures fresh(dynamicTable) && fresh(dynamicTable.headerFields)
    {
      hide HuffmanCode.Good, HuffmanTree.HuffmanDecoder.Valid, DT.DynamicTable.Valid;
      codec := c;
      staticTable := c.staticTable;
      var h := new HuffmanTree.HuffmanDecoder(c.huffman.codes, c.huffman.lengths, c.huffman);
      huffman := h;
      dynamicTable := new DT.DynamicTable(maxHeaderTableSize);
      this.maxHeaderSize := maxHeaderSize;
      maxDynamicTableSize, encoderMaxDynamicTableSize, maxDynamicTableSizeChangeRequired := maxHeaderTableSize, maxHeaderTableSize, false;
      state, index, headerSize, indexType, huffmanEncoded := ReadHeaderRepresentation, 0, 0, NotIndexed, false;
      name, skipLength, nameLength, valueLength := [], 0, 0, 0;
    }

    method EndHeaderBlock() returns (truncated: bool)
      modifies this`headerSize, this`state, this`indexType
      ensures truncated == (old(headerSize) > maxHeaderSize) && Abs() == old(Abs()).Reset()
      ensures Ready(old(Abs())) ==> Ready(Abs())
    {
      truncated := headerSize > maxHeaderSize;
      headerSize := 0;
      state := ReadHeaderRepresentation;
      indexType := NotIndexed;
    }

    // ---- the actions shared by the states

    method AddHeader(listener: HeaderListener, name: seq<Byte>, value: seq<Byte>, sensitive: bool)
      modifies this`headerSize, listener`headers
      ensures var r := HpackDecode.AddHeader(old(Abs()), name, value, sensitive);
              Abs() == r.0 && listener.headers == old(listener.headers) + r.1
    {
      var newSize := headerSize + |name| + |value|;
      if newSize <= maxHeaderSize {
        listener.AddHeader(name, value, sensitive);
        headerSize := newSize;
      } else {
        headerSize := maxHeaderSize + 1;
      }
    }

    method InsertHeader(listener: HeaderListener, name: seq<Byte>, value: seq<Byte>)
      requires Valid()
      modifies this`headerSize, listener`headers, dynamicTable, dynamicTable.headerFields
      ensures Valid() && dynamicTable.headerFields == old(dynamicTable.headerFields)
      ensures old(Abs()).table.Valid()
      ensures var r := HpackDecode.InsertHeader(old(Abs()), name, value);
              Abs() == r.0 && listener.headers == old(listener.headers) + r.1
    {
      hide HuffmanTree.HuffmanDecoder.Valid, DT.Table.Add, DT.Table.Valid, DT.DynamicTable.Ring;
      dynamicTable.AbsIsValid();
      Apart(null, listener, dynamicTable.headerFields);
      AddHeader(listener, name, value, indexType == NeverIndexed);
      if indexType == Incremental {
        dynamicTable.Add(Field(name, value));
      }
    }

    method SetMaxHeaderTableSize(n: nat) returns (ok: bool)
      requires Valid()
      modifies this`maxDynamicTableSize, this`maxDynamicTableSizeChangeRequired, dynamicTable, dynamicTable.headerFields
      ensures dynamicTable.headerFields == old(dynamicTable.headerFields) || fresh(dynamicTable.headerFields)
      ensures old(Abs()).table.Valid()
      ensures ok == (n >= encoderMaxDynamicTableSize || old(Abs()).table.ResizeOutcome(n) == DT.Kept)
      ensures ok ==> Valid() && Abs() == TableSize.SetMaximum(old(Abs()), n)
    {
      hide HuffmanTree.HuffmanDecoder.Valid, DT.Table.Resize, DT.Table.ResizeOutcome, DT.Table.Valid, DT.DynamicTable.Ring;
      dynamicTable.AbsIsValid();
      Apart(null, null, dynamicTable.headerFields);
      maxDynamicTableSize := n;
      ok := true;
      if maxDynamicTableSize < encoderMaxDynamicTableSize {
        maxDynamicTableSizeChangeRequired := true;
        var outcome := dynamicTable.SetCapacity(n);
        ok := outcome == DT.Kept;
      }
    }

    method SetDynamicTableSize(size: nat) returns (ok: bool)
      requires Valid()
      modifies this`encoderMaxDynamicTableSize, this`maxDynamicTableSizeChangeRequired, dynamicTable, dynamicTable.headerFields
      ensures dynamicTable.headerFields == old(dynamicTable.headerFields) || fresh(dynamicTable.headerFields)
      ensures old(Abs()).table.Valid() && ok == (old(Abs()).table.ResizeOutcome(size) == DT.Kept)
      ensures ok ==> Valid() && Abs() == old(Abs()).(encoderMaxDynamicTableSize := size, maxDynamicTableSizeChangeRequired := false,
                                                     table := old(Abs()).table.Resize(size))
    {
      hide HuffmanTree.HuffmanDecoder.Valid, DT.Table.Resize, DT.Table.ResizeOutcome, DT.Table.Valid, DT.DynamicTable.Ring;
      dynamicTable.AbsIsValid();
      Apart(null, null, dynamicTable.headerFields);
      encoderMaxDynamicTableSize := size;
      maxDynamicTableSizeChangeRequired := false;
      var outcome := dynamicTable.SetCapacity(size);
      ok := outcome == DT.Kept;
    }

    /** getEntry on whichever table the index points into. */
    method Entry(i: nat) returns (f: Option<Field>)
      requires Valid() && i >= 1
      ensures Abs().table.Valid() && f == FieldAt(codec, Abs().table, i)
    {
      hide HuffmanTree.HuffmanDecoder.Valid;
      dynamicTable.AbsIsValid();
      if i <= |staticTable| {
        f := Some(staticTable[i - 1]);
      } else if i - |staticTable| <= dynamicTable.Length() {
        var e := dynamicTable.GetEntry(i - |staticTable|);
        f := Some(e);
      } else {
        f := None;
      }
    }

    method ReadName(i: nat) returns (ok: bool)
      requires Valid() && i >= 1
      modifies this`name
      ensures var f := FieldAt(codec, old(Abs()).table, i);
              ok == f.Some? && Abs() == if ok then old(Abs()).(name := f.value.name) else old(Abs())
    {
      hide HuffmanTree.HuffmanDecoder.Valid, DT.DynamicTable.Valid, FieldAt;
      var f := Entry(i);
      ok := f.Some?;
      if ok {
        name := f.value.name;
      }
    }

    method IndexHeader(i: nat, listener: HeaderListener) returns (ok: bool)
      requires Valid() && i >= 1
      modifies this`headerSize, listener`headers
      ensures var f := FieldAt(codec, old(Abs()).table, i);
              if f.None? then !ok && Abs() == old(Abs()) && listener.headers == old(listener.headers)
              else var r := HpackDecode.AddHeader(old(Abs()), f.value.name, f.value.value, false);
                   ok && Abs() == r.0 && listener.headers == old(listener.headers) + r.1
    {
      hide HuffmanTree.HuffmanDecoder.Valid, DT.DynamicTable.Valid, FieldAt, HpackDecode.AddHeader;
      var f := Entry(i);
      ok := f.Some?;
      if ok {
        AddHeader(listener, f.value.name, f.value.value, false);
      }
    }

    method ExceedsMaxHeaderSize(size: int) returns (exceeds: bool)
      modifies this`headerSize
      ensures exceeds == Exceeds(old(Abs()), size)
      ensures Abs() == if exceeds then old(Abs()).(headerSize := maxHeaderSize + 1) else old(Abs())
    {
      if size + headerSize <= maxHeaderSize {
        return false;
      }
      headerSize := maxHeaderSize + 1;
      return true;
    }

    method ReadStringLiteral(input: ByteBuffer.Bytes, length: nat) returns (r: StringResult)
      requires Parts() && input.position + length <= |input.data|
      modifies input`position
      ensures Parts() && input.position == old(input.position) + length
      ensures r == StringLiteral(codec, huffmanEncoded, input.data[old(input.position)..old(input.position) + length])
    {
      hide HuffmanTree.HuffmanDecoder.Valid, HuffmanDecode.Decode, HuffmanCode.WellFormed;
      Apart(input, null, dynamicTable.headerFields);
      var read := input.ExportBytes(length);
      if huffmanEncoded {
        var text := huffman.Decode(read);
        match text {
          case Text(s) => r := Bytes(s);
          case EosDecoded => r := Failed(Threw(HuffmanEosDecoded));
          case InvalidPadding => r := Failed(Threw(HuffmanInvalidPadding));
          case Trap => r := Failed(Crashed);
        }
      } else {
        r := Bytes(read);
      }
    }

    // ---- the cases of decode's switch

    /** What the low bits of a literal's first byte lead to. */
    method LiteralNameIndex(max: nat, ghost pos: nat) returns (flow: Flow)
      requires Valid() && max >= 1
      modifies this`state, this`name
      ensures Valid()
      ensures Follows(LiteralName(codec, old(Abs()), max, pos), flow, pos, [], Abs(), pos, [])
    {
      hide HuffmanTree.HuffmanDecoder.Valid, DT.DynamicTable.Valid, FieldAt;
      Apart(null, null, dynamicTable.headerFields);
      if index == 0 {
        state := ReadLiteralHeaderNameLengthPrefix;
      } else if index == max {
        state := ReadIndexedHeaderName;
      } else {
        var ok := ReadName(index);
        if !ok {
          return Fail(Threw(IllegalIndexValue));
        }
        state := ReadLiteralHeaderValueLengthPrefix;
      }
      flow := Continue;
    }

    /** An indexed header: the top bit is set. */
    method ReadIndexed(b: Byte, ghost pos: nat, listener: HeaderListener) returns (flow: Flow)
      requires Valid() && b >= 128 && state == ReadHeaderRepresentation
      modifies this`index, this`state, this`headerSize, listener`headers
      ensures Valid()
      ensures Follows(IndexedByte(codec, old(Abs()), b, pos), flow, pos, old(listener.headers), Abs(), pos, listener.headers)
    {
      hide HuffmanTree.HuffmanDecoder.Valid, DT.DynamicTable.Valid, FieldAt, HpackDecode.AddHeader;
      Apart(null, listener, dynamicTable.headerFields);
      index := b % 128;
      if index == 0 {
        return Fail(Threw(IllegalIndexValue));
      } else if index == 0x7F {
        state := ReadIndexedHeader;
      } else {
        var ok := IndexHeader(index, listener);
        if !ok {
          return Fail(Threw(IllegalIndexValue));
        }
      }
      flow := Continue;
    }

    /** A dynamic table size update. */
    method ReadSizeUpdate(b: Byte, ghost pos: nat) returns (flow: Flow)
      requires Valid() && 32 <= b < 64
      modifies this, dynamicTable, dynamicTable.headerFields
      ensures flow != Fail(Crashed) ==> Valid()
      ensures dynamicTable.headerFields == old(dynamicTable.headerFields) || fresh(dynamicTable.headerFields)
      ensures old(Abs()).table.Valid()
      ensures Follows(SizeByte(old(Abs()), b, pos), flow, pos, [], Abs(), pos, [])
    {
      hide HuffmanTree.HuffmanDecoder.Valid, DT.DynamicTable.Valid, DT.Table.Valid, DT.Table.Resize, DT.Table.ResizeOutcome;
      Apart(null, null, dynamicTable.headerFields);
      dynamicTable.AbsIsValid();
      index := b % 32;
      if index == 0x1F {
        state := ReadMaxDynamicTableSize;
      } else {
        var ok := SetDynamicTableSize(index);
        if !ok {
          return Fail(Crashed);
        }
        state := ReadHeaderRepresentation;
      }
      flow := Continue;
    }

    method ReadRepresentation(input: ByteBuffer.Bytes, listener: HeaderListener) returns (flow: Flow)
      requires Valid() && Ready(Abs()) && state == ReadHeaderRepresentation && input.position < |input.data|
      modifies this, input`position, listener`headers, dynamicTable, dynamicTable.headerFields
      ensures flow != Fail(Crashed) ==> Valid()
      ensures dynamicTable.headerFields == old(dynamicTable.headerFields) || fresh(dynamicTable.headerFields)
      ensures Follows(FirstByte(codec, old(Abs()), input.data[old(input.position)], old(input.position) + 1), flow,
                      old(input.position), old(listener.headers), Abs(), input.position, listener.headers)
    {
      hide HuffmanTree.HuffmanDecoder.Valid, DT.DynamicTable.Valid, DT.Table.Valid, IndexedByte, SizeByte, LiteralName;
      Apart(input, listener, dynamicTable.headerFields);
      var b := input.Export8Bits();
      if maxDynamicTableSizeChangeRequired && b / 32 != 1 {
        return Fail(Threw(MaxDynamicTableSizeChangeRequested));
      }
      if b >= 128 {
        flow := ReadIndexed(b, input.position, listener);
      } else if b >= 64 {
        indexType := Incremental;
        index := b % 64;
        flow := LiteralNameIndex(0x3F, input.position);
      } else if b >= 32 {
        flow := ReadSizeUpdate(b, input.position);
      } else {
        indexType := if b >= 16 then NeverIndexed else NotIndexed;
        index := b % 16;
        flow := LiteralNameIndex(0x0F, input.position);
      }
    }

    /** The name's length is known: read it, or skip what will not be delivered. */
    method NameLengthRead()
      requires Valid() && nameLength >= 0
      modifies this, dynamicTable, dynamicTable.headerFields
      ensures Valid() && dynamicTable.headerFields == old(dynamicTable.headerFields)
      ensures Abs() == NameLengthKnown(old(Abs()), old(nameLength))
    {
      hide HuffmanTree.HuffmanDecoder.Valid, DT.DynamicTable.Ring;
      Apart(null, null, dynamicTable.headerFields);
      var exceeds := ExceedsMaxHeaderSize(nameLength);
      if exceeds {
        if indexType == NotIndexed {
          name := [];
          skipLength := nameLength;
          state := SkipLiteralHeaderName;
          return;
        }
        if nameLength + OVERHEAD > dynamicTable.capacity {
          dynamicTable.Clear();
          name := [];
          skipLength := nameLength;
          state := SkipLiteralHeaderName;
          return;
        }
      }
      state := ReadLiteralHeaderName;
    }

    /** The value's length is known; false when the value is to be skipped. */
    method ValueLengthRead() returns (read: bool)
      requires Valid() && valueLength >= 0
      modifies this, dynamicTable, dynamicTable.headerFields
      ensures Valid() && dynamicTable.headerFields == old(dynamicTable.headerFields)
      ensures (Abs(), read) == ValueLengthKnown(old(Abs()), old(valueLength))
    {
      hide HuffmanTree.HuffmanDecoder.Valid, DT.DynamicTable.Ring;
      Apart(null, null, dynamicTable.headerFields);
      var newHeaderSize := nameLength + valueLength;
      var exceeds := ExceedsMaxHeaderSize(newHeaderSize);
      if exceeds {
        if indexType == NotIndexed {
          state := SkipLiteralHeaderValue;
          return false;
        }
        if newHeaderSize + OVERHEAD > dynamicTable.capacity {
          dynamicTable.Clear();
          state := SkipLiteralHeaderValue;
          return false;
        }
      }
      return true;
    }

    method ReadNameLengthPrefix(input: ByteBuffer.Bytes) returns (flow: Flow)
      requires Valid() && input.position < |input.data|
      modifies this, input`position, dynamicTable, dynamicTable.headerFields
      ensures Valid() && dynamicTable.headerFields == old(dynamicTable.headerFields)
      ensures Follows(NameLengthPrefix(old(Abs()), input.data[old(input.position)], old(input.position) + 1), flow,
                      old(input.position), [], Abs(), input.position, [])
    {
      hide HuffmanTree.HuffmanDecoder.Valid, DT.DynamicTable.Valid, NameLengthKnown;
      Apart(input, null, dynamicTable.headerFields);
      var b := input.Export8Bits();
      huffmanEncoded := b >= 128;
      index := b % 128;
      if index == 0x7F {
        state := ReadLiteralHeaderNameLength;
      } else {
        nameLength := index;
        if nameLength == 0 {
          return Fail(Threw(DecompressionException));
        }
        HpackStream.NameLengthSame(old(Abs()).(huffmanEncoded := huffmanEncoded, index := index), index, index);
        NameLengthRead();
      }
      flow := Continue;
    }

    /** An empty value ends the header at once. */
    method BeginValue(listener: HeaderListener)
      requires Valid()
      modifies this`headerSize, this`state, listener`headers, dynamicTable, dynamicTable.headerFields
      ensures Valid() && old(Abs()).table.Valid() && dynamicTable.headerFields == old(dynamicTable.headerFields)
      ensures var d := old(Abs());
              if d.valueLength != 0 then Abs() == d.(state := ReadLiteralHeaderValue) && listener.headers == old(listener.headers)
              else var r := HpackDecode.InsertHeader(d, d.name, []);
                   Abs() == r.0.(state := ReadHeaderRepresentation) && listener.headers == old(listener.headers) + r.1
    {
      hide HuffmanTree.HuffmanDecoder.Valid, DT.DynamicTable.Valid, DT.Table.Valid, HpackDecode.InsertHeader;
      Apart(null, listener, dynamicTable.headerFields);
      dynamicTable.AbsIsValid();
      if valueLength == 0 {
        InsertHeader(listener, name, []);
        state := ReadHeaderRepresentation;
      } else {
        state := ReadLiteralHeaderValue;
      }
    }

    method ReadValueLengthPrefix(input: ByteBuffer.Bytes, listener: HeaderListener) returns (flow: Flow)
      requires Valid() && input.position < |input.data|
      modifies this, input`position, listener`headers, dynamicTable, dynamicTable.headerFields
      ensures Valid() && old(Abs()).table.Valid() && dynamicTable.headerFields == old(dynamicTable.headerFields)
      ensures Follows(ValueLengthPrefix(old(Abs()), input.data[old(input.position)], old(input.position) + 1), flow,
                      old(input.position), old(listener.headers), Abs(), input.position, listener.headers)
    {
      hide HuffmanTree.HuffmanDecoder.Valid, DT.DynamicTable.Valid, DT.Table.Valid, ValueLengthKnown, HpackDecode.InsertHeader;
      hide ValueLengthPrefix, Settled, Ready;
      Apart(input, listener, dynamicTable.headerFields);
      dynamicTable.AbsIsValid();
      HpackStream.ValuePrefixRead(Abs(), input.data[input.position], input.position + 1);
      var b := input.Export8Bits();
      huffmanEncoded := b >= 128;
      index := b % 128;
      if index == 0x7F {
        state := ReadLiteralHeaderValueLength;
      } else {
        StoreShortLength(listener);
      }
      flow := Continue;
    }

    /** The value's length is known from its prefix. */
    method StoreShortLength(listener: HeaderListener)
      requires Valid()
      modifies this, listener`headers, dynamicTable, dynamicTable.headerFields
      ensures Valid() && dynamicTable.headerFields == old(dynamicTable.headerFields)
      ensures var (d, read) := ValueLengthKnown(old(Abs()), old(index));
              if !read then Abs() == d && listener.headers == old(listener.headers)
              else if old(index) != 0 then Abs() == d.(state := ReadLiteralHeaderValue) && listener.headers == old(listener.headers)
              else
                d.table.Valid()
                && var r := HpackDecode.InsertHeader(d, d.name, []);
                   Abs() == r.0.(state := ReadHeaderRepresentation) && listener.headers == old(listener.headers) + r.1
    {
      hide HuffmanTree.HuffmanDecoder.Valid, DT.DynamicTable.Valid, DT.Table.Valid, ValueLengthKnown, HpackDecode.InsertHeader;
      Apart(null, listener, dynamicTable.headerFields);
      valueLength := index;
      HpackStream.ValueLengthSame(old(Abs()), index, index);
      var read := ValueLengthRead();
      if read {
        BeginValue(listener);
      }
    }

    method ReadSize(input: ByteBuffer.Bytes) returns (flow: Flow)
      requires Valid() && Ready(Abs()) && state == ReadMaxDynamicTableSize && input.position < |input.data|
      modifies this, input`position, dynamicTable, dynamicTable.headerFields
      ensures flow != Fail(Crashed) ==> Valid()
      ensures dynamicTable.headerFields == old(dynamicTable.headerFields) || fresh(dynamicTable.headerFields)
      ensures Follows(ReadInteger(codec, old(Abs()), input.data, old(input.position)), flow,
                      old(input.position), [], Abs(), input.position, [])
    {
      hide HuffmanTree.HuffmanDecoder.Valid, DT.DynamicTable.Valid, DT.Table.Valid, DecodeULE, DT.Table.Resize, DT.Table.ResizeOutcome;
      Apart(input, null, dynamicTable.headerFields);
      var ok, maxSize := DecodeULE128(input);
      if !ok {
        return Fail(Threw(DecompressionException));
      }
      if maxSize == -1 {
        return Return;
      }
      if maxSize > INDEX_MAX - index {
        return Fail(Threw(DecompressionException));
      }
      var kept := SetDynamicTableSize(index + maxSize);
      if !kept {
        return Fail(Crashed);
      }
      state := ReadHeaderRepresentation;
      flow := Continue;
    }

    method ReadHeaderIndex(input: ByteBuffer.Bytes, listener: HeaderListener) returns (flow: Flow)
      requires Valid() && Ready(Abs()) && state == ReadIndexedHeader && input.position < |input.data|
      modifies this`headerSize, this`state, input`position, listener`headers
      ensures Valid()
      ensures Follows(ReadInteger(codec, old(Abs()), input.data, old(input.position)), flow,
                      old(input.position), old(listener.headers), Abs(), input.position, listener.headers)
    {
      hide HuffmanTree.HuffmanDecoder.Valid, DT.DynamicTable.Valid, DT.Table.Valid, DecodeULE, ReadInteger, FieldAt, HpackDecode.AddHeader;
      Apart(input, listener, dynamicTable.headerFields);
      HpackStream.HeaderIntegerRead(codec, Abs(), input.data, input.position);
      var ok, headerIndex := DecodeULE128(input);
      if !ok {
        return Fail(Threw(DecompressionException));
      }
      if headerIndex == -1 {
        return Return;
      }
      if headerIndex > INDEX_MAX - index {
        return Fail(Threw(DecompressionException));
      }
      var found := IndexHeader(index + headerIndex, listener);
      if !found {
        return Fail(Threw(IllegalIndexValue));
      }
      state := ReadHeaderRepresentation;
      flow := Continue;
    }

    method ReadNameIndex(input: ByteBuffer.Bytes) returns (flow: Flow)
      requires Valid() && Ready(Abs()) && state == ReadIndexedHeaderName && input.position < |input.data|
      modifies this`name, this`state, input`position
      ensures Valid()
      ensures Follows(ReadInteger(codec, old(Abs()), input.data, old(input.position)), flow,
                      old(input.position), [], Abs(), input.position, [])
    {
      hide HuffmanTree.HuffmanDecoder.Valid, DT.DynamicTable.Valid, DT.Table.Valid, DecodeULE, FieldAt;
      Apart(input, null, dynamicTable.headerFields);
      var ok, nameIndex := DecodeULE128(input);
      if !ok {
        return Fail(Threw(DecompressionException));
      }
      if nameIndex == -1 {
        return Return;
      }
      if nameIndex > INDEX_MAX - index {
        return Fail(Threw(DecompressionException));
      }
      var found := ReadName(index + nameIndex);
      if !found {
        return Fail(Threw(IllegalIndexValue));
      }
      state := ReadLiteralHeaderValueLengthPrefix;
      flow := Continue;
    }

    method ReadNameLength(input: ByteBuffer.Bytes) returns (flow: Flow)
      requires Valid() && Ready(Abs()) && state == ReadLiteralHeaderNameLength && input.position < |input.data|
      modifies this, input`position, dynamicTable, dynamicTable.headerFields
      ensures Valid()
      ensures dynamicTable.headerFields == old(dynamicTable.headerFields)
      ensures Follows(ReadInteger(codec, old(Abs()), input.data, old(input.position)), flow,
                      old(input.position), [], Abs(), input.position, [])
    {
      hide HuffmanTree.HuffmanDecoder.Valid, DT.DynamicTable.Valid, DT.Table.Valid, DecodeULE, NameLengthKnown, ReadInteger, Settled;
      Apart(input, null, dynamicTable.headerFields);
      HpackStream.NameIntegerRead(codec, Abs(), input.data, input.position);
      var ok, length := DecodeULE128(input);
      if !ok {
        return Fail(Threw(DecompressionException));
      }
      nameLength := length;
      if nameLength == -1 {
        return Return;
      }
      if nameLength > INDEX_MAX - index {
        return Fail(Threw(DecompressionException));
      }
      nameLength := nameLength + index;
      HpackStream.NameLengthSame(old(Abs()), nameLength, nameLength);
      NameLengthRead();
      flow := Continue;
    }

    method ReadValueLength(input: ByteBuffer.Bytes) returns (flow: Flow)
      requires Valid() && Ready(Abs()) && state == ReadLiteralHeaderValueLength && input.position < |input.data|
      modifies this, input`position, dynamicTable, dynamicTable.headerFields
      ensures Valid()
      ensures dynamicTable.headerFields == old(dynamicTable.headerFields)
      ensures Follows(ReadInteger(codec, old(Abs()), input.data, old(input.position)), flow,
                      old(input.position), [], Abs(), input.position, [])
    {
      hide HuffmanTree.HuffmanDecoder.Valid, DT.DynamicTable.Valid, DT.Table.Valid, DecodeULE, ValueLengthKnown, ReadInteger, Settled;
      Apart(input, null, dynamicTable.headerFields);
      HpackStream.ValueIntegerRead(codec, Abs(), input.data, input.position);
      var ok, length := DecodeULE128(input);
      if !ok {
        return Fail(Threw(DecompressionException));
      }
      valueLength := length;
      if valueLength == -1 {
        return Return;
      }
      if valueLength > INDEX_MAX - index {
        return Fail(Threw(DecompressionException));
      }
      HpackStream.ValueLengthSame(old(Abs()), valueLength, index + valueLength);
      StoreValueLength(valueLength + index);
      flow := Continue;
    }

    /** The value's length is known, behind its prefix. */
    method StoreValueLength(length: nat)
      requires Valid()
      modifies this, dynamicTable, dynamicTable.headerFields
      ensures Valid() && dynamicTable.headerFields == old(dynamicTable.headerFields)
      ensures var (d, read) := ValueLengthKnown(old(Abs()), length);
              Abs() == if read then d.(state := ReadLiteralHeaderValue) else d
    {
      hide HuffmanTree.HuffmanDecoder.Valid, DT.DynamicTable.Valid, DT.Table.Valid, ValueLengthKnown;
      Apart(null, null, dynamicTable.headerFields);
      valueLength := length;
      HpackStream.ValueLengthSame(old(Abs()), length, length);
      var read := ValueLengthRead();
      if read {
        state := ReadLiteralHeaderValue;
      }
    }

    method ReadLiteralName(input: ByteBuffer.Bytes) returns (flow: Flow)
      requires Valid() && nameLength >= 0 && input.position < |input.data|
      modifies this`name, this`state, input`position
      ensures Valid()
      ensures Follows(ReadNameLiteral(codec, old(Abs()), input.data, old(input.position)), flow,
                      old(input.position), [], Abs(), input.position, [])
    {
      hide HuffmanTree.HuffmanDecoder.Valid, DT.DynamicTable.Valid, StringLiteral;
      Apart(input, null, dynamicTable.headerFields);
      if input.AvailableExportBytes() < nameLength {
        return Return;
      }
      var r := ReadStringLiteral(input, nameLength);
      match r {
        case Failed(outcome) => flow := Fail(outcome);
        case Bytes(s) =>
          name := s;
          state := ReadLiteralHeaderValueLengthPrefix;
          flow := Continue;
      }
    }

    method ReadLiteralValue(input: ByteBuffer.Bytes, listener: HeaderListener) returns (flow: Flow)
      requires Valid() && valueLength >= 0 && input.position < |input.data|
      modifies this`headerSize, this`state, input`position, listener`headers, dynamicTable, dynamicTable.headerFields
      ensures Valid() && old(Abs()).table.Valid() && dynamicTable.headerFields == old(dynamicTable.headerFields)
      ensures Follows(ReadValueLiteral(codec, old(Abs()), input.data, old(input.position)), flow,
                      old(input.position), old(listener.headers), Abs(), input.position, listener.headers)
    {
      hide HuffmanTree.HuffmanDecoder.Valid, DT.DynamicTable.Valid, StringLiteral, HpackDecode.InsertHeader;
      Apart(input, listener, dynamicTable.headerFields);
      dynamicTable.AbsIsValid();
      if input.AvailableExportBytes() < valueLength {
        return Return;
      }
      var r := ReadStringLiteral(input, valueLength);
      match r {
        case Failed(outcome) => flow := Fail(outcome);
        case Bytes(s) =>
          InsertHeader(listener, name, s);
          state := ReadHeaderRepresentation;
          flow := Continue;
      }
    }

    method SkipLiteralName(input: ByteBuffer.Bytes)
      requires Valid() && state == SkipLiteralHeaderName && input.position < |input.data|
      modifies this`skipLength, this`state, input`position
      ensures Valid()
      ensures Follows(SkipName(old(Abs()), |input.data| - old(input.position), old(input.position)), Continue,
                      old(input.position), [], Abs(), input.position, [])
    {
      hide HuffmanTree.HuffmanDecoder.Valid, DT.DynamicTable.Valid;
      Apart(input, null, dynamicTable.headerFields);
      var toSkip := Min(skipLength, input.AvailableExportBytes());
      input.position := input.position + toSkip;
      skipLength := skipLength - toSkip;
      if skipLength == 0 {
        state := ReadLiteralHeaderValueLengthPrefix;
      }
    }

    method SkipLiteralValue(input: ByteBuffer.Bytes)
      requires Valid() && state == SkipLiteralHeaderValue && valueLength >= 0 && input.position < |input.data|
      modifies this`valueLength, this`state, input`position
      ensures Valid()
      ensures Follows(SkipValue(old(Abs()), |input.data| - old(input.position), old(input.position)), Continue,
                      old(input.position), [], Abs(), input.position, [])
    {
      hide HuffmanTree.HuffmanDecoder.Valid, DT.DynamicTable.Valid;
      Apart(input, null, dynamicTable.headerFields);
      var toSkip := Min(valueLength, input.AvailableExportBytes());
      input.position := input.position + toSkip;
      valueLength := valueLength - toSkip;
      if valueLength == 0 {
        state := ReadHeaderRepresentation;
      }
    }

    /** One turn of decode's loop. */
    method Switch(input: ByteBuffer.Bytes, listener: HeaderListener) returns (flow: Flow)
      requires Valid() && Ready(Abs()) && input.position < |input.data|
      modifies this, input`position, listener`headers, dynamicTable, dynamicTable.headerFields
      ensures flow != Fail(Crashed) ==> Valid()
      ensures dynamicTable.headerFields == old(dynamicTable.headerFields) || fresh(dynamicTable.headerFields)
      ensures Follows(Turn(codec, old(Abs()), input.data, old(input.position)), flow,
                      old(input.position), old(listener.headers), Abs(), input.position, listener.headers)
    {
      hide HuffmanTree.HuffmanDecoder.Valid, DT.DynamicTable.Valid, DT.Table.Valid, HuffmanCode.WellFormed;
      hide FirstByte, NameLengthPrefix, ValueLengthPrefix, ReadInteger, ReadNameLiteral, ReadValueLiteral, SkipName, SkipValue;
      Apart(input, listener, dynamicTable.headerFields);
      match state {
        case ReadHeaderRepresentation => flow := ReadRepresentation(input, listener);
        case ReadMaxDynamicTableSize => flow := ReadSize(input);
        case ReadIndexedHeader => flow := ReadHeaderIndex(input, listener);
        case ReadIndexedHeaderName => flow := ReadNameIndex(input);
        case ReadLiteralHeaderNameLengthPrefix => flow := ReadNameLengthPrefix(input);
        case ReadLiteralHeaderNameLength => flow := ReadNameLength(input);
        case ReadLiteralHeaderName => flow := ReadLiteralName(input);
        case SkipLiteralHeaderName => SkipLiteralName(input); flow := Continue;
        case ReadLiteralHeaderValueLengthPrefix => flow := ReadValueLengthPrefix(input, listener);
        case ReadLiteralHeaderValueLength => flow := ReadValueLength(input);
        case ReadLiteralHeaderValue => flow := ReadLiteralValue(input, listener);
        case SkipLiteralHeaderValue => SkipLiteralValue(input); flow := Continue;
      }
    }

    /** Decodes what is in the buffer, telling the listener of each header as it is complete. */
    method Decode(input: ByteBuffer.Bytes, listener: HeaderListener) returns (outcome: Outcome)
      requires Valid() && Ready(Abs()) && input.Valid()
      modifies this, input`position, listener`headers, dynamicTable, dynamicTable.headerFields
      ensures outcome != Crashed ==> Valid()
      ensures dynamicTable.headerFields == old(dynamicTable.headerFields) || fresh(dynamicTable.headerFields)
      ensures var r := HpackDecode.Decode(codec, old(Abs()), input.data, old(input.position));
              outcome == r.outcome && input.position == r.pos && listener.headers == old(listener.headers) + r.out
              && (outcome != Crashed ==> Abs() == r.d)
    {
      hide Valid, Ready, Turn, HpackDecode.Decode, Run.After;
      Sound();
      ghost var data, heard := input.data, [];
      ghost var r := HpackDecode.Decode(codec, Abs(), data, input.position);
      HpackStream.AfterNothing(r);
      while input.AvailableExportBytes() > 0
        invariant Valid() && Ready(Abs()) && input.Valid() && input.data == data
        invariant dynamicTable.headerFields == old(dynamicTable.headerFields) || fresh(dynamicTable.headerFields)
        invariant listener.headers == old(listener.headers) + heard
        invariant r == HpackDecode.Decode(codec, Abs(), data, input.position).After(heard)
        decreases |data| - input.position, Pending(Abs())
      {
        ghost var s := Turn(codec, Abs(), data, input.position);
        Goes(codec, Abs(), data, input.position, heard);
        var flow := Switch(input, listener);
        match flow {
          case Continue => heard := heard + s.out;
          case Return => return Done;
          case Fail(o) => return o;
        }
      }
      Ends(codec, Abs(), data, heard);
      outcome := Done;
    }

    lemma Sound()
      requires Valid()
      ensures codec.WellFormed()
    {
    }
  }

  /** What the loop has heard so far, and one more turn. */
  lemma Goes(c: Codec, d: Decoder, data: seq<Byte>, pos: nat, heard: seq<Header>)
    requires c.WellFormed() && Ready(d) && pos < |data|
    ensures var s, r := Turn(c, d, data, pos), HpackDecode.Decode(c, d, data, pos).After(heard);
            if s.Wait? then r == Run(s.d, pos, heard, Done)
            else if s.Next? then
              && Ready(s.d) && pos <= s.pos <= |data| && (pos < s.pos || Pending(s.d) < Pending(d))
              && r == HpackDecode.Decode(c, s.d, data, s.pos).After(heard + s.out)
            else s.outcome != Done && r == Run(s.d, s.pos, heard, s.outcome)
  {
    hide Turn, Ready, HpackDecode.Decode;
    HpackStream.DecodeTurn(c, d, data, pos);
  }

  lemma Ends(c: Codec, d: Decoder, data: seq<Byte>, heard: seq<Header>)
    requires c.WellFormed() && Ready(d)
    ensures HpackDecode.Decode(c, d, data, |data|).After(heard) == Run(d, |data|, heard, Done)
  {
  }
}
