// The encoder itself: encodeHeader over the bucket table, the static table and the
// Huffman coder, each call equal to the specification's Encode.
module HpackEncoder {
  import opened Words
  import opened ByteBuffer
  import opened HeaderTable
  import opened PrefixInteger
  import opened HpackFormat
  import HuffmanCode
  import ET = EncoderTable
  import Static = StaticTable
  import TableSize

  // ---- encodeHeader's branches, one by one

  lemma ChooseSensitive(c: Codec, e: Encoder, f: Field, incrementalIndexing: bool)
    requires c.WellFormed()
    ensures Encode(c, e, f, true, incrementalIndexing) == (LiteralBytes(c, f, NeverIndexed, e.NameIndex(c, f.name)), e)
  {
    hide LiteralBytes, IndexedBytes;
  }

  lemma ChooseWithoutTable(c: Codec, e: Encoder, f: Field, incrementalIndexing: bool)
    requires c.WellFormed() && e.capacity == 0
    ensures var i := Static.FieldIndex(c.staticTable, f);
            Encode(c, e, f, false, incrementalIndexing) ==
            (if i == -1 then LiteralBytes(c, f, NotIndexed, Static.NameIndex(c.staticTable, f.name)) else IndexedBytes(i), e)
  {
    hide LiteralBytes, IndexedBytes;
  }

  lemma ChooseTooLarge(c: Codec, e: Encoder, f: Field, incrementalIndexing: bool)
    requires c.WellFormed() && e.capacity != 0 && f.Size() > e.capacity
    ensures Encode(c, e, f, false, incrementalIndexing) == (LiteralBytes(c, f, NotIndexed, e.NameIndex(c, f.name)), e)
  {
    hide LiteralBytes, IndexedBytes;
  }

  lemma ChooseEntry(c: Codec, e: Encoder, f: Field, incrementalIndexing: bool)
    requires c.WellFormed() && e.capacity != 0 && f.Size() <= e.capacity
    requires ET.LookupField(e.table.fields, f) >= 0
    ensures var i := e.EntryIndex(c, ET.LookupField(e.table.fields, f));
            i >= 0 && Encode(c, e, f, false, incrementalIndexing) == (IndexedBytes(i), e)
  {
    hide LiteralBytes, IndexedBytes;
  }

  lemma ChooseMissing(c: Codec, e: Encoder, f: Field, incrementalIndexing: bool)
    requires c.WellFormed() && e.capacity != 0 && f.Size() <= e.capacity
    requires ET.LookupField(e.table.fields, f) < 0
    ensures var i := Static.FieldIndex(c.staticTable, f); var r := Encode(c, e, f, false, incrementalIndexing);
            if i != -1 then r == (IndexedBytes(i), e)
            else r == (LiteralBytes(c, f, if incrementalIndexing then Incremental else NotIndexed, e.NameIndex(c, f.name)),
                       e.(table := e.table.Evicted(e.capacity - f.Size()).Added(e.capacity, f)))
  {
    hide LiteralBytes, IndexedBytes;
  }

  class HPACKEncoder {
    ghost const codec: Codec
    const huffman: HuffmanCode.HuffmanEncoder
    const staticTable: Static.StaticTable
    const table: ET.EncoderTable

    ghost predicate Valid()
      reads table, table.head, table.entries, table.headerFields
    {
      && codec.WellFormed()
      && huffman.table == codec.huffman && staticTable.Valid() && staticTable.table == codec.staticTable
      && table.Valid()
    }

    ghost function Abs(): Encoder
      reads table, table.entries
    {
      Encoder(table.Abs(), table.capacity)
    }

    constructor (c: Codec, maxCapacity: nat, hash: seq<Byte> -> nat)
      requires c.WellFormed()
      ensures Valid() && codec == c && Abs() == Encoder(ET.State([], ET.INDEX_MAX), maxCapacity)
      ensures fresh(table) && fresh(table.head) && fresh(table.headerFields)
    {
      codec := c;
      huffman := new HuffmanCode.HuffmanEncoder(c.huffman);
      staticTable := new Static.StaticTable(c.staticTable);
      table := new ET.EncoderTable(maxCapacity, hash);
    }

    method GetNameIndex(name: seq<Byte>) returns (index: int)
      requires Valid()
      ensures index == Abs().NameIndex(codec, name) && index >= -1
    {
      index := staticTable.GetIndex(name);
      if index == -1 {
        index := table.GetIndex(name);
        if index >= 0 {
          index := index + |staticTable.table|;
        }
      }
    }

    method EncodeStringLiteral(out: Bytes, text: seq<Byte>)
      requires Valid()
      modifies out`data
      ensures out.data == old(out.data) + StringBytes(codec, text)
    {
      hide IntegerBytes, HuffmanCode.Encoding, HuffmanCode.EncodedLength, HuffmanCode.WellFormed, ET.EncoderTable.Valid;
      PrefixesAreValid();
      var huffmanLength := huffman.GetEncodedLength(text);
      if huffmanLength < |text| {
        EncodeInteger(out, 0x80, 7, huffmanLength);
        var input := new Bytes.FromExisting(text);
        assert text[0..] == text;
        huffman.Encode(out, input);
      } else {
        EncodeInteger(out, 0x00, 7, |text|);
        out.ImportBytes(text);
      }
    }

    method EncodeLiteral(out: Bytes, name: seq<Byte>, value: seq<Byte>, indexType: IndexType, nameIndex: int)
      requires Valid() && nameIndex >= -1
      modifies out`data
      ensures out.data == old(out.data) + LiteralBytes(codec, Field(name, value), indexType, nameIndex)
    {
      hide IntegerBytes, StringBytes, HuffmanCode.WellFormed, ET.EncoderTable.Valid;
      PrefixesAreValid();
      var mask, prefixBits := 0, 0;
      match indexType {
        case Incremental => mask, prefixBits := 0x40, 6;
        case NotIndexed => mask, prefixBits := 0x00, 4;
        case NeverIndexed => mask, prefixBits := 0x10, 4;
      }
      EncodeInteger(out, mask, prefixBits, if nameIndex == -1 then 0 else nameIndex);
      if nameIndex == -1 {
        EncodeStringLiteral(out, name);
      }
      EncodeStringLiteral(out, value);
      ghost var f := Field(name, value);
      assert LiteralBytes(codec, f, indexType, nameIndex) ==
             IntegerBytes(mask, prefixBits, if nameIndex == -1 then 0 else nameIndex)
             + (if nameIndex == -1 then StringBytes(codec, name) else []) + StringBytes(codec, value);
    }

    lemma Parts()
      requires Valid()
      ensures codec.WellFormed() && huffman.table == codec.huffman && table.Valid()
      ensures staticTable.Valid() && staticTable.table == codec.staticTable
    {
    }

    /** Only the dynamic table changes. */
    twostate lemma StillValid()
      requires old(Valid()) && table.Valid()
      ensures Valid()
    {
    }

    /** With no dynamic table. */
    method EncodeWithoutTable(out: Bytes, name: seq<Byte>, value: seq<Byte>, ghost incrementalIndexing: bool)
      requires Valid() && table.capacity == 0
      modifies out`data
      ensures out.data == old(out.data) + Encode(codec, Abs(), Field(name, value), false, incrementalIndexing).0
      ensures Abs() == Encode(codec, Abs(), Field(name, value), false, incrementalIndexing).1
    {
      hide Valid, Choose, Encode, LiteralBytes, ET.EncoderTable.Valid, Static.StaticTable.Valid;
      hide Static.FieldIndex, Static.NameIndex, HuffmanCode.WellFormed, IntegerBytes;
      Parts();
      PrefixesAreValid();
      ChooseWithoutTable(codec, Abs(), Field(name, value), incrementalIndexing);
      var staticTableIndex := staticTable.GetFieldIndex(Field(name, value));
      if staticTableIndex == -1 {
        var nameIndex := staticTable.GetIndex(name);
        EncodeLiteral(out, name, value, NotIndexed, nameIndex);
      } else {
        EncodeInteger(out, 0x80, 7, staticTableIndex);
      }
    }

    /** The index written for an entry, from the entry's own index field. */
    lemma EntryPlace(r: nat)
      requires Valid() && r < |table.entries|
      ensures r < |Abs().table.fields|
      ensures var index := table.entries[r].index;
              (if index == -1 then -1 else index - table.Abs().newest + 1) + |staticTable.table| == Abs().EntryIndex(codec, r)
    {
      hide ET.EncoderTable.Valid, ET.Fields, Static.StaticTable.Valid, HuffmanCode.WellFormed;
      table.IndexFieldOf(r);
    }

    /** The field is in the dynamic table. */
    method EncodeEntry(out: Bytes, name: seq<Byte>, value: seq<Byte>, headerField: ET.HeaderEntry, ghost incrementalIndexing: bool)
      requires Valid() && table.capacity != 0 && Field(name, value).Size() <= table.capacity
      requires ET.LookupField(table.Abs().fields, Field(name, value)) >= 0
      requires headerField == table.entries[ET.LookupField(table.Abs().fields, Field(name, value))]
      modifies out`data
      ensures out.data == old(out.data) + Encode(codec, Abs(), Field(name, value), false, incrementalIndexing).0
      ensures Abs() == Encode(codec, Abs(), Field(name, value), false, incrementalIndexing).1
    {
      hide Valid, Choose, Encode, ET.LookupField, IntegerBytes, HuffmanCode.WellFormed;
      hide ET.EncoderTable.Valid, Encoder.EntryIndex, ET.Place, ET.Fields, Static.StaticTable.Valid;
      Parts();
      PrefixesAreValid();
      ChooseEntry(codec, Abs(), Field(name, value), incrementalIndexing);
      EntryPlace(ET.LookupField(table.Abs().fields, Field(name, value)));
      var place := table.PlaceOf(headerField.index);
      var index := place + |staticTable.table|;
      EncodeInteger(out, 0x80, 7, index);
    }

    /** A literal whose field goes into the table, once there is room for it. */
    method EncodeAndAdd(out: Bytes, field: Field, indexType: IndexType, nameIndex: int)
      requires Valid() && nameIndex >= -1
      modifies out`data, table, table.head, table.headerFields, table.entries
      ensures Valid() && table.capacity == old(table.capacity)
      ensures out.data == old(out.data) + LiteralBytes(codec, field, indexType, nameIndex)
      ensures table.Abs() == old(table.Abs()).Evicted(table.capacity - field.Size()).Added(table.capacity, field)
    {
      hide Valid, LiteralBytes, ET.EncoderTable.Valid, HuffmanCode.WellFormed, ET.EncoderTable.Abs, ET.State.Evicted, ET.State.Added;
      Parts();
      table.EnsureCapacity(field.Size());
      StillValid();
      EncodeLiteral(out, field.name, field.value, indexType, nameIndex);
      table.Add(field);
      StillValid();
    }

    /** The field is not in the dynamic table. */
    method EncodeMissing(out: Bytes, name: seq<Byte>, value: seq<Byte>, incrementalIndexing: bool)
      requires Valid() && table.capacity != 0 && Field(name, value).Size() <= table.capacity
      requires ET.LookupField(table.Abs().fields, Field(name, value)) < 0
      modifies out`data, table, table.head, table.headerFields, table.entries
      ensures Valid()
      ensures var r := Encode(codec, old(Abs()), Field(name, value), false, incrementalIndexing);
              out.data == old(out.data) + r.0 && Abs() == r.1
    {
      hide Choose, Encode, LiteralBytes, ET.EncoderTable.Valid, Static.StaticTable.Valid;
      hide Static.FieldIndex, Static.NameIndex, HuffmanCode.WellFormed, IntegerBytes, ET.LookupField, Encoder.NameIndex, Evict;
      hide Valid, ET.Fields, ET.State.Evicted, ET.State.Added;
      Parts();
      PrefixesAreValid();
      ChooseMissing(codec, Abs(), Field(name, value), incrementalIndexing);
      var staticTableIndex := staticTable.GetFieldIndex(Field(name, value));
      if staticTableIndex != -1 {
        EncodeInteger(out, 0x80, 7, staticTableIndex);
      } else {
        var nameIndex := GetNameIndex(name);
        EncodeAndAdd(out, Field(name, value), if incrementalIndexing then Incremental else NotIndexed, nameIndex);
      }
    }

    method EncodeHeader(out: Bytes, name: seq<Byte>, value: seq<Byte>, sensitive: bool, incrementalIndexing: bool)
      requires Valid()
      modifies out`data, table, table.head, table.headerFields, table.entries
      ensures Valid()
      ensures var r := Encode(codec, old(Abs()), Field(name, value), sensitive, incrementalIndexing);
              out.data == old(out.data) + r.0 && Abs() == r.1
    {
      hide Valid, Choose, Encode, LiteralBytes, IndexedBytes, ET.EncoderTable.Valid, Static.StaticTable.Valid;
      hide ET.LookupField, Static.FieldIndex, ET.Place, Encoder.NameIndex, Evict, HuffmanCode.WellFormed;
      Parts();
      PrefixesAreValid();
      ghost var e, f := Abs(), Field(name, value);
      if sensitive {
        var nameIndex := GetNameIndex(name);
        ChooseSensitive(codec, e, f, incrementalIndexing);
        EncodeLiteral(out, name, value, NeverIndexed, nameIndex);
        return;
      }
      if table.capacity == 0 {
        EncodeWithoutTable(out, name, value, incrementalIndexing);
        return;
      }
      var headerSize := |name| + |value| + OVERHEAD;
      if headerSize > table.capacity {
        var nameIndex := GetNameIndex(name);
        ChooseTooLarge(codec, e, f, incrementalIndexing);
        EncodeLiteral(out, name, value, NotIndexed, nameIndex);
        return;
      }
      var headerField := table.GetEntry(Field(name, value));
      if headerField != null {
        EncodeEntry(out, name, value, headerField, incrementalIndexing);
      } else {
        EncodeMissing(out, name, value, incrementalIndexing);
      }
    }

    method SetMaxHeaderTableSize(out: Bytes, maxHeaderTableSize: nat)
      requires Valid()
      modifies out`data, table, table.head, table.headerFields, table.entries
      ensures Valid()
      ensures var r := TableSize.SetMax(old(Abs()), maxHeaderTableSize);
              out.data == old(out.data) + r.0 && Abs() == r.1
    {
      hide IntegerBytes, Static.StaticTable.Valid, HuffmanCode.WellFormed, ET.Sequence, ET.EncoderTable.Linked, ET.Chains, ET.Nexts, Total;
      hide ET.Fields, ET.State.Evicted;
      PrefixesAreValid();
      if table.capacity == maxHeaderTableSize {
        return;
      }
      table.capacity := maxHeaderTableSize;
      table.EnsureCapacity(0);
      EncodeInteger(out, 0x20, 5, maxHeaderTableSize);
    }
  }
}
