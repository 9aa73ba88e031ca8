// The encoder and the decoder, each with its own copy of the dynamic table, stay in step.
module LockStep {
  import opened Words
  import opened Wrappers
  import opened HeaderTable
  import opened PrefixInteger
  import opened HpackFormat
  import opened HpackDecode
  import opened HpackReading
  import opened HpackStream
  import opened Utf8
  import DT = DynamicTable
  import ET = EncoderTable
  import Static = StaticTable
  import HuffmanCode

  predicate AllNamed(fs: seq<Field>) {
    forall i :: 0 <= i < |fs| ==> fs[i].name != []
  }

  /** Between headers, with the same table on both sides. */
  ghost predicate InStep(e: Encoder, d: Decoder) {
    && e.Valid() && AtHeader(d)
    && d.table.entries == e.table.fields && d.table.capacity == e.capacity
    && AllNamed(e.table.fields)
  }

  /** Indices the decoder's 31-bit integers can express. */
  predicate Modest(c: Codec, e: Encoder) {
    |c.staticTable| + e.capacity <= INDEX_MAX
  }

  /** With names on every entry the ring is never full, so its length is never misread. */
  lemma {:induction false} NamedSizes(fs: seq<Field>)
    requires AllNamed(fs)
    ensures Total(fs) >= 33 * |fs|
  {
    if fs != [] {
      assert fs[0].name != [];
      forall i | 0 <= i < |fs[1..]| ensures fs[1..][i].name != [] { assert fs[1..][i] == fs[i + 1]; }
      NamedSizes(fs[1..]);
    }
  }

  lemma NeverFull(t: DT.Table)
    requires t.Valid() && AllNamed(t.entries)
    ensures t.ReportedLength() == |t.entries|
  {
    NamedSizes(t.entries);
  }

  // ---- indices mean the same on both sides

  /** The name an index stands for. */
  lemma NameIndexMeans(c: Codec, e: Encoder, d: Decoder, name: seq<Byte>)
    requires c.WellFormed() && InStep(e, d)
    ensures var i := e.NameIndex(c, name);
            i == -1 ||
            (1 <= i <= |c.staticTable| + |e.table.fields| && FieldAt(c, d.table, i).Some?
             && (FieldAt(c, d.table, i).value.name == name <==>
                   Static.NameIndex(c.staticTable, name) != -1 ==> Text(name) == name))
  {
    NeverFull(d.table);
    var i := Static.NameIndex(c.staticTable, name);
    if i == -1 {
      var r := ET.FindName(e.table.fields, name);
      assert ET.LookupName(e.table.fields, e.table.newest, name) >= 0 ==> e.table.fields[r].name == name;
    }
  }

  lemma EntryIndexMeans(c: Codec, e: Encoder, d: Decoder, f: Field)
    requires c.WellFormed() && InStep(e, d)
    ensures var r := ET.LookupField(e.table.fields, f);
            r >= 0 ==>
              var i := e.EntryIndex(c, r);
              && 0 <= i <= |c.staticTable| + |e.table.fields|
              && (i >= 1 && FieldAt(c, d.table, i) == Some(f) <==>
                    ET.IndexField(e.table.fields, e.table.newest, r) != -1
                    || (|c.staticTable| >= 2 && c.staticTable[|c.staticTable| - 2] == f))
  {
    NeverFull(d.table);
  }

  lemma CountFits(e: Encoder)
    requires e.Valid()
    ensures |e.table.fields| <= e.capacity
  {
  }

  // ---- one header

  /** The name as the chosen literal carries it: by index, or spelled out. */
  ghost predicate NameOk(c: Codec, f: Field, nameIndex: int)
    requires c.WellFormed()
  {
    if nameIndex == -1 then f.name != [] && Carried(c, f.name)
    else Static.NameIndex(c.staticTable, f.name) != -1 ==> Text(f.name) == f.name
  }

  /** The encoder found the field in its dynamic table and will send its index. */
  predicate SendsEntry(c: Codec, e: Encoder, f: Field, sensitive: bool) {
    !sensitive && e.capacity != 0 && f.Size() <= e.capacity && ET.LookupField(e.table.fields, f) >= 0
  }

  /** What the caller can check of a header before encoding it. */
  ghost predicate HeaderOk(c: Codec, e: Encoder, f: Field, sensitive: bool, incrementalIndexing: bool)
    requires c.WellFormed()
  {
    var rep := Choose(c, e, f, sensitive, incrementalIndexing).rep;
    if rep.Literal? then NameOk(c, f, rep.nameIndex) && Carried(c, f.value)
    else SendsEntry(c, e, f, sensitive) ==>
           ET.IndexField(e.table.fields, e.table.newest, ET.LookupField(e.table.fields, f)) != -1
           || (|c.staticTable| >= 2 && c.staticTable[|c.staticTable| - 2] == f)
  }

  /** There is room under maxHeaderSize; a literal behind an indexed name is charged for an older name's length. */
  ghost predicate Room(c: Codec, d: Decoder, f: Field, rep: Representation)
    requires c.WellFormed()
  {
    && d.headerSize + |f.name| + |f.value| <= d.maxHeaderSize
    && (rep.Literal? && rep.nameIndex != -1 ==> d.nameLength + |Raw(c, f.value)| + d.headerSize <= d.maxHeaderSize)
  }

  /** The decoder after a header: the header's bytes are counted, the table is t. */
  ghost predicate Finished(d: Decoder, d': Decoder, f: Field, t: DT.Table) {
    && AtHeader(d') && d'.table == t
    && d'.maxHeaderSize == d.maxHeaderSize && d'.headerSize == d.headerSize + |f.name| + |f.value|
    && (d'.nameLength == d.nameLength || d'.nameLength <= |f.name|)
  }

  /** The name length the decoder keeps: that of the last name that was spelled out. */
  ghost function NameLengthAfter(c: Codec, nameLength: int, f: Field, rep: Representation): int
    requires c.WellFormed()
  {
    if rep.Literal? && rep.nameIndex == -1 then |Raw(c, f.name)| else nameLength
  }

  lemma ChoiceMeans(c: Codec, e: Encoder, d: Decoder, f: Field, sensitive: bool, incrementalIndexing: bool)
    requires c.WellFormed() && InStep(e, d)
    ensures var choice := Choose(c, e, f, sensitive, incrementalIndexing); var rep := choice.rep;
            && (rep.Literal? ==> rep.nameIndex == e.NameIndex(c, f.name))
            && (rep.Literal? ==> (rep.indexType == NeverIndexed) == sensitive)
            && (rep.Literal? ==> (rep.indexType == Incremental) == (choice.addsToTable && incrementalIndexing))
            && (rep.Indexed? ==> !sensitive && !choice.addsToTable)
            && (rep.Indexed? ==> rep.index <= |c.staticTable| + |e.table.fields|)
            && (rep.Indexed? ==>
                  (rep.index >= 1 && FieldAt(c, d.table, rep.index) == Some(f) <==>
                     HeaderOk(c, e, f, sensitive, incrementalIndexing)))
  {
    EntryIndexMeans(c, e, d, f);
    hide Static.NameIndex, Static.FieldIndex, ET.LookupField;
    if e.capacity == 0 { CountFits(e); }
  }

  lemma IndexedStep(c: Codec, e: Encoder, d: Decoder, f: Field, i: nat, data: seq<Byte>, pos: nat) returns (d': Decoder)
    requires c.WellFormed() && InStep(e, d) && i <= INDEX_MAX
    requires Has(data, pos, IndexedBytes(i)) && i >= 1 && FieldAt(c, d.table, i) == Some(f)
    requires d.headerSize + |f.name| + |f.value| <= d.maxHeaderSize
    ensures Reaches(c, d, data, pos, d', pos + |IndexedBytes(i)|, [Header(f.name, f.value, false)])
    ensures Finished(d, d', f, d.table) && d'.nameLength == d.nameLength
  {
    hide Decode, Turn, FieldAt, IndexedBytes;
    ReadIndexed(c, d, data, pos, i);
    d' := IndexHeader(c, d.(index := Cap(i, 7)), i, pos + |IndexedBytes(i)|).d;
  }

  /** The decoder with a literal's name in hand, before its value. */
  ghost predicate NameRead(d: Decoder, d': Decoder, name: seq<Byte>, t: IndexType, nameLength: int) {
    && Ready(d') && d'.state == ReadLiteralHeaderValueLengthPrefix
    && d' == d.(state := d'.state, name := name, indexType := t, index := d'.index,
                huffmanEncoded := d'.huffmanEncoded, nameLength := nameLength)
  }

  lemma SpelledName(c: Codec, d: Decoder, name: seq<Byte>, t: IndexType, data: seq<Byte>, pos: nat)
    returns (d': Decoder)
    requires c.WellFormed() && HuffmanCode.Good(c.huffman) && AtHeader(d) && ValidPrefix(Mask(t), PrefixBits(t))
    requires name != [] && Carried(c, name)
    requires |Raw(c, name)| + d.headerSize <= d.maxHeaderSize
    requires Has(data, pos, IntegerBytes(Mask(t), PrefixBits(t), 0) + StringBytes(c, name))
    ensures Reaches(c, d, data, pos, d', pos + |IntegerBytes(Mask(t), PrefixBits(t), 0) + StringBytes(c, name)|, [])
    ensures NameRead(d, d', name, t, |Raw(c, name)|)
  {
    hide Decode, Turn, StringBytes, IntegerBytes, Raw, IsHuffman, StringOk, HuffmanCode.Good, ReadULE;
    var first := IntegerBytes(Mask(t), PrefixBits(t), 0);
    HasParts(data, pos, first, StringBytes(c, name));
    ReadNewName(c, d, data, pos, t);
    var d1 := d.(indexType := t, index := 0, state := ReadLiteralHeaderNameLengthPrefix);
    ReadNameString(c, d1, data, pos + 1, name);
    d' := BeforeName(c, d1, name).(name := name, state := ReadLiteralHeaderValueLengthPrefix);
    ReachesTwice(c, d, data, pos, d1, pos + 1, [], d', pos + 1 + |StringBytes(c, name)|, []);
  }

  lemma LiteralParts(c: Codec, f: Field, t: IndexType, nameIndex: int, data: seq<Byte>, pos: nat)
    requires c.WellFormed() && nameIndex >= -1
    requires Has(data, pos, LiteralBytes(c, f, t, nameIndex))
    ensures ValidPrefix(Mask(t), PrefixBits(t))
    ensures var first := if nameIndex == -1 then IntegerBytes(Mask(t), PrefixBits(t), 0) + StringBytes(c, f.name)
                         else IntegerBytes(Mask(t), PrefixBits(t), nameIndex);
            && Has(data, pos, first) && Has(data, pos + |first|, StringBytes(c, f.value))
            && |LiteralBytes(c, f, t, nameIndex)| == |first| + |StringBytes(c, f.value)|
  {
    hide StringBytes, IntegerBytes;
    PrefixesAreValid();
    var first := if nameIndex == -1 then IntegerBytes(Mask(t), PrefixBits(t), 0) + StringBytes(c, f.name)
                 else IntegerBytes(Mask(t), PrefixBits(t), nameIndex);
    assert LiteralBytes(c, f, t, nameIndex) == first + StringBytes(c, f.value);
    HasParts(data, pos, first, StringBytes(c, f.value));
  }

  /** Both kinds of literal name lead to the value with the name in hand. */
  lemma NameStep(c: Codec, e: Encoder, d: Decoder, f: Field, t: IndexType, nameIndex: int, data: seq<Byte>, pos: nat)
    returns (d': Decoder, pos': nat)
    requires c.WellFormed() && HuffmanCode.Good(c.huffman) && InStep(e, d) && Modest(c, e)
    requires nameIndex == e.NameIndex(c, f.name) && NameOk(c, f, nameIndex)
    requires d.headerSize + |f.name| + |f.value| <= d.maxHeaderSize
    requires Has(data, pos, LiteralBytes(c, f, t, nameIndex))
    ensures Reaches(c, d, data, pos, d', pos', [])
    ensures NameRead(d, d', f.name, t, if nameIndex == -1 then |Raw(c, f.name)| else d.nameLength)
    ensures pos <= pos' && Has(data, pos', StringBytes(c, f.value))
    ensures pos' + |StringBytes(c, f.value)| == pos + |LiteralBytes(c, f, t, nameIndex)|
  {
    hide Decode, Turn, FieldAt, StringBytes, IntegerBytes, LiteralBytes, Raw, IsHuffman, StringOk, HuffmanCode.Good;
    hide ReadULE, Total, InStep, AtHeader, AllNamed, Ready, HuffmanCode.WellFormed, Encoder.NameIndex;
    InStepAtHeader(e, d);
    NameIndexMeans(c, e, d, f.name);
    LiteralParts(c, f, t, nameIndex, data, pos);
    if nameIndex == -1 {
      StringParts(c, f.name);
      d' := SpelledName(c, d, f.name, t, data, pos);
      pos' := pos + |IntegerBytes(Mask(t), PrefixBits(t), 0) + StringBytes(c, f.name)|;
    } else {
      ReadIndexedName(c, d, data, pos, t, nameIndex);
      d' := Named(d, t, Cap(nameIndex, PrefixBits(t)), f.name);
      pos' := pos + |IntegerBytes(Mask(t), PrefixBits(t), nameIndex)|;
    }
  }

  lemma LiteralStep(c: Codec, e: Encoder, d: Decoder, f: Field, t: IndexType, nameIndex: int, data: seq<Byte>, pos: nat)
    returns (d': Decoder)
    requires c.WellFormed() && HuffmanCode.Good(c.huffman) && InStep(e, d) && Modest(c, e)
    requires nameIndex == e.NameIndex(c, f.name) && NameOk(c, f, nameIndex) && Carried(c, f.value)
    requires Room(c, d, f, Literal(t, nameIndex))
    requires Has(data, pos, LiteralBytes(c, f, t, nameIndex))
    ensures Reaches(c, d, data, pos, d', pos + |LiteralBytes(c, f, t, nameIndex)|,
                    [Header(f.name, f.value, t == NeverIndexed)])
    ensures d.table.Valid() && Finished(d, d', f, if t == Incremental then d.table.Add(f) else d.table)
    ensures d'.nameLength == if nameIndex == -1 then |Raw(c, f.name)| else d.nameLength
  {
    hide Decode, Turn, StringBytes, IntegerBytes, LiteralBytes, Raw, IsHuffman, StringOk, HuffmanCode.Good, InStep, NameOk, Total;
    InStepAtHeader(e, d);
    var d1, pos1 := NameStep(c, e, d, f, t, nameIndex, data, pos);
    StringParts(c, f.name);
    StringParts(c, f.value);
    ReadValueString(c, d1, data, pos1, f.value);
    var r := Inserted(BeforeValue(c, d1, f.value), f.value);
    d' := r.0;
    ReachesTwice(c, d, data, pos, d1, pos1, [], d', pos1 + |StringBytes(c, f.value)|, r.1);
    assert [] + r.1 == r.1;
  }

  /** Section 2.3 and 6: the decoder reads back the header, and keeps its table as the representation says. */
  lemma HeaderStep(c: Codec, e: Encoder, d: Decoder, f: Field, sensitive: bool, incrementalIndexing: bool,
                   data: seq<Byte>, pos: nat) returns (d': Decoder)
    requires c.WellFormed() && HuffmanCode.Good(c.huffman) && InStep(e, d) && Modest(c, e)
    requires Has(data, pos, Encode(c, e, f, sensitive, incrementalIndexing).0)
    requires HeaderOk(c, e, f, sensitive, incrementalIndexing)
    requires Room(c, d, f, Choose(c, e, f, sensitive, incrementalIndexing).rep)
    ensures Reaches(c, d, data, pos, d', pos + |Encode(c, e, f, sensitive, incrementalIndexing).0|,
                    [Header(f.name, f.value, sensitive)])
    ensures d.table.Valid()
    ensures Finished(d, d', f, if Choose(c, e, f, sensitive, incrementalIndexing).addsToTable && incrementalIndexing
                               then d.table.Add(f) else d.table)
    ensures d'.nameLength == NameLengthAfter(c, d.nameLength, f, Choose(c, e, f, sensitive, incrementalIndexing).rep)
  {
    hide Decode, Turn, Choose, HuffmanCode.Good, LiteralBytes, IndexedBytes, FieldAt, Raw, StringOk;
    ChoiceMeans(c, e, d, f, sensitive, incrementalIndexing);
    CountFits(e);
    match Choose(c, e, f, sensitive, incrementalIndexing).rep
    case Indexed(i) => d' := IndexedStep(c, e, d, f, i, data, pos);
    case Literal(t, nameIndex) => d' := LiteralStep(c, e, d, f, t, nameIndex, data, pos);
  }

  // ---- the tables afterwards

  lemma AddedTwice(s: ET.State, capacity: nat, f: Field)
    requires f.Size() <= capacity
    ensures s.Evicted(capacity - f.Size()).Added(capacity, f).fields == Insert(s.fields, capacity, f)
    ensures s.Evicted(capacity - f.Size()).Added(capacity, f).newest ==
            (if Evict(s.fields, capacity - f.Size()) == [] then ET.INDEX_MAX else s.newest) - 1
  {
    EvictTwice(s.fields, capacity - f.Size(), capacity - f.Size());
  }

  lemma NamedInsert(fs: seq<Field>, capacity: nat, f: Field)
    requires AllNamed(fs) && f.name != [] && f.Size() <= capacity
    ensures AllNamed(Insert(fs, capacity, f))
  {
    EvictFits(fs, capacity - f.Size());
  }

  lemma AddsFits(c: Codec, e: Encoder, f: Field, sensitive: bool, incrementalIndexing: bool)
    requires c.WellFormed()
    ensures Choose(c, e, f, sensitive, incrementalIndexing).addsToTable ==>
              f.Size() <= e.capacity && !sensitive && (f.name == [] || f.value == [] || ET.FindField(e.table.fields, f) < 0)
  {
  }

  /** With incremental indexing, or when nothing is added, both tables have made the same move. */
  lemma StaysInStep(c: Codec, e: Encoder, d: Decoder, f: Field, sensitive: bool, incrementalIndexing: bool, d': Decoder)
    requires c.WellFormed() && InStep(e, d) && f.name != [] && d.table.Valid()
    requires Finished(d, d', f, if Choose(c, e, f, sensitive, incrementalIndexing).addsToTable && incrementalIndexing
                                then d.table.Add(f) else d.table)
    requires incrementalIndexing || !Choose(c, e, f, sensitive, incrementalIndexing).addsToTable
    ensures var e' := Encode(c, e, f, sensitive, incrementalIndexing).1;
            InStep(e', d') && e'.capacity == e.capacity && e'.table.newest >= e.table.newest - 1
  {
    hide Choose, HeaderBytes, Evict;
    AddsFits(c, e, f, sensitive, incrementalIndexing);
    if Choose(c, e, f, sensitive, incrementalIndexing).addsToTable {
      AddedTwice(e.table, e.capacity, f);
      NamedInsert(e.table.fields, e.capacity, f);
    }
  }

  // ---- whole runs

  datatype Item = Item(field: Field, sensitive: bool)

  ghost function EncodeAll(c: Codec, e: Encoder, items: seq<Item>): (r: (seq<Byte>, Encoder))
    requires c.WellFormed()
    decreases |items|
  {
    if items == [] then ([], e)
    else
      var (bytes, e') := Encode(c, e, items[0].field, items[0].sensitive, true);
      var (rest, e'') := EncodeAll(c, e', items[1..]);
      (bytes + rest, e'')
  }

  function Headers(items: seq<Item>): seq<Header> {
    seq(|items|, i requires 0 <= i < |items| => Header(items[i].field.name, items[i].field.value, items[i].sensitive))
  }

  function Weight(items: seq<Item>): nat {
    if items == [] then 0 else |items[0].field.name| + |items[0].field.value| + Weight(items[1..])
  }

  /** What a caller must see to: named headers, names that are text, strings both coders agree on. */
  ghost predicate ItemOk(c: Codec, f: Field)
    requires c.WellFormed()
  {
    f.name != [] && Text(f.name) == f.name && Carried(c, f.name) && Carried(c, f.value)
  }

  ghost predicate ItemsOk(c: Codec, items: seq<Item>, longestName: nat)
    requires c.WellFormed()
  {
    forall i :: 0 <= i < |items| ==> ItemOk(c, items[i].field) && |items[i].field.name| <= longestName
  }

  lemma ItemIsHeaderOk(c: Codec, e: Encoder, d: Decoder, item: Item, longestName: nat)
    requires c.WellFormed() && InStep(e, d) && e.table.newest >= 0 && ItemOk(c, item.field)
    requires d.headerSize + |item.field.name| + |item.field.value| + longestName <= d.maxHeaderSize
    requires d.nameLength <= longestName
    ensures HeaderOk(c, e, item.field, item.sensitive, true)
    ensures Room(c, d, item.field, Choose(c, e, item.field, item.sensitive, true).rep)
  {
    hide Choose, StringBytes, Raw, IsHuffman, StringOk;
    StringParts(c, item.field.value);
  }

  /**
   * For every run of headers, encoded one after the other and decoded together: exactly the
   * same headers come out, in order, and both tables are equal at the end, hence, the run
   * being arbitrary, after every header.
   */
  lemma {:induction false} RunInStep(c: Codec, e: Encoder, d: Decoder, items: seq<Item>, longestName: nat,
                                     data: seq<Byte>, pos: nat) returns (d': Decoder)
    requires c.WellFormed() && HuffmanCode.Good(c.huffman) && InStep(e, d) && Modest(c, e)
    requires ItemsOk(c, items, longestName) && d.nameLength <= longestName
    requires d.headerSize + Weight(items) + longestName <= d.maxHeaderSize
    requires |items| <= e.table.newest + 1
    requires Has(data, pos, EncodeAll(c, e, items).0)
    ensures Reaches(c, d, data, pos, d', pos + |EncodeAll(c, e, items).0|, Headers(items))
    ensures InStep(EncodeAll(c, e, items).1, d')
    ensures d'.headerSize == d.headerSize + Weight(items) && d'.maxHeaderSize == d.maxHeaderSize
    ensures d'.nameLength <= longestName
    decreases |items|
  {
    hide Decode, Turn, Encode, HuffmanCode.Good, ItemOk, AtHeader, Reaches, InStep, AllNamed, Ready;
    if items == [] {
      d' := d;
      assert Headers(items) == [];
      InStepAtHeader(e, d);
      NoStep(c, d, data, pos);
    } else {
      var item := items[0];
      var (bytes, e') := Encode(c, e, item.field, item.sensitive, true);
      HasParts(data, pos, bytes, EncodeAll(c, e', items[1..]).0);
      var d1 := ItemStep(c, e, d, item, longestName, data, pos);
      d' := RunInStep(c, e', d1, items[1..], longestName, data, pos + |bytes|);
      ReachesTwice(c, d, data, pos, d1, pos + |bytes|, [Header(item.field.name, item.field.value, item.sensitive)],
                   d', pos + |bytes| + |EncodeAll(c, e', items[1..]).0|, Headers(items[1..]));
      assert Headers(items) == [Header(item.field.name, item.field.value, item.sensitive)] + Headers(items[1..]);
    }
  }

  lemma ItemStep(c: Codec, e: Encoder, d: Decoder, item: Item, longestName: nat, data: seq<Byte>, pos: nat)
    returns (d': Decoder)
    requires c.WellFormed() && HuffmanCode.Good(c.huffman) && InStep(e, d) && Modest(c, e)
    requires ItemOk(c, item.field) && |item.field.name| <= longestName && d.nameLength <= longestName
    requires d.headerSize + |item.field.name| + |item.field.value| + longestName <= d.maxHeaderSize
    requires e.table.newest >= 0
    requires Has(data, pos, Encode(c, e, item.field, item.sensitive, true).0)
    ensures var (bytes, e') := Encode(c, e, item.field, item.sensitive, true);
            && Reaches(c, d, data, pos, d', pos + |bytes|, [Header(item.field.name, item.field.value, item.sensitive)])
            && InStep(e', d') && e'.capacity == e.capacity && e'.table.newest >= e.table.newest - 1
    ensures d'.maxHeaderSize == d.maxHeaderSize && d'.nameLength <= longestName
    ensures d'.headerSize == d.headerSize + |item.field.name| + |item.field.value|
  {
    hide Decode, Turn, Encode, HuffmanCode.Good, ItemOk, AtHeader, Reaches, InStep, AllNamed, Ready, HeaderOk, Room, Choose;
    ItemIsHeaderOk(c, e, d, item, longestName);
    d' := HeaderStep(c, e, d, item.field, item.sensitive, true, data, pos);
    NameNotEmpty(c, item.field);
    StaysInStep(c, e, d, item.field, item.sensitive, true, d');
  }

  lemma NameNotEmpty(c: Codec, f: Field)
    requires c.WellFormed() && ItemOk(c, f)
    ensures f.name != []
  {
  }

  lemma InStepAtHeader(e: Encoder, d: Decoder)
    requires InStep(e, d)
    ensures AtHeader(d) && d.table.Valid() && |e.table.fields| <= e.capacity
  {
    CountFits(e);
  }

  lemma NoStep(c: Codec, d: Decoder, data: seq<Byte>, pos: nat)
    requires c.WellFormed() && AtHeader(d) && pos <= |data|
    ensures Reaches(c, d, data, pos, d, pos, [])
  {
    AfterNothing(Decode(c, d, data, pos));
  }

  // ---- from the beginning, however the bytes arrive

  function FreshEncoder(capacity: nat): (e: Encoder)
    ensures e.Valid()
  {
    Encoder(ET.State([], ET.INDEX_MAX), capacity)
  }

  lemma FreshInStep(maxHeaderSize: nat, capacity: nat)
    ensures InStep(FreshEncoder(capacity), Fresh(maxHeaderSize, capacity))
  {
  }

  /** decode called on exactly the bytes of a run. */
  lemma DecodeRun(c: Codec, e: Encoder, d: Decoder, items: seq<Item>, longestName: nat) returns (d': Decoder)
    requires c.WellFormed() && HuffmanCode.Good(c.huffman) && InStep(e, d) && Modest(c, e)
    requires ItemsOk(c, items, longestName) && d.nameLength <= longestName
    requires d.headerSize + Weight(items) + longestName <= d.maxHeaderSize
    requires |items| <= e.table.newest + 1
    ensures var (bytes, e') := EncodeAll(c, e, items);
            Ready(d) && Decode(c, d, bytes, 0) == Run(d', |bytes|, Headers(items), Done) && InStep(e', d')
    ensures d'.headerSize == d.headerSize + Weight(items) && d'.maxHeaderSize == d.maxHeaderSize
    ensures d'.nameLength <= longestName
  {
    hide Decode, Turn, HuffmanCode.Good, EncodeAll;
    var bytes := EncodeAll(c, e, items).0;
    assert bytes[0..] == bytes;
    d' := RunInStep(c, e, d, items, longestName, bytes, 0);
    DecodeEnd(c, d', bytes);
    assert Headers(items) + [] == Headers(items);
  }

  /**
   * The round trip. A fresh encoder and a fresh decoder of the same capacity: for every run
   * of headers, and every way of cutting its bytes into pieces appended to one buffer with a
   * decode after each, the headers delivered are the headers encoded, all input is consumed,
   * and the tables are equal.
   */
  lemma HpackRoundTrip(c: Codec, capacity: nat, maxHeaderSize: nat, items: seq<Item>, longestName: nat,
                       pieces: seq<seq<Byte>>)
    requires c.WellFormed() && HuffmanCode.Good(c.huffman)
    requires |c.staticTable| + capacity <= INDEX_MAX && |items| <= INDEX_MAX
    requires ItemsOk(c, items, longestName) && Weight(items) + longestName <= maxHeaderSize
    requires Concat(pieces) == EncodeAll(c, FreshEncoder(capacity), items).0
    ensures var (bytes, e) := EncodeAll(c, FreshEncoder(capacity), items);
            var r := DecodePieces(c, Fresh(maxHeaderSize, capacity), [], 0, pieces);
            && r.out == Headers(items) && r.outcome == Done && r.pos == |bytes|
            && r.d.state == ReadHeaderRepresentation && r.d.table.entries == e.table.fields
  {
    hide Decode, DecodePieces, HuffmanCode.Good, EncodeAll, Ready;
    var e, d := FreshEncoder(capacity), Fresh(maxHeaderSize, capacity);
    FreshInStep(maxHeaderSize, capacity);
    var _ := DecodeRun(c, e, d, items, longestName);
    SplitIndependence(c, d, pieces);
  }

  // ---- header blocks: endHeaderBlock resets the decoder, the tables stay

  ghost function EncodeBlocks(c: Codec, e: Encoder, blocks: seq<seq<Item>>): (r: seq<seq<Byte>>)
    requires c.WellFormed()
    decreases |blocks|
  {
    if blocks == [] then []
    else
      var (bytes, e') := EncodeAll(c, e, blocks[0]);
      [bytes] + EncodeBlocks(c, e', blocks[1..])
  }

  /** Decode each block from a buffer of its own, and end it; stop at a block that is not whole. */
  ghost function DecodeBlocks(c: Codec, d: Decoder, blocks: seq<seq<Byte>>): seq<seq<Header>>
    requires c.WellFormed() && Ready(d)
    decreases |blocks|
  {
    if blocks == [] then []
    else
      var r := Decode(c, d, blocks[0], 0);
      if r.outcome != Done || r.d.state != ReadHeaderRepresentation then [r.out]
      else [r.out] + DecodeBlocks(c, r.d.Reset(), blocks[1..])
  }

  function Count(blocks: seq<seq<Item>>): nat {
    if blocks == [] then 0 else |blocks[0]| + Count(blocks[1..])
  }

  function AllHeaders(blocks: seq<seq<Item>>): seq<seq<Header>> {
    if blocks == [] then [] else [Headers(blocks[0])] + AllHeaders(blocks[1..])
  }

  lemma ResetInStep(e: Encoder, d: Decoder)
    requires InStep(e, d)
    ensures InStep(e, d.Reset())
  {
  }

  lemma NewestAfter(c: Codec, e: Encoder, items: seq<Item>)
    requires c.WellFormed() && e.table.newest <= ET.INDEX_MAX
    ensures var e' := EncodeAll(c, e, items).1;
            e'.capacity == e.capacity && e.table.newest - |items| <= e'.table.newest <= ET.INDEX_MAX
    decreases |items|
  {
    hide Choose, HeaderBytes, Evict;
    if items != [] {
      NewestAfter(c, Encode(c, e, items[0].field, items[0].sensitive, true).1, items[1..]);
    }
  }

  /** Any number of header blocks: the limit applies to each, the tables run through all of them. */
  lemma {:induction false} BlocksRoundTrip(c: Codec, e: Encoder, d: Decoder, blocks: seq<seq<Item>>, longestName: nat)
    requires c.WellFormed() && HuffmanCode.Good(c.huffman) && InStep(e, d) && Modest(c, e)
    requires d.headerSize == 0 && d.nameLength <= longestName
    requires forall i :: 0 <= i < |blocks| ==>
               ItemsOk(c, blocks[i], longestName) && Weight(blocks[i]) + longestName <= d.maxHeaderSize
    requires Count(blocks) <= e.table.newest + 1
    ensures Ready(d) && DecodeBlocks(c, d, EncodeBlocks(c, e, blocks)) == AllHeaders(blocks)
    decreases |blocks|
  {
    hide Decode, HuffmanCode.Good, EncodeAll, InStep, ItemsOk, Ready, AtHeader, Reaches;
    InStepAtHeader(e, d);
    AtHeaderReady(d);
    if blocks != [] {
      var (bytes, e') := EncodeAll(c, e, blocks[0]);
      var d' := DecodeRun(c, e, d, blocks[0], longestName);
      NewestInStep(e, d);
      NewestAfter(c, e, blocks[0]);
      InStepAtHeader(e', d');
      AtHeaderReady(d');
      ResetInStep(e', d');
      forall i | 0 <= i < |blocks[1..]|
        ensures ItemsOk(c, blocks[1..][i], longestName) && Weight(blocks[1..][i]) + longestName <= d.maxHeaderSize
      {
        assert blocks[1..][i] == blocks[i + 1];
      }
      BlocksRoundTrip(c, e', d'.Reset(), blocks[1..], longestName);
      assert EncodeBlocks(c, e, blocks)[1..] == EncodeBlocks(c, e', blocks[1..]);
    }
  }

  lemma AtHeaderReady(d: Decoder)
    requires AtHeader(d)
    ensures Ready(d) && d.state == ReadHeaderRepresentation
  {
  }

  lemma NewestInStep(e: Encoder, d: Decoder)
    requires InStep(e, d)
    ensures e.table.newest <= ET.INDEX_MAX
  {
  }
}
