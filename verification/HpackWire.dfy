// The bytes of RFC 7541 by their numbers: integers, indices into the two tables, and the three
// literal forms, as the decoder takes them from anyone.
module HpackWire {
  import opened Words
  import opened Wrappers
  import opened HeaderTable
  import opened PrefixInteger
  import opened HpackFormat
  import opened HpackDecode
  import opened HpackReading
  import opened HpackStream
  import DT = DynamicTable
  import ET = EncoderTable
  import Static = StaticTable
  import HuffmanCode

  // ---- integers (section 5.1)

  /** The low seven bits of n bytes at pos, the first byte's the lowest. */
  function Sevens(data: seq<Byte>, pos: nat, n: nat): nat
    requires 1 <= n && pos + n <= |data|
    decreases n
  {
    if n == 1 then data[pos] % 128 else data[pos] % 128 + 128 * Sevens(data, pos + 1, n - 1)
  }

  /** A continuation of n bytes at pos, for a number of 31 bits. */
  predicate Continues(data: seq<Byte>, pos: nat, n: nat) {
    && 1 <= n <= 5 && pos + n <= |data|
    && (forall i :: pos <= i < pos + n - 1 ==> data[i] >= 128)
    && data[pos + n - 1] < (if n == 5 then 8 else 128)
  }

  /** What is read is what the seven-bit groups add up to. */
  lemma ContinuationExactly(data: seq<Byte>, pos: nat, n: nat)
    requires Continues(data, pos, n)
    ensures DecodeULE(data, pos) == Value(Sevens(data, pos, n), pos + n)
  {
    SevensRead(data, pos, n, 0);
  }

  lemma {:induction false} SevensRead(data: seq<Byte>, pos: nat, n: nat, k: nat)
    requires 1 <= n && k + n <= 5 && pos + n <= |data|
    requires forall i :: pos <= i < pos + n - 1 ==> data[i] >= 128
    requires data[pos + n - 1] < (if k + n == 5 then 8 else 128)
    ensures ReadULE(data, pos, k) == Value(Sevens(data, pos, n), pos + n)
    decreases n
  {
    if n > 1 { SevensRead(data, pos + 1, n - 1, k + 1); }
  }

  /** The examples of section C.1: 10 and 1337 behind five bits, 42 behind eight. */
  lemma ExamplesOfIntegers()
    ensures IntegerBytes(0, 5, 10) == [10] && IntegerBytes(0, 5, 1337) == [31, 154, 10] && IntegerBytes(0, 8, 42) == [42]
  {
    Pow2Values();
    assert Groups(1306) == [154] + Groups(10);
  }

  // ---- the two tables (section 2.3)

  function Newest(fs: seq<Field>): (r: seq<Field>)
    ensures |r| == |fs| && forall i :: 0 <= i < |r| ==> r[i] == fs[|fs| - 1 - i]
  {
    if fs == [] then [] else [fs[|fs| - 1]] + Newest(fs[..|fs| - 1])
  }

  /** The static table, then the dynamic one from its newest entry; a ring that is full of empty fields reads as empty. */
  function Tables(c: Codec, t: DT.Table): seq<Field> {
    c.staticTable + (if t.Full() then [] else Newest(t.entries))
  }

  lemma FieldAtExactly(c: Codec, t: DT.Table, i: nat)
    requires i >= 1
    ensures FieldAt(c, t, i) == if i <= |Tables(c, t)| then Some(Tables(c, t)[i - 1]) else None
  {
  }

  /** The decoder between two headers with room for this one. */
  predicate RoomFor(d: Decoder, f: Field) { d.headerSize + |f.name| + |f.value| <= d.maxHeaderSize }

  /**
   * An index is refused, with nothing delivered and the table unchanged, if and only if it is
   * beyond both tables; otherwise the field in its place is delivered, if there is room for it.
   */
  lemma IndexExactly(c: Codec, d: Decoder, i: nat)
    requires c.WellFormed() && AtHeader(d) && 1 <= i <= INDEX_MAX
    ensures IndexedBytes(i) == IntegerBytes(128, 7, i) && Ready(d)
    ensures var data, all := IntegerBytes(128, 7, i), Tables(c, d.table);
            var r := Decode(c, d, data, 0);
            && (r.outcome == Threw(IllegalIndexValue) <==> i > |all|)
            && r.d.table == d.table
            && if i > |all| then r.out == []
               else
                 && r.outcome == Done && r.pos == |data|
                 && r.out == if RoomFor(d, all[i - 1]) then [Header(all[i - 1].name, all[i - 1].value, false)] else []
  {
    hide Decode, Turn, FieldAt, IntegerBytes, Tables, Ready;
    IndexedIs(i);
    AtHeaderIs(d);
    FieldAtExactly(c, d.table, i);
    var data := IndexedBytes(i);
    assert data[0..|data|] == data;
    if FieldAt(c, d.table, i).Some? {
      ReadIndexed(c, d, data, 0, i);
      var s := IndexHeader(c, d.(index := Cap(i, 7)), i, |data|);
      DecodeEnd(c, s.d, data);
      DeliveredOrNot(c, d.(index := Cap(i, 7)), i, |data|);
      assert s.out + [] == s.out;
    } else {
      IndexRefused(c, d, data, i);
    }
  }

  lemma IndexedIs(i: nat)
    ensures IndexedBytes(i) == IntegerBytes(128, 7, i)
  {
    PrefixMaxes();
  }

  lemma DeliveredOrNot(c: Codec, d: Decoder, i: nat, pos: nat)
    requires i >= 1 && FieldAt(c, d.table, i).Some?
    ensures var s, f := IndexHeader(c, d, i, pos), FieldAt(c, d.table, i).value;
            s.Next? && s.d.table == d.table && s.out == if RoomFor(d, f) then [Header(f.name, f.value, false)] else []
  {
    hide FieldAt;
  }

  lemma IndexRefused(c: Codec, d: Decoder, data: seq<Byte>, i: nat)
    requires c.WellFormed() && AtHeader(d) && data == IndexedBytes(i) && 1 <= i <= INDEX_MAX
    requires FieldAt(c, d.table, i).None?
    ensures Ready(d)
    ensures var r := Decode(c, d, data, 0); r.outcome == Threw(IllegalIndexValue) && r.out == [] && r.d.table == d.table
  {
    hide Decode, ReadULE, Turn, FieldAt, Ready;
    PrefixMaxes();
    PrefixesAreValid();
    AtHeaderIs(d);
    assert data[0..|data|] == data;
    ReadsInteger(data, 0, 0x80, 7, i);
    IndexedTurn(c, d, data, 0, i);
    DecodeTurn(c, d, data, 0);
    if i >= 127 {
      var d1 := d.(index := 127, state := ReadIndexedHeader);
      IndexedMoreTurn(c, d1, data, 1, i - 127, |data|);
      DecodeTurn(c, d1, data, 1);
    }
  }

  // ---- the three literal forms (section 6.2)

  /** The first byte's flag bits, and how many are left for an index. */
  predicate IsForm(t: IndexType, flags: nat, bits: nat) {
    match t
    case Incremental => flags == 64 && bits == 6
    case NotIndexed => flags == 0 && bits == 4
    case NeverIndexed => flags == 16 && bits == 4
  }

  lemma FormExactly(t: IndexType, flags: nat, bits: nat)
    ensures IsForm(t, flags, bits) <==> flags == Mask(t) && bits == PrefixBits(t)
    ensures IsForm(t, flags, bits) ==> ValidPrefix(flags, bits)
  {
    PrefixesAreValid();
  }

  /** The name a literal takes from a table: refused, with nothing changed, if and only if the index is beyond both. */
  lemma NameIndexExactly(c: Codec, d: Decoder, t: IndexType, flags: nat, bits: nat, i: nat)
    requires c.WellFormed() && AtHeader(d) && 1 <= i <= INDEX_MAX && IsForm(t, flags, bits)
    ensures Ready(d) && ValidPrefix(flags, bits)
    ensures var data, all := IntegerBytes(flags, bits, i), Tables(c, d.table);
            var r := Decode(c, d, data, 0);
            && (r.outcome == Threw(IllegalIndexValue) <==> i > |all|)
            && r.d.table == d.table && r.out == []
            && (i <= |all| ==>
                  && r.outcome == Done && r.pos == |data| && r.d.state == ReadLiteralHeaderValueLengthPrefix
                  && r.d.name == all[i - 1].name && r.d.indexType == t)
  {
    hide Decode, Turn, FieldAt, IntegerBytes, Tables, Ready, ValidPrefix;
    FormExactly(t, flags, bits);
    AtHeaderIs(d);
    FieldAtExactly(c, d.table, i);
    var data := IntegerBytes(flags, bits, i);
    assert data[0..|data|] == data;
    if FieldAt(c, d.table, i).Some? {
      ReadIndexedName(c, d, data, 0, t, i);
      var d' := Named(d, t, Cap(i, bits), FieldAt(c, d.table, i).value.name);
      DecodeEnd(c, d', data);
      AfterNothing(Decode(c, d', data, |data|));
    } else {
      NameRefused(c, d, data, t, i);
    }
  }

  lemma NameRefused(c: Codec, d: Decoder, data: seq<Byte>, t: IndexType, i: nat)
    requires c.WellFormed() && AtHeader(d) && ValidPrefix(Mask(t), PrefixBits(t))
    requires data == IntegerBytes(Mask(t), PrefixBits(t), i) && 1 <= i <= INDEX_MAX && FieldAt(c, d.table, i).None?
    ensures Ready(d)
    ensures var r := Decode(c, d, data, 0); r.outcome == Threw(IllegalIndexValue) && r.out == [] && r.d.table == d.table
  {
    hide Decode, ReadULE, Turn, FieldAt;
    var n := PrefixBits(t);
    PrefixMaxes();
    assert data[0..|data|] == data;
    ReadsInteger(data, 0, Mask(t), n, i);
    LiteralFirstByte(d, c, t, i, data, 0);
    DecodeTurn(c, d, data, 0);
    if i >= PrefixMax(n) {
      var d1 := d.(indexType := t, index := PrefixMax(n), state := ReadIndexedHeaderName);
      IndexedNameTurn(c, d1, data, 1, i - PrefixMax(n), |data|);
      DecodeTurn(c, d1, data, 1);
    }
  }

  // A string without Huffman code, of less than 127 bytes, behind its length.

  lemma PlainValue(c: Codec, d: Decoder, data: seq<Byte>, pos: nat, s: seq<Byte>)
    requires c.WellFormed() && Ready(d) && d.state == ReadLiteralHeaderValueLengthPrefix
    requires 0 < |s| < 127 && Has(data, pos, [|s|] + s)
    requires d.nameLength + |s| + d.headerSize <= d.maxHeaderSize
    ensures d.table.Valid()
    ensures var d1 := d.(huffmanEncoded := false, index := |s|, valueLength := |s|, state := ReadLiteralHeaderValue);
            var (d', out) := Inserted(d1, s); Reaches(c, d, data, pos, d', pos + 1 + |s|, out)
  {
    hide Decode, Turn, Ready, InsertHeader, Inserted, DT.Table.Valid, StringLiteral, HuffmanCode.WellFormed, ReadValueLiteral, ValueLengthPrefix, Reaches;
    var d1 := d.(huffmanEncoded := false, index := |s|, valueLength := |s|, state := ReadLiteralHeaderValue);
    HasParts(data, pos, [|s|], s);
    assert data[pos] == data[pos..pos + 1][0] == |s|;
    PrefixTurns(c, d, data, pos);
    PlainLength(d, |s|, pos + 1);
    ReachesStep(c, d, data, pos);
    ValueTurn(c, d1, data, pos + 1);
    PlainBytes(c, data, pos + 1, s);
    WholeValue(c, d1, data, pos + 1, s);
    ReachesStep(c, d1, data, pos + 1);
    var r := Inserted(d1, s);
    ReachesTwice(c, d, data, pos, d1, pos + 1, [], r.0, pos + 1 + |s|, r.1);
    assert [] + r.1 == r.1;
  }

  lemma PlainLength(d: Decoder, n: nat, pos: nat)
    requires 0 < n < 127 && d.table.Valid() && d.nameLength + n + d.headerSize <= d.maxHeaderSize
    ensures ValueLengthPrefix(d, n, pos) ==
            Next(d.(huffmanEncoded := false, index := n, valueLength := n, state := ReadLiteralHeaderValue), pos, [])
  {
  }

  lemma PlainBytes(c: Codec, data: seq<Byte>, pos: nat, s: seq<Byte>)
    requires c.WellFormed() && Has(data, pos, s)
    ensures StringLiteral(c, false, data[pos..pos + |s|]) == Bytes(s)
  {
  }

  lemma PlainName(c: Codec, d: Decoder, data: seq<Byte>, pos: nat, s: seq<Byte>)
    requires c.WellFormed() && Ready(d) && d.state == ReadLiteralHeaderNameLengthPrefix
    requires 0 < |s| < 127 && Has(data, pos, [|s|] + s) && |s| + d.headerSize <= d.maxHeaderSize
    ensures var d' := d.(huffmanEncoded := false, index := |s|, nameLength := |s|, name := s, state := ReadLiteralHeaderValueLengthPrefix);
            Reaches(c, d, data, pos, d', pos + 1 + |s|, [])
  {
    hide Decode, Turn, Ready, DT.Table.Valid, StringLiteral, HuffmanCode.WellFormed, ReadNameLiteral, NameLengthPrefix, Reaches;
    var d1 := d.(huffmanEncoded := false, index := |s|, nameLength := |s|, state := ReadLiteralHeaderName);
    HasParts(data, pos, [|s|], s);
    assert data[pos] == data[pos..pos + 1][0] == |s|;
    PrefixTurns(c, d, data, pos);
    PlainNameLength(d, |s|, pos + 1);
    ReachesStep(c, d, data, pos);
    NameTurn(c, d1, data, pos + 1);
    PlainBytes(c, data, pos + 1, s);
    WholeName(c, d1, data, pos + 1, s);
    ReachesStep(c, d1, data, pos + 1);
    var d' := d1.(name := s, state := ReadLiteralHeaderValueLengthPrefix);
    var none: seq<Header> := [];
    assert none + none == none;
    ReachesTwice(c, d, data, pos, d1, pos + 1, none, d', pos + 1 + |s|, none);
  }

  lemma PlainNameLength(d: Decoder, n: nat, pos: nat)
    requires 0 < n < 127 && n + d.headerSize <= d.maxHeaderSize
    ensures NameLengthPrefix(d, n, pos) ==
            Next(d.(huffmanEncoded := false, index := n, nameLength := n, state := ReadLiteralHeaderName), pos, [])
  {
  }

  /**
   * A literal with its name spelled out, byte by byte: 64, 0 or 16, the name behind its length, the
   * value behind its length. It is delivered, and kept in the table if and only if the byte was 64.
   */
  lemma PlainLiteral(c: Codec, d: Decoder, t: IndexType, flags: Byte, bits: nat, name: seq<Byte>, value: seq<Byte>)
    requires c.WellFormed() && AtHeader(d) && IsForm(t, flags, bits)
    requires 0 < |name| < 127 && 0 < |value| < 127 && RoomFor(d, Field(name, value))
    ensures Ready(d) && d.table.Valid()
    ensures var data := [flags, |name|] + name + [|value|] + value;
            var r := Decode(c, d, data, 0);
            && r.outcome == Done && r.pos == |data| && AtHeader(r.d)
            && r.out == [Header(name, value, flags == 16)]
            && r.d.table == if flags == 64 then d.table.Add(Field(name, value)) else d.table
  {
    hide Decode, Turn, Ready, IntegerBytes, ValidPrefix, HuffmanCode.WellFormed, DT.Table.Valid, DT.Table.Add, Inserted, AtHeader;
    FormExactly(t, flags, bits);
    AtHeaderIs(d);
    TableIsValid(d);
    var data := [flags, |name|] + name + [|value|] + value;
    var n, v := [|name|] + name, [|value|] + value;
    assert data == [flags] + n + v;
    assert data[1..1 + |n|] == n && data[1 + |n|..1 + |n| + |v|] == v && data[0..1] == [flags];
    ZeroIndex(flags, bits);
    ReadNewName(c, d, data, 0, t);
    var d1 := d.(indexType := t, index := 0, state := ReadLiteralHeaderNameLengthPrefix);
    PlainName(c, d1, data, 1, name);
    var d2 := d1.(huffmanEncoded := false, index := |name|, nameLength := |name|, name := name, state := ReadLiteralHeaderValueLengthPrefix);
    ReachesTwice(c, d, data, 0, d1, 1, [], d2, 1 + |n|, []);
    PlainValue(c, d2, data, 1 + |n|, value);
    var d3 := d2.(huffmanEncoded := false, index := |value|, valueLength := |value|, state := ReadLiteralHeaderValue);
    var r := Inserted(d3, value);
    ReachesTwice(c, d, data, 0, d2, 1 + |n|, [], r.0, |data|, r.1);
    DecodeEnd(c, r.0, data);
    InsertedIs(d3, value);
    assert [] + [] + r.1 + [] == r.1;
    ReadyAgain(d, r.0);
  }

  lemma TableIsValid(d: Decoder)
    requires AtHeader(d)
    ensures d.table.Valid()
  {
  }

  lemma ReadyAgain(d: Decoder, d': Decoder)
    requires AtHeader(d) && Ready(d') && d'.state == ReadHeaderRepresentation
    requires d'.maxDynamicTableSizeChangeRequired == d.maxDynamicTableSizeChangeRequired
    ensures AtHeader(d')
  {
  }

  lemma ZeroIndex(flags: Byte, bits: nat)
    requires ValidPrefix(flags, bits)
    ensures IntegerBytes(flags, bits, 0) == [flags]
  {
    hide Pow2;
    PrefixPositive(bits);
  }

  lemma PrefixPositive(bits: nat)
    requires bits >= 1
    ensures PrefixMax(bits) >= 1
  {
  }

  lemma InsertedIs(d: Decoder, value: seq<Byte>)
    requires d.table.Valid() && RoomFor(d, Field(d.name, value))
    ensures var (d', out) := Inserted(d, value);
            && out == [Header(d.name, value, d.indexType == NeverIndexed)] && d'.state == ReadHeaderRepresentation
            && d'.table == (if d.indexType == Incremental then d.table.Add(Field(d.name, value)) else d.table)
            && d'.maxDynamicTableSizeChangeRequired == d.maxDynamicTableSizeChangeRequired
  {
    hide DT.Table.Add;
  }

  // ---- what the encoder chooses

  /** The encoder has the field in one of the tables it looks in; an empty name or value is looked for in the static one alone. */
  predicate Knows(c: Codec, e: Encoder, f: Field) {
    var inStatic := Static.FieldIndex(c.staticTable, f) != -1;
    if e.capacity == 0 then inStatic
    else f.Size() <= e.capacity && (inStatic || (f.name != [] && f.value != [] && f in e.table.fields))
  }

  /** A field that can be kept: the table is there and large enough for it alone. */
  predicate Fits(e: Encoder, f: Field) { e.capacity > 0 && |f.name| + |f.value| + 32 <= e.capacity }

  /**
   * The first byte says how a header is sent: 16 to 31 for a sensitive one; from 128 on for one
   * that is known; 64 to 127 for one to be kept by both ends; below 16 for the rest. The encoder
   * keeps what is neither sensitive nor known and fits.
   */
  lemma FirstByteExactly(c: Codec, e: Encoder, f: Field, sensitive: bool, incrementalIndexing: bool)
    requires c.WellFormed()
    ensures var (bytes, e') := Encode(c, e, f, sensitive, incrementalIndexing);
            && bytes != []
            && (if sensitive then 16 <= bytes[0] < 32
                else if Knows(c, e, f) then 128 <= bytes[0]
                else if Fits(e, f) && incrementalIndexing then 64 <= bytes[0] < 128
                else bytes[0] < 16)
            && e'.capacity == e.capacity
            && (!sensitive && !Knows(c, e, f) && Fits(e, f) <==> Choose(c, e, f, sensitive, incrementalIndexing).addsToTable)
            && e'.table.fields == if !sensitive && !Knows(c, e, f) && Fits(e, f) then Insert(e.table.fields, e.capacity, f) else e.table.fields
  {
    hide IntegerBytes, StringBytes, LiteralBytes, IndexedBytes, Evict, Encoder.NameIndex, Static.FieldIndex, Static.NameIndex, ET.State.Evicted, ET.State.Added;
    KnownIs(c, e, f);
    var choice := Choose(c, e, f, sensitive, incrementalIndexing);
    match choice.rep
    case Indexed(i) => IndexedStart(i);
    case Literal(t, nameIndex) => LiteralStart(c, f, t, nameIndex);
    if choice.addsToTable { KeptBoth(e, f); }
  }

  lemma KnownIs(c: Codec, e: Encoder, f: Field)
    ensures ET.LookupField(e.table.fields, f) >= 0 <==> f.name != [] && f.value != [] && f in e.table.fields
  {
  }

  lemma KeptBoth(e: Encoder, f: Field)
    requires f.Size() <= e.capacity
    ensures e.table.Evicted(e.capacity - f.Size()).Added(e.capacity, f).fields == Insert(e.table.fields, e.capacity, f)
  {
    EvictTwice(e.table.fields, e.capacity - f.Size(), e.capacity - f.Size());
  }

  lemma IndexedStart(i: nat)
    ensures IndexedBytes(i) != [] && IndexedBytes(i)[0] >= 128
  {
    PrefixMaxes();
  }

  lemma LiteralStart(c: Codec, f: Field, t: IndexType, nameIndex: int)
    requires c.WellFormed() && nameIndex >= -1
    ensures var b := LiteralBytes(c, f, t, nameIndex);
            && b != []
            && match t
               case Incremental => 64 <= b[0] < 128
               case NotIndexed => b[0] < 16
               case NeverIndexed => 16 <= b[0] < 32
  {
    hide StringBytes;
    PrefixMaxes();
    PrefixesAreValid();
    var first := IntegerBytes(Mask(t), PrefixBits(t), if nameIndex == -1 then 0 else nameIndex);
    assert LiteralBytes(c, f, t, nameIndex)[0] == first[0];
  }

  // ---- sizes

  /** Octets of entries: 32 more for each than its two strings have. */
  function Octets(fs: seq<Field>): nat {
    if fs == [] then 0 else |fs[0].name| + |fs[0].value| + 32 + Octets(fs[1..])
  }

  lemma {:induction false} TotalIsOctets(fs: seq<Field>)
    ensures Total(fs) == Octets(fs)
  {
    if fs != [] { TotalIsOctets(fs[1..]); }
  }

  /** What eviction leaves is the longest run of newest entries that fits. */
  lemma EvictExactly(fs: seq<Field>, limit: nat, k: nat)
    requires k <= |fs| && Octets(fs[k..]) <= limit && (k > 0 ==> Octets(fs[k - 1..]) > limit)
    ensures Evict(fs, limit) == fs[k..]
  {
    hide Octets, Total;
    TotalIsOctets(fs[k..]);
    if k > 0 { TotalIsOctets(fs[k - 1..]); }
    EvictFrom(fs, limit, k);
  }

  lemma {:induction false} EvictFrom(fs: seq<Field>, limit: nat, k: nat)
    requires k <= |fs| && Total(fs[k..]) <= limit && (k > 0 ==> Total(fs[k - 1..]) > limit)
    ensures Evict(fs, limit) == fs[k..]
    decreases |fs|
  {
    if k == 0 {
      assert fs[0..] == fs;
      EvictNothing(fs, limit);
    } else {
      TotalSuffix(fs, k - 1);
      assert fs[1..][k - 1..] == fs[k..] && (k > 1 ==> fs[1..][k - 2..] == fs[k - 1..]);
      if k > 1 { EvictFrom(fs[1..], limit, k - 1); } else { assert fs[0..] == fs; EvictNothing(fs[1..], limit); }
      EvictStep(fs, limit);
    }
  }

  lemma {:induction false} TotalSuffix(fs: seq<Field>, k: nat)
    requires k <= |fs|
    ensures Total(fs[k..]) <= Total(fs)
  {
    if k > 0 {
      TotalSuffix(fs[1..], k - 1);
      assert fs[1..][k - 1..] == fs[k..];
    } else {
      assert fs[0..] == fs;
    }
  }

  lemma EvictStep(fs: seq<Field>, limit: nat)
    requires fs != [] && Total(fs) > limit
    ensures Evict(fs, limit) == Evict(fs[1..], limit)
  {
  }
}
