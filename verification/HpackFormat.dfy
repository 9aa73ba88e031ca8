// Header representations (section 6 of RFC 7541) as the encoder writes them: which
// representation a header gets, and what happens to the encoder's table.
module HpackFormat {
  import opened Words
  import opened HeaderTable
  import opened PrefixInteger
  import HuffmanCode
  import EncoderTable
  import Static = StaticTable

  /** The two tables both ends have from the start. */
  datatype Codec = Codec(staticTable: seq<Field>, huffman: HuffmanCode.Table) {
    predicate WellFormed() {
      |staticTable| >= 1 && HuffmanCode.WellFormed(huffman)
    }
  }

  datatype IndexType = Incremental | NotIndexed | NeverIndexed

  function Mask(t: IndexType): nat {
    match t
    case Incremental => 0x40
    case NotIndexed => 0x00
    case NeverIndexed => 0x10
  }

  function PrefixBits(t: IndexType): nat {
    if t == Incremental then 6 else 4
  }

  lemma PrefixesAreValid()
    ensures ValidPrefix(0x80, 7) && ValidPrefix(0x00, 7) && ValidPrefix(0x20, 5)
    ensures forall t: IndexType :: ValidPrefix(Mask(t), PrefixBits(t))
  {
    Pow2Values();
  }

  /** A string literal: Huffman-coded when that is shorter. */
  ghost function StringBytes(c: Codec, s: seq<Byte>): seq<Byte>
    requires c.WellFormed()
  {
    PrefixesAreValid();
    if HuffmanCode.EncodedLength(c.huffman, s) < |s|
    then IntegerBytes(0x80, 7, HuffmanCode.EncodedLength(c.huffman, s)) + HuffmanCode.Encoding(c.huffman, s)
    else IntegerBytes(0x00, 7, |s|) + s
  }

  ghost function LiteralBytes(c: Codec, f: Field, t: IndexType, nameIndex: int): seq<Byte>
    requires c.WellFormed() && nameIndex >= -1
  {
    PrefixesAreValid();
    IntegerBytes(Mask(t), PrefixBits(t), if nameIndex == -1 then 0 else nameIndex)
    + (if nameIndex == -1 then StringBytes(c, f.name) else [])
    + StringBytes(c, f.value)
  }

  function IndexedBytes(i: nat): seq<Byte> {
    PrefixesAreValid();
    IntegerBytes(0x80, 7, i)
  }

  /** The encoder's state: its dynamic table and the capacity. */
  datatype Encoder = Encoder(table: EncoderTable.State, capacity: nat) {
    predicate Valid() {
      table.Valid() && Total(table.fields) <= capacity
    }

    /** getNameIndex: the static table first. */
    function NameIndex(c: Codec, name: seq<Byte>): (i: int) {
      var i := Static.NameIndex(c.staticTable, name);
      if i != -1 then i
      else
        var d := EncoderTable.LookupName(table.fields, table.newest, name);
        if d >= 0 then d + |c.staticTable| else d
    }

    /** The index encodeHeader writes for entry r of the dynamic table. */
    function EntryIndex(c: Codec, r: nat): int
      requires r < |table.fields|
    {
      EncoderTable.Place(table.fields, table.newest, r) + |c.staticTable|
    }
  }

  /** What encodeHeader writes, by the branch it takes. */
  datatype Representation =
    | Indexed(index: nat)
    | Literal(indexType: IndexType, nameIndex: int)

  datatype Choice = Choice(rep: Representation, addsToTable: bool)

  function Choose(c: Codec, e: Encoder, f: Field, sensitive: bool, incrementalIndexing: bool): (r: Choice)
    requires c.WellFormed()
    ensures r.rep.Literal? ==> r.rep.nameIndex >= -1
  {
    var staticIndex := Static.FieldIndex(c.staticTable, f);
    if sensitive then Choice(Literal(NeverIndexed, e.NameIndex(c, f.name)), false)
    else if e.capacity == 0 then
      if staticIndex == -1
      then Choice(Literal(NotIndexed, Static.NameIndex(c.staticTable, f.name)), false)
      else Choice(Indexed(staticIndex), false)
    else if f.Size() > e.capacity then Choice(Literal(NotIndexed, e.NameIndex(c, f.name)), false)
    else
      var r := EncoderTable.LookupField(e.table.fields, f);
      if r >= 0 then Choice(Indexed(e.EntryIndex(c, r)), false)
      else if staticIndex != -1 then Choice(Indexed(staticIndex), false)
      else Choice(Literal(if incrementalIndexing then Incremental else NotIndexed, e.NameIndex(c, f.name)), true)
  }

  ghost function HeaderBytes(c: Codec, f: Field, rep: Representation): seq<Byte>
    requires c.WellFormed() && (rep.Literal? ==> rep.nameIndex >= -1)
  {
    match rep
    case Indexed(i) => IndexedBytes(i)
    case Literal(t, nameIndex) => LiteralBytes(c, f, t, nameIndex)
  }

  /** encodeHeader: the bytes, and the table afterwards. */
  ghost function Encode(c: Codec, e: Encoder, f: Field, sensitive: bool, incrementalIndexing: bool): (r: (seq<Byte>, Encoder))
    requires c.WellFormed()
  {
    var choice := Choose(c, e, f, sensitive, incrementalIndexing);
    (HeaderBytes(c, f, choice.rep),
     if choice.addsToTable then e.(table := e.table.Evicted(e.capacity - f.Size()).Added(e.capacity, f)) else e)
  }
}
