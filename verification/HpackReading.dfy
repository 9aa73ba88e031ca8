// The decoder reading back each thing the encoder writes.
module HpackReading {
  import opened Words
  import opened PrefixInteger
  import opened HpackFormat
  import opened HpackDecode
  import opened HpackStream
  import HuffmanCode
  import HuffmanDecode
  import DT = DynamicTable

  predicate Has(data: seq<Byte>, pos: nat, bytes: seq<Byte>) {
    pos + |bytes| <= |data| && data[pos..pos + |bytes|] == bytes
  }

  lemma HasParts(data: seq<Byte>, pos: nat, a: seq<Byte>, b: seq<Byte>)
    requires Has(data, pos, a + b)
    ensures Has(data, pos, a) && Has(data, pos + |a|, b)
  {
    assert (a + b)[..|a|] == a && (a + b)[|a|..] == b;
    assert data[pos..pos + |a + b|][..|a|] == data[pos..pos + |a|];
    assert data[pos..pos + |a + b|][|a|..] == data[pos + |a|..pos + |a| + |b|];
  }

  /** Decoding from (d, pos) goes on as decoding from (d', pos') after delivering `out`. */
  ghost predicate Reaches(c: Codec, d: Decoder, data: seq<Byte>, pos: nat, d': Decoder, pos': nat, out: seq<Header>)
    requires c.WellFormed()
  {
    && Ready(d) && pos <= |data| && Ready(d') && pos' <= |data|
    && Decode(c, d, data, pos) == Decode(c, d', data, pos').After(out)
  }

  lemma ReachesStep(c: Codec, d: Decoder, data: seq<Byte>, pos: nat)
    requires c.WellFormed() && Ready(d) && pos < |data| && Turn(c, d, data, pos).Next?
    ensures var s := Turn(c, d, data, pos); Reaches(c, d, data, pos, s.d, s.pos, s.out)
  {
    hide Turn, Ready, Decode;
    DecodeTurn(c, d, data, pos);
  }

  lemma ReachesTwice(c: Codec, d: Decoder, data: seq<Byte>, pos: nat, d1: Decoder, pos1: nat, out1: seq<Header>,
                     d2: Decoder, pos2: nat, out2: seq<Header>)
    requires c.WellFormed()
    requires Reaches(c, d, data, pos, d1, pos1, out1) && Reaches(c, d1, data, pos1, d2, pos2, out2)
    ensures Reaches(c, d, data, pos, d2, pos2, out1 + out2)
  {
    hide Ready, Decode;
    var r := Decode(c, d2, data, pos2);
    assert out1 + (out2 + r.out) == out1 + out2 + r.out;
  }

  // ---- an integer behind its prefix

  function Cap(i: nat, n: nat): nat { if i < PrefixMax(n) then i else PrefixMax(n) }

  /** The indicator byte, and the continuation when the prefix is full. */
  lemma ReadsInteger(data: seq<Byte>, pos: nat, mask: nat, n: nat, i: nat)
    requires ValidPrefix(mask, n) && Has(data, pos, IntegerBytes(mask, n, i)) && i <= INDEX_MAX
    ensures pos < |data|
    ensures data[pos] == mask + Cap(i, n)
    ensures i < PrefixMax(n) ==> |IntegerBytes(mask, n, i)| == 1
    ensures i >= PrefixMax(n) ==>
              DecodeULE(data, pos + 1) == Value(i - PrefixMax(n), pos + |IntegerBytes(mask, n, i)|)
  {
    assert data[pos] == IntegerBytes(mask, n, i)[0];
    if i >= PrefixMax(n) {
      var v := i - PrefixMax(n);
      HasParts(data, pos, [mask + PrefixMax(n)], Groups(v));
      assert Limit(0) == INDEX_MAX + 1;
      GroupsValue(data, pos + 1, v, 0);
    }
  }

  lemma PrefixMaxes()
    ensures PrefixMax(4) == 15 && PrefixMax(5) == 31 && PrefixMax(6) == 63 && PrefixMax(7) == 127
  {
    Pow2Values();
  }

  // ---- an indexed header (section 6.1)

  ghost predicate AtHeader(d: Decoder) {
    AtFirstByte(d) && !d.maxDynamicTableSizeChangeRequired
  }

  /** Between two headers, a size update asked for or not. */
  ghost predicate AtFirstByte(d: Decoder) {
    Ready(d) && d.state == ReadHeaderRepresentation
  }

  lemma ReadIndexed(c: Codec, d: Decoder, data: seq<Byte>, pos: nat, i: nat)
    requires c.WellFormed() && AtHeader(d) && Has(data, pos, IndexedBytes(i)) && 1 <= i <= INDEX_MAX
    requires FieldAt(c, d.table, i).Some?
    ensures var s := IndexHeader(c, d.(index := Cap(i, 7)), i, pos + |IndexedBytes(i)|);
            s.Next? && Reaches(c, d, data, pos, s.d, s.pos, s.out)
  {
    hide Decode, ReadULE, Turn, FieldAt, IndexHeader, Reaches, IntegerBytes, AtHeader, Ready, HuffmanCode.WellFormed;
    PrefixMaxes();
    PrefixesAreValid();
    ReadsInteger(data, pos, 0x80, 7, i);
    AtHeaderIs(d);
    IndexedTurn(c, d, data, pos, i);
    IndexedThere(c, d.(index := Cap(i, 7)), i, pos + |IndexedBytes(i)|);
    ReachesStep(c, d, data, pos);
    if i >= 127 {
      var d1 := d.(index := 127, state := ReadIndexedHeader);
      IndexedMoreTurn(c, d1, data, pos + 1, i - 127, pos + |IndexedBytes(i)|);
      ReachesStep(c, d1, data, pos + 1);
      var s := Turn(c, d1, data, pos + 1);
      ReachesTwice(c, d, data, pos, d1, pos + 1, [], s.d, s.pos, s.out);
      assert [] + s.out == s.out;
    }
  }

  lemma IndexedThere(c: Codec, d: Decoder, i: nat, pos: nat)
    requires i >= 1 && FieldAt(c, d.table, i).Some?
    ensures IndexHeader(c, d, i, pos).Next? && IndexHeader(c, d, i, pos).pos == pos
    ensures IndexHeader(c, d.(state := ReadIndexedHeader), i, pos) == IndexHeader(c, d, i, pos)
  {
    hide FieldAt;
  }

  lemma AtHeaderIs(d: Decoder)
    requires AtHeader(d)
    ensures Ready(d) && d.state == ReadHeaderRepresentation && Ready(d.(index := 127, state := ReadIndexedHeader))
  {
    hide DT.Table.Valid;
  }

  lemma IndexedTurn(c: Codec, d: Decoder, data: seq<Byte>, pos: nat, i: nat)
    requires c.WellFormed() && AtHeader(d) && pos < |data| && i >= 1 && data[pos] == 0x80 + Cap(i, 7)
    ensures Turn(c, d, data, pos) ==
            if i >= 127 then Next(d.(index := 127, state := ReadIndexedHeader), pos + 1, [])
            else IndexHeader(c, d.(index := i), i, pos + 1)
  {
    hide IndexHeader;
    PrefixMaxes();
  }

  lemma IndexedMoreTurn(c: Codec, d: Decoder, data: seq<Byte>, pos: nat, v: nat, next: nat)
    requires c.WellFormed() && Ready(d) && d.state == ReadIndexedHeader && pos < |data|
    requires DecodeULE(data, pos) == Value(v, next) && d.index + v <= INDEX_MAX
    ensures Turn(c, d, data, pos) == IndexHeader(c, d, d.index + v, next)
  {
    hide DecodeULE, IndexHeader;
  }

  // ---- the start of a literal (section 6.2)

  lemma LiteralFirstByte(d: Decoder, c: Codec, t: IndexType, i: nat, data: seq<Byte>, pos: nat)
    requires c.WellFormed() && AtHeader(d) && pos < |data| && data[pos] == Mask(t) + Cap(i, PrefixBits(t))
    ensures Turn(c, d, data, pos) ==
            LiteralName(c, d.(indexType := t, index := Cap(i, PrefixBits(t))), PrefixMax(PrefixBits(t)), pos + 1)
  {
    hide LiteralName;
    PrefixMaxes();
  }

  ghost function Named(d: Decoder, t: IndexType, index: nat, name: seq<Byte>): Decoder {
    d.(indexType := t, index := index, name := name, state := ReadLiteralHeaderValueLengthPrefix)
  }

  lemma ReadIndexedName(c: Codec, d: Decoder, data: seq<Byte>, pos: nat, t: IndexType, i: nat)
    requires c.WellFormed() && AtHeader(d) && ValidPrefix(Mask(t), PrefixBits(t))
    requires Has(data, pos, IntegerBytes(Mask(t), PrefixBits(t), i)) && 1 <= i <= INDEX_MAX
    requires FieldAt(c, d.table, i).Some?
    ensures var d' := Named(d, t, Cap(i, PrefixBits(t)), FieldAt(c, d.table, i).value.name);
            Reaches(c, d, data, pos, d', pos + |IntegerBytes(Mask(t), PrefixBits(t), i)|, [])
  {
    hide Decode, ReadULE, Turn;
    var n := PrefixBits(t);
    PrefixMaxes();
    ReadsInteger(data, pos, Mask(t), n, i);
    LiteralFirstByte(d, c, t, i, data, pos);
    ReachesStep(c, d, data, pos);
    if i >= PrefixMax(n) {
      var d1 := d.(indexType := t, index := PrefixMax(n), state := ReadIndexedHeaderName);
      IndexedNameTurn(c, d1, data, pos + 1, i - PrefixMax(n), pos + |IntegerBytes(Mask(t), n, i)|);
      ReachesStep(c, d1, data, pos + 1);
      var s := Turn(c, d1, data, pos + 1);
      ReachesTwice(c, d, data, pos, d1, pos + 1, [], s.d, s.pos, s.out);
    }
  }

  lemma IndexedNameTurn(c: Codec, d: Decoder, data: seq<Byte>, pos: nat, v: nat, next: nat)
    requires c.WellFormed() && Ready(d) && d.state == ReadIndexedHeaderName && pos < |data|
    requires DecodeULE(data, pos) == Value(v, next) && d.index + v <= INDEX_MAX
    ensures Turn(c, d, data, pos) == ReadName(c, d, d.index + v, next)
  {
    hide DecodeULE, ReadName;
  }

  lemma ReadNewName(c: Codec, d: Decoder, data: seq<Byte>, pos: nat, t: IndexType)
    requires c.WellFormed() && AtHeader(d) && ValidPrefix(Mask(t), PrefixBits(t))
    requires Has(data, pos, IntegerBytes(Mask(t), PrefixBits(t), 0))
    ensures var d' := d.(indexType := t, index := 0, state := ReadLiteralHeaderNameLengthPrefix);
            Reaches(c, d, data, pos, d', pos + 1, [])
    ensures |IntegerBytes(Mask(t), PrefixBits(t), 0)| == 1
  {
    hide Decode, ReadULE, Turn;
    PrefixMaxes();
    ReadsInteger(data, pos, Mask(t), PrefixBits(t), 0);
    LiteralFirstByte(d, c, t, 0, data, pos);
    ReachesStep(c, d, data, pos);
  }

  // ---- string literals (section 5.2)

  predicate IsHuffman(c: Codec, s: seq<Byte>)
    requires c.WellFormed()
  {
    HuffmanCode.EncodedLength(c.huffman, s) < |s|
  }

  /** The bytes of the string after its length. */
  ghost function Raw(c: Codec, s: seq<Byte>): seq<Byte>
    requires c.WellFormed()
  {
    if IsHuffman(c, s) then HuffmanCode.Encoding(c.huffman, s) else s
  }

  lemma StringParts(c: Codec, s: seq<Byte>)
    requires c.WellFormed()
    ensures ValidPrefix(if IsHuffman(c, s) then 0x80 else 0x00, 7)
    ensures StringBytes(c, s) == IntegerBytes(if IsHuffman(c, s) then 0x80 else 0x00, 7, |Raw(c, s)|) + Raw(c, s)
    ensures |Raw(c, s)| <= |s| && (Raw(c, s) == [] <==> s == [])
  {
    PrefixesAreValid();
    var bytes := HuffmanCode.Encoding(c.huffman, s);
    HuffmanCode.EncodedLengthIsLength(c.huffman, s, bytes);
    if s != [] {
      CodeLengthPositive(c.huffman, s);
    }
  }

  lemma CodeLengthPositive(t: HuffmanCode.Table, s: seq<Byte>)
    requires HuffmanCode.WellFormed(t) && s != []
    ensures HuffmanCode.CodeLength(t, s) >= 1
  {
  }

  /** The lengths and flags a decoder has read when it comes to a literal name. */
  ghost function BeforeName(c: Codec, d: Decoder, s: seq<Byte>): Decoder
    requires c.WellFormed()
  {
    d.(huffmanEncoded := IsHuffman(c, s), index := Cap(|Raw(c, s)|, 7), nameLength := |Raw(c, s)|, state := ReadLiteralHeaderName)
  }

  lemma ReadNameLength(c: Codec, d: Decoder, data: seq<Byte>, pos: nat, s: seq<Byte>)
    requires c.WellFormed() && Ready(d) && d.state == ReadLiteralHeaderNameLengthPrefix
    requires Has(data, pos, StringBytes(c, s)) && s != [] && |Raw(c, s)| <= INDEX_MAX
    requires |Raw(c, s)| + d.headerSize <= d.maxHeaderSize
    ensures var pos' := pos + |StringBytes(c, s)| - |Raw(c, s)|;
            && pos < pos' && Has(data, pos', Raw(c, s))
            && Reaches(c, d, data, pos, BeforeName(c, d, s), pos', [])
  {
    hide Decode, ReadULE, Turn, Raw, IsHuffman, StringBytes;
    PrefixMaxes();
    StringParts(c, s);
    var mask, n := if IsHuffman(c, s) then 0x80 else 0x00, |Raw(c, s)|;
    HasParts(data, pos, IntegerBytes(mask, 7, n), Raw(c, s));
    ReadsInteger(data, pos, mask, 7, n);
    NamePrefixTurn(c, d, data, pos, mask, n);
    ReachesStep(c, d, data, pos);
    if n >= 127 {
      var d1 := d.(huffmanEncoded := mask == 0x80, index := 127, state := ReadLiteralHeaderNameLength);
      NameLengthTurn(c, d1, data, pos + 1, n - 127, pos + |IntegerBytes(mask, 7, n)|);
      ReachesStep(c, d1, data, pos + 1);
      var s := Turn(c, d1, data, pos + 1);
      ReachesTwice(c, d, data, pos, d1, pos + 1, [], s.d, s.pos, s.out);
    }
  }

  lemma NamePrefixTurn(c: Codec, d: Decoder, data: seq<Byte>, pos: nat, mask: nat, n: nat)
    requires c.WellFormed() && Ready(d) && d.state == ReadLiteralHeaderNameLengthPrefix && pos < |data|
    requires mask == 0 || mask == 0x80
    requires data[pos] == mask + Cap(n, 7) && n >= 1
    requires n + d.headerSize <= d.maxHeaderSize
    ensures var d' := d.(huffmanEncoded := mask == 0x80, index := Cap(n, 7));
            Turn(c, d, data, pos) ==
            if n >= 127 then Next(d'.(state := ReadLiteralHeaderNameLength), pos + 1, [])
            else Next(d'.(nameLength := n, state := ReadLiteralHeaderName), pos + 1, [])
  {
    hide Turn;
    PrefixMaxes();
    PrefixTurns(c, d, data, pos);
    FlagAndLength(mask, n, data[pos]);
  }

  lemma NameLengthTurn(c: Codec, d: Decoder, data: seq<Byte>, pos: nat, v: nat, next: nat)
    requires c.WellFormed() && Ready(d) && d.state == ReadLiteralHeaderNameLength && pos < |data|
    requires DecodeULE(data, pos) == Value(v, next) && d.index + v <= INDEX_MAX
    requires d.index + v + d.headerSize <= d.maxHeaderSize
    ensures Turn(c, d, data, pos) == Next(d.(nameLength := d.index + v, state := ReadLiteralHeaderName), next, [])
  {
    hide DecodeULE;
  }

  /** A string the two ends agree on: sent as it is, or Huffman-coded with codes that fit in a byte. */
  predicate StringOk(c: Codec, s: seq<Byte>)
    requires c.WellFormed()
  {
    IsHuffman(c, s) ==> HuffmanCode.AllShort(c.huffman, s)
  }

  /** And no longer than the decoder's 31-bit lengths. */
  ghost predicate Carried(c: Codec, s: seq<Byte>)
    requires c.WellFormed()
  {
    StringOk(c, s) && |Raw(c, s)| <= INDEX_MAX
  }

  /** The first is exactly when the literal reads back as the string. */
  lemma LiteralRoundTrip(c: Codec, s: seq<Byte>)
    requires c.WellFormed() && HuffmanCode.Good(c.huffman)
    ensures StringLiteral(c, IsHuffman(c, s), Raw(c, s)) == Bytes(s) <==> StringOk(c, s)
  {
    hide HuffmanDecode.Decode, HuffmanCode.Good;
    if IsHuffman(c, s) { HuffmanDecode.RoundTrip(c.huffman, s); }
  }

  lemma RawStands(c: Codec, data: seq<Byte>, pos: nat, s: seq<Byte>)
    requires c.WellFormed() && s != [] && Has(data, pos, Raw(c, s))
    ensures pos < pos + |Raw(c, s)| <= |data| && data[pos..pos + |Raw(c, s)|] == Raw(c, s)
  {
    hide Raw, IsHuffman, HuffmanCode.WellFormed;
    StringParts(c, s);
  }

  lemma ReadNameBytes(c: Codec, d: Decoder, data: seq<Byte>, pos: nat, s: seq<Byte>)
    requires c.WellFormed() && HuffmanCode.Good(c.huffman) && Ready(d) && d.state == ReadLiteralHeaderName
    requires d.huffmanEncoded == IsHuffman(c, s) && d.nameLength == |Raw(c, s)| && s != []
    requires Has(data, pos, Raw(c, s)) && StringOk(c, s)
    ensures var d' := d.(name := s, state := ReadLiteralHeaderValueLengthPrefix);
            Reaches(c, d, data, pos, d', pos + |Raw(c, s)|, [])
  {
    hide *;
    RawStands(c, data, pos, s);
    LiteralRoundTrip(c, s);
    NameTurn(c, d, data, pos);
    WholeName(c, d, data, pos, s);
    ReachesStep(c, d, data, pos);
  }

  lemma WholeName(c: Codec, d: Decoder, data: seq<Byte>, pos: nat, s: seq<Byte>)
    requires c.WellFormed() && pos + d.nameLength <= |data| && d.nameLength >= 0
    requires StringLiteral(c, d.huffmanEncoded, data[pos..pos + d.nameLength]) == Bytes(s)
    ensures ReadNameLiteral(c, d, data, pos) ==
            Next(d.(name := s, state := ReadLiteralHeaderValueLengthPrefix), pos + d.nameLength, [])
  {
    hide StringLiteral, HuffmanCode.WellFormed;
  }

  lemma NameTurn(c: Codec, d: Decoder, data: seq<Byte>, pos: nat)
    requires c.WellFormed() && Ready(d) && pos < |data| && d.state == ReadLiteralHeaderName
    ensures d.nameLength >= 0 && Turn(c, d, data, pos) == ReadNameLiteral(c, d, data, pos)
  {
    hide ReadNameLiteral;
  }

  /** A literal name, length and all. */
  lemma ReadNameString(c: Codec, d: Decoder, data: seq<Byte>, pos: nat, s: seq<Byte>)
    requires c.WellFormed() && HuffmanCode.Good(c.huffman) && Ready(d) && d.state == ReadLiteralHeaderNameLengthPrefix
    requires Has(data, pos, StringBytes(c, s)) && s != [] && |Raw(c, s)| <= INDEX_MAX
    requires |Raw(c, s)| + d.headerSize <= d.maxHeaderSize && StringOk(c, s)
    ensures var d' := BeforeName(c, d, s).(name := s, state := ReadLiteralHeaderValueLengthPrefix);
            Reaches(c, d, data, pos, d', pos + |StringBytes(c, s)|, [])
  {
    hide Decode, Turn, Raw, IsHuffman, StringBytes, StringOk, HuffmanCode.Good;
    ReadNameLength(c, d, data, pos, s);
    var d1 := BeforeName(c, d, s);
    var pos1 := pos + |StringBytes(c, s)| - |Raw(c, s)|;
    ReadNameBytes(c, d1, data, pos1, s);
    var d2 := d1.(name := s, state := ReadLiteralHeaderValueLengthPrefix);
    ReachesTwice(c, d, data, pos, d1, pos1, [], d2, pos1 + |Raw(c, s)|, []);
  }

  // ---- the value, which ends a header

  ghost function BeforeValue(c: Codec, d: Decoder, s: seq<Byte>): Decoder
    requires c.WellFormed()
  {
    d.(huffmanEncoded := IsHuffman(c, s), index := Cap(|Raw(c, s)|, 7), valueLength := |Raw(c, s)|, state := ReadLiteralHeaderValue)
  }

  lemma ValuePrefixTurn(c: Codec, d: Decoder, data: seq<Byte>, pos: nat, mask: nat, n: nat)
    requires c.WellFormed() && Ready(d) && d.state == ReadLiteralHeaderValueLengthPrefix && pos < |data|
    requires mask == 0 || mask == 0x80
    requires data[pos] == mask + Cap(n, 7)
    requires d.nameLength + n + d.headerSize <= d.maxHeaderSize
    ensures var d' := d.(huffmanEncoded := mask == 0x80, index := Cap(n, 7));
            && (n >= 127 ==> Turn(c, d, data, pos) == Next(d'.(state := ReadLiteralHeaderValueLength), pos + 1, []))
            && (0 < n < 127 ==>
                  Turn(c, d, data, pos) == Next(d'.(valueLength := n, state := ReadLiteralHeaderValue), pos + 1, []))
    ensures d.table.Valid()
    ensures n == 0 ==>
              var d' := d.(huffmanEncoded := mask == 0x80, index := 0, valueLength := 0);
              var (d2, out) := InsertHeader(d', d.name, []);
              Turn(c, d, data, pos) == Next(d2.(state := ReadHeaderRepresentation), pos + 1, out)
  {
    hide InsertHeader, Turn;
    PrefixMaxes();
    PrefixTurns(c, d, data, pos);
    FlagAndLength(mask, n, data[pos]);
  }

  /** The turns that read one byte of a string's length. */
  lemma PrefixTurns(c: Codec, d: Decoder, data: seq<Byte>, pos: nat)
    requires c.WellFormed() && Ready(d) && pos < |data|
    ensures d.table.Valid()
    ensures d.state == ReadLiteralHeaderNameLengthPrefix ==> Turn(c, d, data, pos) == NameLengthPrefix(d, data[pos], pos + 1)
    ensures d.state == ReadLiteralHeaderValueLengthPrefix ==> Turn(c, d, data, pos) == ValueLengthPrefix(d, data[pos], pos + 1)
  {
    hide NameLengthPrefix, ValueLengthPrefix;
  }

  lemma FlagAndLength(mask: nat, n: nat, b: Byte)
    requires (mask == 0 || mask == 0x80) && b == mask + Cap(n, 7)
    ensures (b >= 128) == (mask == 0x80) && b % 128 == Cap(n, 7)
  {
    PrefixMaxes();
  }

  lemma ValueLengthTurn(c: Codec, d: Decoder, data: seq<Byte>, pos: nat, v: nat, next: nat)
    requires c.WellFormed() && Ready(d) && d.state == ReadLiteralHeaderValueLength && pos < |data|
    requires DecodeULE(data, pos) == Value(v, next) && d.index + v <= INDEX_MAX
    requires d.nameLength + d.index + v + d.headerSize <= d.maxHeaderSize
    ensures Turn(c, d, data, pos) == Next(d.(valueLength := d.index + v, state := ReadLiteralHeaderValue), next, [])
  {
    hide DecodeULE;
  }

  /** What the end of a header leaves. */
  ghost function Inserted(d: Decoder, value: seq<Byte>): (r: (Decoder, seq<Header>))
    requires d.table.Valid()
  {
    var (d', out) := InsertHeader(d, d.name, value);
    (d'.(state := ReadHeaderRepresentation), out)
  }

  lemma ReadValueLength(c: Codec, d: Decoder, data: seq<Byte>, pos: nat, s: seq<Byte>)
    requires c.WellFormed() && Ready(d) && d.state == ReadLiteralHeaderValueLengthPrefix
    requires Has(data, pos, StringBytes(c, s)) && s != [] && |Raw(c, s)| <= INDEX_MAX
    requires d.nameLength + |Raw(c, s)| + d.headerSize <= d.maxHeaderSize
    ensures var pos' := pos + |StringBytes(c, s)| - |Raw(c, s)|;
            && pos < pos' && Has(data, pos', Raw(c, s))
            && Reaches(c, d, data, pos, BeforeValue(c, d, s), pos', [])
  {
    hide Decode, ReadULE, Turn, Raw, IsHuffman, StringBytes;
    PrefixMaxes();
    StringParts(c, s);
    var mask, n := if IsHuffman(c, s) then 0x80 else 0x00, |Raw(c, s)|;
    HasParts(data, pos, IntegerBytes(mask, 7, n), Raw(c, s));
    ReadsInteger(data, pos, mask, 7, n);
    ValuePrefixTurn(c, d, data, pos, mask, n);
    ReachesStep(c, d, data, pos);
    if n >= 127 {
      var d1 := d.(huffmanEncoded := mask == 0x80, index := 127, state := ReadLiteralHeaderValueLength);
      ValueLengthTurn(c, d1, data, pos + 1, n - 127, pos + |IntegerBytes(mask, 7, n)|);
      ReachesStep(c, d1, data, pos + 1);
      var s := Turn(c, d1, data, pos + 1);
      ReachesTwice(c, d, data, pos, d1, pos + 1, [], s.d, s.pos, s.out);
    }
  }

  lemma ReadValueBytes(c: Codec, d: Decoder, data: seq<Byte>, pos: nat, s: seq<Byte>)
    requires c.WellFormed() && HuffmanCode.Good(c.huffman) && Ready(d) && d.state == ReadLiteralHeaderValue
    requires d.huffmanEncoded == IsHuffman(c, s) && d.valueLength == |Raw(c, s)| && s != []
    requires Has(data, pos, Raw(c, s)) && StringOk(c, s)
    ensures d.table.Valid()
    ensures var (d', out) := Inserted(d, s); Reaches(c, d, data, pos, d', pos + |Raw(c, s)|, out)
  {
    hide *;
    RawStands(c, data, pos, s);
    LiteralRoundTrip(c, s);
    ValueTurn(c, d, data, pos);
    WholeValue(c, d, data, pos, s);
    ReachesStep(c, d, data, pos);
  }

  lemma WholeValue(c: Codec, d: Decoder, data: seq<Byte>, pos: nat, s: seq<Byte>)
    requires c.WellFormed() && d.table.Valid() && pos + d.valueLength <= |data| && d.valueLength >= 0
    requires StringLiteral(c, d.huffmanEncoded, data[pos..pos + d.valueLength]) == Bytes(s)
    ensures var (d', out) := Inserted(d, s); ReadValueLiteral(c, d, data, pos) == Next(d', pos + d.valueLength, out)
  {
    hide StringLiteral, InsertHeader, HuffmanCode.WellFormed;
  }

  lemma ValueTurn(c: Codec, d: Decoder, data: seq<Byte>, pos: nat)
    requires c.WellFormed() && Ready(d) && pos < |data| && d.state == ReadLiteralHeaderValue
    ensures d.valueLength >= 0 && d.table.Valid() && Turn(c, d, data, pos) == ReadValueLiteral(c, d, data, pos)
  {
    hide ReadValueLiteral;
  }

  lemma ReadValueString(c: Codec, d: Decoder, data: seq<Byte>, pos: nat, s: seq<Byte>)
    requires c.WellFormed() && HuffmanCode.Good(c.huffman) && Ready(d) && d.state == ReadLiteralHeaderValueLengthPrefix
    requires Has(data, pos, StringBytes(c, s)) && |Raw(c, s)| <= INDEX_MAX && StringOk(c, s)
    requires d.nameLength + |Raw(c, s)| + d.headerSize <= d.maxHeaderSize
    ensures d.table.Valid()
    ensures var (d', out) := Inserted(BeforeValue(c, d, s), s); Reaches(c, d, data, pos, d', pos + |StringBytes(c, s)|, out)
  {
    hide Decode, Turn, Raw, IsHuffman, StringBytes, StringOk, HuffmanCode.Good, InsertHeader, Inserted;
    if s == [] {
      ReadEmptyValue(c, d, data, pos);
    } else {
      ReadValueLength(c, d, data, pos, s);
      var d1 := BeforeValue(c, d, s);
      var pos1 := pos + |StringBytes(c, s)| - |Raw(c, s)|;
      ReadValueBytes(c, d1, data, pos1, s);
      var r := Inserted(d1, s);
      ReachesTwice(c, d, data, pos, d1, pos1, [], r.0, pos1 + |Raw(c, s)|, r.1);
      assert [] + r.1 == r.1;
    }
  }

  lemma ReadEmptyValue(c: Codec, d: Decoder, data: seq<Byte>, pos: nat)
    requires c.WellFormed() && Ready(d) && d.state == ReadLiteralHeaderValueLengthPrefix
    requires Has(data, pos, StringBytes(c, [])) && d.nameLength + d.headerSize <= d.maxHeaderSize
    ensures d.table.Valid()
    ensures var (d', out) := Inserted(BeforeValue(c, d, []), []);
            Reaches(c, d, data, pos, d', pos + |StringBytes(c, [])|, out)
  {
    hide Decode, Turn, Raw, IsHuffman, StringBytes, InsertHeader;
    StringParts(c, []);
    PrefixMaxes();
    var mask := if IsHuffman(c, []) then 0x80 else 0x00;
    HasParts(data, pos, IntegerBytes(mask, 7, 0), Raw(c, []));
    ReadsInteger(data, pos, mask, 7, 0);
    ValuePrefixTurn(c, d, data, pos, mask, 0);
    ReachesStep(c, d, data, pos);
    EmptyValue(c, d);
  }

  /** The state field plays no part in what is inserted. */
  lemma EmptyValue(c: Codec, d: Decoder)
    requires c.WellFormed() && d.table.Valid()
    ensures var d' := d.(huffmanEncoded := IsHuffman(c, []), index := 0, valueLength := 0);
            var (d2, out) := InsertHeader(d', d.name, []);
            Inserted(BeforeValue(c, d, []), []) == (d2.(state := ReadHeaderRepresentation), out)
  {
    PrefixMaxes();
    StringParts(c, []);
  }
}
