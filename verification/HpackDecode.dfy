// The resumable HPACK decoder as a state machine: one step per turn of decode's loop.
module HpackDecode {
  import opened Words
  import opened Wrappers
  import opened HeaderTable
  import opened PrefixInteger
  import opened HpackFormat
  import opened DynamicTable
  import HuffmanDecode

  datatype Header = Header(name: seq<Byte>, value: seq<Byte>, sensitive: bool)

  datatype Error =
    | DecompressionException | IllegalIndexValue | MaxDynamicTableSizeChangeRequested
    | HuffmanEosDecoded | HuffmanInvalidPadding

  datatype State =
    | ReadHeaderRepresentation | ReadMaxDynamicTableSize | ReadIndexedHeader | ReadIndexedHeaderName
    | ReadLiteralHeaderNameLengthPrefix | ReadLiteralHeaderNameLength | ReadLiteralHeaderName | SkipLiteralHeaderName
    | ReadLiteralHeaderValueLengthPrefix | ReadLiteralHeaderValueLength | ReadLiteralHeaderValue | SkipLiteralHeaderValue

  /** The decoder's fields. `name` is assigned before every state that reads it. */
  datatype Decoder = Decoder(
    table: Table, maxHeaderSize: nat,
    maxDynamicTableSize: nat, encoderMaxDynamicTableSize: nat, maxDynamicTableSizeChangeRequired: bool,
    state: State, index: nat, headerSize: nat, indexType: IndexType, huffmanEncoded: bool,
    name: seq<Byte>, skipLength: nat, nameLength: int, valueLength: int)
  {
    /** decodeULE128's -1 for "not yet" is stored in the length it was to fill, and stays there when the block ends. */
    predicate Valid() {
      && table.Valid() && index <= 127 && nameLength >= -1 && valueLength >= -1
      && (state == ReadLiteralHeaderName ==> nameLength >= 0)
      && (state in {ReadLiteralHeaderValue, SkipLiteralHeaderValue} ==> valueLength >= 0)
    }

    function Reset(): Decoder {
      this.(headerSize := 0, state := ReadHeaderRepresentation, indexType := NotIndexed)
    }
  }

  function Fresh(maxHeaderSize: nat, maxHeaderTableSize: nat): (d: Decoder)
    ensures d.Valid()
  {
    Decoder(Table([], maxHeaderTableSize, 0), maxHeaderSize, maxHeaderTableSize, maxHeaderTableSize, false,
            ReadHeaderRepresentation, 0, 0, NotIndexed, false, [], 0, 0, 0)
  }

  /** Crashed: a runtime trap, or a table whose fields no longer say what it stores. */
  datatype Outcome = Done | Threw(error: Error) | Crashed

  datatype Step =
    | Wait(d: Decoder)
    | Next(d: Decoder, pos: nat, out: seq<Header>)
    | Stop(d: Decoder, pos: nat, outcome: Outcome)

  /** States entered only with a non-empty prefix behind them. */
  predicate Ready(d: Decoder) {
    && d.Valid()
    && (d.state in {ReadIndexedHeader, ReadIndexedHeaderName} ==> d.index >= 1)
  }

  /** Ready but for the state, which a step is to set. */
  predicate Settled(d: Decoder) {
    d.table.Valid() && d.index <= 127 && d.nameLength >= -1 && d.valueLength >= -1
  }

  // ---- the actions shared by the states

  function AddHeader(d: Decoder, name: seq<Byte>, value: seq<Byte>, sensitive: bool): (r: (Decoder, seq<Header>))
    ensures r.0 == d.(headerSize := r.0.headerSize)
  {
    var newSize := d.headerSize + |name| + |value|;
    if newSize <= d.maxHeaderSize
    then (d.(headerSize := newSize), [Header(name, value, sensitive)])
    else (d.(headerSize := d.maxHeaderSize + 1), [])
  }

  function InsertHeader(d: Decoder, name: seq<Byte>, value: seq<Byte>): (r: (Decoder, seq<Header>))
    requires d.table.Valid()
    ensures r.0 == d.(headerSize := r.0.headerSize, table := r.0.table) && r.0.table.Valid()
  {
    var (d', out) := AddHeader(d, name, value, d.indexType == NeverIndexed);
    (if d.indexType == Incremental then d'.(table := d.table.Add(Field(name, value))) else d', out)
  }

  /** The field an index denotes: the static table, then the dynamic one from its newest entry. */
  function FieldAt(c: Codec, t: Table, i: nat): Option<Field>
    requires i >= 1
  {
    if i <= |c.staticTable| then Some(c.staticTable[i - 1])
    else if i - |c.staticTable| <= t.ReportedLength() then Some(t.entries[|t.entries| - (i - |c.staticTable|)])
    else None
  }

  function IndexHeader(c: Codec, d: Decoder, i: nat, pos: nat): (s: Step)
    requires i >= 1
    ensures s.Stop? ==> s.outcome != Done
    ensures s.Stop? && s.outcome != Crashed && Ready(d) ==> Ready(s.d) && s.pos == pos
    ensures !s.Wait?
    ensures Settled(d) && s.Next? ==> Ready(s.d) && s.pos == pos
  {
    match FieldAt(c, d.table, i)
    case None => Stop(d, pos, Threw(IllegalIndexValue))
    case Some(f) =>
      var (d', out) := AddHeader(d, f.name, f.value, false);
      Next(d'.(state := ReadHeaderRepresentation), pos, out)
  }

  function ReadName(c: Codec, d: Decoder, i: nat, pos: nat): (s: Step)
    requires i >= 1
    ensures s.Stop? ==> s.outcome != Done
    ensures s.Stop? && s.outcome != Crashed && Ready(d) ==> Ready(s.d) && s.pos == pos
    ensures !s.Wait?
    ensures Settled(d) && s.Next? ==> Ready(s.d) && s.pos == pos
  {
    match FieldAt(c, d.table, i)
    case None => Stop(d, pos, Threw(IllegalIndexValue))
    case Some(f) => Next(d.(name := f.name, state := ReadLiteralHeaderValueLengthPrefix), pos, [])
  }

  function SetDynamicTableSize(d: Decoder, size: nat, pos: nat): (s: Step)
    requires d.table.Valid()
    ensures s.Stop? ==> s.outcome != Done
    ensures s.Stop? && s.outcome != Crashed && Ready(d) ==> Ready(s.d) && s.pos == pos
    ensures !s.Wait?
    ensures Settled(d) && s.Next? ==> Ready(s.d) && s.pos == pos
  {
    ResizeIsValid(d.table, size);
    var d' := d.(encoderMaxDynamicTableSize := size, maxDynamicTableSizeChangeRequired := false);
    if d.table.ResizeOutcome(size) != Kept then Stop(d', pos, Crashed)
    else Next(d'.(table := d.table.Resize(size), state := ReadHeaderRepresentation), pos, [])
  }

  /** exceedsMaxHeaderSize, for a decoder about to read or skip a string. */
  predicate Exceeds(d: Decoder, size: int) {
    size + d.headerSize > d.maxHeaderSize
  }

  function Cleared(t: Table): Table { Table([], t.capacity, 0) }

  /** What the length of a literal name leads to. */
  function NameLengthKnown(d: Decoder, length: nat): (r: Decoder)
    ensures d.table.Valid() && d.index <= 127 && d.valueLength >= -1 ==> Ready(r) && Settled(r)
  {
    var d := d.(nameLength := length);
    if !Exceeds(d, length) then d.(state := ReadLiteralHeaderName)
    else
      var over := d.(headerSize := d.maxHeaderSize + 1);
      if d.indexType == NotIndexed then over.(name := [], skipLength := length, state := SkipLiteralHeaderName)
      else if length + OVERHEAD > d.table.capacity then
        over.(table := Cleared(d.table), name := [], skipLength := length, state := SkipLiteralHeaderName)
      else over.(state := ReadLiteralHeaderName)
  }

  /** What the length of a literal value leads to; None when the value is to be read. */
  function ValueLengthKnown(d: Decoder, length: nat): (r: (Decoder, bool))
    ensures d.table.Valid() && d.index <= 127 && d.nameLength >= -1 ==> Settled(r.0)
    ensures r.1 || r.0.state == SkipLiteralHeaderValue
    ensures r.0.valueLength == length
  {
    var d := d.(valueLength := length);
    var newHeaderSize := d.nameLength + length;
    if !Exceeds(d, newHeaderSize) then (d, true)
    else
      var over := d.(headerSize := d.maxHeaderSize + 1);
      if d.indexType == NotIndexed then (over.(state := SkipLiteralHeaderValue), false)
      else if newHeaderSize + OVERHEAD > d.table.capacity then
        (over.(table := Cleared(d.table), state := SkipLiteralHeaderValue), false)
      else (over, true)
  }

  datatype StringResult = Bytes(bytes: seq<Byte>) | Failed(outcome: Outcome)

  ghost function StringLiteral(c: Codec, huffmanEncoded: bool, raw: seq<Byte>): (r: StringResult)
    requires c.WellFormed()
    ensures r.Failed? ==> r.outcome != Done
  {
    if !huffmanEncoded then Bytes(raw)
    else
      match HuffmanDecode.Decode(c.huffman, raw)
      case Text(s) => Bytes(s)
      case EosDecoded => Failed(Threw(HuffmanEosDecoded))
      case InvalidPadding => Failed(Threw(HuffmanInvalidPadding))
      case Trap => Failed(Crashed)
  }

  // ---- one turn of the loop, by state

  function FirstByte(c: Codec, d: Decoder, b: Byte, pos: nat): (s: Step)
    requires d.Valid()
    ensures s.Stop? ==> s.outcome != Done
    ensures s.Stop? && s.outcome != Crashed && Ready(d) && d.state == ReadHeaderRepresentation ==> Ready(s.d) && s.pos == pos
    ensures !s.Wait?
    ensures Settled(d) && s.Next? ==> Ready(s.d) && s.pos == pos
  {
    if d.maxDynamicTableSizeChangeRequired && b / 32 != 1 then Stop(d, pos, Threw(MaxDynamicTableSizeChangeRequested))
    else if b >= 128 then IndexedByte(c, d, b, pos)
    else if b >= 64 then LiteralName(c, d.(indexType := Incremental, index := b % 64), 0x3F, pos)
    else if b >= 32 then SizeByte(d, b, pos)
    else LiteralName(c, d.(indexType := if b >= 16 then NeverIndexed else NotIndexed, index := b % 16), 0x0F, pos)
  }

  function IndexedByte(c: Codec, d: Decoder, b: Byte, pos: nat): (s: Step)
    requires b >= 128
    ensures s.Stop? ==> s.outcome != Done
    ensures s.Stop? && s.outcome != Crashed && Ready(d) && d.state == ReadHeaderRepresentation ==> Ready(s.d) && s.pos == pos
    ensures !s.Wait?
    ensures Settled(d) && s.Next? ==> Ready(s.d) && s.pos == pos
  {
    var d := d.(index := b % 128);
    if d.index == 0 then Stop(d, pos, Threw(IllegalIndexValue))
    else if d.index == 0x7F then Next(d.(state := ReadIndexedHeader), pos, [])
    else IndexHeader(c, d, d.index, pos)
  }

  function SizeByte(d: Decoder, b: Byte, pos: nat): (s: Step)
    requires d.table.Valid() && 32 <= b < 64
    ensures s.Stop? ==> s.outcome != Done
    ensures s.Stop? && s.outcome != Crashed && Ready(d) ==> Ready(s.d) && s.pos == pos
    ensures !s.Wait?
    ensures Settled(d) && s.Next? ==> Ready(s.d) && s.pos == pos
  {
    var d := d.(index := b % 32);
    if d.index == 0x1F then Next(d.(state := ReadMaxDynamicTableSize), pos, [])
    else SetDynamicTableSize(d, d.index, pos)
  }

  function LiteralName(c: Codec, d: Decoder, max: nat, pos: nat): (s: Step)
    requires max >= 1
    ensures s.Stop? ==> s.outcome != Done
    ensures s.Stop? && s.outcome != Crashed && Ready(d) ==> Ready(s.d) && s.pos == pos
    ensures !s.Wait?
    ensures Settled(d) && s.Next? ==> Ready(s.d) && s.pos == pos
  {
    if d.index == 0 then Next(d.(state := ReadLiteralHeaderNameLengthPrefix), pos, [])
    else if d.index == max then Next(d.(state := ReadIndexedHeaderName), pos, [])
    else ReadName(c, d, d.index, pos)
  }

  /** The states that read an integer past its prefix, once its continuation is v. */
  function IntegerKnown(c: Codec, d: Decoder, v: nat, pos: nat): (s: Step)
    requires d.Valid()
    ensures s.Stop? ==> s.outcome != Done
    ensures s.Stop? && s.outcome != Crashed ==> Ready(s.d) && s.pos == pos
    ensures s.Next? ==> Ready(s.d) && s.pos == pos
    ensures !s.Wait?
    requires d.state in {ReadMaxDynamicTableSize, ReadIndexedHeader, ReadIndexedHeaderName,
                         ReadLiteralHeaderNameLength, ReadLiteralHeaderValueLength}
    requires d.index >= 1 || d.state !in {ReadIndexedHeader, ReadIndexedHeaderName}
  {
    if v > INDEX_MAX - d.index then Stop(IntegerRead(d, v), pos, Threw(DecompressionException))
    else if d.state == ReadMaxDynamicTableSize then SetDynamicTableSize(d, d.index + v, pos)
    else if d.state == ReadIndexedHeader then IndexHeader(c, d, d.index + v, pos)
    else if d.state == ReadIndexedHeaderName then ReadName(c, d, d.index + v, pos)
    else if d.state == ReadLiteralHeaderNameLength then Next(NameLengthKnown(d, d.index + v), pos, [])
    else
      var (d', read) := ValueLengthKnown(d, d.index + v);
      Next(if read then d'.(state := ReadLiteralHeaderValue) else d', pos, [])
  }

  /** A length is stored as it is read, before the prefix is added to it. */
  function IntegerRead(d: Decoder, v: int): Decoder {
    if d.state == ReadLiteralHeaderNameLength then d.(nameLength := v)
    else if d.state == ReadLiteralHeaderValueLength then d.(valueLength := v)
    else d
  }

  function ReadInteger(c: Codec, d: Decoder, data: seq<Byte>, pos: nat): (s: Step)
    requires d.Valid() && pos <= |data|
    ensures s.Stop? ==> s.outcome != Done
    ensures s.Stop? && s.outcome != Crashed ==> Ready(s.d) && pos <= s.pos <= |data|
    ensures s.Wait? ==> Ready(s.d)
    ensures s.Next? ==> Ready(s.d) && pos < s.pos <= |data|
    requires d.state in {ReadMaxDynamicTableSize, ReadIndexedHeader, ReadIndexedHeaderName,
                         ReadLiteralHeaderNameLength, ReadLiteralHeaderValueLength}
    requires d.index >= 1 || d.state !in {ReadIndexedHeader, ReadIndexedHeaderName}
  {
    match DecodeULE(data, pos)
    case Incomplete => Wait(IntegerRead(d, -1))
    case Malformed => Stop(d, pos, Threw(DecompressionException))
    case Value(v, next) => IntegerKnown(c, d, v, next)
  }

  function NameLengthPrefix(d: Decoder, b: Byte, pos: nat): (s: Step)
    ensures s.Stop? ==> s.outcome != Done
    ensures s.Stop? && Settled(d) ==> s.outcome != Crashed && s.d.state == d.state && Settled(s.d) && s.pos == pos
    ensures !s.Wait?
    ensures Settled(d) && s.Next? ==> Ready(s.d) && s.pos == pos
  {
    var d := d.(huffmanEncoded := b >= 128, index := b % 128);
    if d.index == 0x7F then Next(d.(state := ReadLiteralHeaderNameLength), pos, [])
    else if d.index == 0 then Stop(d.(nameLength := 0), pos, Threw(DecompressionException))
    else Next(NameLengthKnown(d, d.index), pos, [])
  }

  function ValueLengthPrefix(d: Decoder, b: Byte, pos: nat): (s: Step)
    requires d.table.Valid()
    ensures s.Stop? ==> s.outcome != Done
    ensures !s.Stop?
    ensures !s.Wait?
    ensures Settled(d) && s.Next? ==> Ready(s.d) && s.pos == pos
  {
    var d := d.(huffmanEncoded := b >= 128, index := b % 128);
    if d.index == 0x7F then Next(d.(state := ReadLiteralHeaderValueLength), pos, [])
    else
      var (d', read) := ValueLengthKnown(d, d.index);
      if !read then Next(d', pos, [])
      else if d.index == 0 then
        var (d', out) := InsertHeader(d', d'.name, []);
        Next(d'.(state := ReadHeaderRepresentation), pos, out)
      else Next(d'.(state := ReadLiteralHeaderValue), pos, [])
  }

  ghost function ReadNameLiteral(c: Codec, d: Decoder, data: seq<Byte>, pos: nat): (s: Step)
    requires c.WellFormed() && pos <= |data| && d.nameLength >= 0
    ensures s.Stop? ==> s.outcome != Done
    ensures s.Stop? ==> s.d == d && pos <= s.pos <= |data|
    ensures s.Wait? ==> s.d == d
    ensures s.Next? ==> s.pos == pos + d.nameLength <= |data| && s.d.state == ReadLiteralHeaderValueLengthPrefix
    ensures Settled(d) && s.Next? ==> Ready(s.d)
  {
    var end := pos + d.nameLength;
    if |data| < end then Wait(d)
    else
      match StringLiteral(c, d.huffmanEncoded, data[pos..end])
      case Bytes(s) => Next(d.(name := s, state := ReadLiteralHeaderValueLengthPrefix), end, [])
      case Failed(o) => Stop(d, end, o)
  }

  ghost function ReadValueLiteral(c: Codec, d: Decoder, data: seq<Byte>, pos: nat): (s: Step)
    requires c.WellFormed() && pos <= |data| && d.valueLength >= 0 && d.table.Valid()
    ensures s.Stop? ==> s.outcome != Done
    ensures s.Stop? ==> s.d == d && pos <= s.pos <= |data|
    ensures s.Wait? ==> s.d == d
    ensures s.Next? ==> s.pos == pos + d.valueLength <= |data| && s.d.state == ReadHeaderRepresentation
    ensures Settled(d) && s.Next? ==> Ready(s.d)
  {
    var end := pos + d.valueLength;
    if |data| < end then Wait(d)
    else
      match StringLiteral(c, d.huffmanEncoded, data[pos..end])
      case Bytes(s) =>
        var (d', out) := InsertHeader(d, d.name, s);
        Next(d'.(state := ReadHeaderRepresentation), end, out)
      case Failed(o) => Stop(d, end, o)
  }

  function Min(a: int, b: int): int { if a < b then a else b }

  function SkipName(d: Decoder, available: nat, pos: nat): (s: Step)
    requires d.state == SkipLiteralHeaderName && available > 0
    ensures s.Next? && pos <= s.pos <= pos + available
    ensures Settled(d) ==> Ready(s.d)
    ensures s.pos > pos || s.d.state == ReadLiteralHeaderValueLengthPrefix
  {
    var toSkip := Min(d.skipLength, available);
    var d := d.(skipLength := d.skipLength - toSkip);
    Next(if d.skipLength == 0 then d.(state := ReadLiteralHeaderValueLengthPrefix) else d, pos + toSkip, [])
  }

  function SkipValue(d: Decoder, available: nat, pos: nat): (s: Step)
    requires d.state == SkipLiteralHeaderValue && d.valueLength >= 0 && available > 0
    ensures s.Next? && pos <= s.pos <= pos + available
    ensures Settled(d) ==> Ready(s.d)
    ensures s.pos > pos || s.d.state == ReadHeaderRepresentation
  {
    var toSkip := Min(d.valueLength, available);
    var d := d.(valueLength := d.valueLength - toSkip);
    Next(if d.valueLength == 0 then d.(state := ReadHeaderRepresentation) else d, pos + toSkip, [])
  }

  /** The states in which the next turn may consume nothing. */
  function Pending(d: Decoder): nat {
    if d.state in {ReadLiteralHeaderName, ReadLiteralHeaderValue, SkipLiteralHeaderName, SkipLiteralHeaderValue} then 1 else 0
  }

  ghost function Turn(c: Codec, d: Decoder, data: seq<Byte>, pos: nat): (s: Step)
    requires c.WellFormed() && Ready(d) && pos < |data|
    ensures s.Stop? ==> s.outcome != Done && (s.outcome != Crashed ==> Ready(s.d) && pos <= s.pos <= |data|)
    ensures s.Wait? ==> Ready(s.d)
    ensures s.Next? ==> Ready(s.d) && pos <= s.pos <= |data|
    ensures s.Next? ==> pos < s.pos || Pending(s.d) < Pending(d)
  {
    match d.state
    case ReadHeaderRepresentation => FirstByte(c, d, data[pos], pos + 1)
    case ReadLiteralHeaderNameLengthPrefix => NameLengthPrefix(d, data[pos], pos + 1)
    case ReadLiteralHeaderName => ReadNameLiteral(c, d, data, pos)
    case SkipLiteralHeaderName => SkipName(d, |data| - pos, pos)
    case ReadLiteralHeaderValueLengthPrefix => ValueLengthPrefix(d, data[pos], pos + 1)
    case ReadLiteralHeaderValue => ReadValueLiteral(c, d, data, pos)
    case SkipLiteralHeaderValue => SkipValue(d, |data| - pos, pos)
    case _ => ReadInteger(c, d, data, pos)
  }

  /** What a call of decode leaves: the decoder, the position, the headers delivered, how it ended. */
  datatype Run = Run(d: Decoder, pos: nat, out: seq<Header>, outcome: Outcome) {
    function After(first: seq<Header>): Run { this.(out := first + out) }
  }

  ghost function Decode(c: Codec, d: Decoder, data: seq<Byte>, pos: nat): (r: Run)
    requires c.WellFormed() && Ready(d) && pos <= |data|
    ensures r.outcome != Crashed ==> Ready(r.d) && pos <= r.pos <= |data|
    decreases |data| - pos, Pending(d)
  {
    if pos == |data| then Run(d, pos, [], Done)
    else
      match Turn(c, d, data, pos)
      case Wait(d') => Run(d', pos, [], Done)
      case Next(d', pos', out) => Decode(c, d', data, pos').After(out)
      case Stop(d', pos', outcome) => Run(d', pos', [], outcome)
  }
}
