// The decoder does not care how its input is cut into pieces.
module HpackStream {
  import opened Words
  import opened PrefixInteger
  import opened HpackFormat
  import opened HpackDecode
  import DT = DynamicTable

  /** Equal but for a length that the decoder's state says is still to be read. */
  function Canon(d: Decoder): Decoder {
    if d.state == ReadLiteralHeaderNameLength then d.(nameLength := 0)
    else if d.state == ReadLiteralHeaderValueLength then d.(valueLength := 0)
    else d
  }

  predicate Same(a: Decoder, b: Decoder) { Canon(a) == Canon(b) }

  predicate SameRun(a: Run, b: Run) {
    Same(a.d, b.d) && a.pos == b.pos && a.out == b.out && a.outcome == b.outcome
  }

  predicate SameStep(a: Step, b: Step) {
    match (a, b)
    case (Wait(d), Wait(d')) => Same(d, d')
    case (Next(d, pos, out), Next(d', pos', out')) => d == d' && pos == pos' && out == out'
    case (Stop(d, pos, o), Stop(d', pos', o')) => Same(d, d') && pos == pos' && o == o'
    case _ => false
  }

  /** A turn does not look at a length that is still to be read. */
  lemma TurnSame(c: Codec, d: Decoder, d': Decoder, data: seq<Byte>, pos: nat)
    requires c.WellFormed() && Ready(d) && Ready(d') && pos < |data| && Same(d, d')
    ensures SameStep(Turn(c, d, data, pos), Turn(c, d', data, pos))
  {
    hide Turn, Ready;
    if d.state == ReadLiteralHeaderNameLength || d.state == ReadLiteralHeaderValueLength {
      LengthTurn(c, d, data, pos);
      LengthTurn(c, d', data, pos);
      LengthSame(c, d, d', data, pos);
    }
  }

  lemma LengthTurn(c: Codec, d: Decoder, data: seq<Byte>, pos: nat)
    requires c.WellFormed() && Ready(d) && pos < |data|
    requires d.state == ReadLiteralHeaderNameLength || d.state == ReadLiteralHeaderValueLength
    ensures Turn(c, d, data, pos) == ReadInteger(c, d, data, pos) && d.Valid()
  {
  }

  lemma NameLengthSame(d: Decoder, x: int, length: nat)
    ensures NameLengthKnown(d.(nameLength := x), length) == NameLengthKnown(d, length)
  {
    assert d.(nameLength := x).(nameLength := length) == d.(nameLength := length);
  }

  lemma ValueLengthSame(d: Decoder, x: int, length: nat)
    ensures ValueLengthKnown(d.(valueLength := x), length) == ValueLengthKnown(d, length)
  {
    assert d.(valueLength := x).(valueLength := length) == d.(valueLength := length);
  }

  lemma LengthSame(c: Codec, d: Decoder, d': Decoder, data: seq<Byte>, pos: nat)
    requires d.Valid() && d'.Valid() && pos < |data| && Same(d, d')
    requires d.state == ReadLiteralHeaderNameLength || d.state == ReadLiteralHeaderValueLength
    ensures SameStep(ReadInteger(c, d, data, pos), ReadInteger(c, d', data, pos))
  {
    hide DecodeULE, IntegerKnown;
    assert d'.state == d.state && d'.index == d.index;
    var r := DecodeULE(data, pos);
    if r.Value? {
      if d.state == ReadLiteralHeaderNameLength {
        NameKnownSame(c, d, d'.nameLength, r.value, r.next);
      } else {
        ValueKnownSame(c, d, d'.valueLength, r.value, r.next);
      }
    }
  }

  lemma NameKnownSame(c: Codec, d: Decoder, x: int, v: nat, next: nat)
    requires d.Valid() && d.state == ReadLiteralHeaderNameLength && x >= -1
    ensures IntegerKnown(c, d.(nameLength := x), v, next) == IntegerKnown(c, d, v, next)
  {
    hide NameLengthKnown;
    NameLengthSame(d, x, d.index + v);
  }

  /** A value's length is looked at only when it is known. */
  lemma ValueKnown(c: Codec, d: Decoder, v: nat, next: nat)
    requires d.Valid() && d.state == ReadLiteralHeaderValueLength
    ensures IntegerKnown(c, d, v, next) ==
            if v > INDEX_MAX - d.index then Stop(d.(valueLength := v), next, Threw(DecompressionException))
            else
              var (d', read) := ValueLengthKnown(d, d.index + v);
              Next(if read then d'.(state := ReadLiteralHeaderValue) else d', next, [])
  {
    hide ValueLengthKnown, SetDynamicTableSize, IndexHeader, ReadName, NameLengthKnown, DT.Table.Valid;
  }

  lemma ValueKnownSame(c: Codec, d: Decoder, x: int, v: nat, next: nat)
    requires d.Valid() && d.state == ReadLiteralHeaderValueLength && x >= -1
    ensures IntegerKnown(c, d.(valueLength := x), v, next) == IntegerKnown(c, d, v, next)
  {
    hide ValueLengthKnown, IntegerKnown, DT.Table.Valid;
    ValueKnown(c, d, v, next);
    ValueKnown(c, d.(valueLength := x), v, next);
    ValueLengthSame(d, x, d.index + v);
  }

  /** Reading the length of a value past its prefix, case by case. */
  lemma ValueIntegerRead(c: Codec, d: Decoder, data: seq<Byte>, pos: nat)
    requires d.Valid() && d.state == ReadLiteralHeaderValueLength && pos <= |data|
    ensures var s := ReadInteger(c, d, data, pos);
            match DecodeULE(data, pos) {
              case Incomplete => s == Wait(d.(valueLength := -1))
              case Malformed => s == Stop(d, pos, Threw(DecompressionException))
              case Value(v, next) =>
                if v > INDEX_MAX - d.index then s == Stop(d.(valueLength := v), next, Threw(DecompressionException))
                else
                  var (d', read) := ValueLengthKnown(d, d.index + v);
                  s == Next(if read then d'.(state := ReadLiteralHeaderValue) else d', next, [])
            }
  {
    hide DecodeULE, IntegerKnown, ValueLengthKnown, DT.Table.Valid;
    var r := DecodeULE(data, pos);
    if r.Value? { ValueKnown(c, d, r.value, r.next); }
  }

  /** The same for the index of a header. */
  lemma HeaderIntegerRead(c: Codec, d: Decoder, data: seq<Byte>, pos: nat)
    requires d.Valid() && d.state == ReadIndexedHeader && d.index >= 1 && pos <= |data|
    ensures var s := ReadInteger(c, d, data, pos);
            match DecodeULE(data, pos) {
              case Incomplete => s == Wait(d)
              case Malformed => s == Stop(d, pos, Threw(DecompressionException))
              case Value(v, next) =>
                if v > INDEX_MAX - d.index then s == Stop(d, next, Threw(DecompressionException))
                else s == IndexHeader(c, d, d.index + v, next)
            }
  {
    hide DecodeULE, IndexHeader, DT.Table.Valid;
  }

  /** The same for the length of a name. */
  lemma NameIntegerRead(c: Codec, d: Decoder, data: seq<Byte>, pos: nat)
    requires d.Valid() && d.state == ReadLiteralHeaderNameLength && pos <= |data|
    ensures var s := ReadInteger(c, d, data, pos);
            match DecodeULE(data, pos) {
              case Incomplete => s == Wait(d.(nameLength := -1))
              case Malformed => s == Stop(d, pos, Threw(DecompressionException))
              case Value(v, next) =>
                if v > INDEX_MAX - d.index then s == Stop(d.(nameLength := v), next, Threw(DecompressionException))
                else s == Next(NameLengthKnown(d, d.index + v), next, [])
            }
  {
    hide DecodeULE, NameLengthKnown, ValueLengthKnown, SetDynamicTableSize, IndexHeader, ReadName, DT.Table.Valid;
  }

  /** And for the byte a value's length begins with. */
  lemma ValuePrefixRead(d: Decoder, b: Byte, pos: nat)
    requires d.table.Valid()
    ensures var e := d.(huffmanEncoded := b >= 128, index := b % 128);
            ValueLengthPrefix(d, b, pos) ==
            if e.index == 0x7F then Next(e.(state := ReadLiteralHeaderValueLength), pos, [])
            else
              var (e', read) := ValueLengthKnown(e, e.index);
              if !read then Next(e', pos, [])
              else if e.index != 0 then Next(e'.(state := ReadLiteralHeaderValue), pos, [])
              else var (e'', out) := InsertHeader(e', e'.name, []); Next(e''.(state := ReadHeaderRepresentation), pos, out)
  {
    hide ValueLengthKnown, InsertHeader, DT.Table.Valid;
  }

  lemma DecodeSame(c: Codec, d: Decoder, d': Decoder, data: seq<Byte>, pos: nat)
    requires c.WellFormed() && Ready(d) && Ready(d') && pos <= |data| && Same(d, d')
    ensures SameRun(Decode(c, d, data, pos), Decode(c, d', data, pos))
  {
    hide Turn;
    if pos < |data| { TurnSame(c, d, d', data, pos); }
  }

  /** A turn that waits leaves the decoder where it was. */
  lemma WaitKeeps(c: Codec, d: Decoder, data: seq<Byte>, pos: nat)
    requires c.WellFormed() && Ready(d) && pos < |data|
    ensures var s := Turn(c, d, data, pos); s.Wait? ==> Same(s.d, d)
  {
    hide FirstByte, ValueLengthPrefix, NameLengthPrefix, SkipName, SkipValue, DecodeULE;
  }

  lemma IntegerStable(c: Codec, d: Decoder, a: seq<Byte>, b: seq<Byte>, pos: nat)
    requires d.Valid() && pos <= |a|
    requires d.state in {ReadMaxDynamicTableSize, ReadIndexedHeader, ReadIndexedHeaderName,
                         ReadLiteralHeaderNameLength, ReadLiteralHeaderValueLength}
    requires d.index >= 1 || d.state !in {ReadIndexedHeader, ReadIndexedHeaderName}
    ensures var s := ReadInteger(c, d, a, pos); !s.Wait? ==> ReadInteger(c, d, a + b, pos) == s
  {
    hide IntegerKnown, ReadULE;
    if !DecodeULE(a, pos).Incomplete? { ULEStable(a, b, pos, 0); }
  }

  lemma NameLiteralStable(c: Codec, d: Decoder, a: seq<Byte>, b: seq<Byte>, pos: nat)
    requires c.WellFormed() && pos <= |a| && d.nameLength >= 0
    ensures var s := ReadNameLiteral(c, d, a, pos); !s.Wait? ==> ReadNameLiteral(c, d, a + b, pos) == s
  {
    hide StringLiteral;
    if d.nameLength <= |a| - pos { SliceStable(a, b, pos, d.nameLength); }
  }

  lemma ValueLiteralStable(c: Codec, d: Decoder, a: seq<Byte>, b: seq<Byte>, pos: nat)
    requires c.WellFormed() && pos <= |a| && d.valueLength >= 0 && d.table.Valid()
    ensures var s := ReadValueLiteral(c, d, a, pos); !s.Wait? ==> ReadValueLiteral(c, d, a + b, pos) == s
  {
    hide StringLiteral, InsertHeader;
    if d.valueLength <= |a| - pos { SliceStable(a, b, pos, d.valueLength); }
  }

  /** A turn that does not wait makes the same move when there is more input, unless it is skipping. */
  lemma TurnStable(c: Codec, d: Decoder, a: seq<Byte>, b: seq<Byte>, pos: nat)
    requires c.WellFormed() && Ready(d) && pos < |a|
    requires d.state != SkipLiteralHeaderName && d.state != SkipLiteralHeaderValue
    ensures var s := Turn(c, d, a, pos); !s.Wait? ==> Turn(c, d, a + b, pos) == s
  {
    hide FirstByte, ValueLengthPrefix, NameLengthPrefix, SkipName, SkipValue, ReadInteger, ReadNameLiteral, ReadValueLiteral;
    assert (a + b)[pos] == a[pos];
    if d.state == ReadLiteralHeaderName {
      NameLiteralStable(c, d, a, b, pos);
    } else if d.state == ReadLiteralHeaderValue {
      ValueLiteralStable(c, d, a, b, pos);
    } else if d.state != ReadHeaderRepresentation && d.state != ReadLiteralHeaderNameLengthPrefix
              && d.state != ReadLiteralHeaderValueLengthPrefix {
      IntegerStable(c, d, a, b, pos);
    }
  }

  lemma SliceStable(a: seq<Byte>, b: seq<Byte>, pos: nat, n: nat)
    requires pos + n <= |a|
    ensures (a + b)[pos..pos + n] == a[pos..pos + n]
  {
  }

  /** Skipping what there is and then the rest is skipping it all. */
  lemma SkipInTwo(c: Codec, d: Decoder, a: seq<Byte>, b: seq<Byte>, pos: nat)
    requires c.WellFormed() && Ready(d) && pos < |a|
    requires d.state == SkipLiteralHeaderName || d.state == SkipLiteralHeaderValue
    ensures var s, t := Turn(c, d, a, pos), Turn(c, d, a + b, pos);
            && s.Next? && s.out == [] && t.Next?
            && (t == s || (s.pos == |a| && (b == [] || Turn(c, s.d, a + b, |a|) == t)))
  {
    hide Ready;
    SkipReady(d);
    if b == [] { assert a + b == a; }
  }

  lemma SkipReady(d: Decoder)
    requires Ready(d) && (d.state == SkipLiteralHeaderName || d.state == SkipLiteralHeaderValue)
    ensures d.state == SkipLiteralHeaderValue ==> d.valueLength >= 0
  {
  }

  lemma AfterNothing(r: Run)
    ensures r.After([]) == r
  {
    assert [] + r.out == r.out;
  }

  lemma DecodeTurn(c: Codec, d: Decoder, data: seq<Byte>, pos: nat)
    requires c.WellFormed() && Ready(d) && pos < |data|
    ensures var s, r := Turn(c, d, data, pos), Decode(c, d, data, pos);
            if s.Wait? then r == Run(s.d, pos, [], Done)
            else if s.Next? then Ready(s.d) && s.pos <= |data| && r == Decode(c, s.d, data, s.pos).After(s.out)
            else r == Run(s.d, s.pos, [], s.outcome)
  {
    hide Turn, Ready;
  }

  /**
   * One call on a, and if it ended well another on a + b, is one call on a + b: same
   * headers, same position, same exception, and decoders that differ at most in a
   * length still to be read.
   */
  lemma {:induction false} DecodeInTwo(c: Codec, d: Decoder, a: seq<Byte>, b: seq<Byte>, pos: nat)
    requires c.WellFormed() && Ready(d) && pos <= |a|
    ensures var first := Decode(c, d, a, pos);
            && (first.outcome == Done ==> Ready(first.d) && pos <= first.pos <= |a|)
            && SameRun(Decode(c, d, a + b, pos),
                       if first.outcome == Done then Decode(c, first.d, a + b, first.pos).After(first.out) else first)
    decreases |a| - pos, Pending(d)
  {
    hide Turn, Ready, Decode;
    if pos == |a| {
      DecodeEnd(c, d, a);
    } else {
      DecodeTurn(c, d, a, pos);
      DecodeTurn(c, d, a + b, pos);
      match Turn(c, d, a, pos) {
        case Wait(d') =>
          WaitKeeps(c, d, a, pos);
          DecodeSame(c, d, d', a + b, pos);
        case Next(d', pos', out) =>
          NextInTwo(c, d, a, b, pos);
          DecodeInTwo(c, d', a, b, pos');
        case Stop(d', pos', outcome) =>
          SkipNever(c, d, a, pos);
          TurnStable(c, d, a, b, pos);
      }
    }
  }

  lemma DecodeEnd(c: Codec, d: Decoder, data: seq<Byte>)
    requires c.WellFormed() && Ready(d)
    ensures Decode(c, d, data, |data|) == Run(d, |data|, [], Done)
  {
  }

  lemma SkipNever(c: Codec, d: Decoder, data: seq<Byte>, pos: nat)
    requires c.WellFormed() && Ready(d) && pos < |data| && !Turn(c, d, data, pos).Next?
    ensures d.state != SkipLiteralHeaderName && d.state != SkipLiteralHeaderValue
  {
  }

  /** A move made on a is made on a + b too, or is the first half of the one made there. */
  lemma NextInTwo(c: Codec, d: Decoder, a: seq<Byte>, b: seq<Byte>, pos: nat)
    requires c.WellFormed() && Ready(d) && pos < |a| && Turn(c, d, a, pos).Next?
    ensures var s := Turn(c, d, a, pos);
            && Ready(s.d) && pos <= s.pos <= |a| && (pos < s.pos || Pending(s.d) < Pending(d))
            && Decode(c, d, a + b, pos) == Decode(c, s.d, a + b, s.pos).After(s.out)
  {
    hide Turn, Ready, Decode;
    var s := Turn(c, d, a, pos);
    DecodeTurn(c, d, a + b, pos);
    if d.state == SkipLiteralHeaderName || d.state == SkipLiteralHeaderValue {
      SkipInTwo(c, d, a, b, pos);
      if b == [] {
        assert a + b == a;
      } else if s.pos == |a| {
        DecodeTurn(c, s.d, a + b, s.pos);
        AfterNothing(Decode(c, s.d, a + b, s.pos));
      }
    } else {
      TurnStable(c, d, a, b, pos);
    }
  }

  // ---- any number of pieces

  /** Append each piece to the same buffer and call decode, until one call throws. */
  ghost function DecodePieces(c: Codec, d: Decoder, data: seq<Byte>, pos: nat, pieces: seq<seq<Byte>>): Run
    requires c.WellFormed() && Ready(d) && pos <= |data|
    decreases |pieces|
  {
    if pieces == [] then Run(d, pos, [], Done)
    else
      var r := Decode(c, d, data + pieces[0], pos);
      if r.outcome != Done then r
      else DecodePieces(c, r.d, data + pieces[0], r.pos, pieces[1..]).After(r.out)
  }

  /** Nothing more can be made of the data there is. */
  ghost predicate Quiet(c: Codec, d: Decoder, data: seq<Byte>, pos: nat)
    requires c.WellFormed() && Ready(d) && pos <= |data|
  {
    SameRun(Decode(c, d, data, pos), Run(d, pos, [], Done))
  }

  lemma {:induction false} DecodeInPieces(c: Codec, d: Decoder, data: seq<Byte>, pos: nat, pieces: seq<seq<Byte>>)
    requires c.WellFormed() && Ready(d) && pos <= |data| && Quiet(c, d, data, pos)
    ensures SameRun(DecodePieces(c, d, data, pos, pieces), Decode(c, d, data + Concat(pieces), pos))
    decreases |pieces|
  {
    hide Decode, Ready;
    if pieces == [] {
      assert data + Concat(pieces) == data;
    } else {
      var data', rest := data + pieces[0], Concat(pieces[1..]);
      assert data + Concat(pieces) == data' + rest;
      var r := Decode(c, d, data', pos);
      DecodeInTwo(c, d, data', rest, pos);
      if r.outcome == Done {
        DecodeInTwo(c, d, data', [], pos);
        assert data' + [] == data';
        assert Quiet(c, r.d, data', r.pos);
        DecodeInPieces(c, r.d, data', r.pos, pieces[1..]);
      }
    }
  }

  /** Split independence: however a stream is cut, the decoder's run over it is the same. */
  lemma SplitIndependence(c: Codec, d: Decoder, pieces: seq<seq<Byte>>)
    requires c.WellFormed() && Ready(d)
    ensures SameRun(DecodePieces(c, d, [], 0, pieces), Decode(c, d, Concat(pieces), 0))
  {
    DecodeEnd(c, d, []);
    DecodeInPieces(c, d, [], 0, pieces);
    assert [] + Concat(pieces) == Concat(pieces);
  }
}
