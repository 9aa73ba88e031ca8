// A dynamic table size update (section 6.3): the encoder's setMaxHeaderTableSize and
// what it does to the decoder's ring.
module TableSize {
  import opened Words
  import opened HeaderTable
  import opened PrefixInteger
  import opened HpackFormat
  import opened HpackDecode
  import opened HpackReading
  import opened HpackStream
  import opened LockStep
  import DT = DynamicTable
  import HuffmanDecode

  function SetMax(e: Encoder, n: nat): (r: (seq<Byte>, Encoder)) {
    PrefixesAreValid();
    if e.capacity == n then ([], e)
    else (IntegerBytes(0x20, 5, n), Encoder(e.table.Evicted(n), n))
  }

  /**
   * The ring survives a change of capacity exactly when it keeps its number of slots, or
   * nothing is left in it, or what is left does not run over its end: the copy advances past
   * the last slot before it wraps.
   */
  lemma ResizeKeeps(t: DT.Table, c: nat)
    requires t.Valid() && AllNamed(t.entries)
    ensures var kept := Evict(t.entries, c);
            && |kept| <= |t.entries| <= DT.RingSize(t.capacity)
            && (t.ResizeOutcome(c) == DT.Kept <==>
                  || DT.RingSize(c) == DT.RingSize(t.capacity)
                  || kept == []
                  || t.TailOf(kept) + |kept| <= DT.RingSize(t.capacity))
            && t.ResizeOutcome(c) != DT.Lost
  {
    var kept := Evict(t.entries, c);
    EvictFits(t.entries, c);
    NamedSizes(t.entries);
    NamedSuffix(t.entries, |t.entries| - |kept|);
    NamedSizes(kept);
  }

  lemma NamedSuffix(fs: seq<Field>, k: nat)
    requires AllNamed(fs) && k <= |fs|
    ensures AllNamed(fs[k..])
  {
  }

  /** A ring that has never wrapped, tail at slot 0, survives every change of capacity. */
  lemma UnwrappedResizes(t: DT.Table, c: nat)
    requires t.Valid() && AllNamed(t.entries) && t.tail + |t.entries| <= DT.RingSize(t.capacity)
    ensures t.ResizeOutcome(c) == DT.Kept
  {
    ResizeKeeps(t, c);
  }

  /** The ring after a run of insertions. */
  function Filled(t: DT.Table, fs: seq<Field>): (r: DT.Table)
    requires t.Valid()
    ensures r.Valid()
    decreases |fs|
  {
    if fs == [] then t else Filled(t.Add(fs[0]), fs[1..])
  }

  /** A wrapped one need not: six small fields into four slots leave three of them in slots 3, 0 and 1; five slots are asked for. */
  lemma WrappedResizeTraps()
    ensures var f := Field([97], [98]);
            var t := Filled(DT.Table([], 128, 0), [f, f, f, f, f, f]);
            AllNamed(t.entries) && t.entries == [f, f, f] && t.ResizeOutcome(160) == DT.Trapped
  {
    hide Evict, Total, DT.Table.Valid;
    var f := Field([97], [98]);
    var t0 := DT.Table([], 128, 0);
    EmptyIsValid();
    SmallTotals(f);
    var t1, t2, t3 := DT.Table([f], 128, 0), DT.Table([f, f], 128, 0), DT.Table([f, f, f], 128, 0);
    var t4, t5, t6 := DT.Table([f, f, f], 128, 1), DT.Table([f, f, f], 128, 2), DT.Table([f, f, f], 128, 3);
    EvictNothing([], 94);
    EvictNothing([f], 94);
    EvictNothing([f, f], 94);
    EvictOne([f, f, f], 94);
    EvictNothing([f, f, f], 160);
    assert [f, f, f][1..] == [f, f];
    assert [] + [f] == [f] && [f] + [f] == [f, f] && [f, f] + [f] == [f, f, f];
    assert t0.Add(f) == t1;
    assert t1.Add(f) == t2;
    assert t2.Add(f) == t3;
    assert t3.Add(f) == t4;
    assert t4.Add(f) == t5;
    assert t5.Add(f) == t6;
    SixTimes(t0, f);
  }

  lemma EmptyIsValid()
    ensures DT.Table([], 128, 0).Valid()
  {
  }

  lemma SmallTotals(f: Field)
    requires f.Size() == 34
    ensures Total([]) == 0 && Total([f]) == 34 && Total([f, f]) == 68 && Total([f, f, f]) == 102
  {
    TotalSnoc([], f);
    TotalSnoc([f], f);
    TotalSnoc([f, f], f);
    assert [] + [f] == [f] && [f] + [f] == [f, f] && [f, f] + [f] == [f, f, f];
  }

  lemma SixTimes(t: DT.Table, f: Field)
    requires t.Valid()
    ensures Filled(t, [f, f, f, f, f, f]) == t.Add(f).Add(f).Add(f).Add(f).Add(f).Add(f)
  {
    hide DT.Table.Add, DT.Table.Valid;
    assert [f, f, f, f, f, f][1..] == [f, f, f, f, f] && [f, f, f, f, f][1..] == [f, f, f, f] && [f, f, f, f][1..] == [f, f, f];
    assert [f, f, f][1..] == [f, f] && [f, f][1..] == [f] && [f][1..] == [];
    var t3 := t.Add(f).Add(f).Add(f);
    assert Filled(t, [f, f, f, f, f, f]) == Filled(t.Add(f), [f, f, f, f, f]) == Filled(t.Add(f).Add(f), [f, f, f, f]);
    assert Filled(t.Add(f).Add(f), [f, f, f, f]) == Filled(t3, [f, f, f]);
    assert Filled(t3, [f, f, f]) == Filled(t3.Add(f), [f, f]) == Filled(t3.Add(f).Add(f), [f]);
    assert Filled(t3.Add(f).Add(f), [f]) == Filled(t3.Add(f).Add(f).Add(f), []);
  }

  lemma SizeTurn(c: Codec, d: Decoder, data: seq<Byte>, pos: nat, n: nat)
    requires c.WellFormed() && AtFirstByte(d) && pos < |data| && data[pos] == 0x20 + Cap(n, 5)
    ensures Turn(c, d, data, pos) ==
            if n >= 31 then Next(d.(index := 31, state := ReadMaxDynamicTableSize), pos + 1, [])
            else SetDynamicTableSize(d.(index := n), n, pos + 1)
  {
    hide SetDynamicTableSize;
    PrefixMaxes();
  }

  lemma MoreSizeTurn(c: Codec, d: Decoder, data: seq<Byte>, pos: nat, v: nat, next: nat)
    requires c.WellFormed() && Ready(d) && d.state == ReadMaxDynamicTableSize && pos < |data|
    requires DecodeULE(data, pos) == Value(v, next) && d.index + v <= INDEX_MAX
    ensures Turn(c, d, data, pos) == SetDynamicTableSize(d, d.index + v, next)
  {
    hide DecodeULE, SetDynamicTableSize;
  }

  lemma ReadSize(c: Codec, d: Decoder, data: seq<Byte>, n: nat)
    requires c.WellFormed() && AtFirstByte(d) && data == IntegerBytes(0x20, 5, n) && n <= INDEX_MAX
    ensures var r := Decode(c, d, data, 0);
            if d.table.ResizeOutcome(n) == DT.Kept
            then r.outcome == Done && r.pos == |data| && r.out == [] && AtHeader(r.d) && r.d.table == d.table.Resize(n)
                 && r.d.headerSize == d.headerSize && r.d.nameLength == d.nameLength && r.d.maxHeaderSize == d.maxHeaderSize
            else r.outcome == Crashed
  {
    hide *;
    PrefixMaxes();
    PrefixesAreValid();
    SizeThere(data, n);
    ReadyToSize(d, n);
    SizeTurn(c, d, data, 0, n);
    DecodeTurn(c, d, data, 0);
    DT.ResizeIsValid(d.table, n);
    if n >= 31 {
      var d1 := d.(index := 31, state := ReadMaxDynamicTableSize);
      AfterNothing(Decode(c, d1, data, 1));
      MoreSizeTurn(c, d1, data, 1, n - 31, |data|);
      DecodeTurn(c, d1, data, 1);
      SizeEnd(c, d1, n, data);
    } else {
      SizeEnd(c, d.(index := n), n, data);
    }
    var s := SetDynamicTableSize(if n >= 31 then d.(index := 31, state := ReadMaxDynamicTableSize) else d.(index := n), n, |data|);
    if s.Next? { AfterNothing(Decode(c, s.d, data, |data|)); }
  }

  /** The bytes of an update, all there is. */
  lemma SizeThere(data: seq<Byte>, n: nat)
    requires ValidPrefix(0x20, 5) && data == IntegerBytes(0x20, 5, n) && n <= INDEX_MAX
    ensures 0 < |data| && data[0] == 0x20 + Cap(n, 5)
    ensures n < 31 ==> |data| == 1
    ensures n >= 31 ==> 1 < |data| && DecodeULE(data, 1) == Value(n - 31, |data|)
  {
    hide ReadULE, Groups;
    PrefixMaxes();
    assert data[0..|data|] == data;
    ReadsInteger(data, 0, 0x20, 5, n);
    if |data| == 1 && n >= 31 { ULEAtEnd(data); }
  }

  lemma ULEAtEnd(data: seq<Byte>)
    requires |data| == 1
    ensures DecodeULE(data, 1).Incomplete?
  {
  }

  lemma ReadyToSize(d: Decoder, n: nat)
    requires AtFirstByte(d)
    ensures Ready(d) && d.state == ReadHeaderRepresentation && d.table.Valid()
    ensures Ready(d.(index := 31, state := ReadMaxDynamicTableSize))
    ensures n < 31 ==> Ready(d.(index := n))
  {
    hide DT.Table.Valid;
  }

  lemma SizeEnd(c: Codec, d: Decoder, n: nat, data: seq<Byte>)
    requires c.WellFormed() && Ready(d) && (d.state == ReadHeaderRepresentation || d.state == ReadMaxDynamicTableSize)
    ensures var s := SetDynamicTableSize(d, n, |data|);
            if d.table.ResizeOutcome(n) == DT.Kept
            then s.Next? && s.pos == |data| && s.out == [] && AtHeader(s.d) && s.d.table == d.table.Resize(n)
                 && s.d.headerSize == d.headerSize && s.d.nameLength == d.nameLength && s.d.maxHeaderSize == d.maxHeaderSize
                 && Decode(c, s.d, data, |data|) == Run(s.d, |data|, [], Done)
            else s.Stop? && s.outcome == Crashed
  {
    hide Decode;
    var s := SetDynamicTableSize(d, n, |data|);
    if s.Next? { DecodeEnd(c, s.d, data); }
  }

  /** The size update keeps the two ends in step exactly when the decoder's ring survives it. */
  lemma SizeUpdateExact(c: Codec, e: Encoder, d: Decoder, n: nat)
    requires c.WellFormed() && InStep(e, d) && n <= INDEX_MAX && n != e.capacity
    ensures var (bytes, e') := SetMax(e, n); var r := Decode(c, d, bytes, 0);
            r.outcome == Done && InStep(e', r.d) <==> d.table.ResizeOutcome(n) == DT.Kept
  {
    hide Decode, IntegerBytes, Evict, Total, DT.Table.ResizeOutcome;
    ReadSize(c, d, SetMax(e, n).0, n);
    EvictFits(e.table.fields, n);
    NamedSuffix(e.table.fields, |e.table.fields| - |Evict(e.table.fields, n)|);
  }

  // ---- the decoder asks for a smaller table

  /** The decoder's setMaxHeaderTableSize, when its ring survives it. */
  function SetMaximum(d: Decoder, n: nat): (r: Decoder)
    requires d.table.Valid()
    ensures d.table.ResizeOutcome(n) == DT.Kept ==> r.table.Valid()
  {
    DT.ResizeIsValid(d.table, n);
    var d' := d.(maxDynamicTableSize := n);
    if n < d.encoderMaxDynamicTableSize
    then d'.(maxDynamicTableSizeChangeRequired := true, table := d.table.Resize(n))
    else d'
  }

  /** No change is asked for, or one is being read. */
  predicate Answered(d: Decoder) {
    d.maxDynamicTableSizeChangeRequired ==> d.state == ReadMaxDynamicTableSize
  }

  ghost predicate GoesOn(s: Step) {
    && (s.Next? ==> Answered(s.d))
    && (s.Stop? ==> s.outcome != Threw(MaxDynamicTableSizeChangeRequested))
  }

  lemma FirstByteGoesOn(c: Codec, d: Decoder, b: Byte, pos: nat)
    requires d.Valid() && (!d.maxDynamicTableSizeChangeRequired || b / 32 == 1)
    ensures GoesOn(FirstByte(c, d, b, pos))
  {
    hide FieldAt, DT.Table.ResizeOutcome, DT.Table.Resize, DT.Table.Valid;
  }

  lemma IntegerGoesOn(c: Codec, d: Decoder, data: seq<Byte>, pos: nat)
    requires c.WellFormed() && Ready(d) && Answered(d) && pos < |data|
    requires d.state in {ReadMaxDynamicTableSize, ReadIndexedHeader, ReadIndexedHeaderName,
                         ReadLiteralHeaderNameLength, ReadLiteralHeaderValueLength}
    ensures GoesOn(ReadInteger(c, d, data, pos))
  {
    hide FieldAt, DT.Table.ResizeOutcome, DT.Table.Resize, DT.Table.Valid, DecodeULE;
  }

  lemma TurnGoesOn(c: Codec, d: Decoder, data: seq<Byte>, pos: nat)
    requires c.WellFormed() && Ready(d) && Answered(d) && pos < |data|
    ensures GoesOn(Turn(c, d, data, pos))
  {
    hide FirstByte, ReadInteger, FieldAt, DT.Table.Valid, HuffmanDecode.Decode;
    if d.state == ReadHeaderRepresentation {
      FirstByteGoesOn(c, d, data[pos], pos + 1);
    } else if d.state in {ReadMaxDynamicTableSize, ReadIndexedHeader, ReadIndexedHeaderName,
                          ReadLiteralHeaderNameLength, ReadLiteralHeaderValueLength} {
      IntegerGoesOn(c, d, data, pos);
    }
  }

  lemma {:induction false} NeverRefused(c: Codec, d: Decoder, data: seq<Byte>, pos: nat)
    requires c.WellFormed() && Ready(d) && Answered(d) && pos <= |data|
    ensures Decode(c, d, data, pos).outcome != Threw(MaxDynamicTableSizeChangeRequested)
    decreases |data| - pos, Pending(d)
  {
    hide Turn, Ready, Answered, Pending, Decode;
    if pos < |data| {
      TurnGoesOn(c, d, data, pos);
      DecodeTurn(c, d, data, pos);
      var s := Turn(c, d, data, pos);
      if s.Next? { NeverRefused(c, s.d, data, s.pos); }
    } else {
      DecodeEnd(c, d, data);
    }
  }

  /** While a change is asked for, input is refused, at its first byte and with nothing delivered, exactly when that is no size update. */
  lemma RefusedExactly(c: Codec, d: Decoder, data: seq<Byte>, pos: nat)
    requires c.WellFormed() && AtFirstByte(d) && d.maxDynamicTableSizeChangeRequired && pos < |data|
    ensures var r := Decode(c, d, data, pos);
            if data[pos] / 32 == 1 then r.outcome != Threw(MaxDynamicTableSizeChangeRequested)
            else r == Run(d, pos + 1, [], Threw(MaxDynamicTableSizeChangeRequested))
  {
    hide Decode, Ready, Turn;
    DecodeTurn(c, d, data, pos);
    TurnAtUpdate(c, d, data, pos);
    var s := Turn(c, d, data, pos);
    if s.Next? { NeverRefused(c, s.d, data, s.pos); }
  }

  lemma TurnAtUpdate(c: Codec, d: Decoder, data: seq<Byte>, pos: nat)
    requires c.WellFormed() && AtFirstByte(d) && d.maxDynamicTableSizeChangeRequired && pos < |data|
    ensures var s := Turn(c, d, data, pos);
            if data[pos] / 32 == 1 then GoesOn(s) && !s.Wait?
            else s == Stop(d, pos + 1, Threw(MaxDynamicTableSizeChangeRequested))
  {
    if data[pos] / 32 == 1 {
      hide FirstByte, GoesOn;
      FirstByteGoesOn(c, d, data[pos], pos + 1);
    }
  }

  lemma {:induction false} EvictAgain(fs: seq<Field>, n: nat)
    ensures Evict(Evict(fs, n), n) == Evict(fs, n)
  {
    EvictFits(fs, n);
    EvictNothing(Evict(fs, n), n);
  }

  /** Both ends told to use the smaller table: after the encoder's update they are in step again, if the ring survived. */
  lemma Negotiated(c: Codec, e: Encoder, d: Decoder, n: nat)
    requires c.WellFormed() && InStep(e, d) && n <= INDEX_MAX && n != e.capacity && n < d.encoderMaxDynamicTableSize
    requires d.table.ResizeOutcome(n) == DT.Kept
    ensures AtFirstByte(SetMaximum(d, n))
    ensures var (bytes, e') := SetMax(e, n);
            var r := Decode(c, SetMaximum(d, n), bytes, 0);
            r.outcome == Done && r.out == [] && r.pos == |bytes| && InStep(e', r.d)
  {
    hide Decode, IntegerBytes, Ready;
    LoweredIsReady(d, n);
    var d1 := SetMaximum(d, n);
    ReadSize(c, d1, SetMax(e, n).0, n);
    EvictFits(e.table.fields, n);
    EvictAgain(d.table.entries, n);
    NamedSuffix(e.table.fields, |e.table.fields| - |Evict(e.table.fields, n)|);
  }

  lemma LoweredIsReady(d: Decoder, n: nat)
    requires AtHeader(d) && d.table.ResizeOutcome(n) == DT.Kept
    ensures d.table.Valid() && AtFirstByte(SetMaximum(d, n))
    ensures n < d.encoderMaxDynamicTableSize ==> SetMaximum(d, n).table.ResizeOutcome(n) == DT.Kept
    ensures n < d.encoderMaxDynamicTableSize ==>
            SetMaximum(d, n).table.Resize(n).entries == Evict(d.table.entries, n) && SetMaximum(d, n).table.Resize(n).capacity == n
  {
    EvictAgain(d.table.entries, n);
    DT.ResizeIsValid(d.table, n);
  }
}
