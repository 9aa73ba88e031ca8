// Runs of both ends that mix headers of every kind, ends of blocks and size updates: exactly
// when everything arrives and the two tables are equal all the way.
module LockStepRuns {
  import opened Words
  import opened HeaderTable
  import opened PrefixInteger
  import opened HpackFormat
  import opened HpackDecode
  import opened HpackReading
  import opened HpackStream
  import opened LockStep
  import opened LockStepExact
  import opened TableSize
  import opened Utf8
  import DT = DynamicTable
  import Static = StaticTable
  import HuffmanCode

  /** What the program does with an encoder; the peer decodes what it writes, and ends its blocks. */
  datatype Op = Send(field: Field, sensitive: bool, incrementalIndexing: bool) | EndBlock | SetSize(n: nat)

  /** What there is to keep track of to know how a peer's decoder takes the next header: its ring, and two counts. */
  datatype Ledger = Ledger(table: DT.Table, headerSize: nat, nameLength: int)

  function LedgerOf(d: Decoder): Ledger { Ledger(d.table, d.headerSize, d.nameLength) }

  // ---- what happens

  ghost function Performed(c: Codec, e: Encoder, d: Decoder, op: Op): (r: (Encoder, Run))
    requires c.WellFormed() && Ready(d)
  {
    match op
    case Send(f, sensitive, incrementalIndexing) =>
      var (bytes, e') := Encode(c, e, f, sensitive, incrementalIndexing);
      (e', Decode(c, d, bytes, 0))
    case EndBlock => (e, Run(d.Reset(), 0, [], Done))
    case SetSize(n) =>
      var (bytes, e') := SetMax(e, n);
      (e', Decode(c, d, bytes, 0))
  }

  function Expected(op: Op): seq<Header> {
    if op.Send? then [Header(op.field.name, op.field.value, op.sensitive)] else []
  }

  ghost predicate Arrives(e: Encoder, r: Run, out: seq<Header>) {
    r.outcome == Done && r.out == out && InStep(e, r.d)
  }

  /** Each header is delivered, nothing else is, and after each operation the two tables are equal. */
  ghost predicate AllArrive(c: Codec, e: Encoder, d: Decoder, ops: seq<Op>)
    requires c.WellFormed() && InStep(e, d)
    decreases |ops|
  {
    ops == []
    || (InStepAtHeader(e, d);
        AtHeaderReady(d);
        var (e', r) := Performed(c, e, d, ops[0]);
        Arrives(e', r, Expected(ops[0])) && AllArrive(c, e', r.d, ops[1..]))
  }

  // ---- what a caller can know beforehand

  ghost function Next(c: Codec, e: Encoder, l: Ledger, op: Op): Ledger
    requires c.WellFormed() && l.table.Valid()
  {
    match op
    case Send(f, sensitive, incrementalIndexing) =>
      var choice := Choose(c, e, f, sensitive, incrementalIndexing);
      Ledger(if choice.addsToTable && incrementalIndexing then l.table.Add(f) else l.table,
             l.headerSize + |f.name| + |f.value|, NameLengthAfter(c, l.nameLength, f, choice.rep))
    case EndBlock => l.(headerSize := 0)
    case SetSize(n) => if n == e.capacity then l else l.(table := l.table.Resize(n))
  }

  function Encoded(c: Codec, e: Encoder, op: Op): Encoder
    requires c.WellFormed()
  {
    match op
    case Send(f, sensitive, incrementalIndexing) =>
      if Choose(c, e, f, sensitive, incrementalIndexing).addsToTable
      then e.(table := e.table.Evicted(e.capacity - f.Size()).Added(e.capacity, f)) else e
    case EndBlock => e
    case SetSize(n) => if n == e.capacity then e else Encoder(e.table.Evicted(n), n)
  }

  /** What must hold of one operation: of a header, of the room for it, and of what it adds on one side or both. */
  ghost predicate OpOk(c: Codec, e: Encoder, l: Ledger, limit: nat, op: Op)
    requires c.WellFormed() && l.table.Valid()
  {
    match op
    case Send(f, sensitive, incrementalIndexing) =>
      var choice := Choose(c, e, f, sensitive, incrementalIndexing);
      && HeaderOk(c, e, f, sensitive, incrementalIndexing)
      && l.headerSize + |f.name| + |f.value| <= limit
      && (choice.rep.Literal? && choice.rep.nameIndex != -1 ==> l.nameLength + |Raw(c, f.value)| + l.headerSize <= limit)
      && (choice.addsToTable ==> if incrementalIndexing then f.name != [] else AllCopies(e.table.fields, e.capacity, f))
    case EndBlock => true
    case SetSize(n) => n == e.capacity || l.table.ResizeOutcome(n) == DT.Kept
  }

  lemma NextIsValid(c: Codec, e: Encoder, l: Ledger, limit: nat, op: Op)
    requires c.WellFormed() && l.table.Valid() && OpOk(c, e, l, limit, op)
    ensures Next(c, e, l, op).table.Valid()
  {
    if op.SetSize? { DT.ResizeIsValid(l.table, op.n); }
  }

  /** Nothing here looks at a byte or at the decoder. */
  ghost predicate RunOk(c: Codec, e: Encoder, l: Ledger, limit: nat, ops: seq<Op>)
    requires c.WellFormed() && l.table.Valid()
    decreases |ops|
  {
    ops == []
    || (OpOk(c, e, l, limit, ops[0])
        && (NextIsValid(c, e, l, limit, ops[0]);
            RunOk(c, Encoded(c, e, ops[0]), Next(c, e, l, ops[0]), limit, ops[1..])))
  }

  // ---- one operation

  /** A header that is delivered leaves the tables equal if and only if both ends, or none, have made a move that shows. */
  lemma TablesExactly(c: Codec, e: Encoder, d: Decoder, f: Field, sensitive: bool, incrementalIndexing: bool, d': Decoder)
    requires c.WellFormed() && InStep(e, d) && d.table.Valid()
    requires Finished(d, d', f, if Choose(c, e, f, sensitive, incrementalIndexing).addsToTable && incrementalIndexing
                                then d.table.Add(f) else d.table)
    ensures InStep(Encode(c, e, f, sensitive, incrementalIndexing).1, d') <==>
            (Choose(c, e, f, sensitive, incrementalIndexing).addsToTable ==>
               if incrementalIndexing then f.name != [] else AllCopies(e.table.fields, e.capacity, f))
  {
    hide Choose, HeaderBytes, Finished, AllCopies, InStep;
    if !incrementalIndexing {
      WithoutIndexingExact(c, e, d, f, sensitive, d');
    } else if !Choose(c, e, f, sensitive, incrementalIndexing).addsToTable {
      NothingAdded(e, d, d', f);
    } else if f.name != [] {
      StaysInStep(c, e, d, f, sensitive, incrementalIndexing, d');
    } else {
      AddsFits(c, e, f, sensitive, incrementalIndexing);
      AddedTwice(e.table, e.capacity, f);
      UnnamedIsOut(e, f, Encode(c, e, f, sensitive, incrementalIndexing).1, d');
    }
  }

  lemma NothingAdded(e: Encoder, d: Decoder, d': Decoder, f: Field)
    requires InStep(e, d) && Finished(d, d', f, d.table)
    ensures InStep(e, d')
  {
  }

  lemma UnnamedIsOut(e: Encoder, f: Field, e': Encoder, d: Decoder)
    requires f.name == [] && f.Size() <= e.capacity && e'.table.fields == Insert(e.table.fields, e.capacity, f)
    ensures !InStep(e', d)
  {
    var fs := e'.table.fields;
    assert fs[|fs| - 1] == f;
  }

  lemma SendExactly(c: Codec, e: Encoder, d: Decoder, op: Op)
    requires c.WellFormed() && HuffmanCode.Good(c.huffman) && InStep(e, d) && Modest(c, e) && op.Send?
    requires d.headerSize <= d.maxHeaderSize
    ensures Ready(d) && d.table.Valid()
    ensures var (e', r) := Performed(c, e, d, op);
            && e' == Encoded(c, e, op) && e'.capacity == e.capacity
            && (Arrives(e', r, Expected(op)) <==> OpOk(c, e, LedgerOf(d), d.maxHeaderSize, op))
            && (Arrives(e', r, Expected(op)) ==>
                  LedgerOf(r.d) == Next(c, e, LedgerOf(d), op) && r.d.maxHeaderSize == d.maxHeaderSize && r.d.headerSize <= d.maxHeaderSize)
  {
    hide Decode, HuffmanCode.Good, InStep, HeaderOk, Choose, Encode, Ready, AllCopies, Raw, AtHeader, DT.Table.Valid;
    var f, sensitive, indexing := op.field, op.sensitive, op.incrementalIndexing;
    InStepAtHeader(e, d);
    AtHeaderReady(d);
    EncodesTo(c, e, op);
    HeaderExact(c, e, d, f, sensitive, indexing);
    if HeaderOk(c, e, f, sensitive, indexing) && Room(c, d, f, Choose(c, e, f, sensitive, indexing).rep) {
      var d' := Delivered(c, e, d, op);
      TablesExactly(c, e, d, f, sensitive, indexing, d');
    }
  }

  lemma EncodesTo(c: Codec, e: Encoder, op: Op)
    requires c.WellFormed() && op.Send?
    ensures Encode(c, e, op.field, op.sensitive, op.incrementalIndexing).1 == Encoded(c, e, op)
    ensures Encoded(c, e, op).capacity == e.capacity
  {
  }

  /** The decoder behind a header that is delivered. */
  lemma Delivered(c: Codec, e: Encoder, d: Decoder, op: Op) returns (d': Decoder)
    requires c.WellFormed() && HuffmanCode.Good(c.huffman) && InStep(e, d) && Modest(c, e) && op.Send?
    requires HeaderOk(c, e, op.field, op.sensitive, op.incrementalIndexing)
    requires Room(c, d, op.field, Choose(c, e, op.field, op.sensitive, op.incrementalIndexing).rep)
    ensures var f := op.field;
            var choice := Choose(c, e, f, op.sensitive, op.incrementalIndexing);
            var data := Encode(c, e, f, op.sensitive, op.incrementalIndexing).0;
            && Ready(d) && Decode(c, d, data, 0) == Run(d', |data|, Expected(op), Done)
            && d.table.Valid()
            && Finished(d, d', f, if choice.addsToTable && op.incrementalIndexing then d.table.Add(f) else d.table)
            && d'.nameLength == NameLengthAfter(c, d.nameLength, f, choice.rep)
  {
    hide Decode, HuffmanCode.Good, Room, InStep, HeaderOk, Choose, Encode, Ready, NameLengthAfter, DT.Table.Valid;
    InStepAtHeader(e, d);
    AtHeaderReady(d);
    var data := Encode(c, e, op.field, op.sensitive, op.incrementalIndexing).0;
    assert data[0..] == data;
    d' := HeaderStep(c, e, d, op.field, op.sensitive, op.incrementalIndexing, data, 0);
    AtHeaderReady(d');
    DecodeEnd(c, d', data);
    assert Expected(op) + [] == Expected(op);
  }

  lemma SizeExactly(c: Codec, e: Encoder, d: Decoder, op: Op)
    requires c.WellFormed() && InStep(e, d) && op.SetSize? && op.n <= INDEX_MAX
    ensures Ready(d) && d.table.Valid()
    ensures var (e', r) := Performed(c, e, d, op);
            && e' == Encoded(c, e, op)
            && (Arrives(e', r, Expected(op)) <==> OpOk(c, e, LedgerOf(d), d.maxHeaderSize, op))
            && (Arrives(e', r, Expected(op)) ==>
                  LedgerOf(r.d) == Next(c, e, LedgerOf(d), op) && r.d.maxHeaderSize == d.maxHeaderSize && r.d.headerSize == d.headerSize)
  {
    hide Decode, InStep, Ready, AtHeader, DT.Table.Valid;
    InStepAtHeader(e, d);
    AtHeaderReady(d);
    if op.n == e.capacity {
      DecodeEnd(c, d, []);
    } else {
      SizeUpdateExact(c, e, d, op.n);
      InStepFirstByte(e, d);
      ReadSize(c, d, SetMax(e, op.n).0, op.n);
    }
  }

  lemma InStepFirstByte(e: Encoder, d: Decoder)
    requires InStep(e, d)
    ensures AtFirstByte(d)
  {
  }

  // ---- whole runs

  lemma OpExactly(c: Codec, e: Encoder, d: Decoder, op: Op)
    requires c.WellFormed() && HuffmanCode.Good(c.huffman) && InStep(e, d) && Modest(c, e)
    requires d.headerSize <= d.maxHeaderSize && (op.SetSize? ==> |c.staticTable| + op.n <= INDEX_MAX)
    ensures Ready(d) && d.table.Valid()
    ensures var (e', r) := Performed(c, e, d, op);
            && e' == Encoded(c, e, op) && Modest(c, e')
            && (Arrives(e', r, Expected(op)) <==> OpOk(c, e, LedgerOf(d), d.maxHeaderSize, op))
            && (Arrives(e', r, Expected(op)) ==>
                  LedgerOf(r.d) == Next(c, e, LedgerOf(d), op) && r.d.maxHeaderSize == d.maxHeaderSize && r.d.headerSize <= d.maxHeaderSize)
  {
    match op
    case Send(_, _, _) => SendExactly(c, e, d, op);
    case SetSize(_) => SizeExactly(c, e, d, op);
    case EndBlock =>
      InStepAtHeader(e, d);
      AtHeaderReady(d);
      ResetInStep(e, d);
  }

  /**
   * For every run, from any two ends in step: each header is delivered and the tables stay equal,
   * if and only if each operation is as it must be where it comes, by the encoder and the ledger.
   */
  lemma {:induction false} RunExactly(c: Codec, e: Encoder, d: Decoder, ops: seq<Op>)
    requires c.WellFormed() && HuffmanCode.Good(c.huffman) && InStep(e, d) && Modest(c, e)
    requires d.headerSize <= d.maxHeaderSize
    requires forall i :: 0 <= i < |ops| && ops[i].SetSize? ==> |c.staticTable| + ops[i].n <= INDEX_MAX
    ensures d.table.Valid()
    ensures AllArrive(c, e, d, ops) <==> RunOk(c, e, LedgerOf(d), d.maxHeaderSize, ops)
    decreases |ops|
  {
    hide InStep, Ready, Performed, Arrives, OpOk, Next, Encoded, Modest, HuffmanCode.Good, DT.Table.Valid;
    InStepAtHeader(e, d);
    if ops != [] {
      OpExactly(c, e, d, ops[0]);
      var (e', r) := Performed(c, e, d, ops[0]);
      if Arrives(e', r, Expected(ops[0])) {
        ArrivesInStep(e', r, Expected(ops[0]));
        RunExactly(c, e', r.d, ops[1..]);
      }
    }
  }

  lemma ArrivesInStep(e: Encoder, r: Run, out: seq<Header>)
    requires Arrives(e, r, out)
    ensures InStep(e, r.d)
  {
  }

  // ---- what is left of a block that was ended

  lemma NameIndexOfNew(c: Codec, capacity: nat, name: seq<Byte>)
    ensures FreshEncoder(capacity).NameIndex(c, name) == Static.NameIndex(c.staticTable, name)
  {
  }

  /** A sensitive header, to a peer whose table is not touched by it. */
  lemma SensitiveOk(c: Codec, e: Encoder, l: Ledger, limit: nat, f: Field)
    requires c.WellFormed() && l.table.Valid()
    ensures var op, i := Send(f, true, false), e.NameIndex(c, f.name);
            && (OpOk(c, e, l, limit, op) <==>
                  && NameOk(c, f, i) && Carried(c, f.value) && l.headerSize + |f.name| + |f.value| <= limit
                  && (i != -1 ==> l.nameLength + |Raw(c, f.value)| + l.headerSize <= limit))
            && Encoded(c, e, op) == e
            && Next(c, e, l, op) == Ledger(l.table, l.headerSize + |f.name| + |f.value|,
                                           if i == -1 then |Raw(c, f.name)| else l.nameLength)
  {
    hide NameOk, Carried, Raw;
  }

  /**
   * From two new objects: a header with a spelled-out name, the end of its block, and a header of
   * the static table's names that is within the limit. It is refused, for the length of the other
   * name; a peer that has not seen the first block takes it.
   */
  lemma LeftoverRefuses(c: Codec, capacity: nat, limit: nat, f: Field, g: Field)
    requires c.WellFormed() && HuffmanCode.Good(c.huffman) && |c.staticTable| + capacity <= INDEX_MAX
    requires Static.NameIndex(c.staticTable, f.name) == -1 && f.name != [] && Carried(c, f.name) && Carried(c, f.value)
    requires Static.NameIndex(c.staticTable, g.name) != -1 && Text(g.name) == g.name && Carried(c, g.value)
    requires |f.name| + |f.value| <= limit && |g.name| + |g.value| <= limit
    requires limit < |Raw(c, f.name)| + |Raw(c, g.value)|
    ensures var e, d := FreshEncoder(capacity), Fresh(limit, capacity);
            var one, other := Send(f, true, false), Send(g, true, false);
            && InStep(e, d)
            && AllArrive(c, e, d, [one, EndBlock]) && AllArrive(c, e, d, [other]) && !AllArrive(c, e, d, [one, EndBlock, other])
  {
    hide AllArrive, HuffmanCode.Good, Carried, Raw, InStep, OpOk, Next, Encoded, Encoder.NameIndex, DT.Table.Valid;
    var e, d := FreshEncoder(capacity), Fresh(limit, capacity);
    var one, other := Send(f, true, false), Send(g, true, false);
    FreshInStep(limit, capacity);
    InStepAtHeader(e, d);
    NameIndexOfNew(c, capacity, f.name);
    NameIndexOfNew(c, capacity, g.name);
    StringParts(c, g.value);
    var l0 := LedgerOf(d);
    var l1 := Ledger(d.table, |f.name| + |f.value|, |Raw(c, f.name)|);
    var l2 := Ledger(d.table, 0, |Raw(c, f.name)|);
    SensitiveOk(c, e, l0, limit, f);
    SensitiveOk(c, e, l0, limit, g);
    SensitiveOk(c, e, l2, limit, g);
    EndBlockOk(c, e, l1, limit);
    assert [one, EndBlock, other][1..] == [EndBlock, other] && [EndBlock, other][1..] == [other];
    assert [one, EndBlock][1..] == [EndBlock] && |[EndBlock][1..]| == 0;
    assert !RunOk(c, e, l2, limit, [other]);
    assert !RunOk(c, e, l1, limit, [EndBlock, other]);
    assert RunOk(c, e, l1, limit, [EndBlock]);
    RunExactly(c, e, d, [one, EndBlock]);
    RunExactly(c, e, d, [other]);
    RunExactly(c, e, d, [one, EndBlock, other]);
  }

  lemma EndBlockOk(c: Codec, e: Encoder, l: Ledger, limit: nat)
    requires c.WellFormed() && l.table.Valid()
    ensures OpOk(c, e, l, limit, EndBlock) && Encoded(c, e, EndBlock) == e && Next(c, e, l, EndBlock) == l.(headerSize := 0)
  {
  }
}
