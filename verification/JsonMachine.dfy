// The decoder with a stack: what it does with any text, and that it agrees with the
// recursive-descent decoder.
module JsonMachine {
  import opened Wrappers
  import opened JsonText
  import opened JsonReading

  /** An open container, or a key that waits for its value. */
  datatype Frame = InArray(items: seq<Json>) | InObject(entries: seq<Entry>) | KeyPair(key: string)

  type Stack = seq<Frame>

  datatype State = State(stack: Stack, exit: Option<Json>)

  /** What a finished value or container does: the next state, or an exception. `held`: the character behind a scalar is still pushed back. */
  datatype Move = To(state: State) | Stuck(state: State, held: bool)

  /** Where a text leads from a state: to its end, to an exception with what stays in the decoder, or to a trap. */
  datatype Run = At(state: State) | Refused(state: State, left: string) | Crash

  predicate KeyOnTop(stack: Stack) { stack != [] && stack[|stack| - 1].KeyPair? }

  predicate ObjectIsTop(stack: Stack) { stack != [] && stack[|stack| - 1].InObject? }

  /** A waiting key has its dictionary under it. */
  predicate Sound(stack: Stack) {
    forall i :: 0 <= i < |stack| && stack[i].KeyPair? ==> i > 0 && stack[i - 1].InObject?
  }

  /** A finished value goes into the container on top, or is the result. */
  function Put(st: State, v: Json): (r: Move)
    requires Sound(st.stack)
    ensures Sound(r.state.stack)
    ensures r.Stuck? ==> ObjectIsTop(r.state.stack)
  {
    var n := |st.stack|;
    if n == 0 then To(st.(exit := Some(v)))
    else
      match st.stack[n - 1]
      case InArray(items) => To(st.(stack := st.stack[..n - 1] + [InArray(items + [v])]))
      case InObject(entries) => if v.Str? then To(st.(stack := st.stack + [KeyPair(v.s)])) else Stuck(st, Scalar(v))
      case KeyPair(key) =>
        To(st.(stack := st.stack[..n - 2] + [InObject(Assign(st.stack[n - 2].entries, key, v))]))
  }

  /** Either closing bracket: the container on top is finished, whichever it is. */
  function Close(st: State): (r: Move)
    requires Sound(st.stack)
    ensures Sound(r.state.stack)
    ensures r.Stuck? ==> !r.held && (st.stack != [] ==> ObjectIsTop(r.state.stack))
  {
    var n := |st.stack|;
    if n == 0 then Stuck(st, false)
    else
      var below := st.(stack := st.stack[..n - 1]);
      match st.stack[n - 1]
      case InArray(items) => Put(below, Arr(items))
      case InObject(entries) => Put(below, Obj(entries))
      case KeyPair(_) => Stuck(below, false)
  }

  function Push(st: State, frame: Frame): (r: State)
    requires Sound(st.stack) && !frame.KeyPair?
    ensures Sound(r.stack)
  {
    st.(stack := st.stack + [frame])
  }

  /** A character that is no bracket or separator and begins no value is passed over. */
  function ReadObjects(host: Host, st: State, s: string): (r: Run)
    requires Sound(st.stack)
    ensures !r.Crash? ==> Sound(r.state.stack)
    ensures r.Refused? && r.left != "" ==> |r.left| == 1 && ObjectIsTop(r.state.stack)
    decreases |s|, 0
  {
    if s == "" then At(st)
    else
      var c := s[0];
      if c == '[' then ReadObjects(host, Push(st, InArray([])), s[1..])
      else if c == '{' then ReadObjects(host, Push(st, InObject([])), s[1..])
      else if c == ']' || c == '}' then Then(host, Close(st), s[1..])
      else if c == ':' then if KeyOnTop(st.stack) then ReadObjects(host, st, s[1..]) else Refused(st, "")
      else if c == ',' then if st.stack != [] && !KeyOnTop(st.stack) then ReadObjects(host, st, s[1..]) else Refused(st, "")
      else if BeginsScalar(c) then
        var v := ScalarRead(host, c, s[1..]);
        if v.Got? then Then(host, Put(st, v.value), v.rest) else if v.Trap? then Crash else Refused(st, "")
      else ReadObjects(host, st, s[1..])
  }

  function Then(host: Host, m: Move, s: string): (r: Run)
    requires Sound(m.state.stack) && (m.Stuck? && m.held ==> ObjectIsTop(m.state.stack))
    ensures !r.Crash? ==> Sound(r.state.stack)
    ensures r.Refused? && r.left != "" ==> |r.left| == 1 && ObjectIsTop(r.state.stack)
    decreases |s|, 1
  {
    if m.To? then ReadObjects(host, m.state, s) else Refused(m.state, if m.held && s != "" then s[..1] else "")
  }

  function Decode(host: Host, st: State, s: string): Outcome<Json>
    requires Sound(st.stack)
  {
    match ReadObjects(host, st, s)
    case At(end) => if end.stack == [] && end.exit.Some? then Ok(end.exit.value) else SyntaxError
    case Refused(_, _) => SyntaxError
    case Crash => Fault
  }

  // ---- agreement

  /** Objects as the dictionaries they were made for. */
  function Erased(v: Json): Json
    decreases v
  {
    match v
    case Arr(items) => Arr(ErasedItems(items))
    case Obj(entries) => Obj(ErasedEntries(entries))
    case Custom(_, entries) => Obj(ErasedEntries(entries))
    case _ => v
  }

  function ErasedItems(items: seq<Json>): seq<Json>
    decreases items
  {
    if items == [] then [] else [Erased(items[0])] + ErasedItems(items[1..])
  }

  function ErasedEntries(entries: seq<Entry>): seq<Entry>
    decreases entries
  {
    if entries == [] then [] else [Entry(entries[0].key, Erased(entries[0].value))] + ErasedEntries(entries[1..])
  }

  lemma {:induction false} ErasedSnoc(items: seq<Json>, v: Json)
    ensures ErasedItems(items + [v]) == ErasedItems(items) + [Erased(v)]
  {
    hide Erased;
    if items != [] {
      assert (items + [v])[1..] == items[1..] + [v];
      ErasedSnoc(items[1..], v);
    }
  }

  lemma {:induction false} ErasedAssign(d: seq<Entry>, key: string, v: Json)
    ensures ErasedEntries(Assign(d, key, v)) == Assign(ErasedEntries(d), key, Erased(v))
  {
    hide Erased;
    if d != [] {
      ErasedAssign(d[1..], key, v);
      assert (if d[0].key == key then [Entry(key, v)] + d[1..] else [d[0]] + Assign(d[1..], key, v))[1..] ==
             if d[0].key == key then d[1..] else Assign(d[1..], key, v);
    }
  }

  lemma {:induction false} WhiteIsPassed(host: Host, st: State, s: string)
    requires Sound(st.stack)
    ensures ReadObjects(host, st, s) == ReadObjects(host, st, SkipWhite(s))
  {
    hide ScalarRead, Put, Close;
    if s != "" && White(s[0]) { WhiteIsPassed(host, st, s[1..]); }
  }

  /** What the machine does at s when the other decoder gets r there. */
  ghost predicate Follows(host: Host, st: State, s: string, out: State, r: Read<Json>)
    requires Sound(st.stack) && Sound(out.stack)
  {
    && (r.Got? ==> ReadObjects(host, st, s) == Then(host, Put(out, Erased(r.value)), r.rest))
    && (r.Trap? ==> ReadObjects(host, st, s) == Crash)
  }

  lemma ArrayOnTop(st: State, items: seq<Json>)
    requires Sound(st.stack)
    ensures forall v :: Put(Push(st, InArray(items)), v) == To(Push(st, InArray(items + [v])))
    ensures Close(Push(st, InArray(items))) == Put(st, Arr(items))
  {
    assert Push(st, InArray(items)).stack[..|st.stack|] == st.stack;
  }

  function WithKey(st: State, entries: seq<Entry>, key: string): (r: State)
    requires Sound(st.stack)
    ensures Sound(r.stack) && KeyOnTop(r.stack)
  {
    st.(stack := st.stack + [InObject(entries)] + [KeyPair(key)])
  }

  lemma ObjectOnTop(st: State, entries: seq<Entry>, key: string, v: Json)
    requires Sound(st.stack)
    ensures Put(Push(st, InObject(entries)), Str(key)) == To(WithKey(st, entries, key))
    ensures Put(WithKey(st, entries, key), v) == To(Push(st, InObject(Assign(entries, key, v))))
    ensures Close(Push(st, InObject(entries))) == Put(st, Obj(entries))
  {
    assert Push(st, InObject(entries)).stack[..|st.stack|] == st.stack;
    assert WithKey(st, entries, key).stack[..|st.stack|] == st.stack;
  }

  /** A value the recursive decoder reads anywhere, the machine reads there and puts where it belongs. */
  lemma {:induction false} Agrees(host: Host, st: State, s: string)
    requires Sound(st.stack)
    ensures Follows(host, st, s, st, ReadObject(host, s))
    decreases |s|, 0
  {
    hide ScalarRead, Put, Close, Push, SkipWhite, ReadItems, ReadEntries, Made, Sound;
    WhiteIsPassed(host, st, s);
    var t := SkipWhite(s);
    if t == "" {
    } else if t[0] == '[' {
      WhiteIsPassed(host, Push(st, InArray([])), t[1..]);
      ArrayOnTop(st, []);
      var u := SkipWhite(t[1..]);
      if u != "" && u[0] != ']' { AgreesItems(host, st, [], u); }
    } else if t[0] == '{' {
      WhiteIsPassed(host, Push(st, InObject([])), t[1..]);
      ObjectOnTop(st, [], "", Null);
      ErasedMade(host, []);
      var u := SkipWhite(t[1..]);
      if u != "" && u[0] != '}' { AgreesEntries(host, st, [], u); }
    } else {
      ScalarIsScalar(host, t[0], t[1..]);
    }
  }

  lemma {:induction false} AgreesItems(host: Host, st: State, done: seq<Json>, s: string)
    requires Sound(st.stack)
    ensures Follows(host, Push(st, InArray(ErasedItems(done))), s, st, ReadItems(host, done, s))
    decreases |s|, 1
  {
    hide ReadObject, ScalarRead, Put, Close, Push, SkipWhite, Sound, Erased, ErasedItems;
    var in0 := Push(st, InArray(ErasedItems(done)));
    Agrees(host, in0, s);
    var v := ReadObject(host, s);
    if v.Got? {
      var more := done + [v.value];
      ErasedSnoc(done, v.value);
      ArrayOnTop(st, ErasedItems(done));
      ArrayOnTop(st, ErasedItems(more));
      ErasedArr(more);
      var in1 := Push(st, InArray(ErasedItems(more)));
      WhiteIsPassed(host, in1, v.rest);
      var u := SkipWhite(v.rest);
      PushedOpen(st, InArray(ErasedItems(more)));
      if u != "" && u[0] == ',' { AgreesItems(host, st, more, u[1..]); }
    }
  }

  lemma ErasedArr(items: seq<Json>)
    ensures Erased(Arr(items)) == Arr(ErasedItems(items))
  {
  }

  lemma PushedOpen(st: State, frame: Frame)
    requires Sound(st.stack) && !frame.KeyPair?
    ensures var r := Push(st, frame); r.stack != [] && !KeyOnTop(r.stack)
  {
  }

  lemma {:induction false} AgreesEntries(host: Host, st: State, done: seq<Entry>, s: string)
    requires Sound(st.stack)
    ensures Follows(host, Push(st, InObject(ErasedEntries(done))), s, st, ReadEntries(host, done, s))
    decreases |s|, 1
  {
    hide ReadObject, ScalarRead, Put, Close, Push, SkipWhite, Sound, ErasedItems, ErasedEntries, Assign, Made, KeyOnTop, WithKey;
    var es := ErasedEntries(done);
    Agrees(host, Push(st, InObject(es)), s);
    var k := ReadObject(host, s);
    if k.Got? && k.value.Str? {
      var key := k.value.s;
      var in1 := WithKey(st, es, key);
      WhiteIsPassed(host, in1, k.rest);
      var t := SkipWhite(k.rest);
      ObjectOnTop(st, es, key, Null);
      if t != "" && t[0] == ':' {
        Agrees(host, in1, t[1..]);
        var v := ReadObject(host, t[1..]);
        if v.Got? {
          ObjectOnTop(st, es, key, Erased(v.value));
          var d := Assign(done, key, v.value);
          ErasedAssign(done, key, v.value);
          AgreesAfter(host, st, d, v.rest);
          var u := SkipWhite(v.rest);
          if u != "" && u[0] == ',' { AgreesEntries(host, st, d, u[1..]); }
        }
      }
    }
  }

  /** Behind an entry. */
  lemma AgreesAfter(host: Host, st: State, d: seq<Entry>, s: string)
    requires Sound(st.stack)
    ensures var u := SkipWhite(s); var inside := Push(st, InObject(ErasedEntries(d)));
            u != "" ==> ReadObjects(host, inside, s) ==
                        if u[0] == '}' then Then(host, Put(st, Erased(Made(host, d))), u[1..])
                        else if u[0] == ',' then ReadObjects(host, inside, u[1..]) else ReadObjects(host, inside, u)
  {
    hide ScalarRead, Put, Close, Push, SkipWhite, Sound, Made, Erased, ErasedEntries;
    var inside := Push(st, InObject(ErasedEntries(d)));
    WhiteIsPassed(host, inside, s);
    ObjectOnTop(st, ErasedEntries(d), "", Null);
    PushedOpen(st, InObject(ErasedEntries(d)));
    ErasedMade(host, d);
  }

  lemma ScalarIsScalar(host: Host, c: char, s: string)
    ensures var r := ScalarRead(host, c, s); !r.Malformed? ==> BeginsScalar(c)
    ensures var r := ScalarRead(host, c, s); r.Got? ==> Scalar(r.value) && Erased(r.value) == r.value
  {
  }

  lemma ErasedMade(host: Host, d: seq<Entry>)
    ensures Erased(Made(host, d)) == Obj(ErasedEntries(d))
  {
  }

  /** Whatever text the recursive decoder takes as a value, the machine takes as the same value. */
  lemma Agreement(host: Host, exit: Option<Json>, s: string)
    ensures var r := ReadObject(host, s);
            && (r.Got? && SkipWhite(r.rest) == "" ==> Decode(host, State([], exit), s) == Ok(Erased(r.value)))
            && (r.Trap? ==> Decode(host, State([], exit), s) == Fault)
  {
    hide ReadObject, ReadObjects, SkipWhite, Erased;
    var st, r := State([], exit), ReadObject(host, s);
    Agrees(host, st, s);
    if r.Got? && SkipWhite(r.rest) == "" {
      var end := State([], Some(Erased(r.value)));
      WhiteIsPassed(host, end, r.rest);
      NothingLeft(host, end);
    }
  }

  lemma NothingLeft(host: Host, st: State)
    requires Sound(st.stack)
    ensures ReadObjects(host, st, "") == At(st)
  {
  }

  /** An encoded value moves the machine as the value would, whatever is open and whatever follows. */
  lemma MachineReads(host: Host, st: State, v: Json, rest: string)
    requires Sound(st.stack) && Sendable(host, v) && Ended(v, rest)
    ensures ReadObjects(host, st, Encoded(host, v) + rest) == Then(host, Put(st, Erased(v)), rest)
  {
    hide ReadObject, ReadObjects, Encoded, Put, Then, Sound, Erased, Revived, Sendable;
    ReadsBack(host, v, rest);
    Agrees(host, st, Encoded(host, v) + rest);
    ErasedRevived(host, v);
  }

  lemma {:induction false} ErasedRevived(host: Host, v: Json)
    ensures Erased(Revived(host, v)) == Erased(v)
    decreases v
  {
    hide Made;
    if v.Arr? {
      ErasedRevivedItems(host, v.items);
    } else if v.Obj? || v.Custom? {
      ErasedRevivedEntries(host, v.entries);
      ErasedMade(host, RevivedEntries(host, v.entries));
    }
  }

  lemma {:induction false} ErasedRevivedItems(host: Host, items: seq<Json>)
    ensures ErasedItems(RevivedItems(host, items)) == ErasedItems(items)
    decreases items
  {
    hide Erased, Revived;
    if items != [] {
      ErasedRevived(host, items[0]);
      ErasedRevivedItems(host, items[1..]);
    }
  }

  lemma {:induction false} ErasedRevivedEntries(host: Host, entries: seq<Entry>)
    ensures ErasedEntries(RevivedEntries(host, entries)) == ErasedEntries(entries)
    decreases entries
  {
    hide Erased, Revived;
    if entries != [] {
      ErasedRevived(host, entries[0].value);
      ErasedRevivedEntries(host, entries[1..]);
    }
  }

  /** No objects: the values the encoder with this decoder takes. */
  predicate Plain(v: Json)
    decreases v
  {
    match v
    case Arr(items) => forall x :: x in items ==> Plain(x)
    case Obj(entries) => forall e :: e in entries ==> Plain(e.value)
    case Custom(_, _) => false
    case _ => true
  }

  lemma {:induction false} PlainErased(v: Json)
    requires Plain(v)
    ensures Erased(v) == v
    decreases v
  {
    if v.Arr? { PlainItems(v.items); } else if v.Obj? { PlainEntries(v.entries); }
  }

  lemma {:induction false} PlainItems(items: seq<Json>)
    requires forall x :: x in items ==> Plain(x)
    ensures ErasedItems(items) == items
    decreases items
  {
    hide Erased, Plain;
    if items != [] {
      PlainErased(items[0]);
      PlainItems(items[1..]);
    }
  }

  lemma {:induction false} PlainEntries(entries: seq<Entry>)
    requires forall e :: e in entries ==> Plain(e.value)
    ensures ErasedEntries(entries) == entries
    decreases entries
  {
    hide Erased, Plain;
    if entries != [] {
      assert entries[0] in entries;
      PlainErased(entries[0].value);
      PlainEntries(entries[1..]);
    }
  }

  /** With nothing open, decoding undoes encoding, and nothing is open after it, whatever the last result was. */
  lemma MachineRoundTrip(host: Host, exit: Option<Json>, v: Json)
    requires Sendable(host, v) && Plain(v) && (v.Arr? || v.Obj?)
    ensures ReadObjects(host, State([], exit), Encoded(host, v)) == At(State([], Some(v)))
    ensures Decode(host, State([], exit), Encoded(host, v)) == Ok(v)
  {
    hide ReadObjects, Encoded, Erased, Plain, Sendable;
    MachineReads(host, State([], exit), v, "");
    PlainErased(v);
    assert Encoded(host, v) + "" == Encoded(host, v);
    NothingLeft(host, State([], Some(v)));
  }

  /** The other way the two do not agree: neither commas nor the kind of a closing bracket matter to the machine. */
  lemma TakesMore(host: Host, a: string, b: string)
    ensures var s := "[" + (Quoted(a) + (" " + (Quoted(b) + "}")));
            ReadObject(host, s).Malformed? && Decode(host, State([], None), s) == Ok(Arr([Str(a), Str(b)]))
  {
    hide ReadObject, ReadObjects, Put, Close, Push, Quoted, SkipWhite, Encoded;
    var z := Quoted(b) + "}";
    var y := Quoted(a) + (" " + z);
    KeyReadsBack(host, a, " " + z);
    KeyReadsBack(host, b, "}");
    assert y[0] == Quoted(a)[0] && z[0] == Quoted(b)[0];
    OpensArray(host, y, "");
    SkipOne(z);
    assert ReadItems(host, [], y).Malformed?;
    var st := State([], None);
    StringItem(host, st, [], a, " " + z);
    StringItem(host, st, [Str(a)], b, "}");
    WhiteIsPassed(host, Push(st, InArray([Str(a)])), " " + z);
    Opens(host, st, y);
    assert [] + [Str(a)] == [Str(a)] && [Str(a)] + [Str(b)] == [Str(a), Str(b)];
    Ends(host, st, [Str(a)] + [Str(b)]);
  }

  lemma SkipOne(s: string)
    requires s != "" && Begins(s[0])
    ensures SkipWhite(" " + s) == s
  {
    assert (" " + s)[1..] == s;
  }

  lemma StringItem(host: Host, st: State, items: seq<Json>, a: string, rest: string)
    requires Sound(st.stack)
    ensures ReadObjects(host, Push(st, InArray(items)), Quoted(a) + rest) ==
            ReadObjects(host, Push(st, InArray(items + [Str(a)])), rest)
  {
    hide ReadObjects, Put, Push, Quoted;
    ArrayOnTop(st, items);
    MachineReads(host, Push(st, InArray(items)), Str(a), rest);
  }

  lemma Opens(host: Host, st: State, s: string)
    requires Sound(st.stack)
    ensures ReadObjects(host, st, "[" + s) == ReadObjects(host, Push(st, InArray([])), s)
  {
    assert ("[" + s)[1..] == s;
  }

  lemma Ends(host: Host, st: State, items: seq<Json>)
    requires st.stack == []
    ensures ReadObjects(host, Push(st, InArray(items)), "}") == At(State([], Some(Arr(items))))
  {
    hide ReadObjects;
    ArrayOnTop(st, items);
    NothingLeft(host, State([], Some(Arr(items))));
    Closes(host, Push(st, InArray(items)), "");
    assert "}" + "" == "}";
  }

  lemma Closes(host: Host, st: State, s: string)
    requires Sound(st.stack)
    ensures ReadObjects(host, st, "}" + s) == Then(host, Close(st), s)
  {
    assert ("}" + s)[1..] == s;
  }
}
