// Which texts the decoder with a stack takes: a reader without one that takes the same, for
// every text, with the same values.
module JsonLax {
  import opened Wrappers
  import opened JsonText
  import opened JsonReading
  import opened JsonMachine

  predicate Closing(c: char) { c == ']' || c == '}' }

  /** A value at its first character. */
  function LaxValue(host: Host, s: string): (r: Read<Json>)
    requires s != "" && Begins(s[0])
    ensures r.Got? ==> |r.rest| < |s|
    decreases |s|, 0
  {
    if s[0] == '[' then LaxItems(host, [], s[1..])
    else if s[0] == '{' then LaxEntries(host, [], s[1..])
    else ScalarRead(host, s[0], s[1..])
  }

  /** Any values up to a closing bracket of either kind. What is no value and no colon is passed over. */
  function LaxItems(host: Host, done: seq<Json>, s: string): (r: Read<Json>)
    ensures r.Got? ==> |r.rest| < |s|
    decreases |s|, 1
  {
    if s == "" || s[0] == ':' then Malformed
    else if Closing(s[0]) then Got(Arr(done), s[1..])
    else if Begins(s[0]) then
      var v := LaxValue(host, s);
      if v.Got? then LaxItems(host, done + [v.value], v.rest) else v
    else LaxItems(host, done, s[1..])
  }

  /** Keys and values by turns, up to a closing bracket of either kind. */
  function LaxEntries(host: Host, done: seq<Entry>, s: string): (r: Read<Json>)
    ensures r.Got? ==> |r.rest| < |s|
    decreases |s|, 1
  {
    if s == "" || s[0] == ':' then Malformed
    else if Closing(s[0]) then Got(Obj(done), s[1..])
    else if Begins(s[0]) then
      var k := LaxValue(host, s);
      if !k.Got? then k
      else if k.value.Str? then LaxEntry(host, done, k.value.s, k.rest)
      else Malformed
    else LaxEntries(host, done, s[1..])
  }

  /** The value of a key: behind any number of colons, none included, but no comma. */
  function LaxEntry(host: Host, done: seq<Entry>, key: string, s: string): (r: Read<Json>)
    ensures r.Got? ==> |r.rest| < |s|
    decreases |s|, 1
  {
    if s == "" || s[0] == ',' || Closing(s[0]) then Malformed
    else if Begins(s[0]) then
      var v := LaxValue(host, s);
      if v.Got? then LaxEntries(host, Assign(done, key, v.value), v.rest) else v
    else LaxEntry(host, done, key, s[1..])
  }

  /** Any number of values, of which the last is the result. */
  function LaxText(host: Host, last: Option<Json>, s: string): Outcome<Json>
    decreases |s|
  {
    if s == "" then if last.Some? then Ok(last.value) else SyntaxError
    else if Closing(s[0]) || s[0] == ':' || s[0] == ',' then SyntaxError
    else if Begins(s[0]) then
      var v := LaxValue(host, s);
      if v.Got? then LaxText(host, Some(v.value), v.rest) else if v.Trap? then Fault else SyntaxError
    else LaxText(host, last, s[1..])
  }

  // ---- the same as the machine

  /** No way to a result any more: refused or at the end, with something open that is not of st. */
  predicate Fails(st: State, run: Run) {
    !run.Crash? && |run.state.stack| > |st.stack|
  }

  /** The machine, over the stack of st, has made of a text inside a bracket what r says. */
  ghost predicate Means(host: Host, run: Run, st: State, r: Read<Json>)
    requires Sound(st.stack)
  {
    && (r.Got? ==> run == Then(host, Put(st, r.value), r.rest))
    && (r.Malformed? ==> Fails(st, run))
    && (r.Trap? ==> run == Crash)
  }

  predicate Opening(c: char) { c == '[' || c == '{' }

  /** The same of a value: a scalar that is none leaves everything as it is. */
  ghost predicate MeansValue(host: Host, run: Run, st: State, c: char, r: Read<Json>)
    requires Sound(st.stack)
  {
    if Opening(c) then Means(host, run, st, r)
    else
      && (r.Got? ==> run == Then(host, Put(st, r.value), r.rest))
      && (r.Malformed? ==> run == Refused(st, ""))
      && (r.Trap? ==> run == Crash)
  }

  lemma {:induction false} ValueMeans(host: Host, st: State, s: string)
    requires Sound(st.stack) && s != "" && Begins(s[0])
    ensures MeansValue(host, ReadObjects(host, st, s), st, s[0], LaxValue(host, s))
    decreases |s|, 0
  {
    hide ScalarRead, Put, Close, LaxItems, LaxEntries, Sound, ReadObjects, Push;
    StepAt(host, st, s);
    if s[0] == '[' {
      ItemsMean(host, st, [], s[1..]);
    } else if s[0] == '{' {
      EntriesMean(host, st, [], s[1..]);
    }
  }

  /** One character more, for a text that is not at its end. */
  lemma StepAt(host: Host, st: State, s: string)
    requires Sound(st.stack) && s != ""
    ensures ReadObjects(host, st, s) ==
            var c := s[0];
            if c == '[' then ReadObjects(host, Push(st, InArray([])), s[1..])
            else if c == '{' then ReadObjects(host, Push(st, InObject([])), s[1..])
            else if Closing(c) then Then(host, Close(st), s[1..])
            else if c == ':' then if KeyOnTop(st.stack) then ReadObjects(host, st, s[1..]) else Refused(st, "")
            else if c == ',' then if st.stack != [] && !KeyOnTop(st.stack) then ReadObjects(host, st, s[1..]) else Refused(st, "")
            else if BeginsScalar(c) then
              var v := ScalarRead(host, c, s[1..]);
              if v.Got? then Then(host, Put(st, v.value), v.rest) else if v.Trap? then Crash else Refused(st, "")
            else ReadObjects(host, st, s[1..])
  {
  }

  lemma PushIsDeeper(st: State, frame: Frame)
    requires Sound(st.stack) && !frame.KeyPair?
    ensures |Push(st, frame).stack| == |st.stack| + 1 && !KeyOnTop(Push(st, frame).stack)
  {
  }

  lemma {:induction false} ItemsMean(host: Host, st: State, done: seq<Json>, s: string)
    requires Sound(st.stack)
    ensures Means(host, ReadObjects(host, Push(st, InArray(done)), s), st, LaxItems(host, done, s))
    decreases |s|, 1
  {
    hide ScalarRead, Put, Close, LaxValue, Sound, ReadObjects, Push, KeyOnTop, BeginsScalar;
    var inside := Push(st, InArray(done));
    PushIsDeeper(st, InArray(done));
    ArrayOnTop(st, done);
    if s == "" {
      NothingLeft(host, inside);
    } else {
      StepAt(host, inside, s);
      if Begins(s[0]) {
        ValueMeans(host, inside, s);
        var v := LaxValue(host, s);
        if v.Got? { ItemsMean(host, st, done + [v.value], v.rest); }
      } else if s[0] != ':' && !Closing(s[0]) {
        ItemsMean(host, st, done, s[1..]);
      }
    }
  }

  lemma {:induction false} EntriesMean(host: Host, st: State, done: seq<Entry>, s: string)
    requires Sound(st.stack)
    ensures Means(host, ReadObjects(host, Push(st, InObject(done)), s), st, LaxEntries(host, done, s))
    decreases |s|, 1
  {
    hide ScalarRead, Put, Close, LaxValue, LaxEntry, Sound, ReadObjects, Push, KeyOnTop, BeginsScalar, Assign;
    var inside := Push(st, InObject(done));
    PushIsDeeper(st, InObject(done));
    ObjectOnTop(st, done, "", Null);
    if s == "" {
      NothingLeft(host, inside);
    } else {
      StepAt(host, inside, s);
      if Begins(s[0]) {
        ValueMeans(host, inside, s);
        var k := LaxValue(host, s);
        if k.Got? && k.value.Str? {
          ObjectOnTop(st, done, k.value.s, Null);
          EntryMeans(host, st, done, k.value.s, k.rest);
        } else if k.Got? {
          KeysAreStrings(st, done, k.value);
        }
      } else if s[0] != ':' && !Closing(s[0]) {
        EntriesMean(host, st, done, s[1..]);
      }
    }
  }

  lemma KeysAreStrings(st: State, done: seq<Entry>, v: Json)
    requires Sound(st.stack) && !v.Str?
    ensures var inside := Push(st, InObject(done)); Put(inside, v) == Stuck(inside, Scalar(v))
  {
  }

  lemma KeyIsDeeper(st: State, done: seq<Entry>, key: string)
    requires Sound(st.stack)
    ensures var inside := WithKey(st, done, key); |inside.stack| > |st.stack| && KeyOnTop(inside.stack)
    ensures var m := Close(WithKey(st, done, key)); m.Stuck? && |m.state.stack| > |st.stack|
  {
  }

  lemma {:induction false} EntryMeans(host: Host, st: State, done: seq<Entry>, key: string, s: string)
    requires Sound(st.stack)
    ensures Means(host, ReadObjects(host, WithKey(st, done, key), s), st, LaxEntry(host, done, key, s))
    decreases |s|, 1
  {
    hide ScalarRead, Put, Close, LaxValue, LaxEntries, Sound, ReadObjects, Push, WithKey, KeyOnTop, BeginsScalar, Assign;
    var inside := WithKey(st, done, key);
    KeyIsDeeper(st, done, key);
    if s == "" {
      NothingLeft(host, inside);
    } else {
      StepAt(host, inside, s);
      if Begins(s[0]) {
        ValueMeans(host, inside, s);
        var v := LaxValue(host, s);
        if v.Got? {
          ObjectOnTop(st, done, key, v.value);
          EntriesMean(host, st, Assign(done, key, v.value), v.rest);
        }
      } else if s[0] != ',' && !Closing(s[0]) {
        EntryMeans(host, st, done, key, s[1..]);
      }
    }
  }

  /** For every text and every last result, with nothing open: the machine's answer is that of the reader without a stack. */
  lemma {:induction false} MachineIsLax(host: Host, exit: Option<Json>, s: string)
    ensures Decode(host, State([], exit), s) == LaxText(host, exit, s)
    decreases |s|
  {
    hide ScalarRead, Close, LaxValue, ReadObjects;
    var st := State([], exit);
    if s == "" {
      NothingLeft(host, st);
    } else {
      StepAt(host, st, s);
      if Begins(s[0]) {
        ValueMeans(host, st, s);
        var v := LaxValue(host, s);
        if v.Got? { MachineIsLax(host, Some(v.value), v.rest); }
      } else if !Closing(s[0]) && s[0] != ':' && s[0] != ',' {
        MachineIsLax(host, exit, s[1..]);
      } else if Closing(s[0]) {
        NothingToClose(st);
      }
    }
  }

  lemma NothingToClose(st: State)
    requires st.stack == []
    ensures Close(st) == Stuck(st, false)
  {
  }

  // ---- what the last result has to do with the next

  /** Nothing in the text begins a value, closes or separates. */
  predicate PassedOver(s: string) {
    forall i :: 0 <= i < |s| ==> !Begins(s[i]) && !Closing(s[i]) && s[i] != ':' && s[i] != ','
  }

  lemma {:induction false} PassedByLax(host: Host, last: Option<Json>, s: string)
    requires PassedOver(s)
    ensures LaxText(host, last, s) == if last.Some? then Ok(last.value) else SyntaxError
    decreases |s|
  {
    hide LaxValue, Begins;
    if s != "" {
      assert forall i :: 0 <= i < |s[1..]| ==> s[1..][i] == s[i + 1];
      PassedByLax(host, last, s[1..]);
    }
  }

  /** A text with anything else in it has an answer of its own. */
  lemma {:induction false} OwnAnswer(host: Host, a: Option<Json>, b: Option<Json>, s: string)
    requires !PassedOver(s)
    ensures LaxText(host, a, s) == LaxText(host, b, s)
    decreases |s|
  {
    hide LaxValue, Begins;
    if !Closing(s[0]) && s[0] != ':' && s[0] != ',' && !Begins(s[0]) {
      assert exists i :: 0 < i < |s| && (Begins(s[i]) || Closing(s[i]) || s[i] == ':' || s[i] == ',');
      var i :| 0 < i < |s| && (Begins(s[i]) || Closing(s[i]) || s[i] == ':' || s[i] == ',');
      assert s[1..][i - 1] == s[i];
      OwnAnswer(host, a, b, s[1..]);
    }
  }

  /**
   * A text gives back what was decoded last, whatever that was, if and only if all its characters
   * are passed over, none included; a text of any other kind does not depend on the last result.
   */
  lemma StaleResult(host: Host, s: string)
    ensures (forall v :: Decode(host, State([], Some(v)), s) == Ok(v)) <==> PassedOver(s)
    ensures PassedOver(s) ==> Decode(host, State([], None), s) == SyntaxError
    ensures !PassedOver(s) ==> forall a, b :: Decode(host, State([], a), s) == Decode(host, State([], b), s)
  {
    hide LaxText, Decode, PassedOver;
    forall last ensures Decode(host, State([], last), s) == LaxText(host, last, s) { MachineIsLax(host, last, s); }
    if PassedOver(s) {
      forall last ensures LaxText(host, last, s) == if last.Some? then Ok(last.value) else SyntaxError
      {
        PassedByLax(host, last, s);
      }
    } else {
      forall a, b ensures LaxText(host, a, s) == LaxText(host, b, s) { OwnAnswer(host, a, b, s); }
      assert Decode(host, State([], Some(Null)), s) == Decode(host, State([], Some(Arr([]))), s);
    }
  }
}
