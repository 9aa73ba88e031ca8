// One decoder with a stack for many texts: nothing is cleared in front of a text but the text
// itself, so that an open container and a character pushed back wait for the next one.
module JsonReuse {
  import opened Wrappers
  import opened JsonText
  import opened JsonReading
  import opened JsonMachine
  import opened JsonLax

  /** What stays in a decoder between two texts. */
  datatype Decoder = Decoder(state: State, left: string)

  function New(): Decoder { Decoder(State([], None), "") }

  function Answer(host: Host, d: Decoder, s: string): Outcome<Json>
    requires Sound(d.state.stack)
  {
    Decode(host, d.state, d.left + s)
  }

  /** What stays behind a text that did not trap. */
  function Used(host: Host, d: Decoder, s: string): (r: Option<Decoder>)
    requires Sound(d.state.stack)
    ensures r.Some? ==> Usable(r.value)
    ensures r.None? <==> Answer(host, d, s) == Fault
  {
    match ReadObjects(host, d.state, d.left + s)
    case At(end) => Some(Decoder(end, ""))
    case Refused(st, left) => Some(Decoder(st, left))
    case Crash => None
  }

  /** A character stays pushed back only where a number or a word was refused as a key. */
  predicate Usable(d: Decoder) {
    Sound(d.state.stack) && (d.left == "" || (|d.left| == 1 && ObjectIsTop(d.state.stack)))
  }

  function UsedAll(host: Host, d: Decoder, texts: seq<string>): (r: Option<Decoder>)
    requires Usable(d)
    ensures r.Some? ==> Usable(r.value)
    decreases |texts|
  {
    if texts == [] then Some(d)
    else
      var next := Used(host, d, texts[0]);
      if next.Some? then UsedAll(host, next.value, texts[1..]) else None
  }

  // ---- when a decoder is as good as new

  /** Whatever text comes, the answer is that of a decoder with nothing in it but the last result. */
  ghost predicate AsNew(host: Host, d: Decoder)
    requires Usable(d)
  {
    forall s :: Answer(host, d, s) == LaxText(host, d.state.exit, s)
  }

  /** Whatever container is encoded, it is decoded back. */
  ghost predicate DecodesBack(host: Host, d: Decoder)
    requires Usable(d)
  {
    forall v :: Sendable(host, v) && Plain(v) && (v.Arr? || v.Obj?) ==> Answer(host, d, Encoded(host, v)) == Ok(v)
  }

  /** One dictionary is open, and the bracket that closes it is pushed back. */
  predicate AboutToClose(d: Decoder) {
    |d.state.stack| == 1 && d.state.stack[0].InObject? && |d.left| == 1 && Closing(d.left[0])
  }

  /** With something open, an empty array is no text of its own. */
  lemma OpenStaysOpen(host: Host, st: State)
    requires Sound(st.stack) && st.stack != []
    ensures Decode(host, st, "[]") == SyntaxError
  {
    hide ReadObjects, Close, Put;
    var s, in0 := "[]", Push(st, InArray([]));
    assert s[1..] == "]" && s[1..][1..] == "";
    StepAt(host, st, s);
    StepAt(host, in0, "]");
    ArrayOnTop(st, []);
    PutLeavesSome(st, Arr([]));
    if Put(st, Arr([])).To? { NothingLeft(host, Put(st, Arr([])).state); }
  }

  /** A value that goes into a container leaves that container open. */
  lemma PutLeavesSome(st: State, v: Json)
    requires Sound(st.stack) && st.stack != []
    ensures Put(st, v).state.stack != []
  {
  }

  lemma NewTakesArray(host: Host, exit: Option<Json>)
    ensures Decode(host, State([], exit), "[]") == Ok(Arr([]))
  {
    hide ReadObjects, Close, Put;
    var st := State([], exit);
    var s, in0 := "[]", Push(st, InArray([]));
    assert s[1..] == "]" && s[1..][1..] == "";
    StepAt(host, st, s);
    StepAt(host, in0, "]");
    ArrayOnTop(st, []);
    PutIsResult(st, Arr([]));
    NothingLeft(host, State([], Some(Arr([]))));
  }

  lemma PutIsResult(st: State, v: Json)
    requires st.stack == []
    ensures Put(st, v) == To(State([], Some(v)))
  {
  }

  lemma ObjectsTakeStrings(st: State, v: Json)
    requires Sound(st.stack) && ObjectIsTop(st.stack) && !v.Str?
    ensures Put(st, v).Stuck?
  {
  }

  lemma QuoteAlone(host: Host)
    ensures ScalarRead(host, '\"', "[]").Malformed?
  {
    assert "[]"[1..] == "]" && "]"[1..] == "";
  }

  /** A scalar that is no string. */
  lemma OtherScalars(host: Host, c: char, s: string)
    requires c != '\"'
    ensures var r := ScalarRead(host, c, s); r.Got? ==> !r.value.Str?
  {
  }

  /** Closing the dictionary on top. */
  lemma CloseObject(st: State)
    requires Sound(st.stack) && ObjectIsTop(st.stack)
    ensures var m := Close(st);
            if |st.stack| == 1 then m == To(State([], Some(Obj(st.stack[0].entries)))) else m.state.stack != []
  {
  }

  /** With a dictionary open and a character pushed back that does not close the last one, the array is refused, or its text traps. */
  lemma LeftIsRead(host: Host, st: State, c: char)
    requires Sound(st.stack) && ObjectIsTop(st.stack) && !(|st.stack| == 1 && Closing(c))
    ensures !Decode(host, st, [c] + "[]").Ok?
  {
    hide ReadObjects, Close, Put, ScalarRead, BeginsScalar;
    var s := [c] + "[]";
    assert s[0] == c && s[1..] == "[]";
    StepAt(host, st, s);
    if Opening(c) {
      OpenStaysOpen(host, Push(st, if c == '[' then InArray([]) else InObject([])));
    } else if Closing(c) {
      CloseObject(st);
      if Close(st).To? { OpenStaysOpen(host, Close(st).state); }
    } else if c != ':' && c != ',' && BeginsScalar(c) {
      var v := ScalarRead(host, c, "[]");
      if c == '\"' { QuoteAlone(host); } else { OtherScalars(host, c, "[]"); }
      if v.Got? { ObjectsTakeStrings(st, v.value); }
    } else if c != ':' {
      OpenStaysOpen(host, st);
    }
  }

  /** A decoder that is about to close its last dictionary has that dictionary as its last result. */
  lemma ClosesFirst(host: Host, d: Decoder, s: string)
    requires Usable(d) && AboutToClose(d)
    ensures Answer(host, d, s) == LaxText(host, Some(Obj(d.state.stack[0].entries)), s)
  {
    hide ReadObjects, Close, LaxText;
    var t := d.left + s;
    assert t[0] == d.left[0] && t[1..] == s;
    StepAt(host, d.state, t);
    CloseObject(d.state);
    MachineIsLax(host, Some(Obj(d.state.stack[0].entries)), s);
  }

  lemma NothingOpen(host: Host, d: Decoder, s: string)
    requires Usable(d) && d.state.stack == []
    ensures Answer(host, d, s) == LaxText(host, d.state.exit, s)
  {
    hide LaxText, ReadObjects;
    assert d.left + s == s && d.state == State([], d.state.exit);
    MachineIsLax(host, d.state.exit, s);
  }

  lemma SomethingOpen(host: Host, d: Decoder)
    requires Usable(d) && d.state.stack != [] && !AboutToClose(d)
    ensures !Answer(host, d, "[]").Ok?
  {
    hide ReadObjects, Decode, Sound;
    if d.left == "" {
      assert d.left + "[]" == "[]";
      OpenStaysOpen(host, d.state);
    } else {
      assert d.left == [d.left[0]];
      LeftIsRead(host, d.state, d.left[0]);
    }
  }

  /**
   * A decoder answers every text as a new one, but for the last result, if and only if nothing
   * is open in it; or the last open dictionary is about to close and is what was the last result.
   */
  lemma AsNewExactly(host: Host, d: Decoder)
    requires Usable(d)
    ensures AsNew(host, d) <==>
            d.state.stack == [] || (AboutToClose(d) && d.state.exit == Some(Obj(d.state.stack[0].entries)))
  {
    hide LaxText, Decode, Answer, Sound;
    if d.state.stack == [] {
      forall s ensures Answer(host, d, s) == LaxText(host, d.state.exit, s) { NothingOpen(host, d, s); }
    } else if AboutToClose(d) {
      var v := Obj(d.state.stack[0].entries);
      forall s ensures Answer(host, d, s) == LaxText(host, Some(v), s) { ClosesFirst(host, d, s); }
      LastForNothing(host, Some(v));
      LastForNothing(host, d.state.exit);
    } else {
      SomethingOpen(host, d);
      NewTakesArray(host, d.state.exit);
      MachineIsLax(host, d.state.exit, "[]");
    }
  }

  lemma LastForNothing(host: Host, last: Option<Json>)
    ensures LaxText(host, last, "") == if last.Some? then Ok(last.value) else SyntaxError
  {
  }

  /** It decodes back what is encoded if and only if nothing is open in it, or the last open dictionary is about to close. */
  lemma DecodesBackExactly(host: Host, d: Decoder)
    requires Usable(d)
    ensures DecodesBack(host, d) <==> d.state.stack == [] || AboutToClose(d)
  {
    hide LaxText, Decode, Answer, Sound, Sendable, Plain, Encoded;
    if d.state.stack == [] || AboutToClose(d) {
      forall v | Sendable(host, v) && Plain(v) && (v.Arr? || v.Obj?)
        ensures Answer(host, d, Encoded(host, v)) == Ok(v)
      {
        var exit := if d.state.stack == [] then d.state.exit else Some(Obj(d.state.stack[0].entries));
        if d.state.stack == [] { NothingOpen(host, d, Encoded(host, v)); } else { ClosesFirst(host, d, Encoded(host, v)); }
        MachineRoundTrip(host, exit, v);
        MachineIsLax(host, exit, Encoded(host, v));
      }
    } else {
      EmptyArray(host);
      SomethingOpen(host, d);
    }
  }

  lemma EmptyArray(host: Host)
    ensures Sendable(host, Arr([])) && Plain(Arr([])) && Encoded(host, Arr([])) == "[]"
  {
  }

  // ---- which texts leave something open

  /** The text comes to a bracket that begins no value of the lax reader. */
  predicate BreaksOff(host: Host, s: string)
    decreases |s|
  {
    if s == "" || Closing(s[0]) || s[0] == ':' || s[0] == ',' then false
    else if Begins(s[0]) then
      var v := LaxValue(host, s);
      if v.Got? then BreaksOff(host, v.rest) else Opening(s[0])
    else BreaksOff(host, s[1..])
  }

  /** With nothing open before it, a text that does not trap leaves something open if and only if it breaks off inside a bracket. */
  lemma {:induction false} OpenExactly(host: Host, exit: Option<Json>, s: string)
    requires Decode(host, State([], exit), s) != Fault
    ensures var d := Used(host, Decoder(State([], exit), ""), s);
            d.Some? && (d.value.state.stack != [] <==> BreaksOff(host, s)) && (d.value.state.stack == [] ==> d.value.left == "")
    decreases |s|
  {
    hide ScalarRead, Close, LaxValue, ReadObjects, Put;
    var st := State([], exit);
    assert "" + s == s;
    if s == "" {
      NothingLeft(host, st);
    } else {
      StepAt(host, st, s);
      if Closing(s[0]) {
        NothingToClose(st);
      } else if s[0] != ':' && s[0] != ',' && Begins(s[0]) {
        ValueMeans(host, st, s);
        var v := LaxValue(host, s);
        if v.Got? {
          PutIsResult(st, v.value);
          assert "" + v.rest == v.rest;
          OpenExactly(host, Some(v.value), v.rest);
        }
      } else if s[0] != ':' && s[0] != ',' {
        assert "" + s[1..] == s[1..];
        OpenExactly(host, exit, s[1..]);
      }
    }
  }

  /** Every decoder, after any texts that did not trap: when it is as new, and when it decodes back. */
  lemma ReusedExactly(host: Host, texts: seq<string>)
    requires UsedAll(host, New(), texts).Some?
    ensures var d := UsedAll(host, New(), texts).value;
            && (AsNew(host, d) <==>
                d.state.stack == [] || (AboutToClose(d) && d.state.exit == Some(Obj(d.state.stack[0].entries))))
            && (DecodesBack(host, d) <==> d.state.stack == [] || AboutToClose(d))
  {
    hide AsNew, DecodesBack, UsedAll;
    var d := UsedAll(host, New(), texts).value;
    AsNewExactly(host, d);
    DecodesBackExactly(host, d);
  }

  /** A text that is refused, and an encoding behind it that a new decoder takes. */
  lemma BrokenTextStays(host: Host)
    ensures var d := Decoder(State([InArray([])], None), "");
            && Answer(host, New(), "[") == SyntaxError && UsedAll(host, New(), ["["]) == Some(d)
            && Answer(host, d, Encoded(host, Arr([]))) == SyntaxError
            && Answer(host, New(), Encoded(host, Arr([]))) == Ok(Arr([]))
  {
    hide ReadObjects, Encoded;
    var d := Decoder(State([InArray([])], None), "");
    assert "" + "[" == "[" && "["[1..] == "" && "" + "[]" == "[]" && |["["][1..]| == 0;
    StepAt(host, New().state, "[");
    assert Push(New().state, InArray([])) == d.state;
    NothingLeft(host, d.state);
    EmptyArray(host);
    OpenStaysOpen(host, d.state);
    NewTakesArray(host, None);
  }

  /** Two texts, the second refused with its dictionary left open, behind which a decoder is as new: the exception in AsNewExactly is met. */
  lemma ClosesToTheSame(host: Host)
    ensures UsedAll(host, New(), ["{}", "{null]"]) == Some(Decoder(State([InObject([])], Some(Obj([]))), "]"))
    ensures AsNew(host, Decoder(State([InObject([])], Some(Obj([]))), "]"))
  {
    hide ReadObjects, ScalarRead, AsNew;
    var a, b, in0 := "{}", "{null]", State([InObject([])], Some(Obj([])));
    assert "" + a == a && "" + b == b && a[1..] == "}" && "}"[1..] == "" && [a, b][1..] == [b];
    var none: seq<string> := [];
    assert [b][1..] == none;
    StepAt(host, New().state, a);
    assert Push(New().state, InObject([])) == State([InObject([])], None);
    StepAt(host, State([InObject([])], None), "}");
    CloseObject(State([InObject([])], None));
    NothingLeft(host, State([], Some(Obj([]))));
    assert Used(host, New(), a) == Some(Decoder(State([], Some(Obj([]))), ""));
    assert b[1..] == "null]" && "null]"[1..] == "ull]" && "]"[..1] == "]";
    StepAt(host, State([], Some(Obj([]))), b);
    assert Push(State([], Some(Obj([]))), InObject([])) == in0;
    StepAt(host, in0, "null]");
    NullRead(host);
    assert Used(host, Decoder(State([], Some(Obj([]))), ""), b) == Some(Decoder(in0, "]"));
    AsNewExactly(host, Decoder(in0, "]"));
  }

  lemma NullRead(host: Host)
    ensures ScalarRead(host, 'n', "ull]") == Got(Null, "]") && BeginsScalar('n')
  {
    WordReadsBack("ull", "ULL", "]");
    assert "ull" + "]" == "ull]";
  }
}
