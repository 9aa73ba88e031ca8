// The two decoders: a recursive one, and one with a stack.
module JsonDecoders {
  import opened Wrappers
  import opened JsonText
  import opened JsonReading
  import opened JsonMachine
  import opened JsonCharacters
  import opened JsonReuse

  // ---- the recursive decoder

  class JSONDecodeState {
    const host: Host
    const chars: Characters

    constructor (host: Host, s: string)
      ensures this.host == host && fresh(chars) && chars.Pending() == s
    {
      this.host := host;
      chars := new Characters(s);
    }

    method ReadObject() returns (out: Outcome<Json>)
      modifies chars
      ensures out.Ok? ==> |chars.Pending()| < old(|chars.Pending()|)
      ensures Matches(out, chars.Pending(), JsonReading.ReadObject(host, old(chars.Pending())))
      decreases |chars.Pending()|, 0
    {
      hide SkipWhite, ScalarRead, ReadItems, ReadEntries, Made;
      chars.MovePastWhite();
      var c := chars.Next();
      if c.None? { return SyntaxError; }
      if c.value == '[' {
        chars.MovePastWhite();
        var d := chars.Next();
        if d.None? { return SyntaxError; }
        if d.value == ']' { return Ok(Arr([])); }
        chars.PushBack(d.value);
        out := ReadArray();
      } else if c.value == '{' {
        chars.MovePastWhite();
        var d := chars.Next();
        if d.None? { return SyntaxError; }
        if d.value == '}' { return Ok(Made(host, [])); }
        chars.PushBack(d.value);
        out := ReadDictionary();
      } else {
        out := chars.ReadScalar(host, c.value);
      }
    }

    /** The items, once there is one. */
    method ReadArray() returns (out: Outcome<Json>)
      modifies chars
      ensures out.Ok? ==> |chars.Pending()| < old(|chars.Pending()|)
      ensures Matches(out, chars.Pending(), ReadItems(host, [], old(chars.Pending())))
      decreases |chars.Pending()|, 1
    {
      hide SkipWhite, JsonReading.ReadObject;
      var a: seq<Json> := [];
      while true
        invariant |chars.Pending()| <= old(|chars.Pending()|)
        invariant ReadItems(host, [], old(chars.Pending())) == ReadItems(host, a, chars.Pending())
        decreases |chars.Pending()|
      {
        var v := ReadObject();
        if !v.Ok? { return v; }
        chars.MovePastWhite();
        var c := chars.Next();
        if c.None? { return SyntaxError; }
        a := a + [v.value];
        if c.value == ']' { return Ok(Arr(a)); }
        if c.value != ',' { return SyntaxError; }
      }
    }

    /** The entries, once there is one. */
    method ReadDictionary() returns (out: Outcome<Json>)
      modifies chars
      ensures out.Ok? ==> |chars.Pending()| < old(|chars.Pending()|)
      ensures Matches(out, chars.Pending(), ReadEntries(host, [], old(chars.Pending())))
      decreases |chars.Pending()|, 1
    {
      hide SkipWhite, JsonReading.ReadObject, Assign, Made;
      var d: seq<Entry> := [];
      while true
        invariant |chars.Pending()| <= old(|chars.Pending()|)
        invariant ReadEntries(host, [], old(chars.Pending())) == ReadEntries(host, d, chars.Pending())
        decreases |chars.Pending()|
      {
        var key := ReadObject();
        if !key.Ok? { return key; }
        if !key.value.Str? { return SyntaxError; }
        chars.MovePastWhite();
        var c := chars.Next();
        if c.None? || c.value != ':' { return SyntaxError; }
        WhiteFirst(host, chars.Pending());
        chars.MovePastWhite();
        var v := ReadObject();
        if !v.Ok? { return v; }
        d := Assign(d, key.value.s, v.value);
        chars.MovePastWhite();
        c := chars.Next();
        if c.None? { return SyntaxError; }
        if c.value == '}' { return Ok(Made(host, d)); }
        if c.value != ',' { return SyntaxError; }
      }
    }
  }

  /** String.jsonDecode: the value at the start of the text. */
  method JsonDecode(host: Host, s: string) returns (out: Outcome<Json>)
    ensures var r := ReadObject(host, s); out == if r.Got? then Ok(r.value) else if r.Trap? then Fault else SyntaxError
  {
    hide ReadObject;
    var state := new JSONDecodeState(host, s);
    out := state.ReadObject();
  }

  // ---- the decoder with a stack

  /** What is put into a container: a value, or a key with the value that it may have by now. */
  datatype Finished = Whole(json: Json) | Pair(key: string, value: Option<Json>)

  class JSONDecoder {
    const host: Host
    var stack: Stack
    var exit: Option<Json>
    const chars: Characters

    constructor (host: Host)
      ensures this.host == host && Now() == State([], None) && fresh(chars) && chars.Left() == ""
    {
      this.host := host;
      stack, exit := [], None;
      chars := new Characters("");
    }

    function Now(): State
      reads this`stack, this`exit
    {
      State(stack, exit)
    }

    /** What the state is after a call that answered ok. */
    predicate After(ok: bool, m: Move)
      reads this`stack, this`exit
    {
      Sound(stack) && m.state == Now() && (ok <==> m.To?)
    }

    /** What stays in the decoder between two calls. */
    function Kept(): Decoder
      reads this, chars
    {
      Decoder(Now(), chars.Left())
    }

    /** Something finished goes into the container on top. A key gets its value and goes on into its dictionary. */
    method HandlePop(a: Finished) returns (ok: bool)
      requires Sound(stack) && (a.Pair? ==> stack != [] && stack[|stack| - 1].InObject?)
      modifies this`stack, this`exit
      ensures a.Whole? ==> After(ok, Put(old(Now()), a.json))
      ensures a.Pair? ==> Sound(stack) && ok == a.value.Some? && exit == old(exit) && (!ok ==> stack == old(stack))
      ensures a.Pair? && ok ==>
              stack == old(stack[..|stack| - 1] + [InObject(Assign(stack[|stack| - 1].entries, a.key, a.value.value))])
      decreases if a.Whole? then 1 else 0
    {
      hide Assign;
      var n := |stack|;
      if n == 0 {
        exit := Some(a.json);
        return true;
      }
      var top := stack[n - 1];
      if top.InArray? {
        stack := stack[..n - 1] + [InArray(top.items + [a.json])];
        return true;
      }
      if top.InObject? {
        if a.Pair? {
          if a.value.None? { return false; }
          stack := stack[..n - 1] + [InObject(Assign(top.entries, a.key, a.value.value))];
          return true;
        }
        if !a.json.Str? { return false; }
        stack := stack + [KeyPair(a.json.s)];
        return true;
      }
      stack := stack[..n - 1];
      assert old(stack)[..n - 1][..n - 2] == old(stack)[..n - 2];
      ok := HandlePop(Pair(top.key, Some(a.json)));
    }

    /** Either closing bracket: the top is taken off and goes into what is then on top. */
    method HandleClose() returns (ok: bool)
      requires Sound(stack)
      modifies this`stack, this`exit
      ensures After(ok, Close(old(Now())))
    {
      hide Put;
      if stack == [] { return false; }
      var top := stack[|stack| - 1];
      stack := stack[..|stack| - 1];
      match top
      case InArray(items) => ok := HandlePop(Whole(Arr(items)));
      case InObject(entries) => ok := HandlePop(Whole(Obj(entries)));
      case KeyPair(key) => ok := HandlePop(Pair(key, None));
    }

    method ReadObjects() returns (out: Outcome<()>)
      requires Sound(stack)
      modifies this`stack, this`exit, chars
      ensures Sound(stack)
      ensures var r := JsonMachine.ReadObjects(host, old(Now()), old(chars.Pending()));
              if out.Ok? then r == At(Now()) else if out.Fault? then r == Crash else r == Refused(Now(), chars.Left())
      ensures out.Ok? ==> chars.Left() == ""
    {
      hide Put, Close, ScalarRead, Sound, BeginsScalar, KeyOnTop;
      ghost var r := JsonMachine.ReadObjects(host, Now(), chars.Pending());
      var next := chars.Next();
      while next.Some?
        invariant Sound(stack) && chars.pushBack.None? && (next.None? ==> chars.Pending() == "")
        invariant r == JsonMachine.ReadObjects(host, Now(), Due(next, chars.Pending()))
        decreases |chars.Pending()| + if next.Some? then 1 else 0
      {
        var c := next.value;
        ReadStep(host, Now(), c, chars.Pending());
        if c == '[' {
          PushedSound(Now(), InArray([]));
          stack := stack + [InArray([])];
        } else if c == '{' {
          PushedSound(Now(), InObject([]));
          stack := stack + [InObject([])];
        } else if c == ']' || c == '}' {
          var ok := HandleClose();
          if !ok { return SyntaxError; }
        } else if c == ':' {
          if !KeyOnTop(stack) { return SyntaxError; }
        } else if c == ',' {
          if stack == [] || KeyOnTop(stack) { return SyntaxError; }
        } else if BeginsScalar(c) {
          ghost var p := chars.Pending();
          var v := chars.ReadScalar(host, c);
          if v.Fault? { return Fault; }
          if v == SyntaxError { return SyntaxError; }
          ScalarIsScalar(host, c, p);
          StuckMeans(Now(), v.value);
          var ok := HandlePop(Whole(v.value));
          if !ok { return SyntaxError; }
        }
        next := chars.Next();
      }
      NothingLeft(host, Now());
      return Ok(());
    }

    /** The stack, the last result and a character pushed back are not cleared first. */
    method Decode(s: string) returns (out: Outcome<Json>)
      requires Sound(stack)
      modifies this`stack, this`exit, chars
      ensures Sound(stack) && out == Answer(host, old(Kept()), s)
      ensures !out.Fault? ==> Used(host, old(Kept()), s) == Some(Kept())
      ensures out.Ok? ==> Kept() == Decoder(State([], Some(out.value)), "")
    {
      hide JsonMachine.ReadObjects, Sound;
      chars.Renew(s);
      var r := ReadObjects();
      if r.Fault? { return Fault; }
      if r == SyntaxError || stack != [] || exit.None? { return SyntaxError; }
      return Ok(exit.value);
    }
  }

  lemma PushedSound(st: State, frame: Frame)
    requires Sound(st.stack) && !frame.KeyPair?
    ensures Sound(st.stack + [frame])
  {
  }

  lemma StuckMeans(st: State, v: Json)
    requires Sound(st.stack)
    ensures Put(st, v).Stuck? ==> !v.Str? && Put(st, v).held == Scalar(v)
  {
  }

  lemma ReadStep(host: Host, st: State, c: char, p: string)
    requires Sound(st.stack)
    ensures JsonMachine.ReadObjects(host, st, [c] + p) ==
            if c == '[' then JsonMachine.ReadObjects(host, Push(st, InArray([])), p)
            else if c == '{' then JsonMachine.ReadObjects(host, Push(st, InObject([])), p)
            else if c == ']' || c == '}' then Then(host, Close(st), p)
            else if c == ':' then if KeyOnTop(st.stack) then JsonMachine.ReadObjects(host, st, p) else Refused(st, "")
            else if c == ',' then
              if st.stack != [] && !KeyOnTop(st.stack) then JsonMachine.ReadObjects(host, st, p) else Refused(st, "")
            else if BeginsScalar(c) then
              var v := ScalarRead(host, c, p);
              if v.Got? then Then(host, Put(st, v.value), v.rest) else if v.Trap? then Crash else Refused(st, "")
            else JsonMachine.ReadObjects(host, st, p)
  {
    assert ([c] + p)[1..] == p;
  }
}
