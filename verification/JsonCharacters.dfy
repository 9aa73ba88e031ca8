// A text taken one character at a time with one character pushed back, and the scalars
// read from it.
module JsonCharacters {
  import opened Wrappers
  import opened JsonText
  import opened JsonReading

  /** An outcome with the text left is what the specification reads; after an exception what is left does not matter. */
  predicate Matches<T(==)>(out: Outcome<T>, left: string, r: Read<T>) {
    match r
    case Got(v, rest) => out == Ok(v) && left == rest
    case Malformed => out == SyntaxError
    case Trap => out == Fault
  }

  /** The generator of characters and the slot in front of it, which both decoders have. */
  class Characters {
    var g: string
    var pushBack: Option<char>

    constructor (s: string)
      ensures Pending() == s && pushBack.None?
    {
      g, pushBack := s, None;
    }

    /** The text still to come. */
    function Pending(): string
      reads this
    {
      if pushBack.Some? then [pushBack.value] + g else g
    }

    /** A character left over from another text. */
    function Left(): string
      reads this
    {
      if pushBack.Some? then [pushBack.value] else ""
    }

    /** Another text; what was pushed back stays in front of it. */
    method Renew(s: string)
      modifies this
      ensures Pending() == old(Left()) + s
    {
      g := s;
    }

    method Next() returns (c: Option<char>)
      modifies this
      ensures pushBack.None?
      ensures old(Pending()) == if c.Some? then [c.value] + Pending() else ""
      ensures c.None? ==> Pending() == ""
      ensures |Pending()| <= old(|Pending()|)
    {
      if pushBack.Some? {
        c := pushBack;
        pushBack := None;
        return;
      }
      if g == "" { return None; }
      c := Some(g[0]);
      g := g[1..];
    }

    /** The slot is never written while it is full. */
    method PushBack(c: char)
      requires pushBack.None?
      modifies this
      ensures Pending() == [c] + old(Pending()) && pushBack == Some(c)
    {
      pushBack := Some(c);
    }

    method MovePastWhite()
      modifies this
      ensures Pending() == SkipWhite(old(Pending()))
    {
      while true
        invariant SkipWhite(Pending()) == SkipWhite(old(Pending()))
        decreases |Pending()|
      {
        ghost var was := Pending();
        var c := Next();
        if c.None? { return; }
        assert was[1..] == Pending();
        if !White(c.value) {
          PushBack(c.value);
          return;
        }
      }
    }

    /** The opening quote has been read. */
    method ReadString() returns (out: Outcome<string>)
      modifies this
      ensures pushBack.None? && (out.Ok? ==> |Pending()| < old(|Pending()|))
      ensures Matches(out, Pending(), StringRead(old(Pending())))
    {
      hide HexRead, StringRead, Ahead, Prefixed;
      var esc, s := false, "";
      ghost var all := StringRead(old(Pending()));
      AheadNext(esc, Pending());
      PrefixedNone(all);
      var next := Next();
      while next.Some?
        invariant pushBack.None? && (next.None? ==> Pending() == "")
        invariant all == Prefixed(s, StringRead(Ahead(esc, next, Pending())))
        decreases |Pending()| + if next.Some? then 1 else 0
      {
        var c := next.value;
        StringStep(esc, c, Pending());
        PrefixedEnd(s, Pending());
        if esc {
          if c == 'u' {
            var h := ReadHex();
            if h == SyntaxError { return SyntaxError; }
            if h == Fault { return Fault; }
            PrefixedSnoc(s, h.value, StringRead(Pending()));
            s := s + [h.value];
          } else {
            PrefixedSnoc(s, Unescaped(c), StringRead(Pending()));
            s := s + [Unescaped(c)];
          }
          esc := false;
        } else if c == '\\' {
          esc := true;
        } else if c == '\"' {
          return Ok(s);
        } else {
          PrefixedSnoc(s, c, StringRead(Pending()));
          s := s + [c];
        }
        AheadNext(esc, Pending());
        next := Next();
      }
      StringEnds(esc);
      PrefixedEnd(s, "");
      return SyntaxError;
    }

    /** Four digits, and the scalar they name. */
    method ReadHex() returns (out: Outcome<char>)
      requires pushBack.None?
      modifies this
      ensures pushBack.None? && |Pending()| <= old(|Pending()|)
      ensures Matches(out, Pending(), HexRead(old(Pending())))
    {
      hide HexRead, HexDigit, HexDigits, HexCode;
      var hexStr: string := [];
      HexDigitsNone();
      while |hexStr| < 4
        invariant pushBack.None? && |hexStr| <= 4 && HexDigits(hexStr)
        invariant old(Pending()) == hexStr + Pending()
        decreases 4 - |hexStr|
      {
        var next := Next();
        if next.None? || !HexDigit(next.value) {
          HexRefused(old(Pending()), |hexStr|);
          return SyntaxError;
        }
        HexDigitsSnoc(hexStr, next.value);
        hexStr := hexStr + [next.value];
      }
      HexTaken(hexStr, Pending());
      var code := HexCode(hexStr);
      if 0xD800 <= code < 0xE000 { return Fault; }
      return Ok(code as char);
    }

    /** A number whose first character has been read; the character behind it is pushed back. */
    method ReadNumber(host: Host, firstChar: char) returns (out: Outcome<Json>)
      modifies this
      ensures out.Ok? ==> |Pending()| <= old(|Pending()|)
      ensures Matches(out, Pending(), NumberRead(host, firstChar, old(Pending())))
      ensures (out.Ok? ==> pushBack.Some?) && (out == SyntaxError ==> pushBack.None?)
    {
      hide NumberFrom, Digit, Exponent, Sign, IntOf;
      var s, needPeriod, needExp, last := [firstChar], firstChar != '.', true, firstChar;
      ghost var was := Pending();
      var next := Next();
      while next.Some?
        invariant pushBack.None? && (next.None? ==> Pending() == "")
        invariant |Pending()| + (if next.Some? then 1 else 0) <= |was|
        invariant NumberRead(host, firstChar, was) ==
                  NumberFrom(host, s, needPeriod, needExp, last, Due(next, Pending()))
        decreases |Pending()| + if next.Some? then 1 else 0
      {
        var c := next.value;
        NumberStep(host, s, needPeriod, needExp, last, c, Pending());
        if Digit(c) {
          s := s + [c];
        } else if (c == '.' && !needPeriod) || (Exponent(c) && !needExp) {
          return SyntaxError;
        } else if c == '.' {
          needPeriod := false;
          s := s + [c];
        } else if Exponent(c) {
          needExp := false;
          s := s + [c];
          next := Next();
          if next.None? { return Fault; }
          if Sign(next.value) {
            s := s + [next.value];
          } else {
            PushBack(next.value);
          }
        } else if Digit(last) {
          PushBack(c);
          if needPeriod && needExp {
            var i := IntOf(s);
            return if i.Some? then Ok(Int(i.value)) else Fault;
          }
          var d := host.toDouble(s);
          return if d.Some? then Ok(Double(d.value)) else Fault;
        } else {
          return SyntaxError;
        }
        last := c;
        next := Next();
      }
      NumberEnds(host, s, needPeriod, needExp, last);
      return SyntaxError;
    }

    /** The next character is this letter, in one of its two cases. */
    method Letter(lower: char, upper: char) returns (ok: bool)
      modifies this
      ensures pushBack.None?
      ensures ok <==> old(Pending()) != "" && (old(Pending())[0] == lower || old(Pending())[0] == upper)
      ensures ok ==> Pending() == old(Pending())[1..]
    {
      var next := Next();
      ok := next.Some? && (next.value == lower || next.value == upper);
    }

    /** The word does not go on; what follows is pushed back. */
    method WordEnd() returns (ok: bool)
      modifies this
      ensures ok <==> EndsWord(old(Pending()))
      ensures ok ==> Pending() == old(Pending())
      ensures pushBack.Some? <==> ok
    {
      var next := Next();
      ok := next.Some? && !AlphaNum(next.value);
      if ok { PushBack(next.value); }
    }

    method ReadTrue() returns (out: Outcome<()>)
      modifies this
      ensures Matches(out, Pending(), WordRead("rue", "RUE", old(Pending())))
      ensures pushBack.Some? <==> out.Ok?
    {
      var ok := Letter('r', 'R');
      if !ok { return SyntaxError; }
      ok := Letter('u', 'U');
      if !ok { return SyntaxError; }
      ok := Letter('e', 'E');
      if !ok { return SyntaxError; }
      ok := WordEnd();
      return if ok then Ok(()) else SyntaxError;
    }

    method ReadFalse() returns (out: Outcome<()>)
      modifies this
      ensures Matches(out, Pending(), WordRead("alse", "ALSE", old(Pending())))
      ensures pushBack.Some? <==> out.Ok?
    {
      var ok := Letter('a', 'A');
      if !ok { return SyntaxError; }
      ok := Letter('l', 'L');
      if !ok { return SyntaxError; }
      ok := Letter('s', 'S');
      if !ok { return SyntaxError; }
      ok := Letter('e', 'E');
      if !ok { return SyntaxError; }
      ok := WordEnd();
      return if ok then Ok(()) else SyntaxError;
    }

    method ReadNull() returns (out: Outcome<()>)
      modifies this
      ensures Matches(out, Pending(), WordRead("ull", "ULL", old(Pending())))
      ensures pushBack.Some? <==> out.Ok?
    {
      var ok := Letter('u', 'U');
      if !ok { return SyntaxError; }
      ok := Letter('l', 'L');
      if !ok { return SyntaxError; }
      ok := Letter('l', 'L');
      if !ok { return SyntaxError; }
      ok := WordEnd();
      return if ok then Ok(()) else SyntaxError;
    }

    /** The scalar whose first character has been read. Behind a number or a word a character is pushed back. */
    method ReadScalar(host: Host, c: char) returns (out: Outcome<Json>)
      modifies this
      ensures out.Ok? ==> |Pending()| <= old(|Pending()|)
      ensures Matches(out, Pending(), ScalarRead(host, c, old(Pending())))
      ensures out.Ok? && !out.value.Str? ==> pushBack.Some?
      ensures out == SyntaxError && old(pushBack).None? ==> pushBack.None?
    {
      hide StringRead, NumberRead, WordRead, Digit, Sign;
      if c == '\"' {
        var r := ReadString();
        return if r.Ok? then Ok(Str(r.value)) else if r.Fault? then Fault else SyntaxError;
      } else if Digit(c) || Sign(c) {
        out := ReadNumber(host, c);
        return;
      } else if c == 't' || c == 'T' {
        var r := ReadTrue();
        return if r.Ok? then Ok(Bool(true)) else SyntaxError;
      } else if c == 'f' || c == 'F' {
        var r := ReadFalse();
        return if r.Ok? then Ok(Bool(false)) else SyntaxError;
      } else if c == 'n' || c == 'N' {
        var r := ReadNull();
        return if r.Ok? then Ok(Null) else SyntaxError;
      }
      return SyntaxError;
    }
  }

  /** The text to come when its first character has been taken already. */
  function Due(next: Option<char>, pending: string): string {
    if next.Some? then [next.value] + pending else ""
  }

  lemma NumberEnds(host: Host, text: string, needPeriod: bool, needExp: bool, last: char)
    ensures NumberFrom(host, text, needPeriod, needExp, last, "").Malformed?
  {
  }

  lemma NumberStep(host: Host, text: string, needPeriod: bool, needExp: bool, last: char, c: char, p: string)
    ensures NumberFrom(host, text, needPeriod, needExp, last, [c] + p) ==
            if Digit(c) then NumberFrom(host, text + [c], needPeriod, needExp, c, p)
            else if (c == '.' && !needPeriod) || (Exponent(c) && !needExp) then Malformed
            else if c == '.' then NumberFrom(host, text + [c], false, needExp, c, p)
            else if Exponent(c) then
              if p == "" then Trap
              else if Sign(p[0]) then NumberFrom(host, text + [c] + [p[0]], needPeriod, false, c, p[1..])
              else NumberFrom(host, text + [c], needPeriod, false, c, p)
            else if Digit(last) then NumberOf(host, text, needPeriod && needExp, [c] + p)
            else Malformed
  {
    var s := [c] + p;
    assert s[1..] == p;
    if p != "" { assert s[2..] == p[1..] && text + [c] + [p[0]] == text + [c, s[1]]; }
  }

  predicate HexDigits(s: string) { forall i :: 0 <= i < |s| ==> HexDigit(s[i]) }

  lemma HexDigitsNone()
    ensures HexDigits("")
  {
  }

  lemma HexDigitsSnoc(s: string, c: char)
    requires HexDigits(s) && HexDigit(c)
    ensures HexDigits(s + [c])
  {
  }

  function HexCode(s: string): (n: nat)
    requires |s| == 4 && HexDigits(s)
    ensures n < 0x10000
  {
    4096 * HexValue(s[0]) + 256 * HexValue(s[1]) + 16 * HexValue(s[2]) + HexValue(s[3])
  }

  lemma HexRefused(s: string, i: nat)
    requires i < 4 && i <= |s| && (i == |s| || !HexDigit(s[i]))
    ensures HexRead(s).Malformed?
  {
  }

  lemma HexTaken(digits: string, rest: string)
    requires |digits| == 4 && HexDigits(digits)
    ensures HexRead(digits + rest) ==
            var code := HexCode(digits); if 0xD800 <= code < 0xE000 then Trap else Got(code as char, rest)
  {
    assert (digits + rest)[4..] == rest;
  }

  /** What is to be read with `next` taken already, behind a backslash if esc. */
  function Ahead(esc: bool, next: Option<char>, pending: string): string {
    (if esc then "\\" else "") + (if next.Some? then [next.value] else "") + pending
  }

  function Prefixed(s: string, r: Read<string>): Read<string> {
    if r.Got? then Got(s + r.value, r.rest) else r
  }

  lemma PrefixedSnoc(s: string, c: char, r: Read<string>)
    ensures Prefixed(s + [c], r) == Prefixed(s, Before(c, r))
  {
    if r.Got? { assert s + [c] + r.value == s + ([c] + r.value); }
  }

  lemma PrefixedNone(r: Read<string>)
    ensures Prefixed("", r) == r
  {
    if r.Got? { assert "" + r.value == r.value; }
  }

  lemma PrefixedEnd(s: string, rest: string)
    ensures Prefixed(s, Got("", rest)) == Got(s, rest)
    ensures Prefixed(s, Malformed) == Malformed && Prefixed(s, Trap) == Trap
  {
    assert s + "" == s;
  }

  /** Taking the next character of what is to be read changes nothing about it. */
  lemma AheadNext(esc: bool, p: string)
    ensures Ahead(false, None, p) == p
    ensures p == "" ==> Ahead(esc, None, p) == Ahead(esc, None, "")
    ensures p != "" ==> Ahead(esc, None, p) == Ahead(esc, Some(p[0]), p[1..])
    ensures forall c, q :: p == [c] + q ==> Ahead(esc, None, p) == Ahead(esc, Some(c), q)
  {
  }

  lemma StringStep(esc: bool, c: char, p: string)
    ensures StringRead(Ahead(esc, Some(c), p)) ==
            if esc then
              if c == 'u' then
                var h := HexRead(p);
                if h.Got? then Before(h.value, StringRead(h.rest)) else if h.Trap? then Trap else Malformed
              else Before(Unescaped(c), StringRead(p))
            else if c == '\\' then StringRead(Ahead(true, None, p))
            else if c == '\"' then Got("", p)
            else Before(c, StringRead(p))
  {
    hide HexRead;
    var s := Ahead(esc, Some(c), p);
    if esc {
      assert s[2..] == p;
    } else {
      assert s[1..] == p;
      if c == '\\' { assert s == Ahead(true, None, p); }
    }
  }

  lemma StringEnds(esc: bool)
    ensures StringRead(Ahead(esc, None, "")).Malformed?
  {
  }
}
