// JSON values, how they are written, and how strings, numbers and words are read. The two
// decoders of the library read these alike.
module JsonText {
  import opened Wrappers
  import Utf8

  const INT_MIN: int := -0x8000_0000_0000_0000
  const INT_MAX: int := 0x7FFF_FFFF_FFFF_FFFF

  type Int64 = i: int | INT_MIN <= i <= INT_MAX

  /**
   * A dictionary is given with the order it is walked in. A Custom is an object that the
   * registry makes for a dictionary that names its class.
   */
  datatype Json =
    | Null
    | Bool(b: bool)
    | Int(i: Int64)
    | Double(d: real)
    | Str(s: string)
    | Arr(items: seq<Json>)
    | Obj(entries: seq<Entry>)
    | Custom(name: string, entries: seq<Entry>)

  datatype Entry = Entry(key: string, value: Json)

  /** What was read and the text behind it; a refusal; or a runtime trap. */
  datatype Read<+T> = Got(value: T, rest: string) | Malformed | Trap

  /** What a call gives: a value, an exception, or a runtime trap. */
  datatype Outcome<+T> = Ok(value: T) | SyntaxError | Fault

  /** How the runtime reads and writes a floating-point number, and the classes it knows how to make. */
  datatype Host = Host(toDouble: string -> Option<real>, doubleText: real -> string, registered: set<string>)

  // ---- character classes, for ASCII

  predicate White(c: char) { c as int < 128 && Utf8.White(c as int) }

  predicate Digit(c: char) { '0' <= c <= '9' }

  predicate AlphaNum(c: char) { Digit(c) || 'a' <= c <= 'z' || 'A' <= c <= 'Z' }

  predicate HexDigit(c: char) { Digit(c) || 'a' <= c <= 'f' || 'A' <= c <= 'F' }

  function HexValue(c: char): (n: nat)
    requires HexDigit(c)
    ensures n < 16
  {
    if Digit(c) then c as int - '0' as int else if 'a' <= c then c as int - 'a' as int + 10 else c as int - 'A' as int + 10
  }

  // ---- strings

  function EscapedChar(c: char): string {
    if c == '\\' then "\\\\"
    else if c == '\"' then "\\\""
    else if c == 8 as char then "\\b"
    else if c == 12 as char then "\\f"
    else if c == '\n' then "\\n"
    else if c == '\r' then "\\r"
    else if c == '\t' then "\\t"
    else [c]
  }

  function Escaped(s: string): string {
    if s == "" then "" else EscapedChar(s[0]) + Escaped(s[1..])
  }

  function Quoted(s: string): string { "\"" + Escaped(s) + "\"" }

  /** What a backslash and this character stand for. */
  function Unescaped(c: char): char {
    if c == 'b' then 8 as char
    else if c == 'f' then 12 as char
    else if c == 'n' then '\n'
    else if c == 'r' then '\r'
    else if c == 't' then '\t'
    else c
  }

  /** Four hexadecimal digits. A surrogate is no scalar: making one traps. */
  function HexRead(s: string): (r: Read<char>)
    ensures r.Got? ==> |r.rest| < |s|
  {
    if |s| < 4 || !(HexDigit(s[0]) && HexDigit(s[1]) && HexDigit(s[2]) && HexDigit(s[3])) then Malformed
    else
      var code := 4096 * HexValue(s[0]) + 256 * HexValue(s[1]) + 16 * HexValue(s[2]) + HexValue(s[3]);
      if 0xD800 <= code < 0xE000 then Trap else Got(code as char, s[4..])
  }

  function Before(c: char, r: Read<string>): Read<string> {
    if r.Got? then Got([c] + r.value, r.rest) else r
  }

  /** A string whose opening quote has been read. */
  function StringRead(s: string): (r: Read<string>)
    ensures r.Got? ==> |r.rest| < |s|
    decreases |s|
  {
    if s == "" then Malformed
    else if s[0] == '\\' then
      if |s| == 1 then Malformed
      else if s[1] == 'u' then
        var h := HexRead(s[2..]);
        if h.Got? then Before(h.value, StringRead(h.rest)) else if h.Trap? then Trap else Malformed
      else Before(Unescaped(s[1]), StringRead(s[2..]))
    else if s[0] == '\"' then Got("", s[1..])
    else Before(s[0], StringRead(s[1..]))
  }

  lemma CharReadsBack(c: char, more: string)
    ensures StringRead(EscapedChar(c) + more) == Before(c, StringRead(more))
  {
    hide HexRead;
    var text := EscapedChar(c) + more;
    if |EscapedChar(c)| == 1 {
      assert text[0] == c && text[1..] == more;
    } else {
      assert text[0] == '\\' && text[1] == EscapedChar(c)[1] && text[2..] == more;
      assert text[1] != 'u' && Unescaped(text[1]) == c;
    }
  }

  /** Every string comes back, whatever it holds and whatever follows. */
  lemma {:induction false} StringReadsBack(s: string, rest: string)
    ensures StringRead(Escaped(s) + "\"" + rest) == Got(s, rest)
  {
    hide EscapedChar;
    if s == "" {
      assert Escaped(s) + "\"" + rest == "\"" + rest;
      assert ("\"" + rest)[1..] == rest;
    } else {
      var more := Escaped(s[1..]) + "\"" + rest;
      assert Escaped(s) + "\"" + rest == EscapedChar(s[0]) + more;
      CharReadsBack(s[0], more);
      StringReadsBack(s[1..], rest);
      assert s == [s[0]] + s[1..];
    }
  }

  // ---- numbers

  function DigitChar(d: nat): char
    requires d < 10
  {
    (48 + d) as char
  }

  function Decimal(n: nat): (s: string)
    ensures s != "" && forall i :: 0 <= i < |s| ==> Digit(s[i])
  {
    if n < 10 then [DigitChar(n)] else Decimal(n / 10) + [DigitChar(n % 10)]
  }

  function IntText(i: int): string {
    if i < 0 then "-" + Decimal(-i) else Decimal(i)
  }

  predicate Digits(s: string) { forall i :: 0 <= i < |s| ==> Digit(s[i]) }

  function NatOf(s: string): nat
    requires Digits(s)
  {
    if s == "" then 0
    else
      assert Digit(s[|s| - 1]);
      10 * NatOf(s[..|s| - 1]) + (s[|s| - 1] as int - '0' as int)
  }

  /** Swift's Int of a text: a sign or none, digits, and 64 bits to hold it. */
  function IntOf(s: string): Option<Int64> {
    var digits := if s != "" && (s[0] == '-' || s[0] == '+') then s[1..] else s;
    if digits == "" || !Digits(digits) then None
    else
      var size: int := NatOf(digits);
      var n := if s[0] == '-' then -size else size;
      if INT_MIN <= n <= INT_MAX then
        var i: Int64 := n;
        Some(i)
      else None
  }

  lemma {:induction false} DecimalReadsBack(n: nat)
    ensures NatOf(Decimal(n)) == n
  {
    if n >= 10 {
      DecimalReadsBack(n / 10);
      var s := Decimal(n);
      assert s[..|s| - 1] == Decimal(n / 10);
    }
  }

  lemma IntReadsBack(i: Int64)
    ensures IntOf(IntText(i)) == Some(i)
  {
    var size: int := i;
    var n := if i < 0 then -size else size;
    DecimalReadsBack(n);
    assert i < 0 ==> IntText(i)[1..] == Decimal(n);
    assert Digit(Decimal(n)[0]);
  }

  /** The value of a numeric literal, forced: a text that has none traps. */
  function NumberOf(host: Host, text: string, whole: bool, rest: string): Read<Json> {
    if whole then
      var i := IntOf(text);
      if i.None? then Trap else Got(Int(i.value), rest)
    else
      var d := host.toDouble(text);
      if d.None? then Trap else Got(Double(d.value), rest)
  }

  predicate Exponent(c: char) { c == 'e' || c == 'E' }

  predicate Sign(c: char) { c == '-' || c == '+' }

  /** The rest of a number: `text` so far, ending in `last`. It needs a character behind it. */
  function NumberFrom(host: Host, text: string, needPeriod: bool, needExp: bool, last: char, s: string): (r: Read<Json>)
    ensures r.Got? ==> |r.rest| <= |s| && (r.value.Int? || r.value.Double?)
    decreases |s|
  {
    if s == "" then Malformed
    else
      var c := s[0];
      if Digit(c) then NumberFrom(host, text + [c], needPeriod, needExp, c, s[1..])
      else if (c == '.' && !needPeriod) || (Exponent(c) && !needExp) then Malformed
      else if c == '.' then NumberFrom(host, text + [c], false, needExp, c, s[1..])
      else if Exponent(c) then
        if |s| == 1 then Trap
        else if Sign(s[1]) then NumberFrom(host, text + [c, s[1]], needPeriod, false, c, s[2..])
        else NumberFrom(host, text + [c], needPeriod, false, c, s[1..])
      else if Digit(last) then NumberOf(host, text, needPeriod && needExp, s)
      else Malformed
  }

  function NumberRead(host: Host, first: char, s: string): (r: Read<Json>)
    ensures r.Got? ==> |r.rest| <= |s| && (r.value.Int? || r.value.Double?)
  {
    NumberFrom(host, [first], first != '.', true, first, s)
  }

  /** What may follow a number. */
  predicate EndsNumber(rest: string) {
    rest != "" && !Digit(rest[0]) && rest[0] != '.' && !Exponent(rest[0])
  }

  lemma {:induction false} DigitsRead(host: Host, text: string, last: char, digits: string, rest: string)
    requires Digits(digits) && EndsNumber(rest) && (digits == "" ==> Digit(last))
    ensures NumberFrom(host, text, true, true, last, digits + rest) == NumberOf(host, text + digits, true, rest)
    decreases |digits|
  {
    hide NumberOf;
    if digits == "" {
      assert digits + rest == rest && text + digits == text;
    } else {
      assert (digits + rest)[0] == digits[0] && (digits + rest)[1..] == digits[1..] + rest;
      assert text + [digits[0]] + digits[1..] == text + digits;
      DigitsRead(host, text + [digits[0]], digits[0], digits[1..], rest);
    }
  }

  /** Every integer comes back in front of whatever may follow one. */
  lemma NumberReadsBack(host: Host, i: Int64, rest: string)
    requires EndsNumber(rest)
    ensures var t := IntText(i) + rest;
            (Digit(t[0]) || t[0] == '-') && NumberRead(host, t[0], t[1..]) == Got(Int(i), rest)
    ensures var t := IntText(i); NumberRead(host, t[0], t[1..]).Malformed?
  {
    hide IntOf, NumberFrom, EndsNumber;
    var s := IntText(i);
    IntReadsBack(i);
    assert (s + rest)[0] == s[0] && (s + rest)[1..] == s[1..] + rest && [s[0]] + s[1..] == s;
    DigitsRead(host, [s[0]], s[0], s[1..], rest);
    AnyEnd(host, [s[0]], true, true, s[0], s[1..], rest, rest);
  }

  /** A number that is read in front of one text that may follow it is read in front of every such text, and not at the end. */
  lemma {:induction false} AnyEnd(host: Host, text: string, needPeriod: bool, needExp: bool, last: char, s: string,
                                  x: string, y: string)
    requires EndsNumber(x) && EndsNumber(y)
    requires var r := NumberFrom(host, text, needPeriod, needExp, last, s + x); r.Got? && r.rest == x
    ensures var r := NumberFrom(host, text, needPeriod, needExp, last, s + x);
            NumberFrom(host, text, needPeriod, needExp, last, s + y) == Got(r.value, y)
    ensures NumberFrom(host, text, needPeriod, needExp, last, s).Malformed?
    decreases |s|
  {
    if s == "" {
      assert s + x == x && s + y == y;
    } else {
      var c := s[0];
      assert (s + x)[1..] == s[1..] + x && (s + y)[1..] == s[1..] + y;
      if Digit(c) {
        AnyEnd(host, text + [c], needPeriod, needExp, c, s[1..], x, y);
      } else if c == '.' {
        AnyEnd(host, text + [c], false, needExp, c, s[1..], x, y);
      } else if Exponent(c) {
        if |s| > 1 {
          assert (s + x)[1] == s[1] == (s + y)[1] && (s + x)[2..] == s[2..] + x && (s + y)[2..] == s[2..] + y;
          if Sign(s[1]) { AnyEnd(host, text + [c, s[1]], needPeriod, false, c, s[2..], x, y); }
          else { AnyEnd(host, text + [c], needPeriod, false, c, s[1..], x, y); }
        }
      }
    }
  }

  /** The runtime reads back what it writes for d, as a number in a list. */
  predicate DoubleOk(host: Host, d: real) {
    var t := host.doubleText(d);
    t != "" && (Digit(t[0]) || t[0] == '-') && NumberRead(host, t[0], t[1..] + ",") == Got(Double(d), ",")
  }

  lemma DoubleReadsBack(host: Host, d: real, rest: string)
    requires DoubleOk(host, d) && EndsNumber(rest)
    ensures var t := host.doubleText(d) + rest;
            host.doubleText(d) != "" && (Digit(t[0]) || t[0] == '-') && NumberRead(host, t[0], t[1..]) == Got(Double(d), rest)
    ensures var t := host.doubleText(d); NumberRead(host, t[0], t[1..]).Malformed?
  {
    var t := host.doubleText(d);
    assert (t + rest)[0] == t[0] && (t + rest)[1..] == t[1..] + rest;
    AnyEnd(host, [t[0]], t[0] != '.', true, t[0], t[1..], ",", rest);
  }

  // ---- true, false, null

  /** The rest of a word in either case, with a character behind it that no word goes on with. */
  function WordRead(lower: string, upper: string, s: string): (r: Read<()>)
    requires |lower| == |upper|
    ensures r.Got? ==> |r.rest| <= |s|
  {
    var n := |lower|;
    if |s| > n && (forall i :: 0 <= i < n ==> s[i] == lower[i] || s[i] == upper[i]) && !AlphaNum(s[n])
    then Got((), s[n..])
    else Malformed
  }

  /** What may follow a word. */
  predicate EndsWord(rest: string) {
    rest != "" && !AlphaNum(rest[0])
  }

  lemma WordReadsBack(lower: string, upper: string, rest: string)
    requires |lower| == |upper| && EndsWord(rest)
    ensures WordRead(lower, upper, lower + rest) == Got((), rest)
  {
    assert (lower + rest)[|lower|..] == rest;
  }

  /** A scalar that its first character has announced. */
  function ScalarRead(host: Host, c: char, s: string): (r: Read<Json>)
    ensures r.Got? ==> |r.rest| <= |s|
  {
    if c == '\"' then
      var r := StringRead(s);
      if r.Got? then Got(Str(r.value), r.rest) else if r.Trap? then Trap else Malformed
    else if Digit(c) || Sign(c) then NumberRead(host, c, s)
    else if c == 't' || c == 'T' then
      var r := WordRead("rue", "RUE", s);
      if r.Got? then Got(Bool(true), r.rest) else Malformed
    else if c == 'f' || c == 'F' then
      var r := WordRead("alse", "ALSE", s);
      if r.Got? then Got(Bool(false), r.rest) else Malformed
    else if c == 'n' || c == 'N' then
      var r := WordRead("ull", "ULL", s);
      if r.Got? then Got(Null, r.rest) else Malformed
    else Malformed
  }

  /** The characters that begin a scalar. */
  predicate BeginsScalar(c: char) {
    c == '\"' || Digit(c) || Sign(c) || c in "tTfFnN"
  }

  // ---- the encoding

  function Encoded(host: Host, v: Json): string
    decreases v
  {
    match v
    case Null => "null"
    case Bool(b) => if b then "true" else "false"
    case Int(i) => IntText(i)
    case Double(d) => host.doubleText(d)
    case Str(s) => Quoted(s)
    case Arr(items) => "[" + ItemsText(host, items) + "]"
    case Obj(entries) => "{" + EntriesText(host, entries) + "}"
    case Custom(_, entries) => "{" + EntriesText(host, entries) + "}"
  }

  function ItemsText(host: Host, items: seq<Json>): string
    decreases items
  {
    if items == [] then "" else Encoded(host, items[0]) + (if |items| == 1 then "" else "," + ItemsText(host, items[1..]))
  }

  function EntriesText(host: Host, entries: seq<Entry>): string
    decreases entries
  {
    if entries == [] then ""
    else Quoted(entries[0].key) + ":" + Encoded(host, entries[0].value)
         + (if |entries| == 1 then "" else "," + EntriesText(host, entries[1..]))
  }

  /** A value that a dictionary or array of the program may hold: no key twice, floating-point numbers only if they read back. */
  predicate Sendable(host: Host, v: Json)
    decreases v
  {
    match v
    case Double(d) => DoubleOk(host, d)
    case Arr(items) => forall x :: x in items ==> Sendable(host, x)
    case Obj(entries) => Distinct(entries) && forall e :: e in entries ==> Sendable(host, e.value)
    case Custom(_, entries) => Distinct(entries) && forall e :: e in entries ==> Sendable(host, e.value)
    case _ => true
  }

  predicate Distinct(entries: seq<Entry>) {
    forall i, j :: 0 <= i < j < |entries| ==> entries[i].key != entries[j].key
  }
}
