// The scalars of JSON as anyone may write them: every spelling of a string, a number or a
// word, given by its characters, is read as what it spells.
module JsonSpelling {
  import opened Wrappers
  import opened JsonText

  // ---- strings

  /** A hexadecimal digit, in either case. */
  datatype Nibble = Nibble(n: nat, upper: bool) {
    predicate Ok() { n < 16 }

    function Char(): char
      requires Ok()
    {
      if upper then "0123456789ABCDEF"[n] else "0123456789abcdef"[n]
    }
  }

  /** A character written as itself, behind a backslash, or by its number. */
  datatype Piece = Plain(c: char) | Escape(c: char) | Numbered(a: Nibble, b: Nibble, x: Nibble, y: Nibble) {
    /** What may stand between quotes. A surrogate is no scalar. */
    predicate Ok() {
      match this
      case Plain(c) => c != '\\' && c != '\"'
      case Escape(c) => c != 'u'
      case Numbered(a, b, x, y) => a.Ok() && b.Ok() && x.Ok() && y.Ok() && !(0xD800 <= Number() < 0xE000)
    }

    function Number(): nat
      requires Numbered?
    {
      ((a.n * 16 + b.n) * 16 + x.n) * 16 + y.n
    }

    function Text(): string
      requires Ok()
    {
      match this
      case Plain(c) => [c]
      case Escape(c) => ['\\', c]
      case Numbered(a, b, x, y) => ['\\', 'u', a.Char(), b.Char(), x.Char(), y.Char()]
    }

    function Means(): char
      requires Ok()
    {
      match this
      case Plain(c) => c
      case Escape('b') => 8 as char
      case Escape('t') => 9 as char
      case Escape('n') => 10 as char
      case Escape('f') => 12 as char
      case Escape('r') => 13 as char
      case Escape(c) => c
      case Numbered(_, _, _, _) => SmallNumber(); Number() as char
    }

    lemma SmallNumber()
      requires Ok() && Numbered?
      ensures Number() < 0x1_0000
    {
    }
  }

  predicate Spells(ps: seq<Piece>) { forall p :: p in ps ==> p.Ok() }

  function TextOf(ps: seq<Piece>): string
    requires Spells(ps)
  {
    if ps == [] then ""
    else
      assert ps[0] in ps;
      ps[0].Text() + TextOf(ps[1..])
  }

  function MeaningOf(ps: seq<Piece>): string
    requires Spells(ps)
  {
    if ps == [] then ""
    else
      assert ps[0] in ps;
      [ps[0].Means()] + MeaningOf(ps[1..])
  }

  lemma NibbleRead(n: Nibble)
    requires n.Ok()
    ensures HexDigit(n.Char()) && HexValue(n.Char()) == n.n
  {
  }

  lemma NumberedRead(p: Piece, more: string)
    requires p.Ok() && p.Numbered?
    ensures HexRead([p.a.Char(), p.b.Char(), p.x.Char(), p.y.Char()] + more) == Got(p.Means(), more)
  {
    hide HexDigit, HexValue;
    NibbleRead(p.a);
    NibbleRead(p.b);
    NibbleRead(p.x);
    NibbleRead(p.y);
    var s := [p.a.Char(), p.b.Char(), p.x.Char(), p.y.Char()] + more;
    assert s[4..] == more;
  }

  lemma PieceRead(p: Piece, more: string)
    requires p.Ok()
    ensures StringRead(p.Text() + more) == Before(p.Means(), StringRead(more))
  {
    hide HexRead;
    var s := p.Text() + more;
    if p.Numbered? {
      NumberedRead(p, more);
      assert s[2..] == [p.a.Char(), p.b.Char(), p.x.Char(), p.y.Char()] + more;
    } else if p.Escape? {
      assert s[2..] == more;
    } else {
      assert s[1..] == more;
    }
  }

  /** The number of a surrogate traps. */
  lemma SurrogateTraps(a: Nibble, b: Nibble, x: Nibble, y: Nibble, more: string)
    requires a.Ok() && b.Ok() && x.Ok() && y.Ok() && 0xD800 <= Numbered(a, b, x, y).Number() < 0xE000
    ensures StringRead(['\\', 'u', a.Char(), b.Char(), x.Char(), y.Char()] + more) == Trap
  {
    hide HexDigit, HexValue;
    NibbleRead(a);
    NibbleRead(b);
    NibbleRead(x);
    NibbleRead(y);
    var s := ['\\', 'u', a.Char(), b.Char(), x.Char(), y.Char()] + more;
    assert s[2..] == [a.Char(), b.Char(), x.Char(), y.Char()] + more;
  }

  /** Whatever the text between the quotes spells is what is read. */
  lemma {:induction false} SpelledIsRead(ps: seq<Piece>, rest: string)
    requires Spells(ps)
    ensures StringRead(TextOf(ps) + "\"" + rest) == Got(MeaningOf(ps), rest)
  {
    hide HexRead;
    var s := TextOf(ps) + "\"" + rest;
    if ps == [] {
      assert s == "\"" + rest && s[1..] == rest;
    } else {
      assert ps[0] in ps;
      var more := TextOf(ps[1..]) + "\"" + rest;
      assert s == ps[0].Text() + more;
      PieceRead(ps[0], more);
      SpelledIsRead(ps[1..], rest);
    }
  }

  lemma NibbleOf(c: char) returns (n: Nibble)
    requires HexDigit(c)
    ensures n.Ok() && n.Char() == c
  {
    n := Nibble(HexValue(c), 'A' <= c <= 'F');
  }

  lemma NumberedOf(s: string) returns (p: Piece)
    requires HexRead(s).Got?
    ensures p.Numbered? && p.Ok() && s == [p.a.Char(), p.b.Char(), p.x.Char(), p.y.Char()] + HexRead(s).rest && HexRead(s).value == p.Means()
  {
    hide HexDigit, HexValue;
    var a := NibbleOf(s[0]);
    var b := NibbleOf(s[1]);
    var x := NibbleOf(s[2]);
    var y := NibbleOf(s[3]);
    NibbleRead(a);
    NibbleRead(b);
    NibbleRead(x);
    NibbleRead(y);
    p := Numbered(a, b, x, y);
    assert s == [s[0], s[1], s[2], s[3]] + s[4..];
  }

  /** The first piece of a text that is read. */
  lemma FirstPiece(s: string) returns (p: Piece, more: string)
    requires StringRead(s).Got? && s[0] != '\"'
    ensures p.Ok() && s == p.Text() + more && |more| < |s|
  {
    hide HexRead;
    if s[0] == '\\' && s[1] == 'u' {
      p := NumberedOf(s[2..]);
      more := HexRead(s[2..]).rest;
      assert s == ['\\', 'u'] + s[2..];
    } else if s[0] == '\\' {
      p, more := Escape(s[1]), s[2..];
      assert s == ['\\', s[1]] + more;
    } else {
      p, more := Plain(s[0]), s[1..];
    }
  }

  lemma TextCons(p: Piece, qs: seq<Piece>, rest: string)
    requires p.Ok() && Spells(qs)
    ensures Spells([p] + qs) && MeaningOf([p] + qs) == [p.Means()] + MeaningOf(qs)
    ensures TextOf([p] + qs) + "\"" + rest == p.Text() + (TextOf(qs) + "\"" + rest)
  {
    assert ([p] + qs)[1..] == qs;
  }

  /** And whatever is read was spelled by the text up to the quote. */
  lemma {:induction false} ReadWasSpelled(s: string) returns (ps: seq<Piece>)
    requires StringRead(s).Got?
    ensures Spells(ps) && s == TextOf(ps) + "\"" + StringRead(s).rest && StringRead(s).value == MeaningOf(ps)
    decreases |s|
  {
    if s[0] == '\"' {
      ps := [];
      assert s == TextOf(ps) + "\"" + s[1..];
    } else {
      hide StringRead, TextOf, MeaningOf, Spells;
      var p, more := FirstPiece(s);
      PieceRead(p, more);
      var qs := ReadWasSpelled(more);
      ps := [p] + qs;
      TextCons(p, qs, StringRead(more).rest);
    }
  }

  /** Characters the encoder escapes: the quote, the backslash, and five that have no shape. */
  predicate Escapes(c: char) { c as int in {8, 9, 10, 12, 13, 34, 92} }

  /** How the encoder spells a string. */
  predicate Minimal(ps: seq<Piece>, s: string) {
    |ps| == |s| && forall i :: 0 <= i < |s| ==> if Escapes(s[i]) then ps[i].Escape? else ps[i] == Plain(s[i])
  }

  /** The encoder spells each character by itself, those behind a backslash. */
  lemma {:induction false} EncoderSpells(s: string) returns (ps: seq<Piece>)
    ensures Spells(ps) && Minimal(ps, s) && TextOf(ps) == Escaped(s) && MeaningOf(ps) == s
  {
    hide Spells, Minimal, EscapedChar, Escapes;
    if s == "" {
      ps := [];
      NothingSpelled();
    } else {
      var qs := EncoderSpells(s[1..]);
      var p := PieceFor(s[0]);
      ps := [p] + qs;
      TextCons(p, qs, "");
      MinimalCons(p, qs, s);
      assert ps[1..] == qs && s == [s[0]] + s[1..];
    }
  }

  lemma NothingSpelled()
    ensures Spells([]) && Minimal([], "") && TextOf([]) == "" && MeaningOf([]) == ""
  {
  }

  lemma MinimalCons(p: Piece, qs: seq<Piece>, s: string)
    requires s != "" && Minimal(qs, s[1..]) && if Escapes(s[0]) then p.Escape? else p == Plain(s[0])
    ensures Minimal([p] + qs, s)
  {
    hide Escapes;
    forall i | 0 < i < |s|
      ensures if Escapes(s[i]) then ([p] + qs)[i].Escape? else ([p] + qs)[i] == Plain(s[i])
    {
      assert s[i] == s[1..][i - 1];
    }
  }

  lemma PieceFor(c: char) returns (p: Piece)
    ensures p.Ok() && p.Text() == EscapedChar(c) && p.Means() == c && if Escapes(c) then p.Escape? else p == Plain(c)
  {
    p := if |EscapedChar(c)| == 2 then Escape(EscapedChar(c)[1]) else Plain(c);
  }

  // ---- numbers

  /** Digits by their worth. */
  predicate AreDigits(ds: seq<nat>) { forall i :: 0 <= i < |ds| ==> ds[i] < 10 }

  function DigitsText(ds: seq<nat>): (s: string)
    requires AreDigits(ds)
    ensures |s| == |ds|
  {
    seq(|ds|, i requires 0 <= i < |ds| => "0123456789"[ds[i]])
  }

  function Worth(ds: seq<nat>): nat {
    if ds == [] then 0 else Worth(ds[..|ds| - 1]) * 10 + ds[|ds| - 1]
  }

  lemma DigitsAre(ds: seq<nat>)
    requires AreDigits(ds)
    ensures Digits(DigitsText(ds))
    ensures forall i :: 0 <= i < |ds| ==> DigitsText(ds)[i] as int == 48 + ds[i]
  {
  }

  lemma {:induction false} WorthIs(ds: seq<nat>)
    requires AreDigits(ds)
    ensures Digits(DigitsText(ds)) && NatOf(DigitsText(ds)) == Worth(ds)
  {
    DigitsAre(ds);
    if ds != [] {
      var n, s := |ds| - 1, DigitsText(ds);
      WorthIs(ds[..n]);
      assert s[..n] == DigitsText(ds[..n]);
    }
  }

  /** Whole numbers: a sign or none, and digits. */
  datatype Whole = Whole(sign: string, digits: seq<nat>) {
    predicate Shaped() { AreDigits(digits) && digits != [] && sign in {"", "+", "-"} }

    predicate Ok() { Shaped() && INT_MIN <= Value() <= INT_MAX }

    function Value(): int { if sign == "-" then -(Worth(digits) as int) else Worth(digits) }

    function Text(): string
      requires Shaped()
    {
      sign + DigitsText(digits)
    }
  }

  /** No digit, no period and no exponent goes on with a number. */
  predicate NumberEnds(rest: string) {
    rest != "" && rest[0] !in "0123456789" && rest[0] !in ".eE"
  }

  lemma NumberEndsIs(rest: string)
    ensures NumberEnds(rest) <==> EndsNumber(rest)
  {
    if rest != "" {
      var c, ds := rest[0], "0123456789";
      if Digit(c) {
        assert ds[c as int - '0' as int] == c;
      }
      assert forall i :: 0 <= i < 10 ==> Digit(ds[i]);
      assert c in ".eE" <==> c == '.' || c == 'e' || c == 'E' by {
        var es := ".eE";
        assert es[0] == '.' && es[1] == 'e' && es[2] == 'E';
      }
    }
  }

  lemma WholeIs(w: Whole)
    requires w.Shaped()
    ensures w.Text() != "" && IntOf(w.Text()) == if w.Ok() then Some(w.Value()) else None
  {
    hide DigitsText, NatOf;
    var s, ds := w.Text(), DigitsText(w.digits);
    DigitsAre(w.digits);
    WorthIs(w.digits);
    NoSign(ds);
    if w.sign == "" {
      assert s == ds;
    } else {
      assert s[0] == w.sign[0] && s[1..] == ds;
    }
    IntIs(s, w.sign, ds);
  }

  lemma NoSign(ds: string)
    requires Digits(ds) && ds != ""
    ensures ds[0] != '-' && ds[0] != '+'
  {
  }

  lemma IntIs(s: string, sign: string, ds: string)
    requires sign in {"", "+", "-"} && Digits(ds) && ds != "" && ds[0] != '-' && ds[0] != '+' && s == sign + ds
    ensures var n := if sign == "-" then -(NatOf(ds) as int) else NatOf(ds);
            IntOf(s) == if INT_MIN <= n <= INT_MAX then Some(n) else None
  {
    hide Digits, NatOf;
    if sign == "" { assert s == ds; } else { assert s[0] == sign[0] && s[1..] == ds; }
  }

  /** Numbers with a fraction, an exponent, or both. */
  datatype Fraction = Fraction(sign: string, digits: seq<nat>, fraction: seq<nat>, exponent: Option<(string, seq<nat>)>) {
    predicate Ok() {
      && sign in {"", "+", "-"} && AreDigits(digits) && digits != [] && AreDigits(fraction)
      && (exponent.Some? ==> (exponent.value.0 in {"e", "E", "e+", "E+", "e-", "E-"}) && AreDigits(exponent.value.1) && exponent.value.1 != [])
      && (fraction != [] || exponent.Some?)
    }

    function Text(): string
      requires Ok()
    {
      sign + DigitsText(digits) + (if fraction == [] then "" else "." + DigitsText(fraction)) + ExponentText()
    }

    function ExponentText(): string
      requires Ok()
    {
      if exponent.None? then "" else exponent.value.0 + DigitsText(exponent.value.1)
    }
  }

  lemma {:induction false} DigitsPassed(host: Host, text: string, needPeriod: bool, needExp: bool, last: char, digits: string, rest: string)
    requires Digits(digits) && digits != ""
    ensures NumberFrom(host, text, needPeriod, needExp, last, digits + rest) ==
            NumberFrom(host, text + digits, needPeriod, needExp, digits[|digits| - 1], rest)
    decreases |digits|
  {
    var s := digits + rest;
    assert s[1..] == digits[1..] + rest && text + [digits[0]] + digits[1..] == text + digits;
    if |digits| == 1 {
      assert s[1..] == rest && text + [digits[0]] == text + digits;
    } else {
      DigitsPassed(host, text + [digits[0]], needPeriod, needExp, digits[0], digits[1..], rest);
    }
  }

  lemma NumberStops(host: Host, text: string, needPeriod: bool, needExp: bool, last: char, rest: string)
    requires EndsNumber(rest) && Digit(last)
    ensures NumberFrom(host, text, needPeriod, needExp, last, rest) == NumberOf(host, text, needPeriod && needExp, rest)
  {
  }

  lemma ExponentPassed(host: Host, text: string, needPeriod: bool, last: char, mark: string, ds: string, rest: string)
    requires mark in {"e", "E", "e+", "E+", "e-", "E-"} && Digits(ds) && ds != "" && EndsNumber(rest)
    ensures NumberFrom(host, text, needPeriod, true, last, mark + ds + rest) == NumberOf(host, text + mark + ds, false, rest)
  {
    hide NumberOf, NumberFrom;
    var s, more := mark + ds + rest, ds + rest;
    assert s == mark + more;
    MarkPassed(host, text, needPeriod, last, mark, more);
    DigitsPassed(host, text + mark, needPeriod, false, mark[0], ds, rest);
    NumberStops(host, text + mark + ds, needPeriod, false, ds[|ds| - 1], rest);
  }

  lemma MarkPassed(host: Host, text: string, needPeriod: bool, last: char, mark: string, more: string)
    requires mark in {"e", "E", "e+", "E+", "e-", "E-"} && more != "" && !Sign(more[0])
    ensures NumberFrom(host, text, needPeriod, true, last, mark + more) == NumberFrom(host, text + mark, needPeriod, false, mark[0], more)
  {
    var s := mark + more;
    if |mark| == 2 {
      assert s[2..] == more && text + [s[0], s[1]] == text + mark;
    } else {
      assert s[1..] == more && s[1] == more[0] && text + [s[0]] == text + mark;
    }
  }

  lemma PeriodPassed(host: Host, text: string, last: char, ds: string, more: string)
    requires Digits(ds) && ds != ""
    ensures NumberFrom(host, text, true, true, last, "." + ds + more) ==
            NumberFrom(host, text + "." + ds, false, true, ds[|ds| - 1], more)
  {
    var s := "." + ds + more;
    assert s[0] == '.' && s[1..] == ds + more;
    DigitsPassed(host, text + ".", false, true, '.', ds, more);
  }

  /** A fraction is whatever the runtime makes of exactly its text. */
  lemma FractionIsRead(host: Host, q: Fraction, rest: string)
    requires q.Ok() && NumberEnds(rest)
    ensures var t := q.Text() + rest;
            && t != "" && BeginsScalar(t[0])
            && ScalarRead(host, t[0], t[1..]) ==
               var d := host.toDouble(q.Text()); if d.Some? then Got(Double(d.value), rest) else Trap
  {
    hide NumberFrom, EndsNumber, NumberEnds, Digits, DigitsText;
    NumberEndsIs(rest);
    DigitsAre(q.digits);
    DigitsAre(q.fraction);
    var whole := q.sign + DigitsText(q.digits);
    var period := if q.fraction == [] then "" else "." + DigitsText(q.fraction);
    var tail := period + q.ExponentText() + rest;
    var t := q.Text() + rest;
    assert t == whole + tail && t[0] == whole[0] && t[1..] == whole[1..] + tail;
    FirstPassed(host, q.sign, DigitsText(q.digits), tail);
    var last := whole[|whole| - 1];
    TailRead(host, q, whole, last, rest);
  }

  lemma FirstPassed(host: Host, sign: string, ds: string, tail: string)
    requires sign in {"", "+", "-"} && Digits(ds) && ds != ""
    ensures var whole := sign + ds; BeginsScalar(whole[0]) && Digit(whole[|whole| - 1])
    ensures var whole := sign + ds;
            ScalarRead(host, whole[0], whole[1..] + tail) == NumberFrom(host, whole, true, true, whole[|whole| - 1], tail)
  {
    hide NumberFrom;
    var whole := sign + ds;
    assert [whole[0]] + whole[1..] == whole;
    if |whole| > 1 {
      assert Digits(whole[1..]) by {
        assert forall i :: 1 <= i < |whole| ==> whole[i] == ds[i - |sign|];
      }
      DigitsPassed(host, [whole[0]], true, true, whole[0], whole[1..], tail);
      assert whole[1..][|whole| - 2] == whole[|whole| - 1];
    } else {
      assert whole[1..] + tail == tail && [whole[0]] == whole;
    }
  }

  /** A whole number is read for what its digits are worth; one that no Int holds traps. */
  lemma WholeIsRead(host: Host, w: Whole, rest: string)
    requires w.Shaped() && NumberEnds(rest)
    ensures var t := w.Text() + rest;
            && t != "" && BeginsScalar(t[0])
            && ScalarRead(host, t[0], t[1..]) == if w.Ok() then Got(Int(w.Value()), rest) else Trap
  {
    hide IntOf, NumberFrom, EndsNumber, NumberEnds, Digit, Digits, DigitsText, ScalarRead, BeginsScalar;
    NumberEndsIs(rest);
    DigitsAre(w.digits);
    WholeIs(w);
    var s := w.Text();
    FirstPassed(host, w.sign, DigitsText(w.digits), rest);
    NumberStops(host, s, true, true, s[|s| - 1], rest);
    assert (s + rest)[0] == s[0] && (s + rest)[1..] == s[1..] + rest;
  }

  lemma TailRead(host: Host, q: Fraction, whole: string, last: char, rest: string)
    requires q.Ok() && EndsNumber(rest) && Digit(last) && whole == q.sign + DigitsText(q.digits)
    ensures var tail := (if q.fraction == [] then "" else "." + DigitsText(q.fraction)) + q.ExponentText() + rest;
            NumberFrom(host, whole, true, true, last, tail) == NumberOf(host, q.Text(), false, rest)
  {
    hide NumberFrom, NumberOf, EndsNumber, Digit;
    DigitsAre(q.fraction);
    var ex := q.ExponentText();
    var f := DigitsText(q.fraction);
    if q.fraction == [] {
      var m, ds := q.exponent.value.0, DigitsText(q.exponent.value.1);
      DigitsAre(q.exponent.value.1);
      assert "" + ex + rest == m + ds + rest && q.Text() == whole + m + ds;
      ExponentPassed(host, whole, true, last, m, ds, rest);
    } else {
      assert "." + f + ex + rest == "." + f + (ex + rest);
      PeriodPassed(host, whole, last, f, ex + rest);
      if q.exponent.Some? {
        var m, ds := q.exponent.value.0, DigitsText(q.exponent.value.1);
        DigitsAre(q.exponent.value.1);
        assert ex + rest == m + ds + rest && q.Text() == whole + "." + f + m + ds;
        ExponentPassed(host, whole + "." + f, false, f[|f| - 1], m, ds, rest);
      } else {
        assert ex + rest == rest && q.Text() == whole + "." + f;
        LastDigit(f);
        NumberStops(host, whole + "." + f, false, true, f[|f| - 1], rest);
      }
    }
  }

  lemma LastDigit(f: string)
    requires Digits(f) && f != ""
    ensures Digit(f[|f| - 1])
  {
  }

  // ---- words

  /** A word, each letter in either case. */
  predicate Word(text: string, lower: string, upper: string)
    requires |lower| == |upper|
  {
    |text| == |lower| && forall i :: 0 <= i < |text| ==> text[i] == lower[i] || text[i] == upper[i]
  }

  /** No letter and no digit goes on with a word. */
  predicate WordEnds(rest: string) {
    rest != "" && !('0' <= rest[0] <= '9' || 'a' <= rest[0] <= 'z' || 'A' <= rest[0] <= 'Z')
  }

  lemma WordIsRead(host: Host, text: string, rest: string)
    requires WordEnds(rest)
    ensures Word(text, "true", "TRUE") ==> ScalarRead(host, text[0], text[1..] + rest) == Got(Bool(true), rest)
    ensures Word(text, "false", "FALSE") ==> ScalarRead(host, text[0], text[1..] + rest) == Got(Bool(false), rest)
    ensures Word(text, "null", "NULL") ==> ScalarRead(host, text[0], text[1..] + rest) == Got(Null, rest)
    ensures Word(text, "true", "TRUE") || Word(text, "false", "FALSE") || Word(text, "null", "NULL") ==> BeginsScalar(text[0])
  {
    hide WordRead;
    if Word(text, "true", "TRUE") {
      WordMiddle(text, "true", "TRUE", "rue", "RUE", rest);
    }
    if Word(text, "false", "FALSE") {
      WordMiddle(text, "false", "FALSE", "alse", "ALSE", rest);
    }
    if Word(text, "null", "NULL") {
      WordMiddle(text, "null", "NULL", "ull", "ULL", rest);
    }
  }

  lemma WordMiddle(text: string, lower: string, upper: string, l: string, u: string, rest: string)
    requires |lower| == |upper| > 1 && lower[1..] == l && upper[1..] == u && Word(text, lower, upper) && WordEnds(rest)
    ensures WordRead(l, u, text[1..] + rest) == Got((), rest)
    ensures text[0] == lower[0] || text[0] == upper[0]
  {
    var s, n := text[1..] + rest, |l|;
    assert s[n..] == rest && s[n] == rest[0];
    forall i | 0 <= i < n
      ensures s[i] == l[i] || s[i] == u[i]
    {
      assert s[i] == text[i + 1] && l[i] == lower[i + 1] && u[i] == upper[i + 1];
    }
  }
}
