// JSON texts as anyone may write them: any spelling of the scalars and any white space between
// the tokens. Both decoders give what the text means.
module JsonGrammar {
  import opened Wrappers
  import opened JsonText
  import opened JsonReading
  import opened JsonMachine
  import opened JsonSpelling

  /** White space: blank, tab, line feed, return. */
  predicate Gap(s: string) { forall i :: 0 <= i < |s| ==> s[i] as int in {32, 9, 10, 13} }

  datatype Syntax =
    | AWord(text: string)
    | AWhole(whole: Whole)
    | AFraction(fraction: Fraction)
    | AString(pieces: seq<Piece>)
    | AnArray(gap: string, items: seq<Item>)
    | AnObject(gap: string, members: seq<Member>)

  /** An element with the white space on both its sides. */
  datatype Item = Item(before: string, value: Syntax, after: string)

  /** A key with what is around it, and its value. */
  datatype Member = Member(before: string, key: seq<Piece>, after: string, value: Item)

  predicate IsTrue(text: string) { Word(text, "true", "TRUE") }
  predicate IsFalse(text: string) { Word(text, "false", "FALSE") }
  predicate IsNull(text: string) { Word(text, "null", "NULL") }

  predicate IsText(host: Host, t: Syntax)
    decreases t
  {
    match t
    case AWord(text) => IsTrue(text) || IsFalse(text) || IsNull(text)
    case AWhole(w) => w.Ok()
    case AFraction(q) => q.Ok() && host.toDouble(q.Text()).Some?
    case AString(ps) => Spells(ps)
    case AnArray(gap, items) => Gap(gap) && forall i :: i in items ==> Gap(i.before) && IsText(host, i.value) && Gap(i.after)
    case AnObject(gap, members) =>
      Gap(gap) && forall m :: m in members ==>
        Gap(m.before) && Spells(m.key) && Gap(m.after) && Gap(m.value.before) && IsText(host, m.value.value) && Gap(m.value.after)
  }

  function InQuotes(ps: seq<Piece>): string
    requires Spells(ps)
  {
    "\"" + TextOf(ps) + "\""
  }

  function Text(host: Host, t: Syntax): string
    requires IsText(host, t)
    decreases t
  {
    match t
    case AWord(text) => text
    case AWhole(w) => w.Text()
    case AFraction(q) => q.Text()
    case AString(ps) => InQuotes(ps)
    case AnArray(gap, items) => "[" + (if items == [] then gap + "]" else Items(host, items))
    case AnObject(gap, members) => "{" + (if members == [] then gap + "}" else Members(host, members))
  }

  /** The elements with commas between them, and the closing bracket. */
  function Items(host: Host, items: seq<Item>): string
    requires items != [] && forall i :: i in items ==> Gap(i.before) && IsText(host, i.value) && Gap(i.after)
    decreases items
  {
    var i := items[0];
    i.before + (Text(host, i.value) + (i.after + (if |items| == 1 then "]" else "," + Items(host, items[1..]))))
  }

  function Members(host: Host, members: seq<Member>): string
    requires members != []
    requires forall m :: m in members ==>
               Gap(m.before) && Spells(m.key) && Gap(m.after) && Gap(m.value.before) && IsText(host, m.value.value) && Gap(m.value.after)
    decreases members
  {
    var m := members[0];
    m.before + (InQuotes(m.key) + (m.after + (":" + (m.value.before + (Text(host, m.value.value) + (m.value.after +
      (if |members| == 1 then "}" else "," + Members(host, members[1..]))))))))
  }

  function Meaning(host: Host, t: Syntax): Json
    requires IsText(host, t)
    decreases t
  {
    match t
    case AWord(text) => if IsTrue(text) then Bool(true) else if IsFalse(text) then Bool(false) else Null
    case AWhole(w) => Int(w.Value())
    case AFraction(q) => Double(host.toDouble(q.Text()).value)
    case AString(ps) => Str(MeaningOf(ps))
    case AnArray(_, items) => Arr(Values(host, items))
    case AnObject(_, members) => Made(host, Dictionary(host, [], members))
  }

  function Values(host: Host, items: seq<Item>): (vs: seq<Json>)
    requires forall i :: i in items ==> Gap(i.before) && IsText(host, i.value) && Gap(i.after)
    ensures |vs| == |items|
    decreases items
  {
    if items == [] then []
    else
      assert items[0] in items;
      [Meaning(host, items[0].value)] + Values(host, items[1..])
  }

  /** The members assigned one after the other. */
  function Dictionary(host: Host, done: seq<Entry>, members: seq<Member>): seq<Entry>
    requires forall m :: m in members ==>
               Gap(m.before) && Spells(m.key) && Gap(m.after) && Gap(m.value.before) && IsText(host, m.value.value) && Gap(m.value.after)
    decreases members
  {
    if members == [] then done
    else
      assert members[0] in members;
      Dictionary(host, Assign(done, MeaningOf(members[0].key), Meaning(host, members[0].value.value)), members[1..])
  }

  // ---- a dictionary holds the last value of each key

  /** The last of these pairs with its key. */
  predicate Counts(e: Entry, pairs: seq<Entry>) {
    exists i :: 0 <= i < |pairs| && pairs[i] == e && forall j :: i < j < |pairs| ==> pairs[j].key != e.key
  }

  /** Each key once, with its value among these pairs that is last. */
  predicate Holds(d: seq<Entry>, pairs: seq<Entry>) {
    && Distinct(d)
    && (forall e :: e in d ==> Counts(e, pairs))
    && (forall i :: 0 <= i < |pairs| ==> exists e :: e in d && e.key == pairs[i].key)
  }

  lemma {:induction false} AssignMeans(d: seq<Entry>, key: string, v: Json)
    requires Distinct(d)
    ensures var r := Assign(d, key, v);
            && Distinct(r) && Entry(key, v) in r
            && (forall e :: e in r <==> e == Entry(key, v) || (e in d && e.key != key))
  {
    if d != [] {
      var rest := d[1..];
      assert forall i :: 0 <= i < |rest| ==> rest[i] == d[i + 1];
      assert forall e :: e in d <==> e == d[0] || e in rest;
      forall e | e in rest ensures e.key != d[0].key {
        var i :| 0 <= i < |rest| && rest[i] == e;
        assert d[i + 1] == e;
      }
      if d[0].key != key {
        AssignMeans(rest, key, v);
        DistinctCons(d[0], Assign(rest, key, v));
      } else {
        DistinctCons(Entry(key, v), rest);
      }
    }
  }

  lemma DistinctCons(e: Entry, d: seq<Entry>)
    requires Distinct(d) && forall x :: x in d ==> x.key != e.key
    ensures Distinct([e] + d)
  {
  }

  lemma CountsSnoc(e: Entry, pairs: seq<Entry>, last: Entry)
    ensures Counts(last, pairs + [last])
    ensures Counts(e, pairs) && e.key != last.key ==> Counts(e, pairs + [last])
  {
    var all := pairs + [last];
    assert all[|pairs|] == last;
    if Counts(e, pairs) && e.key != last.key {
      var i :| 0 <= i < |pairs| && pairs[i] == e && forall j :: i < j < |pairs| ==> pairs[j].key != e.key;
      assert all[i] == e;
    }
  }

  lemma HoldsSnoc(d: seq<Entry>, pairs: seq<Entry>, key: string, v: Json)
    requires Holds(d, pairs)
    ensures Holds(Assign(d, key, v), pairs + [Entry(key, v)])
  {
    hide Distinct, Assign, Counts;
    AssignMeans(d, key, v);
    var r, all := Assign(d, key, v), pairs + [Entry(key, v)];
    forall e | e in r
      ensures Counts(e, all)
    {
      CountsSnoc(e, pairs, Entry(key, v));
    }
    forall i | 0 <= i < |all|
      ensures exists e :: e in r && e.key == all[i].key
    {
      if i < |pairs| && all[i].key != key {
        var e :| e in d && e.key == pairs[i].key;
        assert e in r;
      } else {
        assert Entry(key, v) in r;
      }
    }
  }

  function Pairs(host: Host, members: seq<Member>): (ps: seq<Entry>)
    requires forall m :: m in members ==>
               Gap(m.before) && Spells(m.key) && Gap(m.after) && Gap(m.value.before) && IsText(host, m.value.value) && Gap(m.value.after)
    ensures |ps| == |members|
    decreases members
  {
    if members == [] then []
    else
      assert members[0] in members;
      [Entry(MeaningOf(members[0].key), Meaning(host, members[0].value.value))] + Pairs(host, members[1..])
  }

  /** Of a key that is given more than once, the last value counts. */
  lemma {:induction false} LastCounts(host: Host, done: seq<Entry>, pairs: seq<Entry>, members: seq<Member>)
    requires forall m :: m in members ==>
               Gap(m.before) && Spells(m.key) && Gap(m.after) && Gap(m.value.before) && IsText(host, m.value.value) && Gap(m.value.after)
    requires Holds(done, pairs)
    ensures Holds(Dictionary(host, done, members), pairs + Pairs(host, members))
    decreases members
  {
    hide Holds, IsText, Meaning, Assign, Spells, Gap, MeaningOf;
    if members == [] {
      assert pairs + [] == pairs;
    } else {
      assert members[0] in members;
      var key, v := MeaningOf(members[0].key), Meaning(host, members[0].value.value);
      HoldsSnoc(done, pairs, key, v);
      LastCounts(host, Assign(done, key, v), pairs + [Entry(key, v)], members[1..]);
      assert pairs + [Entry(key, v)] + Pairs(host, members[1..]) == pairs + Pairs(host, members);
    }
  }

  /** An object's text means an object whose dictionary holds the last value of each key. */
  lemma ObjectMeans(host: Host, t: Syntax)
    requires IsText(host, t) && t.AnObject?
    ensures Holds(Dictionary(host, [], t.members), Pairs(host, t.members))
    ensures Meaning(host, t) == Made(host, Dictionary(host, [], t.members))
  {
    hide Holds, Gap, Spells, Assign, Made;
    NothingHeld();
    LastCounts(host, [], [], t.members);
    assert [] + Pairs(host, t.members) == Pairs(host, t.members);
  }

  lemma NothingHeld()
    ensures Holds([], [])
  {
  }

  lemma {:induction false} LookupExactly(d: seq<Entry>, key: string, v: Json)
    requires Distinct(d)
    ensures Lookup(d, key) == Some(v) <==> Entry(key, v) in d
    ensures Lookup(d, key) == None <==> forall e :: e in d ==> e.key != key
  {
    if d != [] {
      var rest := d[1..];
      assert forall i :: 0 <= i < |rest| ==> rest[i] == d[i + 1];
      assert forall e :: e in d <==> e == d[0] || e in rest;
      forall e | e in rest ensures e.key != d[0].key {
        var i :| 0 <= i < |rest| && rest[i] == e;
        assert d[i + 1] == e;
      }
      LookupExactly(rest, key, v);
    }
  }

  /** A dictionary becomes an object of a class if and only if it gives that class's name, and it is registered, under "_jsonobjid". */
  lemma MadeExactly(host: Host, d: seq<Entry>, name: string)
    requires Distinct(d)
    ensures Made(host, d) == Custom(name, d) <==> Entry("_jsonobjid", Str(name)) in d && name in host.registered
    ensures Made(host, d) == Obj(d) || Made(host, d).Custom?
  {
    hide Distinct, Lookup;
    LookupExactly(d, "_jsonobjid", Str(name));
  }

  // ---- reading

  lemma {:induction false} GapSkipped(gap: string, s: string)
    requires Gap(gap)
    ensures SkipWhite(gap + s) == SkipWhite(s)
    decreases |gap|
  {
    if gap == "" {
      assert gap + s == s;
    } else {
      assert gap[0] as int in {32, 9, 10, 13} && (gap + s)[1..] == gap[1..] + s;
      assert forall i :: 0 <= i < |gap[1..]| ==> gap[1..][i] == gap[i + 1];
      GapSkipped(gap[1..], s);
    }
  }

  lemma GapBefore(host: Host, gap: string, s: string)
    requires Gap(gap)
    ensures ReadObject(host, gap + s) == ReadObject(host, s)
  {
    hide ReadObject, SkipWhite, Gap;
    GapSkipped(gap, s);
    WhiteFirst(host, gap + s);
    WhiteFirst(host, s);
  }

  /** What may follow a text of this kind. */
  predicate May(t: Syntax, rest: string) {
    (t.AWord? ==> WordEnds(rest)) && (t.AWhole? || t.AFraction? ==> NumberEnds(rest))
  }

  lemma PunctuationMay(t: Syntax, gap: string, c: char, rest: string)
    requires Gap(gap) && (c == ',' || c == ']' || c == '}' || c == ':')
    ensures May(t, gap + ([c] + rest))
  {
    hide NumberEnds;
    var s := gap + ([c] + rest);
    if gap == "" {
      assert s[0] == c;
    } else {
      assert s[0] == gap[0] && gap[0] as int in {32, 9, 10, 13};
    }
    PunctuationEndsBoth(s);
  }

  lemma PunctuationEndsBoth(s: string)
    requires s != "" && (s[0] as int in {32, 9, 10, 13} || s[0] == ',' || s[0] == ']' || s[0] == '}' || s[0] == ':')
    ensures NumberEnds(s) && WordEnds(s)
  {
    hide NumberEnds;
    NumberEndsIs(s);
  }

  lemma ScalarIsRead(host: Host, t: Syntax, rest: string)
    requires IsText(host, t) && !t.AnArray? && !t.AnObject? && May(t, rest)
    ensures Text(host, t) != "" && BeginsScalar(Text(host, t)[0])
    ensures ReadObject(host, Text(host, t) + rest) == Got(Meaning(host, t), rest)
  {
    hide ScalarRead, NumberEnds, WordEnds, Word, Spells, BeginsScalar, SkipWhite, Gap;
    var u := Text(host, t);
    match t {
      case AWord(text) => WordIsRead(host, text, rest); WordNotEmpty(text);
      case AWhole(w) => WholeIsRead(host, w, rest); WholeIs(w);
      case AFraction(q) => FractionIsRead(host, q, rest); FractionNotEmpty(q);
      case AString(ps) => QuotedIsRead(host, ps, rest);
    }
    assert (u + rest)[0] == u[0] && (u + rest)[1..] == u[1..] + rest;
    BeginsNoWhite(u + rest);
  }

  lemma WordNotEmpty(text: string)
    ensures IsTrue(text) || IsFalse(text) || IsNull(text) ==> text != ""
    ensures IsTrue(text) ==> !IsFalse(text) && !IsNull(text)
    ensures IsFalse(text) ==> !IsNull(text)
  {
    if IsTrue(text) { assert text[0] == 't' || text[0] == 'T'; }
    if IsFalse(text) { assert text[0] == 'f' || text[0] == 'F'; }
    if IsNull(text) { assert text[0] == 'n' || text[0] == 'N'; }
  }

  lemma FractionNotEmpty(q: Fraction)
    requires q.Ok()
    ensures q.Text() != ""
  {
    DigitsAre(q.digits);
  }

  lemma QuotedIsRead(host: Host, ps: seq<Piece>, rest: string)
    requires Spells(ps)
    ensures var u := InQuotes(ps); u[0] == '\"' && BeginsScalar(u[0]) && ScalarRead(host, u[0], u[1..] + rest) == Got(Str(MeaningOf(ps)), rest)
  {
    hide StringRead, TextOf, Spells;
    SpelledIsRead(ps, rest);
    assert InQuotes(ps)[1..] + rest == TextOf(ps) + "\"" + rest;
  }

  lemma BeginsNoWhite(s: string)
    requires s != "" && BeginsScalar(s[0])
    ensures SkipWhite(s) == s && s[0] != '[' && s[0] != '{'
  {
  }

  lemma BeginsIs(host: Host, t: Syntax, rest: string)
    requires IsText(host, t) && Text(host, t) != "" && Begins(Text(host, t)[0])
    ensures var s := Text(host, t) + rest; s != "" && SkipWhite(s) == s && s[0] != ']' && s[0] != '}'
  {
    hide Text, IsText;
  }

  /** Every text of the grammar is read as what it means, and nothing behind it is. */
  lemma {:induction false} GrammarIsRead(host: Host, t: Syntax, rest: string)
    requires IsText(host, t) && May(t, rest)
    ensures Text(host, t) != "" && Begins(Text(host, t)[0])
    ensures ReadObject(host, Text(host, t) + rest) == Got(Meaning(host, t), rest)
    decreases t
  {
    hide SkipWhite, ReadItems, ReadEntries, ScalarRead, Items, Members, May, Begins, Made, Values, Dictionary, Gap, Spells, BeginsScalar;
    if t.AnArray? {
      BracketBegins();
      var u := if t.items == [] then t.gap + "]" else Items(host, t.items);
      if t.items == [] {
        GapSkipped(t.gap, "]" + rest);
        assert t.gap + "]" + rest == t.gap + ("]" + rest);
        EmptyArray(host, t.gap, rest);
        NoValues(host);
      } else {
        ItemsRead(host, [], t.items, rest);
        ArrayOpens(host, Items(host, t.items) + rest);
        assert [] + Values(host, t.items) == Values(host, t.items);
      }
      assert Text(host, t) + rest == "[" + (u + rest);
    } else if t.AnObject? {
      BracketBegins();
      var u := if t.members == [] then t.gap + "}" else Members(host, t.members);
      if t.members == [] {
        GapSkipped(t.gap, "}" + rest);
        assert t.gap + "}" + rest == t.gap + ("}" + rest);
        EmptyObject(host, t.gap, rest);
        NoMembers(host);
      } else {
        MembersRead(host, [], t.members, rest);
        ObjectOpens(host, Members(host, t.members) + rest);
      }
      assert Text(host, t) + rest == "{" + (u + rest);
    } else {
      ScalarIsRead(host, t, rest);
      ScalarBegins(Text(host, t)[0]);
    }
  }

  lemma BracketBegins()
    ensures Begins('[') && Begins('{')
  {
  }

  lemma ScalarBegins(c: char)
    ensures BeginsScalar(c) ==> Begins(c)
  {
  }

  lemma NoValues(host: Host)
    ensures Values(host, []) == []
  {
  }

  lemma NoMembers(host: Host)
    ensures Dictionary(host, [], []) == []
  {
  }

  lemma EmptyArray(host: Host, gap: string, rest: string)
    requires SkipWhite(gap + ("]" + rest)) == SkipWhite("]" + rest)
    ensures ReadObject(host, "[" + (gap + ("]" + rest))) == Got(Arr([]), rest)
  {
    hide ScalarRead, ReadItems, ReadEntries, Made;
    var s := "[" + (gap + ("]" + rest));
    assert s[1..] == gap + ("]" + rest) && ("]" + rest)[1..] == rest;
    NoWhite(s);
    NoWhite("]" + rest);
  }

  lemma EmptyObject(host: Host, gap: string, rest: string)
    requires SkipWhite(gap + ("}" + rest)) == SkipWhite("}" + rest)
    ensures ReadObject(host, "{" + (gap + ("}" + rest))) == Got(Made(host, []), rest)
  {
    hide ScalarRead, ReadItems, ReadEntries, Made;
    var s := "{" + (gap + ("}" + rest));
    assert s[1..] == gap + ("}" + rest) && ("}" + rest)[1..] == rest;
    NoWhite(s);
    NoWhite("}" + rest);
  }

  lemma ArrayOpens(host: Host, u: string)
    requires var v := SkipWhite(u); v != "" && v[0] != ']'
    ensures ReadObject(host, "[" + u) == ReadItems(host, [], SkipWhite(u))
  {
    hide ScalarRead, ReadItems, ReadEntries, Made;
    assert ("[" + u)[1..] == u;
    NoWhite("[" + u);
  }

  lemma ObjectOpens(host: Host, u: string)
    requires var v := SkipWhite(u); v != "" && v[0] != '}'
    ensures ReadObject(host, "{" + u) == ReadEntries(host, [], SkipWhite(u))
  {
    hide ScalarRead, ReadItems, ReadEntries, Made;
    assert ("{" + u)[1..] == u;
    NoWhite("{" + u);
  }

  lemma Punctuation(gap: string, c: char, rest: string)
    requires Gap(gap) && (c == ',' || c == ']' || c == '}' || c == ':')
    ensures SkipWhite(gap + ([c] + rest)) == [c] + rest && ([c] + rest)[1..] == rest
  {
    hide SkipWhite, Gap;
    GapSkipped(gap, [c] + rest);
    PunctuationStands(c, rest);
  }

  lemma PunctuationStands(c: char, rest: string)
    requires c == ',' || c == ']' || c == '}' || c == ':'
    ensures SkipWhite([c] + rest) == [c] + rest
  {
  }

  lemma ItemAfter(host: Host, done: seq<Json>, s: string, v: Json, gap: string, c: char, tail: string)
    requires Gap(gap) && (c == ',' || c == ']') && ReadObject(host, s) == Got(v, gap + ([c] + tail))
    ensures ReadItems(host, done, s) == if c == ']' then Got(Arr(done + [v]), tail) else ReadItems(host, done + [v], tail)
  {
    hide ReadObject, SkipWhite, Gap;
    Punctuation(gap, c, tail);
  }

  /** White space in front of an element is as good as none. */
  lemma ItemsGap(host: Host, done: seq<Json>, s: string)
    ensures ReadItems(host, done, SkipWhite(s)) == ReadItems(host, done, s)
  {
    hide ReadObject, SkipWhite;
    WhiteFirst(host, s);
  }

  lemma EntriesGap(host: Host, done: seq<Entry>, s: string)
    ensures ReadEntries(host, done, SkipWhite(s)) == ReadEntries(host, done, s)
  {
    hide ReadObject, SkipWhite, Made, Assign;
    WhiteFirst(host, s);
  }

  lemma {:induction false} ItemsRead(host: Host, done: seq<Json>, items: seq<Item>, rest: string)
    requires items != [] && forall i :: i in items ==> Gap(i.before) && IsText(host, i.value) && Gap(i.after)
    ensures ReadItems(host, done, SkipWhite(Items(host, items) + rest)) == Got(Arr(done + Values(host, items)), rest)
    ensures ReadItems(host, done, Items(host, items) + rest) == Got(Arr(done + Values(host, items)), rest)
    ensures var v := SkipWhite(Items(host, items) + rest); v != "" && v[0] != ']'
    decreases items
  {
    hide ReadObject, ReadItems, SkipWhite, Text, Meaning, IsText, Gap, May, Begins;
    var i, last := items[0], |items| == 1;
    assert i in items;
    var c := if last then ']' else ',';
    var tail := if last then rest else Items(host, items[1..]) + rest;
    var s, behind := Items(host, items) + rest, i.after + ([c] + tail);
    assert s == i.before + (Text(host, i.value) + behind);
    PunctuationMay(i.value, i.after, c, tail);
    GrammarIsRead(host, i.value, behind);
    GapBefore(host, i.before, Text(host, i.value) + behind);
    GapSkipped(i.before, Text(host, i.value) + behind);
    BeginsIs(host, i.value, behind);
    var v := Meaning(host, i.value);
    ItemAfter(host, done, s, v, i.after, c, tail);
    ItemsGap(host, done, s);
    if last {
      OneValue(host, items);
    } else {
      ItemsRead(host, done + [v], items[1..], rest);
      assert done + [v] + Values(host, items[1..]) == done + Values(host, items);
    }
  }

  lemma OneValue(host: Host, items: seq<Item>)
    requires |items| == 1 && forall i :: i in items ==> Gap(i.before) && IsText(host, i.value) && Gap(i.after)
    ensures items[0] in items && Values(host, items) == [Meaning(host, items[0].value)]
  {
    hide Gap, IsText, Meaning;
    assert items[0] in items && items[1..] == [];
  }

  lemma MemberAfter(host: Host, done: seq<Entry>, s: string, key: string, gap: string, t: string, v: Json, gap2: string, c: char, tail: string)
    requires Gap(gap) && Gap(gap2) && (c == ',' || c == '}')
    requires ReadObject(host, s) == Got(Str(key), gap + ([':'] + t)) && ReadObject(host, t) == Got(v, gap2 + ([c] + tail))
    ensures ReadEntries(host, done, s) ==
            var d := Assign(done, key, v); if c == '}' then Got(Made(host, d), tail) else ReadEntries(host, d, tail)
  {
    hide ReadObject, SkipWhite, Gap, Made, Assign;
    Punctuation(gap, ':', t);
    Punctuation(gap2, c, tail);
  }

  lemma KeyIsRead(host: Host, before: string, key: seq<Piece>, behind: string)
    requires Gap(before) && Spells(key)
    ensures var s := before + (InQuotes(key) + behind);
            ReadObject(host, s) == Got(Str(MeaningOf(key)), behind) && SkipWhite(s) != "" && SkipWhite(s)[0] != '}'
  {
    hide ReadObject, SkipWhite, Gap, Spells, MeaningOf, BeginsScalar, InQuotes;
    var t := AString(key);
    StringAlone(host, key);
    ScalarIsRead(host, t, behind);
    GapBefore(host, before, InQuotes(key) + behind);
    GapSkipped(before, InQuotes(key) + behind);
    ScalarBegins(Text(host, t)[0]);
    BeginsIs(host, t, behind);
  }

  lemma StringAlone(host: Host, key: seq<Piece>)
    requires Spells(key)
    ensures var t := AString(key); IsText(host, t) && Text(host, t) == InQuotes(key) && Meaning(host, t) == Str(MeaningOf(key))
    ensures forall rest :: May(AString(key), rest)
  {
    hide Spells, TextOf, MeaningOf;
  }

  lemma {:induction false} MembersRead(host: Host, done: seq<Entry>, members: seq<Member>, rest: string)
    requires members != []
    requires forall m :: m in members ==>
               Gap(m.before) && Spells(m.key) && Gap(m.after) && Gap(m.value.before) && IsText(host, m.value.value) && Gap(m.value.after)
    ensures ReadEntries(host, done, SkipWhite(Members(host, members) + rest)) == Got(Made(host, Dictionary(host, done, members)), rest)
    ensures ReadEntries(host, done, Members(host, members) + rest) == Got(Made(host, Dictionary(host, done, members)), rest)
    ensures var v := SkipWhite(Members(host, members) + rest); v != "" && v[0] != '}'
    decreases members
  {
    hide ReadObject, ReadEntries, SkipWhite, Text, Meaning, IsText, Gap, May, Begins, Spells, InQuotes, MeaningOf, Made, Assign;
    var m, last := members[0], |members| == 1;
    assert m in members;
    var c := if last then '}' else ',';
    var tail := if last then rest else Members(host, members[1..]) + rest;
    var v, key := m.value, MeaningOf(m.key);
    var behind := v.after + ([c] + tail);
    var t := v.before + (Text(host, v.value) + behind);
    var s := Members(host, members) + rest;
    assert s == m.before + (InQuotes(m.key) + (m.after + ([':'] + t)));
    KeyIsRead(host, m.before, m.key, m.after + ([':'] + t));
    PunctuationMay(v.value, v.after, c, tail);
    GrammarIsRead(host, v.value, behind);
    GapBefore(host, v.before, Text(host, v.value) + behind);
    MemberAfter(host, done, s, key, m.after, t, Meaning(host, v.value), v.after, c, tail);
    EntriesGap(host, done, s);
    var d := Assign(done, key, Meaning(host, v.value));
    if last {
      OneMember(host, done, members);
    } else {
      MembersRead(host, d, members[1..], rest);
    }
  }

  lemma OneMember(host: Host, done: seq<Entry>, members: seq<Member>)
    requires |members| == 1
    requires forall m :: m in members ==>
               Gap(m.before) && Spells(m.key) && Gap(m.after) && Gap(m.value.before) && IsText(host, m.value.value) && Gap(m.value.after)
    ensures members[0] in members
    ensures Dictionary(host, done, members) == Assign(done, MeaningOf(members[0].key), Meaning(host, members[0].value.value))
  {
    hide Gap, IsText, Meaning, Spells, MeaningOf, Assign;
    assert members[0] in members && members[1..] == [];
  }

  // ---- what the decoders make of a whole text

  /** A text of the grammar, with white space around it. */
  datatype Document = Document(before: string, value: Syntax, after: string) {
    predicate IsOk(host: Host) { Gap(before) && IsText(host, value) && Gap(after) && May(value, after) }

    function All(host: Host): string
      requires IsOk(host)
    {
      before + (Text(host, value) + after)
    }
  }

  /** The recursive decoder and the one with a stack both give its meaning; the second makes no objects. */
  lemma DocumentIsRead(host: Host, doc: Document, exit: Option<Json>)
    requires doc.IsOk(host)
    ensures ReadObject(host, doc.All(host)) == Got(Meaning(host, doc.value), doc.after)
    ensures Decode(host, State([], exit), doc.All(host)) == Outcome.Ok(Erased(Meaning(host, doc.value)))
  {
    hide ReadObject, Text, Meaning, IsText, Gap, May, Decode, SkipWhite, Erased, Begins;
    GrammarIsRead(host, doc.value, doc.after);
    GapBefore(host, doc.before, Text(host, doc.value) + doc.after);
    GapSkipped(doc.after, "");
    assert doc.after + "" == doc.after;
    NothingSkipped();
    Agreement(host, exit, doc.All(host));
  }

  lemma NothingSkipped()
    ensures SkipWhite("") == ""
  {
  }
}
