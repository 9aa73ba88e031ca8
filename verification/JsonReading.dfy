// The recursive-descent decoder, and what it makes of an encoded value.
module JsonReading {
  import opened Wrappers
  import opened JsonText

  const OBJECT_ID := "_jsonobjid"

  function SkipWhite(s: string): (r: string)
    ensures |r| <= |s| && (r != "" ==> !White(r[0]))
  {
    if s != "" && White(s[0]) then SkipWhite(s[1..]) else s
  }

  /** d[key] = v */
  function Assign(d: seq<Entry>, key: string, v: Json): seq<Entry> {
    if d == [] then [Entry(key, v)]
    else if d[0].key == key then [Entry(key, v)] + d[1..]
    else [d[0]] + Assign(d[1..], key, v)
  }

  function Lookup(d: seq<Entry>, key: string): Option<Json> {
    if d == [] then None else if d[0].key == key then Some(d[0].value) else Lookup(d[1..], key)
  }

  /** The class a dictionary names, if it is one that can be made. */
  function ClassOf(host: Host, d: seq<Entry>): Option<string> {
    var id := Lookup(d, OBJECT_ID);
    if id.Some? && id.value.Str? && id.value.s in host.registered then Some(id.value.s) else None
  }

  function Made(host: Host, d: seq<Entry>): Json {
    var name := ClassOf(host, d);
    if name.Some? then Custom(name.value, d) else Obj(d)
  }

  /** The next value. At the end of the text the program returns a marker, which every caller refuses. */
  function ReadObject(host: Host, s: string): (r: Read<Json>)
    ensures r.Got? ==> |r.rest| < |s|
    decreases |s|, 0
  {
    var t := SkipWhite(s);
    if t == "" then Malformed
    else if t[0] == '[' then
      var u := SkipWhite(t[1..]);
      if u == "" then Malformed
      else if u[0] == ']' then Got(Arr([]), u[1..])
      else ReadItems(host, [], u)
    else if t[0] == '{' then
      var u := SkipWhite(t[1..]);
      if u == "" then Malformed
      else if u[0] == '}' then Got(Made(host, []), u[1..])
      else ReadEntries(host, [], u)
    else ScalarRead(host, t[0], t[1..])
  }

  function ReadItems(host: Host, done: seq<Json>, s: string): (r: Read<Json>)
    ensures r.Got? ==> |r.rest| < |s|
    decreases |s|, 1
  {
    var v := ReadObject(host, s);
    if !v.Got? then v
    else
      var u := SkipWhite(v.rest);
      if u == "" then Malformed
      else if u[0] == ']' then Got(Arr(done + [v.value]), u[1..])
      else if u[0] == ',' then ReadItems(host, done + [v.value], u[1..])
      else Malformed
  }

  function ReadEntries(host: Host, done: seq<Entry>, s: string): (r: Read<Json>)
    ensures r.Got? ==> |r.rest| < |s|
    decreases |s|, 1
  {
    var k := ReadObject(host, s);
    if !k.Got? then k
    else if !k.value.Str? then Malformed
    else
      var t := SkipWhite(k.rest);
      if t == "" || t[0] != ':' then Malformed
      else
        var v := ReadObject(host, t[1..]);
        if !v.Got? then v
        else
          var d := Assign(done, k.value.s, v.value);
          var u := SkipWhite(v.rest);
          if u == "" then Malformed
          else if u[0] == '}' then Got(Made(host, d), u[1..])
          else if u[0] == ',' then ReadEntries(host, d, u[1..])
          else Malformed
  }

  // ---- what comes back

  /** What a decoder can know of a value: dictionaries that name a class become objects of it, at every depth. */
  function Revived(host: Host, v: Json): Json
    decreases v
  {
    match v
    case Arr(items) => Arr(RevivedItems(host, items))
    case Obj(entries) => Made(host, RevivedEntries(host, entries))
    case Custom(_, entries) => Made(host, RevivedEntries(host, entries))
    case _ => v
  }

  function RevivedItems(host: Host, items: seq<Json>): (r: seq<Json>)
    ensures |r| == |items|
    decreases items
  {
    if items == [] then [] else [Revived(host, items[0])] + RevivedItems(host, items[1..])
  }

  function RevivedEntries(host: Host, entries: seq<Entry>): (r: seq<Entry>)
    ensures |r| == |entries| && forall i :: 0 <= i < |r| ==> r[i].key == entries[i].key
    decreases entries
  {
    if entries == [] then []
    else [Entry(entries[0].key, Revived(host, entries[0].value))] + RevivedEntries(host, entries[1..])
  }

  /** Numbers and words: values whose end is known only by what follows. */
  predicate Bare(v: Json) { v.Int? || v.Double? || v.Bool? || v.Null? }

  /** The text behind a value that lets the value end there. */
  predicate Ended(v: Json, rest: string) {
    if v.Int? || v.Double? then EndsNumber(rest) else if v.Bool? || v.Null? then EndsWord(rest) else true
  }

  /** The characters that begin a value. */
  predicate Begins(c: char) { BeginsScalar(c) || c == '[' || c == '{' }

  predicate Scalar(v: Json) { !v.Arr? && !v.Obj? && !v.Custom? }

  lemma ScalarReadsBack(host: Host, v: Json, rest: string)
    requires Scalar(v) && Sendable(host, v) && Ended(v, rest)
    ensures var t := Encoded(host, v) + rest;
            Encoded(host, v) != "" && BeginsScalar(t[0]) && ScalarRead(host, t[0], t[1..]) == Got(v, rest)
  {
    hide NumberRead, StringRead, WordRead, Escaped, IntText, EndsNumber, EndsWord, DoubleOk, White;
    var t := Encoded(host, v) + rest;
    if v.Str? {
      StringReadsBack(v.s, rest);
      assert t[1..] == Escaped(v.s) + "\"" + rest;
    } else if v.Int? {
      NumberReadsBack(host, v.i, rest);
      assert IntText(v.i) != "";
    } else if v.Double? {
      DoubleReadsBack(host, v.d, rest);
      assert t == host.doubleText(v.d) + rest;
    } else if v.Null? {
      WordReadsBack("ull", "ULL", rest);
      assert t[1..] == "ull" + rest;
    } else if v.b {
      WordReadsBack("rue", "RUE", rest);
      assert t[1..] == "rue" + rest;
    } else {
      WordReadsBack("alse", "ALSE", rest);
      assert t[1..] == "alse" + rest;
    }
  }

  lemma NoWhite(s: string)
    requires s != "" && !White(s[0])
    ensures SkipWhite(s) == s
  {
  }

  lemma WhiteFirst(host: Host, s: string)
    ensures ReadObject(host, SkipWhite(s)) == ReadObject(host, s)
  {
    hide ScalarRead, ReadItems, ReadEntries, Made;
    var t := SkipWhite(s);
    if t != "" { NoWhite(t); }
  }

  lemma OpensArray(host: Host, u: string, rest: string)
    ensures u != "" && Begins(u[0]) ==> ReadObject(host, "[" + u) == ReadItems(host, [], u)
    ensures ReadObject(host, "[" + ("]" + rest)) == Got(Arr([]), rest)
  {
    hide ScalarRead, ReadItems, ReadEntries;
    assert ("[" + u)[1..] == u && ("[" + ("]" + rest))[1..] == "]" + rest && ("]" + rest)[1..] == rest;
    NoWhite("[" + u);
    NoWhite("[" + ("]" + rest));
    NoWhite("]" + rest);
  }

  lemma OpensObject(host: Host, u: string, rest: string)
    ensures u != "" && Begins(u[0]) ==> ReadObject(host, "{" + u) == ReadEntries(host, [], u)
    ensures ReadObject(host, "{" + ("}" + rest)) == Got(Made(host, []), rest)
  {
    hide ScalarRead, ReadItems, ReadEntries, Made;
    assert ("{" + u)[1..] == u && ("{" + ("}" + rest))[1..] == "}" + rest && ("}" + rest)[1..] == rest;
    NoWhite("{" + u);
    NoWhite("{" + ("}" + rest));
    NoWhite("}" + rest);
  }

  /** An encoded value, whatever the value and whatever lets it end, is read as that value, and nothing behind it is. */
  lemma {:induction false} ReadsBack(host: Host, v: Json, rest: string)
    requires Sendable(host, v) && Ended(v, rest)
    ensures ReadObject(host, Encoded(host, v) + rest) == Got(Revived(host, v), rest)
    ensures Encoded(host, v) != "" && Begins(Encoded(host, v)[0])
    decreases v
  {
    hide ReadObject, ReadItems, ReadEntries, ItemsText, EntriesText, Ended, Made, Distinct;
    if Scalar(v) {
      ScalarIsValue(host, v, rest);
    } else if v.Arr? {
      OpensArray(host, ItemsText(host, v.items) + "]" + rest, rest);
      if v.items == [] {
        NoItems(host);
        assert Encoded(host, v) + rest == "[" + ("]" + rest);
      } else {
        ItemsReadBack(host, [], v.items, rest);
        assert Encoded(host, v) + rest == "[" + (ItemsText(host, v.items) + "]" + rest);
        assert [] + RevivedItems(host, v.items) == RevivedItems(host, v.items);
      }
    } else {
      OpensObject(host, EntriesText(host, v.entries) + "}" + rest, rest);
      if v.entries == [] {
        NoItems(host);
        assert Encoded(host, v) + rest == "{" + ("}" + rest);
      } else {
        assert [] + v.entries == v.entries;
        EntriesReadBack(host, [], v.entries, rest);
        assert Encoded(host, v) + rest == "{" + (EntriesText(host, v.entries) + "}" + rest);
        assert [] + RevivedEntries(host, v.entries) == RevivedEntries(host, v.entries);
      }
    }
  }

  lemma NoItems(host: Host)
    ensures ItemsText(host, []) == "" && EntriesText(host, []) == ""
  {
  }

  lemma ScalarIsValue(host: Host, v: Json, rest: string)
    requires Scalar(v) && Sendable(host, v) && Ended(v, rest)
    ensures ReadObject(host, Encoded(host, v) + rest) == Got(v, rest)
    ensures Encoded(host, v) != "" && Begins(Encoded(host, v)[0])
  {
    hide ScalarRead, Sendable, Ended, Encoded;
    ScalarReadsBack(host, v, rest);
    NoWhite(Encoded(host, v) + rest);
  }

  /** A comma or a closing bracket ends every value. */
  lemma PunctuationEnds(v: Json, c: char, rest: string)
    requires c == ',' || c == ']' || c == '}'
    ensures Ended(v, [c] + rest) && SkipWhite([c] + rest) == [c] + rest
  {
  }

  lemma {:induction false} ItemsReadBack(host: Host, done: seq<Json>, items: seq<Json>, rest: string)
    requires items != [] && forall x :: x in items ==> Sendable(host, x)
    ensures ReadItems(host, done, ItemsText(host, items) + "]" + rest) == Got(Arr(done + RevivedItems(host, items)), rest)
    ensures ItemsText(host, items) != "" && Begins(ItemsText(host, items)[0])
    decreases items
  {
    hide ReadObject, SkipWhite, Encoded, Sendable, Revived, Begins;
    var v, last := items[0], |items| == 1;
    var tail := if last then rest else ItemsText(host, items[1..]) + "]" + rest;
    var c := if last then ']' else ',';
    assert v in items;
    assert ItemsText(host, items) + "]" + rest == Encoded(host, v) + ([c] + tail);
    PunctuationEnds(v, c, tail);
    ReadsBack(host, v, [c] + tail);
    assert ([c] + tail)[1..] == tail;
    var w := Revived(host, v);
    if last {
      assert RevivedItems(host, items) == [w];
    } else {
      ItemsReadBack(host, done + [w], items[1..], rest);
      assert done + [w] + RevivedItems(host, items[1..]) == done + RevivedItems(host, items);
    }
  }

  lemma KeyReadsBack(host: Host, key: string, rest: string)
    ensures ReadObject(host, Quoted(key) + rest) == Got(Str(key), rest)
    ensures Quoted(key) != "" && Begins(Quoted(key)[0])
  {
    hide Escaped, StringRead;
    ScalarReadsBack(host, Str(key), rest);
    NoWhite(Quoted(key) + rest);
  }

  lemma {:induction false} AssignFresh(d: seq<Entry>, key: string, v: Json)
    requires forall e :: e in d ==> e.key != key
    ensures Assign(d, key, v) == d + [Entry(key, v)]
  {
    if d != [] {
      assert d[0] in d;
      AssignFresh(d[1..], key, v);
    }
  }

  lemma DistinctStep(done: seq<Entry>, entries: seq<Entry>, w: Entry)
    requires entries != [] && Distinct(done + entries) && w.key == entries[0].key
    ensures forall e :: e in done ==> e.key != w.key
    ensures Distinct(done + [w] + entries[1..])
  {
    var all := done + entries;
    assert all[|done|] == entries[0];
    forall i | 0 <= i < |done| ensures done[i].key != w.key {
      assert all[i] == done[i];
    }
    forall i, j | 0 <= i < j < |all| ensures (done + [w] + entries[1..])[i].key != (done + [w] + entries[1..])[j].key {
      assert (done + [w] + entries[1..])[i].key == all[i].key && (done + [w] + entries[1..])[j].key == all[j].key;
    }
  }

  /** One entry, once its value is known to be read as x. */
  lemma EntryStep(host: Host, done: seq<Entry>, key: string, text: string, x: Json, c: char, tail: string)
    requires ReadObject(host, text + ([c] + tail)) == Got(x, [c] + tail) && (c == ',' || c == '}')
    requires forall e :: e in done ==> e.key != key
    ensures ReadEntries(host, done, Quoted(key) + (":" + (text + ([c] + tail)))) ==
            var d := done + [Entry(key, x)];
            if c == '}' then Got(Made(host, d), tail) else ReadEntries(host, d, tail)
  {
    hide ReadObject, SkipWhite, Quoted, Made, Assign;
    var more := text + ([c] + tail);
    KeyReadsBack(host, key, ":" + more);
    NoWhite(":" + more);
    assert (":" + more)[1..] == more && ([c] + tail)[1..] == tail;
    PunctuationEnds(Null, c, tail);
    AssignFresh(done, key, x);
  }

  lemma {:induction false} EntriesReadBack(host: Host, done: seq<Entry>, entries: seq<Entry>, rest: string)
    requires entries != [] && Distinct(done + entries) && forall e :: e in entries ==> Sendable(host, e.value)
    ensures ReadEntries(host, done, EntriesText(host, entries) + "}" + rest) ==
            Got(Made(host, done + RevivedEntries(host, entries)), rest)
    ensures EntriesText(host, entries) != "" && Begins(EntriesText(host, entries)[0])
    decreases entries
  {
    hide ReadObject, Encoded, Sendable, Revived, Quoted, Made, Begins, Ended, Distinct, ReadEntries;
    var e, last := entries[0], |entries| == 1;
    var tail := if last then rest else EntriesText(host, entries[1..]) + "}" + rest;
    var c := if last then '}' else ',';
    assert e in entries;
    var valueText := Encoded(host, e.value) + ([c] + tail);
    assert EntriesText(host, entries) + "}" + rest == Quoted(e.key) + (":" + valueText);
    KeyReadsBack(host, e.key, "");
    PunctuationEnds(e.value, c, tail);
    ReadsBack(host, e.value, [c] + tail);
    var w := Entry(e.key, Revived(host, e.value));
    DistinctStep(done, entries, w);
    EntryStep(host, done, e.key, Encoded(host, e.value), w.value, c, tail);
    if last {
      assert RevivedEntries(host, entries) == [w];
    } else {
      EntriesReadBack(host, done + [w], entries[1..], rest);
      assert done + [w] + RevivedEntries(host, entries[1..]) == done + RevivedEntries(host, entries);
    }
  }

  // ---- the round trip, exactly

  /** At the end of a text a number or a word is not known to have ended. */
  lemma ScalarAtEnd(host: Host, v: Json)
    requires Bare(v) && Sendable(host, v)
    ensures ReadObject(host, Encoded(host, v)).Malformed?
  {
    hide NumberRead, IntText, DoubleOk;
    var t := Encoded(host, v);
    if v.Int? { NumberReadsBack(host, v.i, ","); } else if v.Double? { DoubleReadsBack(host, v.d, ","); }
    assert !v.Int? && !v.Double? ==> t in ["null", "true", "false"];
    NoWhite(t);
  }

  /** A value stands for itself: no dictionary names a class it is not an object of. */
  predicate Faithful(host: Host, v: Json)
    decreases v
  {
    match v
    case Arr(items) => forall x :: x in items ==> Faithful(host, x)
    case Obj(entries) => ClassOf(host, entries).None? && forall e :: e in entries ==> Faithful(host, e.value)
    case Custom(name, entries) => ClassOf(host, entries) == Some(name) && forall e :: e in entries ==> Faithful(host, e.value)
    case _ => true
  }

  lemma {:induction false} LookupRevived(host: Host, d: seq<Entry>, key: string)
    ensures var x, y := Lookup(d, key), Lookup(RevivedEntries(host, d), key);
            x.Some? == y.Some? && (x.Some? ==> y.value == Revived(host, x.value))
  {
    if d != [] { LookupRevived(host, d[1..], key); }
  }

  lemma ClassRevived(host: Host, d: seq<Entry>)
    ensures ClassOf(host, RevivedEntries(host, d)) == ClassOf(host, d)
  {
    LookupRevived(host, d, OBJECT_ID);
  }

  lemma {:induction false} RevivedExactly(host: Host, v: Json)
    ensures Revived(host, v) == v <==> Faithful(host, v)
    decreases v
  {
    hide ClassOf;
    if v.Arr? {
      ItemsExactly(host, v.items);
    } else if v.Obj? || v.Custom? {
      EntriesExactly(host, v.entries);
      ClassRevived(host, v.entries);
    }
  }

  lemma {:induction false} ItemsExactly(host: Host, items: seq<Json>)
    ensures RevivedItems(host, items) == items <==> forall x :: x in items ==> Faithful(host, x)
    decreases items
  {
    hide Revived, Faithful;
    if items != [] {
      RevivedExactly(host, items[0]);
      ItemsExactly(host, items[1..]);
      assert items == [items[0]] + items[1..];
    }
  }

  lemma {:induction false} EntriesExactly(host: Host, entries: seq<Entry>)
    ensures RevivedEntries(host, entries) == entries <==> forall e :: e in entries ==> Faithful(host, e.value)
    decreases entries
  {
    hide Revived, Faithful;
    if entries != [] {
      var e := entries[0];
      RevivedExactly(host, e.value);
      EntriesExactly(host, entries[1..]);
      assert entries == [e] + entries[1..];
      assert RevivedEntries(host, entries) == [Entry(e.key, Revived(host, e.value))] + RevivedEntries(host, entries[1..]);
    }
  }

  /** What decoding an encoded value gives, for every value. */
  lemma DecodesEncoded(host: Host, v: Json)
    requires Sendable(host, v)
    ensures ReadObject(host, Encoded(host, v)) == if Bare(v) then Malformed else Got(Revived(host, v), "")
  {
    hide ReadObject, Encoded, Revived;
    if Bare(v) {
      ScalarAtEnd(host, v);
    } else {
      ReadsBack(host, v, "");
      assert Encoded(host, v) + "" == Encoded(host, v);
    }
  }

  /** A value comes back if and only if it is no bare number or word and stands for itself. */
  lemma RoundTripExact(host: Host, v: Json)
    requires Sendable(host, v)
    ensures ReadObject(host, Encoded(host, v)) == Got(v, "") <==> !Bare(v) && Faithful(host, v)
  {
    hide ReadObject, Encoded, Revived, Faithful;
    DecodesEncoded(host, v);
    RevivedExactly(host, v);
  }
}
