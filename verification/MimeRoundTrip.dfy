// Feeding a serialised form gives back its entries, however it is cut into pieces.
module MimeRoundTrip {
  import opened Words
  import opened Wrappers
  import opened Utf8
  import opened MimeForm
  import opened MimeLetters
  import opened MimeLayout

  lemma RunLine(f: Form, r: Reader, line: seq<Byte>, rest: seq<Byte>)
    requires f.WellFormed() && r.Valid() && r.state == Header && line != [] && LineEnd(line) == -1
    requires ReadLine(r.Last(), line).Some?
    ensures Run(f, r, line + EOL + rest) == Run(f, r.WithLast(ReadLine(r.Last(), line).value), rest)
  {
    hide ReadLine, LineEnd;
    var s := line + EOL + rest;
    LineEndAt(line, rest);
    assert s[..|line|] == line && s[|line| + 2..] == rest;
  }

  lemma RunBlank(f: Form, r: Reader, rest: seq<Byte>)
    requires f.WellFormed() && r.Valid() && r.state == Header
    ensures Run(f, r, EOL + rest) == Run(f, BeginBody(r), rest)
  {
    hide BeginBody;
    assert (EOL + rest)[2..] == rest;
    assert LineEnd(EOL + rest) == 0;
  }

  lemma RunBoundary(f: Form, r: Reader, rest: seq<Byte>)
    requires f.WellFormed() && f.count == |f.boundary| && r.Valid() && r.state == Boundary
    ensures Run(f, r, f.boundary + EOL + rest) == Run(f, r.(state := Header, parts := r.parts + [EMPTY_PART]), rest)
  {
    hide Run;
    var s := f.boundary + EOL + rest;
    assert s[f.count] == CR && s[f.count + 2..] == rest;
    RunTurn(f, r, s);
  }

  lemma RunLast(f: Form, r: Reader, rest: seq<Byte>)
    requires f.WellFormed() && f.count == |f.boundary| && r.Valid() && r.state == Boundary
    ensures Run(f, r, f.boundary + [DASH, DASH] + rest) == Result(r.(state := Done), [])
  {
    var s := f.boundary + [DASH, DASH] + rest;
    assert s[f.count] == DASH && s[f.count + 1] == DASH;
  }

  /** What a caller can check of an entry's header lines. */
  predicate HeadOk(i: Item) {
    && i.keys.Ok()
    && Text(i.name) == i.name && Text(i.fileName) == i.fileName
    && LineEnd(i.name) == -1 && LineEnd(i.fileName) == -1
    && LineOk(i.name, i.fileName)
    && (i.contentType.Some? ==> Text(i.contentType.value) == i.contentType.value && LineEnd(i.contentType.value) == -1)
  }

  /** The body does not contain the line end and boundary that are to end it. */
  predicate BodyOk(f: Form, body: seq<Byte>) {
    FirstEnd(f, body + EOL + f.boundary, |body|)
  }

  predicate ItemOk(f: Form, i: Item) {
    HeadOk(i) && BodyOk(f, i.body) && (i.fileName == [] ==> Text(i.body) == i.body)
  }

  function Typed(i: Item): seq<Byte> {
    if i.contentType.Some? then i.contentType.value else []
  }

  function PartOf(i: Item): Part {
    if i.fileName == [] then Part(i.name, i.body, None, Typed(i), [], None)
    else Part(i.name, [], None, Typed(i), i.fileName, Some(i.body))
  }

  lemma NoLineEnd(s: seq<Byte>)
    requires forall k {:trigger s[k]} :: 0 <= k < |s| - 1 ==> !(s[k] == CR && s[k + 1] == LF)
    ensures LineEnd(s) == -1
  {
  }

  lemma LineEndQuoted(name: seq<Byte>, tail: seq<Byte>)
    requires LineEnd(name) == -1 && LineEnd(tail) == -1
    ensures LineEnd(name + [QUOTE] + tail) == -1
  {
    var s, n := name + [QUOTE] + tail, |name|;
    assert s[n] == QUOTE;
    forall k | 0 <= k < |s| - 1
      ensures !(s[k] == CR && s[k + 1] == LF)
    {
      assert s[k] == if k < n then name[k] else if k == n then QUOTE else tail[k - n - 1];
    }
    NoLineEnd(s);
  }

  /** The fixed parts of the lines have no line feed. */
  lemma FixedText(k: Keys)
    requires k.Ok()
    ensures LF !in k.disposition && LF !in k.nameText && LF !in k.fileNameText && LF !in k.contentType
  {
    hide Spelled;
    NoFeed(k.disposition, ContentDisposition());
    NoFeed(k.nameText, NameText());
    NoFeed(k.fileNameText, FileNameText());
    NoFeed(k.contentType, ContentType());
  }

  lemma NoFeed(k: seq<Byte>, key: seq<Byte>)
    requires Spelled(k, key) && LF !in key
    ensures LF !in k
  {
    forall i | 0 <= i < |k|
      ensures k[i] != LF
    {
      assert SameLetter(k[i], key[i]) && key[i] in key;
    }
  }

  lemma OneLine(k: Keys, name: seq<Byte>, fileName: seq<Byte>)
    requires k.Ok() && LineEnd(name) == -1 && LineEnd(fileName) == -1
    ensures LineEnd(Disposition(k, name, fileName)) == -1
  {
    hide LineEnd, Keys.Ok;
    FixedText(k);
    GapIs(k);
    var a, b := k.disposition + [58, k.gap] + k.nameText + [34], k.fileNameText + [34];
    NoLineEnd(a);
    NoLineEnd(b);
    NoLineEnd([]);
    var tail := FileNameTail(k, fileName);
    if fileName != [] {
      LineEndQuoted(fileName, []);
      assert tail == b + (fileName + [34] + []);
      LineEndAppend(b, fileName + [34] + []);
    }
    LineEndQuoted(name, tail);
    LineEndAppend(a, name + [34] + tail);
    assert Disposition(k, name, fileName) == a + (name + [34] + tail);
  }

  lemma GapIs(k: Keys)
    requires k.Ok()
    ensures k.gap != CR && k.gap != LF
  {
  }

  lemma TypeOneLine(k: Keys, contentType: seq<Byte>)
    requires k.Ok() && LineEnd(contentType) == -1
    ensures LineEnd(TypeLine(k, contentType)) == -1
  {
    hide LineEnd, Keys.Ok;
    FixedText(k);
    GapIs(k);
    NoLineEnd(k.contentType + [58, k.gap]);
    LineEndAppend(k.contentType + [58, k.gap], contentType);
  }

  /** Through the header lines to the start of the body. */
  lemma RunHead(f: Form, r: Reader, i: Item, rest: seq<Byte>)
    requires f.WellFormed() && r.Valid() && r.state == Header && r.Last() == EMPTY_PART && HeadOk(i)
    ensures var p := EMPTY_PART.(fieldName := i.name, fileName := i.fileName, contentType := Typed(i));
            Run(f, r, Head(i) + rest) == Run(f, BeginBody(r.WithLast(p)), rest)
  {
    hide Run, ReadLine, LineEnd, Text, LineOk, Disposition, TypeLine, BeginBody, Keys.Ok;
    var line := Disposition(i.keys, i.name, i.fileName);
    OneLine(i.keys, i.name, i.fileName);
    DispositionParts(i.keys, i.name, i.fileName);
    DispositionExact(EMPTY_PART, i.keys, i.name, i.fileName);
    var p := EMPTY_PART.(fieldName := i.name, fileName := i.fileName);
    var types := if i.contentType.Some? then TypeLine(i.keys, i.contentType.value) + EOL else [];
    assert Head(i) + rest == line + EOL + (types + (EOL + rest));
    RunLine(f, r, line, types + (EOL + rest));
    var r1 := r.WithLast(p);
    if i.contentType.Some? {
      var t := i.contentType.value;
      TypeOneLine(i.keys, t);
      TypeRead(p, i.keys, t);
      TypeNotEmpty(i.keys, t);
      assert types + (EOL + rest) == TypeLine(i.keys, t) + EOL + (EOL + rest);
      RunLine(f, r1, TypeLine(i.keys, t), EOL + rest);
      RunBlank(f, r1.WithLast(p.(contentType := t)), rest);
      assert r1.WithLast(p.(contentType := t)) == r.WithLast(p.(contentType := t));
    } else {
      assert types + (EOL + rest) == EOL + rest;
      RunBlank(f, r1, rest);
    }
  }

  lemma TypeNotEmpty(k: Keys, contentType: seq<Byte>)
    ensures TypeLine(k, contentType) != []
  {
  }

  // ---- one entry, then all of them

  function Begun(i: Item): Part {
    EMPTY_PART.(fieldName := i.name, fileName := i.fileName, contentType := Typed(i))
  }

  /** What the end of its body makes of a part. */
  lemma PartEnds(f: Form, r: Reader, i: Item)
    requires r.Valid() && r.state == Header && r.Last() == Begun(i) && (i.fileName == [] ==> Text(i.body) == i.body)
    ensures EndBody(Taken(BeginBody(r), i.body)) ==
            r.WithLast(PartOf(i)).(state := Boundary, gotFile := r.gotFile || (i.fileName != [] && i.body != []))
  {
    hide Text, Taken;
    TakenBytes(BeginBody(r), i.body);
    assert [] + i.body == i.body;
  }

  /** Through the body to the boundary behind it. */
  lemma BodyRead(f: Form, r: Reader, i: Item, rest: seq<Byte>)
    requires f.WellFormed() && r.Valid() && r.state == Header && r.Last() == Begun(i)
    requires BodyOk(f, i.body) && (i.fileName == [] ==> Text(i.body) == i.body)
    ensures Run(f, BeginBody(r), i.body + EOL + f.boundary + rest) ==
            Run(f, r.WithLast(PartOf(i)).(state := Boundary, gotFile := r.gotFile || (i.fileName != [] && i.body != [])), f.boundary + rest)
  {
    hide Run, Text, Taken, FirstEnd, BodyOk, BeginBody, EndBody, PartOf, Begun, Form.WellFormed;
    var s := i.body + EOL + f.boundary + rest;
    EndStays(f, i.body, rest);
    RunBody(f, BeginBody(r), s, |i.body|);
    assert s[..|i.body|] == i.body && s[|i.body| + 2..] == f.boundary + rest;
    PartEnds(f, r, i);
  }

  /** From one boundary to the next: the entry is the next part. */
  lemma RunItem(f: Form, r: Reader, i: Item, rest: seq<Byte>)
    requires f.WellFormed() && f.count == |f.boundary| && r.Valid() && r.state == Boundary && ItemOk(f, i)
    ensures Run(f, r, f.boundary + EOL + Head(i) + i.body + EOL + f.boundary + rest) ==
            Run(f, r.(parts := r.parts + [PartOf(i)], gotFile := r.gotFile || (i.fileName != [] && i.body != [])), f.boundary + rest)
  {
    hide Run, Head, HeadOk, Text, BodyOk, BeginBody, PartOf;
    var bodyOn := i.body + EOL + f.boundary + rest;
    assert f.boundary + EOL + Head(i) + i.body + EOL + f.boundary + rest == f.boundary + EOL + (Head(i) + bodyOn);
    RunBoundary(f, r, Head(i) + bodyOn);
    var r1 := r.(state := Header, parts := r.parts + [EMPTY_PART]);
    RunHead(f, r1, i, bodyOn);
    var r2 := r1.WithLast(Begun(i));
    BodyRead(f, r2, i, rest);
    assert r2.WithLast(PartOf(i)).parts == r.parts + [PartOf(i)];
  }

  /** What follows does not move the first end. */
  lemma EndStays(f: Form, body: seq<Byte>, rest: seq<Byte>)
    requires BodyOk(f, body)
    ensures FirstEnd(f, body + EOL + f.boundary + rest, |body|)
  {
    var s, t, e := body + EOL + f.boundary, body + EOL + f.boundary + rest, EOL + f.boundary;
    assert t[|body|..] == e + rest;
    forall j | 0 <= j < |body|
      ensures !(e <= t[j..])
    {
      assert t[j..][..|e|] == s[j..][..|e|];
    }
  }

  function PartsOf(items: seq<Item>): seq<Part> {
    seq(|items|, k requires 0 <= k < |items| => PartOf(items[k]))
  }

  predicate Uploads(items: seq<Item>) {
    exists k :: 0 <= k < |items| && items[k].fileName != [] && items[k].body != []
  }

  lemma {:induction false} RunLayout(f: Form, r: Reader, items: seq<Item>, epilogue: seq<Byte>)
    requires f.WellFormed() && f.count == |f.boundary| && r.Valid() && r.state == Boundary
    requires forall i :: i in items ==> ItemOk(f, i)
    ensures Run(f, r, f.boundary + Layout(f, items) + epilogue) ==
            Result(Reader(Done, r.parts + PartsOf(items), r.gotFile || Uploads(items)), [])
    decreases |items|
  {
    hide Run, Head, ItemOk, PartOf;
    if items == [] {
      RunLast(f, r, epilogue);
      assert r.parts + [] == r.parts;
    } else {
      var i, rest := items[0], Layout(f, items[1..]) + epilogue;
      assert f.boundary + Layout(f, items) + epilogue == f.boundary + EOL + Head(i) + i.body + EOL + f.boundary + rest;
      RunItem(f, r, i, rest);
      var r' := r.(parts := r.parts + [PartOf(i)], gotFile := r.gotFile || (i.fileName != [] && i.body != []));
      assert f.boundary + rest == f.boundary + Layout(f, items[1..]) + epilogue;
      RunLayout(f, r', items[1..], epilogue);
      assert r'.parts + PartsOf(items[1..]) == r.parts + PartsOf(items);
      UploadsOf(items);
    }
  }

  lemma UploadsOf(items: seq<Item>)
    requires items != []
    ensures Uploads(items) <==> (items[0].fileName != [] && items[0].body != []) || Uploads(items[1..])
  {
    if Uploads(items[1..]) {
      var k :| 0 <= k < |items[1..]| && items[1..][k].fileName != [] && items[1..][k].body != [];
      assert items[k + 1] == items[1..][k];
    }
    if Uploads(items) {
      var k :| 0 <= k < |items| && items[k].fileName != [] && items[k].body != [];
      assert k > 0 ==> items[1..][k - 1] == items[k];
    }
  }

  function Start(): (r: Reader)
    ensures r.Valid()
  {
    Reader(Boundary, [], false)
  }

  /** The form comes back whole from its serialisation, however that is cut into pieces. */
  lemma MultipartRoundTrip(f: Form, items: seq<Item>, epilogue: seq<Byte>, first: seq<Byte>, pieces: seq<seq<Byte>>)
    requires f.WellFormed() && f.count == |f.boundary| && forall i :: i in items ==> ItemOk(f, i)
    requires first + Concat(pieces) == f.boundary + Layout(f, items) + epilogue
    ensures Feed(f, Run(f, Start(), first), pieces) == Result(Reader(Done, PartsOf(items), Uploads(items)), [])
  {
    hide Run, Feed, Layout, ItemOk, PartsOf, Uploads, Concat;
    SplitIndependence(f, Start(), first, pieces);
    RunLayout(f, Start(), items, epilogue);
    assert [] + PartsOf(items) == PartsOf(items);
  }
}
