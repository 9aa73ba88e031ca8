// Reading a serialised form back (section 5.1.1 of RFC 2046).
module MimeLayout {
  import opened Words
  import opened Wrappers
  import opened Utf8
  import opened MimeForm
  import opened MimeLetters

  /** How a sender writes the fixed parts of its lines, and the byte it puts behind a colon. */
  datatype Keys = Keys(disposition: seq<Byte>, nameText: seq<Byte>, fileNameText: seq<Byte>, contentType: seq<Byte>, gap: Byte) {
    /** Each letter in either case. */
    predicate Ok() {
      && Spelled(disposition, ContentDisposition()) && Spelled(nameText, NameText()) && Spelled(fileNameText, FileNameText())
      && Spelled(contentType, ContentType()) && gap != 13 && gap != 10
    }
  }

  /** A form entry; one with a file name is an upload. */
  datatype Item = Item(name: seq<Byte>, fileName: seq<Byte>, contentType: Option<seq<Byte>>, body: seq<Byte>, keys: Keys)

  function InQuotes(s: seq<Byte>): seq<Byte> { [34] + s + [34] }

  function NameText(): seq<Byte> { Chars("form-data; name=") }
  function FileNameText(): seq<Byte> { Chars("; filename=") }

  function FileNameTail(k: Keys, fileName: seq<Byte>): seq<Byte> {
    if fileName == [] then [] else k.fileNameText + InQuotes(fileName)
  }

  /** The parameters of the Content-Disposition line. */
  function Parameters(k: Keys, name: seq<Byte>, fileName: seq<Byte>): seq<Byte> {
    k.nameText + InQuotes(name) + FileNameTail(k, fileName)
  }

  function Disposition(k: Keys, name: seq<Byte>, fileName: seq<Byte>): seq<Byte> {
    k.disposition + [58, k.gap] + Parameters(k, name, fileName)
  }

  function TypeLine(k: Keys, contentType: seq<Byte>): seq<Byte> {
    k.contentType + [58, k.gap] + contentType
  }

  const LINE_END: seq<Byte> := [13, 10]

  function Head(i: Item): seq<Byte> {
    Disposition(i.keys, i.name, i.fileName) + LINE_END
    + (if i.contentType.Some? then TypeLine(i.keys, i.contentType.value) + LINE_END else []) + LINE_END
  }

  /** What follows the first boundary. */
  function Layout(f: Form, items: seq<Item>): seq<Byte> {
    if items == [] then [45, 45]
    else LINE_END + Head(items[0]) + items[0].body + LINE_END + f.boundary + Layout(f, items[1..])
  }

  // ---- bodies

  /** The end of a body stands at k, and nowhere before. */
  predicate FirstEnd(f: Form, s: seq<Byte>, k: nat) {
    && k <= |s| && EOL + f.boundary <= s[k..]
    && forall j :: 0 <= j < k ==> !(EOL + f.boundary <= s[j..])
  }

  function Taken(r: Reader, body: seq<Byte>): (r': Reader)
    requires r.Valid() && r.state in {FieldValue, File}
    ensures r'.Valid() && r'.state == r.state
    decreases |body|
  {
    if body == [] then r else Taken(TakeByte(r, body[0]), body[1..])
  }

  /** Where the body does not end, its next byte is taken. */
  lemma NotYet(f: Form, s: seq<Byte>, k: nat)
    requires f.WellFormed() && FirstEnd(f, s, k) && k > 0
    ensures |s| > k + 2 && LookAt(f, s) == Take && FirstEnd(f, s[1..], k - 1)
  {
    assert s[0..] == s;
    assert s[1..][k - 1..] == s[k..];
    forall j | 0 <= j < k - 1
      ensures !(EOL + f.boundary <= s[1..][j..])
    {
      assert s[1..][j..] == s[j + 1..];
    }
  }

  lemma BodyTurns(f: Form, r: Reader, s: seq<Byte>)
    requires f.WellFormed() && r.Valid() && r.state in {FieldValue, File} && |s| >= 2
    ensures LookAt(f, s) == Take ==> Run(f, r, s) == Run(f, TakeByte(r, s[0]), s[1..])
    ensures LookAt(f, s) == Ends ==> Run(f, r, s) == Run(f, EndBody(r), s[2..])
  {
    hide LookAt, TakeByte, EndBody, Form.WellFormed;
  }

  /** The body is what comes before the first line end followed by the boundary. */
  lemma {:induction false} RunBody(f: Form, r: Reader, s: seq<Byte>, k: nat)
    requires f.WellFormed() && r.Valid() && r.state in {FieldValue, File} && FirstEnd(f, s, k)
    ensures |s| >= k + 2 && Run(f, r, s) == Run(f, EndBody(Taken(r, s[..k])), s[k + 2..])
    decreases k
  {
    hide TakeByte, EndBody, LookAt, Run, FirstEnd, Form.WellFormed;
    if k == 0 {
      EndsHere(f, s);
      BodyTurns(f, r, s);
    } else {
      NotYet(f, s, k);
      BodyTurns(f, r, s);
      RunBody(f, TakeByte(r, s[0]), s[1..], k - 1);
      assert s[..k][1..] == s[1..][..k - 1];
      assert s[1..][k - 1 + 2..] == s[k + 2..];
    }
  }

  lemma EndsHere(f: Form, s: seq<Byte>)
    requires f.WellFormed() && FirstEnd(f, s, 0)
    ensures |s| >= 2 && LookAt(f, s) == Ends
  {
    assert s[0..] == s;
  }

  /** The body's bytes in the part, once they are all taken. */
  lemma {:induction false} TakenBytes(r: Reader, body: seq<Byte>)
    requires r.Valid() && r.state in {FieldValue, File}
    ensures var p, q := r.Last(), Taken(r, body).Last();
            && Taken(r, body).parts == r.parts[..|r.parts| - 1] + [q]
            && q == if r.state == FieldValue then p.(pending := Some(p.pending.value + body)) else p.(file := Some(p.file.value + body))
    ensures Taken(r, body).gotFile == (r.gotFile || (r.state == File && body != []))
    decreases |body|
  {
    if body == [] {
      assert forall w: seq<Byte> :: w + [] == w;
    } else {
      var r1 := TakeByte(r, body[0]);
      TakenBytes(r1, body[1..]);
      var w := if r.state == FieldValue then r.Last().pending.value else r.Last().file.value;
      assert (w + [body[0]]) + body[1..] == w + body;
    }
  }

  // ---- header lines

  lemma {:induction false} LineEndAt(line: seq<Byte>, rest: seq<Byte>)
    requires LineEnd(line) == -1
    ensures LineEnd(line + EOL + rest) == |line|
  {
    var s, n := line + EOL + rest, |line|;
    assert s[n] == CR && s[n + 1] == LF;
    forall k | 0 <= k < n
      ensures !(s[k] == CR && s[k + 1] == LF)
    {
      assert k == n - 1 || (s[k] == line[k] && s[k + 1] == line[k + 1]);
    }
  }

  lemma LineEndAppend(a: seq<Byte>, b: seq<Byte>)
    requires a != [] ==> a[|a| - 1] != CR
    ensures LineEnd(a + b) == -1 <==> LineEnd(a) == -1 && LineEnd(b) == -1
  {
    var s := a + b;
    if LineEnd(a) >= 0 { assert s[LineEnd(a)] == CR && s[LineEnd(a) + 1] == LF; }
    if LineEnd(b) >= 0 { assert s[|a| + LineEnd(b)] == CR && s[|a| + LineEnd(b) + 1] == LF; }
    if LineEnd(s) >= 0 {
      var i := LineEnd(s);
      assert s[i] == CR && s[i + 1] == LF;
      if i + 1 < |a| { assert a[i] == CR && a[i + 1] == LF; }
      if i >= |a| { assert b[i - |a|] == CR && b[i - |a| + 1] == LF; }
    }
  }

  /** What a quoted string is read back as, whatever follows it. */
  lemma {:induction false} StopsAtQuote(s: seq<Byte>, rest: seq<Byte>)
    ensures UpToStop(s + [QUOTE] + rest) == UpToStop(s)
  {
    var t := s + [QUOTE] + rest;
    if s != [] {
      assert t[1..] == s[1..] + [QUOTE] + rest;
      StopsAtQuote(s[1..], rest);
    }
  }

  /** No quote and no semicolon. */
  predicate Unbroken(s: seq<Byte>) { UpToStop(s) == s }

  lemma {:induction false} UnbrokenMeans(s: seq<Byte>)
    ensures Unbroken(s) <==> QUOTE !in s && SEMICOLON !in s
  {
    if s != [] {
      UnbrokenMeans(s[1..]);
      assert s == [s[0]] + s[1..];
      assert UpToStop(s) == [] || UpToStop(s)[1..] == UpToStop(s[1..]);
    }
  }

  lemma Letter(key: seq<Byte>, s: seq<Byte>, j: nat, i: nat)
    requires i < |key| && j + i < |s|
    ensures At(key, s, j) ==> Lower(key[i]) == Lower(s[j + i])
  {
    if At(key, s, j) { assert s[j..j + |key|][i] == s[j + i]; }
  }

  lemma IndexRange(key: seq<Byte>, s: seq<Byte>)
    ensures IndexOf(key, s) == -1 || 0 <= IndexOf(key, s) <= |s| - |key|
  {
  }

  lemma BehindQuote(keys: Keys, name: seq<Byte>, tail: seq<Byte>, n: nat)
    requires keys.Ok() && n <= |name|
    ensures (keys.nameText + InQuotes(name) + tail)[17 + n..] == name[n..] + [QUOTE] + tail
  {
    NameTextIs(keys);
  }

  lemma AtWhere(key: seq<Byte>, s: seq<Byte>, j: nat)
    requires j + |key| <= |s| && SameLetters(key, s[j..j + |key|])
    ensures At(key, s, j)
  {
  }

  lemma KeyLetters()
    ensures forall i :: 0 <= i < 9 ==> Lower(FileNameKey()[i]) != QUOTE
    ensures |FileNameKey()| == 9 && FileNameKey()[0] == 102 && FileNameKey()[1] == 105
    ensures |NameKey()| == 5 && NameKey()[0] == 110
    ensures |NameText()| == 16 && NameText()[11..] == NameKey()
    ensures forall j :: 0 <= j < 11 ==> Lower(NameText()[j]) != 110
    ensures NameText()[1] == 111 && forall j :: 0 < j < 16 ==> Lower(NameText()[j]) != 102
    ensures |FileNameText()| == 11 && FileNameText()[2..] == FileNameKey()
    ensures FileNameText()[0] == SEMICOLON && FileNameText()[1] == 32
  {
  }

  /** The same of any spelling. */
  lemma NameTextIs(keys: Keys)
    requires keys.Ok()
    ensures |keys.nameText| == 16 && |keys.fileNameText| == 11
    ensures forall j :: 0 <= j < 11 ==> Lower(keys.nameText[j]) != 110
    ensures Lower(keys.nameText[1]) == 111 && forall j :: 0 < j < 16 ==> Lower(keys.nameText[j]) != 102
    ensures keys.fileNameText[0] == SEMICOLON && keys.fileNameText[1] == 32
    ensures SameLetters(NameKey(), keys.nameText[11..]) && SameLetters(FileNameKey(), keys.fileNameText[2..])
  {
    hide NameText, FileNameText, NameKey, FileNameKey, Lower, SameLetter;
    KeyLetters();
    SpelledExactly(keys.nameText, NameText());
    SpelledExactly(keys.fileNameText, FileNameText());
    SameTail(NameText(), keys.nameText, 11);
    SameTail(FileNameText(), keys.fileNameText, 2);
    assert SameLetter(keys.fileNameText[0], SEMICOLON) && SameLetter(keys.fileNameText[1], 32);
    NoLetters(keys.fileNameText[0], keys.fileNameText[1]);
    assert Lower(NameText()[1]) == 111 by { LowerOf111(); }
  }

  lemma LowerOf111()
    ensures Lower(111) == 111
  {
  }

  lemma NoLetters(a: Byte, b: Byte)
    ensures (SameLetter(a, 59) <==> a == 59) && (SameLetter(b, 32) <==> b == 32)
  {
  }

  lemma SameTail(a: seq<Byte>, b: seq<Byte>, n: nat)
    requires SameLetters(a, b) && n <= |a|
    ensures SameLetters(a[n..], b[n..])
  {
    hide Lower;
  }

  /** The value of the name parameter. */
  lemma NameRead(keys: Keys, name: seq<Byte>, tail: seq<Byte>)
    requires keys.Ok()
    ensures PullValue(NameKey(), keys.nameText + InQuotes(name) + tail) == Some(UpToStop(name))
  {
    hide NameKey, Keys.Ok;
    KeyLetters();
    NameTextIs(keys);
    var key, text := NameKey(), keys.nameText + InQuotes(name) + tail;
    forall j | 0 <= j < 11
      ensures !At(key, text, j)
    {
      assert text[j] == keys.nameText[j];
      Letter(key, text, j, 0);
    }
    assert text[11..16] == keys.nameText[11..];
    assert At(key, text, 11);
    assert text[16..] == [QUOTE] + name + [QUOTE] + tail;
    assert text[16..][1..] == name + [QUOTE] + tail;
    StopsAtQuote(name, tail);
  }

  /** The file name parameter is looked for in the name as well. */
  lemma NotInFront(keys: Keys, name: seq<Byte>, tail: seq<Byte>, j: nat)
    requires keys.Ok()
    requires j < 17
    ensures !At(FileNameKey(), keys.nameText + InQuotes(name) + tail, j)
  {
    hide FileNameKey, Keys.Ok;
    KeyLetters();
    NameTextIs(keys);
    var key, text := FileNameKey(), keys.nameText + InQuotes(name) + tail;
    if j == 0 {
      assert text[1] == keys.nameText[1];
      Letter(key, text, 0, 1);
    } else if j < 16 {
      assert text[j] == keys.nameText[j];
      Letter(key, text, j, 0);
    } else {
      assert text[16] == QUOTE;
      Letter(key, text, 16, 0);
    }
  }

  /** Within the name, and not across the closing quote. */
  lemma WithinName(keys: Keys, name: seq<Byte>, tail: seq<Byte>, k: nat)
    requires keys.Ok()
    requires k <= |name|
    ensures At(FileNameKey(), keys.nameText + InQuotes(name) + tail, 17 + k) <==> At(FileNameKey(), name, k)
  {
    hide FileNameKey, Keys.Ok;
    KeyLetters();
    NameTextIs(keys);
    var key, text, q := FileNameKey(), keys.nameText + InQuotes(name) + tail, 17 + |name|;
    assert text[q] == QUOTE;
    if k + 9 <= |name| {
      assert text[17 + k..17 + k + 9] == name[k..k + 9];
    } else {
      Letter(key, text, 17 + k, q - 17 - k);
    }
  }

  /** Without "filename=" in the name, the key first stands behind it. */
  lemma FoundBehind(keys: Keys, name: seq<Byte>, fileName: seq<Byte>)
    requires keys.Ok()
    requires IndexOf(FileNameKey(), name) < 0
    ensures IndexOf(FileNameKey(), keys.nameText + InQuotes(name) + FileNameTail(keys, fileName)) == if fileName == [] then -1 else 20 + |name|
  {
    hide FileNameKey, Keys.Ok, IndexOf, At;
    KeyLetters();
    NameTextIs(keys);
    var key, tail := FileNameKey(), FileNameTail(keys, fileName);
    var text, q := keys.nameText + InQuotes(name) + tail, 17 + |name|;
    forall j | 0 <= j <= q
      ensures !At(key, text, j)
    {
      if j < 17 { NotInFront(keys, name, tail, j); } else { WithinName(keys, name, tail, j - 17); }
    }
    if fileName == [] {
      assert |text| == q + 1;
      IndexRange(key, text);
    } else {
      assert text[q + 1] == SEMICOLON && text[q + 2] == 32;
      Letter(key, text, q + 1, 0);
      Letter(key, text, q + 2, 0);
      assert text[q + 3..q + 12] == keys.fileNameText[2..];
      AtWhere(key, text, q + 3);
    }
  }

  /** The file name is then the one in quotes. */
  lemma FileNameRead(keys: Keys, name: seq<Byte>, fileName: seq<Byte>)
    requires keys.Ok()
    requires IndexOf(FileNameKey(), name) < 0
    ensures PullValue(FileNameKey(), keys.nameText + InQuotes(name) + FileNameTail(keys, fileName)) == Some(UpToStop(fileName))
  {
    hide FileNameKey, Keys.Ok, IndexOf, At;
    KeyLetters();
    NameTextIs(keys);
    FoundBehind(keys, name, fileName);
    if fileName != [] {
      var text := keys.nameText + InQuotes(name) + FileNameTail(keys, fileName);
      var after := text[29 + |name|..];
      assert after == [QUOTE] + fileName + [QUOTE] + [];
      assert after[1..] == fileName + [QUOTE] + [];
      StopsAtQuote(fileName, []);
    }
  }

  lemma {:induction false} UnbrokenSuffix(s: seq<Byte>, k: nat)
    requires Unbroken(s) && k <= |s|
    ensures Unbroken(s[k..])
  {
    UnbrokenMeans(s);
    UnbrokenMeans(s[k..]);
  }

  lemma FoundInName(keys: Keys, name: seq<Byte>, tail: seq<Byte>)
    requires keys.Ok()
    requires IndexOf(FileNameKey(), name) >= 0
    ensures IndexOf(FileNameKey(), keys.nameText + InQuotes(name) + tail) == 17 + IndexOf(FileNameKey(), name)
  {
    hide FileNameKey, Keys.Ok, InQuotes, IndexOf, At;
    var key, k := FileNameKey(), IndexOf(FileNameKey(), name);
    IndexRange(key, name);
    var text := keys.nameText + InQuotes(name) + tail;
    forall j | 0 <= j < 17 + k
      ensures !At(key, text, j)
    {
      if j < 17 { NotInFront(keys, name, tail, j); } else { WithinName(keys, name, tail, j - 17); }
    }
    WithinName(keys, name, tail, k);
  }

  lemma PullAt(key: seq<Byte>, text: seq<Byte>, after: seq<Byte>, value: seq<Byte>)
    requires IndexOf(key, text) >= 0 && after != [] && text[IndexOf(key, text) + |key|..] == after
    requires UpToStop(if after[0] == QUOTE then after[1..] else after) == value
    ensures PullValue(key, text) == Some(value)
  {
  }

  lemma KeyLengths(keys: Keys)
    requires keys.Ok()
    ensures |FileNameKey()| == 9 && |keys.nameText| == 16
  {
  }

  /** With it, the file name is what follows it in the name. */
  lemma FileNameInName(keys: Keys, name: seq<Byte>, fileName: seq<Byte>)
    requires keys.Ok()
    requires Unbroken(name) && IndexOf(FileNameKey(), name) >= 0
    ensures |name| >= IndexOf(FileNameKey(), name) + 9
    ensures PullValue(FileNameKey(), keys.nameText + InQuotes(name) + FileNameTail(keys, fileName)) ==
            Some(name[IndexOf(FileNameKey(), name) + 9..])
  {
    hide *;
    KeyLengths(keys);
    IndexRange(FileNameKey(), name);
    var tail, n := FileNameTail(keys, fileName), IndexOf(FileNameKey(), name) + 9;
    var text, rest := keys.nameText + InQuotes(name) + tail, name[n..];
    FoundInName(keys, name, tail);
    assert IndexOf(FileNameKey(), text) + |FileNameKey()| == 17 + n;
    UnbrokenSuffix(name, n);
    BrokenTail(keys, rest, fileName);
    BehindQuote(keys, name, tail, n);
    NotNothing(rest, tail);
    PullAt(FileNameKey(), text, rest + [QUOTE] + tail, rest);
  }

  lemma NotNothing(a: seq<Byte>, b: seq<Byte>)
    ensures a + [QUOTE] + b != []
  {
  }

  /** What is read when the value ends at a quote it does not begin with. */
  lemma BrokenTail(keys: Keys, w: seq<Byte>, fileName: seq<Byte>)
    requires keys.Ok()
    ensures var after := w + [QUOTE] + FileNameTail(keys, fileName);
            Unbroken(w) ==> UpToStop(if after[0] == QUOTE then after[1..] else after) == w
  {
    hide Keys.Ok;
    KeyLetters();
    NameTextIs(keys);
    var tail := FileNameTail(keys, fileName);
    var after := w + [QUOTE] + tail;
    UnbrokenMeans(w);
    if w == [] {
      assert after[1..] == tail;
    } else {
      assert w[0] in w;
      StopsAtQuote(w, tail);
    }
  }

  /** What a caller can check of the two names: no stop in either, and no "filename=" inside the field's name. */
  predicate LineOk(name: seq<Byte>, fileName: seq<Byte>) {
    var k := IndexOf(FileNameKey(), name);
    Unbroken(name) && if k < 0 then Unbroken(fileName) else fileName == name[k + 9..]
  }

  lemma DispositionParts(k: Keys, name: seq<Byte>, fileName: seq<Byte>)
    requires k.Ok()
    ensures FindColon(ContentDisposition(), Disposition(k, name, fileName)) == Some(19)
    ensures |Disposition(k, name, fileName)| >= 21 && Disposition(k, name, fileName)[21..] == Parameters(k, name, fileName)
  {
    hide Parameters, FindColon, ContentDisposition, Spelled;
    KeysByNumber();
    var line := Disposition(k, name, fileName);
    SpelledLength(k.disposition, ContentDisposition());
    NoColonInKeys(k.disposition);
    assert line[..19] == k.disposition && ContentDisposition()[..19] == ContentDisposition() && line[19] == 58;
    FindColonExactly(ContentDisposition(), line, 19);
  }

  lemma SpelledAscii(k: seq<Byte>, key: seq<Byte>)
    requires Spelled(k, key) && Ascii(key)
    ensures Ascii(k)
  {
  }

  lemma FixedAscii(k: Keys)
    requires k.Ok()
    ensures Ascii(k.nameText + [34]) && Ascii(k.fileNameText + [34]) && Ascii([34]) && Ascii([])
  {
    hide Spelled;
    SpelledAscii(k.nameText, NameText());
    SpelledAscii(k.fileNameText, FileNameText());
  }

  lemma ParametersAreText(k: Keys, name: seq<Byte>, fileName: seq<Byte>)
    requires k.Ok() && Text(name) == name && Text(fileName) == fileName
    ensures Text(Parameters(k, name, fileName)) == Parameters(k, name, fileName)
  {
    hide Text, Ascii, Chars, Keys.Ok;
    FixedAscii(k);
    var tail := FileNameTail(k, fileName);
    if fileName != [] {
      assert tail == (k.fileNameText + [34]) + (fileName + [34]);
      TextBefore(k.fileNameText + [34], fileName + [34]);
      TextAppend(fileName, [34]);
      AsciiText([34]);
    } else {
      AsciiText([]);
    }
    assert Text(tail) == tail;
    TextBefore([34], tail);
    TextAppend(name, [34] + tail);
    TextBefore(k.nameText + [34], name + ([34] + tail));
    assert Parameters(k, name, fileName) == (k.nameText + [34]) + (name + ([34] + tail));
  }

  /** The Content-Disposition line, in any spelling, gives back both names if and only if the line is in order. */
  lemma DispositionExact(p: Part, k: Keys, name: seq<Byte>, fileName: seq<Byte>)
    requires k.Ok() && Text(name) == name && Text(fileName) == fileName
    ensures ReadLine(p, Disposition(k, name, fileName)) == Some(p.(fieldName := name, fileName := fileName)) <==> LineOk(name, fileName)
  {
    hide FindColon, PullValue, IndexOf, NameKey, FileNameKey, Text, UpToStop, Disposition, ContentDisposition, Keys.Ok;
    DispositionParts(k, name, fileName);
    ParametersAreText(k, name, fileName);
    NameRead(k, name, FileNameTail(k, fileName));
    if Unbroken(name) {
      if IndexOf(FileNameKey(), name) < 0 {
        FileNameRead(k, name, fileName);
      } else {
        FileNameInName(k, name, fileName);
      }
    }
  }

  lemma TypeRead(p: Part, k: Keys, contentType: seq<Byte>)
    requires k.Ok() && Text(contentType) == contentType
    ensures ReadLine(p, TypeLine(k, contentType)) == Some(p.(contentType := contentType))
  {
    hide FindColon, Text, ContentType, ContentDisposition, Spelled, PullValue, Other;
    KeysByNumber();
    var line := TypeLine(k, contentType);
    SpelledLength(k.contentType, ContentType());
    NoColonInKeys(k.contentType);
    TypeIsOther(k.contentType, [k.gap] + contentType);
    OtherIsNone(ContentDisposition(), line);
    assert line == k.contentType + [58] + ([k.gap] + contentType);
    assert line[..12] == k.contentType && ContentType()[..12] == ContentType() && line[12] == 58 && line[14..] == contentType;
    FindColonExactly(ContentType(), line, 12);
  }
}
