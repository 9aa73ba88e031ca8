// Exactly when the reader meets its promises: which bodies come back, and which
// boundaries make it indifferent to how its input is cut.
module MimeExact {
  import opened Words
  import opened Wrappers
  import opened Utf8
  import opened MimeForm
  import opened MimeLayout
  import opened MimeRoundTrip

  /** All parts but the one being read are final; that one too, between bodies; and its file only grows. */
  predicate Kept(r: Reader, r': Reader) {
    && |r.parts| <= |r'.parts|
    && (forall i :: 0 <= i < |r.parts| - 1 ==> r'.parts[i] == r.parts[i])
    && (Between(r) ==> r.parts <= r'.parts && (|r'.parts| == |r.parts| ==> Between(r')))
    && (r.state == File ==> FileKept(r.parts, r'.parts) && (|r'.parts| == |r.parts| ==> r'.state == File || Between(r')))
  }

  /** No part is being read. */
  predicate Between(r: Reader) { r.state == Boundary || r.Halted() }

  predicate FileKept(ps: seq<Part>, ps': seq<Part>) {
    var n := |ps| - 1;
    0 <= n < |ps'| && ps[n].file.Some? && ps'[n].file.Some? && ps[n].file.value <= ps'[n].file.value
  }

  lemma TurnKeeps(f: Form, r: Reader, s: seq<Byte>)
    requires f.WellFormed() && r.Valid() && !r.Halted() && s != []
    ensures var t := Turn(f, r, s); t.Next? ==> Kept(r, t.r)
  {
    hide LineEnd, ReadLine, LookAt;
  }

  lemma KeptSame(r: Reader)
    requires r.Valid()
    ensures Kept(r, r)
  {
  }

  lemma KeptTwice(a: Reader, b: Reader, c: Reader)
    requires Kept(a, b) && Kept(b, c)
    ensures Kept(a, c)
  {
    if a.state == File && |b.parts| == |a.parts| && b.state != File { assert b.parts <= c.parts; }
  }

  lemma {:induction false} RunKeeps(f: Form, r: Reader, s: seq<Byte>)
    requires f.WellFormed() && r.Valid()
    ensures Kept(r, Run(f, r, s).r)
    decreases |s|
  {
    hide Turn, Kept;
    KeptSame(r);
    if s != [] && !r.Halted() {
      TurnKeeps(f, r, s);
      var t := Turn(f, r, s);
      if t.Next? {
        RunKeeps(f, t.r, s[t.used..]);
        KeptTwice(r, t.r, Run(f, r, s).r);
      }
    }
  }

  /** The first end of a body at or before one that is known. */
  lemma {:induction false} EndFrom(f: Form, s: seq<Byte>, j: nat, n: nat) returns (k: nat)
    requires j <= n <= |s| && EOL + f.boundary <= s[n..]
    requires forall i :: 0 <= i < j ==> !(EOL + f.boundary <= s[i..])
    ensures FirstEnd(f, s, k) && j <= k <= n
    decreases n - j
  {
    if EOL + f.boundary <= s[j..] { k := j; } else { k := EndFrom(f, s, j + 1, n); }
  }

  /** A body with an end in it is cut short there. */
  lemma BadBody(f: Form, r: Reader, i: Item, rest: seq<Byte>)
    requires f.WellFormed() && r.Valid() && r.state == Header && r.Last() == Begun(i)
    requires !(BodyOk(f, i.body) && (i.fileName == [] ==> Text(i.body) == i.body))
    ensures var x := Run(f, BeginBody(r), i.body + EOL + f.boundary + rest).r;
            |x.parts| >= |r.parts| && x.parts[|r.parts| - 1] != PartOf(i)
  {
    hide Run, Text, FirstEnd, Taken, Form.WellFormed;
    var s, n := i.body + EOL + f.boundary + rest, |i.body|;
    assert s[n..] == EOL + f.boundary + rest;
    var k := EndFrom(f, s, 0, n);
    if k == n { EndWas(f, i.body, rest); }
    RunBody(f, BeginBody(r), s, k);
    TakenBytes(BeginBody(r), s[..k]);
    assert s[..k] == i.body[..k];
    var r' := EndBody(Taken(BeginBody(r), s[..k]));
    RunKeeps(f, r', s[k + 2..]);
    assert [] + i.body[..k] == i.body[..k];
    assert k == n ==> i.body[..k] == i.body;
  }

  lemma EndWas(f: Form, body: seq<Byte>, rest: seq<Byte>)
    requires FirstEnd(f, body + EOL + f.boundary + rest, |body|)
    ensures BodyOk(f, body)
  {
    var s, t, e := body + EOL + f.boundary, body + EOL + f.boundary + rest, EOL + f.boundary;
    assert s[|body|..] == e;
    forall j | 0 <= j < |body|
      ensures !(e <= s[j..])
    {
      assert t[j..][..|e|] == s[j..][..|e|];
    }
  }

  lemma BadItem(f: Form, r: Reader, i: Item, rest: seq<Byte>)
    requires f.WellFormed() && f.count == |f.boundary| && r.Valid() && r.state == Boundary && HeadOk(i) && !ItemOk(f, i)
    ensures var x := Run(f, r, f.boundary + EOL + Head(i) + i.body + EOL + f.boundary + rest).r;
            |x.parts| > |r.parts| && x.parts[|r.parts|] != PartOf(i)
  {
    hide Run, Head, HeadOk, Text, BodyOk, BeginBody, PartOf;
    var bodyOn := i.body + EOL + f.boundary + rest;
    assert f.boundary + EOL + Head(i) + i.body + EOL + f.boundary + rest == f.boundary + EOL + (Head(i) + bodyOn);
    RunBoundary(f, r, Head(i) + bodyOn);
    var r1 := r.(state := Header, parts := r.parts + [EMPTY_PART]);
    RunHead(f, r1, i, bodyOn);
    BadBody(f, r1.WithLast(Begun(i)), i, rest);
  }

  /** With header lines in order, the form comes back if and only if every body is free of its own end, and is text where text is asked for. */
  lemma {:induction false} MultipartExact(f: Form, r: Reader, items: seq<Item>, epilogue: seq<Byte>)
    requires f.WellFormed() && f.count == |f.boundary| && r.Valid() && r.state == Boundary
    requires forall i :: i in items ==> HeadOk(i)
    ensures Run(f, r, f.boundary + Layout(f, items) + epilogue).r.parts == r.parts + PartsOf(items)
            <==> forall i :: i in items ==> ItemOk(f, i)
    decreases |items|
  {
    hide Run, Head, HeadOk, ItemOk, PartOf;
    if items == [] {
      RunLast(f, r, epilogue);
      assert r.parts + [] == r.parts;
    } else {
      var i, rest := items[0], Layout(f, items[1..]) + epilogue;
      assert f.boundary + Layout(f, items) + epilogue == f.boundary + EOL + Head(i) + i.body + EOL + f.boundary + rest;
      assert items == [i] + items[1..];
      if ItemOk(f, i) {
        RunItem(f, r, i, rest);
        var r' := r.(parts := r.parts + [PartOf(i)], gotFile := r.gotFile || (i.fileName != [] && i.body != []));
        assert f.boundary + rest == f.boundary + Layout(f, items[1..]) + epilogue;
        MultipartExact(f, r', items[1..], epilogue);
        assert r'.parts + PartsOf(items[1..]) == r.parts + PartsOf(items);
      } else {
        BadItem(f, r, i, rest);
        assert (r.parts + PartsOf(items))[|r.parts|] == PartOf(i);
      }
    }
  }

  // ---- split independence, exactly

  /** An entry that is an upload. */
  const UPLOAD := Item([97], [98], None, [], Keys(ContentDisposition(), NameText(), FileNameText(), ContentType(), 32))

  lemma UploadOk()
    ensures HeadOk(UPLOAD)
  {
    hide Text;
    AsciiText(UPLOAD.name);
    AsciiText(UPLOAD.fileName);
  }

  /** A first boundary and the head of an upload. The bytes of the first boundary are passed over unread. */
  function Opening(f: Form): seq<Byte> {
    seq(f.count + 2, _ => CR) + Head(UPLOAD)
  }

  /** The reader behind that, with the upload's file begun. */
  function Uploading(): (r: Reader)
    ensures r.Valid()
  {
    Reader(File, [Begun(UPLOAD).(file := Some([]))], false)
  }

  /** What a new reader makes of an upload that is begun, whatever follows. */
  lemma RunOpening(f: Form, rest: seq<Byte>)
    requires f.WellFormed()
    ensures Run(f, Start(), Opening(f) + rest) == Run(f, Uploading(), rest)
  {
    hide Run, Head, HeadOk;
    var s := Opening(f) + rest;
    assert s[f.count] == CR && s[f.count + 2..] == Head(UPLOAD) + rest;
    RunTurn(f, Start(), s);
    var r := Reader(Header, [EMPTY_PART], false);
    assert Start().parts + [EMPTY_PART] == r.parts;
    UploadOk();
    RunHead(f, r, UPLOAD, rest);
    assert BeginBody(r.WithLast(Begun(UPLOAD))) == Uploading();
  }

  /** Cut one byte late for its count, a boundary with a character of several bytes is taken for file data. */
  lemma ShortCountSplits(f: Form)
    requires f.WellFormed() && f.count < |f.boundary|
    ensures var r, a, b := Uploading(), EOL + f.boundary[..f.count], f.boundary[f.count..];
            Run(f, Run(f, r, a).r, Run(f, r, a).held + b) != Run(f, r, a + b)
  {
    hide Run;
    var r, a, b := Uploading(), EOL + f.boundary[..f.count], f.boundary[f.count..];
    assert a + b == EOL + f.boundary;
    assert LookAt(f, a + b) == Ends;
    BodyTurns(f, r, a + b);
    RunKeeps(f, EndBody(r), (a + b)[2..]);
    assert a[2] == DASH && a[3] == DASH && |a| - 2 == f.count;
    assert LookAt(f, a) == Take;
    BodyTurns(f, r, a);
    var x := Run(f, r, a);
    RunKeeps(f, TakeByte(r, a[0]), a[1..]);
    RunKeeps(f, x.r, x.held + b);
    assert [] + [a[0]] == [CR];
    FirstFileByte(TakeByte(r, a[0]), x.r, Run(f, x.r, x.held + b).r);
  }

  lemma FirstFileByte(r: Reader, r1: Reader, r2: Reader)
    requires r.state == File && |r.parts| == 1 && r.parts[0].file == Some([CR]) && Kept(r, r1) && Kept(r1, r2)
    ensures |r2.parts| >= 1 && r2.parts[0].file != Some([])
  {
    KeptTwice(r, r1, r2);
  }

  /** What a program can receive and be told differently: an upload whose end is cut inside the boundary. */
  function CutUpload(f: Form): seq<seq<Byte>>
    requires f.WellFormed()
  {
    [Opening(f) + (EOL + f.boundary[..f.count]), f.boundary[f.count..]]
  }

  lemma CutUploadDiffers(f: Form)
    requires f.WellFormed() && f.count < |f.boundary|
    ensures Feed(f, Result(Start(), []), CutUpload(f)) != Run(f, Start(), Concat(CutUpload(f)))
  {
    hide Run;
    var a, b := EOL + f.boundary[..f.count], f.boundary[f.count..];
    var pieces := CutUpload(f);
    ShortCountSplits(f);
    RunOpening(f, a);
    RunOpening(f, a + b);
    var last: seq<seq<Byte>> := [b];
    assert pieces[1..] == last && last[1..] == [];
    assert Concat(last) == b + Concat(last[1..]);
    assert Concat(pieces) == Opening(f) + (a + b);
    assert [] + pieces[0] == pieces[0];
    var x := Run(f, Start(), pieces[0]);
    assert Feed(f, Result(Start(), []), pieces) == Feed(f, x, last) == Run(f, x.r, x.held + b);
  }

  /**
   * A new reader is indifferent to how its input is cut, whatever the input, if and only if the
   * boundary has as many bytes as characters.
   */
  lemma SplitExactly(f: Form)
    requires f.WellFormed()
    ensures f.count == |f.boundary| <==>
            forall pieces :: Feed(f, Result(Start(), []), pieces) == Run(f, Start(), Concat(pieces))
  {
    hide Run, Feed, Form.WellFormed;
    if f.count == |f.boundary| {
      forall pieces: seq<seq<Byte>>
        ensures Feed(f, Result(Start(), []), pieces) == Run(f, Start(), Concat(pieces))
      {
        SplitIndependence(f, Start(), [], pieces);
        RunNothing(f, Start());
        assert [] + Concat(pieces) == Concat(pieces);
      }
    } else {
      Counted(f);
      CutUploadDiffers(f);
    }
  }

  lemma RunNothing(f: Form, r: Reader)
    requires f.WellFormed() && r.Valid()
    ensures Run(f, r, []) == Result(r, [])
  {
  }

  lemma Counted(f: Form)
    requires f.WellFormed()
    ensures f.count <= |f.boundary|
  {
  }
}
