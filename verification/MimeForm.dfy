// A multipart form as the reader sees it: what one look at the pending bytes does, and
// what a whole run leaves.
module MimeForm {
  import opened Words
  import opened Wrappers
  import opened Utf8

  const DASH: Byte := 45
  const SEMICOLON: Byte := 59
  const QUOTE: Byte := 34

  /** The bytes of an ASCII literal. */
  function Chars(s: string): (bytes: seq<Byte>)
    ensures |bytes| == |s|
  {
    seq(|s|, i requires 0 <= i < |s| => s[i] as int % 256)
  }

  /** The boundary line, which starts with two dashes, and its length in characters. */
  datatype Form = Form(boundary: seq<Byte>, count: nat) {
    predicate WellFormed() {
      2 <= count <= |boundary| && boundary[0] == DASH && boundary[1] == DASH
    }
  }

  datatype State = Idle | Boundary | Header | FieldValue | File | Done | Trapped

  datatype Part = Part(
    fieldName: seq<Byte>, fieldValue: seq<Byte>, pending: Option<seq<Byte>>,
    contentType: seq<Byte>, fileName: seq<Byte>, file: Option<seq<Byte>>)

  const EMPTY_PART := Part([], [], None, [], [], None)

  datatype Reader = Reader(state: State, parts: seq<Part>, gotFile: bool) {
    predicate Valid() {
      && (state in {Header, FieldValue, File} ==> parts != [])
      && (state == FieldValue ==> parts[|parts| - 1].pending.Some?)
      && (state == File ==> parts[|parts| - 1].file.Some?)
    }

    predicate Halted() { state in {Idle, Done, Trapped} }

    function Last(): Part
      requires parts != []
    {
      parts[|parts| - 1]
    }

    function WithLast(p: Part): Reader
      requires parts != []
    {
      this.(parts := parts[..|parts| - 1] + [p])
    }
  }

  // ---- header lines

  function Lower(b: Byte): Byte {
    if 65 <= b <= 90 then b + 32 else b
  }

  predicate SameLetters(a: seq<Byte>, b: seq<Byte>) {
    |a| == |b| && forall i :: 0 <= i < |a| ==> Lower(a[i]) == Lower(b[i])
  }

  /** isField: where the colon stands, if what precedes it begins the name. */
  function FindColon(name: seq<Byte>, s: seq<Byte>): (c: Option<nat>)
    ensures c.Some? ==> c.value < |s| && s[c.value] == COLON
  {
    if s == [] then None
    else if s[0] == COLON then Some(0)
    else if name == [] || Lower(name[0]) != Lower(s[0]) then None
    else
      match FindColon(name[1..], s[1..])
      case Some(c) => Some(c + 1)
      case None => None
  }

  /** The key stands at k, letter case aside. */
  predicate At(key: seq<Byte>, s: seq<Byte>, k: int) {
    0 <= k <= |s| - |key| && SameLetters(key, s[k..k + |key|])
  }

  lemma AtTail(key: seq<Byte>, s: seq<Byte>, k: nat)
    requires s != []
    ensures At(key, s, k + 1) <==> At(key, s[1..], k)
  {
    if k + 1 <= |s| - |key| { assert s[k + 1..k + 1 + |key|] == s[1..][k..k + |key|]; }
  }

  /** rangeOf: the first place a key stands; -1 if there is none. */
  function IndexOf(key: seq<Byte>, s: seq<Byte>): (i: int)
    ensures i == -1 || At(key, s, i)
    ensures forall k :: At(key, s, k) ==> 0 <= i <= k
  {
    if |s| < |key| then -1
    else if At(key, s, 0) then 0
    else if s == [] then -1
    else
      var i := IndexOf(key, s[1..]);
      assert forall k :: At(key, s, k) && k > 0 ==> At(key, s[1..], k - 1) by {
        forall k | At(key, s, k) && k > 0
          ensures At(key, s[1..], k - 1)
        {
          AtTail(key, s, k - 1);
        }
      }
      if i < 0 then -1 else
        AtTail(key, s, i);
        i + 1
  }

  /** Up to the first quote or semicolon. */
  function UpToStop(s: seq<Byte>): (r: seq<Byte>)
    ensures r <= s
  {
    if s == [] || s[0] == QUOTE || s[0] == SEMICOLON then [] else [s[0]] + UpToStop(s[1..])
  }

  /** pullValue; None when it looks past the end of the line. */
  function PullValue(key: seq<Byte>, text: seq<Byte>): Option<seq<Byte>> {
    var i := IndexOf(key, text);
    if i < 0 then Some([])
    else
      var after := text[i + |key|..];
      if after == [] then None
      else Some(UpToStop(if after[0] == QUOTE then after[1..] else after))
  }

  function ContentDisposition(): seq<Byte> { Chars("Content-Disposition") }
  function ContentType(): seq<Byte> { Chars("Content-Type") }
  function NameKey(): seq<Byte> { Chars("name=") }
  function FileNameKey(): seq<Byte> { Chars("filename=") }

  /** A header line, without its end; None for a trap: nothing at all behind the colon, or behind a key. */
  function ReadLine(p: Part, line: seq<Byte>): Option<Part> {
    match FindColon(ContentDisposition(), line)
    case Some(c) =>
      if c + 2 > |line| then None
      else
        var text := Text(line[c + 2..]);
        var name, fileName := PullValue(NameKey(), text), PullValue(FileNameKey(), text);
        if name.None? || fileName.None? then None
        else Some(p.(fieldName := name.value, fileName := fileName.value))
    case None =>
      match FindColon(ContentType(), line)
      case Some(c) => if c + 2 > |line| then None else Some(p.(contentType := Text(line[c + 2..])))
      case None => Some(p)
  }

  /** Where the first line ends; -1 if no end is there yet. */
  function LineEnd(s: seq<Byte>): (i: int)
    ensures -1 <= i < |s|
    ensures i >= 0 ==> i + 2 <= |s| && s[i] == CR && s[i + 1] == LF
    ensures forall k :: 0 <= k < |s| - 1 && (i < 0 || k < i) ==> !(s[k] == CR && s[k + 1] == LF)
  {
    if |s| < 2 then -1
    else if s[0] == CR && s[1] == LF then 0
    else
      var i := LineEnd(s[1..]);
      if i < 0 then -1 else i + 1
  }

  // ---- the body of a part

  /** What the next byte of a body is: part of it, the end of it, or not to be told yet. */
  datatype Look = Take | Ends | Wait

  function LookAt(f: Form, s: seq<Byte>): (l: Look)
    requires s != [] && f.WellFormed()
    ensures l == Ends <==> EOL + f.boundary <= s
  {
    assert EOL + f.boundary <= s <==> |s| >= 2 && s[0] == CR && s[1] == LF && f.boundary <= s[2..] by {
      if EOL + f.boundary <= s { assert s[2..][..|f.boundary|] == (EOL + f.boundary)[2..]; }
      if |s| >= 2 && s[0] == CR && s[1] == LF && f.boundary <= s[2..] { assert s == [s[0], s[1]] + s[2..]; }
    }
    if s[0] != CR then Take
    else if |s| == 1 then Wait
    else if s[1] != LF then Take
    else if f.boundary <= s[2..] then Ends
    else if |s| - 2 < f.count && (|s| < 4 || (s[2] == DASH && s[3] == DASH)) then Wait
    else Take
  }

  function TakeByte(r: Reader, b: Byte): (r': Reader)
    requires r.Valid() && r.state in {FieldValue, File}
    ensures r'.Valid() && r'.state == r.state
  {
    var p := r.Last();
    if r.state == FieldValue then r.WithLast(p.(pending := Some(p.pending.value + [b])))
    else r.WithLast(p.(file := Some(p.file.value + [b]))).(gotFile := true)
  }

  function EndBody(r: Reader): (r': Reader)
    requires r.Valid() && r.state in {FieldValue, File}
    ensures r'.Valid() && r'.state == Boundary
  {
    var p := r.Last();
    if r.state == FieldValue
    then r.WithLast(p.(fieldValue := Text(p.pending.value), pending := None)).(state := Boundary)
    else r.(state := Boundary)
  }

  /** The blank line behind the headers. */
  function BeginBody(r: Reader): (r': Reader)
    requires r.Valid() && r.state == Header
    ensures r'.Valid() && r'.state in {FieldValue, File}
  {
    var p := r.Last();
    if p.fileName != [] then r.WithLast(p.(file := Some([]))).(state := File)
    else r.WithLast(p.(pending := Some([]))).(state := FieldValue)
  }

  // ---- the reader

  datatype Step = Hold | Next(r: Reader, used: nat)

  function Turn(f: Form, r: Reader, s: seq<Byte>): (t: Step)
    requires f.WellFormed() && r.Valid() && !r.Halted() && s != []
    ensures t.Next? ==> t.r.Valid() && 0 < t.used <= |s| && t.r.state != Idle
  {
    if r.state == Boundary then
      if |s| < f.count + 2 then Hold
      else if s[f.count] == DASH && s[f.count + 1] == DASH then Next(r.(state := Done), |s|)
      else Next(r.(state := Header, parts := r.parts + [EMPTY_PART]), f.count + 2)
    else if r.state == Header then
      var eol := LineEnd(s);
      if eol < 0 then Hold
      else if eol == 0 then Next(BeginBody(r), 2)
      else
        var p := ReadLine(r.Last(), s[..eol]);
        if p.None? then Next(r.(state := Trapped), |s|) else Next(r.WithLast(p.value), eol + 2)
    else
      match LookAt(f, s)
      case Take => Next(TakeByte(r, s[0]), 1)
      case Ends => Next(EndBody(r), 2)
      case Wait => Hold
  }

  /** What a call leaves: the reader, and the bytes kept for the next one. */
  datatype Result = Result(r: Reader, held: seq<Byte>)

  function Run(f: Form, r: Reader, s: seq<Byte>): (x: Result)
    requires f.WellFormed() && r.Valid()
    ensures x.r.Valid() && (x.r.Halted() ==> x.held == [])
    decreases |s|
  {
    if s == [] || r.Halted() then Result(r, [])
    else
      match Turn(f, r, s)
      case Hold => Result(r, s)
      case Next(r', n) => Run(f, r', s[n..])
  }

  lemma RunTurn(f: Form, r: Reader, s: seq<Byte>)
    requires f.WellFormed() && r.Valid() && !r.Halted() && s != []
    ensures var t := Turn(f, r, s); Run(f, r, s) == if t.Hold? then Result(r, s) else Run(f, t.r, s[t.used..])
  {
    hide Turn;
  }

  // ---- split independence

  lemma LineEndStable(a: seq<Byte>, b: seq<Byte>)
    ensures LineEnd(a) >= 0 ==> LineEnd(a + b) == LineEnd(a)
  {
    var i, j := LineEnd(a), LineEnd(a + b);
    if i >= 0 {
      assert (a + b)[i] == CR && (a + b)[i + 1] == LF;
      assert j >= 0 && j <= i;
      assert a[j] == (a + b)[j] && a[j + 1] == (a + b)[j + 1];
    }
  }

  lemma LookStable(f: Form, a: seq<Byte>, b: seq<Byte>)
    requires f.WellFormed() && f.count == |f.boundary| && a != []
    ensures LookAt(f, a) != Wait ==> LookAt(f, a + b) == LookAt(f, a)
  {
    if |a| >= 2 && f.boundary <= (a + b)[2..] && !(f.boundary <= a[2..]) {
      assert |a| - 2 < |f.boundary|;
      assert forall i :: 2 <= i < |a| ==> a[i] == (a + b)[2..][i - 2] == f.boundary[i - 2];
    }
  }

  /** More input changes nothing that has been decided. */
  lemma TurnStable(f: Form, r: Reader, a: seq<Byte>, b: seq<Byte>)
    requires f.WellFormed() && f.count == |f.boundary| && r.Valid() && !r.Halted() && a != []
    ensures var t, u := Turn(f, r, a), Turn(f, r, a + b);
            t.Next? ==> u.Next? && u.r == t.r && (t.r.Halted() || u.used == t.used)
  {
    hide LookAt, LineEnd, ReadLine, TakeByte, EndBody, BeginBody;
    LookStable(f, a, b);
    LineEndStable(a, b);
    var eol := LineEnd(a);
    if eol >= 0 { assert (a + b)[..eol] == a[..eol]; }
  }

  /** A run on a, then one on what it held followed by b, is a run on a + b. */
  lemma {:induction false} RunInTwo(f: Form, r: Reader, a: seq<Byte>, b: seq<Byte>)
    requires f.WellFormed() && f.count == |f.boundary| && r.Valid()
    ensures var x := Run(f, r, a); Run(f, x.r, x.held + b) == Run(f, r, a + b)
    decreases |a|
  {
    hide Turn;
    if a == [] || r.Halted() {
      assert [] + b == b && (a == [] ==> a + b == b);
    } else {
      var t := Turn(f, r, a);
      TurnStable(f, r, a, b);
      if t.Next? {
        RunInTwo(f, t.r, a[t.used..], b);
        if !t.r.Halted() { assert (a + b)[t.used..] == a[t.used..] + b; }
      }
    }
  }

  /** One call for each piece. */
  function Feed(f: Form, x: Result, pieces: seq<seq<Byte>>): (y: Result)
    requires f.WellFormed() && x.r.Valid()
    ensures y.r.Valid()
    decreases |pieces|
  {
    if pieces == [] then x else Feed(f, Run(f, x.r, x.held + pieces[0]), pieces[1..])
  }

  /** However the input is cut, the parts, the state and the bytes held are those of one call on all of it. */
  lemma {:induction false} SplitIndependence(f: Form, r: Reader, first: seq<Byte>, pieces: seq<seq<Byte>>)
    requires f.WellFormed() && f.count == |f.boundary| && r.Valid()
    ensures Feed(f, Run(f, r, first), pieces) == Run(f, r, first + Concat(pieces))
    decreases |pieces|
  {
    if pieces == [] {
      assert first + [] == first;
    } else {
      RunInTwo(f, r, first, pieces[0]);
      SplitIndependence(f, r, first + pieces[0], pieces[1..]);
      assert (first + pieces[0]) + Concat(pieces[1..]) == first + Concat(pieces);
    }
  }
}
