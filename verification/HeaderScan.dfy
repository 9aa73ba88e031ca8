// The head of an HTTP request: lines found in a buffer that grows, a request line first,
// then header lines, up to an empty one.
module HeaderScan {
  import opened Words
  import opened Wrappers
  import opened Utf8

  const SPACE: Byte := 32
  const QUESTION: Byte := 63

  /** What the server brings: the key a header's name is stored under, and what it knows of the connection. */
  datatype Server = Server(key: seq<Byte> -> string, known: map<string, seq<Byte>>)

  datatype Head = Head(params: map<string, seq<Byte>>, lastHeaderKey: string)

  /** How a line, or a whole buffer, is taken. */
  datatype Line = Taken(head: Head) | Refused | Trapped

  function UpTo(s: seq<Byte>, b: Byte): (r: seq<Byte>)
    ensures r <= s && b !in r
    ensures |r| < |s| ==> s[|r|] == b
  {
    if s == [] || s[0] == b then [] else [s[0]] + UpTo(s[1..], b)
  }

  /** What follows the first b. */
  function Behind(s: seq<Byte>, b: Byte): seq<Byte> {
    var n := |UpTo(s, b)|;
    if n < |s| then s[n + 1..] else []
  }

  function WithRequest(server: Server, params: map<string, seq<Byte>>, verb: seq<Byte>, uri: seq<Byte>, path: seq<Byte>,
                       query: seq<Byte>, version: seq<Byte>): map<string, seq<Byte>> {
    params["REQUEST_METHOD" := verb]["REQUEST_URI" := uri]["PATH_INFO" := path]
          ["QUERY_STRING" := query]["SERVER_PROTOCOL" := version] + server.known
  }

  /** METHOD PATH_INFO[?QUERY] HVERS */
  function RequestLine(server: Server, head: Head, line: seq<Byte>): Head {
    var text := Text(line);
    var rest := Behind(text, SPACE);
    var uri := UpTo(rest, SPACE);
    head.(params := WithRequest(server, head.params, UpTo(text, SPACE), uri, UpTo(uri, QUESTION), Behind(uri, QUESTION),
                                Behind(rest, SPACE)))
  }

  function SkipWhite(s: seq<Byte>): (r: seq<Byte>)
    ensures |r| <= |s|
  {
    if s != [] && White(s[0]) then SkipWhite(s[1..]) else s
  }

  function HeaderLine(server: Server, head: Head, line: seq<Byte>): Line {
    var name := UpTo(line, COLON);
    if |name| == |line| then Refused
    else
      var key := server.key(Text(name));
      Taken(Head(head.params[key := Text(SkipWhite(line[|name| + 1..]))], key))
  }

  /** A continuation of the last header. Its bytes are looked for from index 0, which the slice does not have. */
  function ContinuationLine(head: Head): Line {
    if head.lastHeaderKey == "" || head.lastHeaderKey !in head.params then Refused else Trapped
  }

  function OneLine(server: Server, head: Head, first: bool, line: seq<Byte>): Line
    requires line != []
  {
    if White(line[0]) then ContinuationLine(head)
    else if first then Taken(RequestLine(server, head, line))
    else HeaderLine(server, head, line)
  }

  // ---- the scan

  /** Where the scan stands: more is needed, with the line begun so far; done, with what follows the head; or given up. */
  datatype Scanned = More(head: Head, first: bool, rest: seq<Byte>) | Accepted(head: Head, body: seq<Byte>) | Bad | Crash

  function Scan(server: Server, head: Head, first: bool, s: seq<Byte>): Scanned
    decreases |s|
  {
    var line := UpTo(s, CR);
    var n := |line|;
    if |s| < n + 2 then More(head, first, s)
    else if s[n + 1] != LF then Bad
    else if n == 0 then Accepted(head, s[2..])
    else
      match OneLine(server, head, first, line)
      case Taken(h) => Scan(server, h, false, s[n + 2..])
      case Refused => Bad
      case Trapped => Crash
  }

  /** A line feed the buffer stands at when more arrives is skipped. */
  function Arrive(server: Server, head: Head, first: bool, s: seq<Byte>): Scanned
    requires s != []
  {
    if s[0] == LF then Scan(server, head, false, s[1..]) else Scan(server, head, first, s)
  }

  /** What was found stays found when more follows. */
  function Followed(x: Scanned, more: seq<Byte>): Scanned {
    match x
    case Accepted(h, body) => Accepted(h, body + more)
    case _ => x
  }

  lemma {:induction false} UpToBehind(a: seq<Byte>, b: seq<Byte>, c: Byte)
    requires c !in a
    ensures UpTo(a + b, c) == a + UpTo(b, c)
  {
    if a == [] {
      assert a + b == b;
    } else {
      assert (a + b)[1..] == a[1..] + b && a == [a[0]] + a[1..];
      UpToBehind(a[1..], b, c);
    }
  }

  /** Where the first return is, and whether a byte follows it. */
  lemma FirstReturn(s: seq<Byte>)
    ensures var n := |UpTo(s, CR)|;
            if |s| < n + 2 then BegunLine(s, n < |s|) else CR !in s[..n] && s[n] == CR
  {
    assert s[..|UpTo(s, CR)|] == UpTo(s, CR);
  }

  /** A scan of a, taken up again with b behind what it left, is a scan of a + b. */
  lemma {:induction false} ScanInTwo(server: Server, head: Head, first: bool, a: seq<Byte>, b: seq<Byte>)
    ensures var x, y := Scan(server, head, first, a), Scan(server, head, first, a + b);
            y == if x.More? then Scan(server, x.head, x.first, x.rest + b) else Followed(x, b)
    decreases |a|
  {
    hide Scan, OneLine, UpTo, BegunLine;
    FirstReturn(a);
    var n := |UpTo(a, CR)|;
    if |a| < n + 2 {
      ScanWaits(server, head, first, a, n < |a|);
    } else {
      assert (a + b)[..n] == a[..n] && (a + b)[n + 2..] == a[n + 2..] + b && (a + b)[2..] == a[2..] + b;
      ScanAt(server, head, first, a, n);
      ScanAt(server, head, first, a + b, n);
      if n > 0 && a[n + 1] == LF {
        var l := OneLine(server, head, first, a[..n]);
        if l.Taken? { ScanInTwo(server, l.head, false, a[n + 2..], b); }
      }
    }
  }

  // ---- any division of the input

  /**
   * No line that is reached can be told from itself without a line feed in front of it. One that
   * begins with a line feed is not complete never, and with a malformed end always; otherwise it
   * is a continuation, and without its line feed the scan must come to the same refusal or trap.
   */
  predicate Steady(server: Server, head: Head, first: bool, s: seq<Byte>)
    decreases |s|
  {
    if s == [] then true
    else if s[0] == LF then
      var n := |UpTo(s, CR)|;
      && |s| >= n + 2
      && (s[n + 1] == LF ==>
            && Scan(server, head, false, s[1..]) == (if ContinuationLine(head).Trapped? then Crash else Bad)
            && Steady(server, head, false, s[1..]))
    else
      var n := |UpTo(s, CR)|;
      |s| >= n + 2 && s[n + 1] == LF && n > 0 ==>
        var l := OneLine(server, head, first, s[..n]);
        l.Taken? ==> Steady(server, l.head, false, s[n + 2..])
  }

  /** Where a line begins with a line feed, a steady head is one in which skipping it makes no difference. */
  lemma SteadyFeed(server: Server, head: Head, first: bool, s: seq<Byte>)
    requires s != [] && s[0] == LF
    ensures Steady(server, head, first, s) <==>
            Scan(server, head, false, s[1..]) == Scan(server, head, first, s) && Steady(server, head, false, s[1..])
  {
    var n := |UpTo(s, CR)|;
    assert |UpTo(s[1..], CR)| == n - 1 && s[1..][n - 1..] == s[n..];
  }

  /** A line that has been taken. */
  lemma SteadyLine(server: Server, head: Head, first: bool, s: seq<Byte>, n: nat)
    requires 0 < n && n + 2 <= |s| && CR !in s[..n] && s[n] == CR && s[n + 1] == LF
    requires OneLine(server, head, first, s[..n]).Taken?
    ensures Steady(server, head, first, s) <==> Steady(server, OneLine(server, head, first, s[..n]).head, false, s[n + 2..])
  {
    hide Scan, RequestLine, HeaderLine, ContinuationLine;
    LineAt(s, n);
    FeedIsWhite(server, head, first, s[..n]);
  }

  /** A line feed begins a continuation, which is never taken. */
  lemma FeedIsWhite(server: Server, head: Head, first: bool, line: seq<Byte>)
    requires line != [] && OneLine(server, head, first, line).Taken?
    ensures line[0] != LF
  {
  }

  lemma {:induction false} SteadyRest(server: Server, head: Head, first: bool, a: seq<Byte>, b: seq<Byte>)
    requires Steady(server, head, first, a + b)
    ensures var x := Scan(server, head, first, a); x.More? ==> Steady(server, x.head, x.first, x.rest + b)
    decreases |a|
  {
    hide Scan, OneLine, UpTo, BegunLine, Steady;
    FirstReturn(a);
    var n := |UpTo(a, CR)|;
    if |a| < n + 2 {
      ScanWaits(server, head, first, a, n < |a|);
    } else {
      assert (a + b)[..n] == a[..n] && (a + b)[n + 2..] == a[n + 2..] + b;
      ScanAt(server, head, first, a, n);
      if n > 0 && a[n + 1] == LF {
        var l := OneLine(server, head, first, a[..n]);
        if l.Taken? {
          SteadyLine(server, head, first, a + b, n);
          SteadyRest(server, l.head, false, a[n + 2..], b);
        }
      }
    }
  }

  /** Reads of at least one byte each, until the head is done. */
  function Feed(server: Server, x: Scanned, pieces: seq<seq<Byte>>): Scanned
    requires [] !in pieces
    decreases |pieces|
  {
    if pieces == [] then x
    else if x.More? then
      assert pieces[0] in pieces;
      Feed(server, Arrive(server, x.head, x.first, x.rest + pieces[0]), pieces[1..])
    else Followed(x, Concat(pieces))
  }

  lemma SteadyStart(server: Server, head: Head, first: bool, s: seq<Byte>)
    requires Steady(server, head, first, s) && s != [] && s[0] == LF
    ensures Scan(server, head, false, s[1..]) == Scan(server, head, first, s) && Steady(server, head, false, s[1..])
  {
    SteadyFeed(server, head, first, s);
  }

  /** However a steady head is cut, the lines taken, the verdict and the body's first byte are those of one read. */
  lemma {:induction false} SplitIndependence(server: Server, head: Head, first: bool, s: seq<Byte>, pieces: seq<seq<Byte>>)
    requires [] !in pieces && Steady(server, head, first, s + Concat(pieces))
    ensures Feed(server, Scan(server, head, first, s), pieces) == Scan(server, head, first, s + Concat(pieces))
    decreases |pieces|
  {
    hide Scan, Steady;
    var x := Scan(server, head, first, s);
    if pieces == [] {
      assert s + [] == s;
    } else {
      ScanInTwo(server, head, first, s, Concat(pieces));
      if x.More? {
        var p, rest := pieces[0], Concat(pieces[1..]);
        assert p in pieces;
        SteadyRest(server, head, first, s, Concat(pieces));
        var t := x.rest + p;
        assert x.rest + Concat(pieces) == t + rest;
        if t[0] == LF {
          SteadyStart(server, x.head, x.first, t + rest);
          assert (t + rest)[1..] == t[1..] + rest;
          SplitIndependence(server, x.head, false, t[1..], pieces[1..]);
        } else {
          SplitIndependence(server, x.head, x.first, t, pieces[1..]);
        }
      }
    }
  }

  /** A way of cutting s: what has been scanned, and what arrives then. */
  predicate Cuts(s: seq<Byte>, p: seq<Byte>, pieces: seq<seq<Byte>>) {
    [] !in pieces && p + Concat(pieces) == s
  }

  /** Cut in this way, s is taken as in one piece. */
  predicate Alike(server: Server, head: Head, first: bool, s: seq<Byte>, p: seq<Byte>, pieces: seq<seq<Byte>>)
    requires [] !in pieces
  {
    Feed(server, Scan(server, head, first, p), pieces) == Scan(server, head, first, s)
  }

  /** A cut that shows: in front of the line feed that makes the difference. */
  lemma {:induction false} UnsteadyCut(server: Server, head: Head, first: bool, s: seq<Byte>)
    returns (p: seq<Byte>, pieces: seq<seq<Byte>>)
    requires !Steady(server, head, first, s)
    ensures Cuts(s, p, pieces) && !Alike(server, head, first, s, p, pieces)
    decreases |s|
  {
    hide Scan, OneLine, UpTo, Feed, Concat;
    if s[0] == LF {
      SteadyFeed(server, head, first, s);
      var rest, qs: seq<seq<Byte>> := s[1..], [];
      if Scan(server, head, false, rest) == Scan(server, head, first, s) {
        rest, qs := UnsteadyCut(server, head, false, s[1..]);
      } else {
        ConcatNothing();
        assert rest + [] == rest;
        FeedNothing(server, Scan(server, head, false, rest));
      }
      p, pieces := [], [[LF] + rest] + qs;
      SkipsFeed(server, head, first, rest, qs);
      assert s == [LF] + s[1..];
      assert [] + (([LF] + rest) + Concat(qs)) == [LF] + (rest + Concat(qs));
    } else {
      FirstReturn(s);
      var n := |UpTo(s, CR)|;
      ScanAt(server, head, first, s, n);
      var l := OneLine(server, head, first, s[..n]);
      var q, qs := UnsteadyCut(server, l.head, false, s[n + 2..]);
      p, pieces := s[..n + 2] + q, qs;
      assert p[..n] == s[..n] && p[n + 2..] == q && p[n] == s[n] && p[n + 1] == s[n + 1];
      ScanAt(server, head, first, p, n);
      assert p + Concat(qs) == s[..n + 2] + (q + Concat(qs));
    }
  }

  lemma ConcatNothing()
    ensures Concat([]) == []
  {
  }

  lemma FeedNothing(server: Server, x: Scanned)
    ensures Feed(server, x, []) == x
  {
  }

  /** A read that begins with a line feed, where a line begins. */
  lemma SkipsFeed(server: Server, head: Head, first: bool, rest: seq<Byte>, pieces: seq<seq<Byte>>)
    requires [] !in pieces
    ensures var all := [[LF] + rest] + pieces;
            && [] !in all && Concat(all) == ([LF] + rest) + Concat(pieces)
            && Feed(server, Scan(server, head, first, []), all) == Feed(server, Scan(server, head, false, rest), pieces)
  {
    hide Scan;
    var all := [[LF] + rest] + pieces;
    ScanNothing(server, head, first);
    assert all[1..] == pieces && [] + all[0] == [LF] + rest && ([LF] + rest)[1..] == rest;
  }

  /** Every division of s is taken alike if and only if s is steady. */
  lemma SplitExactly(server: Server, head: Head, first: bool, s: seq<Byte>)
    ensures (forall p, pieces :: Cuts(s, p, pieces) ==> Alike(server, head, first, s, p, pieces)) <==>
            Steady(server, head, first, s)
  {
    hide Steady, Scan, Feed, Concat;
    if Steady(server, head, first, s) {
      forall p, pieces | Cuts(s, p, pieces)
        ensures Alike(server, head, first, s, p, pieces)
      {
        SplitIndependence(server, head, first, p, pieces);
      }
    } else {
      var p, pieces := UnsteadyCut(server, head, first, s);
    }
  }

  /** What is left to be steady when the reads of a program begin with s: it skips a line feed at the very start. */
  function FromStart(s: seq<Byte>): seq<Byte> {
    if s != [] && s[0] == LF then s[1..] else s
  }

  predicate ReadAlike(server: Server, head: Head, first: bool, s: seq<Byte>, deliveries: seq<seq<Byte>>)
    requires s != [] && [] !in deliveries
  {
    Feed(server, More(head, first, []), deliveries) == Arrive(server, head, first, s)
  }

  /** The same for the reads of a program: all divisions agree with one read if and only if what follows such a line feed is steady. */
  lemma ReadsExactly(server: Server, head: Head, first: bool, s: seq<Byte>)
    requires s != []
    ensures (forall deliveries :: [] !in deliveries && Concat(deliveries) == s ==> ReadAlike(server, head, first, s, deliveries)) <==>
            Steady(server, head, first && s[0] != LF, FromStart(s))
  {
    hide Steady, Scan, Feed, Concat;
    var t, f := FromStart(s), first && s[0] != LF;
    if Steady(server, head, f, t) {
      forall deliveries | [] !in deliveries && Concat(deliveries) == s
        ensures ReadAlike(server, head, first, s, deliveries)
      {
        FirstRead(server, head, first, s, deliveries);
        SplitIndependence(server, head, f, FromStart(deliveries[0]), deliveries[1..]);
      }
    } else {
      var p, pieces := UnsteadyCut(server, head, f, t);
      ScanNothing(server, head, first);
      var deliveries := if s[0] == LF then [[LF] + p] + pieces else if p == [] then pieces else [p] + pieces;
      if s[0] == LF {
        SkipsFeed(server, head, first, p, pieces);
        assert s == [LF] + t;
        assert ([LF] + p) + Concat(pieces) == [LF] + (p + Concat(pieces));
      } else if p == [] {
        assert [] + Concat(pieces) == Concat(pieces);
      } else {
        TakesFirst(server, head, first, p, pieces);
        assert p[0] == s[0];
      }
      assert !ReadAlike(server, head, first, s, deliveries);
    }
  }

  lemma FirstRead(server: Server, head: Head, first: bool, s: seq<Byte>, deliveries: seq<seq<Byte>>)
    requires s != [] && [] !in deliveries && Concat(deliveries) == s
    ensures deliveries != [] && [] !in deliveries[1..] && FromStart(deliveries[0]) + Concat(deliveries[1..]) == FromStart(s)
    ensures Feed(server, More(head, first, []), deliveries) ==
            Feed(server, Scan(server, head, first && s[0] != LF, FromStart(deliveries[0])), deliveries[1..])
  {
    hide Scan, Feed, Concat;
    ConcatNothing();
    var p, rest := deliveries[0], deliveries[1..];
    assert p in deliveries && deliveries == [p] + rest;
    TakesFirst(server, head, first, p, rest);
    assert s == p + Concat(rest) && s[0] == p[0] && (p + Concat(rest))[1..] == p[1..] + Concat(rest);
  }

  lemma TakesFirst(server: Server, head: Head, first: bool, p: seq<Byte>, pieces: seq<seq<Byte>>)
    requires p != [] && [] !in pieces
    ensures var all := [p] + pieces;
            && [] !in all && Concat(all) == p + Concat(pieces)
            && Feed(server, More(head, first, []), all) == Feed(server, Arrive(server, head, first, p), pieces)
  {
    hide Arrive;
    var all := [p] + pieces;
    assert all[1..] == pieces && [] + p == p;
  }

  // ---- heads without such lines

  /** No line that is reached begins with a line feed. */
  predicate Tidy(s: seq<Byte>)
    decreases |s|
  {
    s == [] || (s[0] != LF
                && var n := |UpTo(s, CR)|; |s| >= n + 2 && s[n + 1] == LF && n > 0 ==> Tidy(s[n + 2..]))
  }

  lemma {:induction false} TidyIsSteady(server: Server, head: Head, first: bool, s: seq<Byte>)
    requires Tidy(s)
    ensures Steady(server, head, first, s)
    decreases |s|
  {
    hide Scan, OneLine, UpTo;
    if s != [] {
      var n := |UpTo(s, CR)|;
      if |s| >= n + 2 && s[n + 1] == LF && n > 0 {
        var l := OneLine(server, head, first, s[..n]);
        if l.Taken? { TidyIsSteady(server, l.head, false, s[n + 2..]); }
      }
    }
  }

  /** A head that one read accepts has no line that begins with a line feed. */
  lemma {:induction false} AcceptedIsTidy(server: Server, head: Head, first: bool, s: seq<Byte>)
    requires Scan(server, head, first, s).Accepted?
    ensures Tidy(s)
    decreases |s|
  {
    hide UpTo, HeaderLine, RequestLine;
    var n := |UpTo(s, CR)|;
    if n > 0 {
      var l := OneLine(server, head, first, UpTo(s, CR));
      assert l.Taken? && UpTo(s, CR)[0] == s[0];
      AcceptedIsTidy(server, l.head, false, s[n + 2..]);
    }
  }

  /** What one read accepts is accepted, with the same parameters and body, however it is cut. */
  lemma AcceptedHoweverCut(server: Server, head: Head, s: seq<Byte>, pieces: seq<seq<Byte>>)
    requires [] !in pieces && Concat(pieces) == s && Scan(server, head, true, s).Accepted?
    ensures Feed(server, More(head, true, []), pieces) == Scan(server, head, true, s)
  {
    hide Scan, Feed, Tidy, Steady;
    AcceptedIsTidy(server, head, true, s);
    TidyIsSteady(server, head, true, s);
    assert [] + s == s;
    ScanNothing(server, head, true);
    SplitIndependence(server, head, true, [], pieces);
  }

  /** A scan whose first return is at n. */
  lemma ScanAt(server: Server, head: Head, first: bool, s: seq<Byte>, n: nat)
    requires n + 1 < |s| && CR !in s[..n] && s[n] == CR
    ensures var x := Scan(server, head, first, s);
            if s[n + 1] != LF then x == Bad
            else if n == 0 then x == Accepted(head, s[2..])
            else var l := OneLine(server, head, first, s[..n]);
                 x == if l.Taken? then Scan(server, l.head, false, s[n + 2..]) else if l.Refused? then Bad else Crash
  {
    hide OneLine, UpTo;
    LineAt(s, n);
  }

  /** The beginning of a line, up to and with its return when atReturn is set. */
  predicate BegunLine(s: seq<Byte>, atReturn: bool) {
    if atReturn then s != [] && s[|s| - 1] == CR && CR !in s[..|s| - 1] else CR !in s
  }

  /** A scan that has no whole line end yet. */
  lemma ScanWaits(server: Server, head: Head, first: bool, s: seq<Byte>, atReturn: bool)
    requires BegunLine(s, atReturn)
    ensures Scan(server, head, first, s) == More(head, first, s)
  {
    hide OneLine, UpTo;
    LineAt(s, if atReturn then |s| - 1 else |s|);
  }

  /** One line, and what follows it. */
  lemma ScanLine(server: Server, head: Head, first: bool, line: seq<Byte>, rest: seq<Byte>)
    requires CR !in line && line != []
    ensures var l := OneLine(server, head, first, line);
            Scan(server, head, first, line + EOL + rest) ==
            if l.Taken? then Scan(server, l.head, false, rest) else if l.Refused? then Bad else Crash
  {
    hide OneLine, UpTo;
    var s, n := line + EOL + rest, |line|;
    assert s[..n] == line && s[n] == CR && s[n + 1] == LF && s[n + 2..] == rest;
    ScanAt(server, head, first, s, n);
  }

  /** A line that begins with white space is never taken. */
  lemma ContinuationExact(server: Server, head: Head, first: bool, line: seq<Byte>, rest: seq<Byte>)
    requires line != [] && White(line[0]) && CR !in line
    ensures Scan(server, head, first, line + EOL + rest) ==
            if head.lastHeaderKey != "" && head.lastHeaderKey in head.params then Crash else Bad
  {
    hide Scan;
    ScanLine(server, head, first, line, rest);
  }

  lemma ScanBlank(server: Server, head: Head, first: bool, rest: seq<Byte>)
    ensures Scan(server, head, first, EOL + rest) == Accepted(head, rest)
  {
    var s := EOL + rest;
    assert s[0] == CR && s[1] == LF && s[2..] == rest;
    ScanAt(server, head, first, s, 0);
  }

  /** A line that does begin with a line feed is refused or taken, depending on where the read ends. */
  lemma LineFeedSplits(server: Server)
    ensures var head := Head(map[], "");
            var a, b := [71] + EOL + [], [LF, 65, COLON] + EOL + (EOL + []);
            Scan(server, head, true, a + b) == Bad && Feed(server, Scan(server, head, true, a), [b]).Accepted?
  {
    hide Scan;
    var head := Head(map[], "");
    var a, b := [71] + EOL + [], [LF, 65, COLON] + EOL + (EOL + []);
    assert a + b == [71] + EOL + b;
    ScanLine(server, head, true, [71], b);
    ScanLine(server, head, true, [71], []);
    var h := RequestLine(server, head, [71]);
    ScanLine(server, h, false, [LF, 65, COLON], EOL + []);
    ScanNothing(server, h, false);
    assert [] + b == b && b[1..] == [65, COLON] + EOL + (EOL + []);
    ScanLine(server, h, false, [65, COLON], EOL + []);
    UpToSplit([65], COLON, []);
    assert [65] + [COLON] + [] == [65, COLON];
    ScanBlank(server, HeaderLine(server, h, [65, COLON]).head, false, []);
  }

  lemma ScanNothing(server: Server, head: Head, first: bool)
    ensures Scan(server, head, first, []) == More(head, first, [])
  {
  }

  /** The line that ends at the first return. */
  lemma {:induction false} LineAt(s: seq<Byte>, n: nat)
    requires n <= |s| && CR !in s[..n] && (n < |s| ==> s[n] == CR)
    ensures UpTo(s, CR) == s[..n]
  {
    if n > 0 {
      assert s[0] in s[..n] && s[1..][..n - 1] == s[..n][1..];
      LineAt(s[1..], n - 1);
    }
  }

  lemma UpToSplit(a: seq<Byte>, c: Byte, rest: seq<Byte>)
    requires c !in a
    ensures UpTo(a + [c] + rest, c) == a && Behind(a + [c] + rest, c) == rest
  {
    assert a + [c] + rest == a + ([c] + rest);
    UpToBehind(a, [c] + rest, c);
    assert UpTo([c] + rest, c) == [];
  }

  lemma UpToStep(s: seq<Byte>, c: Byte)
    requires s != []
    ensures UpTo(s, c) == if s[0] == c then [] else [s[0]] + UpTo(s[1..], c)
    ensures Behind(s, c) == if s[0] == c then s[1..] else Behind(s[1..], c)
  {
  }

  lemma {:induction false} UpToNone(a: seq<Byte>, c: Byte)
    requires c !in a
    ensures UpTo(a, c) == a && Behind(a, c) == []
  {
    UpToBehind(a, [], c);
    assert a + [] == a;
  }

  // ---- the head of a request, written out

  datatype Request = Request(verb: seq<Byte>, path: seq<Byte>, query: Option<seq<Byte>>, version: seq<Byte>)

  /** A header, with the blanks and tabs in front of its value. */
  datatype Header = Header(name: seq<Byte>, gap: seq<Byte>, value: seq<Byte>)

  function Uri(r: Request): seq<Byte> {
    if r.query.Some? then r.path + [63] + r.query.value else r.path
  }

  function RequestText(r: Request): seq<Byte> {
    r.verb + [32] + (Uri(r) + [32] + r.version)
  }

  function HeaderText(h: Header): seq<Byte> {
    h.name + [58] + (h.gap + h.value)
  }

  function HeadersText(hs: seq<Header>): seq<Byte> {
    if hs == [] then [13, 10] else HeaderText(hs[0]) + [13, 10] + HeadersText(hs[1..])
  }

  function HeadText(r: Request, hs: seq<Header>): seq<Byte> {
    RequestText(r) + [13, 10] + HeadersText(hs)
  }

  /** No parts that would run into each other. */
  predicate RequestOk(r: Request) {
    && r.verb != [] && !White(r.verb[0]) && 32 !in r.verb && 32 !in Uri(r) && 63 !in r.path
    && 13 !in RequestText(r) && Text(RequestText(r)) == RequestText(r)
  }

  predicate HeaderOk(h: Header) {
    && h.name != [] && !White(h.name[0]) && 58 !in h.name && Text(h.name) == h.name
    && (forall b :: b in h.gap ==> b == 32 || b == 9)
    && 13 !in HeaderText(h) && (h.value != [] ==> !White(h.value[0])) && Text(h.value) == h.value
  }

  /** The parameters a request line sets. */
  function Requested(server: Server, r: Request): map<string, seq<Byte>> {
    map["REQUEST_METHOD" := r.verb, "REQUEST_URI" := Uri(r), "PATH_INFO" := r.path,
        "QUERY_STRING" := if r.query.Some? then r.query.value else [], "SERVER_PROTOCOL" := r.version] + server.known
  }

  lemma RequestStored(server: Server, params: map<string, seq<Byte>>, r: Request)
    ensures WithRequest(server, params, r.verb, Uri(r), r.path, if r.query.Some? then r.query.value else [], r.version) ==
            params + Requested(server, r)
  {
  }

  lemma RequestRead(server: Server, head: Head, r: Request)
    requires RequestOk(r)
    ensures RequestLine(server, head, RequestText(r)) == head.(params := head.params + Requested(server, r))
  {
    hide UpTo, Text, White, Behind, WithRequest;
    var rest := Uri(r) + [SPACE] + r.version;
    UpToSplit(r.verb, SPACE, rest);
    UpToSplit(Uri(r), SPACE, r.version);
    if r.query.Some? { UpToSplit(r.path, QUESTION, r.query.value); } else { UpToNone(r.path, QUESTION); }
    var query := if r.query.Some? then r.query.value else [];
    assert RequestLine(server, head, RequestText(r)) ==
           head.(params := WithRequest(server, head.params, r.verb, Uri(r), r.path, query, r.version));
    RequestStored(server, head.params, r);
  }

  lemma HeaderRead(server: Server, head: Head, h: Header)
    requires HeaderOk(h)
    ensures HeaderLine(server, head, HeaderText(h)) == Taken(Head(head.params[server.key(h.name) := h.value], server.key(h.name)))
  {
    hide UpTo, Text;
    UpToSplit(h.name, COLON, h.gap + h.value);
    var line := HeaderText(h);
    assert line[|h.name| + 1..] == h.gap + h.value;
    GapSkipped(h.gap, h.value);
  }

  lemma {:induction false} GapSkipped(gap: seq<Byte>, value: seq<Byte>)
    requires (forall b :: b in gap ==> b == 32 || b == 9) && (value != [] ==> !White(value[0]))
    ensures SkipWhite(gap + value) == value
  {
    if gap == [] {
      assert gap + value == value;
    } else {
      assert gap[0] in gap && (gap + value)[1..] == gap[1..] + value;
      assert forall b :: b in gap[1..] ==> b in gap;
      GapSkipped(gap[1..], value);
    }
  }

  // ---- lines that are refused

  /** A header line without a colon. */
  lemma NoColonIsRefused(server: Server, head: Head, line: seq<Byte>, rest: seq<Byte>)
    requires line != [] && !White(line[0]) && 58 !in line && 13 !in line
    ensures Scan(server, head, false, line + [13, 10] + rest) == Bad
  {
    hide Scan, UpTo;
    UpToNone(line, COLON);
    assert line + [13, 10] + rest == line + EOL + rest;
    ScanLine(server, head, false, line, rest);
  }

  /** A line whose return is not followed by a line feed, wherever it stands. */
  lemma LoneReturnIsRefused(server: Server, head: Head, first: bool, line: seq<Byte>, b: Byte, rest: seq<Byte>)
    requires 13 !in line && b != 10
    ensures Scan(server, head, first, line + [13, b] + rest) == Bad
  {
    hide UpTo, OneLine;
    var s, n := line + [13, b] + rest, |line|;
    assert s[..n] == line && s[n] == 13 && s[n + 1] == b;
    ScanAt(server, head, first, s, n);
  }

  /** Every header stored under its key, the later over the earlier. */
  function Filled(server: Server, head: Head, hs: seq<Header>): Head
    decreases |hs|
  {
    if hs == [] then head
    else Filled(server, Head(head.params[server.key(hs[0].name) := hs[0].value], server.key(hs[0].name)), hs[1..])
  }

  lemma {:induction false} HeadersRead(server: Server, head: Head, hs: seq<Header>, body: seq<Byte>)
    requires forall h :: h in hs ==> HeaderOk(h)
    ensures Scan(server, head, false, HeadersText(hs) + body) == Accepted(Filled(server, head, hs), body)
    decreases |hs|
  {
    hide Scan, UpTo, Text, HeaderLine;
    if hs == [] {
      ScanBlank(server, head, false, body);
    } else {
      var h, rest := hs[0], HeadersText(hs[1..]) + body;
      assert h in hs;
      assert HeadersText(hs) + body == HeaderText(h) + EOL + rest;
      ScanLine(server, head, false, HeaderText(h), rest);
      assert HeaderText(h)[0] == h.name[0];
      HeaderRead(server, head, h);
      HeadersRead(server, Head(head.params[server.key(h.name) := h.value], server.key(h.name)), hs[1..], body);
    }
  }

  /** The whole head read back in one piece: each line taken once, in order, and the body left where it begins. */
  lemma HeadRead(server: Server, r: Request, hs: seq<Header>, body: seq<Byte>)
    requires RequestOk(r) && forall h :: h in hs ==> HeaderOk(h)
    ensures Scan(server, Head(map[], ""), true, HeadText(r, hs) + body) ==
            Accepted(Filled(server, Head(Requested(server, r), ""), hs), body)
  {
    assert HeadText(r, hs) + body == RequestText(r) + EOL + (HeadersText(hs) + body);
    hide *;
    var head := Head(map[], "");
    RequestIsLine(r);
    ScanLine(server, head, true, RequestText(r), HeadersText(hs) + body);
    FirstLine(server, head, RequestText(r));
    RequestRead(server, head, r);
    assert map[] + Requested(server, r) == Requested(server, r);
    HeadersRead(server, Head(Requested(server, r), ""), hs, body);
  }

  lemma RequestIsLine(r: Request)
    requires RequestOk(r)
    ensures RequestText(r) != [] && !White(RequestText(r)[0]) && CR !in RequestText(r)
  {
    assert RequestText(r)[0] == r.verb[0];
  }

  lemma FirstLine(server: Server, head: Head, line: seq<Byte>)
    requires line != [] && !White(line[0])
    ensures OneLine(server, head, true, line) == Taken(RequestLine(server, head, line))
  {
  }

  /** And read back in any number of pieces. */
  lemma HeadReadInPieces(server: Server, r: Request, hs: seq<Header>, body: seq<Byte>, pieces: seq<seq<Byte>>)
    requires RequestOk(r) && forall h :: h in hs ==> HeaderOk(h)
    requires [] !in pieces && Concat(pieces) == HeadText(r, hs) + body
    ensures Feed(server, More(Head(map[], ""), true, []), pieces) ==
            Accepted(Filled(server, Head(Requested(server, r), ""), hs), body)
  {
    hide Scan, Feed;
    HeadRead(server, r, hs, body);
    AcceptedHoweverCut(server, Head(map[], ""), HeadText(r, hs) + body, pieces);
  }
}
