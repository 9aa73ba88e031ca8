// The connection that collects a request head: one growing buffer, an offset into it, and
// the parameters found so far.
module HttpConnection {
  import opened Words
  import opened Wrappers
  import opened Utf8
  import opened HeaderScan

  /** What the callback is told, or that more is read first, or a runtime trap. */
  datatype Verdict = ReadsOn | Ok | Failed | Fault

  /** The line that ends at i, in the buffer's own indices. */
  lemma SegmentAt(server: Server, head: Head, buffer: seq<Byte>, start: nat, i: nat)
    requires start < i < |buffer| && CR !in buffer[start..i - 1] && buffer[i - 1] == CR
    ensures var x := Scan(server, head, start == 0, buffer[start..]);
            if buffer[i] != LF then x == Bad
            else if start == i - 1 then x == Accepted(head, buffer[i + 1..])
            else var l := OneLine(server, head, start == 0, buffer[start..i - 1]);
                 x == if l.Taken? then Scan(server, l.head, false, buffer[i + 1..]) else if l.Refused? then Bad else Crash
  {
    hide OneLine, Scan;
    var s, n := buffer[start..], i - 1 - start;
    assert s[..n] == buffer[start..i - 1] && s[n + 2..] == buffer[i + 1..] && s[n] == buffer[i - 1] && s[n + 1] == buffer[i];
    if n == 0 { assert s[2..] == buffer[i + 1..]; }
    ScanAt(server, head, start == 0, s, n);
  }

  lemma BegunLineGrows(buffer: seq<Byte>, start: nat, i: nat)
    requires start <= i < |buffer| && BegunLine(buffer[start..i], false)
    ensures BegunLine(buffer[start..i + 1], buffer[i] == CR)
  {
    var s := buffer[start..i + 1];
    assert s == buffer[start..i] + [buffer[i]] && s[..|s| - 1] == buffer[start..i];
  }

  class HTTPWebConnection {
    const server: Server
    var requestParams: map<string, seq<Byte>>
    var workingBuffer: seq<Byte>
    var workingBufferOffset: nat
    var lastHeaderKey: string

    /** No header has been read before the first line has. */
    predicate Valid()
      reads this
    {
      workingBufferOffset <= |workingBuffer| && (workingBufferOffset == 0 ==> lastHeaderKey == "")
    }

    function Now(): Head
      reads this
    {
      Head(requestParams, lastHeaderKey)
    }

    /** Where the scan stands after a verdict. */
    function Outcome(verdict: Verdict): Scanned
      requires Valid()
      reads this
    {
      match verdict
      case ReadsOn => More(Now(), workingBufferOffset == 0, workingBuffer[workingBufferOffset..])
      case Ok => Accepted(Now(), workingBuffer[workingBufferOffset..])
      case Failed => Bad
      case Fault => Crash
    }

    constructor (server: Server)
      ensures this.server == server && Valid()
      ensures Outcome(ReadsOn) == More(Head(map[], ""), true, [])
    {
      this.server := server;
      requestParams, workingBuffer, workingBufferOffset, lastHeaderKey := map[], [], 0, "";
    }

    method ProcessRequestLine(h: seq<Byte>)
      modifies this`requestParams
      ensures Now() == RequestLine(server, old(Now()), h)
    {
      hide Text, UpTo, Behind, WithRequest;
      var verb, gen := TakeWord(Text(h));
      var uri, pathInfo, queryString, rest := TakeUri(gen);
      var hvers := [];
      gen := rest;
      while gen != []
        invariant rest == hvers + gen
        decreases |gen|
      {
        hvers, gen := hvers + [gen[0]], gen[1..];
      }
      assert hvers == hvers + gen == rest;
      requestParams := WithRequest(server, requestParams, verb, uri, pathInfo, queryString, hvers);
    }

    /** The characters before the first space, and those behind it. */
    static method TakeWord(text: seq<Byte>) returns (word: seq<Byte>, gen: seq<Byte>)
      ensures word == UpTo(text, SPACE) && gen == Behind(text, SPACE)
    {
      hide UpTo, Behind;
      word, gen := [], text;
      while gen != []
        invariant UpTo(text, SPACE) == word + UpTo(gen, SPACE) && Behind(text, SPACE) == Behind(gen, SPACE)
        decreases |gen|
      {
        UpToStep(gen, SPACE);
        var c := gen[0];
        gen := gen[1..];
        if c == SPACE { return; }
        word := word + [c];
      }
      UpToNone(gen, SPACE);
    }

    /** The same, with the parts before and behind the first question mark of the word. */
    static method TakeUri(text: seq<Byte>) returns (uri: seq<Byte>, pathInfo: seq<Byte>, queryString: seq<Byte>, gen: seq<Byte>)
      ensures uri == UpTo(text, SPACE) && gen == Behind(text, SPACE)
      ensures pathInfo == UpTo(uri, QUESTION) && queryString == Behind(uri, QUESTION)
    {
      hide UpTo, Behind;
      gen, uri, pathInfo, queryString := text, [], [], [];
      var gotQuest := false;
      while gen != []
        invariant UpTo(text, SPACE) == uri + UpTo(gen, SPACE) && Behind(text, SPACE) == Behind(gen, SPACE)
        invariant uri == if gotQuest then pathInfo + [QUESTION] + queryString else pathInfo
        invariant QUESTION !in pathInfo && (!gotQuest ==> queryString == [])
        decreases |gen|
      {
        UpToStep(gen, SPACE);
        var c := gen[0];
        gen := gen[1..];
        if c == SPACE { break; }
        if gotQuest {
          queryString := queryString + [c];
        } else if c == QUESTION {
          gotQuest := true;
        } else {
          pathInfo := pathInfo + [c];
        }
        uri := uri + [c];
      }
      if gen == [] { UpToNone(gen, SPACE); }
      assert uri + [] == uri;
      if gotQuest { UpToSplit(pathInfo, QUESTION, queryString); } else { UpToNone(pathInfo, QUESTION); }
    }

    method ProcessHeaderLine(h: seq<Byte>) returns (ok: bool)
      modifies this`requestParams, this`lastHeaderKey
      ensures HeaderLine(server, old(Now()), h) == if ok then Taken(Now()) else Refused
      ensures !ok ==> Now() == old(Now())
    {
      hide Text;
      for i := 0 to |h|
        invariant COLON !in h[..i]
        invariant Now() == old(Now())
      {
        if h[i] == COLON {
          assert h == h[..i] + [COLON] + h[i + 1..];
          UpToSplit(h[..i], COLON, h[i + 1..]);
          var headerKey := server.key(Text(h[..i]));
          var i2 := i + 1;
          while i2 < |h|
            invariant i < i2 <= |h| && SkipWhite(h[i2..]) == SkipWhite(h[i + 1..])
          {
            if !White(h[i2]) { break; }
            assert h[i2..][1..] == h[i2 + 1..];
            i2 := i2 + 1;
          }
          assert SkipWhite(h[i2..]) == h[i2..];
          requestParams := requestParams[headerKey := Text(h[i2..])];
          lastHeaderKey := headerKey;
          return true;
        }
      }
      assert h[..|h|] == h;
      UpToNone(h, COLON);
      return false;
    }

    /** The slice from `start`; its first access is at index 0, which it has only when it starts there. */
    method ProcessHeaderContinuation(start: nat, end: nat) returns (line: Line)
      requires start < end <= |workingBuffer| && (start == 0 ==> lastHeaderKey == "")
      ensures line == ContinuationLine(Now())
    {
      if lastHeaderKey == "" || lastHeaderKey !in requestParams { return Refused; }
      return Trapped;
    }

    /** What one complete line does. */
    method ProcessSegment(start: nat, end: nat) returns (line: Line)
      requires start < end <= |workingBuffer| && (start == 0 ==> lastHeaderKey == "")
      modifies this`requestParams, this`lastHeaderKey
      ensures line.Taken? ==> line.head == Now()
      ensures line == OneLine(server, old(Now()), start == 0, workingBuffer[start..end])
    {
      hide RequestLine, HeaderLine, White;
      var segment := workingBuffer[start..end];
      if White(segment[0]) {
        line := ProcessHeaderContinuation(start, end);
      } else if start == 0 {
        ProcessRequestLine(segment);
        line := Taken(Head(requestParams, lastHeaderKey));
      } else {
        var ok := ProcessHeaderLine(segment);
        line := if ok then Taken(Head(requestParams, lastHeaderKey)) else Refused;
      }
    }

    /** The return before i has its line feed at i, or is malformed. ReadsOn when the next line is to be looked for. */
    method ProcessLineEnd(i: nat) returns (verdict: Verdict)
      requires Valid() && workingBufferOffset < i < |workingBuffer|
      requires CR !in workingBuffer[workingBufferOffset..i - 1] && workingBuffer[i - 1] == CR
      modifies this`requestParams, this`lastHeaderKey, this`workingBufferOffset
      ensures Valid() && (verdict == ReadsOn ==> workingBufferOffset == i + 1)
      ensures old(Scan(server, Now(), workingBufferOffset == 0, workingBuffer[workingBufferOffset..])) ==
              if verdict == ReadsOn then Scan(server, Now(), false, workingBuffer[i + 1..]) else Outcome(verdict)
    {
      hide OneLine, Scan;
      SegmentAt(server, Now(), workingBuffer, workingBufferOffset, i);
      if workingBuffer[i] != LF { return Failed; }
      var start := workingBufferOffset;
      workingBufferOffset := i + 1;
      if start == i - 1 { return Ok; }
      var line := ProcessSegment(start, i - 1);
      return if line.Taken? then ReadsOn else if line.Refused? then Failed else Fault;
    }

    /** A line feed here is the rest of a line end that the last read cut in two. */
    method ScanWorkingBuffer() returns (verdict: Verdict)
      requires Valid() && workingBufferOffset < |workingBuffer|
      modifies this`requestParams, this`lastHeaderKey, this`workingBufferOffset
      ensures Valid()
      ensures Outcome(verdict) == Arrive(server, old(Now()), old(workingBufferOffset) == 0, old(workingBuffer[workingBufferOffset..]))
    {
      hide Scan;
      ghost var was := workingBuffer[workingBufferOffset..];
      if workingBuffer[workingBufferOffset] == LF {
        workingBufferOffset := workingBufferOffset + 1;
        assert was[1..] == workingBuffer[workingBufferOffset..];
      }
      verdict := ScanLines();
    }

    method ScanLines() returns (verdict: Verdict)
      requires Valid()
      modifies this`requestParams, this`lastHeaderKey, this`workingBufferOffset
      ensures Valid()
      ensures Outcome(verdict) == old(Scan(server, Now(), workingBufferOffset == 0, workingBuffer[workingBufferOffset..]))
    {
      hide Scan;
      var lastWasCr := false;
      var i := workingBufferOffset;
      while i < |workingBuffer|
        invariant workingBufferOffset <= i <= |workingBuffer| && Valid()
        invariant BegunLine(workingBuffer[workingBufferOffset..i], lastWasCr)
        invariant old(Scan(server, Now(), workingBufferOffset == 0, workingBuffer[workingBufferOffset..])) ==
                  Scan(server, Now(), workingBufferOffset == 0, workingBuffer[workingBufferOffset..])
      {
        if lastWasCr {
          assert workingBuffer[workingBufferOffset..i - 1] == workingBuffer[workingBufferOffset..i][..i - 1 - workingBufferOffset];
          verdict := ProcessLineEnd(i);
          if verdict != ReadsOn { return; }
          lastWasCr := false;
        } else {
          lastWasCr := workingBuffer[i] == CR;
          BegunLineGrows(workingBuffer, workingBufferOffset, i);
        }
        i := i + 1;
      }
      assert workingBuffer[workingBufferOffset..i] == workingBuffer[workingBufferOffset..];
      ScanWaits(server, Now(), workingBufferOffset == 0, workingBuffer[workingBufferOffset..], lastWasCr);
      return ReadsOn;
    }

    /** None when the read failed, nothing when nothing was there yet. */
    method DidReadHeaderData(b: Option<seq<Byte>>) returns (verdict: Verdict)
      requires Valid()
      modifies this
      ensures Valid()
      ensures Outcome(verdict) ==
              if b.None? then Bad
              else if b.value == [] then old(Outcome(ReadsOn))
              else Arrive(server, old(Now()), old(workingBufferOffset) == 0, old(workingBuffer[workingBufferOffset..]) + b.value)
    {
      hide Arrive;
      if b.None? { return Failed; }
      if b.value == [] { return ReadsOn; }
      assert (workingBuffer + b.value)[workingBufferOffset..] == workingBuffer[workingBufferOffset..] + b.value;
      workingBuffer := workingBuffer + b.value;
      verdict := ScanWorkingBuffer();
    }

    /** Reads until the head is done, `used` of them. */
    method ReadHeaders(pieces: seq<seq<Byte>>) returns (verdict: Verdict, used: nat)
      requires Valid() && [] !in pieces
      modifies this
      ensures Valid() && used <= |pieces| && (verdict == ReadsOn ==> used == |pieces|)
      ensures Feed(server, old(Outcome(ReadsOn)), pieces) == Followed(Outcome(verdict), Concat(pieces[used..]))
    {
      hide Arrive;
      verdict, used := ReadsOn, 0;
      ghost var all := Feed(server, Outcome(ReadsOn), pieces);
      while used < |pieces| && verdict == ReadsOn
        invariant Valid() && used <= |pieces|
        invariant all == Feed(server, Outcome(verdict), pieces[used..])
      {
        assert pieces[used..][1..] == pieces[used + 1..];
        verdict := DidReadHeaderData(Some(pieces[used]));
        used := used + 1;
      }
      if verdict == ReadsOn { assert pieces[used..] == []; }
    }
  }
}
