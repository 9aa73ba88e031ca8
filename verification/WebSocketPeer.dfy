// What the socket does with the frames of a client: pings are answered, a close frame or an
// unmasked one closes the connection, the rest is handed on.
module WebSocketPeer {
  import opened Words
  import opened WebSocketFrame

  /** The bytes to be read, the flag of the frame sent last, everything written, and whether the socket is open. */
  datatype Peer = Peer(buffer: seq<Byte>, nextIsContinuation: bool, written: seq<Byte>, open: bool)

  /** sendMessage. Nothing reaches a closed socket. */
  function Say(p: Peer, opCode: Opcode, payload: seq<Byte>, final: bool): Peer
    requires |payload| <= INT_MAX
  {
    var bytes := ServerBytes(if p.nextIsContinuation then Continuation else opCode, payload, final);
    p.(written := p.written + (if p.open then bytes else []), nextIsContinuation := !final)
  }

  function Closed(p: Peer): Peer {
    if p.open then Say(p, Close, [], true).(open := false) else p
  }

  /** How reading ends: for want of bytes, for good, or in a runtime trap. */
  datatype End = NeedsMore | Ended | Crashed

  datatype Served = Served(peer: Peer, frames: seq<Frame>, end: End)

  /** Frames read one after the other until no more can be; from a closed socket no more bytes come. */
  function Serve(p: Peer): (r: Served)
    ensures r.end == NeedsMore ==> r.peer.open
    decreases |p.buffer|
  {
    ParseBound(p.buffer);
    match Parse(p.buffer)
    case More => Served(p, [], if p.open then NeedsMore else Ended)
    case Unmasked => Served(Closed(p.(buffer := p.buffer[2..])), [], Ended)
    case Trapped => Served(p, [], Crashed)
    case Got(f, n) =>
      var q := p.(buffer := p.buffer[n..]);
      if f.opCode == Ping then Serve(Say(q, Pong, f.payload, true))
      else if f.opCode == Close then Served(Closed(q), [], Ended)
      else
        var r := Serve(q);
        r.(frames := [f] + r.frames)
  }

  function Behind(p: Peer, bytes: seq<Byte>): Peer { p.(buffer := p.buffer + bytes) }

  /** Reading goes on where it stopped when more arrives. */
  function Resumed(r: Served, bytes: seq<Byte>): Served {
    if r.end != NeedsMore then r.(peer := Behind(r.peer, bytes))
    else
      var s := Serve(Behind(r.peer, bytes));
      s.(frames := r.frames + s.frames)
  }

  lemma SayBehind(p: Peer, opCode: Opcode, payload: seq<Byte>, final: bool, bytes: seq<Byte>)
    requires |payload| <= INT_MAX
    ensures Say(Behind(p, bytes), opCode, payload, final) == Behind(Say(p, opCode, payload, final), bytes)
    ensures Closed(Behind(p, bytes)) == Behind(Closed(p), bytes)
  {
  }

  /** Served in two goes or in one. */
  lemma {:induction false} ServeInTwo(p: Peer, b: seq<Byte>)
    requires p.open
    ensures Serve(Behind(p, b)) == Resumed(Serve(p), b)
    decreases |p.buffer|
  {
    hide Parse, ServerBytes, Say, Closed;
    ParseStable(p.buffer, b);
    ParseBound(p.buffer);
    ParseSize(p.buffer);
    var x := Parse(p.buffer);
    if x.Got? {
      var f, q := x.frame, p.(buffer := p.buffer[x.used..]);
      assert (p.buffer + b)[x.used..] == q.buffer + b;
      SayBehind(q, Pong, f.payload, true, b);
      if f.opCode == Ping {
        SayKeeps(q, Pong, f.payload, true);
        ServeInTwo(Say(q, Pong, f.payload, true), b);
      } else if f.opCode != Close {
        ServeInTwo(q, b);
        var r := Serve(q);
        assert [f] + (r.frames + Serve(Behind(r.peer, b)).frames) == ([f] + r.frames) + Serve(Behind(r.peer, b)).frames;
      }
    } else if x.Unmasked? {
      assert (p.buffer + b)[2..] == p.buffer[2..] + b;
      SayBehind(p.(buffer := p.buffer[2..]), Pong, [], true, b);
    } else if x.More? {
      var s := Serve(Behind(p, b));
      assert [] + s.frames == s.frames;
    }
  }

  lemma SayKeeps(p: Peer, opCode: Opcode, payload: seq<Byte>, final: bool)
    requires |payload| <= INT_MAX
    ensures Say(p, opCode, payload, final).buffer == p.buffer && Say(p, opCode, payload, final).open == p.open
  {
  }

  lemma ParseSize(s: seq<Byte>)
    ensures Parse(s).Unmasked? || Parse(s).Trapped? ==> |s| >= 2
  {
  }

  /** One go for each piece. */
  function ServeAll(r: Served, pieces: seq<seq<Byte>>): Served
    decreases |pieces|
  {
    if pieces == [] then r else ServeAll(Resumed(r, pieces[0]), pieces[1..])
  }

  lemma ResumedTwice(r: Served, a: seq<Byte>, b: seq<Byte>)
    requires r.end == NeedsMore ==> r.peer.open
    ensures Resumed(Resumed(r, a), b) == Resumed(r, a + b)
  {
    hide Serve;
    assert (r.peer.buffer + a) + b == r.peer.buffer + (a + b);
    if r.end == NeedsMore {
      var p := Behind(r.peer, a);
      ServeInTwo(p, b);
      var s := Serve(p);
      if s.end == NeedsMore {
        var t := Serve(Behind(s.peer, b));
        assert (r.frames + s.frames) + t.frames == r.frames + (s.frames + t.frames);
      }
    }
  }

  lemma StillOpen(r: Served, bytes: seq<Byte>)
    ensures r.end == NeedsMore && Resumed(r, bytes).end == NeedsMore ==> Resumed(r, bytes).peer.open
    ensures r.end != NeedsMore ==> Resumed(r, bytes).end != NeedsMore
  {
  }

  /** However the bytes are cut, what is handed on and what is written are the same. */
  lemma {:induction false} SplitIndependence(r: Served, pieces: seq<seq<Byte>>)
    requires Resumed(r, []) == r && (r.end == NeedsMore ==> r.peer.open)
    ensures ServeAll(r, pieces) == Resumed(r, Concat(pieces))
    decreases |pieces|
  {
    hide Resumed;
    if pieces != [] {
      StillOpen(r, pieces[0]);
      ResumedTwice(r, pieces[0], []);
      assert pieces[0] + [] == pieces[0];
      SplitIndependence(Resumed(r, pieces[0]), pieces[1..]);
      ResumedTwice(r, pieces[0], Concat(pieces[1..]));
    }
  }

  // ---- the frames of a client

  /** The frames that are handed on: those before the first close frame that are no pings. */
  function Heard(sent: seq<Sent>): seq<Frame> {
    if sent == [] || sent[0].frame.opCode == Close then []
    else (if sent[0].frame.opCode == Ping then [] else [sent[0].frame]) + Heard(sent[1..])
  }

  predicate Closes(sent: seq<Sent>) {
    exists i :: 0 <= i < |sent| && sent[i].frame.opCode == Close
  }

  /**
   * What is written: each ping's payload in a pong, in order, and a close frame for the first
   * close frame. Only what comes first can be mislabelled a continuation.
   */
  function Replies(nextIsContinuation: bool, sent: seq<Sent>): seq<Byte>
    requires forall m :: m in sent ==> m.Valid()
  {
    if sent == [] then []
    else
      assert sent[0] in sent;
      ValidBound(sent[0]);
      var f := sent[0].frame;
      if f.opCode == Close then ServerBytes(if nextIsContinuation then Continuation else Close, [], true)
      else if f.opCode == Ping then
        ServerBytes(if nextIsContinuation then Continuation else Pong, f.payload, true) + Replies(false, sent[1..])
      else Replies(nextIsContinuation, sent[1..])
  }

  lemma ValidBound(m: Sent)
    requires m.Valid()
    ensures |m.frame.payload| <= INT_MAX
  {
  }

  /** For every sequence of masked frames: what is handed on, what is written, and what is left. */
  lemma {:induction false} StreamServed(p: Peer, sent: seq<Sent>, tail: seq<Byte>)
    requires (forall m :: m in sent ==> m.Valid()) && Parse(tail) == More
    requires p.open && p.buffer == Stream(sent) + tail
    ensures var r := Serve(p);
            && r.frames == Heard(sent) && r.peer.written == p.written + Replies(p.nextIsContinuation, sent)
            && r.end == (if Closes(sent) then Ended else NeedsMore) && r.peer.open == !Closes(sent)
            && (!Closes(sent) ==> r.peer.buffer == tail)
    decreases |sent|
  {
    hide Parse, ClientBytes, ServerBytes, Closes, Serve;
    ClosesStep(sent);
    if sent == [] {
      assert [] + tail == tail;
      ServesNothing(p);
      assert p.written + [] == p.written;
    } else {
      var m, f := sent[0], sent[0].frame;
      assert m in sent;
      ValidBound(m);
      var rest := Stream(sent[1..]) + tail;
      assert p.buffer == m.Bytes() + rest;
      FirstServed(p, m, rest);
      var q := p.(buffer := rest);
      if f.opCode == Ping {
        var said := Say(q, Pong, f.payload, true);
        StreamServed(said, sent[1..], tail);
        assert said.written + Replies(false, sent[1..]) == p.written + Replies(p.nextIsContinuation, sent);
        assert [] + Heard(sent[1..]) == Heard(sent[1..]);
      } else if f.opCode != Close {
        StreamServed(q, sent[1..], tail);
      }
    }
  }

  lemma ServesNothing(p: Peer)
    requires Parse(p.buffer) == More && p.open
    ensures Serve(p) == Served(p, [], NeedsMore)
  {
  }

  lemma FirstServed(p: Peer, m: Sent, rest: seq<Byte>)
    requires m.Valid() && p.buffer == m.Bytes() + rest
    ensures |m.frame.payload| <= INT_MAX
    ensures var f, q := m.frame, p.(buffer := rest);
            Serve(p) == if f.opCode == Ping then Serve(Say(q, Pong, f.payload, true))
                        else if f.opCode == Close then Served(Closed(q), [], Ended)
                        else var r := Serve(q); r.(frames := [f] + r.frames)
  {
    hide Parse, ClientBytes, Say, Closed;
    ValidBound(m);
    ClientRoundTrip(m.frame, m.key, m.width, rest);
    assert p.buffer[|m.Bytes()|..] == rest;
  }

  lemma ClosesStep(sent: seq<Sent>)
    ensures Closes(sent) <==> sent != [] && (sent[0].frame.opCode == Close || Closes(sent[1..]))
  {
    if sent != [] && Closes(sent[1..]) {
      var i :| 0 <= i < |sent[1..]| && sent[1..][i].frame.opCode == Close;
      assert sent[i + 1].frame.opCode == Close;
    }
    if Closes(sent) {
      var i :| 0 <= i < |sent| && sent[i].frame.opCode == Close;
      assert i > 0 ==> sent[1..][i - 1].frame.opCode == Close;
    }
  }

  /** The same for every division of the bytes. */
  lemma StreamServedInPieces(p: Peer, sent: seq<Sent>, tail: seq<Byte>, pieces: seq<seq<Byte>>)
    requires (forall m :: m in sent ==> m.Valid()) && Parse(tail) == More
    requires p.open && p.buffer == [] && Concat(pieces) == Stream(sent) + tail
    ensures var r := ServeAll(Served(p, [], NeedsMore), pieces);
            && r.frames == Heard(sent) && r.peer.written == p.written + Replies(p.nextIsContinuation, sent)
            && r.end == (if Closes(sent) then Ended else NeedsMore) && r.peer.open == !Closes(sent)
            && (!Closes(sent) ==> r.peer.buffer == tail)
  {
    hide Parse, Serve, ServeAll, Stream, Concat, Heard, Replies, Closes;
    var r0 := Served(p, [], NeedsMore);
    NothingToServe(p);
    SplitIndependence(r0, pieces);
    var q := Behind(p, Concat(pieces));
    assert [] + Concat(pieces) == Concat(pieces);
    StreamServed(q, sent, tail);
    assert [] + Serve(q).frames == Serve(q).frames;
  }

  lemma NothingToServe(p: Peer)
    requires p.buffer == [] && p.open
    ensures Resumed(Served(p, [], NeedsMore), []) == Served(p, [], NeedsMore)
  {
    ParsesNothing();
    assert Behind(p, []) == p;
  }
}
