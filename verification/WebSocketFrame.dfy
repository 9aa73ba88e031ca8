// WebSocket frames (section 5.2 of RFC 6455): what the reader makes of the bytes it has,
// and what a client or the server itself puts on the wire.
module WebSocketFrame {
  import opened Words
  import opened ByteBuffer

  const SMALL_PAYLOAD_SIZE: nat := 126
  const INT_MAX: nat := 0x7FFF_FFFF_FFFF_FFFF

  datatype Opcode = Continuation | Text | Binary | Close | Ping | Pong | Invalid

  function RawValue(o: Opcode): (n: nat)
    ensures n < 16
  {
    match o
    case Continuation => 0x0
    case Text => 0x1
    case Binary => 0x2
    case Close => 0x8
    case Ping => 0x9
    case Pong => 0xA
    case Invalid => 0xB
  }

  function OpcodeOf(n: nat): Opcode {
    if n == 0x0 then Continuation
    else if n == 0x1 then Text
    else if n == 0x2 then Binary
    else if n == 0x8 then Close
    else if n == 0x9 then Ping
    else if n == 0xA then Pong
    else Invalid
  }

  datatype Frame = Frame(fin: bool, rsv1: bool, rsv2: bool, rsv3: bool, opCode: Opcode, payload: seq<Byte>)

  /** Exclusive or of the low n bits. */
  function XorBits(a: nat, b: nat, n: nat): (r: nat)
    ensures r < Pow2(n)
  {
    if n == 0 then 0 else 2 * XorBits(a / 2, b / 2, n - 1) + (if a % 2 == b % 2 then 0 else 1)
  }

  function Xor(a: Byte, b: Byte): Byte {
    Pow2Values();
    XorBits(a, b, 8)
  }

  /** Masking, which is its own inverse. */
  function Masked(key: seq<Byte>, bytes: seq<Byte>): (r: seq<Byte>)
    requires |key| == 4
    ensures |r| == |bytes| && forall i :: 0 <= i < |bytes| ==> r[i] == Xor(bytes[i], key[i % 4])
  {
    seq(|bytes|, i requires 0 <= i < |bytes| => Xor(bytes[i], key[i % 4]))
  }

  lemma {:induction false} XorBitsTwice(a: nat, b: nat, n: nat)
    requires a < Pow2(n)
    ensures XorBits(XorBits(a, b, n), b, n) == a
  {
    if n > 0 {
      var r, rest := XorBits(a, b, n), XorBits(a / 2, b / 2, n - 1);
      assert r == 2 * rest + (if a % 2 == b % 2 then 0 else 1);
      assert r / 2 == rest;
      XorBitsTwice(a / 2, b / 2, n - 1);
    }
  }

  lemma XorTwice(a: Byte, b: Byte)
    ensures Xor(Xor(a, b), b) == a
  {
    Pow2Values();
    XorBitsTwice(a, b, 8);
  }

  lemma MaskedTwice(key: seq<Byte>, bytes: seq<Byte>)
    requires |key| == 4
    ensures Masked(key, Masked(key, bytes)) == bytes
  {
    forall i | 0 <= i < |bytes|
      ensures Masked(key, Masked(key, bytes))[i] == bytes[i]
    {
      XorTwice(bytes[i], key[i % 4]);
    }
  }

  // ---- reading

  /** More bytes are needed; the frame is not masked; a length no Int can hold; or a frame and its size on the wire. */
  datatype Parsed = More | Unmasked | Trapped | Got(frame: Frame, used: nat)

  function Parse(s: seq<Byte>): (p: Parsed)
    ensures p.Got? ==> 6 <= p.used <= |s|
  {
    if |s| < 2 then More
    else if s[1] < 128 then Unmasked
    else
      var small := s[1] - 128;
      if small < 126 then ParseBody(s, 2, small)
      else if small == 126 then
        if |s| < 4 then More else ParseBody(s, 4, FromHighFirst(s[2..4]))
      else if |s| < 10 then More
      else if FromHighFirst(s[2..10]) > INT_MAX then Trapped
      else ParseBody(s, 10, FromHighFirst(s[2..10]))
  }

  /** The key and the payload, behind h bytes. */
  function ParseBody(s: seq<Byte>, h: nat, length: nat): (p: Parsed)
    requires 2 <= h <= |s|
    ensures p.More? || (p.Got? && p.used == h + 4 + length <= |s|)
  {
    if |s| < h + 4 || |s| < h + 4 + length then More
    else
      Got(Frame(s[0] / 128 % 2 == 1, s[0] / 64 % 2 == 1, s[0] / 32 % 2 == 1, s[0] / 16 % 2 == 1, OpcodeOf(s[0] % 16),
                Masked(s[h..h + 4], s[h + 4..h + 4 + length])), h + 4 + length)
  }

  /** More input changes nothing that has been decided. */
  lemma ParseStable(s: seq<Byte>, t: seq<Byte>)
    ensures !Parse(s).More? ==> Parse(s + t) == Parse(s)
  {
    hide FromHighFirst;
    var u := s + t;
    if |s| >= 4 { assert u[2..4] == s[2..4]; }
    if |s| >= 10 { assert u[2..10] == s[2..10]; }
    if Parse(s).Got? {
      var n := Parse(s).used;
      forall h, m | 2 <= h <= m <= n
        ensures u[h..m] == s[h..m]
      {
      }
    }
  }

  /** What is read is no longer than its length field could say. */
  lemma ParseBound(s: seq<Byte>)
    ensures Parse(s).Got? ==> |Parse(s).frame.payload| <= INT_MAX
  {
    hide FromHighFirst;
    Limits();
    if |s| >= 4 { HighFirstBound(s[2..4]); }
  }

  lemma HighFirstBound(bytes: seq<Byte>)
    ensures FromHighFirst(bytes) < Limit(|bytes|)
  {
    FromLowFirstBound(Reversed(bytes));
  }

  // ---- what is on the wire

  /** Which of the three length forms is used. */
  datatype Width = Small | Medium | Large

  predicate Fits(n: nat, w: Width) {
    match w
    case Small => n < SMALL_PAYLOAD_SIZE
    case Medium => n <= 0xFFFF
    case Large => n <= INT_MAX
  }

  /** The second byte, with or without the mask bit, and the length behind it. */
  function LengthBytes(n: nat, w: Width, mask: bool): (bytes: seq<Byte>)
    requires Fits(n, w)
    ensures 1 <= |bytes| <= 9
  {
    var bit := if mask then 128 else 0;
    match w
    case Small => [bit + n]
    case Medium => [bit + SMALL_PAYLOAD_SIZE] + HighFirst(n, 2)
    case Large => [bit + SMALL_PAYLOAD_SIZE + 1] + HighFirst(n, 8)
  }

  function Bit(b: bool, n: nat): nat { if b then n else 0 }

  function FirstByte(f: Frame): Byte {
    Bit(f.fin, 128) + Bit(f.rsv1, 64) + Bit(f.rsv2, 32) + Bit(f.rsv3, 16) + RawValue(f.opCode)
  }

  /** A client's frame, masked with its key; the length may be in any form that holds it. */
  function ClientBytes(f: Frame, key: seq<Byte>, w: Width): (bytes: seq<Byte>)
    requires |key| == 4 && Fits(|f.payload|, w)
  {
    [FirstByte(f)] + LengthBytes(|f.payload|, w, true) + key + Masked(key, f.payload)
  }

  lemma FirstByteBack(f: Frame)
    ensures var b := FirstByte(f);
            && (b / 128 % 2 == 1 <==> f.fin) && (b / 64 % 2 == 1 <==> f.rsv1) && (b / 32 % 2 == 1 <==> f.rsv2)
            && (b / 16 % 2 == 1 <==> f.rsv3) && OpcodeOf(b % 16) == f.opCode
  {
    hide OpcodeOf, RawValue;
    OpcodeBack(f.opCode);
    FourBits(FirstByte(f), f.fin, f.rsv1, f.rsv2, f.rsv3, RawValue(f.opCode));
  }

  lemma OpcodeBack(o: Opcode)
    ensures OpcodeOf(RawValue(o)) == o
  {
  }

  lemma FourBits(b: nat, x: bool, y: bool, z: bool, w: bool, low: nat)
    requires low < 16 && b == Bit(x, 128) + Bit(y, 64) + Bit(z, 32) + Bit(w, 16) + low
    ensures (b / 128 % 2 == 1 <==> x) && (b / 64 % 2 == 1 <==> y) && (b / 32 % 2 == 1 <==> z) && (b / 16 % 2 == 1 <==> w)
    ensures b % 16 == low
  {
    var t := Bit(x, 8) + Bit(y, 4) + Bit(z, 2) + Bit(w, 1);
    assert b == 16 * t + low;
    assert b / 16 == t && b / 32 == t / 2 && b / 64 == t / 4 && b / 128 == t / 8;
  }

  lemma Limits()
    ensures Limit(2) == 0x1_0000 && Limit(8) == 0x1_0000_0000_0000_0000
  {
    assert Limit(4) == 0x1_0000_0000;
  }

  /** The length is read back from any of its forms; and from none of it when the form is cut short. */
  lemma HeaderRead(s: seq<Byte>, n: nat, w: Width)
    requires Fits(n, w) && |s| >= 1
    ensures var l := LengthBytes(n, w, true);
            if l <= s[1..] then Parse(s) == ParseBody(s, 1 + |l|, n)
            else s[1..] < l ==> Parse(s) == More
  {
    hide ParseBody, FromHighFirst, HighFirst;
    Limits();
    var l := LengthBytes(n, w, true);
    if l <= s[1..] {
      forall i | 1 <= i < 1 + |l|
        ensures s[i] == l[i - 1]
      {
        assert s[1..][i - 1] == l[i - 1];
      }
      assert s[2..1 + |l|] == l[1..];
      if w == Medium { HighFirstValue(n, 2); }
      if w == Large { HighFirstValue(n, 8); }
    } else if s[1..] < l && |s| >= 2 {
      assert s[1] == s[1..][0] == l[0];
    }
  }

  /** A client's frame is read back whole, whatever its length form and key and whatever follows it. */
  lemma ClientRoundTrip(f: Frame, key: seq<Byte>, w: Width, rest: seq<Byte>)
    requires |key| == 4 && Fits(|f.payload|, w)
    ensures Parse(ClientBytes(f, key, w) + rest) == Got(f, |ClientBytes(f, key, w)|)
  {
    hide Parse, FirstByte, LengthBytes, Masked;
    var l, m := LengthBytes(|f.payload|, w, true), Masked(key, f.payload);
    var s, h := ClientBytes(f, key, w) + rest, 1 + |l|;
    assert s[1..] == l + (key + m + rest);
    HeaderRead(s, |f.payload|, w);
    assert s[h..h + 4] == key && s[h + 4..h + 4 + |m|] == m;
    assert s[0] == FirstByte(f);
    FirstByteBack(f);
    MaskedTwice(key, f.payload);
  }

  /** A frame that is not all there is left alone, even with part of its length missing. */
  lemma PartOfFrameWaits(f: Frame, key: seq<Byte>, w: Width, k: nat)
    requires |key| == 4 && Fits(|f.payload|, w) && k < |ClientBytes(f, key, w)|
    ensures Parse(ClientBytes(f, key, w)[..k]) == More
  {
    hide LengthBytes, Parse, Masked, ParseBody;
    ParsesNothing();
    var l := LengthBytes(|f.payload|, w, true);
    var all, s := ClientBytes(f, key, w), ClientBytes(f, key, w)[..k];
    if k >= 1 {
      assert all[1..] == l + (key + Masked(key, f.payload));
      assert s[1..] == all[1..][..k - 1];
      if k - 1 >= |l| {
        assert s[1..][..|l|] == l;
      } else {
        assert s[1..] == l[..k - 1];
      }
      HeaderRead(s, |f.payload|, w);
      if k - 1 >= |l| { BodyWaits(s, 1 + |l|, |f.payload|); }
    } else {
      assert s == [];
    }
  }

  lemma ParsesNothing()
    ensures Parse([]) == More
  {
  }

  lemma BodyWaits(s: seq<Byte>, h: nat, length: nat)
    requires 2 <= h <= |s| < h + 4 + length
    ensures ParseBody(s, h, length) == More
  {
  }

  // ---- a stream of frames

  /** The frames at the front of a buffer, and what is left behind them. */
  function Drain(s: seq<Byte>): (r: (seq<Frame>, seq<Byte>))
    decreases |s|
  {
    match Parse(s)
    case Got(f, n) =>
      var (fs, rest) := Drain(s[n..]);
      ([f] + fs, rest)
    case _ => ([], s)
  }

  /** Frames drained as their bytes arrive are those drained at the end. */
  lemma {:induction false} DrainInTwo(a: seq<Byte>, b: seq<Byte>)
    ensures var (fs, rest) := Drain(a); var (gs, end) := Drain(rest + b); Drain(a + b) == (fs + gs, end)
    decreases |a|
  {
    hide Parse;
    var p := Parse(a);
    if p.Got? {
      ParseStable(a, b);
      assert (a + b)[p.used..] == a[p.used..] + b;
      DrainInTwo(a[p.used..], b);
      var (fs, rest) := Drain(a[p.used..]);
      var (gs, end) := Drain(rest + b);
      assert [p.frame] + (fs + gs) == ([p.frame] + fs) + gs;
    } else {
      var gs := Drain(a + b).0;
      assert [] + gs == gs;
    }
  }

  /** One drain for each piece: the frames so far, and what is kept. */
  function DrainAll(x: (seq<Frame>, seq<Byte>), pieces: seq<seq<Byte>>): (seq<Frame>, seq<Byte>)
    decreases |pieces|
  {
    if pieces == [] then x
    else
      var (fs, rest) := Drain(x.1 + pieces[0]);
      DrainAll((x.0 + fs, rest), pieces[1..])
  }

  /** However the bytes are cut, the frames and what is kept are those of one drain. */
  lemma {:induction false} DrainSplits(before: seq<Frame>, a: seq<Byte>, pieces: seq<seq<Byte>>)
    ensures var (fs, rest) := Drain(a); var (gs, end) := Drain(a + Concat(pieces));
            DrainAll((before + fs, rest), pieces) == (before + gs, end)
    decreases |pieces|
  {
    hide Drain;
    if pieces == [] {
      assert a + [] == a;
    } else {
      DrainInTwo(a, pieces[0]);
      var (fs, rest) := Drain(a);
      var gs := Drain(rest + pieces[0]).0;
      assert (before + fs) + gs == before + (fs + gs);
      DrainSplits(before, a + pieces[0], pieces[1..]);
      assert (a + pieces[0]) + Concat(pieces[1..]) == a + Concat(pieces);
    }
  }

  datatype Sent = Sent(frame: Frame, key: seq<Byte>, width: Width) {
    predicate Valid() { |key| == 4 && Fits(|frame.payload|, width) }
    function Bytes(): seq<Byte>
      requires Valid()
    {
      ClientBytes(frame, key, width)
    }
  }

  function Stream(sent: seq<Sent>): seq<Byte>
    requires forall m :: m in sent ==> m.Valid()
  {
    if sent == [] then [] else
      assert sent[0] in sent;
      sent[0].Bytes() + Stream(sent[1..])
  }

  function Payloads(sent: seq<Sent>): seq<Frame> {
    seq(|sent|, i requires 0 <= i < |sent| => sent[i].frame)
  }

  /** Every frame of a stream is read, unmasked and in order, and part of one more waits. */
  lemma {:induction false} StreamDrains(sent: seq<Sent>, tail: seq<Byte>)
    requires (forall m :: m in sent ==> m.Valid()) && Parse(tail) == More
    ensures Drain(Stream(sent) + tail) == (Payloads(sent), tail)
    decreases |sent|
  {
    hide Parse, ClientBytes;
    if sent == [] {
      assert [] + tail == tail;
    } else {
      var m := sent[0];
      assert m in sent;
      var rest := Stream(sent[1..]) + tail;
      assert Stream(sent) + tail == m.Bytes() + rest;
      ClientRoundTrip(m.frame, m.key, m.width, rest);
      assert (m.Bytes() + rest)[|m.Bytes()|..] == rest;
      StreamDrains(sent[1..], tail);
      assert [m.frame] + Payloads(sent[1..]) == Payloads(sent);
    }
  }

  /** The same for every division of the stream, empty pieces among them. */
  lemma StreamArrives(sent: seq<Sent>, tail: seq<Byte>, pieces: seq<seq<Byte>>)
    requires (forall m :: m in sent ==> m.Valid()) && Parse(tail) == More && Concat(pieces) == Stream(sent) + tail
    ensures DrainAll(([], []), pieces) == (Payloads(sent), tail)
  {
    hide Parse, Drain, DrainAll, Stream, Concat, Payloads;
    DrainsNothing();
    DrainSplits([], [], pieces);
    StreamDrains(sent, tail);
    assert [] + Concat(pieces) == Concat(pieces) && [] + Payloads(sent) == Payloads(sent);
    var none: seq<Frame> := [];
    assert none + none == none;
  }

  lemma DrainsNothing()
    ensures Drain([]) == ([], [])
  {
  }

  // ---- what the server sends

  function WidthFor(n: nat): Width {
    if n < SMALL_PAYLOAD_SIZE then Small else if n <= 0xFFFF then Medium else Large
  }

  function ServerBytes(opCode: Opcode, payload: seq<Byte>, final: bool): seq<Byte>
    requires |payload| <= INT_MAX
  {
    [Bit(final, 128) + RawValue(opCode)] + LengthBytes(|payload|, WidthFor(|payload|), false) + payload
  }

  /** A frame of the server's, masked by hand: the mask bit set, the key put in, the payload masked. */
  function MaskByHand(s: seq<Byte>, payload: nat, key: seq<Byte>): seq<Byte>
    requires |s| >= 2 + payload && s[1] < 128 && |key| == 4
  {
    [s[0], s[1] + 128] + s[2..|s| - payload] + key + Masked(key, s[|s| - payload..])
  }

  lemma LengthMasked(n: nat, w: Width)
    requires Fits(n, w)
    ensures var l := LengthBytes(n, w, false); l[0] < 128 && LengthBytes(n, w, true) == [l[0] + 128] + l[1..]
  {
    hide HighFirst;
  }

  /** What the server sends has the layout its own reader expects, but for the mask. */
  lemma ServerLayout(opCode: Opcode, payload: seq<Byte>, final: bool, key: seq<Byte>)
    requires |payload| <= INT_MAX && |key| == 4
    ensures var s := ServerBytes(opCode, payload, final);
            && |s| >= 2 + |payload| && s[1] < 128
            && Parse(MaskByHand(s, |payload|, key)) == Got(Frame(final, false, false, false, opCode, payload), |s| + 4)
  {
    hide Parse, Masked, LengthBytes;
    LengthMasked(|payload|, WidthFor(|payload|));
    var f, w := Frame(final, false, false, false, opCode, payload), WidthFor(|payload|);
    var s, l := ServerBytes(opCode, payload, final), LengthBytes(|payload|, w, false);
    assert s[1] == l[0] && s[2..|s| - |payload|] == l[1..] && s[|s| - |payload|..] == payload;
    assert MaskByHand(s, |payload|, key) == ClientBytes(f, key, w) + [];
    ClientRoundTrip(f, key, w, []);
  }

  // ---- fragmented messages

  datatype Message = Message(opCode: Opcode, final: bool) {
    predicate Control() { opCode in {Close, Ping, Pong} }
    /** What the public senders pass: control frames are always final. */
    predicate Valid() { (Control() && final) || opCode in {Text, Binary} }
  }

  /** The opcodes sendMessage writes; its flag remembers only the frame before. */
  function Written(nextIsContinuation: bool, messages: seq<Message>): seq<Opcode>
    decreases |messages|
  {
    if messages == [] then []
    else [if nextIsContinuation then Continuation else messages[0].opCode] + Written(!messages[0].final, messages[1..])
  }

  /** Section 5.4: control frames may stand between the fragments of a message and are no part of it. */
  function Proper(open: bool, messages: seq<Message>): seq<Opcode>
    decreases |messages|
  {
    if messages == [] then []
    else if messages[0].Control() then [messages[0].opCode] + Proper(open, messages[1..])
    else [if open then Continuation else messages[0].opCode] + Proper(!messages[0].final, messages[1..])
  }

  /** A control frame is sent while a message is open. */
  predicate Interrupted(open: bool, messages: seq<Message>)
    decreases |messages|
  {
    messages != []
    && if messages[0].Control() then open || Interrupted(open, messages[1..]) else Interrupted(!messages[0].final, messages[1..])
  }

  /** Fragments are labelled as they should be if and only if no control frame comes between them. */
  lemma {:induction false} FragmentsExact(open: bool, messages: seq<Message>)
    requires forall m :: m in messages ==> m.Valid()
    ensures Written(open, messages) == Proper(open, messages) <==> !Interrupted(open, messages)
    decreases |messages|
  {
    if messages != [] {
      var m, rest := messages[0], messages[1..];
      assert m in messages;
      if m.Control() {
        FragmentsExact(false, rest);
        assert Written(open, messages)[0] == if open then Continuation else m.opCode;
      } else {
        FragmentsExact(!m.final, rest);
      }
      assert Written(open, messages)[1..] == Written(!m.final, rest);
      assert Proper(open, messages)[1..] == Proper(if m.Control() then open else !m.final, rest);
    }
  }
}
