// The WebSocket itself: a read buffer from which frames are taken, and the flag that marks
// a frame as the continuation of the one before.
module WebSocketHandler {
  import opened Words
  import opened Wrappers
  import opened ByteBuffer
  import opened WebSocketFrame
  import opened WebSocketPeer

  /** How a look for a frame ends: with one, with none, or with a runtime trap. */
  datatype Fill = Filled(frame: Frame) | Nothing | Crash

  /** How a read ends: with a frame to hand on, or as the specification says. */
  datatype Reading = Delivered(frame: Frame) | Stopped(end: End)

  class WebSocket {
    const readBuffer: Bytes
    var nextIsContinuation: bool
    /** The socket: what was written to it, and whether it is open. */
    var written: seq<Byte>
    var open: bool

    constructor ()
      ensures fresh(readBuffer) && readBuffer.Valid() && Now() == Peer([], false, [], true)
    {
      readBuffer := new Bytes();
      nextIsContinuation, written, open := false, [], true;
    }

    function Now(): Peer
      requires readBuffer.Valid()
      reads this, readBuffer
    {
      Peer(readBuffer.data[readBuffer.position..], nextIsContinuation, written, open)
    }

    /** Drops what has been read. */
    method ClearFrame()
      requires readBuffer.Valid()
      modifies readBuffer
      ensures readBuffer.position == 0 && readBuffer.data == old(readBuffer.data[readBuffer.position..])
    {
      var position := readBuffer.position;
      readBuffer.data := readBuffer.data[position..];
      readBuffer.position := 0;
    }

    /** The length behind its first byte, as far as it is there. */
    method ReadLength(small: nat) returns (length: nat)
      requires readBuffer.Valid() && small < 128
      modifies readBuffer`position
      ensures readBuffer.Valid()
      ensures var s, h, p := readBuffer.data, old(readBuffer.position), readBuffer.position;
              if small == 126 && |s| - h >= 2 then length == FromHighFirst(s[h..h + 2]) && p == h + 2
              else if small > 126 && |s| - h >= 8 then length == FromHighFirst(s[h..h + 8]) && p == h + 8
              else length == small && p == h
    {
      hide FromHighFirst, FromLowFirst, Swapped, LowFirst;
      length := small;
      if small == SMALL_PAYLOAD_SIZE {
        if readBuffer.AvailableExportBytes() >= 2 {
          var short := readBuffer.Export16Bits();
          SwappedIsHighFirst(0, 2, readBuffer.data[readBuffer.position - 2..readBuffer.position]);
          length := Swapped(short, 2);
        }
      } else if small > SMALL_PAYLOAD_SIZE {
        if readBuffer.AvailableExportBytes() >= 8 {
          var long := readBuffer.Export64Bits();
          SwappedIsHighFirst(0, 8, readBuffer.data[readBuffer.position - 8..readBuffer.position]);
          length := Swapped(long, 8);
        }
      }
    }

    /** The unmasking loop. */
    method Unmask(bytes: seq<Byte>, maskingKey: seq<Byte>) returns (exported: seq<Byte>)
      requires |maskingKey| == 4
      ensures exported == Masked(maskingKey, bytes)
    {
      exported := bytes;
      for i := 0 to |bytes|
        invariant |exported| == |bytes| && exported[i..] == bytes[i..]
        invariant forall k :: 0 <= k < i ==> exported[k] == Xor(bytes[k], maskingKey[k % 4])
      {
        assert exported[i] == exported[i..][0] == bytes[i];
        exported := exported[i := Xor(exported[i], maskingKey[i % 4])];
      }
    }

    method Close()
      requires readBuffer.Valid()
      modifies this`nextIsContinuation, this`written, this`open
      ensures Now() == Closed(old(Now()))
    {
      if open {
        SendMessage(Opcode.Close, [], true);
        open := false;
      }
    }

    /** The key and the payload, if they are all there, the payload unmasked. */
    method ExportPayload(length: nat) returns (payload: Option<seq<Byte>>)
      requires readBuffer.Valid()
      modifies readBuffer`position
      ensures readBuffer.Valid()
      ensures var u := old(readBuffer.data[readBuffer.position..]);
              if |u| >= 4 + length
              then payload == Some(Masked(u[..4], u[4..4 + length])) && readBuffer.position == old(readBuffer.position) + 4 + length
              else payload == None
    {
      hide Masked, Xor;
      ghost var u := readBuffer.data[readBuffer.position..];
      if readBuffer.AvailableExportBytes() >= 4 {
        var maskingKey := readBuffer.ExportBytes(4);
        if readBuffer.AvailableExportBytes() >= length {
          var exported := readBuffer.ExportBytes(length);
          assert maskingKey == u[..4] && exported == u[4..4 + length];
          exported := Unmask(exported, maskingKey);
          return Some(exported);
        }
      }
      return None;
    }

    /** Behind the first two bytes of a masked frame. The position is put back when the frame is not all there. */
    method FillMasked(byte1: Byte, byte2: Byte, oldPosition: nat) returns (f: Fill)
      requires readBuffer.Valid() && readBuffer.position == oldPosition + 2 && byte2 >= 128
      requires byte1 == readBuffer.data[oldPosition] && byte2 == readBuffer.data[oldPosition + 1]
      modifies readBuffer
      ensures readBuffer.Valid()
      ensures var s := old(readBuffer.data)[oldPosition..];
              match Parse(s) {
                case More => f == Nothing && readBuffer.position == oldPosition && readBuffer.data == old(readBuffer.data)
                case Unmasked => false
                case Trapped => f == Crash
                case Got(frame, n) => f == Filled(frame) && readBuffer.position == 0 && readBuffer.data == s[n..]
              }
    {
      hide Masked, Xor, FromHighFirst, OpcodeOf, Parse, ParseBody;
      ghost var data := readBuffer.data;
      ghost var s := data[oldPosition..];
      var unmaskedLength := ReadLength(byte2 - 128);
      ghost var h := readBuffer.position - oldPosition;
      LengthBehind(data, oldPosition, h, unmaskedLength);
      if unmaskedLength > INT_MAX {
        return Crash;
      }
      assert data[readBuffer.position..] == s[h..];
      BodyParts(s, h, unmaskedLength);
      var payload := ExportPayload(unmaskedLength);
      if payload.Some? {
        assert data[readBuffer.position..] == s[h + 4 + unmaskedLength..];
        ClearFrame();
        return Filled(Frame(byte1 / 128 % 2 == 1, byte1 / 64 % 2 == 1, byte1 / 32 % 2 == 1, byte1 / 16 % 2 == 1,
                            OpcodeOf(byte1 % 16), payload.value));
      }
      readBuffer.position := oldPosition;
      return Nothing;
    }

    /** A frame, if a whole one is there; an unmasked one closes the connection; otherwise nothing changes. */
    method FillFrame() returns (f: Fill)
      requires readBuffer.Valid()
      modifies readBuffer, this`nextIsContinuation, this`written, this`open
      ensures readBuffer.Valid()
      ensures match Parse(old(Now()).buffer) {
                case More => f == Nothing && Now() == old(Now()) && readBuffer.data == old(readBuffer.data)
                case Unmasked => f == Nothing && !open && Now() == Closed(old(Now()).(buffer := old(Now()).buffer[2..]))
                case Trapped => f == Crash
                case Got(frame, n) => f == Filled(frame) && Now() == old(Now()).(buffer := old(Now()).buffer[n..])
              }
    {
      hide Parse, Say, ServerBytes;
      ParseStart(Now().buffer);
      if readBuffer.AvailableExportBytes() < 2 {
        return Nothing;
      }
      var oldPosition := readBuffer.position;
      ghost var s := Now().buffer;
      var byte1 := readBuffer.Export8Bits();
      var byte2 := readBuffer.Export8Bits();
      assert readBuffer.data[oldPosition + 2..] == s[2..];
      if byte2 < 128 {
        Close();
        return Nothing;
      }
      f := FillMasked(byte1, byte2, oldPosition);
    }

    /** The frame to hand on, pings answered on the way; or that there is none, for now or for good. */
    method ReadFrame() returns (r: Reading)
      requires readBuffer.Valid()
      modifies readBuffer, this`nextIsContinuation, this`written, this`open
      ensures readBuffer.Valid()
      ensures var was := Serve(old(Now()));
              if r.Delivered? then was == Serve(Now()).(frames := [r.frame] + Serve(Now()).frames)
              else was.frames == [] && was.end == r.end && (r.end != Crashed ==> was.peer == Now())
      decreases |Now().buffer|
    {
      hide Parse, Say, Closed, ServerBytes;
      ParseBound(Now().buffer);
      ParseUses(Now().buffer);
      var f := FillFrame();
      if f == Crash { return Stopped(Crashed); }
      if f.Filled? {
        if f.frame.opCode == Ping {
          SayKeeps(Now(), Pong, f.frame.payload, true);
          SendMessage(Pong, f.frame.payload, true);
          r := ReadFrame();
          return;
        }
        if f.frame.opCode == Opcode.Close {
          Close();
          return Stopped(Ended);
        }
        return Delivered(f.frame);
      }
      return Stopped(if open then NeedsMore else Ended);
    }

    /** The payload's size, in the shortest form. */
    method WriteLength(sendBuffer: Bytes, payloadSize: nat)
      requires payloadSize <= INT_MAX
      modifies sendBuffer`data
      ensures sendBuffer.data == old(sendBuffer.data) + LengthBytes(payloadSize, WidthFor(payloadSize), false)
    {
      hide HighFirst, LowFirst, Swapped, LengthBytes, WidthFor;
      ServerLength(payloadSize);
      ghost var before := sendBuffer.data;
      if payloadSize < SMALL_PAYLOAD_SIZE {
        sendBuffer.Import8Bits(payloadSize);
      } else if payloadSize <= 0xFFFF {
        SwappedIsHighFirst(payloadSize, 2, [0, 0]);
        sendBuffer.Import8Bits(SMALL_PAYLOAD_SIZE);
        sendBuffer.Import16Bits(Swapped(payloadSize, 2));
        assert before + [126] + HighFirst(payloadSize, 2) == before + ([126] + HighFirst(payloadSize, 2));
      } else {
        SwappedIsHighFirst(payloadSize, 8, [0, 0, 0, 0, 0, 0, 0, 0]);
        sendBuffer.Import8Bits(1 + SMALL_PAYLOAD_SIZE);
        sendBuffer.Import64Bits(Swapped(payloadSize, 8));
        assert before + [127] + HighFirst(payloadSize, 8) == before + ([127] + HighFirst(payloadSize, 8));
      }
    }

    method SendMessage(opcode: Opcode, bytes: seq<Byte>, final: bool)
      requires |bytes| <= INT_MAX && readBuffer.Valid()
      modifies this`nextIsContinuation, this`written
      ensures Now() == Say(old(Now()), opcode, bytes, final)
    {
      hide LengthBytes;
      var sendBuffer := new Bytes();
      var byte1 := (if final then 0x80 else 0x0) + (if nextIsContinuation then 0 else RawValue(opcode));
      nextIsContinuation := !final;
      sendBuffer.Import8Bits(byte1);
      WriteLength(sendBuffer, |bytes|);
      sendBuffer.ImportBytes(bytes);
      assert sendBuffer.data == ServerBytes(if old(nextIsContinuation) then Continuation else opcode, bytes, final);
      if open { written := written + sendBuffer.data; }
    }
  }

  /** The length read at a position of the buffer is that of what is left to read there. */
  lemma LengthBehind(data: seq<Byte>, position: nat, h: nat, length: nat)
    requires position + 2 <= position + h <= |data| && data[position + 1] >= 128
    requires var small, p := data[position + 1] - 128, position + 2;
             if small == 126 && |data| - p >= 2 then length == FromHighFirst(data[p..p + 2]) && h == 4
             else if small > 126 && |data| - p >= 8 then length == FromHighFirst(data[p..p + 8]) && h == 10
             else length == small && h == 2
    ensures var s := data[position..]; Parse(s) == if length > INT_MAX then Trapped else ParseBody(s, h, length)
  {
    hide Parse, ParseBody, FromHighFirst;
    var s := data[position..];
    assert |s| >= 4 ==> s[2..4] == data[position + 2..position + 4];
    assert |s| >= 10 ==> s[2..10] == data[position + 2..position + 10];
    LengthRead(s, h, length);
  }

  lemma ParseStart(s: seq<Byte>)
    ensures |s| < 2 ==> Parse(s) == More
    ensures |s| >= 2 && s[1] < 128 ==> Parse(s) == Unmasked
  {
  }

  lemma BodyParts(s: seq<Byte>, h: nat, length: nat)
    requires 2 <= h <= |s|
    ensures |s[h..]| < 4 + length ==> ParseBody(s, h, length) == More
    ensures |s[h..]| >= 4 + length ==>
            ParseBody(s, h, length) ==
            Got(Frame(s[0] / 128 % 2 == 1, s[0] / 64 % 2 == 1, s[0] / 32 % 2 == 1, s[0] / 16 % 2 == 1, OpcodeOf(s[0] % 16),
                      Masked(s[h..][..4], s[h..][4..4 + length])), h + 4 + length)
  {
    hide Masked, OpcodeOf;
    if |s[h..]| >= 4 + length {
      assert s[h..][..4] == s[h..h + 4] && s[h..][4..4 + length] == s[h + 4..h + 4 + length];
    }
  }

  /** A frame takes up bytes. */
  lemma ParseUses(s: seq<Byte>)
    ensures Parse(s).Got? ==> 0 < Parse(s).used <= |s|
  {
  }

  lemma ServerLength(n: nat)
    requires n <= INT_MAX
    ensures LengthBytes(n, WidthFor(n), false) ==
            if n < SMALL_PAYLOAD_SIZE then [n] else if n <= 0xFFFF then [126] + HighFirst(n, 2) else [127] + HighFirst(n, 8)
  {
    hide HighFirst;
  }

  /** What ReadLength found is what Parse finds, or there is no frame to be found. */
  lemma LengthRead(s: seq<Byte>, h: nat, length: nat)
    requires 2 <= h <= |s| && s[1] >= 128
    requires var small := s[1] - 128;
             if small == 126 && |s| - 2 >= 2 then length == FromHighFirst(s[2..4]) && h == 4
             else if small > 126 && |s| - 2 >= 8 then length == FromHighFirst(s[2..10]) && h == 10
             else length == small && h == 2
    ensures Parse(s) == if length > INT_MAX then Trapped else ParseBody(s, h, length)
  {
    hide ParseBody;
    if |s| >= 4 {
      FromLowFirstBound(Reversed(s[2..4]));
      Limits();
    }
    if length <= INT_MAX { Missing(s, h, length); }
  }

  lemma Missing(s: seq<Byte>, h: nat, length: nat)
    requires 2 <= h <= |s|
    ensures length >= 126 && |s| < 10 && h == 2 ==> ParseBody(s, h, length) == More
  {
  }
}
