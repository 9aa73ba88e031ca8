// The bytes of a frame by their numbers (section 5.2 of RFC 6455), bit for bit.
module WebSocketWire {
  import opened Words
  import opened WebSocketFrame
  import opened WebSocketPeer
  import opened ByteBuffer

  // ---- exclusive or

  lemma XorBitsStep(a: nat, b: nat, n: nat)
    requires n > 0
    ensures var r := XorBits(a, b, n); r / 2 == XorBits(a / 2, b / 2, n - 1) && r % 2 == (a + b) % 2
  {
  }

  /** One bit further on. */
  lemma NextBit(x: nat, k: nat)
    requires k > 0
    ensures x / Pow2(k) == x / 2 / Pow2(k - 1)
  {
    Halved(x, Pow2(k - 1));
  }

  lemma {:induction false} XorBitsAt(a: nat, b: nat, n: nat, k: nat)
    requires k < n
    ensures XorBits(a, b, n) / Pow2(k) % 2 == (a / Pow2(k) + b / Pow2(k)) % 2
  {
    hide XorBits, Pow2;
    XorBitsStep(a, b, n);
    if k > 0 {
      XorBitsAt(a / 2, b / 2, n - 1, k - 1);
      NextBit(a, k);
      NextBit(b, k);
      NextBit(XorBits(a, b, n), k);
    } else {
      Pow2Values();
      assert a / Pow2(0) == a && b / Pow2(0) == b && XorBits(a, b, n) / Pow2(0) == XorBits(a, b, n);
    }
  }

  /** A bit of the result is set when it is set in one of the two and not in both. */
  lemma XorAt(a: Byte, b: Byte, k: nat)
    requires k < 8
    ensures Xor(a, b) / Pow2(k) % 2 == (a / Pow2(k) + b / Pow2(k)) % 2
  {
    XorBitsAt(a, b, 8, k);
  }

  lemma {:induction false} SameBits(a: nat, b: nat, n: nat)
    requires a < Pow2(n) && b < Pow2(n)
    requires forall k :: 0 <= k < n ==> a / Pow2(k) % 2 == b / Pow2(k) % 2
    ensures a == b
  {
    if n > 0 {
      assert Pow2(0) == 1 && a / Pow2(0) % 2 == b / Pow2(0) % 2;
      forall k | 0 <= k < n - 1
        ensures a / 2 / Pow2(k) % 2 == b / 2 / Pow2(k) % 2
      {
        Halved(a, Pow2(k));
        Halved(b, Pow2(k));
        assert a / Pow2(k + 1) % 2 == b / Pow2(k + 1) % 2;
      }
      SameBits(a / 2, b / 2, n - 1);
    }
  }

  /** Nothing is changed by a zero. */
  lemma XorNothing(a: Byte)
    ensures Xor(a, 0) == a
  {
    hide Xor, Pow2;
    forall k | 0 <= k < 8
      ensures Xor(a, 0) / Pow2(k) % 2 == a / Pow2(k) % 2
    {
      XorAt(a, 0, k);
      ZeroBits(k);
    }
    EightBits();
    SameBits(Xor(a, 0), a, 8);
  }

  lemma ZeroBits(k: nat)
    ensures 0 / Pow2(k) == 0
  {
  }

  lemma EightBits()
    ensures Pow2(8) == 256
  {
    Pow2Values();
  }

  /** m and key, bit by bit, make up p. */
  predicate Covers(m: Byte, key: Byte, p: Byte) {
    forall k :: 0 <= k < 8 ==> m / Pow2(k) % 2 == (p / Pow2(k) + key / Pow2(k)) % 2
  }

  lemma CoversExactly(m: Byte, key: Byte, p: Byte)
    ensures Covers(m, key, p) <==> Xor(m, key) == p
    ensures Covers(m, key, p) <==> Xor(p, key) == m
  {
    hide Xor, Covers;
    XorCovers(key, p);
    if Covers(m, key, p) { CoveredOnce(m, Xor(p, key), key, p); }
    XorTwice(m, key);
    XorTwice(p, key);
  }

  lemma XorCovers(key: Byte, p: Byte)
    ensures Covers(Xor(p, key), key, p)
  {
    hide Xor, Pow2;
    forall k | 0 <= k < 8
      ensures Xor(p, key) / Pow2(k) % 2 == (p / Pow2(k) + key / Pow2(k)) % 2
    {
      XorAt(p, key, k);
    }
  }

  lemma CoveredOnce(m: Byte, m': Byte, key: Byte, p: Byte)
    requires Covers(m, key, p) && Covers(m', key, p)
    ensures m == m'
  {
    hide Pow2;
    EightBits();
    SameBits(m, m', 8);
  }

  // ---- the layout

  predicate IsOpcode(o: Opcode, n: nat) {
    && (o == Continuation <==> n == 0) && (o == Text <==> n == 1) && (o == Binary <==> n == 2)
    && (o == Close <==> n == 8) && (o == Ping <==> n == 9) && (o == Pong <==> n == 10)
  }

  /** The first byte: four flags and an opcode. */
  predicate IsFirst(b: Byte, fin: bool, rsv1: bool, rsv2: bool, rsv3: bool, o: Opcode) {
    && IsOpcode(o, b % 16)
    && b == (if fin then 128 else 0) + (if rsv1 then 64 else 0) + (if rsv2 then 32 else 0) + (if rsv3 then 16 else 0) + b % 16
  }

  /** The higher digit, to the base 256, first. */
  function Pair(high: nat, low: nat): nat { 256 * high + low }

  /** The length in one of its three forms, behind the first byte, with or without the mask bit. */
  predicate IsLength(s: seq<Byte>, n: nat, w: Width, mask: nat) {
    match w
    case Small => |s| >= 2 && n < 126 && s[1] == mask + n
    case Medium => |s| >= 4 && s[1] == mask + 126 && n == Pair(s[2], s[3])
    case Large =>
      && |s| >= 10 && s[1] == mask + 127 && s[2] < 128
      && n == Pair(Pair(Pair(Pair(Pair(Pair(Pair(s[2], s[3]), s[4]), s[5]), s[6]), s[7]), s[8]), s[9])
  }

  function Behind(w: Width): nat { if w == Small then 2 else if w == Medium then 4 else 10 }

  /** A masked frame on the wire, with this key and its length in this form. */
  predicate OnWire(s: seq<Byte>, f: Frame, w: Width, key: seq<Byte>) {
    var h, n := Behind(w), |f.payload|;
    && |s| == h + 4 + n && |key| == 4
    && IsFirst(s[0], f.fin, f.rsv1, f.rsv2, f.rsv3, f.opCode) && IsLength(s, n, w, 128)
    && s[h..h + 4] == key
    && forall i :: 0 <= i < n ==> Covers(s[h + 4 + i], key[i % 4], f.payload[i])
  }

  lemma HighBits(n: nat)
    requires n < 256
    ensures n == 128 * (n / 128 % 2) + 64 * (n / 64 % 2) + 32 * (n / 32 % 2) + 16 * (n / 16 % 2) + n % 16
  {
    var t := n / 16;
    assert n / 32 == t / 2 && n / 64 == t / 4 && n / 128 == t / 8;
  }

  lemma OpcodeExactly(o: Opcode, n: nat)
    requires n < 16
    ensures IsOpcode(o, n) <==> o == OpcodeOf(n)
  {
  }

  lemma FirstExactly(b: Byte, fin: bool, rsv1: bool, rsv2: bool, rsv3: bool, o: Opcode)
    ensures IsFirst(b, fin, rsv1, rsv2, rsv3, o) <==>
            && (fin <==> b / 128 % 2 == 1) && (rsv1 <==> b / 64 % 2 == 1) && (rsv2 <==> b / 32 % 2 == 1) && (rsv3 <==> b / 16 % 2 == 1)
            && o == OpcodeOf(b % 16)
  {
    hide IsOpcode, OpcodeOf;
    HighBits(b);
    OpcodeExactly(o, b % 16);
    if b == Bit(fin, 128) + Bit(rsv1, 64) + Bit(rsv2, 32) + Bit(rsv3, 16) + b % 16 { FourBits(b, fin, rsv1, rsv2, rsv3, b % 16); }
  }

  lemma HighSnoc(s: seq<Byte>, b: Byte)
    ensures FromHighFirst(s + [b]) == Pair(FromHighFirst(s), b)
  {
    assert Reversed(s + [b]) == [b] + Reversed(s);
    assert ([b] + Reversed(s))[1..] == Reversed(s);
  }

  lemma NothingHigh()
    ensures FromHighFirst([]) == 0
  {
  }

  lemma TwoHigh(s: seq<Byte>)
    requires |s| == 2
    ensures FromHighFirst(s) == Pair(s[0], s[1])
  {
    hide FromHighFirst;
    NothingHigh();
    assert s[..1] == [] + [s[0]] && s == s[..1] + [s[1]];
    HighSnoc([], s[0]);
    HighSnoc(s[..1], s[1]);
  }

  lemma EightHigh(s: seq<Byte>)
    requires |s| == 8
    ensures FromHighFirst(s) == Pair(Pair(Pair(Pair(Pair(Pair(Pair(s[0], s[1]), s[2]), s[3]), s[4]), s[5]), s[6]), s[7])
  {
    hide FromHighFirst, Pair;
    TwoHigh(s[..2]);
    assert s[..3] == s[..2] + [s[2]] && s[..4] == s[..3] + [s[3]] && s[..5] == s[..4] + [s[4]];
    assert s[..6] == s[..5] + [s[5]] && s[..7] == s[..6] + [s[6]] && s == s[..7] + [s[7]];
    HighSnoc(s[..2], s[2]);
    HighSnoc(s[..3], s[3]);
    HighSnoc(s[..4], s[4]);
    HighSnoc(s[..5], s[5]);
    HighSnoc(s[..6], s[6]);
    HighSnoc(s[..7], s[7]);
  }

  /** How the reader takes what stands behind the first byte. */
  lemma LengthExactly(s: seq<Byte>, n: nat, w: Width)
    requires IsLength(s, n, w, 128)
    ensures Parse(s) == ParseBody(s, Behind(w), n)
  {
    hide ParseBody, FromHighFirst;
    if w == Medium { TwoHigh(s[2..4]); }
    if w == Large { EightHigh(s[2..10]); }
  }

  lemma BodyExactly(s: seq<Byte>, f: Frame, w: Width, key: seq<Byte>, rest: seq<Byte>)
    requires OnWire(s, f, w, key)
    ensures ParseBody(s + rest, Behind(w), |f.payload|) == Got(f, |s|)
  {
    hide Covers, Xor, OpcodeOf, IsFirst, IsLength;
    var h, n := Behind(w), |f.payload|;
    var t := s + rest;
    assert t[h..h + 4] == key && t[h + 4..h + 4 + n] == s[h + 4..];
    FirstExactly(s[0], f.fin, f.rsv1, f.rsv2, f.rsv3, f.opCode);
    forall i | 0 <= i < n
      ensures Masked(key, s[h + 4..])[i] == f.payload[i]
    {
      CoversExactly(s[h + 4 + i], key[i % 4], f.payload[i]);
    }
    assert Masked(key, s[h + 4..]) == f.payload;
  }

  /** Whatever frame is on the wire is read as that frame, whatever follows it. */
  lemma WireIsRead(s: seq<Byte>, f: Frame, w: Width, key: seq<Byte>, rest: seq<Byte>)
    requires OnWire(s, f, w, key)
    ensures Parse(s + rest) == Got(f, |s|)
  {
    hide Covers, Parse, ParseBody, IsFirst;
    assert forall i :: 0 <= i < |s| ==> (s + rest)[i] == s[i];
    LengthExactly(s + rest, |f.payload|, w);
    BodyExactly(s, f, w, key, rest);
  }

  /** And whatever is read as a frame was that frame on the wire. */
  lemma ReadWasOnWire(s: seq<Byte>) returns (w: Width, key: seq<Byte>)
    requires Parse(s).Got?
    ensures OnWire(s[..Parse(s).used], Parse(s).frame, w, key)
  {
    hide Covers, FromHighFirst, Xor, OpcodeOf, IsFirst, Masked;
    var f := Parse(s).frame;
    if s[1] - 128 < 126 {
      w := Small;
    } else if s[1] == 254 {
      w := Medium;
      TwoHigh(s[2..4]);
    } else {
      w := Large;
      EightHigh(s[2..10]);
    }
    var h, n := Behind(w), |f.payload|;
    key := s[h..h + 4];
    var t := s[..h + 4 + n];
    FirstExactly(s[0], f.fin, f.rsv1, f.rsv2, f.rsv3, f.opCode);
    forall i | 0 <= i < n
      ensures Covers(t[h + 4 + i], key[i % 4], f.payload[i])
    {
      assert s[h + 4..h + 4 + n][i] == t[h + 4 + i];
      CoversExactly(t[h + 4 + i], key[i % 4], f.payload[i]);
    }
  }

  /** Eight length bytes that no Int holds trap. */
  lemma HugeLengthTraps(s: seq<Byte>)
    requires |s| >= 10 && s[1] == 255 && s[2] >= 128
    ensures Parse(s) == Trapped
  {
    hide FromHighFirst;
    EightHigh(s[2..10]);
  }

  /** The masked message of section 5.7: Hello. */
  lemma HelloIsRead()
    ensures Parse([0x81, 0x85, 0x37, 0xFA, 0x21, 0x3D, 0x7F, 0x9F, 0x4D, 0x51, 0x58]) ==
            Got(Frame(true, false, false, false, Text, [72, 101, 108, 108, 111]), 11)
  {
    hide Parse, Covers, IsFirst;
    var s := [0x81, 0x85, 0x37, 0xFA, 0x21, 0x3D, 0x7F, 0x9F, 0x4D, 0x51, 0x58];
    var f, key := Frame(true, false, false, false, Text, [72, 101, 108, 108, 111]), [0x37, 0xFA, 0x21, 0x3D];
    PayloadOfHello();
    FirstOfHello();
    assert s[2] == 0x37 && s[3] == 0xFA && s[4] == 0x21 && s[5] == 0x3D;
    assert s[2..6] == [s[2], s[3], s[4], s[5]];
    assert s + [] == s;
    forall i | 0 <= i < 5
      ensures Covers(s[6 + i], key[i % 4], f.payload[i])
    {
      assert i == 0 || i == 1 || i == 2 || i == 3 || i == 4;
    }
    WireIsRead(s, f, Small, key, []);
  }

  lemma PayloadOfHello()
    ensures Covers(0x7F, 0x37, 72) && Covers(0x9F, 0xFA, 101) && Covers(0x4D, 0x21, 108) && Covers(0x51, 0x3D, 108)
    ensures Covers(0x58, 0x37, 111)
  {
    hide Covers;
    CoversByNumber(0x7F, 0x37, 72);
    CoversByNumber(0x9F, 0xFA, 101);
    CoversByNumber(0x4D, 0x21, 108);
    CoversByNumber(0x51, 0x3D, 108);
    CoversByNumber(0x58, 0x37, 111);
  }

  lemma FirstOfHello()
    ensures IsFirst(0x81, true, false, false, false, Text)
  {
  }

  lemma OneOfEight(k: nat)
    requires k < 8
    ensures Pow2(k) in {1, 2, 4, 8, 16, 32, 64, 128}
  {
    Pow2Values();
  }

  lemma CoversByNumber(m: nat, key: nat, p: nat)
    requires m < 256 && key < 256 && p < 256
    requires m % 2 == (p + key) % 2 && m / 2 % 2 == (p / 2 + key / 2) % 2 && m / 4 % 2 == (p / 4 + key / 4) % 2
    requires m / 8 % 2 == (p / 8 + key / 8) % 2 && m / 16 % 2 == (p / 16 + key / 16) % 2 && m / 32 % 2 == (p / 32 + key / 32) % 2
    requires m / 64 % 2 == (p / 64 + key / 64) % 2 && m / 128 % 2 == (p / 128 + key / 128) % 2
    ensures Covers(m, key, p)
  {
    hide Pow2;
    forall k | 0 <= k < 8
      ensures m / Pow2(k) % 2 == (p / Pow2(k) + key / Pow2(k)) % 2
    {
      var w := Pow2(k);
      OneOfEight(k);
      if w == 1 {
        assert m / 1 == m && p / 1 == p && key / 1 == key;
      }
    }
  }

  // ---- what the server sends

  /** An unmasked frame on the wire, its length in the shortest form. */
  predicate OnWireUnmasked(s: seq<Byte>, o: Opcode, payload: seq<Byte>, final: bool) {
    var n := |payload|;
    var w := if n < 126 then Small else if n < 0x1_0000 then Medium else Large;
    && |s| == Behind(w) + n && IsFirst(s[0], final, false, false, false, o) && IsLength(s, n, w, 0) && s[Behind(w)..] == payload
  }

  lemma FirstSent(o: Opcode, final: bool)
    requires o != Invalid
    ensures IsFirst(Bit(final, 128) + RawValue(o), final, false, false, false, o)
  {
  }

  lemma HighFirstIs(n: nat, k: nat, bytes: seq<Byte>)
    requires |bytes| == k && FromHighFirst(bytes) == n
    ensures HighFirst(n, k) == bytes
  {
    ReversedTwice(bytes);
    LowFirstBack(Reversed(bytes));
  }

  /** What sendMessage writes. */
  lemma SentIsOnWire(o: Opcode, payload: seq<Byte>, final: bool)
    requires |payload| <= INT_MAX && o != Invalid
    ensures OnWireUnmasked(ServerBytes(o, payload, final), o, payload, final)
  {
    hide RawValue, HighFirst, FromHighFirst, IsFirst;
    Limits();
    var n := |payload|;
    var s := ServerBytes(o, payload, final);
    FirstSent(o, final);
    if WidthFor(n) == Medium {
      var l := HighFirst(n, 2);
      assert s[2] == l[0] && s[3] == l[1] && l == [l[0], l[1]];
      HighFirstValue(n, 2);
      TwoHigh(l);
    } else if WidthFor(n) == Large {
      var l := HighFirst(n, 8);
      HighFirstValue(n, 8);
      EightHigh(l);
      assert forall i :: 0 <= i < 8 ==> s[2 + i] == l[i];
      SmallHigh(l);
    }
  }

  /** A number that an Int holds has no highest bit. */
  lemma SmallHigh(l: seq<Byte>)
    requires |l| == 8 && FromHighFirst(l) <= INT_MAX
    ensures l[0] < 128
  {
    hide FromHighFirst;
    EightHigh(l);
  }

  /** A frame that is not masked closes an open socket: nothing is handed on, and a close frame is the last thing written. */
  lemma UnmaskedCloses(p: Peer)
    requires |p.buffer| >= 2 && p.buffer[1] < 128 && p.open
    ensures var r := Serve(p);
            && r.frames == [] && r.end == Ended && !r.peer.open && r.peer.buffer == p.buffer[2..]
            && r.peer.written == p.written + [if p.nextIsContinuation then 0x80 else 0x88, 0]
  {
  }
}
