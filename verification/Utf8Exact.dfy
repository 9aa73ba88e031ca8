// What counts as text: the UTF-8 of scalar values (section 3 of RFC 3629), as far as it goes.
module Utf8Exact {
  import opened Words
  import opened Utf8

  /** Code points but the surrogates. */
  predicate IsScalar(c: nat) { c < 0xD800 || 0xE000 <= c < 0x11_0000 }

  /** One to four bytes, six bits in each but the first. */
  function Encoded(c: nat): (s: seq<Byte>)
    requires IsScalar(c)
    ensures 1 <= |s| <= 4
  {
    if c < 0x80 then [c]
    else if c < 0x800 then [0xC0 + c / 64, 0x80 + c % 64]
    else if c < 0x1_0000 then [0xE0 + c / 4096, 0x80 + c / 64 % 64, 0x80 + c % 64]
    else [0xF0 + c / 262144, 0x80 + c / 4096 % 64, 0x80 + c / 64 % 64, 0x80 + c % 64]
  }

  predicate Scalars(cs: seq<nat>) { forall i :: 0 <= i < |cs| ==> IsScalar(cs[i]) }

  function EncodedAll(cs: seq<nat>): seq<Byte>
    requires Scalars(cs)
  {
    if cs == [] then [] else Encoded(cs[0]) + EncodedAll(cs[1..])
  }

  lemma ScalarIsTaken(c: nat, rest: seq<Byte>)
    requires IsScalar(c)
    ensures ScalarLength(Encoded(c) + rest) == |Encoded(c)|
  {
    var s := Encoded(c) + rest;
    assert forall i :: 0 <= i < |Encoded(c)| ==> s[i] == Encoded(c)[i];
    if c >= 0x1_0000 {
      FourBytes(c);
    } else if c >= 0x800 {
      ThreeBytes(c);
    }
  }

  lemma ThreeBytes(c: nat)
    requires 0x800 <= c < 0x1_0000 && IsScalar(c)
    ensures c / 4096 < 16 && (c / 4096 == 0 ==> c / 64 % 64 >= 0x20) && (c / 4096 == 13 ==> c / 64 % 64 < 0x20)
  {
    assert c / 64 == 64 * (c / 4096) + c / 64 % 64;
  }

  lemma FourBytes(c: nat)
    requires 0x1_0000 <= c < 0x11_0000
    ensures c / 262144 < 5 && (c / 262144 == 0 ==> c / 4096 % 64 >= 0x10) && (c / 262144 == 4 ==> c / 4096 % 64 < 0x10)
  {
    assert c / 4096 == 64 * (c / 262144) + c / 4096 % 64;
  }

  /** Six bits below. */
  function Six(high: nat, b: nat): nat
    requires b >= 0x80
  {
    64 * high + (b - 0x80)
  }

  lemma SixBack(high: nat, b: nat)
    requires 0x80 <= b < 0xC0
    ensures Six(high, b) / 64 == high && Six(high, b) % 64 == b - 0x80
  {
  }

  lemma TakenIsScalar(s: seq<Byte>) returns (c: nat)
    requires ScalarLength(s) > 0
    ensures IsScalar(c) && Encoded(c) == s[..ScalarLength(s)]
  {
    hide Six;
    var n := ScalarLength(s);
    if n == 1 {
      c := s[0];
    } else if n == 2 {
      c := Six(s[0] - 0xC0, s[1]);
      SixBack(s[0] - 0xC0, s[1]);
      TwoIs(s[0] - 0xC0, s[1]);
    } else if n == 3 {
      var h := Six(s[0] - 0xE0, s[1]);
      c := Six(h, s[2]);
      SixBack(s[0] - 0xE0, s[1]);
      SixBack(h, s[2]);
      ThreeIs(s[0], s[1], s[2]);
    } else {
      var g := Six(s[0] - 0xF0, s[1]);
      var h := Six(g, s[2]);
      c := Six(h, s[3]);
      SixBack(s[0] - 0xF0, s[1]);
      SixBack(g, s[2]);
      SixBack(h, s[3]);
      FourIs(s[0], s[1], s[2], s[3]);
    }
  }

  lemma TwoIs(a: nat, b: nat)
    requires 2 <= a < 32 && 0x80 <= b < 0xC0
    ensures 0x80 <= Six(a, b) < 0x800
  {
  }

  lemma ThreeIs(a: nat, b: nat, d: nat)
    requires 0xE0 <= a < 0xF0 && 0x80 <= b < 0xC0 && 0x80 <= d < 0xC0 && (a == 0xE0 ==> b >= 0xA0) && (a == 0xED ==> b <= 0x9F)
    ensures var c := Six(Six(a - 0xE0, b), d); 0x800 <= c < 0x1_0000 && IsScalar(c) && c / 4096 == a - 0xE0 && c / 64 % 64 == b - 0x80
  {
    var h := Six(a - 0xE0, b);
    SixBack(a - 0xE0, b);
    SixBack(h, d);
    assert Six(h, d) / 4096 == h / 64;
  }

  lemma FourIs(a: nat, b: nat, d: nat, e: nat)
    requires 0xF0 <= a < 0xF5 && 0x80 <= b < 0xC0 && 0x80 <= d < 0xC0 && 0x80 <= e < 0xC0
    requires (a == 0xF0 ==> b >= 0x90) && (a == 0xF4 ==> b <= 0x8F)
    ensures var c := Six(Six(Six(a - 0xF0, b), d), e);
            0x1_0000 <= c < 0x11_0000 && c / 262144 == a - 0xF0 && c / 4096 % 64 == b - 0x80 && c / 64 % 64 == d - 0x80
  {
    var g := Six(a - 0xF0, b);
    var h := Six(g, d);
    SixBack(a - 0xF0, b);
    SixBack(g, d);
    SixBack(h, e);
    var c := Six(h, e);
    assert c / 4096 == h / 64 && c / 262144 == h / 4096 == g / 64;
  }

  /** Text is the UTF-8 of scalars, up to the first place where none begins. */
  lemma {:induction false} TextExactly(s: seq<Byte>) returns (cs: seq<nat>)
    ensures Scalars(cs) && Text(s) == EncodedAll(cs)
    ensures var rest := s[|Text(s)|..]; forall c :: IsScalar(c) ==> !(Encoded(c) <= rest)
    decreases |s|
  {
    hide ScalarLength, Encoded;
    var n := ScalarLength(s);
    if n == 0 {
      cs := [];
      assert s[0..] == s;
      forall c | IsScalar(c) ensures !(Encoded(c) <= s) { NoneBegins(s, c); }
    } else {
      var c := TakenIsScalar(s);
      var ds := TextExactly(s[n..]);
      cs := [c] + ds;
      assert cs[1..] == ds;
      assert s[|Text(s)|..] == s[n..][|Text(s[n..])|..];
    }
  }

  lemma SomeBegins(s: seq<Byte>, c: nat)
    requires IsScalar(c) && Encoded(c) <= s
    ensures ScalarLength(s) > 0
  {
    hide ScalarLength, Encoded;
    ScalarIsTaken(c, s[|Encoded(c)|..]);
    assert Encoded(c) + s[|Encoded(c)|..] == s;
  }

  lemma NoneBegins(s: seq<Byte>, c: nat)
    requires ScalarLength(s) == 0 && IsScalar(c)
    ensures !(Encoded(c) <= s)
  {
    hide ScalarLength, Encoded;
    if Encoded(c) <= s { SomeBegins(s, c); }
  }
}
