// Byte strings as text: a decoder that stops at the first byte that is not UTF-8.
module Utf8 {
  import opened Words

  const CR: Byte := 13
  const LF: Byte := 10
  const COLON: Byte := 58
  const EOL: seq<Byte> := [CR, LF]

  /** White space among the characters of one byte. */
  predicate White(b: Byte) {
    9 <= b <= 13 || 28 <= b <= 32
  }

  /** Tab, line feed and the controls next to them, four separators, and the blank. */
  lemma WhiteExactly(b: Byte)
    ensures White(b) <==> b in {9, 10, 11, 12, 13, 28, 29, 30, 31, 32}
  {
  }

  predicate Continuation(b: Byte) { 0x80 <= b <= 0xBF }

  /** Length of the well-formed UTF-8 sequence at the start of s; 0 if there is none. */
  function ScalarLength(s: seq<Byte>): (n: nat)
    ensures n <= |s| && n <= 4
  {
    if |s| == 0 then 0
    else if s[0] < 0x80 then 1
    else if 0xC2 <= s[0] <= 0xDF && |s| >= 2 && Continuation(s[1]) then 2
    else if 0xE0 <= s[0] <= 0xEF && |s| >= 3 && Continuation(s[1]) && Continuation(s[2])
            && (s[0] == 0xE0 ==> s[1] >= 0xA0) && (s[0] == 0xED ==> s[1] <= 0x9F) then 3
    else if 0xF0 <= s[0] <= 0xF4 && |s| >= 4 && Continuation(s[1]) && Continuation(s[2]) && Continuation(s[3])
            && (s[0] == 0xF0 ==> s[1] >= 0x90) && (s[0] == 0xF4 ==> s[1] <= 0x8F) then 4
    else 0
  }

  /** The text of a byte string stops at the first byte that is not UTF-8. */
  function Text(s: seq<Byte>): (t: seq<Byte>)
    ensures t <= s
    decreases |s|
  {
    var n := ScalarLength(s);
    if n == 0 then [] else
      assert s == s[..n] + s[n..];
      s[..n] + Text(s[n..])
  }

  predicate Ascii(s: seq<Byte>) {
    forall i :: 0 <= i < |s| ==> s[i] < 0x80
  }

  lemma {:induction false} AsciiText(s: seq<Byte>)
    requires Ascii(s)
    ensures Text(s) == s
    decreases |s|
  {
    if s != [] {
      AsciiText(s[1..]);
      assert s == s[..1] + s[1..];
    }
  }

  lemma ScalarStays(a: seq<Byte>, b: seq<Byte>)
    ensures ScalarLength(a) > 0 ==> ScalarLength(a + b) == ScalarLength(a)
  {
    assert forall i :: 0 <= i < |a| ==> (a + b)[i] == a[i];
  }

  /** Text in front of text stays. */
  lemma {:induction false} TextAppend(a: seq<Byte>, b: seq<Byte>)
    requires Text(a) == a
    ensures Text(a + b) == a + Text(b)
    decreases |a|
  {
    hide ScalarLength;
    if a == [] {
      assert a + b == b;
    } else {
      var n := ScalarLength(a);
      assert n > 0 && a == a[..n] + Text(a[n..]);
      assert Text(a[n..]) == a[n..];
      ScalarStays(a, b);
      assert (a + b)[n..] == a[n..] + b && (a + b)[..n] == a[..n];
      TextAppend(a[n..], b);
    }
  }

  lemma TextBefore(a: seq<Byte>, b: seq<Byte>)
    requires Ascii(a)
    ensures Text(a + b) == a + Text(b)
  {
    AsciiText(a);
    TextAppend(a, b);
  }
}
