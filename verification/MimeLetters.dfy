// Letter case by the numbers of the letters: what the reader takes for a key, and what it reads
// behind one.
module MimeLetters {
  import opened Words
  import opened Wrappers
  import opened Utf8
  import opened MimeForm

  /** The same letter in one of its two cases, or the same byte. */
  predicate SameLetter(a: Byte, b: Byte) {
    a == b || (65 <= a <= 90 && b == a + 32) || (97 <= a <= 122 && b == a - 32)
  }

  predicate Spelled(k: seq<Byte>, key: seq<Byte>) {
    |k| == |key| && forall i :: 0 <= i < |k| ==> SameLetter(k[i], key[i])
  }

  lemma LowerExactly(a: Byte, b: Byte)
    ensures Lower(a) == Lower(b) <==> SameLetter(a, b)
  {
  }

  lemma SpelledExactly(k: seq<Byte>, key: seq<Byte>)
    ensures SameLetters(key, k) <==> Spelled(k, key)
  {
    hide Lower, SameLetter;
    if |k| == |key| {
      forall i | 0 <= i < |k|
        ensures Lower(key[i]) == Lower(k[i]) <==> SameLetter(k[i], key[i])
      {
        LowerExactly(k[i], key[i]);
      }
    }
  }

  /** The keys by their numbers. */
  lemma KeysByNumber()
    ensures ContentDisposition() == [67, 111, 110, 116, 101, 110, 116, 45, 68, 105, 115, 112, 111, 115, 105, 116, 105, 111, 110]
    ensures ContentType() == [67, 111, 110, 116, 101, 110, 116, 45, 84, 121, 112, 101]
    ensures NameKey() == [110, 97, 109, 101, 61]
    ensures FileNameKey() == [102, 105, 108, 101, 110, 97, 109, 101, 61]
  {
  }

  /** The letters of the key stand at j, each in either case. */
  predicate StandsAt(key: seq<Byte>, text: seq<Byte>, j: int) {
    0 <= j <= |text| - |key| && Spelled(text[j..j + |key|], key)
  }

  /** The reader takes a key to stand where its letters do. */
  lemma AtExactly(key: seq<Byte>, s: seq<Byte>, k: int)
    ensures At(key, s, k) <==> StandsAt(key, s, k)
  {
    hide SameLetters, Spelled;
    if 0 <= k <= |s| - |key| { SpelledExactly(s[k..k + |key|], key); }
  }

  /** A field is recognised by a beginning of its name, in any spelling, up to the first colon. */
  lemma {:induction false} FindColonExactly(name: seq<Byte>, s: seq<Byte>, c: nat)
    ensures FindColon(name, s) == Some(c) <==>
            c < |s| && s[c] == 58 && c <= |name| && Spelled(s[..c], name[..c]) && 58 !in s[..c]
  {
    hide Lower, SameLetter;
    if s != [] && c > 0 {
      if s[0] == COLON {
        if c < |s| { assert s[..c][0] == 58; }
      } else if name != [] {
        FindColonExactly(name[1..], s[1..], c - 1);
        LowerExactly(s[0], name[0]);
        LowerExactly(name[0], s[0]);
        if c < |s| && c <= |name| {
          assert s[..c] == [s[0]] + s[1..][..c - 1] && name[..c] == [name[0]] + name[1..][..c - 1];
          SpelledCons(s[0], s[1..][..c - 1], name[0], name[1..][..c - 1]);
        }
      }
    }
  }

  lemma SpelledCons(a: Byte, k: seq<Byte>, b: Byte, key: seq<Byte>)
    ensures Spelled([a] + k, [b] + key) <==> SameLetter(a, b) && Spelled(k, key)
  {
    if Spelled([a] + k, [b] + key) {
      assert SameLetter(([a] + k)[0], ([b] + key)[0]);
      forall i | 0 <= i < |k| ensures SameLetter(k[i], key[i]) {
        assert SameLetter(([a] + k)[i + 1], ([b] + key)[i + 1]);
      }
    }
  }

  // ---- lines

  /** No beginning of this name, in any spelling, stands in front of the line's first colon. */
  predicate Other(name: seq<Byte>, line: seq<Byte>) {
    forall c :: 0 <= c < |line| && line[c] == 58 && c <= |name| && Spelled(line[..c], name[..c]) ==> 58 in line[..c]
  }

  lemma OtherIsNone(name: seq<Byte>, line: seq<Byte>)
    ensures Other(name, line) <==> FindColon(name, line) == None
  {
    hide FindColon, Spelled;
    forall c: nat
      ensures FindColon(name, line) == Some(c) <==>
              c < |line| && line[c] == 58 && c <= |name| && Spelled(line[..c], name[..c]) && 58 !in line[..c]
    {
      FindColonExactly(name, line, c);
    }
    if FindColon(name, line).Some? {
      var c := FindColon(name, line).value;
      assert FindColon(name, line) == Some(c);
    }
  }

  /** A line of another field says nothing of the part. */
  lemma OtherLineIsPassed(p: Part, line: seq<Byte>)
    requires Other(ContentDisposition(), line) && Other(ContentType(), line)
    ensures ReadLine(p, line) == Some(p)
  {
    hide FindColon, Other, PullValue;
    OtherIsNone(ContentDisposition(), line);
    OtherIsNone(ContentType(), line);
  }

  /** Nothing at all behind the colon traps. */
  lemma BareFieldTraps(p: Part, k: seq<Byte>)
    requires Spelled(k, ContentDisposition()) || Spelled(k, ContentType())
    ensures ReadLine(p, k + [58]) == None
  {
    hide FindColon, ContentDisposition, ContentType, PullValue, Spelled;
    var line := k + [58];
    assert line[..|k|] == k;
    NoColonInKeys(k);
    if Spelled(k, ContentDisposition()) {
      SpelledLength(k, ContentDisposition());
      FindColonExactly(ContentDisposition(), line, |k|);
      assert ContentDisposition()[..|k|] == ContentDisposition();
    } else {
      SpelledLength(k, ContentType());
      FindColonExactly(ContentType(), line, |k|);
      assert ContentType()[..|k|] == ContentType();
      TypeIsOther(k, []);
      OtherIsNone(ContentDisposition(), k + [58] + []);
      assert k + [58] + [] == line;
    }
  }

  lemma SpelledLength(k: seq<Byte>, key: seq<Byte>)
    requires Spelled(k, key)
    ensures |k| == |key|
  {
  }

  lemma NoColonInKeys(k: seq<Byte>)
    requires Spelled(k, ContentDisposition()) || Spelled(k, ContentType())
    ensures 58 !in k
  {
    KeysByNumber();
  }

  /** "Content-T" begins no "Content-Disposition". */
  lemma TypeIsOther(k: seq<Byte>, rest: seq<Byte>)
    requires Spelled(k, ContentType())
    ensures Other(ContentDisposition(), k + [58] + rest)
  {
    hide ContentDisposition, ContentType, SameLetter;
    KeysByNumber();
    NoColonInKeys(k);
    var line, name := k + [58] + rest, ContentDisposition();
    assert SameLetter(k[8], 84);
    assert line[8] == k[8];
    forall c | 0 <= c < |line|
      ensures line[c] == 58 && c <= |name| && Spelled(line[..c], name[..c]) ==> 58 in line[..c]
    {
      if c <= 8 {
        assert line[c] == k[c] && k[c] in k;
      } else if c <= |name| {
        TAndD(line[..c], name[..c]);
      }
    }
  }

  /** Behind "Content-" one goes on with a T, the other with a D. */
  lemma TAndD(k: seq<Byte>, name: seq<Byte>)
    requires |k| > 8 && |name| > 8 && SameLetter(k[8], 84) && name[8] == 68
    ensures !Spelled(k, name)
  {
  }

  // ---- values

  /** No quote and no semicolon. */
  predicate NoStop(v: seq<Byte>) { 34 !in v && 59 !in v }

  /** A place where a value stops, or the end of the line. */
  predicate Stopped(rest: seq<Byte>) { rest == [] || rest[0] == 34 || rest[0] == 59 }

  lemma {:induction false} StopsThere(v: seq<Byte>, rest: seq<Byte>)
    requires NoStop(v) && Stopped(rest)
    ensures UpToStop(v + rest) == v
  {
    if v == [] {
      assert v + rest == rest;
    } else {
      assert v[0] in v && (v + rest)[1..] == v[1..] + rest && v == [v[0]] + v[1..];
      StopsThere(v[1..], rest);
    }
  }

  /** The key stands behind a, and nowhere before. */
  predicate FirstAt(key: seq<Byte>, a: seq<Byte>, text: seq<Byte>) {
    a <= text && StandsAt(key, text, |a|) && forall j :: 0 <= j < |a| ==> !StandsAt(key, text, j)
  }

  lemma FirstIsIndex(key: seq<Byte>, a: seq<Byte>, text: seq<Byte>)
    requires FirstAt(key, a, text)
    ensures IndexOf(key, text) == |a|
  {
    hide IndexOf, At, Spelled;
    AtExactly(key, text, |a|);
    forall j | 0 <= j < |a| ensures !At(key, text, j) { AtExactly(key, text, j); }
    IndexIsFirst(key, text, |a|);
  }

  lemma IndexIsFirst(key: seq<Byte>, text: seq<Byte>, n: nat)
    requires At(key, text, n) && forall j :: 0 <= j < n ==> !At(key, text, j)
    ensures IndexOf(key, text) == n
  {
    hide At;
    var i := IndexOf(key, text);
    assert i == -1 || At(key, text, i);
    assert 0 <= i <= n;
  }

  /** A value in quotes, up to a quote or a semicolon. */
  lemma QuotedIsPulled(key: seq<Byte>, a: seq<Byte>, k: seq<Byte>, v: seq<Byte>, rest: seq<Byte>)
    requires var text := a + k + [34] + v + rest; |k| == |key| && FirstAt(key, a, text) && NoStop(v) && Stopped(rest)
    ensures PullValue(key, a + k + [34] + v + rest) == Some(v)
  {
    hide IndexOf, UpToStop, Spelled, NoStop, Stopped;
    var text := a + k + [34] + v + rest;
    FirstIsIndex(key, a, text);
    assert text[|a| + |key|..] == [34] + (v + rest) && ([34] + (v + rest))[1..] == v + rest;
    StopsThere(v, rest);
  }

  /** A value without quotes, up to a quote or a semicolon; or nothing, in front of a semicolon. */
  lemma BareIsPulled(key: seq<Byte>, a: seq<Byte>, k: seq<Byte>, v: seq<Byte>, rest: seq<Byte>)
    requires var text := a + k + v + rest; |k| == |key| && FirstAt(key, a, text) && NoStop(v) && Stopped(rest)
    requires v != [] || (rest != [] && rest[0] == 59)
    ensures PullValue(key, a + k + v + rest) == Some(v)
  {
    hide IndexOf, UpToStop, Spelled, Stopped;
    var text := a + k + v + rest;
    FirstIsIndex(key, a, text);
    assert text[|a| + |key|..] == v + rest;
    if v != [] { assert v[0] in v; }
    StopsThere(v, rest);
  }

  /** Nothing behind the key traps. */
  lemma NothingPulledTraps(key: seq<Byte>, a: seq<Byte>, k: seq<Byte>)
    requires |k| == |key| && FirstAt(key, a, a + k)
    ensures PullValue(key, a + k) == None
  {
    hide IndexOf, UpToStop, Spelled;
    FirstIsIndex(key, a, a + k);
  }

  /** Without the key there is no value. */
  lemma NothingToPull(key: seq<Byte>, text: seq<Byte>)
    requires forall j :: !StandsAt(key, text, j)
    ensures PullValue(key, text) == Some([])
  {
    hide IndexOf, UpToStop, Spelled, At;
    forall j ensures !At(key, text, j) { AtExactly(key, text, j); }
    assert IndexOf(key, text) == -1 || At(key, text, IndexOf(key, text));
  }
}
