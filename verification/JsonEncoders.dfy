// The encoders: loops that append to a string.
module JsonEncoders {
  import opened Wrappers
  import opened JsonText
  import opened JsonMachine

  method EncodeString(src: string) returns (s: string)
    ensures s == Quoted(src)
  {
    hide Escaped;
    s := "\"";
    assert src[0..] == src;
    for i := 0 to |src|
      invariant Quoted(src) == s + Escaped(src[i..]) + "\""
    {
      EscapedStep(src[i..]);
      assert src[i..][1..] == src[i + 1..];
      match src[i]
      case '\\' => s := s + "\\\\";
      case '\"' => s := s + "\\\"";
      case '\n' => s := s + "\\n";
      case '\r' => s := s + "\\r";
      case '\t' => s := s + "\\t";
      case c =>
        if c == 8 as char {
          s := s + "\\b";
        } else if c == 12 as char {
          s := s + "\\f";
        } else {
          s := s + [c];
        }
    }
    EscapedNothing();
    s := s + "\"";
  }

  lemma EscapedStep(s: string)
    requires s != ""
    ensures Escaped(s) == EscapedChar(s[0]) + Escaped(s[1..])
  {
  }

  lemma EscapedNothing()
    ensures Escaped("") == ""
  {
  }

  /** One encoder takes objects for the dictionaries of their values, the other throws at them. */
  method EncodeValue(host: Host, v: Json, objects: bool) returns (s: Option<string>)
    ensures s == if objects || Plain(v) then Some(Encoded(host, v)) else None
    decreases v
  {
    match v
    case Bool(b) => s := Some(if b then "true" else "false");
    case Int(i) => s := Some(IntText(i));
    case Double(d) => s := Some(host.doubleText(d));
    case Str(t) => var q := EncodeString(t); s := Some(q);
    case Arr(items) => s := EncodeArray(host, items, objects);
    case Obj(entries) => s := EncodeDictionary(host, entries, objects);
    case Null => s := Some("null");
    case Custom(_, entries) =>
      if !objects { return None; }
      s := EncodeDictionary(host, entries, objects);
  }

  method EncodeArray(host: Host, a: seq<Json>, objects: bool) returns (r: Option<string>)
    ensures r == if objects || Plain(Arr(a)) then Some(Encoded(host, Arr(a))) else None
    decreases a
  {
    hide Encoded, Plain, ItemsText;
    ArrayParts(host, a);
    var s, c := "[", false;
    assert a[0..] == a;
    for i := 0 to |a|
      invariant c <==> i > 0
      invariant "[" + ItemsText(host, a) == s + ItemsLeft(host, a, i)
      invariant objects || forall k :: 0 <= k < i ==> Plain(a[k])
    {
      if c { s := s + ","; } else { c := true; }
      var value := EncodeValue(host, a[i], objects);
      ItemsStep(host, a, i);
      if value.None? { assert a[i] in a; return None; }
      s := s + value.value;
    }
    ItemsDone(host, a);
    assert s + "" == s;
    s := s + "]";
    return Some(s);
  }

  method EncodeDictionary(host: Host, d: seq<Entry>, objects: bool) returns (r: Option<string>)
    ensures r == if objects || Plain(Obj(d)) then Some(Encoded(host, Obj(d))) else None
    decreases d
  {
    hide Encoded, Plain, Quoted, EntriesText;
    DictionaryParts(host, d);
    var s, c := "{", false;
    assert d[0..] == d;
    for i := 0 to |d|
      invariant c <==> i > 0
      invariant "{" + EntriesText(host, d) == s + EntriesLeft(host, d, i)
      invariant objects || forall k :: 0 <= k < i ==> Plain(d[k].value)
    {
      if c { s := s + ","; } else { c := true; }
      var key := EncodeString(d[i].key);
      s := s + key;
      s := s + ":";
      var value := EncodeValue(host, d[i].value, objects);
      EntriesStep(host, d, i);
      if value.None? { assert d[i] in d; return None; }
      s := s + value.value;
    }
    EntriesDone(host, d);
    assert s + "" == s;
    s := s + "}";
    return Some(s);
  }

  /** What is still to be written before the i-th item. */
  function ItemsLeft(host: Host, a: seq<Json>, i: nat): string
    requires i <= |a|
  {
    (if 0 < i < |a| then "," else "") + ItemsText(host, a[i..])
  }

  function EntriesLeft(host: Host, d: seq<Entry>, i: nat): string
    requires i <= |d|
  {
    (if 0 < i < |d| then "," else "") + EntriesText(host, d[i..])
  }

  lemma ItemsStep(host: Host, a: seq<Json>, i: nat)
    requires i < |a|
    ensures ItemsLeft(host, a, i) == (if i > 0 then "," else "") + Encoded(host, a[i]) + ItemsLeft(host, a, i + 1)
  {
    hide Encoded;
    assert a[i..][1..] == a[i + 1..];
  }

  lemma EntriesStep(host: Host, d: seq<Entry>, i: nat)
    requires i < |d|
    ensures EntriesLeft(host, d, i) ==
            (if i > 0 then "," else "") + Quoted(d[i].key) + ":" + Encoded(host, d[i].value) + EntriesLeft(host, d, i + 1)
  {
    hide Encoded, Quoted;
    assert d[i..][1..] == d[i + 1..];
  }

  lemma ItemsDone(host: Host, a: seq<Json>)
    ensures ItemsLeft(host, a, |a|) == ""
  {
  }

  lemma EntriesDone(host: Host, d: seq<Entry>)
    ensures EntriesLeft(host, d, |d|) == ""
  {
  }

  lemma ArrayParts(host: Host, a: seq<Json>)
    ensures Encoded(host, Arr(a)) == "[" + ItemsText(host, a) + "]"
    ensures Plain(Arr(a)) <==> forall x :: x in a ==> Plain(x)
  {
  }

  lemma DictionaryParts(host: Host, d: seq<Entry>)
    ensures Encoded(host, Obj(d)) == "{" + EntriesText(host, d) + "}"
    ensures Plain(Obj(d)) <==> forall e :: e in d ==> Plain(e.value)
  {
  }
}
