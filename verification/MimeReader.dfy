// The reader itself: body specs filled in place by loops over a position, each call equal
// to the specification's Run.
module MimeReader {
  import opened Words
  import opened Wrappers
  import opened Utf8
  import opened MimeForm
  import opened MimeLayout

  /** One part of the form; `file` is what was written to its temporary file. */
  class BodySpec {
    var fieldName: seq<Byte>
    var fieldValue: seq<Byte>
    var fieldValueTempBytes: Option<seq<Byte>>
    var contentType: seq<Byte>
    var fileName: seq<Byte>
    var fileSize: nat
    var file: Option<seq<Byte>>

    constructor ()
      ensures Value() == EMPTY_PART && Sized()
    {
      fieldName, fieldValue, fieldValueTempBytes, contentType, fileName, fileSize, file := [], [], None, [], [], 0, None;
    }

    function Value(): Part
      reads this
    {
      Part(fieldName, fieldValue, fieldValueTempBytes, contentType, fileName, file)
    }

    predicate Sized()
      reads this
    {
      fileSize == if file.Some? then |file.value| else 0
    }
  }

  function Values(specs: seq<BodySpec>): (ps: seq<Part>)
    reads specs
    ensures |ps| == |specs|
  {
    seq(|specs|, i requires 0 <= i < |specs| reads specs => specs[i].Value())
  }

  lemma ValuesSnoc(specs: seq<BodySpec>, spec: BodySpec)
    ensures Values(specs + [spec]) == Values(specs) + [spec.Value()]
  {
  }

  twostate lemma OnlyLast(specs: seq<BodySpec>)
    requires specs != [] && forall i, j :: 0 <= i < j < |specs| ==> specs[i] != specs[j]
    requires forall i :: 0 <= i < |specs| - 1 ==> unchanged(specs[i])
    ensures Values(specs) == old(Values(specs))[..|specs| - 1] + [specs[|specs| - 1].Value()]
  {
  }

  /** isBoundaryStart. */
  method IsBoundaryStart(boundary: seq<Byte>, bytes: seq<Byte>, start: nat) returns (found: bool)
    requires start <= |bytes|
    ensures found <==> boundary <= bytes[start..]
  {
    var pos, next := start, 0;
    while next < |boundary|
      invariant next <= |boundary| && pos == start + next <= |bytes|
      invariant boundary[..next] == bytes[start..pos]
    {
      if pos == |bytes| || boundary[next] != bytes[pos] {
        PrefixAt(boundary, bytes[start..], next);
        return false;
      }
      assert boundary[..next + 1] == boundary[..next] + [boundary[next]];
      assert bytes[start..pos + 1] == bytes[start..pos] + [bytes[pos]];
      pos, next := pos + 1, next + 1;
    }
    assert boundary[..next] == boundary;
    assert bytes[start..][..next] == bytes[start..pos];
    return true;
  }

  lemma PrefixAt(a: seq<Byte>, s: seq<Byte>, k: nat)
    requires k < |a|
    ensures a <= s ==> k < |s| && a[k] == s[k]
  {
  }

  /** isField. */
  method IsField(name: seq<Byte>, bytes: seq<Byte>, start: nat) returns (check: nat)
    requires start <= |bytes|
    ensures var c := FindColon(name, bytes[start..]); check == if c.Some? then start + c.value else |bytes|
  {
    check := start;
    var gen := 0;
    ghost var c := FindColon(name, bytes[start..]);
    while check != |bytes|
      invariant start <= check <= |bytes| && gen == check - start <= |name|
      invariant c == Shifted(FindColon(name[gen..], bytes[check..]), gen)
      decreases |bytes| - check
    {
      if bytes[check] == COLON {
        return;
      }
      if gen == |name| || Lower(name[gen]) != Lower(bytes[check]) {
        break;
      }
      assert bytes[check..][1..] == bytes[check + 1..] && name[gen..][1..] == name[gen + 1..];
      check, gen := check + 1, gen + 1;
    }
    check := |bytes|;
  }

  function Shifted(c: Option<nat>, n: nat): Option<nat> {
    if c.Some? then Some(c.value + n) else None
  }

  /** rangeOf, letter case aside: where the key starts; -1 if it does not occur. */
  method RangeOf(text: seq<Byte>, key: seq<Byte>) returns (idx: int)
    requires key != []
    ensures idx == IndexOf(key, text)
  {
    for i := 0 to |text|
      invariant forall k :: 0 <= k < i ==> !At(key, text, k)
    {
      if Lower(text[i]) == Lower(key[0]) {
        var newIdx, findIdx := i + 1, 1;
        while newIdx != |text| && findIdx != |key| && Lower(text[newIdx]) == Lower(key[findIdx])
          invariant newIdx == i + findIdx <= |text| && findIdx <= |key|
          invariant forall m :: 0 <= m < findIdx ==> Lower(key[m]) == Lower(text[i..newIdx][m])
        {
          assert text[i..newIdx + 1] == text[i..newIdx] + [text[newIdx]];
          newIdx, findIdx := newIdx + 1, findIdx + 1;
        }
        if findIdx == |key| {
          assert At(key, text, i);
          return i;
        }
        if i + findIdx < |text| { Letter(key, text, i, findIdx); }
      } else {
        Letter(key, text, i, 0);
      }
    }
    return -1;
  }

  /** pullValue's loop. */
  method Accumulate(from: seq<Byte>, begin: nat) returns (accum: seq<Byte>)
    requires begin <= |from|
    ensures accum == UpToStop(from[begin..])
  {
    hide UpToStop;
    accum := [];
    var start := begin;
    while start < |from|
      invariant begin <= start <= |from| && UpToStop(from[begin..]) == accum + UpToStop(from[start..])
    {
      UpToStep(from, start);
      if from[start] == QUOTE || from[start] == SEMICOLON {
        return;
      }
      assert accum + ([from[start]] + UpToStop(from[start + 1..])) == (accum + [from[start]]) + UpToStop(from[start + 1..]);
      accum := accum + [from[start]];
      start := start + 1;
    }
    assert from[start..] == [];
  }

  lemma UpToStep(s: seq<Byte>, i: nat)
    requires i < |s|
    ensures UpToStop(s[i..]) == if s[i] == QUOTE || s[i] == SEMICOLON then [] else [s[i]] + UpToStop(s[i + 1..])
    ensures UpToStop([]) == []
  {
    assert s[i..][1..] == s[i + 1..];
  }

  /** pullValue; None when it looks past the end of the text. */
  method Pull(name: seq<Byte>, from: seq<Byte>) returns (value: Option<seq<Byte>>)
    requires name != []
    ensures value == PullValue(name, from)
  {
    hide IndexOf, PullValue, UpToStop;
    IndexRange(name, from);
    PullCases(name, from);
    var range := RangeOf(from, name);
    if range < 0 {
      return Some([]);
    }
    var start := range + |name|;
    if start == |from| {
      return None;
    }
    ghost var after := from[start..];
    if from[start] == QUOTE {
      assert after[1..] == from[start + 1..];
      start := start + 1;
    }
    var accum := Accumulate(from, start);
    PullAt(name, from, after, accum);
    return Some(accum);
  }

  lemma PullCases(name: seq<Byte>, from: seq<Byte>)
    ensures IndexOf(name, from) < 0 ==> PullValue(name, from) == Some([])
    ensures IndexOf(name, from) >= 0 && IndexOf(name, from) + |name| == |from| ==> PullValue(name, from) == None
  {
    hide IndexOf;
  }

  /** The check both body states make of the byte at a position. */
  method LookHere(f: Form, bytes: seq<Byte>, position: nat) returns (l: Look)
    requires f.WellFormed() && position < |bytes|
    ensures l == LookAt(f, bytes[position..])
  {
    var end := |bytes|;
    if bytes[position] == CR {
      if end - position == 1 {
        return Wait;
      }
      if bytes[position + 1] == LF {
        assert bytes[position..][2..] == bytes[position + 2..];
        var boundaryStart := IsBoundaryStart(f.boundary, bytes, position + 2);
        if boundaryStart {
          return Ends;
        } else if end - position - 2 < f.count {
          if end - position < 4 || (bytes[position + 2] == DASH && bytes[position + 3] == DASH) {
            return Wait;
          }
        }
      }
    }
    return Take;
  }

  /** The start of a header line does not look past the end of the line. */
  lemma {:induction false} FieldStopsAtEol(name: seq<Byte>, s: seq<Byte>, eol: nat)
    requires eol < |s| && s[eol] == CR && forall i :: 0 <= i < |name| ==> Lower(name[i]) != CR
    ensures FindColon(name, s) == FindColon(name, s[..eol])
  {
    if eol > 0 && name != [] {
      assert s[..eol][1..] == s[1..][..eol - 1];
      FieldStopsAtEol(name[1..], s[1..], eol - 1);
    }
  }

  lemma FieldNames()
    ensures forall i :: 0 <= i < |ContentDisposition()| ==> Lower(ContentDisposition()[i]) != CR
    ensures forall i :: 0 <= i < |ContentType()| ==> Lower(ContentType()[i]) != CR
    ensures NameKey() != [] && FileNameKey() != []
  {
  }

  /** What a turn of the loop did: used bytes up to position', or kept all there are. */
  predicate Went(f: Form, r: Reader, s: seq<Byte>, r': Reader, s': seq<Byte>, clearBuffer: bool, buffer: seq<Byte>)
    requires f.WellFormed() && r.Valid() && r'.Valid()
  {
    if clearBuffer then |s'| < |s| && Run(f, r, s) == Run(f, r', s')
    else s' == [] && r'.Valid() && Run(f, r, s) == Result(r', buffer)
  }

  class MimeReader {
    const form: Form
    const multi: bool
    var bodySpecs: seq<BodySpec>
    var gotFile: bool
    var buffer: seq<Byte>
    var state: State

    ghost function Abs(): Reader
      reads `state, `bodySpecs, `gotFile, bodySpecs
    {
      Reader(state, Values(bodySpecs), gotFile)
    }

    ghost predicate Valid()
      reads `state, `bodySpecs, `gotFile, bodySpecs
    {
      && form.WellFormed() && Abs().Valid()
      && (forall i, j :: 0 <= i < j < |bodySpecs| ==> bodySpecs[i] != bodySpecs[j])
      && (forall i :: 0 <= i < |bodySpecs| ==> bodySpecs[i].Sized())
    }

    /** For a form whose boundary line is two dashes and boundaryString. */
    constructor (multi: bool, boundaryString: seq<Byte>, characters: nat)
      requires characters <= |boundaryString|
      ensures Valid() && bodySpecs == [] && buffer == [] && this.multi == multi
      ensures form == Form([DASH, DASH] + boundaryString, 2 + characters)
      ensures Abs() == Reader(if multi then Boundary else Idle, [], false)
    {
      form := Form([DASH, DASH] + boundaryString, 2 + characters);
      this.multi, bodySpecs, gotFile, buffer, state := multi, [], false, [], if multi then Boundary else Idle;
    }

    method ReadBoundary(bytes: seq<Byte>, start: nat) returns (position: nat, clearBuffer: bool)
      requires Valid() && state == Boundary && start < |bytes|
      modifies this
      ensures Valid() && position <= |bytes| && fresh(set s | s in bodySpecs && s !in old(bodySpecs))
      ensures Went(form, old(Abs()), bytes[start..], Abs(), bytes[position..], clearBuffer, buffer)
      ensures state in {Boundary, Header} || (state == Done && position == |bytes| && clearBuffer)
    {
      hide Run, Values;
      var end := |bytes|;
      RunTurn(form, Abs(), bytes[start..]);
      if end - start < form.count + 2 {
        buffer := bytes[start..];
        return end, false;
      }
      position := start + form.count;
      ghost var s := bytes[start..];
      assert bytes[position] == s[form.count] && bytes[position + 1] == s[form.count + 1];
      if bytes[position] == DASH && bytes[position + 1] == DASH {
        state := Done;
        position := end;
      } else {
        state := Header;
        var spec := new BodySpec();
        ValuesSnoc(bodySpecs, spec);
        bodySpecs := bodySpecs + [spec];
        position := position + 2;
        assert s[form.count + 2..] == bytes[position..];
      }
      clearBuffer := true;
    }

    /** A header line, from start to eolPos. */
    method ReadHeaderLine(spec: BodySpec, bytes: seq<Byte>, start: nat, eolPos: nat) returns (ok: bool)
      requires start < eolPos < |bytes| && bytes[eolPos] == CR && spec.Sized()
      modifies spec
      ensures var p := ReadLine(old(spec.Value()), bytes[start..eolPos]);
              ok == p.Some? && (ok ==> spec.Value() == p.value && spec.Sized())
    {
      hide FindColon, PullValue, Text, ContentDisposition, ContentType, NameKey, FileNameKey;
      ghost var s := bytes[start..];
      FieldNames();
      FieldStopsAtEol(ContentDisposition(), s, eolPos - start);
      FieldStopsAtEol(ContentType(), s, eolPos - start);
      assert s[..eolPos - start] == bytes[start..eolPos];
      var check := IsField(ContentDisposition(), bytes, start);
      if check != |bytes| {
        if check + 2 > eolPos {
          return false;
        }
        assert bytes[start..eolPos][check + 2 - start..] == bytes[check + 2..eolPos];
        var line := Text(bytes[check + 2..eolPos]);
        var name := Pull(NameKey(), line);
        var fileName := Pull(FileNameKey(), line);
        if name.None? || fileName.None? {
          return false;
        }
        spec.fieldName := name.value;
        spec.fileName := fileName.value;
      } else {
        check := IsField(ContentType(), bytes, start);
        if check != |bytes| {
          if check + 2 > eolPos {
            return false;
          }
          assert bytes[start..eolPos][check + 2 - start..] == bytes[check + 2..eolPos];
          spec.contentType := Text(bytes[check + 2..eolPos]);
        }
      }
      return true;
    }

    /** The end of the line, or the last byte but one. */
    method FindEol(bytes: seq<Byte>, position: nat) returns (eolPos: nat)
      requires position < |bytes|
      ensures position <= eolPos < |bytes|
      ensures var i := LineEnd(bytes[position..]); if i < 0 then eolPos == |bytes| - 1 else eolPos == position + i && eolPos + 1 < |bytes|
    {
      ghost var s := bytes[position..];
      eolPos := position;
      while |bytes| - eolPos > 1
        invariant position <= eolPos < |bytes|
        invariant forall k {:trigger s[k]} :: 0 <= k < eolPos - position ==> !(s[k] == CR && s[k + 1] == LF)
      {
        var b1, b2 := bytes[eolPos], bytes[eolPos + 1];
        assert b1 == s[eolPos - position] && b2 == s[eolPos - position + 1];
        if b1 == CR && b2 == LF {
          return;
        }
        eolPos := eolPos + 1;
      }
    }

    /** Only the last spec changed. */
    twostate lemma LastChanged()
      requires old(Valid()) && bodySpecs == old(bodySpecs) && bodySpecs != []
      requires forall i :: 0 <= i < |bodySpecs| - 1 ==> unchanged(bodySpecs[i])
      requires bodySpecs[|bodySpecs| - 1].Sized()
      ensures Abs() == Reader(state, old(Abs()).WithLast(bodySpecs[|bodySpecs| - 1].Value()).parts, gotFile)
      ensures Abs().Valid() ==> Valid()
    {
      OnlyLast(bodySpecs);
    }

    lemma LastValue()
      requires Valid() && bodySpecs != []
      ensures Abs().parts != [] && Abs().Last() == bodySpecs[|bodySpecs| - 1].Value() && bodySpecs[|bodySpecs| - 1].Sized()
      ensures form.WellFormed() && Abs().Valid()
      ensures forall i :: 0 <= i < |bodySpecs| - 1 ==> bodySpecs[i] != bodySpecs[|bodySpecs| - 1]
    {
    }

    lemma Sound()
      requires Valid()
      ensures form.WellFormed() && Abs().Valid() && |Abs().parts| == |bodySpecs|
      ensures state in {Header, FieldValue, File} ==> bodySpecs != []
    {
    }

    /** The blank line: open the temporary file, or start gathering a value. */
    method StartBody()
      requires Valid() && state == Header
      modifies this`state, bodySpecs[|bodySpecs| - 1]
      ensures Valid() && Abs() == MimeForm.BeginBody(old(Abs()))
    {
      hide Valid, Values;
      Sound();
      LastValue();
      var spec := bodySpecs[|bodySpecs| - 1];
      if |spec.fileName| > 0 {
        spec.file := Some([]);
        spec.fileSize := 0;
        state := File;
      } else {
        state := FieldValue;
        spec.fieldValueTempBytes := Some([]);
      }
      LastChanged();
    }

    /** A header line is read and passed over. */
    method TakeLine(bytes: seq<Byte>, start: nat, eolPos: nat) returns (ok: bool)
      requires Valid() && state == Header && start < eolPos && eolPos + 1 < |bytes| && LineEnd(bytes[start..]) == eolPos - start
      modifies bodySpecs[|bodySpecs| - 1]
      ensures form.WellFormed() && old(Abs()).Valid()
      ensures !ok ==> Run(form, old(Abs()), bytes[start..]).r.state == Trapped
      ensures ok ==> Valid() && Run(form, old(Abs()), bytes[start..]) == Run(form, Abs(), bytes[eolPos + 2..])
    {
      hide Valid, Run, Values, LineEnd, ReadLine;
      Sound();
      LastValue();
      ghost var s := bytes[start..];
      RunTurn(form, Abs(), s);
      assert s[..eolPos - start] == bytes[start..eolPos] && s[eolPos - start + 2..] == bytes[eolPos + 2..];
      assert bytes[eolPos] == s[eolPos - start];
      ok := ReadHeaderLine(bodySpecs[|bodySpecs| - 1], bytes, start, eolPos);
      if !ok {
        RunHalted(form, old(Abs()).(state := Trapped), s[|s|..]);
        return;
      }
      LastChanged();
    }

    method ReadHeader(bytes: seq<Byte>, start: nat) returns (position: nat, clearBuffer: bool, ok: bool)
      requires Valid() && state == Header && start < |bytes|
      modifies this`state, this`buffer, bodySpecs[|bodySpecs| - 1]
      ensures form.WellFormed() && old(Abs()).Valid()
      ensures !ok ==> Run(form, old(Abs()), bytes[start..]).r.state == Trapped
      ensures ok ==> Valid() && position <= |bytes| && Went(form, old(Abs()), bytes[start..], Abs(), bytes[position..], clearBuffer, buffer)
      ensures ok ==> state in {Header, FieldValue, File}
    {
      hide Valid, Run, Values, LineEnd, ReadLine, MimeForm.BeginBody;
      var end := |bytes|;
      Sound();
      RunTurn(form, Abs(), bytes[start..]);
      position, clearBuffer, ok := start, true, true;
      var eolPos := FindEol(bytes, start);
      if end - eolPos <= 1 {
        buffer := bytes[start..];
        position, clearBuffer := end, false;
        return;
      }
      if eolPos != start {
        ok := TakeLine(bytes, start, eolPos);
        if !ok {
          return;
        }
        position := eolPos + 2;
        Sound();
      }
      if (eolPos == position || position != end) && end - position > 1 && bytes[position] == CR && bytes[position + 1] == LF {
        BlankLine(form, Abs(), bytes, position);
        position := position + 2;
        StartBody();
        Sound();
      }
    }

    /** One byte more of a field's value. */
    method TakeValueByte(b: Byte)
      requires Valid() && state == FieldValue
      modifies bodySpecs[|bodySpecs| - 1]
      ensures Valid() && Abs().Valid() && old(Abs()).Valid() && Abs() == TakeByte(old(Abs()), b)
    {
      hide Valid, Values;
      Sound();
      LastValue();
      var spec := bodySpecs[|bodySpecs| - 1];
      spec.fieldValueTempBytes := Some(spec.fieldValueTempBytes.value + [b]);
      LastChanged();
    }

    method EndValue()
      requires Valid() && state == FieldValue
      modifies this`state, bodySpecs[|bodySpecs| - 1]
      ensures Valid() && Abs().Valid() && old(Abs()).Valid() && Abs() == EndBody(old(Abs()))
    {
      hide Valid, Values, Text;
      Sound();
      LastValue();
      var spec := bodySpecs[|bodySpecs| - 1];
      state := Boundary;
      spec.fieldValue := Text(spec.fieldValueTempBytes.value);
      spec.fieldValueTempBytes := None;
      LastChanged();
    }

    method ReadFieldValue(bytes: seq<Byte>, start: nat) returns (position: nat, clearBuffer: bool)
      requires Valid() && state == FieldValue && start < |bytes|
      modifies this`state, this`buffer, bodySpecs[|bodySpecs| - 1]
      ensures form.WellFormed() && old(Abs()).Valid()
      ensures Valid() && position <= |bytes| && Went(form, old(Abs()), bytes[start..], Abs(), bytes[position..], clearBuffer, buffer)
      ensures state in {FieldValue, Boundary}
    {
      hide Valid, Run, LookAt, TakeByte, EndBody, Values, Form.WellFormed, Reader.Valid;
      Sound();
      position, clearBuffer := start, true;
      var end := |bytes|;
      while position != end
        invariant Valid() && state == FieldValue && form.WellFormed() && Abs().Valid() && bodySpecs != []
        invariant start <= position <= end
        invariant Run(form, old(Abs()), bytes[start..]) == Run(form, Abs(), bytes[position..])
        decreases end - position
      {
        var look := LookHere(form, bytes, position);
        BodyTurn(form, Abs(), bytes, position);
        match look {
          case Wait =>
            buffer := bytes[position..];
            return end, false;
          case Ends =>
            position := position + 2;
            EndValue();
            return;
          case Take =>
            TakeValueByte(bytes[position]);
            position := position + 1;
        }
      }
    }

    /** As much file data as the write loop found. */
    method WriteFile(chunk: seq<Byte>)
      requires Valid() && state == File && chunk != []
      modifies this`gotFile, bodySpecs[|bodySpecs| - 1]
      ensures Valid() && Abs().Valid() && old(Abs()).Valid() && Abs() == Taken(old(Abs()), chunk)
    {
      hide Valid, Values, Taken;
      Sound();
      LastValue();
      TakenBytes(Abs(), chunk);
      var spec := bodySpecs[|bodySpecs| - 1];
      spec.file := Some(spec.file.value + chunk);
      spec.fileSize := spec.fileSize + |chunk|;
      gotFile := true;
      LastChanged();
    }

    method EndFile()
      requires Valid() && state == File
      modifies this`state
      ensures Valid() && Abs().Valid() && old(Abs()).Valid() && Abs() == EndBody(old(Abs()))
    {
      state := Boundary;
    }

    /** How far the file data goes: to the first byte that cannot be taken. */
    method FindWriteEnd(bytes: seq<Byte>, position: nat) returns (writeEnd: nat)
      requires form.WellFormed() && position < |bytes|
      ensures position <= writeEnd <= |bytes|
      ensures forall j :: position <= j < writeEnd ==> LookAt(form, bytes[j..]) == Take
      ensures writeEnd < |bytes| ==> LookAt(form, bytes[writeEnd..]) != Take
    {
      hide LookAt;
      writeEnd := position;
      while writeEnd < |bytes|
        invariant position <= writeEnd <= |bytes|
        invariant forall j :: position <= j < writeEnd ==> LookAt(form, bytes[j..]) == Take
      {
        var look := LookHere(form, bytes, writeEnd);
        if look != Take {
          break;
        }
        writeEnd := writeEnd + 1;
      }
    }

    method ReadFile(bytes: seq<Byte>, start: nat) returns (position: nat, clearBuffer: bool)
      requires Valid() && state == File && start < |bytes|
      modifies this`state, this`buffer, this`gotFile, bodySpecs[|bodySpecs| - 1]
      ensures form.WellFormed() && old(Abs()).Valid()
      ensures Valid() && position <= |bytes| && Went(form, old(Abs()), bytes[start..], Abs(), bytes[position..], clearBuffer, buffer)
      ensures state in {File, Boundary}
    {
      hide Valid, Run, LookAt, TakeByte, Taken, Values, Form.WellFormed, Reader.Valid;
      Sound();
      position, clearBuffer := start, true;
      var end := |bytes|;
      while position != end
        invariant Valid() && state == File && form.WellFormed() && Abs().Valid() && bodySpecs != []
        invariant start <= position <= end
        invariant Run(form, old(Abs()), bytes[start..]) == Run(form, Abs(), bytes[position..])
        decreases end - position
      {
        var look := LookHere(form, bytes, position);
        BodyTurn(form, Abs(), bytes, position);
        match look {
          case Wait =>
            buffer := bytes[position..];
            return end, false;
          case Ends =>
            position := position + 2;
            EndFile();
            return;
          case Take =>
            var writeEnd := FindWriteEnd(bytes, position);
            TakesTo(form, Abs(), bytes, position, writeEnd);
            WriteFile(bytes[position..writeEnd]);
            if writeEnd == end {
              buffer := [];
            }
            position := writeEnd;
        }
      }
    }

    /** One pass over what is there; false for a trap. What cannot be decided yet stays in the buffer. */
    method InternalAddToBuffer(bytes: seq<Byte>) returns (ok: bool)
      requires Valid() && (state in {Idle, Done} ==> buffer == []) && state != Trapped
      modifies this, bodySpecs
      ensures form.WellFormed() && old(Abs()).Valid()
      ensures !ok ==> Run(form, old(Abs()), bytes).r.state == Trapped
      ensures ok ==> Valid() && state != Trapped && Run(form, old(Abs()), bytes) == Result(Abs(), buffer)
      ensures fresh((set s | s in bodySpecs) - old(set s | s in bodySpecs))
    {
      hide Valid, Run, Values, Reader.Valid, Form.WellFormed, Turn;
      Sound();
      var clearBuffer, position, end := true, 0, |bytes|;
      assert bytes[0..] == bytes;
      while position != end
        invariant Valid() && form.WellFormed() && Abs().Valid() && position <= end
        invariant state != Trapped && (state in {Idle, Done} ==> buffer == [] || (position == end && clearBuffer))
        invariant fresh((set s | s in bodySpecs) - old(set s | s in bodySpecs))
        invariant if clearBuffer then Run(form, old(Abs()), bytes) == Run(form, Abs(), bytes[position..])
                  else position == end && Run(form, old(Abs()), bytes) == Result(Abs(), buffer)
        decreases end - position
      {
        match state {
          case Done =>
            RunHalted(form, Abs(), bytes[position..]);
            return true;
          case Idle =>
            RunHalted(form, Abs(), bytes[position..]);
            return true;
          case Boundary =>
            position, clearBuffer := ReadBoundary(bytes, position);
          case Header =>
            Sound();
            position, clearBuffer, ok := ReadHeader(bytes, position);
            if !ok {
              return;
            }
          case FieldValue =>
            Sound();
            position, clearBuffer := ReadFieldValue(bytes, position);
          case File =>
            Sound();
            position, clearBuffer := ReadFile(bytes, position);
        }
        Sound();
      }
      assert bytes[end..] == [];
      RunNothing(form, Abs());
      if clearBuffer {
        buffer := [];
      }
      ok := true;
    }

    /** Data to be parsed, behind what an earlier call could not decide. */
    method AddToBuffer(bytes: seq<Byte>) returns (ok: bool)
      requires Valid() && (state in {Idle, Done} && multi ==> buffer == []) && state != Trapped
      modifies this, bodySpecs
      ensures form.WellFormed() && old(Abs()).Valid()
      ensures !multi ==> ok && Abs() == old(Abs()) && buffer == old(buffer) + bytes
      ensures multi && !ok ==> Run(form, old(Abs()), old(buffer) + bytes).r.state == Trapped
      ensures multi && ok ==> Valid() && state != Trapped && Run(form, old(Abs()), old(buffer) + bytes) == Result(Abs(), buffer)
    {
      hide Valid, Run, Values;
      Sound();
      ok := true;
      if multi {
        assert [] + bytes == bytes;
        if |buffer| != 0 {
          buffer := buffer + bytes;
          ok := InternalAddToBuffer(buffer);
        } else {
          ok := InternalAddToBuffer(bytes);
        }
      } else {
        buffer := buffer + bytes;
      }
    }
  }

  lemma RunNothing(f: Form, r: Reader)
    requires f.WellFormed() && r.Valid()
    ensures Run(f, r, []) == Result(r, [])
  {
  }

  lemma RunHalted(f: Form, r: Reader, s: seq<Byte>)
    requires f.WellFormed() && r.Valid() && r.Halted()
    ensures Run(f, r, s) == Result(r, [])
  {
  }

  lemma BlankLine(f: Form, r: Reader, bytes: seq<Byte>, position: nat)
    requires f.WellFormed() && r.Valid() && r.state == Header
    requires position + 1 < |bytes| && bytes[position] == CR && bytes[position + 1] == LF
    ensures Run(f, r, bytes[position..]) == Run(f, MimeForm.BeginBody(r), bytes[position + 2..])
  {
    hide MimeForm.BeginBody;
    assert bytes[position..][2..] == bytes[position + 2..];
    assert LineEnd(bytes[position..]) == 0;
  }

  /** One look at a body, in terms of positions. */
  lemma BodyTurn(f: Form, r: Reader, bytes: seq<Byte>, position: nat)
    requires f.WellFormed() && r.Valid() && r.state in {FieldValue, File} && position < |bytes|
    ensures var s := bytes[position..];
            match LookAt(f, s)
            case Take => Run(f, r, s) == Run(f, TakeByte(r, bytes[position]), bytes[position + 1..])
            case Ends => position + 2 <= |bytes| && Run(f, r, s) == Run(f, EndBody(r), bytes[position + 2..])
            case Wait => Run(f, r, s) == Result(r, s)
  {
    hide LookAt, TakeByte, EndBody, Run;
    var s := bytes[position..];
    RunTurn(f, r, s);
    assert s[1..] == bytes[position + 1..];
    if LookAt(f, s) == Ends { assert s[2..] == bytes[position + 2..]; }
  }

  lemma {:induction false} TakesTo(f: Form, r: Reader, bytes: seq<Byte>, position: nat, end: nat)
    requires f.WellFormed() && r.Valid() && r.state in {FieldValue, File} && position <= end <= |bytes|
    requires forall j :: position <= j < end ==> LookAt(f, bytes[j..]) == Take
    ensures Run(f, r, bytes[position..]) == Run(f, Taken(r, bytes[position..end]), bytes[end..])
    decreases end - position
  {
    hide LookAt, TakeByte, Run;
    if position < end {
      BodyTurn(f, r, bytes, position);
      TakesTo(f, TakeByte(r, bytes[position]), bytes, position + 1, end);
      assert bytes[position..end][1..] == bytes[position + 1..end];
    }
  }
}
