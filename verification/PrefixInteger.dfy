// Integers with an N-bit prefix (section 5.1 of RFC 7541): the encoder's
// encodeInteger and the decoder's decodeULE128.
module PrefixInteger {
  import opened Words
  import opened ByteBuffer

  const INDEX_MAX: nat := 2147483647

  /** Largest value an n-bit prefix can hold. */
  function PrefixMax(n: nat): nat { Pow2(n) - 1 }

  /** Seven bits a byte, low groups first, with a continuation flag on all but the last. */
  function Groups(v: nat): (bytes: seq<Byte>)
    ensures 1 <= |bytes|
  {
    if v < 128 then [v] else [v % 128 + 128] + Groups(v / 128)
  }

  function IntegerBytes(mask: nat, n: nat, i: nat): (bytes: seq<Byte>)
    requires mask + PrefixMax(n) < 256
    ensures 1 <= |bytes|
  {
    if i < PrefixMax(n) then [mask + i] else [mask + PrefixMax(n)] + Groups(i - PrefixMax(n))
  }

  /** The mask bits of an indicator byte lie above the prefix, so that or-ing is adding. */
  predicate ValidPrefix(mask: nat, n: nat) {
    1 <= n <= 8 && mask % Pow2(n) == 0 && mask + PrefixMax(n) < 256
  }

  method EncodeInteger(out: Bytes, mask: nat, n: nat, i: nat)
    requires ValidPrefix(mask, n)
    modifies out`data
    ensures out.data == old(out.data) + IntegerBytes(mask, n, i)
  {
    hide Pow2;
    var nbits := Pow2(n) - 1;
    if i < nbits {
      out.Import8Bits(mask + i);
    } else {
      out.Import8Bits(mask + nbits);
      var length: nat := i - nbits;
      ghost var start := out.data;
      while length >= 128
        invariant out.data + Groups(length) == start + Groups(i - nbits)
      {
        ghost var before := out.data;
        out.Import8Bits(length % 128 + 128);
        assert out.data + Groups(length / 128) == before + Groups(length);
        length := length / 128;
      }
      out.Import8Bits(length);
    }
  }

  datatype ULE = Incomplete | Malformed | Value(value: nat, next: nat)

  /** What a continuation at data[pos..] denotes when k of its bytes (at most five) went before. */
  function ReadULE(data: seq<Byte>, pos: nat, k: nat): (r: ULE)
    requires pos <= |data| && k <= 5
    ensures r.Value? ==> pos < r.next <= |data|
    decreases 5 - k
  {
    if k == 5 then Malformed
    else if pos == |data| then Incomplete
    else
      var b := data[pos];
      if k == 4 && b >= 8 then Malformed
      else if b < 128 then Value(b, pos + 1)
      else
        match ReadULE(data, pos + 1, k + 1)
        case Value(v, next) => Value(b % 128 + 128 * v, next)
        case other => other
  }

  function DecodeULE(data: seq<Byte>, pos: nat): (r: ULE)
    requires pos <= |data|
    ensures r.Value? ==> pos < r.next <= |data|
  {
    ReadULE(data, pos, 0)
  }

  /** The groups read so far, `result`, completed by what the rest denotes. */
  ghost function Complete(result: nat, weight: nat, rest: ULE): ULE {
    match rest
    case Value(v, next) => Value(result + v * weight, next)
    case other => other
  }

  lemma CompleteStep(result: nat, weight: nat, b: Byte, v: nat, next: nat)
    ensures Complete(result, weight, Value(b % 128 + 128 * v, next)) ==
            Complete(result + b % 128 * weight, 128 * weight, Value(v, next))
  {
    MulDistributes(b % 128, 128 * v, weight);
    MulAssoc(v, 128, weight);
  }

  /** One more continuation byte moves from the rest into the groups read so far. */
  lemma CompleteByte(data: seq<Byte>, pos: nat, k: nat, result: nat, weight: nat)
    requires pos < |data| && k <= 4 && !(k == 4 && data[pos] >= 8)
    ensures var b := data[pos]; var result' := result + b % 128 * weight;
            && result' >= 0
            && Complete(result, weight, ReadULE(data, pos, k)) ==
               if b < 128 then Value(result', pos + 1)
               else Complete(result', 128 * weight, ReadULE(data, pos + 1, k + 1))
  {
    var b := data[pos];
    MulNonnegative(b % 128, weight);
    if b >= 128 {
      var rest := ReadULE(data, pos + 1, k + 1);
      if rest.Value? { CompleteStep(result, weight, b, rest.value, rest.next); }
    }
  }

  /** As decodeULE128, with -1 for an incomplete integer and ok == false for the exception. */
  method DecodeULE128(input: Bytes) returns (ok: bool, result: int)
    requires input.Valid()
    modifies input`position
    ensures input.Valid()
    ensures match DecodeULE(input.data, old(input.position)) {
      case Incomplete => ok && result == -1 && input.position == old(input.position)
      case Malformed => !ok && input.position == old(input.position)
      case Value(v, next) => ok && result == v && input.position == next
    }
  {
    hide Pow2;
    var oldPos := input.position;
    result := 0;
    var shift := 0;
    Pow2Values();
    ghost var k := 0;
    ghost var u := DecodeULE(input.data, oldPos);
    while shift < 32
      invariant shift == 7 * k && k <= 5
      invariant input.position <= |input.data| && result >= 0
      invariant u == Complete(result, Pow2(shift), ReadULE(input.data, input.position, k))
    {
      if input.AvailableExportBytes() == 0 {
        input.position := oldPos;
        return true, -1;
      }
      var b := input.Export8Bits();
      if shift == 28 && b >= 8 {
        break;
      }
      CompleteByte(input.data, input.position - 1, k, result, Pow2(shift));
      AddSeven(shift);
      result := result + b % 128 * Pow2(shift);
      if b < 128 {
        return true, result;
      }
      shift, k := shift + 7, k + 1;
    }
    input.position := oldPos;
    return false, 0;
  }

  lemma AddSeven(n: nat)
    ensures Pow2(n + 7) == 128 * Pow2(n)
  {
    Pow2Add(7, n);
    Pow2Values();
  }

  // ---- what the two directions say about each other

  /** First value that 5 - k continuation bytes cannot hold in an Int32. */
  function Limit(k: nat): (n: nat)
    requires k <= 4
    ensures n >= 8
    decreases 4 - k
  {
    if k == 4 then 8 else 128 * Limit(k + 1)
  }

  lemma {:induction false} GroupsValue(data: seq<Byte>, pos: nat, v: nat, k: nat)
    requires k <= 4
    requires pos + |Groups(v)| <= |data| && data[pos..pos + |Groups(v)|] == Groups(v)
    ensures ReadULE(data, pos, k) == if v < Limit(k) then Value(v, pos + |Groups(v)|) else Malformed
    decreases v
  {
    assert data[pos] == Groups(v)[0];
    if k < 4 && v >= 128 {
      var g := Groups(v / 128);
      assert data[pos + 1..pos + 1 + |g|] == Groups(v)[1..];
      GroupsValue(data, pos + 1, v / 128, k + 1);
    }
  }

  /** Section 5.1 round trip: exact below 2^31, refused from there on. */
  lemma {:induction false} GroupsRoundTrip(pre: seq<Byte>, v: nat, post: seq<Byte>)
    ensures DecodeULE(pre + Groups(v) + post, |pre|) ==
            if v <= INDEX_MAX then Value(v, |pre| + |Groups(v)|) else Malformed
  {
    var data := pre + Groups(v) + post;
    assert data[|pre|..|pre| + |Groups(v)|] == Groups(v);
    assert Limit(0) == 2147483648;
    GroupsValue(data, |pre|, v, 0);
  }

  /** A strict prefix of a continuation is never mistaken for an integer. */
  lemma {:induction false} PrefixIsIncomplete(pre: seq<Byte>, v: nat, n: nat, k: nat)
    requires k <= 4 && v < Limit(k) && n < |Groups(v)|
    ensures ReadULE(pre + Groups(v)[..n], |pre|, k).Incomplete?
    decreases v
  {
    if n > 0 {
      var pre' := pre + [v % 128 + 128];
      PrefixIsIncomplete(pre', v / 128, n - 1, k + 1);
      assert pre' + Groups(v / 128)[..n - 1] == pre + Groups(v)[..n];
    }
  }

  /** Whatever the input, a decoded continuation is below 2^31. */
  lemma {:induction false} ULEBound(data: seq<Byte>, pos: nat, k: nat)
    requires pos <= |data| && k <= 4
    ensures var r := ReadULE(data, pos, k); r.Value? ==> r.value < Limit(k)
    decreases 5 - k
  {
    if k < 4 && pos < |data| {
      ULEBound(data, pos + 1, k + 1);
      var r, rest := ReadULE(data, pos, k), ReadULE(data, pos + 1, k + 1);
      if r.Value? {
        assert r.value == data[pos] || (rest.Value? && r.value == data[pos] % 128 + 128 * rest.value);
        assert Limit(k) == 128 * Limit(k + 1);
      }
    }
  }

  /** More input changes a verdict only from incomplete. */
  lemma {:induction false} ULEStable(data: seq<Byte>, more: seq<Byte>, pos: nat, k: nat)
    requires pos <= |data| && k <= 5
    requires !ReadULE(data, pos, k).Incomplete?
    ensures ReadULE(data + more, pos, k) == ReadULE(data, pos, k)
    decreases 5 - k
  {
    if k < 5 && pos < |data| && !(k == 4 && data[pos] >= 8) && data[pos] >= 128 {
      ULEStable(data, more, pos + 1, k + 1);
    }
  }

  /** The first byte of an encoded integer, read back through its n-bit prefix. */
  lemma PrefixByte(mask: nat, n: nat, i: nat)
    requires ValidPrefix(mask, n)
    ensures IntegerBytes(mask, n, i)[0] / Pow2(n) == mask / Pow2(n)
    ensures IntegerBytes(mask, n, i)[0] % Pow2(n) == if i < PrefixMax(n) then i else PrefixMax(n)
  {
    var p, q := Pow2(n), mask / Pow2(n);
    QuotientNonnegative(mask, p);
    var low := if i < PrefixMax(n) then i else PrefixMax(n);
    DivModUnique(mask + low, p, q, low);
  }
}
