// The growable byte buffer with a read position that sits under HPACK.
module ByteBuffer {
  import opened Words

  /** The n low bytes of v, the lowest first, as the buffer stores integers. */
  function LowFirst(v: nat, n: nat): (bytes: seq<Byte>)
    ensures |bytes| == n
  {
    if n == 0 then [] else [v % 256] + LowFirst(v / 256, n - 1)
  }

  function FromLowFirst(bytes: seq<Byte>): nat {
    if bytes == [] then 0 else bytes[0] + 256 * FromLowFirst(bytes[1..])
  }

  lemma LowByte(b: Byte, rest: nat)
    ensures (b + 256 * rest) % 256 == b && (b + 256 * rest) / 256 == rest
  {
  }

  lemma {:induction false} LowFirstBack(bytes: seq<Byte>)
    ensures LowFirst(FromLowFirst(bytes), |bytes|) == bytes
  {
    if bytes != [] {
      var rest := FromLowFirst(bytes[1..]);
      LowFirstBack(bytes[1..]);
      LowByte(bytes[0], rest);
      assert [bytes[0]] + bytes[1..] == bytes;
    }
  }

  function Limit(n: nat): nat {
    if n == 0 then 1 else 256 * Limit(n - 1)
  }

  lemma {:induction false} LowFirstValue(v: nat, n: nat)
    requires v < Limit(n)
    ensures FromLowFirst(LowFirst(v, n)) == v
  {
    if n > 0 { LowFirstValue(v / 256, n - 1); }
  }

  lemma {:induction false} FromLowFirstBound(bytes: seq<Byte>)
    ensures FromLowFirst(bytes) < Limit(|bytes|)
  {
    if bytes != [] { FromLowFirstBound(bytes[1..]); }
  }

  function Reversed(s: seq<Byte>): (r: seq<Byte>)
    ensures |r| == |s| && forall i :: 0 <= i < |s| ==> r[i] == s[|s| - 1 - i]
  {
    if s == [] then [] else Reversed(s[1..]) + [s[0]]
  }

  /** Network order on a host that stores the low byte first: the bytes change places. */
  function Swapped(v: nat, n: nat): nat { FromLowFirst(Reversed(LowFirst(v, n))) }

  /** The n low bytes of v, the highest first. */
  function HighFirst(v: nat, n: nat): (bytes: seq<Byte>)
    ensures |bytes| == n
  {
    Reversed(LowFirst(v, n))
  }

  function FromHighFirst(bytes: seq<Byte>): nat { FromLowFirst(Reversed(bytes)) }

  lemma ReversedTwice(s: seq<Byte>)
    ensures Reversed(Reversed(s)) == s
  {
  }

  lemma HighFirstValue(v: nat, n: nat)
    requires v < Limit(n)
    ensures FromHighFirst(HighFirst(v, n)) == v
  {
    ReversedTwice(LowFirst(v, n));
    LowFirstValue(v, n);
  }

  /** Swapping and storing the low byte first is storing the high byte first, and back. */
  lemma SwappedIsHighFirst(v: nat, n: nat, bytes: seq<Byte>)
    requires |bytes| == n
    ensures LowFirst(Swapped(v, n), n) == HighFirst(v, n)
    ensures Swapped(FromLowFirst(bytes), n) == FromHighFirst(bytes)
  {
    LowFirstBack(Reversed(LowFirst(v, n)));
    LowFirstBack(bytes);
  }

  class Bytes {
    var position: nat
    var data: seq<Byte>

    ghost predicate Valid()
      reads this
    {
      position <= |data|
    }

    constructor ()
      ensures Valid() && data == [] && position == 0
    {
      position, data := 0, [];
    }

    constructor FromExisting(bytes: seq<Byte>)
      ensures Valid() && data == bytes && position == 0
    {
      position, data := 0, bytes;
    }

    function AvailableExportBytes(): int
      reads this
    {
      |data| - position
    }

    method Import8Bits(byte: Byte)
      modifies this`data
      ensures data == old(data) + [byte]
    {
      data := data + [byte];
    }

    method ImportBytes(bytes: seq<Byte>)
      modifies this`data
      ensures data == old(data) + bytes
    {
      data := data + bytes;
    }

    method Import16Bits(short: nat)
      modifies this`data
      ensures data == old(data) + LowFirst(short, 2)
    {
      data := data + [short % 256];
      data := data + [short / 256 % 256];
      TwoBytes(short);
    }

    method Import64Bits(long: nat)
      modifies this`data
      ensures data == old(data) + LowFirst(long, 8)
    {
      hide LowFirst;
      var rest := long;
      for k := 0 to 8
        invariant data + LowFirst(rest, 8 - k) == old(data) + LowFirst(long, 8)
      {
        LowestFirst(data, rest, 8 - k);
        data := data + [rest % 256];
        rest := rest / 256;
      }
      NoBytes(rest);
    }

    method Export16Bits() returns (short: nat)
      requires position + 2 <= |data|
      modifies this`position
      ensures short == FromLowFirst(data[old(position)..old(position) + 2]) && position == old(position) + 2
    {
      var one: int := data[position];
      position := position + 1;
      var two: int := data[position];
      position := position + 1;
      short := two * 256 + one;
      assert data[position - 2..position] == [one, two];
      TwoBack(one, two);
    }

    method Export64Bits() returns (long: nat)
      requires position + 8 <= |data|
      modifies this`position
      ensures long == FromLowFirst(data[old(position)..old(position) + 8]) && position == old(position) + 8
    {
      ghost var s := data[position..position + 8];
      var weight: nat := 1;
      long := 0;
      for k := 0 to 8
        invariant position == old(position) + k
        invariant long + weight * FromLowFirst(s[k..]) == FromLowFirst(s)
      {
        assert data[position] == s[k] && s[k..][1..] == s[k + 1..];
        Weigh(weight, s[k], FromLowFirst(s[k + 1..]));
        long := long + data[position] * weight;
        position := position + 1;
        weight := 256 * weight;
      }
    }

    method Export8Bits() returns (byte: Byte)
      requires position < |data|
      modifies this`position
      ensures byte == data[old(position)] && position == old(position) + 1
    {
      byte := data[position];
      position := position + 1;
    }

    method ExportBytes(count: nat) returns (sub: seq<Byte>)
      requires position + count <= |data|
      modifies this`position
      ensures sub == data[old(position)..old(position) + count]
      ensures position == old(position) + count
    {
      sub := [];
      var end := position + count;
      while position < end
        invariant old(position) <= position <= end
        invariant sub == data[old(position)..position]
      {
        sub := sub + [data[position]];
        position := position + 1;
      }
    }
  }

  /** One byte stored, one fewer to store. */
  lemma LowestFirst(data: seq<Byte>, v: nat, n: nat)
    requires n > 0
    ensures data + [v % 256] + LowFirst(v / 256, n - 1) == data + LowFirst(v, n)
  {
    assert LowFirst(v, n) == [v % 256] + LowFirst(v / 256, n - 1);
  }

  lemma NoBytes(v: nat)
    ensures LowFirst(v, 0) == []
  {
  }

  lemma TwoBytes(v: nat)
    ensures LowFirst(v, 2) == [v % 256] + [v / 256 % 256]
  {
  }

  lemma TwoBack(one: Byte, two: Byte)
    ensures FromLowFirst([one, two]) == two * 256 + one
  {
    var s: seq<Byte> := [one, two];
    assert s[1..] == [two] && s[1..][1..] == [];
    assert FromLowFirst(s[1..]) == two + 256 * FromLowFirst([]);
  }

  lemma Weigh(weight: nat, b: Byte, rest: nat)
    ensures weight * (b + 256 * rest) == b * weight + 256 * weight * rest
  {
    MulDistributes(b, 256 * rest, weight);
    MulAssoc(weight, 256, rest);
  }
}
