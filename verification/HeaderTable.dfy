// What a dynamic table is (section 4 of RFC 7541): a first-in, first-out list of
// header fields whose sizes add up to at most its capacity.
module HeaderTable {
  import opened Words

  const OVERHEAD: nat := 32

  datatype Field = Field(name: seq<Byte>, value: seq<Byte>) {
    function Size(): (n: nat)
      ensures n >= OVERHEAD
    {
      |name| + |value| + OVERHEAD
    }
  }

  /** Sizes of the entries, oldest first. */
  function Total(entries: seq<Field>): (n: nat)
    ensures n >= OVERHEAD * |entries|
  {
    if entries == [] then 0 else entries[0].Size() + Total(entries[1..])
  }

  /** Drop the oldest entries until the rest is no larger than limit. */
  function Evict(entries: seq<Field>, limit: int): (r: seq<Field>)
    ensures |r| <= |entries|
  {
    if entries == [] || Total(entries) <= limit then entries else Evict(entries[1..], limit)
  }

  /** Section 4.4: a field too large for the table empties it. */
  function Insert(entries: seq<Field>, capacity: int, f: Field): (r: seq<Field>)
    ensures capacity >= 0 ==> Total(r) <= capacity
  {
    if f.Size() > capacity then []
    else
      EvictFits(entries, capacity - f.Size());
      TotalSnoc(Evict(entries, capacity - f.Size()), f);
      Evict(entries, capacity - f.Size()) + [f]
  }

  /** What is left is the newest entries, and they fit. */
  lemma {:induction false} EvictFits(entries: seq<Field>, limit: int)
    ensures var r := Evict(entries, limit); r == entries[|entries| - |r|..]
    ensures var r := Evict(entries, limit); r == [] || Total(r) <= limit
  {
    if entries != [] && Total(entries) > limit { EvictFits(entries[1..], limit); }
  }

  /** Eviction is minimal: one entry more would not fit. */
  lemma {:induction false} EvictIsMinimal(entries: seq<Field>, limit: int)
    ensures var r := Evict(entries, limit);
            |r| < |entries| ==> Total(entries[|entries| - |r| - 1..]) > limit
  {
    if entries != [] && Total(entries) > limit {
      EvictIsMinimal(entries[1..], limit);
      var r := Evict(entries, limit);
      if |r| < |entries| - 1 {
        assert entries[1..][|entries| - 1 - |r| - 1..] == entries[|entries| - |r| - 1..];
      } else {
        assert entries[0..] == entries;
      }
    }
  }

  lemma {:induction false} TotalSnoc(entries: seq<Field>, f: Field)
    ensures Total(entries + [f]) == Total(entries) + f.Size()
  {
    if entries == [] {
      assert entries + [f] == [f];
    } else {
      TotalSnoc(entries[1..], f);
      assert (entries + [f])[1..] == entries[1..] + [f];
    }
  }

  lemma {:induction false} EvictTwice(entries: seq<Field>, a: int, b: int)
    requires b <= a
    ensures Evict(Evict(entries, a), b) == Evict(entries, b)
  {
    if entries != [] && Total(entries) > a {
      EvictTwice(entries[1..], a, b);
    }
  }

  lemma EvictNothing(entries: seq<Field>, limit: int)
    requires Total(entries) <= limit
    ensures Evict(entries, limit) == entries
  {
  }

  lemma EvictOne(entries: seq<Field>, limit: int)
    requires limit >= 0 && Total(entries) > limit
    ensures entries != [] && Evict(entries, limit) == Evict(entries[1..], limit)
    ensures Total(entries) == entries[0].Size() + Total(entries[1..])
  {
  }
}
