// The decoder's dynamic table: a ring buffer of header fields.
module DynamicTable {
  import opened Wrappers
  import opened HeaderTable

  /** Slots the ring gets for a capacity: one for every 32 bytes, rounded up. */
  function RingSize(capacity: nat): (n: nat)
    ensures OVERHEAD * n >= capacity
    ensures n > 0 ==> OVERHEAD * (n - 1) < capacity
  {
    capacity / OVERHEAD + (if capacity % OVERHEAD != 0 then 1 else 0)
  }

  /** Slot t + n of a ring of the given length. */
  function Around(t: nat, n: nat, length: nat): nat
    requires n <= length
  {
    if t + n < length then t + n else t + n - length
  }

  /** The table as a value: its fields, oldest first, and where in the ring the oldest stands. */
  datatype Table = Table(entries: seq<Field>, capacity: nat, tail: nat) {
    predicate Valid() {
      && Total(entries) <= capacity
      && |entries| <= RingSize(capacity)
      && (if RingSize(capacity) == 0 then tail == 0 else tail < RingSize(capacity))
    }

    /** A full ring looks empty. */
    predicate Full() {
      entries != [] && |entries| == RingSize(capacity)
    }

    function ReportedLength(): nat {
      if Full() then 0 else |entries|
    }

    /** Where the ring stands after its n oldest entries are gone. */
    function TailAfter(n: nat): nat
      requires n <= |entries| <= RingSize(capacity)
    {
      Around(tail, n, RingSize(capacity))
    }

    function TailOf(kept: seq<Field>): nat
      requires |kept| <= |entries| <= RingSize(capacity)
    {
      TailAfter(|entries| - |kept|)
    }

    /** What is kept is section 4.4's: the oldest go first, and no more than needed. */
    function Add(f: Field): (t: Table)
      requires Valid()
      ensures t.Valid() && t.capacity == capacity && t.entries == Insert(entries, capacity, f)
    {
      if f.Size() > capacity then Table([], capacity, 0)
      else
        AddIsValid(this, f);
        var kept := Evict(entries, capacity - f.Size());
        Table(kept + [f], capacity, TailOf(kept))
    }

    /** Whether changing the capacity keeps the newest entries that fit. */
    function ResizeOutcome(c: nat): Outcome
      requires Valid()
    {
      var kept := Evict(entries, c);
      if RingSize(c) == RingSize(capacity) || kept == [] then Kept
      else if |kept| == RingSize(capacity) then Lost
      else if TailOf(kept) + |kept| > RingSize(capacity) then Trapped
      else if |kept| == RingSize(c) then Lost
      else Kept
    }

    function Resize(c: nat): Table
      requires Valid()
    {
      var kept := Evict(entries, c);
      if c == capacity then this
      else if c == 0 || RingSize(c) != RingSize(capacity) then Table(kept, c, 0)
      else Table(kept, c, TailOf(kept))
    }
  }

  /**
   * What assigning a new capacity does: the entries are Kept; or the copy runs past the
   * end of the old ring, which is a runtime trap; or a full ring is taken for an empty
   * one, its entries Lost while their sizes stay counted.
   */
  datatype Outcome = Kept | Trapped | Lost

  class DynamicTable {
    var headerFields: array<Option<Field>>
    var head: nat
    var tail: nat
    var size: nat
    var capacity: nat
    ghost var entries: seq<Field>

    ghost function Abs(): Table
      reads this
    {
      Table(entries, capacity, tail)
    }

    /** The slot of entry k. */
    ghost function Slot(k: nat): nat
      requires k <= headerFields.Length
      reads this
    {
      Around(tail, k, headerFields.Length)
    }

    /** The ring holds the entries, oldest at tail; it may be larger or smaller than the capacity asks. */
    ghost predicate Ring()
      reads this, headerFields
    {
      && |entries| <= headerFields.Length
      && (if headerFields.Length == 0 then tail == 0 else tail < headerFields.Length)
      && head == Slot(|entries|)
      && (forall k :: 0 <= k < |entries| ==> headerFields[Slot(k)] == Some(entries[k]))
      && size == Total(entries)
    }

    ghost predicate Valid()
      reads this, headerFields
    {
      Ring() && size <= capacity && headerFields.Length == RingSize(capacity)
    }

    constructor (initialCapacity: nat)
      ensures Valid() && fresh(headerFields) && Abs() == Table([], initialCapacity, 0)
    {
      head, tail, size, capacity, entries := 0, 0, 0, initialCapacity, [];
      headerFields := new Option<Field>[RingSize(initialCapacity)](_ => None);
    }

    lemma AbsIsValid()
      requires Valid()
      ensures Abs().Valid() && |entries| <= headerFields.Length == RingSize(capacity)
    {
    }

    /** head - tail, read modulo the ring. */
    function Length(): (n: int)
      reads this, headerFields
      requires Ring()
      ensures n == if entries != [] && |entries| == headerFields.Length then 0 else |entries|
    {
      if head < tail then headerFields.Length - tail + head else head - tail
    }

    method Clear()
      requires Ring()
      modifies this`head, this`tail, this`size, this`entries, headerFields
      ensures Ring() && entries == [] && tail == 0 && size == 0
    {
      var n := if head < tail then headerFields.Length - tail + head else head - tail;
      ghost var left := n;
      while tail != head
        invariant if headerFields.Length == 0 then head == tail else head < headerFields.Length && tail < headerFields.Length
        invariant left == if head < tail then headerFields.Length - tail + head else head - tail
        decreases left
      {
        headerFields[tail] := None;
        tail := tail + 1;
        if tail == headerFields.Length {
          tail := 0;
        }
        left := left - 1;
      }
      head, tail, size, entries := 0, 0, 0, [];
    }

    method Remove() returns (removed: Option<Field>)
      requires Ring() && entries != []
      modifies this`tail, this`size, this`entries, headerFields
      ensures Ring() && removed == Some(old(entries)[0]) && entries == old(entries)[1..]
      ensures tail == if old(tail) + 1 == headerFields.Length then 0 else old(tail) + 1
    {
      removed := headerFields[tail];
      assert Slot(0) == tail;
      assert removed == Some(entries[0]);
      size := size - removed.value.Size();
      headerFields[tail] := None;
      tail := tail + 1;
      if tail == headerFields.Length {
        tail := 0;
      }
      entries := entries[1..];
    }

    /** The k-th newest entry, k from 1. */
    method GetEntry(index: nat) returns (f: Field)
      requires Ring() && 1 <= index <= |entries|
      ensures f == entries[|entries| - index]
    {
      var i := head - index;
      assert headerFields[Slot(|entries| - index)] == Some(entries[|entries| - index]);
      if i < 0 {
        f := headerFields[i + headerFields.Length].value;
      } else {
        f := headerFields[i].value;
      }
    }

    /** Evicts until `room` more bytes fit. */
    method MakeRoom(room: nat)
      requires Ring() && room <= capacity
      modifies this`tail, this`size, this`entries, headerFields
      ensures Ring() && size + room <= capacity
      ensures entries == Evict(old(entries), capacity - room)
      ensures tail == Around(old(tail), |old(entries)| - |entries|, headerFields.Length)
    {
      hide Total, Evict, RingSize;
      ghost var start, n, limit := tail, 0, capacity - room;
      ghost var goal, all := Evict(entries, limit), |entries|;
      while size + room > capacity
        invariant Ring() && n + |entries| == all
        invariant goal == Evict(entries, limit)
        invariant tail == Around(start, n, headerFields.Length)
        decreases size
      {
        EvictOne(entries, limit);
        var _ := Remove();
        n := n + 1;
      }
      EvictNothing(entries, limit);
    }

    /** Writes at the head, which is free. */
    method Append(header: Field)
      requires Ring() && |entries| < headerFields.Length
      modifies this`head, this`size, this`entries, headerFields
      ensures Ring() && entries == old(entries) + [header] && size == old(size) + header.Size()
    {
      hide Total;
      TotalSnoc(entries, header);
      headerFields[head] := Some(header);
      head := head + 1;
      size := size + header.Size();
      if head == headerFields.Length {
        head := 0;
      }
      entries := entries + [header];
    }

    method Add(header: Field)
      requires Valid()
      modifies this`head, this`tail, this`size, this`entries, headerFields
      ensures Valid() && Abs().Valid() && old(Abs()).Valid() && Abs() == old(Abs()).Add(header)
    {
      hide Total, Evict, RingSize;
      var headerSize := header.Size();
      if headerSize > capacity {
        Clear();
      } else {
        MakeRoom(headerSize);
        SlotLeft(entries, headerSize, capacity);
        Append(header);
      }
    }

    /** capacityChanged's copy of the live entries; it steps past the end of the ring before it wraps. */
    method CopyOut(maxEntries: nat) returns (ok: bool, tmp: array<Option<Field>>)
      requires Ring() && |entries| <= maxEntries
      ensures fresh(tmp) && tmp.Length == maxEntries
      ensures ok <==> entries == [] || |entries| == headerFields.Length || tail + |entries| <= headerFields.Length
      ensures ok && |entries| < headerFields.Length ==> forall i :: 0 <= i < |entries| ==> tmp[i] == Some(entries[i])
    {
      hide Total;
      tmp := new Option<Field>[maxEntries](_ => None);
      var len := Length();
      var cursor := tail;
      for i := 0 to len
        invariant cursor == tail + i <= headerFields.Length
        invariant forall k :: 0 <= k < i ==> tmp[k] == Some(entries[k])
      {
        if cursor == headerFields.Length {
          return false, tmp;
        }
        assert Slot(i) == cursor;
        tmp[i] := headerFields[cursor];
        if cursor == headerFields.Length {
          cursor := 0;
        } else {
          cursor := cursor + 1;
        }
      }
      ok := true;
    }

    /** The copy into a ring of the right size, when the size is not right already. */
    method Rebuild(maxEntries: nat) returns (outcome: Outcome)
      requires Ring() && size <= capacity && maxEntries == RingSize(capacity) && |entries| <= maxEntries
      modifies this`head, this`tail, this`headerFields
      ensures outcome == (if old(headerFields.Length) == maxEntries || entries == [] then Kept
                          else if |entries| == old(headerFields.Length) then Lost
                          else if old(tail) + |entries| > old(headerFields.Length) then Trapped
                          else if |entries| == maxEntries then Lost
                          else Kept)
      ensures outcome == Kept ==> Valid() && tail == if old(headerFields.Length) == maxEntries then old(tail) else 0
      ensures headerFields == old(headerFields) || fresh(headerFields)
    {
      hide Total, RingSize;
      SizeIsEmptiness(entries);
      if headerFields.Length != maxEntries {
        var ok, tmp := CopyOut(maxEntries);
        if !ok {
          return Trapped;
        }
        var len := Length();
        if size > 0 && (len == 0 || len == maxEntries) {
          // a full ring, or one too small to tell full from empty: the fields no longer say what is stored
          outcome := Lost;
        } else {
          outcome := Kept;
        }
        tail := 0;
        head := len;
        headerFields := tmp;
      } else {
        outcome := Kept;
      }
    }

    /** Assigning `capacity`: the stored property, then capacityChanged. */
    method SetCapacity(c: nat) returns (outcome: Outcome)
      requires Valid()
      modifies this, headerFields
      ensures old(Abs()).Valid() && outcome == old(Abs()).ResizeOutcome(c)
      ensures outcome == Kept ==> Valid() && Abs() == old(Abs()).Resize(c)
      ensures headerFields == old(headerFields) || fresh(headerFields)
    {
      hide Total, Evict, RingSize;
      var oldValue := capacity;
      capacity := c;
      if c == oldValue {
        EvictNothing(entries, c);
        return Kept;
      }
      if c == 0 {
        EvictAll(entries);
        Clear();
      } else {
        MakeRoom(0);
      }
      var maxEntries := c / OVERHEAD;
      if c % OVERHEAD != 0 {
        maxEntries := maxEntries + 1;
      }
      RingSizeIs(c);
      EntriesFit(entries, c);
      outcome := Rebuild(maxEntries);
    }
  }

  lemma RingSizeIs(c: nat)
    ensures RingSize(c) == c / OVERHEAD + (if c % OVERHEAD != 0 then 1 else 0)
  {
  }

  lemma EvictAll(entries: seq<Field>)
    ensures Evict(entries, 0) == []
  {
    EvictFits(entries, 0);
  }

  lemma SizeIsEmptiness(entries: seq<Field>)
    ensures Total(entries) > 0 <==> entries != []
  {
  }

  lemma EntriesFit(entries: seq<Field>, capacity: nat)
    requires Total(entries) <= capacity
    ensures |entries| <= RingSize(capacity)
  {
  }

  lemma ResizeIsValid(t: Table, c: nat)
    requires t.Valid()
    ensures t.ResizeOutcome(c) == Kept ==> t.Resize(c).Valid()
  {
    EvictFits(t.entries, c);
    EvictNothing(t.entries, t.capacity);
    assert Total([]) == 0;
  }

  /** A ring is full, and so reads as empty, exactly when its entries are all empty and use up the capacity. */
  lemma FullExactly(t: Table)
    requires t.Valid()
    ensures t.Full() <==> t.entries != [] && t.capacity == OVERHEAD * |t.entries|
    ensures t.Full() ==> forall i :: 0 <= i < |t.entries| ==> t.entries[i] == Field([], [])
  {
    if t.Full() { AllEmpty(t.entries); }
  }

  lemma {:induction false} AllEmpty(entries: seq<Field>)
    requires Total(entries) <= OVERHEAD * |entries|
    ensures forall i :: 0 <= i < |entries| ==> entries[i] == Field([], [])
  {
    if entries != [] {
      AllEmpty(entries[1..]);
      assert entries == [entries[0]] + entries[1..];
    }
  }

  lemma SlotLeft(entries: seq<Field>, room: nat, capacity: nat)
    requires Total(entries) + room <= capacity && room >= OVERHEAD
    ensures |entries| < RingSize(capacity)
  {
  }

  lemma AddIsValid(t: Table, f: Field)
    requires t.Valid() && f.Size() <= t.capacity
    ensures var kept := Evict(t.entries, t.capacity - f.Size());
            && |kept| <= |t.entries| <= RingSize(t.capacity)
            && Table(kept + [f], t.capacity, t.TailOf(kept)).Valid()
  {
    var kept := Evict(t.entries, t.capacity - f.Size());
    EvictFits(t.entries, t.capacity - f.Size());
    TotalSnoc(kept, f);
  }
}
