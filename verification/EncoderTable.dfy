// The encoder's dynamic table: hash buckets of chained entries, threaded through a
// circular doubly linked list in order of insertion.
module EncoderTable {
  import opened Words
  import opened HeaderTable

  const BUCKETS: nat := 17
  const INDEX_MAX: int := 2147483647

  class HeaderEntry {
    const field: Field
    const hash: int
    const index: int
    var before: HeaderEntry?
    var after: HeaderEntry?
    var next: HeaderEntry?

    constructor (hash: int, field: Field, index: int, next: HeaderEntry?)
      ensures this.hash == hash && this.field == field && this.index == index && this.next == next
    {
      this.hash, this.field, this.index, this.next := hash, field, index, next;
      before, after := null, null;
    }
  }

  function Bucket(hash: int): (b: nat)
    requires hash >= 0
    ensures b < BUCKETS
  {
    hash % BUCKETS
  }

  /** Entries in order of insertion, with what their hashes and indices must be. */
  ghost predicate Sequence(es: seq<HeaderEntry>, hash: seq<Byte> -> nat) {
    && (forall k :: 0 <= k < |es| ==> es[k].hash == hash(es[k].field.name))
    && (forall k :: 0 <= k < |es| ==> es[k].index == es[0].index - k)
    && (forall i, j :: 0 <= i < j < |es| ==> es[i] != es[j])
  }

  /** The position of the last of the first n entries that is in bucket b; -1 if there is none. */
  ghost function Latest(es: seq<HeaderEntry>, n: nat, b: nat): (r: int)
    requires n <= |es| && forall k :: 0 <= k < |es| ==> es[k].hash >= 0
    ensures -1 <= r < n
    ensures r >= 0 ==> Bucket(es[r].hash) == b
    ensures forall k :: r < k < n ==> Bucket(es[k].hash) != b
  {
    if n == 0 then -1 else if Bucket(es[n - 1].hash) == b then n - 1 else Latest(es, n - 1, b)
  }

  lemma LatestIs(es: seq<HeaderEntry>, n: nat, b: nat, r: int)
    requires n <= |es| && forall k :: 0 <= k < |es| ==> es[k].hash >= 0
    requires -1 <= r < n && (r >= 0 ==> Bucket(es[r].hash) == b)
    requires forall k :: r < k < n ==> Bucket(es[k].hash) != b
    ensures Latest(es, n, b) == r
  {
  }

  /** Entry r, or nil. */
  ghost function EntryAt(es: seq<HeaderEntry>, r: int): HeaderEntry?
    requires r < |es|
  {
    if r < 0 then null else es[r]
  }

  /** Every bucket's chain holds the entries of that bucket, newest first. */
  ghost predicate Chains(es: seq<HeaderEntry>, firsts: seq<HeaderEntry?>, nexts: seq<HeaderEntry?>) {
    && |firsts| == BUCKETS && |nexts| == |es|
    && (forall k :: 0 <= k < |es| ==> es[k].hash >= 0)
    && (forall b :: 0 <= b < BUCKETS ==> firsts[b] == EntryAt(es, Latest(es, |es|, b)))
    && (forall k :: 0 <= k < |es| ==> nexts[k] == EntryAt(es, Latest(es, k, Bucket(es[k].hash))))
  }

  function Fields(es: seq<HeaderEntry>): (fs: seq<Field>)
    ensures |fs| == |es|
    ensures forall i :: 0 <= i < |es| ==> fs[i] == es[i].field
  {
    seq(|es|, i requires 0 <= i < |es| => es[i].field)
  }

  function Nexts(es: seq<HeaderEntry>): (ns: seq<HeaderEntry?>)
    reads es
    ensures |ns| == |es|
    ensures forall i :: 0 <= i < |es| ==> ns[i] == es[i].next
  {
    seq(|es|, i requires 0 <= i < |es| reads es => es[i].next)
  }

  // ---- what insertion and eviction do to the chains

  lemma LatestAppend(es: seq<HeaderEntry>, e: HeaderEntry, k: nat, b: nat)
    requires k <= |es| && e.hash >= 0 && forall j :: 0 <= j < |es| ==> es[j].hash >= 0
    ensures Latest(es + [e], k, b) == Latest(es, k, b)
    ensures Latest(es + [e], |es| + 1, b) == if b == Bucket(e.hash) then |es| else Latest(es, |es|, b)
  {
    LatestIs(es + [e], k, b, Latest(es, k, b));
    LatestIs(es + [e], |es| + 1, b, if b == Bucket(e.hash) then |es| else Latest(es, |es|, b));
  }

  /** A new entry goes in front of its bucket's chain. */
  lemma PushChains(es: seq<HeaderEntry>, firsts: seq<HeaderEntry?>, nexts: seq<HeaderEntry?>, e: HeaderEntry)
    requires Chains(es, firsts, nexts) && e.hash >= 0
    ensures var b := Bucket(e.hash); Chains(es + [e], firsts[b := e], nexts + [firsts[b]])
  {
    hide Latest, Bucket;
    var es', firsts', nexts' := es + [e], firsts[Bucket(e.hash) := e], nexts + [firsts[Bucket(e.hash)]];
    forall b | 0 <= b < BUCKETS
      ensures firsts'[b] == EntryAt(es', Latest(es', |es'|, b))
    {
      LatestAppend(es, e, 0, b);
    }
    forall k | 0 <= k < |es'|
      ensures nexts'[k] == EntryAt(es', Latest(es', k, Bucket(es'[k].hash)))
    {
      LatestAppend(es, e, k, Bucket(es'[k].hash));
    }
  }

  lemma LatestTail(es: seq<HeaderEntry>, n: nat, b: nat)
    requires 1 <= n <= |es| && forall j :: 0 <= j < |es| ==> es[j].hash >= 0
    ensures Latest(es[1..], n - 1, b) == if Latest(es, n, b) <= 0 then -1 else Latest(es, n, b) - 1
  {
    LatestIs(es[1..], n - 1, b, if Latest(es, n, b) <= 0 then -1 else Latest(es, n, b) - 1);
  }

  /** p is the position of the entry that points to the oldest one; |es| when the bucket itself does. */
  ghost predicate PointsToOldest(es: seq<HeaderEntry>, p: int)
    requires es != [] && forall j :: 0 <= j < |es| ==> es[j].hash >= 0
  {
    && 0 < p <= |es|
    && Latest(es, p, Bucket(es[0].hash)) == 0
    && (p == |es| || Bucket(es[p].hash) == Bucket(es[0].hash))
  }

  /** Only one entry points to the oldest. */
  lemma OnePointer(es: seq<HeaderEntry>, p: int, k: nat, b: nat)
    requires es != [] && forall j :: 0 <= j < |es| ==> es[j].hash >= 0
    requires PointsToOldest(es, p) && 0 < k <= |es| && (k == |es| || Bucket(es[k].hash) == b)
    ensures Latest(es, k, b) == 0 <==> k == p && b == Bucket(es[0].hash)
  {
    var b0 := Bucket(es[0].hash);
    if k < p {
      assert Bucket(es[k].hash) != b0;
    } else if k > p {
      assert Bucket(es[p].hash) == b0;
    }
  }

  lemma PopChains(es: seq<HeaderEntry>, firsts: seq<HeaderEntry?>, nexts: seq<HeaderEntry?>, p: int,
                  firsts': seq<HeaderEntry?>, nexts': seq<HeaderEntry?>)
    requires Chains(es, firsts, nexts) && es != [] && PointsToOldest(es, p)
    requires firsts' == if p == |es| then firsts[Bucket(es[0].hash) := null] else firsts
    requires nexts' == if p == |es| then nexts[1..] else nexts[p := null][1..]
    ensures Chains(es[1..], firsts', nexts')
  {
    hide Latest, Bucket, EntryAt;
    var es' := es[1..];
    forall b | 0 <= b < BUCKETS
      ensures firsts'[b] == EntryAt(es', Latest(es', |es'|, b))
    {
      PopOne(es, p, |es|, b);
    }
    forall k | 0 <= k < |es'|
      ensures nexts'[k] == EntryAt(es', Latest(es', k, Bucket(es'[k].hash)))
    {
      PopOne(es, p, k + 1, Bucket(es[k + 1].hash));
      assert nexts'[k] == if k + 1 == p then null else nexts[k + 1];
    }
  }

  lemma PopOne(es: seq<HeaderEntry>, p: int, k: nat, b: nat)
    requires es != [] && forall j :: 0 <= j < |es| ==> es[j].hash >= 0
    requires PointsToOldest(es, p) && 0 < k <= |es| && (k == |es| || Bucket(es[k].hash) == b)
    ensures EntryAt(es[1..], Latest(es[1..], k - 1, b)) ==
            if k == p && b == Bucket(es[0].hash) then null else EntryAt(es, Latest(es, k, b))
  {
    hide Latest, Bucket, PointsToOldest;
    LatestTail(es, k, b);
    OnePointer(es, p, k, b);
  }

  lemma FieldsSnoc(es: seq<HeaderEntry>, e: HeaderEntry)
    ensures Fields(es + [e]) == Fields(es) + [e.field]
    ensures Total(Fields(es + [e])) == Total(Fields(es)) + e.field.Size()
  {
    assert Fields(es + [e]) == Fields(es) + [e.field];
    TotalSnoc(Fields(es), e.field);
  }

  lemma SequenceSnoc(es: seq<HeaderEntry>, hash: seq<Byte> -> nat, e: HeaderEntry)
    requires Sequence(es, hash) && e !in es && e.hash == hash(e.field.name)
    requires es == [] || e.index == es[|es| - 1].index - 1
    ensures Sequence(es + [e], hash)
  {
  }

  lemma SequenceTail(es: seq<HeaderEntry>, hash: seq<Byte> -> nat)
    requires Sequence(es, hash) && es != []
    ensures Sequence(es[1..], hash)
  {
  }

  lemma Distinct(es: seq<HeaderEntry>, hash: seq<Byte> -> nat)
    requires Sequence(es, hash)
    ensures forall i, j :: 0 <= i < j < |es| ==> es[i] != es[j]
    ensures forall k :: 0 <= k < |es| ==> es[k].hash >= 0
  {
  }

  lemma NoChains(firsts: seq<HeaderEntry?>)
    requires |firsts| == BUCKETS && forall b :: 0 <= b < BUCKETS ==> firsts[b] == null
    ensures Chains([], firsts, [])
  {
  }

  lemma FieldsTail(es: seq<HeaderEntry>)
    requires es != []
    ensures Fields(es[1..]) == Fields(es)[1..]
    ensures Total(Fields(es)) == es[0].field.Size() + Total(Fields(es[1..]))
  {
    assert Fields(es[1..]) == Fields(es)[1..];
  }

  // ---- what the lookups find

  /** The newest field with a name; -1 if there is none. */
  function FindName(fs: seq<Field>, name: seq<Byte>): (r: int)
    ensures -1 <= r < |fs|
    ensures r >= 0 ==> fs[r].name == name
    ensures forall k :: r < k < |fs| ==> fs[k].name != name
  {
    if fs == [] then -1
    else if fs[|fs| - 1].name == name then |fs| - 1
    else FindName(fs[..|fs| - 1], name)
  }

  /** The newest occurrence of a field; -1 if there is none. */
  function FindField(fs: seq<Field>, f: Field): (r: int)
    ensures -1 <= r < |fs|
    ensures r >= 0 ==> fs[r] == f
    ensures forall k :: r < k < |fs| ==> fs[k] != f
  {
    if fs == [] then -1
    else if fs[|fs| - 1] == f then |fs| - 1
    else FindField(fs[..|fs| - 1], f)
  }

  /** The table as a value: its fields, oldest first, and the index field of the list's last node. */
  datatype State = State(fields: seq<Field>, newest: int) {
    predicate Valid() {
      newest <= INDEX_MAX && (fields == [] ==> newest == INDEX_MAX)
    }

    function Evicted(limit: int): State {
      var kept := Evict(fields, limit);
      State(kept, if kept == [] then INDEX_MAX else newest)
    }

    function Appended(f: Field): State {
      State(fields + [f], newest - 1)
    }

    function Added(capacity: int, f: Field): State {
      if f.Size() > capacity then State([], INDEX_MAX) else Evicted(capacity - f.Size()).Appended(f)
    }
  }

  /** The index field of entry r, when the newest entry's is `newest`. */
  function IndexField(fs: seq<Field>, newest: int, r: nat): int
    requires r < |fs|
  {
    newest + (|fs| - 1 - r)
  }

  /**
   * getIndex of an entry: its place counted from the newest, 1 for the newest. An entry
   * whose index field happens to be -1 is taken for a missing one.
   */
  function Place(fs: seq<Field>, newest: int, r: int): int
    requires r < |fs|
  {
    if r < 0 || IndexField(fs, newest, r) == -1 then -1 else |fs| - r
  }

  function LookupName(fs: seq<Field>, newest: int, name: seq<Byte>): int {
    if name == [] then -1 else Place(fs, newest, FindName(fs, name))
  }

  /** getEntry: an empty name or value is never looked for. */
  function LookupField(fs: seq<Field>, f: Field): (r: int)
    ensures -1 <= r < |fs|
  {
    if f.name == [] || f.value == [] then -1 else FindField(fs, f)
  }

  class EncoderTable {
    const hash: seq<Byte> -> nat
    const headerFields: array<HeaderEntry?>
    const head: HeaderEntry
    var size: nat
    var capacity: nat
    ghost var entries: seq<HeaderEntry>

    /** The circular list: head, then the entries from oldest to newest. */
    ghost predicate Linked()
      reads this`entries, head`before, head`after, entries`before, entries`after
    {
      && head.after == (if entries == [] then head else entries[0])
      && head.before == (if entries == [] then head else entries[|entries| - 1])
      && (forall i {:trigger entries[i].before} :: 0 <= i < |entries| ==>
            entries[i].before == if i == 0 then head else entries[i - 1])
      && (forall i {:trigger entries[i].after} :: 0 <= i < |entries| ==>
            entries[i].after == if i == |entries| - 1 then head else entries[i + 1])
    }

    ghost predicate Valid()
      reads this, head, entries, headerFields
    {
      && Sequence(entries, hash)
      && head !in entries && head.index == INDEX_MAX
      && Linked()
      && headerFields.Length == BUCKETS && Chains(entries, headerFields[..], Nexts(entries))
      && size == Total(Fields(entries))
    }

    constructor (maxCapacity: nat, hash: seq<Byte> -> nat)
      ensures Valid() && entries == [] && capacity == maxCapacity && this.hash == hash
      ensures fresh(head) && fresh(headerFields)
    {
      this.hash, size, capacity, entries := hash, 0, maxCapacity, [];
      var h := new HeaderEntry(-1, Field([], []), INDEX_MAX, null);
      headerFields := new HeaderEntry?[BUCKETS](_ => null);
      head := h;
      new;
      head.after := head;
      head.before := head;
    }

    method Clear()
      requires Valid()
      modifies this`size, this`entries, headerFields, head`before, head`after
      ensures Valid() && entries == [] && Abs() == State([], INDEX_MAX)
    {
      hide Latest, Bucket, Chains;
      for i := 0 to headerFields.Length
        invariant forall b :: 0 <= b < i ==> headerFields[b] == null
      {
        headerFields[i] := null;
      }
      head.before := head;
      head.after := head;
      size := 0;
      entries := [];
      NoChains(headerFields[..]);
    }

    lemma Ends()
      requires Linked()
      ensures head.before == (if entries == [] then head else entries[|entries| - 1])
      ensures head.after == (if entries == [] then head else entries[0])
    {
    }

    /** HeaderEntry.addBefore(head), for an entry outside the list. */
    method LinkLast(e: HeaderEntry)
      requires Linked() && head !in entries && e != head && e !in entries
      requires forall i, j :: 0 <= i < j < |entries| ==> entries[i] != entries[j]
      modifies e`after, e`before, head`before, head`after, entries, this`entries
      ensures Linked() && entries == old(entries) + [e]
      ensures Nexts(entries) == old(Nexts(entries)) + [old(e.next)]
    {
      ghost var n := |entries|;
      assert forall i :: 0 <= i < n - 1 ==> entries[i] != entries[n - 1];
      e.after := head;
      e.before := head.before;
      e.before.after := e;
      e.after.before := e;
      entries := entries + [e];
      assert Nexts(entries) == old(Nexts(entries)) + [old(e.next)];
    }

    /** The insertion: in front of its bucket's chain and at the end of the list. */
    method Push(field: Field)
      requires Valid()
      modifies this`size, this`entries, headerFields, head`before, head`after, entries
      ensures Valid() && |entries| == |old(entries)| + 1 && entries[..|old(entries)|] == old(entries)
      ensures fresh(entries[|old(entries)|]) && entries[|old(entries)|].field == field
      ensures Abs() == old(Abs()).Appended(field)
    {
      hide Latest, Total, Chains, Bucket, Sequence, Linked, Fields, Nexts;
      Ends();
      Distinct(entries, hash);
      var h := hash(field.name);
      var i := Bucket(h);
      var first := headerFields[i];
      var e := new HeaderEntry(h, field, head.before.index - 1, first);
      PushChains(entries, headerFields[..], Nexts(entries), e);
      FieldsSnoc(entries, e);
      SequenceSnoc(entries, hash, e);
      ghost var firsts, nexts := headerFields[..], Nexts(entries);
      headerFields[i] := e;
      assert headerFields[..] == firsts[i := e] && Nexts(entries) == nexts;
      LinkLast(e);
      size := size + field.Size();
    }

    /** HeaderEntry.remove() on the oldest entry. */
    method UnlinkFirst()
      requires Linked() && entries != [] && head !in entries
      requires forall i, j :: 0 <= i < j < |entries| ==> entries[i] != entries[j]
      modifies head`before, head`after, entries, this`entries
      ensures Linked() && entries == old(entries)[1..]
      ensures Nexts(entries) == old(Nexts(entries))[1..]
    {
      var e := head.after;
      assert e == entries[0];
      e.before.after := e.after;
      e.after.before := e.before;
      entries := entries[1..];
    }

    /** remove's walk down the oldest entry's chain: prev is what points to it, or itself when it comes first. */
    method FindPointer(eldest: HeaderEntry, i: nat) returns (prev: HeaderEntry, ghost p: int)
      requires Valid() && entries != [] && eldest == entries[0] && i == Bucket(eldest.hash)
      ensures PointsToOldest(entries, p) && prev == if p == |entries| then eldest else entries[p]
    {
      hide Latest, Total, Chains, Bucket, Sequence, Fields;
      Distinct(entries, hash);
      var e := headerFields[i];
      var prev' := e;
      p := |entries|;
      ChainStart(entries, headerFields[..], Nexts(entries), i);
      while e != eldest
        invariant 0 < p <= |entries|
        invariant e == EntryAt(entries, Latest(entries, p, i)) && Latest(entries, p, i) >= 0
        invariant if p == |entries| then prev' == e else prev' == entries[p] && Bucket(entries[p].hash) == i
        decreases p
      {
        var next := e.next;
        p := Latest(entries, p, i);
        ChainNext(entries, headerFields[..], Nexts(entries), p);
        prev' := e;
        e := next;
      }
      prev := prev';
    }

    /** Takes the oldest entry off its chain. */
    method Unchain(eldest: HeaderEntry, i: nat, prev: HeaderEntry, ghost p: int)
      requires headerFields.Length == BUCKETS && Chains(entries, headerFields[..], Nexts(entries))
      requires forall i, j :: 0 <= i < j < |entries| ==> entries[i] != entries[j]
      requires forall j :: 0 <= j < |entries| ==> entries[j].hash >= 0
      requires entries != [] && eldest == entries[0] && i == Bucket(eldest.hash)
      requires PointsToOldest(entries, p) && prev == if p == |entries| then eldest else entries[p]
      modifies headerFields, prev`next
      ensures Chains(entries[1..], headerFields[..], Nexts(entries)[1..])
    {
      hide Latest, Bucket, Chains, PointsToOldest;
      PointerRange(entries, p);
      OldestEndsChain(entries, headerFields[..], Nexts(entries));
      ghost var firsts', nexts' := Unchained(entries, headerFields[..], Nexts(entries), p);
      var next := eldest.next;
      assert next == Nexts(entries)[0];
      if prev == eldest {
        headerFields[i] := next;
      } else {
        prev.next := next;
      }
      assert headerFields[..] == firsts';
      assert Nexts(entries)[1..] == nexts';
    }

    /** The oldest entry is off its chain already: off the list, and out of the count. */
    method DropFirst(eldest: HeaderEntry)
      requires entries != [] && eldest == entries[0]
      requires Sequence(entries, hash) && head !in entries && head.index == INDEX_MAX && Linked()
      requires headerFields.Length == BUCKETS && Chains(entries[1..], headerFields[..], Nexts(entries)[1..])
      requires size == Total(Fields(entries))
      modifies this`size, this`entries, head`before, head`after, entries
      ensures Valid() && entries == old(entries)[1..]
    {
      hide Latest, Total, Chains, Bucket, Sequence, Fields, Linked, Nexts;
      Distinct(entries, hash);
      FieldsTail(entries);
      SequenceTail(entries, hash);
      size := size - eldest.field.Size();
      UnlinkFirst();
    }

    /** Evicts the oldest entry: off its chain, then off the list. */
    method Remove()
      requires Valid() && size > 0
      modifies this`size, this`entries, headerFields, head`before, head`after, entries
      ensures Valid() && old(entries) != [] && entries == old(entries)[1..]
    {
      hide Latest, Total, Chains, Bucket, Sequence, Fields, PointsToOldest, Linked, Nexts;
      Ends();
      NotEmpty(entries);
      Distinct(entries, hash);
      var eldest := head.after;
      var i := Bucket(eldest.hash);
      var prev;
      ghost var p;
      prev, p := FindPointer(eldest, i);
      PointerRange(entries, p);
      Unchain(eldest, i, prev, p);
      DropFirst(eldest);
    }

    // ---- the table as a list of fields

    ghost function Abs(): State
      reads this, entries
    {
      State(Fields(entries), if entries == [] then INDEX_MAX else entries[|entries| - 1].index)
    }

    method Length() returns (n: nat)
      requires Valid()
      ensures n == |entries|
    {
      hide Chains, Fields;
      NotEmpty(entries);
      Ends();
      n := if size == 0 then 0 else head.after.index - head.before.index + 1;
    }

    /** Evicts the oldest entries until headerSize more bytes fit, or nothing is left. */
    method EnsureCapacity(headerSize: nat)
      requires Valid()
      modifies this`size, this`entries, headerFields, head`before, head`after, entries
      ensures Valid() && Abs() == old(Abs()).Evicted(capacity - headerSize)
      ensures |entries| <= |old(entries)| && entries == old(entries)[|old(entries)| - |entries|..]
      ensures entries == [] || size + headerSize <= capacity
    {
      hide Valid, Evict, Total, Fields;
      ghost var limit, m, start := capacity - headerSize, 0, entries;
      ghost var goal := Evict(Fields(entries), limit);
      while size + headerSize > capacity
        invariant Valid() && 0 <= m <= |start| && entries == start[m..]
        invariant goal == Evict(Fields(entries), limit)
        decreases |entries|
      {
        var n := Length();
        if n == 0 {
          break;
        }
        EvictFirst(limit);
        Remove();
        m := m + 1;
      }
      EvictDone(limit);
    }

    lemma EvictFirst(limit: int)
      requires Valid() && entries != [] && size > limit
      ensures size > 0 && Evict(Fields(entries), limit) == Evict(Fields(entries[1..]), limit)
    {
      FieldsTail(entries);
    }

    lemma EvictDone(limit: int)
      requires Valid() && (size <= limit || entries == [])
      ensures Evict(Fields(entries), limit) == Fields(entries)
    {
    }

    method Add(field: Field)
      requires Valid()
      modifies this`size, this`entries, headerFields, head`before, head`after, entries
      ensures Valid() && Abs() == old(Abs()).Added(capacity, field)
      ensures fresh((set e | e in entries) - old(set e | e in entries))
    {
      hide Evict, Total, Valid, Fields;
      var headerSize := field.Size();
      if headerSize > capacity {
        Clear();
        return;
      }
      EnsureCapacity(headerSize);
      Push(field);
    }

    /** Entry r's index field, from the newest one's. */
    lemma IndexFieldOf(r: nat)
      requires Valid() && r < |entries|
      ensures |Abs().fields| == |entries| && entries[r].index == IndexField(Abs().fields, Abs().newest, r)
    {
      hide Chains, Linked;
    }

    /** getIndex(index). */
    method PlaceOf(index: int) returns (place: int)
      requires Valid()
      ensures place == if index == -1 then -1 else index - Abs().newest + 1
    {
      Ends();
      place := if index == -1 then index else index - head.before.index + 1;
    }

    /** The chain of bucket i from position p on: nil, or the entry at the next position. */
    lemma OnChain(e: HeaderEntry?, p: nat, i: nat)
      requires Valid() && p <= |entries| && i < BUCKETS
      requires forall j :: 0 <= j < |entries| ==> entries[j].hash >= 0
      requires e == EntryAt(entries, Latest(entries, p, i))
      ensures e != null ==> var r := Latest(entries, p, i);
                && 0 <= r < p && e == entries[r] && e.hash == hash(e.field.name)
                && e.next == EntryAt(entries, Latest(entries, r, i))
      ensures e == null ==> Latest(entries, p, i) == -1
    {
      hide Latest;
      var r := Latest(entries, p, i);
      if r >= 0 { ChainNext(entries, headerFields[..], Nexts(entries), r); }
    }

    lemma Start(i: nat)
      requires Valid() && i < BUCKETS
      ensures forall j :: 0 <= j < |entries| ==> entries[j].hash >= 0
      ensures headerFields.Length == BUCKETS
      ensures headerFields[i] == EntryAt(entries, Latest(entries, |entries|, i))
      ensures |entries| == |Abs().fields|
    {
    }

    /** Entries between two members of a chain are in other buckets, so have other names. */
    lemma Skipped(name: seq<Byte>, p: nat)
      requires Valid() && p <= |entries|
      requires forall j :: 0 <= j < |entries| ==> entries[j].hash >= 0
      ensures forall k :: Latest(entries, p, Bucket(hash(name))) < k < p ==> entries[k].field.name != name
    {
      hide Latest, Chains;
    }

    /** getIndex(name): down the chain of the name's bucket. */
    method GetIndex(name: seq<Byte>) returns (place: int)
      requires Valid()
      ensures place == LookupName(Abs().fields, Abs().newest, name)
    {
      hide Latest, Bucket, Valid, EntryAt, LookupName, FindName, Abs;
      var n := Length();
      if n == 0 || |name| == 0 {
        NoName(name);
        return -1;
      }
      var h := hash(name);
      var i := Bucket(h);
      var index := -1;
      Start(i);
      var e := headerFields[i];
      ghost var p := |entries|;
      while e != null
        invariant 0 <= p <= |entries| && e == EntryAt(entries, Latest(entries, p, i))
        invariant forall k :: p <= k < |entries| ==> entries[k].field.name != name
        decreases p
      {
        OnChain(e, p, i);
        Skipped(name, p);
        p := Latest(entries, p, i);
        if e.hash == h && e.field.name == name {
          index := e.index;
          break;
        }
        e := e.next;
      }
      if e == null {
        OnChain(e, p, i);
        Skipped(name, p);
      }
      NameFound(name, if e == null then -1 else p, index);
      place := PlaceOf(index);
    }

    lemma NameFound(name: seq<Byte>, r: int, index: int)
      requires Valid() && entries != [] && name != [] && -1 <= r < |entries|
      requires forall k :: r < k < |entries| ==> entries[k].field.name != name
      requires if r < 0 then index == -1 else entries[r].field.name == name && index == entries[r].index
      ensures LookupName(Abs().fields, Abs().newest, name) == if index == -1 then -1 else index - Abs().newest + 1
    {
      hide Chains, Linked;
      var fs := Abs().fields;
      assert forall k :: 0 <= k < |entries| ==> fs[k].name == entries[k].field.name;
      assert FindName(fs, name) == r;
    }

    lemma NoName(name: seq<Byte>)
      requires entries == [] || name == []
      ensures LookupName(Abs().fields, Abs().newest, name) == -1
    {
    }

    /** getEntry: down the same chain, for name and value. */
    method GetEntry(field: Field) returns (entry: HeaderEntry?)
      requires Valid()
      ensures entry == EntryAt(entries, LookupField(Abs().fields, field))
    {
      hide Latest, Bucket, Valid, EntryAt, LookupField, Abs;
      var n := Length();
      if n == 0 || |field.name| == 0 || |field.value| == 0 {
        NoEntry(field);
        return null;
      }
      var h := hash(field.name);
      var i := Bucket(h);
      Start(i);
      var e := headerFields[i];
      ghost var p := |entries|;
      while e != null
        invariant 0 <= p <= |entries| && e == EntryAt(entries, Latest(entries, p, i))
        invariant forall k :: p <= k < |entries| ==> entries[k].field != field
        decreases p
      {
        OnChain(e, p, i);
        Skipped(field.name, p);
        p := Latest(entries, p, i);
        if e.hash == h && e.field.name == field.name && e.field.value == field.value {
          FieldFound(field, p);
          return e;
        }
        e := e.next;
      }
      OnChain(e, p, i);
      Skipped(field.name, p);
      FieldFound(field, -1);
      return null;
    }

    lemma FieldFound(field: Field, r: int)
      requires -1 <= r < |entries|
      requires forall k :: r < k < |entries| ==> entries[k].field != field
      requires r >= 0 ==> entries[r].field == field && field.name != [] && field.value != []
      ensures EntryAt(entries, LookupField(Abs().fields, field)) == if r < 0 then null else entries[r]
    {
      var fs := Abs().fields;
      assert forall k :: 0 <= k < |entries| ==> fs[k] == entries[k].field;
    }

    lemma NoEntry(field: Field)
      requires entries == [] || field.name == [] || field.value == []
      ensures EntryAt(entries, LookupField(Abs().fields, field)) == null
    {
    }
  }

  lemma PointerRange(es: seq<HeaderEntry>, p: int)
    requires es != [] && forall j :: 0 <= j < |es| ==> es[j].hash >= 0
    ensures PointsToOldest(es, p) ==> 0 < p <= |es|
  {
  }

  lemma OldestEndsChain(es: seq<HeaderEntry>, firsts: seq<HeaderEntry?>, nexts: seq<HeaderEntry?>)
    requires Chains(es, firsts, nexts) && es != []
    ensures |nexts| == |es| && nexts[0] == null
  {
  }

  /** The chains without the oldest entry, which entry p points to. */
  lemma Unchained(es: seq<HeaderEntry>, firsts: seq<HeaderEntry?>, nexts: seq<HeaderEntry?>, p: int)
    returns (firsts': seq<HeaderEntry?>, nexts': seq<HeaderEntry?>)
    requires Chains(es, firsts, nexts) && es != [] && PointsToOldest(es, p)
    ensures Chains(es[1..], firsts', nexts')
    ensures firsts' == if p == |es| then firsts[Bucket(es[0].hash) := null] else firsts
    ensures nexts' == if p == |es| then nexts[1..] else nexts[p := null][1..]
  {
    firsts' := if p == |es| then firsts[Bucket(es[0].hash) := null] else firsts;
    nexts' := if p == |es| then nexts[1..] else nexts[p := null][1..];
    PopChains(es, firsts, nexts, p, firsts', nexts');
  }

  lemma NotEmpty(es: seq<HeaderEntry>)
    ensures Total(Fields(es)) > 0 <==> es != []
  {
  }

  /** The oldest entry is on its chain. */
  lemma ChainStart(es: seq<HeaderEntry>, firsts: seq<HeaderEntry?>, nexts: seq<HeaderEntry?>, b: nat)
    requires Chains(es, firsts, nexts) && es != [] && b == Bucket(es[0].hash)
    ensures firsts[b] == EntryAt(es, Latest(es, |es|, b))
    ensures forall k :: 0 < k <= |es| ==> Latest(es, k, b) >= 0
  {
    forall k | 0 < k <= |es|
      ensures Latest(es, k, b) >= 0
    {
      assert Bucket(es[0].hash) == b;
    }
  }

  lemma ChainNext(es: seq<HeaderEntry>, firsts: seq<HeaderEntry?>, nexts: seq<HeaderEntry?>, k: nat)
    requires Chains(es, firsts, nexts) && k < |es|
    ensures nexts[k] == EntryAt(es, Latest(es, k, Bucket(es[k].hash)))
  {
  }
}
