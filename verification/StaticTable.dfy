// The static table: header fields numbered from 1, looked up through a dictionary
// keyed by names read as UTF-8 text.
module StaticTable {
  import opened Words
  import opened HeaderTable
  import opened Utf8

  /** The least i >= from, counted from 1, whose field has this name; 0 if there is none. */
  function FirstNamed(table: seq<Field>, name: seq<Byte>, from: nat): (i: nat)
    requires 1 <= from <= |table| + 1
    ensures i == 0 || (from <= i <= |table| && table[i - 1].name == name)
    ensures forall k :: from - 1 <= k < (if i == 0 then |table| else i - 1) ==> table[k].name != name
    decreases |table| - from
  {
    if from == |table| + 1 then 0
    else if table[from - 1].name == name then from
    else FirstNamed(table, name, from + 1)
  }

  /** getIndex(name): the first entry whose name is the text of this one. */
  function NameIndex(table: seq<Field>, name: seq<Byte>): (i: int)
    ensures i == -1 || (1 <= i <= |table| && table[i - 1].name == Text(name))
  {
    var i := FirstNamed(table, Text(name), 1);
    if i == 0 then -1 else i
  }

  /** getIndex(name, value): along the run of entries with this very name. */
  function FieldIndexFrom(table: seq<Field>, f: Field, i: nat): (r: int)
    requires 1 <= i <= |table| + 1
    ensures r == -1 || (i <= r <= |table| && table[r - 1] == f)
    decreases |table| - i
  {
    if i == |table| + 1 || table[i - 1].name != f.name then -1
    else if table[i - 1].value == f.value then i
    else FieldIndexFrom(table, f, i + 1)
  }

  function FieldIndex(table: seq<Field>, f: Field): (r: int)
    ensures r == -1 || (1 <= r <= |table| && table[r - 1] == f)
  {
    var i := NameIndex(table, f.name);
    if i == -1 then -1 else FieldIndexFrom(table, f, i)
  }

  /** Entries with the same name stand next to each other, as in Appendix A of RFC 7541. */
  predicate Grouped(table: seq<Field>) {
    forall i, j, k :: 0 <= i < j < k < |table| && table[i].name == table[k].name ==> table[j].name == table[k].name
  }

  lemma {:induction false} FieldIndexFromFinds(table: seq<Field>, f: Field, i: nat, k: nat)
    requires 1 <= i <= k + 1 <= |table| && table[k] == f
    requires forall j :: i - 1 <= j <= k ==> table[j].name == f.name
    ensures FieldIndexFrom(table, f, i) != -1
    decreases k + 1 - i
  {
    if table[i - 1].value != f.value { FieldIndexFromFinds(table, f, i + 1, k); }
  }

  /** A field whose name is text is found if and only if it is there. */
  lemma FieldIndexComplete(table: seq<Field>, f: Field)
    requires Grouped(table) && Text(f.name) == f.name
    ensures FieldIndex(table, f) != -1 <==> f in table
  {
    if f in table {
      var k :| 0 <= k < |table| && table[k] == f;
      FieldIndexFromFinds(table, f, NameIndex(table, f.name), k);
    }
  }

  class StaticTable {
    const table: seq<Field>
    const tableByName: map<seq<Byte>, nat>

    ghost predicate Valid() {
      forall s :: var i := FirstNamed(table, s, 1); if i == 0 then s !in tableByName else s in tableByName && tableByName[s] == i
    }

    /** The dictionary is filled from the last entry to the first, so that the first of a name stays. */
    constructor (table: seq<Field>)
      ensures Valid() && this.table == table
    {
      var ret: map<seq<Byte>, nat> := map[];
      var i := |table|;
      while i > 0
        invariant 0 <= i <= |table|
        invariant forall s :: var r := FirstNamed(table, s, i + 1); if r == 0 then s !in ret else s in ret && ret[s] == r
      {
        ret := ret[table[i - 1].name := i];
        i := i - 1;
      }
      this.table, this.tableByName := table, ret;
    }

    method GetIndex(name: seq<Byte>) returns (i: int)
      requires Valid()
      ensures i == NameIndex(table, name)
    {
      var s := Text(name);
      i := if s in tableByName then tableByName[s] else -1;
    }

    method GetFieldIndex(f: Field) returns (r: int)
      requires Valid()
      ensures r == FieldIndex(table, f)
    {
      var idx := GetIndex(f.name);
      if idx != -1 {
        for i := idx to |table| + 1
          invariant FieldIndex(table, f) == FieldIndexFrom(table, f, i)
        {
          if table[i - 1].name != f.name {
            break;
          }
          if table[i - 1].value == f.value {
            return i;
          }
        }
      }
      r := -1;
    }
  }
}
