/**
 The memstore on top of the skip list: values change through pointers, deletions leave tombstones, a byte count is kept.
 */
module MemStore {
  import opened Bytes
  import opened Tables
  import SkipList
  import SimpleDB

  lemma {:induction false} CompareIsTotalOrder()
    ensures SkipList.TotalOrder(Compare)
  {
    forall a: bytes, b: bytes, c: bytes | Compare(a, b) < 0 && Compare(b, c) < 0 ensures Compare(a, c) < 0 {
      LessTransitive(a, b, c);
    }
    hide Less, Compare;
    assert SkipList.Transitive(Compare);
  }

  // ---------- the byte count ----------

  /** What an entry adds to the size estimate: its key and, unless it is a tombstone, its value. */
  function Weight(k: bytes, v: Value): nat
  {
    |k| + if v.Some? then |v.value| else 0
  }

  ghost function Total(t: Table): nat
    decreases |t|
  {
    if t == map[] then 0 else
      var k :| k in t;
      Weight(k, t[k]) + Total(t - {k})
  }

  lemma {:induction false} TotalOf(t: Table, k: bytes)
    requires k in t
    ensures Total(t) == Weight(k, t[k]) + Total(t - {k})
    decreases |t|
  {
    hide Weight;
    var j :| j in t && Total(t) == Weight(j, t[j]) + Total(t - {j});
    if j != k {
      assert (t - {j})[k] == t[k];
      TotalOf(t - {j}, k);
      assert (t - {j}) - {k} == (t - {k}) - {j};
      assert (t - {k})[j] == t[j];
      TotalOf(t - {k}, j);
    }
  }

  lemma {:induction false} TotalSet(t: Table, k: bytes, v: Value)
    ensures Total(t[k := v]) == Weight(k, v) + Total(t - {k})
  {
    TotalOf(t[k := v], k);
    assert t[k := v] - {k} == t - {k};
  }

  // ---------- the store ----------

  datatype Error = NoError | KeyAlreadyExists | KeyNotFound | KeyTombstoned | KeyNil | ValueNil

  /** The pointer a value sits behind; nil marks a tombstone. */
  class ValueStruct {
    var value: Value

    constructor (value: Value)
      ensures this.value == value
    {
      this.value := value;
    }
  }

  /** Every key has its own pointer. */
  ghost predicate Cells(contents: map<bytes, ValueStruct>, cells: set<ValueStruct>)
  {
    && (forall k :: k in contents ==> contents[k] in cells)
    && (forall a, b :: a in contents && b in contents && a != b ==> contents[a] != contents[b])
  }

  ghost function Snapshot(contents: map<bytes, ValueStruct>, cells: set<ValueStruct>): Table
    requires Cells(contents, cells)
    reads cells
  {
    map k | k in contents :: contents[k].value
  }

  lemma {:induction false} SnapshotKeys(contents: map<bytes, ValueStruct>, cells: set<ValueStruct>)
    requires Cells(contents, cells)
    ensures Snapshot(contents, cells).Keys == contents.Keys
  {
  }

  lemma {:induction false} SnapshotGrows(contents: map<bytes, ValueStruct>, cells: set<ValueStruct>, key: bytes,
                                         cell: ValueStruct)
    requires Cells(contents, cells) && key !in contents && cell !in cells
    ensures Cells(contents[key := cell], cells + {cell})
    ensures Snapshot(contents[key := cell], cells + {cell}) == Snapshot(contents, cells)[key := cell.value]
  {
  }

  // ---------- what a flush writes ----------

  /** All records, or all but the tombstones. */
  function Kept(es: seq<Entry>, includeTombstones: bool): seq<Entry>
  {
    if es == [] then [] else
      var e := es[|es| - 1];
      Kept(es[..|es| - 1], includeTombstones) + if includeTombstones || e.value.Some? then [e] else []
  }

  lemma {:induction false} KeptMembers(es: seq<Entry>, includeTombstones: bool)
    ensures forall e :: e in Kept(es, includeTombstones) ==> e in es
  {
    if es != [] {
      KeptMembers(es[..|es| - 1], includeTombstones);
    }
  }

  lemma {:induction false} KeptAscends(es: seq<Entry>, includeTombstones: bool)
    requires KeysAscend(es)
    ensures KeysAscend(Kept(es, includeTombstones))
  {
    hide Less;
    if es != [] {
      var n := |es| - 1;
      KeptAscends(es[..n], includeTombstones);
      KeptMembers(es[..n], includeTombstones);
      var before := Kept(es[..n], includeTombstones);
      forall j | 0 <= j < |before| ensures Less(before[j].key, es[n].key) {
        assert before[j] in es[..n];
      }
    }
  }

  ghost function Visible(t: Table, includeTombstones: bool): Table
  {
    map k | k in t && (includeTombstones || t[k].Some?) :: t[k]
  }

  lemma {:induction false} KeptTable(es: seq<Entry>, includeTombstones: bool)
    requires KeysAscend(es)
    ensures AsTable(Kept(es, includeTombstones)) == Visible(AsTable(es), includeTombstones)
  {
    if es != [] {
      var n := |es| - 1;
      var e := es[n];
      KeptTable(es[..n], includeTombstones);
      var before := Kept(es[..n], includeTombstones);
      assert (before + [e])[..|before|] == before && before + [] == before;
      AsTableHas(es[..n], e.key);
      assert e.key !in AsTable(es[..n]) by {
        forall i | 0 <= i < n ensures es[i].key != e.key {
          LessTrichotomy(es[i].key, e.key);
        }
      }
      hide AsTable, KeysAscend, Less;
      VisibleSet(AsTable(es[..n]), e.key, e.value, includeTombstones);
      assert AsTable(es) == AsTable(es[..n])[e.key := e.value] by {
        AsTableLast(es[..n], e);
        assert es[..n] + [e] == es;
      }
      AsTableLast(before, e);
    }
  }

  lemma {:induction false} AsTableLast(es: seq<Entry>, e: Entry)
    ensures AsTable(es + [e]) == AsTable(es)[e.key := e.value]
  {
    assert (es + [e])[..|es|] == es;
  }

  lemma {:induction false} VisibleSet(t: Table, k: bytes, v: Value, includeTombstones: bool)
    requires k !in t
    ensures Visible(t[k := v], includeTombstones)
         == if includeTombstones || v.Some? then Visible(t, includeTombstones)[k := v]
            else Visible(t, includeTombstones)
  {
  }

  lemma {:induction false} RangeInStore(pairs: seq<(bytes, ValueStruct)>, contents: map<bytes, ValueStruct>)
    requires SkipList.IsRange(pairs, contents, Compare, None, None)
    ensures forall i :: 0 <= i < |pairs| ==> pairs[i].0 in contents && contents[pairs[i].0] == pairs[i].1
  {
  }

  /** The pairs of a full iteration stand for the store. */
  lemma {:induction false} RangeIsStore(pairs: seq<(bytes, ValueStruct)>, contents: map<bytes, ValueStruct>,
                                        cells: set<ValueStruct>, all: seq<Entry>)
    requires SkipList.IsRange(pairs, contents, Compare, None, None) && Cells(contents, cells)
    requires |all| == |pairs| && forall i :: 0 <= i < |pairs| ==> pairs[i].0 in contents && all[i] == Entry(pairs[i].0,
         contents[pairs[i].0].value)
    ensures KeysAscend(all) && AsTable(all) == Snapshot(contents, cells)
  {
    hide Less, AsTable;
    forall i, j | 0 <= i < j < |all| ensures Less(all[i].key, all[j].key) {
      assert Compare(pairs[i].0, pairs[j].0) < 0;
    }
    hide Compare;
    var t := Snapshot(contents, cells);
    forall k | k in t ensures exists i :: 0 <= i < |all| && all[i].key == k {
      assert SkipList.Within(k, Compare, None, None);
      var i :| 0 <= i < |pairs| && pairs[i].0 == k;
      assert all[i].key == k;
    }
    AsTableIs(all, t);
  }

  class MemStore {
    const list: SkipList.Map<bytes, ValueStruct>
    var estimatedSize: nat
    ghost var cells: set<ValueStruct>

    /** The table the store stands for. */
    ghost function Model(): Table
      reads this, list, cells
      requires Cells(list.contents, cells)
    {
      Snapshot(list.contents, cells)
    }

    ghost predicate Valid()
      reads this, list, list.nodes, cells
    {
      && list.Valid() && list.cmp == Compare
      && Cells(list.contents, cells)
      && estimatedSize == Total(Model())
    }

    constructor ()
      ensures Valid() && Model() == map[] && fresh(list) && fresh(list.nodes) && fresh(cells)
    {
      CompareIsTotalOrder();
      list := new SkipList.Map<bytes, ValueStruct>(Compare);
      estimatedSize := 0;
      cells := {};
    }

    /** Overwrites the value behind a pointer. */
    method SetValue(key: bytes, cell: ValueStruct, value: Value)
      requires Valid() && key in list.contents && list.contents[key] == cell
      modifies this`estimatedSize, cell
      ensures Valid() && Model() == old(Model())[key := value]
    {
      hide SkipList.TotalOrder, SkipList.LevelOk, SkipList.Below, SkipList.Holds, Total;
      ghost var before := Model();
      TotalOf(before, key);
      TotalSet(before, key, value);
      var prevLen := if cell.value.Some? then |cell.value.value| else 0;
      cell.value := value;
      estimatedSize := estimatedSize - prevLen + if value.Some? then |value.value| else 0;
      assert Model() == before[key := value];
    }

    method InsertValue(key: bytes, value: Value)
      requires Valid() && key !in list.contents
      modifies this, list, list.nodes
      ensures Valid() && Model() == old(Model())[key := value]
      ensures fresh(list.nodes - old(list.nodes)) && fresh(cells - old(cells))
    {
      hide SkipList.TotalOrder, SkipList.LevelOk, SkipList.Below, SkipList.Holds, Total, Cells, Snapshot;
      ghost var before := Model();
      TotalSet(before, key, value);
      SnapshotKeys(list.contents, cells);
      assert before - {key} == before;
      var cell := new ValueStruct(value);
      SnapshotGrows(list.contents, cells, key, cell);
      cells := cells + {cell};
      list.Insert(key, cell);
      estimatedSize := estimatedSize + |key| + if value.Some? then |value.value| else 0;
    }

    method Get(key: bytes) returns (value: Value, err: Error)
      requires Valid()
      ensures match SimpleDB.MemGet(Model(), key)
              case KeyNotFound => err == KeyNotFound && value == None
              case KeyTombstoned => err == KeyTombstoned && value == None
              case MemValue(v) => err == NoError && value == Some(v)
    {
      hide SkipList.TotalOrder, SkipList.LevelOk, SkipList.Below, SkipList.Holds, Total;
      var element := list.Get(key);
      if element.None? {
        return None, KeyNotFound;
      }
      var val := element.value.value;
      if val.None? {
        return None, KeyTombstoned;
      }
      return val, NoError;
    }

    method Contains(key: bytes) returns (b: bool)
      requires Valid()
      ensures b <==> key in Model() && Model()[key].Some?
    {
      hide SkipList.TotalOrder, SkipList.LevelOk, SkipList.Below, SkipList.Holds, Total;
      var v, err := Get(key);
      b := err.NoError?;
    }

    method UpsertInternal(key: Value, value: Value, errorIfKeyExist: bool) returns (err: Error)
      requires Valid()
      modifies this, list, list.nodes, cells
      ensures Valid()
      ensures fresh(list.nodes - old(list.nodes)) && fresh(cells - old(cells))
      ensures err == if key.None? then KeyNil else if value.None? then ValueNil
                     else if errorIfKeyExist && key.value in old(Model()) && old(Model())[key.value].Some?
                         then KeyAlreadyExists
                     else NoError
      ensures Model() == if err.NoError? then old(Model())[key.value := value] else old(Model())
    {
      hide SkipList.TotalOrder, SkipList.LevelOk, SkipList.Below, SkipList.Holds, Total;
      if key.None? {
        return KeyNil;
      }
      if value.None? {
        return ValueNil;
      }
      var element := list.Get(key.value);
      if element.Some? {
        if element.value.value.Some? && errorIfKeyExist {
          return KeyAlreadyExists;
        }
        SetValue(key.value, element.value, value);
      } else {
        InsertValue(key.value, value);
      }
      return NoError;
    }

    method DeleteInternal(key: bytes, errorIfKeyNotFound: bool) returns (err: Error)
      requires Valid()
      modifies this, cells
      ensures Valid() && list.nodes == old(list.nodes) && cells == old(cells)
      ensures err == if key !in old(Model()) && errorIfKeyNotFound then KeyNotFound else NoError
      ensures Model() == if key in old(Model()) then old(Model())[key := None] else old(Model())
    {
      hide SkipList.TotalOrder, SkipList.LevelOk, SkipList.Below, SkipList.Holds, Total;
      var element := list.Get(key);
      if element.None? {
        if errorIfKeyNotFound {
          return KeyNotFound;
        }
      } else {
        SetValue(key, element.value, None);
      }
      return NoError;
    }

    /** Records the key as deleted, whether it was there or not. */
    method Tombstone(key: bytes)
      requires Valid()
      modifies this, list, list.nodes, cells
      ensures Valid() && Model() == old(Model())[key := None]
      ensures fresh(list.nodes - old(list.nodes)) && fresh(cells - old(cells))
    {
      hide SkipList.TotalOrder, SkipList.LevelOk, SkipList.Below, SkipList.Holds, Total;
      var element := list.Get(key);
      if element.Some? {
        SetValue(key, element.value, None);
      } else {
        InsertValue(key, None);
      }
    }

    /**
     The records a flush hands to the table writer: the whole store in key order, tombstones as nil values or left out.
     */
    method FlushMemstore(includeTombstones: bool) returns (out: seq<Entry>)
      requires Valid()
      ensures KeysAscend(out) && AsTable(out) == Visible(Model(), includeTombstones)
    {
      hide SkipList.TotalOrder, SkipList.LevelOk, SkipList.Below, SkipList.Holds, SkipList.IsRange, SkipList.Upto;
      hide Total, Less, Compare, KeysAscend, AsTable, Visible;
      var it := list.Iterate();
      ghost var pairs := it.Pending();
      RangeInStore(pairs, list.contents);
      ghost var model := Model();
      ghost var all := seq(|pairs|, i requires 0 <= i < |pairs| => Entry(pairs[i].0, model[pairs[i].0]));
      ghost var n := 0;
      out := [];
      while true
        invariant n <= |pairs| && it.Valid() && it.list == list && it.Pending() == pairs[n..]
        invariant out == Kept(all[..n], includeTombstones)
        decreases |pairs| - n
      {
        var r := it.Next();
        if r.None? {
          break;
        }
        assert r.value == pairs[n] && model[pairs[n].0] == pairs[n].1.value;
        assert all[n] == Entry(r.value.0, r.value.1.value);
        assert all[..n + 1][..n] == all[..n] && all[..n + 1][n] == all[n];
        if includeTombstones || r.value.1.value.Some? {
          out := out + [Entry(r.value.0, r.value.1.value)];
        }
        n := n + 1;
      }
      assert n == |pairs| && all[..n] == all;
      RangeIsStore(pairs, list.contents, cells, all);
      KeptAscends(all, includeTombstones);
      KeptTable(all, includeTombstones);
    }
  }

  // ---------- the pair of stores of the database ----------

  /** The write store takes all changes and wins over the read store; both are one object in a new database. */
  class RWMemstore {
    const readStore: MemStore
    const writeStore: MemStore

    constructor (readStore: MemStore, writeStore: MemStore)
      ensures this.readStore == readStore && this.writeStore == writeStore
    {
      this.readStore, this.writeStore := readStore, writeStore;
    }

    method Get(key: bytes) returns (value: Value, err: Error)
      requires readStore.Valid() && writeStore.Valid()
      ensures match SimpleDB.RWGet(readStore.Model(), writeStore.Model(), key)
              case KeyNotFound => err == KeyNotFound && value == None
              case KeyTombstoned => err == KeyTombstoned && value == None
              case MemValue(v) => err == NoError && value == Some(v)
    {
      hide SkipList.TotalOrder, SkipList.LevelOk, SkipList.Below, SkipList.Holds, Total;
      value, err := writeStore.Get(key);
      if err.KeyNotFound? {
        value, err := readStore.Get(key);
      }
    }

    /** An upsert has the effect of a logged addition; nil keys and values are refused. */
    method Upsert(key: Value, value: Value) returns (err: Error)
      requires writeStore.Valid()
      modifies writeStore, writeStore.list, writeStore.list.nodes, writeStore.cells
      ensures writeStore.Valid()
      ensures err == if key.None? then KeyNil else if value.None? then ValueNil else NoError
      ensures writeStore.Model() == if err != NoError then old(writeStore.Model())
                                    else SimpleDB.StoreOp(old(writeStore.Model()), SimpleDB.Put(key.value, value.value))
    {
      err := writeStore.UpsertInternal(key, value, false);
    }

    /**
     Delete, and a tombstone when there was nothing to delete: the same effect as the tombstone that a replay records.
     */
    method Delete(key: bytes) returns (err: Error)
      requires writeStore.Valid()
      modifies writeStore, writeStore.list, writeStore.list.nodes, writeStore.cells
      ensures writeStore.Valid() && err == NoError
      ensures writeStore.Model() == SimpleDB.StoreOp(old(writeStore.Model()), SimpleDB.Delete(key))
    {
      hide SkipList.TotalOrder, SkipList.LevelOk, SkipList.Below, SkipList.Holds, Total;
      err := writeStore.DeleteInternal(key, true);
      if err.KeyNotFound? {
        writeStore.Tombstone(key);
        err := NoError;
      }
    }
  }
}
