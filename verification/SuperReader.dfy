/** Several tables behind one reader, and the merge step of a compaction. The readers are listed oldest first. */
module SuperReader {
  import opened Bytes
  import opened Tables
  import opened PriorityQueue
  import opened Merger
  import opened SimpleDB

  /** What the entries of table files mean. */
  function TablesOf(files: seq<seq<Entry>>): (ts: seq<Table>)
    ensures |ts| == |files|
  {
    seq(|files|, i requires 0 <= i < |files| => AsTable(files[i]))
  }

  /** The newest table with the key decides the override. */
  lemma {:induction false} MergeAt(ts: seq<Table>, i: nat, k: bytes)
    requires i < |ts| && k in ts[i] && forall j :: i < j < |ts| ==> k !in ts[j]
    ensures k in Tables.Merge(ts) && Tables.Merge(ts)[k] == ts[i][k]
  {
    var n := |ts| - 1;
    if i < n {
      MergeAt(ts[..n], i, k);
    }
  }

  lemma {:induction false} MergeNowhere(ts: seq<Table>, k: bytes)
    requires forall j :: 0 <= j < |ts| ==> k !in ts[j]
    ensures k !in Tables.Merge(ts)
  {
    if ts != [] {
      MergeNowhere(ts[..|ts| - 1], k);
    }
  }

  /** The last table, below a bound, that has the key. */
  lemma {:induction false} NewestWith(ts: seq<Table>, n: nat, k: bytes) returns (i: nat)
    requires n <= |ts| && exists j :: 0 <= j < n && k in ts[j]
    ensures i < n && k in ts[i] && forall j :: i < j < n ==> k !in ts[j]
  {
    if k in ts[n - 1] {
      i := n - 1;
    } else {
      i := NewestWith(ts, n - 1, k);
    }
  }

  /** Lookup from back to front is lookup in the override. */
  method Get(readers: seq<Table>, key: bytes) returns (r: TableResult)
    ensures r == TableGet(Tables.Merge(readers), key)
  {
    for i := |readers| downto 0
      invariant forall j :: i <= j < |readers| ==> key !in readers[j]
    {
      var res := TableGet(readers[i], key);
      if res.TableNotFound? {
        continue;
      }
      MergeAt(readers, i, key);
      return res;
    }
    MergeNowhere(readers, key);
    return TableNotFound;
  }

  method Contains(readers: seq<Table>, key: bytes) returns (r: bool)
    ensures r <==> key in Tables.Merge(readers)
  {
    for i := |readers| downto 0
      invariant forall j :: i <= j < |readers| ==> key !in readers[j]
    {
      if key in readers[i] {
        MergeAt(readers, i, key);
        return true;
      }
    }
    MergeNowhere(readers, key);
    return false;
  }

  // ---------- scans ----------

  /** What a scan asks for: everything, everything from a key on, or the keys between two keys, ends included. */
  datatype Range = Everything | StartingAt(lower: bytes) | Between(lower: bytes, higher: bytes)

  predicate Within(range: Range, k: bytes)
  {
    (range.Everything? || Leq(range.lower, k)) && (range.Between? ==> Leq(k, range.higher))
  }

  /** The index of a table refuses a range whose ends are out of order. */
  predicate Inverted(range: Range)
  {
    range.Between? && Less(range.higher, range.lower)
  }

  /** The entries of one table that its own scan returns. */
  function Narrow(es: seq<Entry>, range: Range): seq<Entry>
  {
    if es == [] then [] else
      var e := es[|es| - 1];
      Narrow(es[..|es| - 1], range) + if Within(range, e.key) then [e] else []
  }

  lemma {:induction false} NarrowMember(es: seq<Entry>, range: Range, e: Entry)
    ensures e in Narrow(es, range) <==> e in es && Within(range, e.key)
  {
    if es != [] {
      NarrowMember(es[..|es| - 1], range, e);
      assert es == es[..|es| - 1] + [es[|es| - 1]];
    }
  }

  lemma {:induction false} NarrowAscends(es: seq<Entry>, range: Range)
    requires KeysAscend(es)
    ensures KeysAscend(Narrow(es, range))
  {
    hide Less, Within;
    if es != [] {
      var n := |es| - 1;
      var front := Narrow(es[..n], range);
      NarrowAscends(es[..n], range);
      forall i | 0 <= i < |front| ensures Less(front[i].key, es[n].key) {
        NarrowMember(es[..n], range, front[i]);
        var j :| 0 <= j < n && es[..n][j] == front[i];
        assert es[j] == front[i];
      }
    }
  }

  lemma {:induction false} NarrowTable(es: seq<Entry>, range: Range, k: bytes)
    requires KeysAscend(es)
    ensures k in AsTable(Narrow(es, range)) <==> k in AsTable(es) && Within(range, k)
    ensures k in AsTable(Narrow(es, range)) ==> AsTable(Narrow(es, range))[k] == AsTable(es)[k]
  {
    hide AsTable, KeysAscend, Within, Narrow;
    var ns := Narrow(es, range);
    NarrowAscends(es, range);
    if k in AsTable(ns) {
      var e := Entry(k, AsTable(ns)[k]);
      EntryInTable(ns, e);
      NarrowMember(es, range, e);
      EntryInTable(es, e);
    }
    if k in AsTable(es) {
      var e := Entry(k, AsTable(es)[k]);
      EntryInTable(es, e);
      NarrowMember(es, range, e);
      EntryInTable(ns, e);
    }
  }

  ghost predicate GoodFiles(files: seq<seq<Entry>>)
  {
    forall i :: 0 <= i < |files| ==> KeysAscend(files[i])
  }

  /** No table holds an empty key. */
  ghost predicate KeyedFiles(files: seq<seq<Entry>>)
  {
    forall i, e :: 0 <= i < |files| && e in files[i] ==> e.key != []
  }

  /** One source per table, its position as context. */
  ghost predicate Numbered(sources: seq<Source>, files: seq<seq<Entry>>, range: Range)
  {
    |sources| <= |files| && forall i :: 0 <= i < |sources| ==> sources[i] == Source(i, Narrow(files[i], range))
  }

  /** The sources that a scan of the given range merges. */
  ghost function SourcesOf(files: seq<seq<Entry>>, range: Range): (sources: seq<Source>)
    ensures Numbered(sources, files, range) && |sources| == |files|
  {
    seq(|files|, i requires 0 <= i < |files| => Source(i, Narrow(files[i], range)))
  }

  lemma {:induction false} NumberedIsGood(sources: seq<Source>, files: seq<seq<Entry>>, range: Range)
    requires GoodFiles(files) && Numbered(sources, files, range)
    ensures GoodSources(sources) && (KeyedFiles(files) ==> KeyedSources(sources))
  {
    hide KeysAscend, Narrow;
    forall i | 0 <= i < |sources| ensures sources[i].ctx >= 0 && KeysAscend(sources[i].entries) {
      NarrowAscends(files[i], range);
    }
    forall i, e | 0 <= i < |sources| && e in sources[i].entries ensures e in files[i] {
      NarrowMember(files[i], range, e);
    }
  }

  /** A key of the range with the value that a lookup of the key finds. */
  ghost predicate Found(files: seq<seq<Entry>>, range: Range, e: Entry)
  {
    Within(range, e.key) && TableGet(Tables.Merge(TablesOf(files)), e.key) == TableValue(e.value)
  }

  /** A table decides a key among the sources if and only if it is the newest one with the key. */
  lemma {:induction false} SurvivesIsGet(sources: seq<Source>, files: seq<seq<Entry>>, range: Range, e: Entry)
    requires GoodFiles(files) && Numbered(sources, files, range) && |sources| == |files|
    ensures Survives(sources, e) <==> Found(files, range, e)
  {
    hide AsTable, KeysAscend, Within, Narrow, Tables.Merge;
    var ts, k := TablesOf(files), e.key;
    forall i | 0 <= i < |files|
      ensures k in AsTable(sources[i].entries) <==> k in ts[i] && Within(range, k)
      ensures k in AsTable(sources[i].entries) ==> AsTable(sources[i].entries)[k] == ts[i][k] {
      NarrowTable(files[i], range, k);
    }
    if exists j :: 0 <= j < |ts| && k in ts[j] {
      var i := NewestWith(ts, |ts|, k);
      MergeAt(ts, i, k);
      if Within(range, k) {
        assert Decides(sources, i, k);
        assert forall j: nat :: Decides(sources, j, k) ==> j == i;
      }
    } else {
      MergeNowhere(ts, k);
    }
  }

  /** Both ends of a range belong to it. */
  lemma {:induction false} WithinIff(range: Range, k: bytes)
    ensures Within(range, k)
        <==> && (range.StartingAt? || range.Between? ==> range.lower == k || Less(range.lower, k))
             && (range.Between? ==> k == range.higher || Less(k, range.higher))
  {
    hide Less;
    if !range.Everything? {
      LessTrichotomy(range.lower, k);
    }
    if range.Between? {
      LessTrichotomy(k, range.higher);
    }
  }

  lemma {:induction false} FoundIff(files: seq<seq<Entry>>, range: Range, e: Entry)
    ensures Found(files, range, e)
        <==> && e.key in Tables.Merge(TablesOf(files)) && Tables.Merge(TablesOf(files))[e.key] == e.value
             && (range.StartingAt? || range.Between? ==> range.lower == e.key || Less(range.lower, e.key))
             && (range.Between? ==> e.key == range.higher || Less(e.key, range.higher))
  {
    hide Within, Less, Tables.Merge;
    WithinIff(range, e.key);
  }

  /** What the scan of one table returns: its entries with both ends of the range included, in their order. */
  lemma {:induction false} NarrowIs(es: seq<Entry>, range: Range)
    requires KeysAscend(es)
    ensures KeysAscend(Narrow(es, range))
    ensures forall e :: e in Narrow(es, range) <==>
              && e in es
              && (range.StartingAt? || range.Between? ==> range.lower == e.key || Less(range.lower, e.key))
              && (range.Between? ==> e.key == range.higher || Less(e.key, range.higher))
  {
    hide Within, Less, Narrow, KeysAscend;
    NarrowAscends(es, range);
    forall e ensures e in Narrow(es, range) <==>
      && e in es
      && (range.StartingAt? || range.Between? ==> range.lower == e.key || Less(range.lower, e.key))
      && (range.Between? ==> e.key == range.higher || Less(e.key, range.higher)) {
      NarrowMember(es, range, e);
      WithinIff(range, e.key);
    }
  }

  /**
   The scans of the unified reader: what the merge makes of the sorted stream of all records in the range, in ascending
   order, and without empty keys in the tables exactly the pairs of a key in the range and the value that a lookup of
   the key finds, unless that value is nil.
   */
  method Scan(files: seq<seq<Entry>>, range: Range) returns (out: Option<seq<Entry>>, ghost stream: seq<Item>)
    requires GoodFiles(files)
    ensures out.None? <==> range.Between? && Less(range.higher, range.lower) && files != []
    ensures out.Some? ==> SortedItems(stream) && multiset(stream) == AllItems(SourcesOf(files, range))
    ensures out.Some? ==> out.value == Output(LatestWins, stream) && KeysAscend(out.value)
    ensures out.Some? && (forall i, e :: 0 <= i < |files| && e in files[i] ==> e.key != []) ==>
              forall e :: e in out.value <==>
                && e.value.Some?
                && e.key in Tables.Merge(TablesOf(files)) && Tables.Merge(TablesOf(files))[e.key] == e.value
                && (range.StartingAt? || range.Between? ==> range.lower == e.key || Less(range.lower, e.key))
                && (range.Between? ==> e.key == range.higher || Less(e.key, range.higher))
  {
    hide GoodFiles, KeysAscend, Survives, GoodSources, Within, Narrow, Less, Tables.Merge, TableGet, KeyedSources,
         SortedItems, AllItems, Output;
    var sources: seq<Source> := [];
    for i := 0 to |files|
      invariant |sources| == i && Numbered(sources, files, range)
      invariant i > 0 ==> !Inverted(range)
    {
      if Inverted(range) {
        return None, [];
      }
      sources := sources + [Source(i, Narrow(files[i], range))];
    }
    assert sources == SourcesOf(files, range);
    NumberedIsGood(sources, files, range);
    var entries;
    entries, stream := MergeCompact(sources, LatestWins);
    if KeyedFiles(files) {
      forall e
        ensures e in entries <==>
          && e.value.Some?
          && e.key in Tables.Merge(TablesOf(files)) && Tables.Merge(TablesOf(files))[e.key] == e.value
          && (range.StartingAt? || range.Between? ==> range.lower == e.key || Less(range.lower, e.key))
          && (range.Between? ==> e.key == range.higher || Less(e.key, range.higher)) {
        SurvivesIsGet(sources, files, range, e);
        FoundIff(files, range, e);
      }
    }
    out := Some(entries);
  }

  /** The sources of a compaction, as executeCompaction sets them up. */
  method CompactionSources(files: seq<seq<Entry>>) returns (sources: seq<Source>)
    requires GoodFiles(files)
    ensures sources == SourcesOf(files, Everything) && GoodSources(sources)
    ensures KeyedFiles(files) ==> KeyedSources(sources)
  {
    hide GoodFiles, KeysAscend, GoodSources, Narrow, Less, KeyedFiles, KeyedSources;
    sources := [];
    for i := 0 to |files|
      invariant |sources| == i && Numbered(sources, files, Everything)
    {
      EverythingIsAll(files[i]);
      sources := sources + [Source(i, files[i])];
    }
    assert sources == SourcesOf(files, Everything);
    NumberedIsGood(sources, files, Everything);
  }

  /**
   The merge step of executeCompaction: what the merge makes of the sorted stream of all records, in ascending order,
   and without empty keys exactly the compaction of the run.
   */
  method ExecuteCompaction(files: seq<seq<Entry>>) returns (out: seq<Entry>, ghost stream: seq<Item>)
    requires GoodFiles(files)
    ensures SortedItems(stream) && multiset(stream) == AllItems(SourcesOf(files, Everything))
    ensures out == Output(LatestWinsSkipTombstones, stream) && KeysAscend(out)
    ensures (forall i, e :: 0 <= i < |files| && e in files[i] ==> e.key != []) ==>
              AsTable(out) == Compacted(TablesOf(files))
  {
    hide GoodFiles, KeysAscend, GoodSources, Narrow, Less, AsTable, KeyedSources, SortedItems, AllItems,
         Output, Merged, SourcesOf, Compacted;
    var sources := CompactionSources(files);
    out, stream := MergeCompact(sources, LatestWinsSkipTombstones);
    if KeyedFiles(files) {
      MergedIsCompacted(files, out);
    }
  }

  lemma {:induction false} MergedIsCompacted(files: seq<seq<Entry>>, out: seq<Entry>)
    requires GoodFiles(files) && Merged(LatestWinsSkipTombstones, SourcesOf(files, Everything), out) && KeysAscend(out)
    ensures AsTable(out) == Compacted(TablesOf(files))
  {
    hide GoodFiles, KeysAscend, Survives, Narrow, Less, Tables.Merge, AsTable, SourcesOf;
    forall e
      ensures e in out <==> IsLive(e.value) && TableGet(Tables.Merge(TablesOf(files)), e.key) == TableValue(e.value) {
      SurvivesIsGet(SourcesOf(files, Everything), files, Everything, e);
    }
    EntriesOf(out, Compacted(TablesOf(files)));
  }

  lemma {:induction false} EverythingIsAll(es: seq<Entry>)
    ensures Narrow(es, Everything) == es
  {
    if es != [] {
      EverythingIsAll(es[..|es| - 1]);
    }
  }

  lemma {:induction false} EntriesOf(es: seq<Entry>, t: Table)
    requires KeysAscend(es) && forall e :: e in es <==> e.key in t && t[e.key] == e.value
    ensures AsTable(es) == t
  {
    hide KeysAscend, AsTable;
    forall k | k in t ensures exists i :: 0 <= i < |es| && es[i].key == k {
      assert Entry(k, t[k]) in es;
      var i :| 0 <= i < |es| && es[i] == Entry(k, t[k]);
      assert es[i].key == k;
    }
    AsTableIs(es, t);
  }
}
