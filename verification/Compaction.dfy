/** A compaction with the table writer it writes to, up to the closing of the writer that follows the success flag. */
module Compaction {
  import opened Bytes
  import opened Tables
  import RecordFormat
  import opened PriorityQueue
  import opened Merger
  import opened SuperReader
  import opened SSTable
  import opened CutTable
  import opened TableWriting

  /**
   Merges the tables of a run into an opened writer and closes it. The table holds the entries of the compaction of the
   run whose append succeeded. If a file failed, closing the writer is an error; if all failing appends left the writer
   usable it is not, and the success flag, saved when the merge returns, is all that is left of them.
   */
  method CompactTables(files: seq<seq<Entry>>, writer: StreamWriter, refuse: Entry -> Refusal)
    returns (flag: bool, err: bool, ghost results: seq<WriteResult>, ghost all: seq<Entry>)
    requires GoodFiles(files) && AllFit(writer, AllItems(SourcesOf(files, Everything)))
    requires writer.Valid() && writer.isOpen && writer.lastKey.None? && writer.written == []
    requires !writer.Broken() && writer.lostEntry == None
    modifies writer, writer.dataWriter.Parts(), writer.indexWriter.Parts()
    ensures KeysAscend(all) && (KeyedFiles(files) ==> AsTable(all) == Compacted(TablesOf(files)))
    ensures |results| == |all| && writer.written == Accepted(all, results) && OnlyWrites(results)
    ensures writer.written == all <==> Failed !in results
    ensures Explained(all, results, refuse, !writer.Reliable()) && (err ==> !writer.Reliable())
    ensures flag && writer.Leaves() && TakenFrom(writer, all)
    ensures !err ==> Complete(writer.indexWriter)
    ensures !err ==> ClosedTable(writer.index, writer.dataWriter.file.content, writer.dataWriter.compressionType,
                                 writer.dataWriter.codec, writer.checksum, writer.written, writer.at,
                                 writer.dataWriter.records)
  {
    hide GoodFiles, KeyedFiles, KeysAscend, AsTable, Compacted, SourcesOf, AllItems, AllFit, StreamWriter.Valid,
         StreamWriter.Leaves, StreamWriter.Broken, GoodSources, KeyedSources, SortedItems, Output, Merged, ClosedTable,
         Complete, Accepted, OnlyWrites;
    var sources := CompactionSources(files);
    ghost var stream;
    results, stream := MergeCompactInto(sources, LatestWinsSkipTombstones, writer, refuse);
    all := Output(LatestWinsSkipTombstones, stream);
    ReducedSources(LatestWinsSkipTombstones, sources, stream);
    if KeyedFiles(files) {
      MergedIsCompacted(files, all);
    }
    flag := true;
    BrokenWriter(writer);
    assert Explained(all, results, refuse, !writer.Reliable());
    AcceptedAre(all, results);
    err := writer.Close();
  }

  /** The entries of the table, the lost one included, are entries of the list. */
  ghost predicate TakenFrom(w: StreamWriter, all: seq<Entry>)
    reads w
  {
    forall e :: e in AllEntries(w) ==> e in all
  }

  /** What a lookup finds in the folder that a compaction left, once it is opened. */
  ghost function Shown(w: StreamWriter, f: Format): seq<Entry>
    reads w, w.dataWriter, w.dataWriter.file, w.indexWriter, w.indexWriter.file
    requires |AllIndex(w)| == |AllAt(w)| && forall i :: 0 <= i < |AllAt(w)| ==> AllAt(w)[i] <= |AllRecords(w)|
  {
    var k := LoadedCount(f, AllIndex(w), |w.indexWriter.file.content|);
    Seen(AllIndex(w)[..k], AllAt(w)[..k], w.dataWriter.codec, AllRecords(w), |w.dataWriter.file.content|)
  }

  /**
   What a restart makes of the folder that such a writer left, if its data file is a front part of what it should be, as
   it is unless it was rewound and then failed. The table opens if and only if its index file ends at an end point and
   the last entry in it passes. Then it answers every lookup as `Shown` says, and committing it keeps every read if and
   only if for each entry of the compaction a newer table decides the key, or the older ones with this table on top of
   them hold its value.
   */
  lemma {:induction false} RestartCommits(w: StreamWriter, f: Format, all: seq<Entry>, older: seq<Table>,
                                          run: seq<Table>, newer: seq<Table>, skipHashCheck: bool, key: bytes)
    requires w.Leaves() && Left(w.dataWriter) && Writes(w, f)
    requires TakenFrom(w, all) && KeysAscend(all) && AsTable(all) == Compacted(run)
    requires TombstoneGuard(Tables.Merge(older), Tables.Merge(run), Tables.Merge(newer))
    ensures |AllIndex(w)| == |AllAt(w)| && forall i :: 0 <= i < |AllAt(w)| ==> AllAt(w)[i] <= |AllRecords(w)|
    ensures var k := LoadedCount(f, AllIndex(w), |w.indexWriter.file.content|);
            var found := OpenTable(f.codecs, f.unmarshal, f.checksum, w.indexWriter.file.content,
                                     w.dataWriter.file.content);
            && found == (if && EndsWell(w.indexWriter.codec, Marshalled(w.marshal, AllIndex(w)),
                                          |w.indexWriter.file.content|)
                              && LastPasses(AllIndex(w)[..k], AllAt(w)[..k], w.dataWriter.codec, AllRecords(w),
                                            w.checksum, |w.dataWriter.file.content|)
                           then Some(AllIndex(w)[..k]) else None)
            && (found.Some? ==>
                  SSTable.Get(found.value, w.dataWriter.codec, w.checksum, skipHashCheck, w.dataWriter.file.content,
                              key)
                  == (var t := AsTable(Shown(w, f)); if key in t then Value(t[key]) else KeyMissing))
    ensures Live(Tables.Merge(older + [AsTable(Shown(w, f))] + newer)) == Live(Tables.Merge(older + run + newer))
        <==> forall i :: 0 <= i < |all| ==>
               StillRead(Tables.Merge(older), AsTable(Shown(w, f)), Tables.Merge(newer), all[i].key, all[i].value)
  {
    hide StreamWriter.Leaves, KeysAscend, AsTable, Compacted, TombstoneGuard, Tables.Merge, Live, EndsWell, LastPasses,
         OpenTable, LeftBehind, Decodes, StillRead, Marshalled, SSTable.Get, Left;
    var index, data := w.indexWriter.file.content, w.dataWriter.file.content;
    WriterLeaves(w, f);
    LeavesHeader(w);
    LeftTableOpensIff(f, index, data, AllIndex(w), AllEntries(w), AllAt(w), AllRecords(w));
    if OpenTable(f.codecs, f.unmarshal, f.checksum, index, data).Some? {
      LeftTableReads(f, index, data, AllIndex(w), AllEntries(w), AllAt(w), AllRecords(w), skipHashCheck, key);
    }
    ShownWithin(w, f, index, data, all);
    PartOfCompactionIff(older, run, newer, all, Shown(w, f));
  }

  lemma {:induction false} LeavesHeader(w: StreamWriter)
    requires w.Leaves()
    ensures |w.indexWriter.file.content| >= RecordFormat.FILE_HEADER_SIZE
  {
  }

  lemma {:induction false} ShownWithin(w: StreamWriter, f: Format, index: bytes, data: bytes, all: seq<Entry>)
    requires LeftBehind(f, index, data, AllIndex(w), AllEntries(w), AllAt(w), AllRecords(w))
    requires |AllIndex(w)| == |AllAt(w)| && forall i :: 0 <= i < |AllAt(w)| ==> AllAt(w)[i] <= |AllRecords(w)|
    requires TakenFrom(w, all) && KeysAscend(all)
    ensures forall i :: 0 <= i < |Shown(w, f)| ==> Shown(w, f)[i].key in AsTable(all)
  {
    hide KeysAscend, AsTable, Sound, Decodes, FrontOf, PlacedAt, HeldAt;
    PlacesWithin(AllIndex(w), AllEntries(w), AllAt(w), f.codecs(f.dataType), AllRecords(w), f.checksum);
    forall i | 0 <= i < |Shown(w, f)| ensures Shown(w, f)[i].key in AsTable(all) {
      var e := AllEntries(w)[i];
      assert e in AllEntries(w) && Shown(w, f)[i].key == e.key;
      var j :| 0 <= j < |all| && all[j] == e;
      AsTableAt(all, j);
    }
  }
}
