/** Writing whole tables: any sequence of calls, the flush of a memstore, and the merge that does not reduce. */
module TableWriting {
  import opened Bytes
  import opened Tables
  import opened PriorityQueue
  import opened Merger
  import opened RecordFormat
  import opened SSTable

  /** A writer that was opened and has not been written to. */
  ghost predicate JustOpened(writer: StreamWriter)
    reads writer, writer.dataWriter.Parts(), writer.indexWriter.Parts()
  {
    && writer.Valid() && writer.isOpen && writer.lastKey.None? && writer.written == [] && !writer.Broken()
    && writer.dataWriter.records == [] && !writer.rewindFailed
  }

  ghost predicate EntriesFit(writer: StreamWriter, entries: seq<Entry>)
  {
    forall i :: 0 <= i < |entries| ==> writer.Fits(entries[i].key, entries[i].value)
  }

  /** A table that was closed without an error. */
  ghost predicate ClosedBy(writer: StreamWriter, written: seq<Entry>)
    reads writer, writer.dataWriter.Parts(), writer.indexWriter.Parts()
  {
    && Complete(writer.indexWriter)
    && ClosedTable(writer.index, writer.dataWriter.file.content, writer.dataWriter.compressionType,
                   writer.dataWriter.codec, writer.checksum, written, writer.at, writer.dataWriter.records)
  }

  // ---------- any sequence of calls ----------

  /** The key of the last call that was not rejected. */
  function LastOffered(calls: seq<Entry>, results: seq<WriteResult>): Option<bytes>
    requires |calls| == |results|
  {
    if calls == [] then None else
      var n := |calls| - 1;
      if results[n].Written? || results[n].Failed? then Some(calls[n].key) else LastOffered(calls[..n], results[..n])
  }

  /** One call is rejected for its key, and only for that. */
  ghost predicate Decided(last: Option<bytes>, key: bytes, r: WriteResult)
  {
    && (r.SameKey? <==> last == Some(key)) && (r.NotAscending? <==> last.Some? && Less(key, last.value))
    && !r.NotOpened?
  }

  ghost predicate OrderDecides(calls: seq<Entry>, results: seq<WriteResult>)
    requires |calls| == |results|
  {
    forall i :: 0 <= i < |calls| ==> Decided(LastOffered(calls[..i], results[..i]), calls[i].key, results[i])
  }

  lemma {:induction false} DecidesMore(calls: seq<Entry>, results: seq<WriteResult>, e: Entry, r: WriteResult)
    requires |calls| == |results| && OrderDecides(calls, results)
    requires Decided(LastOffered(calls, results), e.key, r)
    ensures OrderDecides(calls + [e], results + [r])
    ensures LastOffered(calls + [e], results + [r])
         == if r.Written? || r.Failed? then Some(e.key) else LastOffered(calls, results)
  {
    hide Decided;
    var more, rs := calls + [e], results + [r];
    assert more[..|calls|] == calls && rs[..|calls|] == results;
    forall i | 0 <= i < |more| ensures Decided(LastOffered(more[..i], rs[..i]), more[i].key, rs[i]) {
      if i < |calls| {
        assert more[..i] == calls[..i] && rs[..i] == results[..i];
      }
    }
  }

  /**
   Any sequence of calls, in any order of keys and with any appends failing, those that break a file and those that fail
   without a trace, and then Close. Exactly the keys that do not ascend are rejected. If closing succeeds the table
   holds exactly the accepted entries, and unless a rewind failed the i-th entry points at the i-th record and the scan
   returns them too.
   */
  method WriteCalls(calls: seq<Entry>, writer: StreamWriter, refuse: Entry -> Refusal)
    returns (results: seq<WriteResult>, err: bool)
    requires JustOpened(writer) && EntriesFit(writer, calls)
    modifies writer, writer.dataWriter.Parts(), writer.indexWriter.Parts()
    ensures |results| == |calls| && OrderDecides(calls, results)
    ensures writer.Reliable() ==> !err && !writer.rewindFailed
    ensures Explained(calls, results, refuse, !writer.Reliable())
    ensures writer.written == Accepted(calls, results) && KeysAscend(writer.written)
    ensures writer.Leaves() && (!err ==> ClosedBy(writer, writer.written))
    ensures !err && !writer.rewindFailed ==> InStep(writer.at, writer.dataWriter.records)
    ensures !err && !writer.rewindFailed && Lossless(writer.dataWriter.codec) ==>
              forall skipHashCheck :: ScansAs(writer, skipHashCheck, writer.written)
  {
    hide KeysAscend, StreamWriter.Valid, StreamWriter.Broken, StreamWriter.Fits, StreamWriter.Leaves, ClosedBy, Less,
         Accepted, StreamWriter.Recorded, Lossless, InStep, ScansAs, OrderDecides, LastOffered, Explained;
    results := [];
    NothingAccepted(refuse, !writer.Reliable());
    for i := 0 to |calls|
      invariant writer.Valid() && writer.isOpen && |results| == i && writer.written == Accepted(calls[..i], results)
      invariant OrderDecides(calls[..i], results) && writer.lastKey == LastOffered(calls[..i], results)
      invariant Explained(calls[..i], results, refuse, !writer.Reliable())
      invariant writer.Reliable() ==> !writer.rewindFailed
    {
      assert calls[..i + 1] == calls[..i] + [calls[i]];
      var r := writer.WriteNext(calls[i].key, calls[i].value, refuse(calls[i]));
      BrokenWriter(writer);
      ExplainedGrows(calls[..i], results, refuse, !writer.Reliable(), calls[i], r, !writer.Reliable());
      AcceptedGrows(calls[..i], results, calls[i], r);
      DecidesMore(calls[..i], results, calls[i], r);
      results := results + [r];
    }
    assert calls[..|calls|] == calls;
    err := writer.Close();
    LeavesInOrder(writer);
    if !err {
      ClosedTables(writer);
      if !writer.rewindFailed && Lossless(writer.dataWriter.codec) {
        forall skipHashCheck ensures ScansAs(writer, skipHashCheck, writer.written) {
          ClosedScans(writer, skipHashCheck);
        }
      }
    }
  }

  /** The scan of the closed table returns exactly the given entries. */
  ghost predicate ScansAs(writer: StreamWriter, skipHashCheck: bool, es: seq<Entry>)
    reads writer, writer.dataWriter.Parts()
  {
    ScanFrom(writer.index, writer.dataWriter.codec, writer.checksum, skipHashCheck, writer.dataWriter.file.content,
             FILE_HEADER_SIZE) == (es, false)
  }

  lemma {:induction false} BrokenWriter(writer: StreamWriter)
    requires writer.Valid()
    ensures writer.Broken() ==> !writer.Reliable()
  {
    hide StreamWriter.Files, StreamWriter.Broken;
    writer.BrokenFiles();
  }

  lemma {:induction false} NothingAccepted(refuse: Entry -> Refusal, broken: bool)
    ensures Explained([], [], refuse, broken)
    ensures Accepted([], []) == [] && OrderDecides([], []) && LastOffered([], []) == None
  {
  }

  lemma {:induction false} LeavesInOrder(writer: StreamWriter)
    requires writer.Leaves()
    ensures KeysAscend(writer.written)
    ensures !writer.rewindFailed ==> InStep(writer.at, writer.dataWriter.records)
  {
    hide KeysAscend, InStep, Points, AllSized, Left, Kept, LostBehind, LostRecord, Indexed;
  }

  lemma {:induction false} ClosedTables(writer: StreamWriter)
    requires Complete(writer.indexWriter)
    requires ClosedTable(writer.index, writer.dataWriter.file.content, writer.dataWriter.compressionType,
                         writer.dataWriter.codec, writer.checksum, writer.written, writer.at, writer.dataWriter.records)
    ensures ClosedBy(writer, writer.written)
  {
    hide ClosedTable, Complete;
  }

  lemma {:induction false} ClosedScans(writer: StreamWriter, skipHashCheck: bool)
    requires ClosedBy(writer, writer.written) && InStep(writer.at, writer.dataWriter.records)
    requires Lossless(writer.dataWriter.codec)
    ensures ScansAs(writer, skipHashCheck, writer.written)
  {
    hide ClosedTable, Complete, InStep, Lossless, ScanFrom;
    InStepScans(writer.index, writer.dataWriter.file.content, writer.dataWriter.compressionType,
                writer.dataWriter.codec, writer.checksum, skipHashCheck, writer.written, writer.at,
                writer.dataWriter.records);
  }

  /**
   How the table comes about that misleads the scan: the index append of the first entry is refused, the rewind fails,
   and the second entry is accepted. Closing that table is no error.
   */
  method WriteOrphan(first: Entry, second: Entry, writer: StreamWriter)
    returns (r1: WriteResult, r2: WriteResult, err: bool)
    requires JustOpened(writer) && Less(first.key, second.key) && EntriesFit(writer, [first, second])
    requires writer.dataWriter.codec == Raw && writer.dataWriter.compressionType == 0
    modifies writer, writer.dataWriter.Parts(), writer.indexWriter.Parts()
    ensures r1.Failed? && (r2.Written? || r2.Failed?)
    ensures writer.rewindFailed && r2.Written? && !err ==>
              && writer.written == [second]
              && writer.index == OrphanIndex(writer.checksum, first.value, second)
              && writer.dataWriter.file.content == FileHeader(0) + EncodeAll(Raw, [first.value, second.value])
  {
    hide KeysAscend, StreamWriter.Valid, StreamWriter.Broken, StreamWriter.Fits, StreamWriter.Leaves, ClosedTable, Less,
         FileHeader, EncodeAll;
    assert [first, second][0] == first && [first, second][1] == second;
    NothingPlaced(writer);
    LessTrichotomy(first.key, second.key);
    r1 := writer.WriteNext(first.key, first.value, RefusesIndex);
    r2 := writer.WriteNext(second.key, second.value, Accepts);
    err := writer.Close();
    if writer.rewindFailed && r2.Written? && !err {
      assert writer.written == [second] && writer.at == [1];
      assert writer.dataWriter.records == [first.value, second.value];
      OrphanClosed(writer, first.value, second);
    }
  }

  lemma {:induction false} NothingPlaced(writer: StreamWriter)
    requires writer.Valid() && writer.written == []
    ensures writer.at == []
  {
    hide StreamWriter.Files, KeysUpTo, Indexed, LostBehind, LostRecord, PointsAt, AllSized, InStep;
  }

  lemma {:induction false} OrphanClosed(writer: StreamWriter, orphan: Value, e: Entry)
    requires writer.dataWriter.codec == Raw && writer.dataWriter.compressionType == 0
    requires ClosedTable(writer.index, writer.dataWriter.file.content, 0, Raw, writer.checksum, [e], [1],
                         [orphan, e.value])
    ensures writer.index == OrphanIndex(writer.checksum, orphan, e)
    ensures writer.dataWriter.file.content == FileHeader(0) + EncodeAll(Raw, [orphan, e.value])
  {
    hide FileHeader, EncodeAll, Boundary, KeysAscend, AllSized;
    assert PointsAt(writer.index[0], e, Raw, [orphan, e.value], 1, writer.checksum);
  }

  // ---------- flushing a memstore ----------

  /** Writes the entries up to the first error; over ascending keys that is a failed append. */
  method WriteEntries(entries: seq<Entry>, writer: StreamWriter, refuse: Entry -> Refusal) returns (err: bool)
    requires KeysAscend(entries) && EntriesFit(writer, entries) && JustOpened(writer)
    modifies writer, writer.dataWriter.Parts(), writer.indexWriter.Parts()
    ensures writer.Valid() && writer.isOpen && writer.written <= entries
    ensures (err <==> writer.written != entries) && (writer.Broken() ==> err)
    ensures err ==> !writer.Reliable() || exists e :: e in entries && !refuse(e).Accepts?
    ensures (exists e :: e in entries && !refuse(e).Accepts?) ==> err
  {
    hide KeysAscend, StreamWriter.Valid, StreamWriter.Broken, StreamWriter.Fits, Less, StreamWriter.Reliable;
    for i := 0 to |entries|
      invariant writer.Valid() && writer.isOpen && !writer.Broken() && writer.written == entries[..i]
      invariant writer.lastKey == LastKey(entries[..i]) && forall j :: 0 <= j < i ==> refuse(entries[j]).Accepts?
    {
      assert entries[..i + 1] == entries[..i] + [entries[i]];
      FrontAscends(entries, i + 1);
      LastAscends(entries[..i], entries[i]);
      var r := writer.WriteNext(entries[i].key, entries[i].value, refuse(entries[i]));
      BrokenWriter(writer);
      if !r.Written? {
        assert |entries[..i]| < |entries|;
        return true;
      }
    }
    assert entries[..|entries|] == entries;
    return false;
  }

  lemma {:induction false} FrontAscends(es: seq<Entry>, n: nat)
    requires KeysAscend(es) && n <= |es|
    ensures KeysAscend(es[..n])
  {
    hide Less;
  }

  /** The flush of a memstore: without an error the closed table holds exactly the entries. */
  method FlushEntries(entries: seq<Entry>, writer: StreamWriter, refuse: Entry -> Refusal) returns (err: bool)
    requires KeysAscend(entries) && EntriesFit(writer, entries) && JustOpened(writer)
    modifies writer, writer.dataWriter.Parts(), writer.indexWriter.Parts()
    ensures writer.Leaves() && writer.written <= entries && (writer.written != entries ==> err)
    ensures !err ==> ClosedBy(writer, entries)
    ensures err ==> !writer.Reliable() || exists e :: e in entries && !refuse(e).Accepts?
  {
    hide KeysAscend, StreamWriter.Valid, StreamWriter.Broken, StreamWriter.Leaves, ClosedTable, Complete, EntriesFit;
    err := WriteEntries(entries, writer, refuse);
    var closeErr := writer.Close();
    err := err || closeErr;
  }

  // ---------- the merge without reduction ----------

  function EntryOf(x: Item): Entry
  {
    Entry(x.key, x.value)
  }

  function Entries(items: seq<Item>): (es: seq<Entry>)
    ensures |es| == |items|
  {
    seq(|items|, i requires 0 <= i < |items| => EntryOf(items[i]))
  }

  /** Two records have the same key. */
  ghost predicate Repeats(records: multiset<Item>)
  {
    exists x, y :: x in records && y in records && x.key == y.key && (x != y || records[x] > 1)
  }

  ghost predicate Strict(items: seq<Item>)
  {
    forall i, j :: 0 <= i < j < |items| ==> Less(items[i].key, items[j].key)
  }

  lemma {:induction false} StrictGrows(items: seq<Item>, x: Item)
    requires Strict(items) && (items != [] ==> Less(items[|items| - 1].key, x.key))
    ensures Strict(items + [x]) && Entries(items + [x]) == Entries(items) + [EntryOf(x)]
  {
    hide Less;
    forall i | 0 <= i < |items| ensures Less(items[i].key, x.key) {
      if i < |items| - 1 {
        LessTransitive(items[i].key, items[|items| - 1].key, x.key);
      }
    }
  }

  lemma {:induction false} StrictOnce(items: seq<Item>)
    requires Strict(items)
    ensures forall x :: x in multiset(items) ==> multiset(items)[x] == 1
  {
    hide Less;
    if items != [] {
      var n := |items| - 1;
      StrictOnce(items[..n]);
      assert items == items[..n] + [items[n]];
      forall i | 0 <= i < n ensures items[i] != items[n] {
        LessTrichotomy(items[i].key, items[n].key);
      }
      assert items[n] !in multiset(items[..n]);
    }
  }

  lemma {:induction false} StrictNeverRepeats(items: seq<Item>)
    requires Strict(items)
    ensures !Repeats(multiset(items))
  {
    hide Less;
    StrictOnce(items);
    forall x, y | x in multiset(items) && y in multiset(items) && x.key == y.key ensures x == y {
      var i :| 0 <= i < |items| && items[i] == x;
      var j :| 0 <= j < |items| && items[j] == y;
      LessTrichotomy(items[i].key, items[j].key);
    }
  }

  lemma {:induction false} PairRepeats(items: seq<Item>, rest: multiset<Item>, total: multiset<Item>, x: Item)
    requires items != [] && items[|items| - 1].key == x.key && x in rest && multiset(items) + rest == total
    ensures Repeats(total)
  {
    var y := items[|items| - 1];
    assert y in multiset(items);
    assert total[y] == multiset(items)[y] + rest[y];
  }

  /** The writer has taken exactly the given records. */
  ghost predicate Took(writer: StreamWriter, stream: seq<Item>)
    reads writer, writer.dataWriter.Parts(), writer.indexWriter.Parts()
  {
    && writer.Valid() && writer.isOpen && !writer.Broken() && writer.written == Entries(stream) && Strict(stream)
    && writer.lastKey == if stream == [] then None else Some(stream[|stream| - 1].key)
  }

  /** Writes the next record of the merge, a least one of those that are left. */
  method Offer(x: Item, writer: StreamWriter, refusal: Refusal, ghost stream: seq<Item>, ghost rest: multiset<Item>,
               ghost total: multiset<Item>)
    returns (r: WriteResult)
    requires Took(writer, stream) && AllFit(writer, total) && Sorting(stream, rest, total) && x in rest
    modifies writer, writer.dataWriter.Parts(), writer.indexWriter.Parts()
    ensures r.Written? || r.Failed? || r.SameKey?
    ensures (r.Failed? ==> !writer.Reliable() || !refusal.Accepts?) && (r.Written? ==> refusal.Accepts?)
    ensures r.Written? ==> Took(writer, stream + [x])
    ensures !r.Written? ==> writer.Valid() && writer.isOpen && writer.written == Entries(stream) && Strict(stream)
    ensures !r.Written? ==> multiset(stream) <= total && (r.SameKey? ==> Repeats(total) && !writer.Broken())
  {
    hide Sorting, Less, AllFit, StreamWriter.Valid, StreamWriter.Broken, StreamWriter.Fits, Repeats, Strict, Entries;
    RecordFits(writer, total, stream, rest, x);
    r := writer.WriteNext(x.key, x.value, refusal);
    BrokenWriter(writer);
    if !r.Written? {
      Rejected(stream, rest, total, x);
      return;
    }
    NotBefore(stream, x);
    StrictGrows(stream, x);
  }

  /**
   The merge into a table writer. What was written is the records in key order up to the first error; and unless an
   append fails, the merge fails if and only if two records have the same key.
   */
  method MergeInto(sources: seq<Source>, writer: StreamWriter, refuse: Item -> Refusal)
    returns (failure: Option<WriteResult>, ghost stream: seq<Item>)
    requires SortedSources(sources) && AllFit(writer, AllItems(sources)) && JustOpened(writer)
    modifies writer, writer.dataWriter.Parts(), writer.indexWriter.Parts()
    ensures writer.Valid() && writer.isOpen && writer.written == Entries(stream) && Strict(stream)
    ensures multiset(stream) <= AllItems(sources) && (failure.None? ==> multiset(stream) == AllItems(sources))
    ensures failure.Some? ==> failure.value.Failed? || failure.value.SameKey?
    ensures failure == Some(Failed) ==>
              !writer.Reliable() || exists x :: x in AllItems(sources) && !refuse(x).Accepts?
    ensures failure != Some(Failed) ==> !writer.Broken() && (failure.Some? <==> Repeats(AllItems(sources)))
  {
    hide SortedItems, AllItems, Remaining, SortedSources, HeapOrder, AllSorted, Less, Sorting, AllFit,
         StreamWriter.Valid, StreamWriter.Broken, StreamWriter.Fits, Repeats, Strict, Entries, Leq, Filled, Took;
    var queue := new PriorityQueue(sources);
    stream := [];
    NothingTaken(writer);
    SortingStarts(AllItems(sources));
    while true
      invariant queue.Valid() && fresh(queue) && Sorting(stream, Remaining(queue.heap), AllItems(sources))
      invariant Took(writer, stream)
      decreases |Remaining(queue.heap)|
    {
      ghost var rest := Remaining(queue.heap);
      var next := queue.Next();
      if next.None? {
        SortingEnds(stream, AllItems(sources));
        TookAll(writer, stream);
        StrictNeverRepeats(stream);
        return None, stream;
      }
      FromTotal(stream, rest, AllItems(sources), next.value);
      var r := Offer(next.value, writer, refuse(next.value), stream, rest, AllItems(sources));
      if !r.Written? {
        return Some(r), stream;
      }
      SortingGrows(stream, rest, next.value, AllItems(sources));
      stream := stream + [next.value];
    }
  }

  lemma {:induction false} FromTotal(stream: seq<Item>, rest: multiset<Item>, total: multiset<Item>, x: Item)
    requires Sorting(stream, rest, total) && x in rest
    ensures x in total
  {
    hide SortedItems, AllAbove;
  }

  lemma {:induction false} NothingTaken(writer: StreamWriter)
    requires JustOpened(writer)
    ensures Took(writer, [])
  {
    hide StreamWriter.Valid, StreamWriter.Broken;
    assert Entries([]) == [];
  }

  lemma {:induction false} TookAll(writer: StreamWriter, stream: seq<Item>)
    requires Took(writer, stream)
    ensures writer.Valid() && writer.isOpen && !writer.Broken() && writer.written == Entries(stream) && Strict(stream)
  {
    hide StreamWriter.Valid, StreamWriter.Broken, Strict, Entries;
  }

  lemma {:induction false} RecordFits(writer: StreamWriter, total: multiset<Item>, stream: seq<Item>,
                                      rest: multiset<Item>, x: Item)
    requires AllFit(writer, total) && Sorting(stream, rest, total) && x in rest
    ensures writer.Fits(x.key, x.value)
    ensures stream != [] ==> !Less(x.key, stream[|stream| - 1].key)
  {
    hide StreamWriter.Fits, Less;
    assert x in total;
    if stream != [] {
      LessTrichotomy(x.key, stream[|stream| - 1].key);
    }
  }

  lemma {:induction false} Rejected(stream: seq<Item>, rest: multiset<Item>, total: multiset<Item>, x: Item)
    requires Sorting(stream, rest, total) && x in rest
    ensures multiset(stream) <= total
    ensures stream != [] && stream[|stream| - 1].key == x.key ==> Repeats(total)
  {
    hide Leq, Repeats, SortedItems, AllAbove;
    if stream != [] && stream[|stream| - 1].key == x.key {
      PairRepeats(stream, rest, total, x);
    }
  }

  lemma {:induction false} NotBefore(stream: seq<Item>, x: Item)
    requires stream != [] ==> stream[|stream| - 1].key != x.key && !Less(x.key, stream[|stream| - 1].key)
    ensures stream != [] ==> Less(stream[|stream| - 1].key, x.key)
  {
    hide Less;
    if stream != [] {
      LessTrichotomy(x.key, stream[|stream| - 1].key);
    }
  }
}
