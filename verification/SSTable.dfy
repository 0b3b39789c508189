/** Table files: the stream writer with its index and data files, and reading a closed table by scan and by lookup. */
module SSTable {
  import opened Bytes
  import opened Tables
  import opened Varint
  import opened RecordFormat
  import opened BufferedWriter
  import opened FileWriter
  import opened MmapReader
  import opened PriorityQueue
  import opened Merger
  import BufferedReader
  import FileReader

  datatype IndexEntry = IndexEntry(key: bytes, offset: nat, checksum: nat)

  /** The records of an index file, for any encoding of its entries. */
  function Marshalled(marshal: IndexEntry -> bytes, index: seq<IndexEntry>): (r: seq<Value>)
    ensures |r| == |index|
  {
    seq(|index|, i requires 0 <= i < |index| => Some(marshal(index[i])))
  }

  /** The records of the index file are the entries. */
  ghost predicate Indexed(marshal: IndexEntry -> bytes, index: seq<IndexEntry>, codec: Codec, records: seq<Value>)
  {
    records == Marshalled(marshal, index) && AllSized(codec, records)
  }

  lemma {:induction false} IndexedGrows(marshal: IndexEntry -> bytes, index: seq<IndexEntry>, codec: Codec,
                                        records: seq<Value>, x: IndexEntry)
    requires Indexed(marshal, index, codec, records) && Sized(codec, Some(marshal(x)))
    ensures Indexed(marshal, index + [x], codec, records + [Some(marshal(x))])
  {
    hide Sized;
  }

  /** What the encoder of the index or the compressors make of a call: they accept it, or refuse it without a trace. */
  datatype Refusal = Accepts | RefusesData | RefusesIndex

  datatype WriteResult = Written | SameKey | NotAscending | NotOpened | Failed

  /** Each index entry points at the data record with its value; `at` numbers these records. */
  ghost predicate Points(index: seq<IndexEntry>, written: seq<Entry>, at: seq<nat>, codec: Codec, records: seq<Value>,
                         checksum: Value -> nat)
  {
    && |index| == |written| == |at|
    && (forall i, j :: 0 <= i < j < |at| ==> at[i] < at[j])
    && (forall i :: 0 <= i < |at| ==>
          at[i] < |records| && PointsAt(index[i], written[i], codec, records, at[i], checksum))
  }

  ghost predicate PointsAt(x: IndexEntry, e: Entry, codec: Codec, records: seq<Value>, k: nat, checksum: Value -> nat)
    requires k < |records|
  {
    x == IndexEntry(e.key, Boundary(codec, records, k), checksum(e.value)) && records[k] == e.value
  }

  /** The i-th entry points at the i-th record, and there is no other record. */
  ghost predicate InStep(at: seq<nat>, records: seq<Value>)
  {
    |at| == |records| && forall i :: 0 <= i < |at| ==> at[i] == i
  }

  /** The entries of the index point into the records of the data file, one by one if no rewind failed. */
  ghost predicate Tabled(index: seq<IndexEntry>, written: seq<Entry>, at: seq<nat>, codec: Codec, records: seq<Value>,
                         checksum: Value -> nat, inStep: bool)
  {
    Points(index, written, at, codec, records, checksum) && AllSized(codec, records) && (inStep ==> InStep(at, records))
  }

  lemma {:induction false} TabledGrows(index: seq<IndexEntry>, written: seq<Entry>, at: seq<nat>, codec: Codec,
                                       records: seq<Value>, checksum: Value -> nat, inStep: bool, e: Entry)
    requires Tabled(index, written, at, codec, records, checksum, inStep) && Sized(codec, e.value)
    ensures var x := IndexEntry(e.key, Boundary(codec, records, |records|), checksum(e.value));
            Tabled(index + [x], written + [e], at + [|records|], codec, records + [e.value], checksum, inStep)
    ensures Tabled(index, written, at, codec, records + [e.value], checksum, false)
  {
    hide Points, InStep, Sized, Boundary;
    PointsGrows(index, written, at, codec, records, e, checksum);
    PointsPrefix(index, written, at, codec, records, records + [e.value], checksum);
  }

  /** Strictly ascending keys, none above the last key seen. */
  ghost predicate KeysUpTo(written: seq<Entry>, lastKey: Option<bytes>)
  {
    && KeysAscend(written)
    && (written != [] ==> lastKey.Some? && Leq(written[|written| - 1].key, lastKey.value))
  }

  lemma {:induction false} PointsPrefix(index: seq<IndexEntry>, written: seq<Entry>, at: seq<nat>, codec: Codec,
                                        records: seq<Value>, more: seq<Value>, checksum: Value -> nat)
    requires Points(index, written, at, codec, records, checksum) && records <= more
    ensures Points(index, written, at, codec, more, checksum)
  {
    forall i | 0 <= i < |at| ensures PointsAt(index[i], written[i], codec, more, at[i], checksum) {
      assert PointsAt(index[i], written[i], codec, records, at[i], checksum);
      assert more[..at[i]] == records[..at[i]];
    }
  }

  lemma {:induction false} PointsGrows(index: seq<IndexEntry>, written: seq<Entry>, at: seq<nat>, codec: Codec,
                                       records: seq<Value>, e: Entry, checksum: Value -> nat)
    requires Points(index, written, at, codec, records, checksum)
    ensures var x := IndexEntry(e.key, Boundary(codec, records, |records|), checksum(e.value));
            Points(index + [x], written + [e], at + [|records|], codec, records + [e.value], checksum)
    ensures InStep(at, records) ==> InStep(at + [|records|], records + [e.value])
  {
    hide PointsAt;
    var x := IndexEntry(e.key, Boundary(codec, records, |records|), checksum(e.value));
    PointsPrefix(index, written, at, codec, records, records + [e.value], checksum);
    assert PointsAt(x, e, codec, records + [e.value], |records|, checksum) by {
      NewestPoints(x, e, codec, records, checksum);
    }
  }

  lemma {:induction false} NewestPoints(x: IndexEntry, e: Entry, codec: Codec, records: seq<Value>,
                                        checksum: Value -> nat)
    requires x == IndexEntry(e.key, Boundary(codec, records, |records|), checksum(e.value))
    ensures PointsAt(x, e, codec, records + [e.value], |records|, checksum)
  {
    assert (records + [e.value])[..|records|] == records[..|records|];
  }

  lemma {:induction false} KeysGrow(written: seq<Entry>, lastKey: Option<bytes>, e: Entry)
    requires KeysUpTo(written, lastKey) && (lastKey.Some? ==> Less(lastKey.value, e.key))
    ensures KeysUpTo(written + [e], Some(e.key)) && KeysUpTo(written, Some(e.key))
  {
    hide Less;
    LessTrichotomy(e.key, e.key);
    if written != [] {
      var n := |written| - 1;
      LessTrichotomy(written[n].key, lastKey.value);
      if written[n].key != lastKey.value {
        LessTransitive(written[n].key, lastKey.value, e.key);
      }
      LessTrichotomy(written[n].key, e.key);
      forall i | 0 <= i <= n ensures Less(written[i].key, e.key) {
        if i < n {
          LessTransitive(written[i].key, written[n].key, e.key);
        }
      }
    }
  }

  /** The entry whose index record was written when the index file failed, and where its data record stands or stood. */
  datatype LostEntry = LostEntry(index: IndexEntry, entry: Entry, at: nat)

  ghost predicate LostBehind(lost: Option<LostEntry>, written: seq<Entry>, at: seq<nat>, codec: Codec,
                             records: seq<Value>, checksum: Value -> nat)
  {
    lost.Some? ==>
      var l := lost.value;
      && l.at <= |records|
      && l.index == IndexEntry(l.entry.key, Boundary(codec, records, l.at), checksum(l.entry.value))
      && (forall i :: 0 <= i < |at| ==> at[i] < l.at) && KeysAscend(written + [l.entry])
  }

  /** The record that a failing index file lost. */
  ghost predicate LostRecord(lost: Option<LostEntry>, marshal: IndexEntry -> bytes, records: seq<Value>)
  {
    records == if lost.None? then [] else [Some(marshal(lost.value.index))]
  }

  lemma {:induction false} LostGrows(lost: Option<LostEntry>, written: seq<Entry>, at: seq<nat>, codec: Codec,
                                     records: seq<Value>, v: Value, checksum: Value -> nat)
    requires LostBehind(lost, written, at, codec, records, checksum)
    ensures LostBehind(lost, written, at, codec, records + [v], checksum)
  {
    hide KeysAscend;
    if lost.Some? {
      assert (records + [v])[..lost.value.at] == records[..lost.value.at];
    }
  }

  lemma {:induction false} EntryLost(index: seq<IndexEntry>, written: seq<Entry>, at: seq<nat>, codec: Codec,
                                     records: seq<Value>, checksum: Value -> nat, inStep: bool, e: Entry,
                                     lastKey: Option<bytes>)
    requires Tabled(index, written, at, codec, records, checksum, inStep) && KeysUpTo(written + [e], lastKey)
    ensures var x := IndexEntry(e.key, Boundary(codec, records, |records|), checksum(e.value));
            LostBehind(Some(LostEntry(x, e, |records|)), written, at, codec, records, checksum)
  {
    hide KeysAscend, Boundary, PointsAt;
  }

  class StreamWriter {
    const dataWriter: FileWriter
    const indexWriter: FileWriter
    const marshal: IndexEntry -> bytes
    const checksum: Value -> nat
    var isOpen: bool
    var lastKey: Option<bytes>
    var minKey: Option<bytes>
    var numRecords: nat
    var nullValues: nat
    var rewindFailed: bool            // whether a rewind of the data file ever failed
    ghost var rewound: bool           // whether one ever succeeded
    ghost var index: seq<IndexEntry>  // the entries accepted by the index file
    ghost var written: seq<Entry>     // the keys and values they stand for
    ghost var at: seq<nat>            // the number of the data record of each
    ghost var lostEntry: Option<LostEntry>

    ghost predicate Apart()
    {
      dataWriter.Parts() !! indexWriter.Parts() && this !in dataWriter.Parts() + indexWriter.Parts()
    }

    /** Whether one of the files has failed. */
    ghost predicate Broken()
      reads dataWriter.bufWriter, indexWriter.bufWriter
    {
      dataWriter.bufWriter.failed || indexWriter.bufWriter.failed
    }

    /** The file system never fails on the two files. */
    predicate Reliable()
    {
      dataWriter.file.reliable && indexWriter.file.reliable
    }

    lemma {:induction false} BrokenFiles()
      requires Files()
      ensures Broken() ==> !Reliable()
    {
      hide Holds, FileWriter.Valid, FileWriter.Holding;
    }

    /** Both files, as far as they were written. */
    ghost predicate Files()
      reads this`isOpen, this`rewound, dataWriter.Parts(), indexWriter.Parts()
    {
      && Apart() && dataWriter.Steady() && indexWriter.Steady()
      && (isOpen ==> Ready(dataWriter) && Ready(indexWriter) && indexWriter.Straight())
      && (isOpen && !rewound ==> dataWriter.Straight())
    }

    lemma {:induction false} FilesApart()
      requires Files()
      ensures Apart()
    {
    }

    ghost predicate Valid()
      reads this, dataWriter.Parts(), indexWriter.Parts()
    {
      && Files()
      && KeysUpTo(written, lastKey) && (lastKey.Some? ==> isOpen)
      && Tabled(index, written, at, dataWriter.codec, dataWriter.records, checksum, !rewindFailed)
      && Indexed(marshal, index, indexWriter.codec, indexWriter.records)
      && LostBehind(lostEntry, written, at, dataWriter.codec, dataWriter.records, checksum)
      && LostRecord(lostEntry, marshal, indexWriter.lost) && (lostEntry.Some? ==> indexWriter.bufWriter.failed)
      && numRecords == |written| && nullValues == Nulls(written)
    }

    /** Sizes are 64-bit numbers, those of the index record included, wherever the data record will lie. */
    ghost predicate Fits(key: bytes, value: Value)
    {
      Sized(dataWriter.codec, value) && forall offset: nat :: FitsAt(key, offset, value)
    }

    ghost predicate FitsAt(key: bytes, offset: nat, value: Value)
    {
      Sized(indexWriter.codec, Some(marshal(IndexEntry(key, offset, checksum(value)))))
    }

    constructor (dataWriter: FileWriter, indexWriter: FileWriter, marshal: IndexEntry -> bytes, checksum: Value -> nat)
      requires dataWriter.Steady() && !dataWriter.open && !dataWriter.closed && dataWriter.records == []
      requires indexWriter.Steady() && !indexWriter.open && !indexWriter.closed && indexWriter.records == []
      requires indexWriter.lost == []
      requires dataWriter.Parts() !! indexWriter.Parts()
      ensures Valid() && !isOpen && written == [] && lastKey == None && !rewindFailed && !rewound && lostEntry == None
      ensures this.dataWriter == dataWriter && this.indexWriter == indexWriter
      ensures this.marshal == marshal && this.checksum == checksum
    {
      this.dataWriter, this.indexWriter, this.marshal, this.checksum := dataWriter, indexWriter, marshal, checksum;
      isOpen, lastKey, minKey, numRecords, nullValues := false, None, None, 0, 0;
      rewindFailed, rewound, index, written, at, lostEntry := false, false, [], [], [], None;
    }

    /** Opens both files. */
    method Open() returns (err: bool)
      requires Valid() && !isOpen && written == [] && lostEntry == None && Unopened(dataWriter) && Unopened(indexWriter)
      modifies this`isOpen, dataWriter.Parts(), indexWriter.Parts()
      ensures isOpen == !err && (!err ==> Valid() && dataWriter.records == [] && !Broken())
      ensures err ==> || !Reliable() || dataWriter.compressionType > COMPRESSION_TYPE_LZW
                      || indexWriter.compressionType > COMPRESSION_TYPE_LZW
    {
      hide KeysUpTo, FileWriter.Steady, FileWriter.Valid, AllSized;
      err := indexWriter.Open();
      FailedFile(indexWriter);
      if err {
        return;
      }
      err := dataWriter.Open();
      FailedFile(dataWriter);
      if !err {
        Working(dataWriter);
        Working(indexWriter);
        isOpen := true;
      }
    }

    /** The order check; nothing is returned for a key that may be written. */
    method CheckOrder(key: bytes) returns (rejection: Option<WriteResult>)
      ensures rejection == Some(SameKey) <==> lastKey == Some(key)
      ensures rejection == Some(NotAscending) <==> lastKey.Some? && Less(key, lastKey.value)
      ensures rejection == Some(NotOpened) <==> lastKey.None? && !isOpen
      ensures rejection.Some? ==>
                rejection.value.SameKey? || rejection.value.NotAscending? || rejection.value.NotOpened?
      ensures rejection.None? ==> (lastKey.Some? ==> Less(lastKey.value, key)) && (lastKey.None? ==> isOpen)
    {
      hide Less;
      if lastKey.Some? {
        var cmp := Compare(lastKey.value, key);
        if cmp == 0 {
          return Some(SameKey);
        } else if cmp > 0 {
          return Some(NotAscending);
        }
        LessTrichotomy(key, lastKey.value);
        return None;
      }
      return if isOpen then None else Some(NotOpened);
    }

    /** The data append. It may be refused without a trace. */
    method WriteData(value: Value, refused: bool) returns (offset: nat, failed: bool)
      requires Files() && isOpen && Sized(dataWriter.codec, value)
      modifies dataWriter.Parts()
      ensures Files() && (dataWriter.bufWriter.failed || refused ==> failed)
      ensures failed ==> dataWriter.bufWriter.failed || refused
      ensures old(dataWriter.bufWriter.failed) ==> dataWriter.bufWriter.failed
      ensures dataWriter.records == if failed then old(dataWriter.records) else old(dataWriter.records) + [value]
      ensures !failed ==> offset == Boundary(dataWriter.codec, old(dataWriter.records), |old(dataWriter.records)|)
    {
      hide Boundary, Sized, FileWriter.Steady, FileWriter.Valid, FileWriter.Straight, FileWriter.Headed;
      if refused {
        return 0, true;
      }
      StartOfNext(dataWriter);
      offset, failed := dataWriter.Write(value, false);
    }

    /** The index append. It may be refused without a trace, when the entry cannot be encoded. */
    method WriteIndex(entry: IndexEntry, refused: bool) returns (failed: bool)
      requires Files() && isOpen && Sized(indexWriter.codec, Some(marshal(entry)))
      modifies indexWriter.Parts()
      ensures Files() && (indexWriter.bufWriter.failed || refused ==> failed)
      ensures failed ==> indexWriter.bufWriter.failed || refused
      ensures old(indexWriter.bufWriter.failed) ==> indexWriter.bufWriter.failed
      ensures indexWriter.records
           == if failed then old(indexWriter.records) else old(indexWriter.records) + [Some(marshal(entry))]
      ensures indexWriter.lost
           == if indexWriter.bufWriter.failed && !old(indexWriter.bufWriter.failed) then [Some(marshal(entry))]
              else old(indexWriter.lost)
    {
      hide Sized, FileWriter.Steady, FileWriter.Valid, FileWriter.Straight, FileWriter.Headed;
      if refused {
        return true;
      }
      var offset;
      offset, failed := indexWriter.Write(Some(marshal(entry)), false);
    }

    /** Appends to the data file and then to the index; the data file is rewound when the index append fails. */
    method Store(key: bytes, value: Value, refusal: Refusal) returns (err: bool)
      requires Valid() && isOpen && lastKey == Some(key) && KeysUpTo(written + [Entry(key, value)], lastKey)
      requires Fits(key, value)
      modifies this`rewindFailed, this`rewound, this`index, this`written, this`at, this`numRecords, this`nullValues
      modifies this`lostEntry, dataWriter.Parts(), indexWriter.Parts()
      ensures Valid() && written == if err then old(written) else old(written) + [Entry(key, value)]
      ensures (Broken() ==> err) && (old(Broken()) ==> Broken())
      ensures (err ==> Broken() || !refusal.Accepts?) && (!refusal.Accepts? ==> err)
      ensures rewindFailed && !old(rewindFailed) ==> !dataWriter.file.reliable
      ensures Recorded(value, err, old(at), old(dataWriter.records), old(rewindFailed))
      ensures !err ==> rewound == old(rewound)
      ensures lostEntry.Some? ==> lostEntry == old(lostEntry) || lostEntry.value.entry == Entry(key, value)
    {
      hide KeysUpTo, Tabled, Indexed, Boundary, Sized, FileWriter.Steady, Nulls, Marshalled, Files, LostBehind;
      FilesApart();
      ghost var records := dataWriter.records;
      TabledGrows(index, written, at, dataWriter.codec, records, checksum, !rewindFailed, Entry(key, value));
      LostGrows(lostEntry, written, at, dataWriter.codec, records, value, checksum);
      var offset, failed := WriteData(value, refusal.RefusesData?);
      if failed {
        return true;
      }
      err := Enter(key, value, offset, refusal.RefusesIndex?, records);
    }

    /** Appends to the index, behind the data record; when that fails the data file is rewound. */
    method Enter(key: bytes, value: Value, offset: nat, refused: bool, ghost records: seq<Value>) returns (err: bool)
      requires Files() && isOpen && lastKey == Some(key) && KeysUpTo(written + [Entry(key, value)], lastKey)
      requires Fits(key, value) && KeysUpTo(written, lastKey) && dataWriter.records == records + [value]
      requires offset == Boundary(dataWriter.codec, records, |records|) && !dataWriter.bufWriter.failed
      requires Tabled(index, written, at, dataWriter.codec, records, checksum, !rewindFailed)
      requires Tabled(index, written, at, dataWriter.codec, records + [value], checksum, false)
      requires Tabled(index + [IndexEntry(key, offset, checksum(value))], written + [Entry(key, value)],
                      at + [|records|], dataWriter.codec, records + [value], checksum, !rewindFailed)
      requires LostBehind(lostEntry, written, at, dataWriter.codec, records, checksum)
      requires LostBehind(lostEntry, written, at, dataWriter.codec, records + [value], checksum)
      requires LostRecord(lostEntry, marshal, indexWriter.lost) && (lostEntry.Some? ==> indexWriter.bufWriter.failed)
      requires Indexed(marshal, index, indexWriter.codec, indexWriter.records)
      requires numRecords == |written| && nullValues == Nulls(written)
      modifies this`rewindFailed, this`rewound, this`index, this`written, this`at, this`numRecords, this`nullValues
      modifies this`lostEntry, dataWriter.Parts(), indexWriter.Parts()
      ensures Valid() && written == if err then old(written) else old(written) + [Entry(key, value)]
      ensures (Broken() ==> err) && (old(Broken()) ==> Broken())
      ensures (err ==> Broken() || refused) && (refused ==> err)
      ensures rewindFailed && !old(rewindFailed) ==> !dataWriter.file.reliable
      ensures Recorded(value, err, old(at), records, old(rewindFailed))
      ensures !err ==> rewound == old(rewound)
      ensures lostEntry.Some? ==> lostEntry == old(lostEntry) || lostEntry.value.entry == Entry(key, value)
    {
      hide KeysUpTo, Tabled, Indexed, Boundary, Sized, FileWriter.Steady, Nulls, Marshalled, Files, LostBehind;
      FilesApart();
      var entry := IndexEntry(key, offset, checksum(value));
      assert FitsAt(key, offset, value);
      IndexedGrows(marshal, index, indexWriter.codec, indexWriter.records, entry);
      EntryLost(index, written, at, dataWriter.codec, records, checksum, !rewindFailed, Entry(key, value), lastKey);
      var failed := WriteIndex(entry, refused);
      if failed {
        if indexWriter.bufWriter.failed && !old(indexWriter.bufWriter.failed) {
          lostEntry := Some(LostEntry(entry, Entry(key, value), |records|));
        }
        LostGrows(lostEntry, written, at, dataWriter.codec, records, value, checksum);
        Rewind(offset, records, value);
        return true;
      }
      NullsGrow(written, Entry(key, value));
      written, at, index := written + [Entry(key, value)], at + [|records|], index + [entry];
      numRecords := numRecords + 1;
      if value.None? {
        nullValues := nullValues + 1;
      }
      NothingLost(lostEntry, written, at, dataWriter.codec, dataWriter.records, checksum);
      return false;
    }

    /** What an append does to the data records: a new one, none, or an orphan that a failed rewind left. */
    ghost predicate Recorded(value: Value, err: bool, at0: seq<nat>, records0: seq<Value>, rewindFailed0: bool)
      reads this, dataWriter
    {
      var orphaned := err && dataWriter.records != records0;
      && at == (if err then at0 else at0 + [|records0|])
      && dataWriter.records == (if err && !orphaned then records0 else records0 + [value])
      && rewindFailed == (rewindFailed0 || orphaned)
    }

    /** Goes back in the data file, before the record that found no place in the index. */
    method Rewind(preWriteOffset: nat, ghost records: seq<Value>, ghost value: Value)
      requires Files() && isOpen && KeysUpTo(written, lastKey) && dataWriter.records == records + [value]
      requires preWriteOffset == Boundary(dataWriter.codec, records, |records|)
      requires Tabled(index, written, at, dataWriter.codec, records, checksum, !rewindFailed)
      requires Tabled(index, written, at, dataWriter.codec, records + [value], checksum, false)
      requires LostBehind(lostEntry, written, at, dataWriter.codec, records, checksum)
      requires LostBehind(lostEntry, written, at, dataWriter.codec, records + [value], checksum)
      requires LostRecord(lostEntry, marshal, indexWriter.lost) && (lostEntry.Some? ==> indexWriter.bufWriter.failed)
      requires Indexed(marshal, index, indexWriter.codec, indexWriter.records)
      requires numRecords == |written| && nullValues == Nulls(written)
      modifies this`rewindFailed, this`rewound, dataWriter.Parts()
      ensures Valid() && (old(dataWriter.bufWriter.failed) ==> dataWriter.bufWriter.failed)
      ensures rewindFailed == (old(rewindFailed) || dataWriter.records != records)
      ensures rewindFailed && !old(rewindFailed) ==> !dataWriter.file.reliable
      ensures dataWriter.records == records || dataWriter.records == records + [value]
    {
      hide KeysUpTo, Tabled, Indexed, Boundary, Sized, FileWriter.Steady, FileWriter.Valid, FileWriter.Straight,
           FileWriter.Headed, Nulls, Marshalled, LostBehind;
      BoundaryKept(dataWriter.codec, records, value);
      Within(dataWriter, preWriteOffset, |records|);
      var seekFailed := dataWriter.Seek(preWriteOffset, |records|);
      if seekFailed {
        rewindFailed := true;
      } else {
        rewound := true;
      }
    }

    /**
     Accepts an entry with a key above all keys seen before; otherwise, or when an append fails, no entry is added.
     */
    method WriteNext(key: bytes, value: Value, refusal: Refusal) returns (r: WriteResult)
      requires Valid() && Fits(key, value)
      modifies this, dataWriter.Parts(), indexWriter.Parts()
      ensures Valid() && isOpen == old(isOpen)
      ensures r.SameKey? <==> old(lastKey) == Some(key)
      ensures r.NotAscending? <==> old(lastKey).Some? && Less(key, old(lastKey).value)
      ensures r.NotOpened? <==> old(lastKey).None? && !isOpen
      ensures r.Written? || r.Failed? ==> lastKey == Some(key)
      ensures !r.Written? && !r.Failed? ==> lastKey == old(lastKey)
      ensures written == if r.Written? then old(written) + [Entry(key, value)] else old(written)
      ensures r.Written? || r.Failed? ==>
                Recorded(value, r.Failed?, old(at), old(dataWriter.records), old(rewindFailed))
      ensures !r.Written? && !r.Failed? ==> unchanged(dataWriter, indexWriter) && rewindFailed == old(rewindFailed)
      ensures !r.Written? && !r.Failed? ==> at == old(at)
      ensures (old(Broken()) ==> Broken() && !r.Written?) && (Broken() ==> old(Broken()) || r.Failed?)
      ensures (r.Failed? ==> Broken() || !refusal.Accepts?) && (r.Written? ==> refusal.Accepts?)
      ensures rewindFailed && !old(rewindFailed) ==> !dataWriter.file.reliable
      ensures lostEntry.Some? ==> lostEntry == old(lostEntry) || lostEntry.value.entry == Entry(key, value)
      ensures minKey == if old(lastKey).None? && !r.NotOpened? then Some(key) else old(minKey)
    {
      hide Less, KeysUpTo, Tabled, Indexed, Sized, FileWriter.Steady, FileWriter.Valid, FileWriter.Straight,
           FileWriter.Headed, Nulls, Marshalled, LostBehind;
      var rejection := CheckOrder(key);
      if rejection.Some? {
        return rejection.value;
      }
      if lastKey.None? {
        minKey := Some(key);
      }
      KeysGrow(written, lastKey, Entry(key, value));
      lastKey := Some(key);
      var err := Store(key, value, refusal);
      r := if err then Failed else Written;
    }

    /**
     What is left of the table, whatever failed: an ascending index into the records, and two files that hold a front
     part of these.
     */
    ghost predicate Leaves()
      reads this, dataWriter.Parts(), indexWriter.Parts()
    {
      && KeysAscend(written) && Tabled(index, written, at, dataWriter.codec, dataWriter.records, checksum,
                                       !rewindFailed)
      && Indexed(marshal, index, indexWriter.codec, indexWriter.records)
      && LostBehind(lostEntry, written, at, dataWriter.codec, dataWriter.records, checksum)
      && LostRecord(lostEntry, marshal, indexWriter.lost)
      && Left(indexWriter) && Kept(dataWriter)
      && (!rewound || |dataWriter.file.content| == dataWriter.file.pos ==> Left(dataWriter))
    }

    /**
     Closes both files. Whatever failed before or fails now, the index file is a front part of the accepted entries,
     with at most one lost record behind them, and so is the data file unless it was rewound; without a failure nothing
     is missing.
     */
    method Close() returns (err: bool)
      requires Valid() && isOpen
      modifies this`isOpen, dataWriter.Parts(), indexWriter.Parts()
      ensures !isOpen && (old(Broken()) ==> err) && (err ==> !Reliable())
      ensures Leaves() && unchanged(this`written, this`at, this`rewound, this`rewindFailed, this`index, this`lostEntry)
      ensures dataWriter.records == old(dataWriter.records)
      ensures !err ==> Complete(indexWriter)
      ensures !err ==> ClosedTable(index, dataWriter.file.content, dataWriter.compressionType, dataWriter.codec,
                                   checksum, written, at, dataWriter.records)
    {
      hide InStep, Points, FileWriter.Steady, FileWriter.Valid, EncodeAll, FileHeader, KeysAscend, AllSized, Marshalled,
           Nulls, LostBehind, LostRecord;
      isOpen := false;
      err := indexWriter.Close();
      FileHolds(indexWriter);
      var dataErr := dataWriter.Close();
      FileHolds(dataWriter);
      err := err || dataErr;
    }
  }

  /** A writer that works, with the header in its file. */
  ghost predicate Ready(w: FileWriter)
    reads w, w.file
  {
    w.open && !w.closed && w.Headed()
  }

  ghost predicate Unopened(w: FileWriter)
    reads w, w.bufWriter, w.file
  {
    && !w.open && !w.closed && !w.bufWriter.failed && w.bufWriter.supplied == [] && w.file.base == []
    && w.file.start == 0
    && w.records == [] && w.compressionType < 0x1_0000_0000
  }

  /** The file is a front part of its header, its records and at most one record that was lost. */
  ghost predicate Left(w: FileWriter)
    reads w, w.file
  {
    && w.compressionType < 0x1_0000_0000 && |w.lost| <= 1 && AllSized(w.codec, w.lost)
    && |w.file.content| >= FILE_HEADER_SIZE
    && w.file.content <= FileHeader(w.compressionType) + EncodeAll(w.codec, w.records + w.lost)
  }

  /** The file agrees with header and records as far as it was written since the last seek. */
  ghost predicate Kept(w: FileWriter)
    reads w, w.file
  {
    && w.compressionType < 0x1_0000_0000
    && var full := FileHeader(w.compressionType) + EncodeAll(w.codec, w.records);
       FILE_HEADER_SIZE <= w.file.pos && Agree(w.file.content, full, if w.file.pos < |full| then w.file.pos else |full|)
  }

  ghost predicate Complete(w: FileWriter)
    reads w, w.file
  {
    w.compressionType < 0x1_0000_0000 && w.file.content == FileHeader(w.compressionType) + EncodeAll(w.codec, w.records)
  }

  /** The two files of a closed table: an index in ascending order that points into the records of the data file. */
  ghost predicate ClosedTable(index: seq<IndexEntry>, data: bytes, compressionType: nat, codec: Codec,
                              checksum: Value -> nat, written: seq<Entry>, at: seq<nat>, records: seq<Value>)
  {
    && compressionType < 0x1_0000_0000 && data == FileHeader(compressionType) + EncodeAll(codec, records)
    && AllSized(codec, records)
    && KeysAscend(written) && Points(index, written, at, codec, records, checksum)
  }

  lemma {:induction false} Working(w: FileWriter)
    requires w.Valid()
    ensures w.open && !w.closed && !w.bufWriter.failed
  {
  }

  lemma {:induction false} FailedFile(w: FileWriter)
    requires w.Steady()
    ensures w.bufWriter.failed ==> !w.file.reliable
  {
  }

  /** The start of a record lies between header and end, or the file has failed. */
  lemma {:induction false} Within(w: FileWriter, offset: nat, k: nat)
    requires w.Steady() && w.open && !w.closed && k <= |w.records| && offset == Boundary(w.codec, w.records, k)
    ensures !w.bufWriter.failed ==> w.headerOffset <= offset <= w.currentOffset
    ensures w.bufWriter.failed ==> !w.file.reliable
  {
    hide Layout, Overlay, Holds, Held;
    if !w.bufWriter.failed {
      LayoutRewind(w.compressionType, w.codec, w.View(), w.currentOffset, w.largestOffset, w.records, k);
    }
  }

  lemma {:induction false} NothingLost(lost: Option<LostEntry>, written: seq<Entry>, at: seq<nat>, codec: Codec,
                                       records: seq<Value>, checksum: Value -> nat)
    requires lost.None?
    ensures LostBehind(lost, written, at, codec, records, checksum)
  {
  }

  lemma {:induction false} StartOfNext(w: FileWriter)
    requires w.Steady()
    ensures w.open && !w.closed && !w.bufWriter.failed ==> w.currentOffset == Boundary(w.codec, w.records, |w.records|)
  {
    hide Layout, Overlay, Boundary, Holds;
    if w.open && !w.closed && !w.bufWriter.failed {
      OffsetIsBoundary(w.compressionType, w.codec, w.View(), w.currentOffset, w.largestOffset, w.records);
    }
  }

  lemma {:induction false} BoundaryKept(codec: Codec, records: seq<Value>, v: Value)
    ensures Boundary(codec, records + [v], |records|) == Boundary(codec, records, |records|)
    ensures (records + [v])[..|records|] == records
  {
    assert (records + [v])[..|records|] == records[..|records|];
  }

  lemma {:induction false} NullsGrow(es: seq<Entry>, e: Entry)
    ensures Nulls(es + [e]) == Nulls(es) + if e.value.None? then 1 else 0
  {
    assert (es + [e])[..|es|] == es;
  }

  function Nulls(es: seq<Entry>): nat
  {
    if es == [] then 0 else Nulls(es[..|es| - 1]) + if es[|es| - 1].value.None? then 1 else 0
  }

  // ---------- reading a closed table ----------

  datatype TableRead = Value(value: Bytes.Value) | KeyMissing | ReadFailed(error: ReadError) | ChecksumMismatch

  /** The index entry of a key. */
  function IndexGet(index: seq<IndexEntry>, k: bytes): (x: Option<IndexEntry>)
    ensures x.Some? ==> x.value in index && x.value.key == k
    ensures x.None? ==> forall i :: 0 <= i < |index| ==> index[i].key != k
  {
    if index == [] then None else
      var n := |index| - 1;
      if index[n].key == k then Some(index[n]) else IndexGet(index[..n], k)
  }

  /** A value that was read is compared with the checksum in the index, where zero stands for none. */
  function Checked(checksum: Bytes.Value -> nat, expected: nat, v: Bytes.Value): TableRead
  {
    if checksum(v) == expected || expected == 0 then Value(v) else ChecksumMismatch
  }

  /** What lies at an offset; the very end of the file reads as nil. */
  function RecordAt(codec: Codec, data: bytes, offset: nat): TableRead
  {
    if offset == |data| then Value(None)
    else match ReadNextAt(codec, data, offset)
      case NoRecord(e) => ReadFailed(e)
      case Record(v, _) => Value(v)
  }

  /** The value of an index entry, under its checksum. */
  function ValueAt(codec: Codec, checksum: Bytes.Value -> nat, data: bytes, x: IndexEntry): TableRead
  {
    match RecordAt(codec, data, x.offset)
    case Value(v) => Checked(checksum, x.checksum, v)
    case r => r
  }

  /** The lookup of a key; the checks are off by default. */
  function Get(index: seq<IndexEntry>, codec: Codec, checksum: Bytes.Value -> nat, skipHashCheck: bool, data: bytes,
               k: bytes): TableRead
  {
    match IndexGet(index, k)
    case None => KeyMissing
    case Some(x) => if skipHashCheck then RecordAt(codec, data, x.offset) else ValueAt(codec, checksum, data, x)
  }

  /** A value that passes the check is the one that is read without it. */
  lemma {:induction false} PassedIsRead(codec: Codec, checksum: Bytes.Value -> nat, data: bytes, x: IndexEntry)
    requires ValueAt(codec, checksum, data, x).Value?
    ensures RecordAt(codec, data, x.offset) == ValueAt(codec, checksum, data, x)
  {
    hide RecordAt;
  }

  /** The i-th index entry leads to the value that was written with its key. */
  lemma {:induction false} EntryReadsBack(index: seq<IndexEntry>, data: bytes, compressionType: nat, codec: Codec,
                                          checksum: Bytes.Value -> nat, written: seq<Entry>, at: seq<nat>,
                                          records: seq<Bytes.Value>, i: nat)
    requires ClosedTable(index, data, compressionType, codec, checksum, written, at, records) && Lossless(codec)
    requires i < |index|
    ensures index[i].key == written[i].key && ValueAt(codec, checksum, data, index[i]) == Value(written[i].value)
  {
    hide FileHeader, EncodeAll, Lossless, KeysAscend, ReadNextAt, AllSized;
    var header := FileHeader(compressionType);
    assert data == header + EncodeAll(codec, records) + [];
    LookupRecord(codec, header, records, [], at[i]);
    RecordIsLong(codec, data, Boundary(codec, records, at[i]));
    assert PointsAt(index[i], written[i], codec, records, at[i], checksum);
  }

  /** Lookup in a closed table finds exactly what was written, even if a rewind of the data file failed. */
  lemma {:induction false} TableReadsBack(index: seq<IndexEntry>, data: bytes, compressionType: nat, codec: Codec,
                                          checksum: Bytes.Value -> nat, skipHashCheck: bool, written: seq<Entry>,
                                          at: seq<nat>, records: seq<Bytes.Value>, k: bytes)
    requires ClosedTable(index, data, compressionType, codec, checksum, written, at, records) && Lossless(codec)
    ensures Get(index, codec, checksum, skipHashCheck, data, k)
         == if k in AsTable(written) then Value(AsTable(written)[k]) else KeyMissing
  {
    hide FileHeader, EncodeAll, Lossless, KeysAscend, ReadNextAt, AllSized, IndexGet, AsTable, ValueAt, RecordAt;
    AsTableHas(written, k);
    if k in AsTable(written) {
      var i :| 0 <= i < |written| && written[i].key == k;
      assert PointsAt(index[i], written[i], codec, records, at[i], checksum);
      assert index[i].key == k;
    }
    var x := IndexGet(index, k);
    if x.Some? {
      var i :| 0 <= i < |index| && index[i] == x.value;
      EntryReadsBack(index, data, compressionType, codec, checksum, written, at, records, i);
      PassedIsRead(codec, checksum, data, x.value);
      AsTableAt(written, i);
    }
  }

  // ---------- scanning a table ----------

  /**
   The sequential scan: the data file is read record by record beside the index. It returns the entries up to the end
   of the index, or up to the first record that cannot be read or does not have the checksum of its index entry.
   */
  function ScanFrom(index: seq<IndexEntry>, codec: Codec, checksum: Bytes.Value -> nat, skipHashCheck: bool,
                    data: bytes, offset: nat)
    : (seq<Entry>, bool)
  {
    if index == [] then ([], false) else
      var (o, next) := ReaderStep(codec, data, offset, ReadNext);
      if !o.Got? || (!skipHashCheck && Checked(checksum, index[0].checksum, o.value).ChecksumMismatch?)
      then ([], true) else
        var (es, failed) := ScanFrom(index[1..], codec, checksum, skipHashCheck, data, next);
        ([Entry(index[0].key, o.value)] + es, failed)
  }

  lemma {:induction false} ScanOne(index: seq<IndexEntry>, codec: Codec, checksum: Bytes.Value -> nat,
                                   skipHashCheck: bool, data: bytes, offset: nat, before: seq<Entry>)
    requires index != []
    ensures var (o, next) := ReaderStep(codec, data, offset, ReadNext);
            var (all, failed) := ScanFrom(index, codec, checksum, skipHashCheck, data, offset);
            if !o.Got? || (!skipHashCheck && Checked(checksum, index[0].checksum, o.value).ChecksumMismatch?)
            then before + all == before && failed
            else var (es, f) := ScanFrom(index[1..], codec, checksum, skipHashCheck, data, next);
                 before + all == before + [Entry(index[0].key, o.value)] + es && failed == f
  {
    hide ReaderStep, Checked;
  }

  /** Reads a table in sequence, whatever its two files hold. */
  method FullScan(index: seq<IndexEntry>, reader: FileReader.FileReader, checksum: Bytes.Value -> nat,
                  skipHashCheck: bool)
    returns (out: seq<Entry>, err: bool)
    requires reader.Shape() && reader.open && !reader.closed && reader.version == CURRENT_VERSION && reader.Aligned()
    modifies reader, reader.reader, reader.reader.r, reader.reader.r.buf, reader.file`pos
    ensures (out, err) == ScanFrom(index, old(reader.codec), checksum, skipHashCheck, reader.file.content,
                                   old(reader.currentOffset))
  {
    hide BufferedReader.Reader.Valid, BufferedReader.Reader.Pending, From, StepOn, ScanFrom, Checked,
         FileReader.FileReader.Pending;
    out, err := [], false;
    ghost var codec, data := reader.codec, reader.file.content;
    ghost var all := ScanFrom(index, codec, checksum, skipHashCheck, data, reader.currentOffset);
    assert [] + all.0 == all.0 && index[0..] == index;
    for i := 0 to |index|
      invariant reader.Shape() && reader.open && !reader.closed && reader.version == CURRENT_VERSION
      invariant reader.codec == codec && reader.Aligned()
      invariant all.0 == out + ScanFrom(index[i..], codec, checksum, skipHashCheck, data, reader.currentOffset).0
      invariant all.1 == ScanFrom(index[i..], codec, checksum, skipHashCheck, data, reader.currentOffset).1
    {
      ScanOne(index[i..], codec, checksum, skipHashCheck, data, reader.currentOffset, out);
      assert index[i..][0] == index[i] && index[i..][1..] == index[i + 1..];
      var next := reader.ReadNext();
      if !next.Got? {
        return out, true;
      }
      if !skipHashCheck && Checked(checksum, index[i].checksum, next.value).ChecksumMismatch? {
        return out, true;
      }
      out := out + [Entry(index[i].key, next.value)];
    }
    ScanNothing(index[|index|..], codec, checksum, skipHashCheck, data, reader.currentOffset, out);
  }

  lemma {:induction false} ScanNothing(index: seq<IndexEntry>, codec: Codec, checksum: Bytes.Value -> nat,
                                       skipHashCheck: bool, data: bytes, offset: nat, before: seq<Entry>)
    requires index == []
    ensures var (es, failed) := ScanFrom(index, codec, checksum, skipHashCheck, data, offset);
            before + es == before && !failed
  {
  }

  /** At the i-th record, reading returns that record and goes to the next one. */
  lemma {:induction false} ScanStep(codec: Codec, data: bytes, compressionType: nat, records: seq<Bytes.Value>, i: nat)
    requires compressionType < 0x1_0000_0000 && data == FileHeader(compressionType) + EncodeAll(codec, records)
    requires Lossless(codec) && AllSized(codec, records) && i < |records|
    ensures ReaderStep(codec, data, Boundary(codec, records, i), ReadNext)
        == (Got(records[i]), Boundary(codec, records, i + 1))
  {
    hide FileHeader, EncodeAll, Lossless, AllSized, ReaderStep;
    var header := FileHeader(compressionType);
    assert data == header + EncodeAll(codec, records) + [];
    var ops := seq(|records|, _ => ReadNext);
    MixedRun(codec, header, records, [], ops, i);
  }

  lemma {:induction false} RecordsSuffice(at: seq<nat>, n: nat, i: nat)
    requires (forall a, b :: 0 <= a < b < |at| ==> at[a] < at[b]) && (forall a :: 0 <= a < |at| ==> at[a] < n)
    requires i < |at|
    ensures i <= at[i] < n
  {
    if i > 0 {
      RecordsSuffice(at, n, i - 1);
    }
  }

  /** Whether the scan stops at a record, because it is not the one that the index entry beside it was written for. */
  predicate Stops(checksum: Bytes.Value -> nat, skipHashCheck: bool, read: Bytes.Value, expected: Bytes.Value)
  {
    !skipHashCheck && Checked(checksum, checksum(expected), read).ChecksumMismatch?
  }

  /** What a scan from the i-th entry on returns: the keys of the index with the records as they come. */
  ghost predicate Scans(written: seq<Entry>, records: seq<Bytes.Value>, checksum: Bytes.Value -> nat,
                        skipHashCheck: bool, i: nat, out: seq<Entry>, failed: bool)
    requires i <= |written| <= |records|
  {
    && i + |out| <= |written|
    && (forall j :: i <= j < i + |out| ==> out[j - i] == Entry(written[j].key, records[j]))
    && (forall j :: i <= j < i + |out| ==> !Stops(checksum, skipHashCheck, records[j], written[j].value))
    && (failed <==> i + |out| < |written|)
    && (failed ==> Stops(checksum, skipHashCheck, records[i + |out|], written[i + |out|].value))
  }

  /** What a scan with any index beside the records returns from the i-th entry on. */
  ghost predicate ScansTo(index: seq<IndexEntry>, records: seq<Bytes.Value>, checksum: Bytes.Value -> nat,
                          skipHashCheck: bool, i: nat, out: seq<Entry>, failed: bool)
    requires i <= |index| <= |records|
  {
    && i + |out| <= |index|
    && (forall j :: i <= j < i + |out| ==> out[j - i] == Entry(index[j].key, records[j]))
    && (forall j :: i <= j < i + |out| ==>
          skipHashCheck || checksum(records[j]) == index[j].checksum || index[j].checksum == 0)
    && (failed <==> i + |out| < |index|)
    && (failed ==> var j := i + |out|;
                   !skipHashCheck && checksum(records[j]) != index[j].checksum && index[j].checksum != 0)
  }

  lemma {:induction false} ScanFromEntry(index: seq<IndexEntry>, compressionType: nat, codec: Codec,
                                         records: seq<Bytes.Value>, checksum: Bytes.Value -> nat, skipHashCheck: bool,
                                         i: nat)
    requires compressionType < 0x1_0000_0000 && Lossless(codec) && AllSized(codec, records)
    requires i <= |index| <= |records|
    ensures var data := FileHeader(compressionType) + EncodeAll(codec, records);
            var (out, failed) := ScanFrom(index[i..], codec, checksum, skipHashCheck, data,
                                          Boundary(codec, records, i));
            ScansTo(index, records, checksum, skipHashCheck, i, out, failed)
    decreases |index| - i
  {
    hide FileHeader, EncodeAll, Lossless, AllSized, ReaderStep, Boundary;
    var data := FileHeader(compressionType) + EncodeAll(codec, records);
    if i < |index| {
      ScanStep(codec, data, compressionType, records, i);
      assert index[i..][1..] == index[i + 1..] && index[i..][0] == index[i];
      ScanFromEntry(index, compressionType, codec, records, checksum, skipHashCheck, i + 1);
      hide ScansTo;
      var (es, f) := ScanFrom(index[i + 1..], codec, checksum, skipHashCheck, data, Boundary(codec, records, i + 1));
      ScansOneMore(index, records, checksum, skipHashCheck, i, es, f);
    }
  }

  lemma {:induction false} ScansOneMore(index: seq<IndexEntry>, records: seq<Bytes.Value>,
                                        checksum: Bytes.Value -> nat, skipHashCheck: bool, i: nat, es: seq<Entry>,
                                        failed: bool)
    requires i < |index| <= |records| && ScansTo(index, records, checksum, skipHashCheck, i + 1, es, failed)
    ensures var refused := !skipHashCheck && Checked(checksum, index[i].checksum, records[i]).ChecksumMismatch?;
            if refused then ScansTo(index, records, checksum, skipHashCheck, i, [], true)
            else ScansTo(index, records, checksum, skipHashCheck, i, [Entry(index[i].key, records[i])] + es, failed)
  {
    var out := [Entry(index[i].key, records[i])] + es;
    forall j | i <= j < i + |out| ensures out[j - i] == Entry(index[j].key, records[j]) {
      assert j > i ==> out[j - i] == es[j - (i + 1)];
    }
  }

  /**
   The scan of a good data file with any index of at most as many entries: the i-th key with the i-th record, up to the
   first entry whose checksum is neither zero nor that of its record; without the checks, to the end.
   */
  lemma {:induction false} ScanRefusesIff(index: seq<IndexEntry>, compressionType: nat, codec: Codec,
                                          records: seq<Bytes.Value>, checksum: Bytes.Value -> nat, skipHashCheck: bool)
    requires compressionType < 0x1_0000_0000 && Lossless(codec) && AllSized(codec, records) && |index| <= |records|
    ensures var data := FileHeader(compressionType) + EncodeAll(codec, records);
            var (out, failed) := ScanFrom(index, codec, checksum, skipHashCheck, data, FILE_HEADER_SIZE);
            && |out| <= |index| && (failed <==> |out| < |index|)
            && (forall j :: 0 <= j < |out| ==> out[j] == Entry(index[j].key, records[j]))
            && (forall j :: 0 <= j < |out| ==>
                  skipHashCheck || checksum(records[j]) == index[j].checksum || index[j].checksum == 0)
            && (failed ==> !skipHashCheck && checksum(records[|out|]) != index[|out|].checksum
                           && index[|out|].checksum != 0)
  {
    hide FileHeader, Lossless, AllSized, ScanFrom;
    ScanFromEntry(index, compressionType, codec, records, checksum, skipHashCheck, 0);
    assert index[0..] == index && records[..0] == [];
    assert Boundary(codec, records, 0) == FILE_HEADER_SIZE;
    var data := FileHeader(compressionType) + EncodeAll(codec, records);
    var (out, failed) := ScanFrom(index, codec, checksum, skipHashCheck, data, FILE_HEADER_SIZE);
    forall j | 0 <= j < |out| ensures out[j] == Entry(index[j].key, records[j]) {
      assert out[j - 0] == out[j];
    }
  }

  lemma {:induction false} PointsLength(index: seq<IndexEntry>, written: seq<Entry>, at: seq<nat>, codec: Codec,
                                        records: seq<Bytes.Value>, checksum: Bytes.Value -> nat)
    requires Points(index, written, at, codec, records, checksum)
    ensures |index| == |written| <= |records|
  {
    if at != [] {
      RecordsSuffice(at, |records|, |at| - 1);
    }
  }

  lemma {:induction false} IndexHolds(index: seq<IndexEntry>, written: seq<Entry>, at: seq<nat>, codec: Codec,
                                      records: seq<Bytes.Value>, checksum: Bytes.Value -> nat, i: nat)
    requires Points(index, written, at, codec, records, checksum) && i < |index|
    ensures index[i].key == written[i].key && index[i].checksum == checksum(written[i].value)
  {
    assert PointsAt(index[i], written[i], codec, records, at[i], checksum);
  }

  /**
   The scan of a closed table pairs the i-th key with the i-th record, whatever rewinds failed, and stops early only
   where a checksum tells record and entry apart.
   */
  lemma {:induction false} ScanPairsInOrder(index: seq<IndexEntry>, data: bytes, compressionType: nat, codec: Codec,
                                            checksum: Bytes.Value -> nat, skipHashCheck: bool, written: seq<Entry>,
                                            at: seq<nat>, records: seq<Bytes.Value>)
    requires ClosedTable(index, data, compressionType, codec, checksum, written, at, records) && Lossless(codec)
    ensures |written| <= |records|
    ensures var (out, failed) := ScanFrom(index, codec, checksum, skipHashCheck, data, FILE_HEADER_SIZE);
            Scans(written, records, checksum, skipHashCheck, 0, out, failed)
  {
    hide FileHeader, Lossless, KeysAscend, AllSized, ScanFrom, Points;
    PointsLength(index, written, at, codec, records, checksum);
    ScanRefusesIff(index, compressionType, codec, records, checksum, skipHashCheck);
    forall i | 0 <= i < |index|
      ensures index[i].key == written[i].key && index[i].checksum == checksum(written[i].value) {
      IndexHolds(index, written, at, codec, records, checksum, i);
    }
  }

  /**
   The scan returns exactly what was written if and only if the i-th record holds the value of the i-th entry, for all
   entries.
   */
  lemma {:induction false} ScanIsWrittenIff(index: seq<IndexEntry>, data: bytes, compressionType: nat, codec: Codec,
                                            checksum: Bytes.Value -> nat, skipHashCheck: bool, written: seq<Entry>,
                                            at: seq<nat>, records: seq<Bytes.Value>)
    requires ClosedTable(index, data, compressionType, codec, checksum, written, at, records) && Lossless(codec)
    ensures |written| <= |records|
    ensures ScanFrom(index, codec, checksum, skipHashCheck, data, FILE_HEADER_SIZE) == (written, false)
        <==> forall i :: 0 <= i < |written| ==> records[i] == written[i].value
  {
    hide ScanFrom, ClosedTable, Lossless;
    ScanPairsInOrder(index, data, compressionType, codec, checksum, skipHashCheck, written, at, records);
    var (out, failed) := ScanFrom(index, codec, checksum, skipHashCheck, data, FILE_HEADER_SIZE);
    if forall i :: 0 <= i < |written| ==> records[i] == written[i].value {
      assert !failed;
      assert out == written;
    }
  }

  /** Without a failed rewind that is the case. */
  lemma {:induction false} InStepScans(index: seq<IndexEntry>, data: bytes, compressionType: nat, codec: Codec,
                                       checksum: Bytes.Value -> nat, skipHashCheck: bool, written: seq<Entry>,
                                       at: seq<nat>, records: seq<Bytes.Value>)
    requires ClosedTable(index, data, compressionType, codec, checksum, written, at, records) && Lossless(codec)
    requires InStep(at, records)
    ensures ScanFrom(index, codec, checksum, skipHashCheck, data, FILE_HEADER_SIZE) == (written, false)
  {
    hide FileHeader, EncodeAll, Lossless, KeysAscend, AllSized, ScanFrom, Boundary;
    ScanIsWrittenIff(index, data, compressionType, codec, checksum, skipHashCheck, written, at, records);
    forall i | 0 <= i < |written| ensures records[i] == written[i].value {
      assert PointsAt(index[i], written[i], codec, records, at[i], checksum);
    }
  }

  /** A table whose first record a failed rewind left behind, with one entry for the second record. */
  ghost function OrphanIndex(checksum: Bytes.Value -> nat, orphan: Bytes.Value, e: Entry): seq<IndexEntry>
  {
    [IndexEntry(e.key, Boundary(Raw, [orphan, e.value], 1), checksum(e.value))]
  }

  /**
   What the scan makes of it: it returns the orphan under the key of the entry, or fails when the checksums differ.
   The lookup of the key finds the entry's own value.
   */
  lemma {:induction false} OrphanMisleadsScan(checksum: Bytes.Value -> nat, skipHashCheck: bool, orphan: Bytes.Value,
                                              e: Entry)
    requires orphan != e.value && Sized(Raw, orphan) && Sized(Raw, e.value)
    ensures var index, data := OrphanIndex(checksum, orphan, e), FileHeader(0) + EncodeAll(Raw, [orphan, e.value]);
            && Get(index, Raw, checksum, skipHashCheck, data, e.key) == Value(e.value)
            && ScanFrom(index, Raw, checksum, skipHashCheck, data, FILE_HEADER_SIZE)
               == if Stops(checksum, skipHashCheck, orphan, e.value) then ([], true)
                  else ([Entry(e.key, orphan)], false)
  {
    var index, data := OrphanIndex(checksum, orphan, e), FileHeader(0) + EncodeAll(Raw, [orphan, e.value]);
    OrphanIsClosed(checksum, orphan, e);
    hide ScanFrom, ClosedTable, Get, Boundary, EncodeAll, Stops, FileHeader;
    ScanPairsInOrder(index, data, 0, Raw, checksum, skipHashCheck, [e], [1], [orphan, e.value]);
    TableReadsBack(index, data, 0, Raw, checksum, skipHashCheck, [e], [1], [orphan, e.value], e.key);
    AsTableAt([e], 0);
    var (out, failed) := ScanFrom(index, Raw, checksum, skipHashCheck, data, FILE_HEADER_SIZE);
    if failed {
      assert out == [];
    } else {
      assert out[0] == Entry(e.key, orphan);
      assert out == [Entry(e.key, orphan)];
    }
  }

  lemma {:induction false} OrphanIsClosed(checksum: Bytes.Value -> nat, orphan: Bytes.Value, e: Entry)
    requires Sized(Raw, orphan) && Sized(Raw, e.value)
    ensures ClosedTable(OrphanIndex(checksum, orphan, e), FileHeader(0) + EncodeAll(Raw, [orphan, e.value]), 0, Raw,
                        checksum, [e], [1], [orphan, e.value])
  {
    hide Sized, EncodeAll, FileHeader, Boundary;
    assert PointsAt(OrphanIndex(checksum, orphan, e)[0], e, Raw, [orphan, e.value], 1, checksum);
  }

  // ---------- merging into a table ----------

  /** The entries whose append succeeded. */
  function Accepted(es: seq<Entry>, results: seq<WriteResult>): seq<Entry>
    requires |es| == |results|
  {
    if es == [] then [] else
      var n := |es| - 1;
      Accepted(es[..n], results[..n]) + if results[n].Written? then [es[n]] else []
  }

  lemma {:induction false} AcceptedGrows(es: seq<Entry>, results: seq<WriteResult>, e: Entry, r: WriteResult)
    requires |es| == |results|
    ensures Accepted(es + [e], results + [r]) == Accepted(es, results) + if r.Written? then [e] else []
  {
    assert (es + [e])[..|es|] == es && (results + [r])[..|es|] == results;
  }

  /**
   They are entries of the list in its order; all of them if no append failed, and otherwise not those that failed.
   */
  lemma {:induction false} AcceptedAre(es: seq<Entry>, results: seq<WriteResult>)
    requires |es| == |results| && KeysAscend(es)
    ensures KeysAscend(Accepted(es, results)) && (forall e :: e in Accepted(es, results) ==> e in es)
    ensures forall i :: 0 <= i < |es| ==> (es[i] in Accepted(es, results) <==> results[i].Written?)
  {
    hide Less;
    if es != [] {
      var n := |es| - 1;
      var front := Accepted(es[..n], results[..n]);
      AcceptedAre(es[..n], results[..n]);
      forall i | 0 <= i < |front| ensures Less(front[i].key, es[n].key) {
        assert front[i] in es[..n];
      }
      forall i | 0 <= i < n ensures es[i] != es[n] {
        LessTrichotomy(es[i].key, es[n].key);
      }
      assert forall i :: 0 <= i < n ==> es[..n][i] == es[i] && results[..n][i] == results[i];
    }
  }

  lemma {:induction false} AcceptedAllIff(es: seq<Entry>, results: seq<WriteResult>)
    requires |es| == |results| && KeysAscend(es) && OnlyWrites(results)
    ensures Accepted(es, results) == es <==> Failed !in results
  {
    hide KeysAscend;
    AcceptedAre(es, results);
    if Failed !in results {
      AllAccepted(es, results);
    }
  }

  lemma {:induction false} AllAccepted(es: seq<Entry>, results: seq<WriteResult>)
    requires |es| == |results| && forall i :: 0 <= i < |results| ==> results[i].Written?
    ensures Accepted(es, results) == es
  {
    if es != [] {
      AllAccepted(es[..|es| - 1], results[..|es| - 1]);
    }
  }

  /**
   The merge with reduction into a fresh table writer. The order checks of the writer never reject anything. Failing
   appends, those that break a file and those that leave the writer usable, are ignored by the merge: the table holds
   the entries whose append succeeded, and so what the merge is to return if and only if none failed.
   */
  method MergeCompactInto(sources: seq<Source>, reduce: Reduce, writer: StreamWriter, refuse: Entry -> Refusal)
    returns (results: seq<WriteResult>, ghost stream: seq<Item>)
    requires GoodSources(sources) && writer.Valid() && writer.isOpen && writer.lastKey.None? && writer.written == []
    requires AllFit(writer, AllItems(sources)) && !writer.Broken() && writer.lostEntry == None
    modifies writer, writer.dataWriter.Parts(), writer.indexWriter.Parts()
    ensures writer.Valid() && writer.isOpen && OnlyWrites(results)
    ensures SortedItems(stream) && multiset(stream) == AllItems(sources)
    ensures |results| == |Output(reduce, stream)| && writer.written == Accepted(Output(reduce, stream), results)
    ensures writer.Broken() ==> Failed in results
    ensures Explained(Output(reduce, stream), results, refuse, writer.Broken())
    ensures writer.written == Output(reduce, stream) <==> Failed !in results
    ensures KeyedSources(sources) ==> Merged(reduce, sources, Output(reduce, stream))
    ensures KeyedSources(sources) ==> (Merged(reduce, sources, writer.written) <==> Failed !in results)
    ensures writer.lostEntry.Some? ==> writer.lostEntry.value.entry in Output(reduce, stream)
  {
    hide SortedItems, GoodSources, KeysAscend, ReduceAll, Keeps, Survives, AllItems, Remaining, SortedSources, Sorting,
         Output, StreamWriter.Fits, StreamWriter.Valid, StreamWriter.Broken, Less, MergeCompactionIterator.Valid,
         AllFit, LastKey, OnlyWrites, Merged, KeyedSources, Accepted, Explained, Following;
    SourcesSorted(sources);
    var it := new MergeCompactionIterator(sources, reduce);
    results := [];
    NothingFollows(writer, refuse);
    var more := true;
    while more
      invariant it.Valid() && fresh(it) && fresh(it.queue) && it.total == AllItems(sources) && it.reduce == reduce
      invariant Following(writer, it.emitted, results, refuse)
      invariant !more ==> it.emitted == Output(reduce, it.consumed)
      invariant !more ==> SortedItems(it.consumed) && multiset(it.consumed) == AllItems(sources)
      decreases more, |Remaining(it.queue.heap)|, |it.valBuf|
    {
      ghost var before := it.emitted;
      var next := it.Next();
      if next.None? {
        more := false;
      } else {
        NextFits(it, before, next.value, writer);
        results := Forward(next.value, writer, refuse, results, before);
      }
    }
    stream := it.consumed;
    ReducedSources(reduce, sources, stream);
    FollowingAll(writer, Output(reduce, stream), results, refuse);
    if Failed in results && KeyedSources(sources) {
      AcceptedIsLess(reduce, sources, Output(reduce, stream), results);
    }
  }

  /** The writer has been offered exactly the given entries, one call each, and none was rejected for its order. */
  ghost predicate Following(writer: StreamWriter, emitted: seq<Entry>, results: seq<WriteResult>,
                            refuse: Entry -> Refusal)
    reads writer, writer.dataWriter.Parts(), writer.indexWriter.Parts()
  {
    && writer.Valid() && writer.isOpen && writer.lastKey == LastKey(emitted)
    && OnlyWrites(results) && (writer.Broken() ==> Failed in results) && |results| == |emitted|
    && writer.written == Accepted(emitted, results) && Explained(emitted, results, refuse, writer.Broken())
    && (writer.lostEntry.Some? ==> writer.lostEntry.value.entry in emitted)
  }

  lemma {:induction false} NothingFollows(writer: StreamWriter, refuse: Entry -> Refusal)
    requires writer.Valid() && writer.isOpen && writer.lastKey.None? && writer.written == []
    requires !writer.Broken() && writer.lostEntry == None
    ensures Following(writer, [], [], refuse)
  {
    hide StreamWriter.Valid, StreamWriter.Broken;
  }

  lemma {:induction false} FollowingAll(writer: StreamWriter, all: seq<Entry>, results: seq<WriteResult>,
                                        refuse: Entry -> Refusal)
    requires Following(writer, all, results, refuse) && KeysAscend(all)
    ensures writer.Valid() && writer.isOpen && OnlyWrites(results) && (writer.Broken() ==> Failed in results)
    ensures |results| == |all| && writer.written == Accepted(all, results)
    ensures Explained(all, results, refuse, writer.Broken())
    ensures writer.written == all <==> Failed !in results
    ensures writer.lostEntry.Some? ==> writer.lostEntry.value.entry in all
  {
    hide StreamWriter.Valid, StreamWriter.Broken, KeysAscend, Accepted, OnlyWrites, Explained;
    AcceptedAllIff(all, results);
  }

  /** One call for the next entry, whatever it returns. */
  method Forward(e: Entry, writer: StreamWriter, refuse: Entry -> Refusal, results: seq<WriteResult>,
                 ghost before: seq<Entry>)
    returns (all: seq<WriteResult>)
    requires Following(writer, before, results, refuse) && writer.Fits(e.key, e.value)
    requires LastKey(before).Some? ==> Less(LastKey(before).value, e.key) && !Less(e.key, LastKey(before).value)
    requires LastKey(before) != Some(e.key) && LastKey(before + [e]) == Some(e.key)
    modifies writer, writer.dataWriter.Parts(), writer.indexWriter.Parts()
    ensures Following(writer, before + [e], all, refuse)
  {
    hide StreamWriter.Valid, StreamWriter.Broken, StreamWriter.Fits, Less, LastKey, OnlyWrites, Accepted, Explained,
         StreamWriter.Recorded;
    ghost var broken := writer.Broken();
    var r := writer.WriteNext(e.key, e.value, refuse(e));
    ExplainedGrows(before, results, refuse, broken, e, r, writer.Broken());
    AnotherWrite(results, r);
    AcceptedGrows(before, results, e, r);
    all := results + [r];
  }

  /** An append fails only if it is refused or a file is broken, and a refused one always fails. */
  ghost predicate Explained(es: seq<Entry>, results: seq<WriteResult>, refuse: Entry -> Refusal, broken: bool)
    requires |es| == |results|
  {
    forall i :: 0 <= i < |es| ==>
      && (results[i].Failed? ==> broken || !refuse(es[i]).Accepts?) && (results[i].Written? ==> refuse(es[i]).Accepts?)
  }

  lemma {:induction false} ExplainedGrows(es: seq<Entry>, results: seq<WriteResult>, refuse: Entry -> Refusal,
                                          broken: bool, e: Entry, r: WriteResult, broken': bool)
    requires |es| == |results| && Explained(es, results, refuse, broken) && (broken ==> broken')
    requires (r.Failed? ==> broken' || !refuse(e).Accepts?) && (r.Written? ==> refuse(e).Accepts?)
    ensures Explained(es + [e], results + [r], refuse, broken')
  {
  }

  lemma {:induction false} AcceptedIsLess(reduce: Reduce, sources: seq<Source>, all: seq<Entry>,
                                          results: seq<WriteResult>)
    requires Merged(reduce, sources, all) && KeysAscend(all) && |all| == |results| && Failed in results
    ensures !Merged(reduce, sources, Accepted(all, results))
  {
    hide Keeps, Survives, Accepted;
    AcceptedAre(all, results);
    var i :| 0 <= i < |results| && results[i].Failed?;
    assert all[i] in all && all[i] !in Accepted(all, results);
  }

  /** Nothing was rejected for its order. */
  ghost predicate OnlyWrites(results: seq<WriteResult>)
  {
    forall i :: 0 <= i < |results| ==> results[i].Written? || results[i].Failed?
  }

  lemma {:induction false} AnotherWrite(results: seq<WriteResult>, r: WriteResult)
    requires OnlyWrites(results) && (r.Written? || r.Failed?)
    ensures OnlyWrites(results + [r]) && (Failed in results + [r] <==> Failed in results || r.Failed?)
  {
  }

  ghost function LastKey(es: seq<Entry>): Option<bytes>
  {
    if es == [] then None else Some(es[|es| - 1].key)
  }

  ghost predicate AllFit(writer: StreamWriter, records: multiset<Item>)
  {
    forall x, y :: x in records && y in records ==> writer.Fits(x.key, y.value)
  }

  /** What the merge returns next can be written next. */
  lemma {:induction false} NextFits(it: MergeCompactionIterator, before: seq<Entry>, e: Entry, writer: StreamWriter)
    requires it.Valid() && it.emitted == before + [e] && AllFit(writer, it.total)
    ensures writer.Fits(e.key, e.value) && LastKey(it.emitted) == Some(e.key)
    ensures LastKey(before).Some? ==> Less(LastKey(before).value, e.key) && !Less(e.key, LastKey(before).value)
    ensures LastKey(before) != Some(e.key) && e !in before
  {
    hide MergeCompactionIterator.Valid, StreamWriter.Fits, KeysAscend, Less;
    EmittedSoFar(it);
    LastAscends(before, e);
    assert e in it.emitted;
  }

  lemma {:induction false} LastAscends(es: seq<Entry>, e: Entry)
    requires KeysAscend(es + [e])
    ensures es != [] ==> Less(es[|es| - 1].key, e.key) && !Less(e.key, es[|es| - 1].key) && es[|es| - 1].key != e.key
    ensures LastKey(es + [e]) == Some(e.key) && e !in es
  {
    hide Less;
    forall i | 0 <= i < |es| ensures es[i] != e {
      assert (es + [e])[i] == es[i] && (es + [e])[|es|] == e;
      LessTrichotomy(es[i].key, e.key);
    }
    if es != [] {
      assert (es + [e])[|es| - 1] == es[|es| - 1] && (es + [e])[|es|] == e;
      LessTrichotomy(es[|es| - 1].key, e.key);
    }
  }
}
