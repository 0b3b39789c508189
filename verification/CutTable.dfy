/** Tables whose files were cut off by a failed write: what opening them finds, and what committing them loses. */
module CutTable {
  import opened Bytes
  import opened Tables
  import opened RecordFormat
  import opened MmapReader
  import opened SSTable
  import opened FileWriter
  import FileReader

  // ---------- opening a table ----------

  /** The entries of the records of an index file, unless one of them cannot be decoded. */
  function Unmarshalled(unmarshal: bytes -> Option<IndexEntry>, vs: seq<Bytes.Value>): Option<seq<IndexEntry>>
  {
    if vs == [] then Some([]) else
      var n := |vs| - 1;
      match (Unmarshalled(unmarshal, vs[..n]), unmarshal(Payload(vs[n])))
      case (Some(index), Some(x)) => Some(index + [x])
      case _ => None
  }

  function LoadedIndex(codecs: nat -> Codec, unmarshal: bytes -> Option<IndexEntry>,
                       content: bytes): Option<seq<IndexEntry>>
  {
    var (vs, failed) := ReadFile(codecs, content);
    if failed then None else Unmarshalled(unmarshal, vs)
  }

  /** Reads the index file to its end. */
  method LoadIndex(content: bytes, bufferSize: nat, codecs: nat -> Codec, unmarshal: bytes -> Option<IndexEntry>)
    returns (index: Option<seq<IndexEntry>>)
    requires bufferSize > 0 && CurrentVersion(content)
    ensures index == LoadedIndex(codecs, unmarshal, content)
  {
    hide ReadFile;
    var vs, failed := FileReader.ReadWhole(content, bufferSize, codecs);
    if failed {
      return None;
    }
    var entries: seq<IndexEntry> := [];
    for i := 0 to |vs|
      invariant Unmarshalled(unmarshal, vs[..i]) == Some(entries)
    {
      assert vs[..i + 1][..i] == vs[..i];
      var x := unmarshal(Payload(vs[i]));
      if x.None? {
        Undecodable(unmarshal, vs, i + 1);
        return None;
      }
      entries := entries + [x.value];
    }
    assert vs[..|vs|] == vs;
    return Some(entries);
  }

  lemma {:induction false} Undecodable(unmarshal: bytes -> Option<IndexEntry>, vs: seq<Bytes.Value>, n: nat)
    requires n <= |vs| && Unmarshalled(unmarshal, vs[..n]).None?
    ensures Unmarshalled(unmarshal, vs).None?
    decreases |vs|
  {
    if n == |vs| {
      assert vs[..n] == vs;
    } else {
      assert vs[..|vs| - 1][..n] == vs[..n];
      Undecodable(unmarshal, vs[..|vs| - 1], n);
    }
  }

  /** Decoding, record by record. */
  lemma {:induction false} UnmarshalledIff(unmarshal: bytes -> Option<IndexEntry>, vs: seq<Bytes.Value>)
    ensures Unmarshalled(unmarshal, vs).None?
        <==> exists i :: 0 <= i < |vs| && unmarshal(if vs[i].None? then [] else vs[i].value).None?
    ensures var r := Unmarshalled(unmarshal, vs);
            r.Some? ==> |r.value| == |vs| && forall i :: 0 <= i < |vs| ==>
              unmarshal(if vs[i].None? then [] else vs[i].value) == Some(r.value[i])
  {
    if vs != [] {
      UnmarshalledIff(unmarshal, vs[..|vs| - 1]);
    }
  }

  /** The index of a file cannot be loaded if and only if reading the file or decoding one of its records fails. */
  lemma {:induction false} IndexRefusedIff(codecs: nat -> Codec, unmarshal: bytes -> Option<IndexEntry>, content: bytes)
    ensures var (vs, failed) := ReadFile(codecs, content);
            LoadedIndex(codecs, unmarshal, content).None?
            <==> failed || exists i :: 0 <= i < |vs| && unmarshal(if vs[i].None? then [] else vs[i].value).None?
  {
    hide ReadFile, Unmarshalled;
    UnmarshalledIff(unmarshal, ReadFile(codecs, content).0);
  }

  /** Every entry of the index can be read, with its checksum. */
  predicate Validates(index: seq<IndexEntry>, codec: Codec, checksum: Bytes.Value -> nat, data: bytes)
  {
    forall i :: 0 <= i < |index| ==> ValueAt(codec, checksum, data, index[i]).Value?
  }

  method ValidateDataFile(index: seq<IndexEntry>, codec: Codec, checksum: Bytes.Value -> nat,
                          data: bytes) returns (ok: bool)
    ensures ok <==> Validates(index, codec, checksum, data)
  {
    hide ValueAt;
    for i := 0 to |index|
      invariant forall j :: 0 <= j < i ==> ValueAt(codec, checksum, data, index[j]).Value?
    {
      var r := ValueAt(codec, checksum, data, index[i]);
      if !r.Value? {
        return false;
      }
    }
    return true;
  }

  /** Opening a table: loading its index and validating its data file. */
  function OpenTable(codecs: nat -> Codec, unmarshal: bytes -> Option<IndexEntry>, checksum: Bytes.Value -> nat,
                     indexFile: bytes, dataFile: bytes): Option<seq<IndexEntry>>
  {
    match LoadedIndex(codecs, unmarshal, indexFile)
    case None => None
    case Some(index) =>
      if |dataFile| < FILE_HEADER_SIZE then None else
        var h := ReadFileHeader(dataFile[..FILE_HEADER_SIZE]);
        if h.Version? && Validates(index, codecs(h.compressionType), checksum, dataFile) then Some(index) else None
  }

  // ---------- entries of a data file that is cut off ----------

  /** The i-th record of a data file that is cut off is found if and only if it lies within it. */
  lemma {:induction false} CutLookup(compressionType: nat, codec: Codec, records: seq<Bytes.Value>, i: nat, m: nat)
    requires compressionType < 0x1_0000_0000 && Lossless(codec) && i < |records| && Sized(codec, records[i])
    requires m <= |FileHeader(compressionType) + EncodeAll(codec, records)|
    ensures var r := ReadNextAt(codec, (FileHeader(compressionType) + EncodeAll(codec, records))[..m],
                                Boundary(codec, records, i));
            if Boundary(codec, records, i + 1) <= m then r.Record? && r.value == records[i] else r.NoRecord?
  {
    hide FileHeader, EncodeAll, Encode, ReadRecord, Lossless, Sized, EndPoint;
    var header := FileHeader(compressionType);
    var full, b, n := header + EncodeAll(codec, records), Boundary(codec, records, i), |Encode(codec, records[i])|;
    BoundaryNext(codec, records, i);
    FileAround(codec, header, records, [], i);
    assert full + [] == full;
    var t := EncodeAll(codec, records[i + 1..]) + [];
    if b <= m {
      hide ReadNextAt;
      LookupIsScan(codec, full[..m], b);
      if b + n <= m {
        assert full[..m][b..] == Encode(codec, records[i]) + t[..m - b - n];
        RecordRoundTrip(codec, records[i], t[..m - b - n]);
      } else {
        assert full[..m][b..] == Encode(codec, records[i])[..m - b];
        CutRecord(codec, records[i], m - b);
      }
    }
  }

  /** Whatever follows it, a record within the part that agrees with the file as it should be is found. */
  lemma {:induction false} KeptLookup(compressionType: nat, codec: Codec, records: seq<Bytes.Value>, i: nat, m: nat,
                                      content: bytes)
    requires compressionType < 0x1_0000_0000 && Lossless(codec) && i < |records| && Sized(codec, records[i])
    requires Agree(content, FileHeader(compressionType) + EncodeAll(codec, records), m)
    requires Boundary(codec, records, i + 1) <= m
    ensures var r := ReadNextAt(codec, content, Boundary(codec, records, i)); r.Record? && r.value == records[i]
  {
    hide FileHeader, EncodeAll, Encode, ReadRecord, Lossless, Sized, ReadNextAt;
    var header := FileHeader(compressionType);
    var full, b, n := header + EncodeAll(codec, records), Boundary(codec, records, i), |Encode(codec, records[i])|;
    BoundaryNext(codec, records, i);
    FileAround(codec, header, records, [], i);
    assert full + [] == full;
    assert content[b..b + n] == content[..m][b..b + n] == full[b..b + n] == Encode(codec, records[i]);
    assert content[b..] == Encode(codec, records[i]) + content[b + n..];
    RecordRoundTrip(codec, records[i], content[b + n..]);
    LookupIsScan(codec, content, b);
  }

  /** A checksum that cannot tell the value from a nil value; zero stands for no checksum. */
  predicate Blind(checksum: Bytes.Value -> nat, v: Bytes.Value)
  {
    checksum(None) == checksum(v) || checksum(v) == 0
  }

  /**
   Reading one entry of a table whose data file is cut off after m bytes: it succeeds if and only if its record lies
   within the file, or starts at its very end and the checksum is blind; and it returns what was written if and only if
   the record lies within the file, or is nil and starts at the end.
   */
  lemma {:induction false} CutEntryIff(index: seq<IndexEntry>, written: seq<Entry>, at: seq<nat>, compressionType: nat,
                                       codec: Codec, records: seq<Bytes.Value>, checksum: Bytes.Value -> nat, i: nat,
                                       m: nat)
    requires compressionType < 0x1_0000_0000 && Lossless(codec) && AllSized(codec, records)
    requires Points(index, written, at, codec, records, checksum) && i < |index|
    requires m <= |FileHeader(compressionType) + EncodeAll(codec, records)|
    ensures var r := ValueAt(codec, checksum, (FileHeader(compressionType) + EncodeAll(codec, records))[..m], index[i]);
            var v := written[i].value;
            var whole, atEnd := Boundary(codec, records, at[i] + 1) <= m, m == Boundary(codec, records, at[i]);
            && (r.Value? <==> whole || (atEnd && Blind(checksum, v)))
            && (r == Value(v) <==> whole || (atEnd && v.None?))
            && (atEnd && Blind(checksum, v) ==> r == Value(None))
  {
    hide FileHeader, EncodeAll, Lossless, Sized, ReadNextAt, Boundary;
    CutLookup(compressionType, codec, records, at[i], m);
    assert PointsAt(index[i], written[i], codec, records, at[i], checksum);
    BoundaryAscends(codec, records, at[i], at[i] + 1);
  }

  /**
   In a data file that was rewound, whatever a failure left behind the part written since, the entries within it read
   back.
   */
  lemma {:induction false} KeptEntryReads(index: seq<IndexEntry>, written: seq<Entry>, at: seq<nat>,
                                          compressionType: nat, codec: Codec, records: seq<Bytes.Value>,
                                          checksum: Bytes.Value -> nat, i: nat, m: nat, data: bytes)
    requires compressionType < 0x1_0000_0000 && Lossless(codec) && AllSized(codec, records)
    requires Points(index, written, at, codec, records, checksum) && i < |index|
    requires Agree(data, FileHeader(compressionType) + EncodeAll(codec, records), m)
    requires Boundary(codec, records, at[i] + 1) <= m
    ensures ValueAt(codec, checksum, data, index[i]) == Value(written[i].value)
  {
    hide FileHeader, EncodeAll, Lossless, Sized, ReadNextAt, Boundary;
    KeptLookup(compressionType, codec, records, at[i], m, data);
    assert PointsAt(index[i], written[i], codec, records, at[i], checksum);
    BoundaryAscends(codec, records, at[i], at[i] + 1);
  }

  /** What stands at the place of the k-th record in a file that is cut off after m bytes; at its end that is nil. */
  ghost function HeldAt(codec: Codec, records: seq<Bytes.Value>, k: nat, m: nat): Option<Bytes.Value>
    requires k <= |records|
  {
    if k < |records| && Boundary(codec, records, k + 1) <= m then Some(records[k])
    else if m == Boundary(codec, records, k) then Some(None)
    else None
  }

  /** An index entry for a place, whatever stands there, reads what is held at the place if its checksum allows it. */
  lemma {:induction false} CutPlaceReads(compressionType: nat, codec: Codec, records: seq<Bytes.Value>,
                                         checksum: Bytes.Value -> nat, x: IndexEntry, k: nat, m: nat)
    requires compressionType < 0x1_0000_0000 && Lossless(codec) && AllSized(codec, records)
    requires k <= |records| && x.offset == Boundary(codec, records, k)
    requires m <= |FileHeader(compressionType) + EncodeAll(codec, records)|
    ensures var r := ValueAt(codec, checksum, (FileHeader(compressionType) + EncodeAll(codec, records))[..m], x);
            var held := HeldAt(codec, records, k, m);
            if held.None? then !r.Value? else r == Checked(checksum, x.checksum, held.value)
  {
    hide FileHeader, EncodeAll, Lossless, Sized, Checked;
    if k < |records| {
      hide Boundary, ReadNextAt;
      CutLookup(compressionType, codec, records, k, m);
      BoundaryAscends(codec, records, k, k + 1);
    } else {
      assert records[..k] == records;
    }
  }

  /** An index entry was made for the k-th record, which need not be there any more. */
  ghost predicate PlacedAt(x: IndexEntry, e: Entry, codec: Codec, records: seq<Bytes.Value>, k: nat,
                           checksum: Bytes.Value -> nat)
  {
    k <= |records| && x == IndexEntry(e.key, Boundary(codec, records, k), checksum(e.value))
  }

  /** All entries but the last one point at the record with their value; the last one can be that of a lost entry. */
  ghost predicate Pointed(index: seq<IndexEntry>, written: seq<Entry>, at: seq<nat>, codec: Codec,
                          records: seq<Bytes.Value>, checksum: Bytes.Value -> nat)
  {
    && |index| == |written| == |at| && (forall i, j :: 0 <= i < j < |at| ==> at[i] < at[j])
    && (forall i :: 0 <= i < |at| ==> PlacedAt(index[i], written[i], codec, records, at[i], checksum))
    && (forall i :: 0 <= i < |at| - 1 ==> at[i] < |records| && records[at[i]] == written[i].value)
  }

  lemma {:induction false} PointedFront(index: seq<IndexEntry>, written: seq<Entry>, at: seq<nat>, codec: Codec,
                                        records: seq<Bytes.Value>, checksum: Bytes.Value -> nat, k: nat)
    requires Pointed(index, written, at, codec, records, checksum) && k <= |index|
    ensures Pointed(index[..k], written[..k], at[..k], codec, records, checksum)
  {
    hide PlacedAt;
  }

  /** The last entry of the index passes the validation of a data file of m bytes. */
  ghost predicate LastPasses(index: seq<IndexEntry>, at: seq<nat>, codec: Codec, records: seq<Bytes.Value>,
                             checksum: Bytes.Value -> nat, m: nat)
    requires |index| == |at| && forall i :: 0 <= i < |at| ==> at[i] <= |records|
  {
    at == [] ||
    var n := |at| - 1;
    var held := HeldAt(codec, records, at[n], m);
    held.Some? && Checked(checksum, index[n].checksum, held.value).Value?
  }

  lemma {:induction false} PlacesWithin(index: seq<IndexEntry>, written: seq<Entry>, at: seq<nat>, codec: Codec,
                                        records: seq<Bytes.Value>, checksum: Bytes.Value -> nat)
    requires Pointed(index, written, at, codec, records, checksum)
    ensures forall i :: 0 <= i < |at| ==> at[i] <= |records| && index[i].offset == Boundary(codec, records, at[i])
    ensures forall i :: 0 <= i < |at| ==> index[i].checksum == checksum(written[i].value)
    ensures forall i :: 0 <= i < |at| ==> index[i].key == written[i].key
  {
    hide Boundary;
    assert forall i :: 0 <= i < |at| ==> PlacedAt(index[i], written[i], codec, records, at[i], checksum);
  }

  /** A data file that is cut off passes the validation if and only if the last entry of the index does. */
  lemma {:induction false} CutTableValidatesIff(index: seq<IndexEntry>, written: seq<Entry>, at: seq<nat>,
                                                compressionType: nat, codec: Codec, records: seq<Bytes.Value>,
                                                checksum: Bytes.Value -> nat, m: nat)
    requires compressionType < 0x1_0000_0000 && Lossless(codec) && AllSized(codec, records)
    requires Pointed(index, written, at, codec, records, checksum)
    requires m <= |FileHeader(compressionType) + EncodeAll(codec, records)|
    ensures forall i :: 0 <= i < |at| ==> at[i] <= |records|
    ensures Validates(index, codec, checksum, (FileHeader(compressionType) + EncodeAll(codec, records))[..m])
        <==> LastPasses(index, at, codec, records, checksum, m)
  {
    hide FileHeader, EncodeAll, Lossless, AllSized, Boundary, ValueAt, PlacedAt, HeldAt;
    var data := (FileHeader(compressionType) + EncodeAll(codec, records))[..m];
    PlacesWithin(index, written, at, codec, records, checksum);
    if at != [] {
      var n := |at| - 1;
      CutPlaceReads(compressionType, codec, records, checksum, index[n], at[n], m);
      if LastPasses(index, at, codec, records, checksum, m) {
        forall i | 0 <= i < |index| ensures ValueAt(codec, checksum, data, index[i]).Value? {
          if i < n {
            CutPlaceReads(compressionType, codec, records, checksum, index[i], at[i], m);
            EarlierHeld(at, codec, records, i, n, m);
          }
        }
      }
    }
  }

  lemma {:induction false} EarlierHeld(at: seq<nat>, codec: Codec, records: seq<Bytes.Value>, i: nat, n: nat, m: nat)
    requires i < n < |at| && at[i] < at[n] <= |records| && HeldAt(codec, records, at[n], m).Some?
    ensures HeldAt(codec, records, at[i], m) == Some(records[at[i]])
  {
    hide Boundary;
    if at[n] < |records| {
      BoundaryAscends(codec, records, at[n], at[n] + 1);
    }
    if at[i] + 1 < at[n] {
      BoundaryAscends(codec, records, at[i] + 1, at[n]);
    }
  }

  // ---------- opening what a failed writer left ----------

  /** How the files of a table are written and read. */
  datatype Format = Format(codecs: nat -> Codec, indexType: nat, dataType: nat, marshal: IndexEntry -> bytes,
                           unmarshal: bytes -> Option<IndexEntry>, checksum: Bytes.Value -> nat)

  ghost predicate Sound(f: Format)
  {
    && f.indexType <= COMPRESSION_TYPE_LZW && Lossless(f.codecs(f.indexType))
    && f.dataType <= COMPRESSION_TYPE_LZW && Lossless(f.codecs(f.dataType))
  }

  ghost predicate Decodes(f: Format, index: seq<IndexEntry>)
  {
    forall i :: 0 <= i < |index| ==> f.unmarshal(f.marshal(index[i])) == Some(index[i])
  }

  /** A file that is a front part of its header and records, with at least its header. */
  ghost predicate FrontOf(content: bytes, compressionType: nat, codec: Codec, records: seq<Bytes.Value>)
  {
    && compressionType < 0x1_0000_0000 && AllSized(codec, records)
    && FILE_HEADER_SIZE <= |content| && content <= FileHeader(compressionType) + EncodeAll(codec, records)
  }

  /** The files of a table of which only a front part was written. */
  ghost predicate LeftBehind(f: Format, indexFile: bytes, dataFile: bytes, index: seq<IndexEntry>, written: seq<Entry>,
                             at: seq<nat>, records: seq<Bytes.Value>)
  {
    && Sound(f) && Decodes(f, index)
    && FrontOf(indexFile, f.indexType, f.codecs(f.indexType), Marshalled(f.marshal, index))
    && FrontOf(dataFile, f.dataType, f.codecs(f.dataType), records)
    && KeysAscend(written) && Pointed(index, written, at, f.codecs(f.dataType), records, f.checksum)
  }

  /** The accepted entries of a writer, and behind them the one whose index record the failing index file lost. */
  ghost function AllIndex(w: StreamWriter): seq<IndexEntry>
    reads w
  {
    w.index + if w.lostEntry.None? then [] else [w.lostEntry.value.index]
  }

  ghost function AllEntries(w: StreamWriter): seq<Entry>
    reads w
  {
    w.written + if w.lostEntry.None? then [] else [w.lostEntry.value.entry]
  }

  ghost function AllAt(w: StreamWriter): seq<nat>
    reads w
  {
    w.at + if w.lostEntry.None? then [] else [w.lostEntry.value.at]
  }

  ghost function AllRecords(w: StreamWriter): seq<Bytes.Value>
    reads w.dataWriter
  {
    w.dataWriter.records + w.dataWriter.lost
  }

  /** The format that a writer writes, with the decoder that its files are read with. */
  ghost predicate Writes(w: StreamWriter, f: Format)
    reads w, w.dataWriter, w.indexWriter
  {
    && Sound(f) && Decodes(f, AllIndex(w)) && f.marshal == w.marshal && f.checksum == w.checksum
    && f.indexType == w.indexWriter.compressionType && f.codecs(f.indexType) == w.indexWriter.codec
    && f.dataType == w.dataWriter.compressionType && f.codecs(f.dataType) == w.dataWriter.codec
  }

  lemma {:induction false} AllPointed(index: seq<IndexEntry>, written: seq<Entry>, at: seq<nat>, codec: Codec,
                                      records: seq<Bytes.Value>, checksum: Bytes.Value -> nat, lost: LostEntry)
    requires Points(index, written, at, codec, records, checksum)
    requires LostBehind(Some(lost), written, at, codec, records, checksum)
    ensures Pointed(index + [lost.index], written + [lost.entry], at + [lost.at], codec, records, checksum)
  {
    hide Boundary, KeysAscend;
    forall i | 0 <= i < |at|
      ensures PlacedAt(index[i], written[i], codec, records, at[i], checksum) && records[at[i]] == written[i].value {
      assert PointsAt(index[i], written[i], codec, records, at[i], checksum);
    }
  }

  lemma {:induction false} PointsArePointed(index: seq<IndexEntry>, written: seq<Entry>, at: seq<nat>, codec: Codec,
                                            records: seq<Bytes.Value>, checksum: Bytes.Value -> nat)
    requires Points(index, written, at, codec, records, checksum)
    ensures Pointed(index, written, at, codec, records, checksum)
  {
    hide Boundary;
    forall i | 0 <= i < |at|
      ensures PlacedAt(index[i], written[i], codec, records, at[i], checksum) && records[at[i]] == written[i].value {
      assert PointsAt(index[i], written[i], codec, records, at[i], checksum);
    }
  }

  lemma {:induction false} LostStays(lost: Option<LostEntry>, written: seq<Entry>, at: seq<nat>, codec: Codec,
                                     records: seq<Bytes.Value>, more: seq<Bytes.Value>, checksum: Bytes.Value -> nat)
    requires LostBehind(lost, written, at, codec, records, checksum) && records <= more
    ensures LostBehind(lost, written, at, codec, more, checksum)
  {
    hide KeysAscend;
    if lost.Some? {
      assert more[..lost.value.at] == records[..lost.value.at];
    }
  }

  /** A closed writer leaves its files so, if its data file is a front part too, as it is unless it was rewound. */
  lemma {:induction false} WriterLeaves(w: StreamWriter, f: Format)
    requires Writes(w, f) && w.Leaves() && Left(w.dataWriter)
    ensures LeftBehind(f, w.indexWriter.file.content, w.dataWriter.file.content, AllIndex(w), AllEntries(w), AllAt(w),
                       AllRecords(w))
  {
    hide FileHeader, EncodeAll, KeysAscend, Points, Pointed, Sized, Sound, Decodes, Marshalled, LostBehind;
    var codec, records := w.dataWriter.codec, w.dataWriter.records;
    PointsPrefix(w.index, w.written, w.at, codec, records, AllRecords(w), w.checksum);
    LostStays(w.lostEntry, w.written, w.at, codec, records, AllRecords(w), w.checksum);
    AllMarshalled(w);
    if w.lostEntry.Some? {
      AllPointed(w.index, w.written, w.at, codec, AllRecords(w), w.checksum, w.lostEntry.value);
      LostAscends(w.lostEntry, w.written, w.at, codec, records, w.checksum);
    } else {
      assert AllIndex(w) == w.index && AllEntries(w) == w.written && AllAt(w) == w.at;
      PointsArePointed(w.index, w.written, w.at, codec, AllRecords(w), w.checksum);
    }
  }

  lemma {:induction false} LostAscends(lost: Option<LostEntry>, written: seq<Entry>, at: seq<nat>, codec: Codec,
                                       records: seq<Bytes.Value>, checksum: Bytes.Value -> nat)
    requires LostBehind(lost, written, at, codec, records, checksum) && lost.Some?
    ensures KeysAscend(written + [lost.value.entry])
  {
    hide KeysAscend;
  }

  lemma {:induction false} AllMarshalled(w: StreamWriter)
    requires Indexed(w.marshal, w.index, w.indexWriter.codec, w.indexWriter.records)
    requires LostRecord(w.lostEntry, w.marshal, w.indexWriter.lost)
    ensures Marshalled(w.marshal, AllIndex(w)) == w.indexWriter.records + w.indexWriter.lost
  {
    hide AllSized;
  }

  lemma {:induction false} UnmarshalledIs(f: Format, index: seq<IndexEntry>)
    requires Decodes(f, index)
    ensures Unmarshalled(f.unmarshal, Marshalled(f.marshal, index)) == Some(index)
  {
    if index != [] {
      var n := |index| - 1;
      UnmarshalledIs(f, index[..n]);
      assert Marshalled(f.marshal, index)[..n] == Marshalled(f.marshal, index[..n]);
      assert index == index[..n] + [index[n]] && f.unmarshal(f.marshal(index[n])) == Some(index[n]);
    }
  }

  /** Whether a file of records that is cut off after m bytes ends like a complete one. */
  ghost predicate EndsWell(codec: Codec, records: seq<Bytes.Value>, m: nat)
    requires FILE_HEADER_SIZE <= m
  {
    var k := Whole(codec, records, m);
    k == |records| || EndPoint(codec, records[k], m - Boundary(codec, records, k))
  }

  /** An index file that is cut off is loaded up to the cut, or not at all. */
  lemma {:induction false} CutIndexLoads(f: Format, content: bytes, index: seq<IndexEntry>)
    requires Sound(f) && Decodes(f, index)
    requires FrontOf(content, f.indexType, f.codecs(f.indexType), Marshalled(f.marshal, index))
    ensures var records := Marshalled(f.marshal, index);
            LoadedIndex(f.codecs, f.unmarshal, content)
            == if EndsWell(f.codecs(f.indexType), records, |content|)
               then Some(index[..Whole(f.codecs(f.indexType), records, |content|)]) else None
  {
    hide FileHeader, EncodeAll, Sized, Whole, EndPoint, ReadFile, Boundary, Lossless, Unmarshalled;
    var records := Marshalled(f.marshal, index);
    var c, full := f.codecs(f.indexType), FileHeader(f.indexType) + EncodeAll(f.codecs(f.indexType), records);
    var k := Whole(c, records, |content|);
    assert content == full[..|content|];
    CutFileReads(f.codecs, f.indexType, records, |content|);
    assert records[..k] == Marshalled(f.marshal, index[..k]);
    UnmarshalledIs(f, index[..k]);
  }

  /** How many index entries lie within an index file of m bytes. */
  ghost function LoadedCount(f: Format, index: seq<IndexEntry>, m: nat): (k: nat)
    ensures k <= |index|
  {
    Whole(f.codecs(f.indexType), Marshalled(f.marshal, index), m)
  }

  /**
   Opening what a failed writer left: it succeeds if and only if the index file ends at an end point and the last entry
   that it still holds passes, and then exactly the entries that it still holds are there.
   */
  lemma {:induction false} LeftTableOpensIff(f: Format, indexFile: bytes, dataFile: bytes, index: seq<IndexEntry>,
                                             written: seq<Entry>, at: seq<nat>, records: seq<Bytes.Value>)
    requires LeftBehind(f, indexFile, dataFile, index, written, at, records)
    ensures |index| == |written| == |at| && forall i :: 0 <= i < |at| ==> at[i] <= |records|
    ensures var k := LoadedCount(f, index, |indexFile|);
            OpenTable(f.codecs, f.unmarshal, f.checksum, indexFile, dataFile)
            == if && EndsWell(f.codecs(f.indexType), Marshalled(f.marshal, index), |indexFile|)
                  && LastPasses(index[..k], at[..k], f.codecs(f.dataType), records, f.checksum, |dataFile|)
               then Some(index[..k]) else None
  {
    hide FileHeader, EncodeAll, AllSized, Whole, EndsWell, LastPasses, Validates, ReadFileHeader, LoadedIndex,
         KeysAscend, PlacedAt, Decodes, Marshalled;
    var k, c := LoadedCount(f, index, |indexFile|), f.codecs(f.dataType);
    CutIndexLoads(f, indexFile, index);
    var full := FileHeader(f.dataType) + EncodeAll(c, records);
    assert dataFile == full[..|dataFile|];
    assert dataFile[..FILE_HEADER_SIZE] == FileHeader(f.dataType);
    FileHeaderRoundTrip(f.dataType);
    PlacesWithin(index, written, at, c, records, f.checksum);
    PointedFront(index, written, at, c, records, f.checksum, k);
    CutTableValidatesIff(index[..k], written[..k], at[..k], f.dataType, c, records, f.checksum, |dataFile|);
  }

  /** What such a table shows: each key with what is held at the place of its record. */
  ghost function Seen(index: seq<IndexEntry>, at: seq<nat>, codec: Codec, records: seq<Bytes.Value>,
                      m: nat): (r: seq<Entry>)
    requires |index| == |at| && forall i :: 0 <= i < |at| ==> at[i] <= |records|
    ensures |r| == |index| && forall i :: 0 <= i < |r| ==> r[i].key == index[i].key
  {
    seq(|index|, i requires 0 <= i < |index| => SeenAt(index[i].key, HeldAt(codec, records, at[i], m)))
  }

  function SeenAt(key: bytes, held: Option<Bytes.Value>): (e: Entry)
    ensures e.key == key
  {
    Entry(key, if held.None? then None else held.value)
  }

  /** Lookup in a cut table that passes the validation. */
  lemma {:induction false} CutTableReads(index: seq<IndexEntry>, written: seq<Entry>, at: seq<nat>,
                                         compressionType: nat, codec: Codec, records: seq<Bytes.Value>,
                                         checksum: Bytes.Value -> nat, skipHashCheck: bool, m: nat, key: bytes)
    requires compressionType < 0x1_0000_0000 && Lossless(codec) && AllSized(codec, records) && KeysAscend(written)
    requires Pointed(index, written, at, codec, records, checksum)
    requires m <= |FileHeader(compressionType) + EncodeAll(codec, records)|
    requires Validates(index, codec, checksum, (FileHeader(compressionType) + EncodeAll(codec, records))[..m])
    ensures forall i :: 0 <= i < |at| ==> at[i] <= |records|
    ensures var data := (FileHeader(compressionType) + EncodeAll(codec, records))[..m];
            var seen := AsTable(Seen(index, at, codec, records, m));
            Get(index, codec, checksum, skipHashCheck, data, key)
            == if key in seen then Value(seen[key]) else KeyMissing
  {
    hide FileHeader, EncodeAll, Lossless, AllSized, Boundary, ValueAt, RecordAt, AsTable, IndexGet, HeldAt, PlacedAt;
    PlacesWithin(index, written, at, codec, records, checksum);
    var es := Seen(index, at, codec, records, m);
    AsTableHas(es, key);
    if key in AsTable(es) {
      var i :| 0 <= i < |es| && es[i].key == key;
      assert index[i].key == key;
    }
    var x := IndexGet(index, key);
    if x.Some? {
      var i :| 0 <= i < |index| && index[i] == x.value;
      assert es[i].key == key;
      SeenAscends(index, written, at, codec, records, m);
      AsTableAt(es, i);
      CutPlaceReads(compressionType, codec, records, checksum, index[i], at[i], m);
      PassedIsRead(codec, checksum, (FileHeader(compressionType) + EncodeAll(codec, records))[..m], index[i]);
    }
  }

  lemma {:induction false} SeenAscends(index: seq<IndexEntry>, written: seq<Entry>, at: seq<nat>, codec: Codec,
                                       records: seq<Bytes.Value>, m: nat)
    requires KeysAscend(written) && |index| == |written| == |at| && forall i :: 0 <= i < |at| ==> at[i] <= |records|
    requires forall i :: 0 <= i < |at| ==> index[i].key == written[i].key
    ensures KeysAscend(Seen(index, at, codec, records, m))
  {
    hide Less, HeldAt, SeenAt;
  }

  /** Once opened, the table that a failed writer left answers exactly as that. */
  lemma {:induction false} LeftTableReads(f: Format, indexFile: bytes, dataFile: bytes, index: seq<IndexEntry>,
                                          written: seq<Entry>, at: seq<nat>, records: seq<Bytes.Value>,
                                          skipHashCheck: bool, key: bytes)
    requires LeftBehind(f, indexFile, dataFile, index, written, at, records)
    requires OpenTable(f.codecs, f.unmarshal, f.checksum, indexFile, dataFile).Some?
    ensures |index| == |written| == |at| && forall i :: 0 <= i < |at| ==> at[i] <= |records|
    ensures var k := LoadedCount(f, index, |indexFile|);
            var seen := AsTable(Seen(index[..k], at[..k], f.codecs(f.dataType), records, |dataFile|));
            Get(index[..k], f.codecs(f.dataType), f.checksum, skipHashCheck, dataFile, key)
            == if key in seen then Value(seen[key]) else KeyMissing
  {
    hide FileHeader, EncodeAll, AllSized, Whole, EndsWell, LastPasses, OpenTable, Seen, Get, AsTable, PlacedAt, Decodes,
         Marshalled;
    var k, c := LoadedCount(f, index, |indexFile|), f.codecs(f.dataType);
    LeftTableOpensIff(f, indexFile, dataFile, index, written, at, records);
    assert dataFile == (FileHeader(f.dataType) + EncodeAll(c, records))[..|dataFile|];
    PointedFront(index, written, at, c, records, f.checksum, k);
    CutTableValidatesIff(index[..k], written[..k], at[..k], f.dataType, c, records, f.checksum, |dataFile|);
    CutTableReads(index[..k], written[..k], at[..k], f.dataType, c, records, f.checksum, skipHashCheck, |dataFile|,
                  key);
  }

  /** A table that was closed without an error opens with all its entries. */
  lemma {:induction false} ClosedTableOpens(f: Format, indexFile: bytes, dataFile: bytes, index: seq<IndexEntry>,
                                            written: seq<Entry>, at: seq<nat>, records: seq<Bytes.Value>)
    requires Sound(f) && Decodes(f, index) && AllSized(f.codecs(f.indexType), Marshalled(f.marshal, index))
    requires indexFile == FileHeader(f.indexType) + EncodeAll(f.codecs(f.indexType), Marshalled(f.marshal, index))
    requires ClosedTable(index, dataFile, f.dataType, f.codecs(f.dataType), f.checksum, written, at, records)
    ensures OpenTable(f.codecs, f.unmarshal, f.checksum, indexFile, dataFile) == Some(index)
  {
    hide FileHeader, EncodeAll, AllSized, KeysAscend, Points, Pointed, OpenTable, Marshalled, Whole;
    var ic, c, ms := f.codecs(f.indexType), f.codecs(f.dataType), Marshalled(f.marshal, index);
    PointsArePointed(index, written, at, c, records, f.checksum);
    LeftTableOpensIff(f, indexFile, dataFile, index, written, at, records);
    AllWhole(ic, ms, indexFile, f.indexType);
    assert index[..|index|] == index && at[..|index|] == at;
    if at != [] {
      LastClosed(index, written, at, c, records, f.checksum, dataFile, f.dataType);
    }
  }

  lemma {:induction false} AllWhole(codec: Codec, records: seq<Bytes.Value>, content: bytes, compressionType: nat)
    requires compressionType < 0x1_0000_0000 && content == FileHeader(compressionType) + EncodeAll(codec, records)
    ensures Whole(codec, records, |content|) == |records|
  {
    hide FileHeader, EncodeAll;
    assert records[..|records|] == records;
  }

  lemma {:induction false} LastClosed(index: seq<IndexEntry>, written: seq<Entry>, at: seq<nat>, codec: Codec,
                                      records: seq<Bytes.Value>, checksum: Bytes.Value -> nat, content: bytes,
                                      compressionType: nat)
    requires Points(index, written, at, codec, records, checksum) && at != []
    requires compressionType < 0x1_0000_0000 && content == FileHeader(compressionType) + EncodeAll(codec, records)
    ensures forall i :: 0 <= i < |at| ==> at[i] <= |records|
    ensures LastPasses(index, at, codec, records, checksum, |content|)
  {
    hide FileHeader, EncodeAll;
    var n := |at| - 1;
    assert PointsAt(index[n], written[n], codec, records, at[n], checksum);
    assert records[..|records|] == records && Boundary(codec, records, |records|) == |content|;
    if at[n] + 1 < |records| {
      BoundaryAscends(codec, records, at[n] + 1, |records|);
    }
  }

  // ---------- two failing inputs ----------

  /** A format without compression whose index holds one entry. */
  function OneEntry(x: IndexEntry, checksum: Bytes.Value -> nat): Format
  {
    Format(_ => Raw, 0, 0, _ => [], _ => Some(x), checksum)
  }

  lemma {:induction false} OneEntryLeft(checksum: Bytes.Value -> nat, e: Entry, i: nat, m: nat)
    requires Sized(Raw, e.value)
    requires FILE_HEADER_SIZE <= i <= |FileHeader(0) + EncodeAll(Raw, [Some([])])|
    requires FILE_HEADER_SIZE <= m <= |FileHeader(0) + EncodeAll(Raw, [e.value])|
    ensures var x := IndexEntry(e.key, FILE_HEADER_SIZE, checksum(e.value));
            LeftBehind(OneEntry(x, checksum), (FileHeader(0) + EncodeAll(Raw, [Some([])]))[..i],
                       (FileHeader(0) + EncodeAll(Raw, [e.value]))[..m], [x], [e], [0], [e.value])
  {
    hide FileHeader, Sized;
    var x := IndexEntry(e.key, FILE_HEADER_SIZE, checksum(e.value));
    assert EncodeAll(Raw, [e.value][..0]) == [];
    assert PlacedAt(x, e, Raw, [e.value], 0, checksum);
    assert Sized(Raw, Some([])) by { EmptySized(); }
    assert Marshalled(OneEntry(x, checksum).marshal, [x]) == [Some([])];
  }

  lemma {:induction false} EmptySized()
    ensures Sized(Raw, Some([]))
  {
  }

  /** A data file cut off inside its only record keeps the table from being opened, wherever the cut lies. */
  lemma {:induction false} CutRecordKeepsFromOpening(checksum: Bytes.Value -> nat, e: Entry, n: nat)
    requires Sized(Raw, e.value) && 0 < n < |Encode(Raw, e.value)|
    ensures var f := OneEntry(IndexEntry(e.key, FILE_HEADER_SIZE, checksum(e.value)), checksum);
            var indexFile := FileHeader(0) + EncodeAll(Raw, [Some([])]);
            var dataFile := FileHeader(0) + Encode(Raw, e.value)[..n];
            OpenTable(f.codecs, f.unmarshal, f.checksum, indexFile, dataFile) == None
  {
    hide FileHeader, Encode, EncodeAll, Sized, OpenTable, Whole, EndsWell, LeftBehind;
    var x := IndexEntry(e.key, FILE_HEADER_SIZE, checksum(e.value));
    var indexFile, full := FileHeader(0) + EncodeAll(Raw, [Some([])]), FileHeader(0) + EncodeAll(Raw, [e.value]);
    var m := FILE_HEADER_SIZE + n;
    EncodeOne(Raw, e.value);
    EncodeOne(Raw, Some([]));
    assert full[..m] == FileHeader(0) + Encode(Raw, e.value)[..n] && indexFile[..|indexFile|] == indexFile;
    OneEntryLeft(checksum, e, |indexFile|, m);
    WholeOfOne(Raw, Some([]), |indexFile|);
    LeftTableOpensIff(OneEntry(x, checksum), indexFile, full[..m], [x], [e], [0], [e.value]);
    assert Marshalled(OneEntry(x, checksum).marshal, [x]) == [Some([])] && [x][..1] == [x] && [0][..1] == [0];
    BoundaryOfOne(Raw, e.value);
  }

  lemma {:induction false} BoundaryOfOne(codec: Codec, v: Bytes.Value)
    ensures Boundary(codec, [v], 0) == FILE_HEADER_SIZE
    ensures Boundary(codec, [v], 1) == FILE_HEADER_SIZE + |Encode(codec, v)|
  {
    hide Encode;
    EncodeOne(codec, v);
    assert [v][..0] == [] && [v][..1] == [v];
  }

  lemma {:induction false} WholeOfOne(codec: Codec, v: Bytes.Value, m: nat)
    requires m >= FILE_HEADER_SIZE
    ensures Whole(codec, [v], m) == if m < FILE_HEADER_SIZE + |Encode(codec, v)| then 0 else 1
  {
    hide Encode, Boundary, Whole;
    BoundaryOfOne(codec, v);
    WholeIff(codec, [v], m, 0);
  }

  /**
   An index file cut off behind its header opens as an empty table: the entry is lost, whatever the data file holds of
   it.
   */
  lemma {:induction false} CutIndexOpensEmpty(checksum: Bytes.Value -> nat, e: Entry, n: nat)
    requires Sized(Raw, e.value) && n <= |Encode(Raw, e.value)|
    ensures var f := OneEntry(IndexEntry(e.key, FILE_HEADER_SIZE, checksum(e.value)), checksum);
            var indexFile, dataFile := FileHeader(0), FileHeader(0) + Encode(Raw, e.value)[..n];
            && OpenTable(f.codecs, f.unmarshal, f.checksum, indexFile, dataFile) == Some([])
            && Get([], Raw, f.checksum, true, dataFile, e.key) == KeyMissing
  {
    hide FileHeader, Encode, EncodeAll, Sized, OpenTable, Whole, LeftBehind;
    var x := IndexEntry(e.key, FILE_HEADER_SIZE, checksum(e.value));
    var indexFile, full := FileHeader(0) + EncodeAll(Raw, [Some([])]), FileHeader(0) + EncodeAll(Raw, [e.value]);
    var m := FILE_HEADER_SIZE + n;
    EncodeOne(Raw, e.value);
    EncodeOne(Raw, Some([]));
    assert full[..m] == FileHeader(0) + Encode(Raw, e.value)[..n];
    assert indexFile[..FILE_HEADER_SIZE] == FileHeader(0);
    OneEntryLeft(checksum, e, FILE_HEADER_SIZE, m);
    WholeOfOne(Raw, Some([]), FILE_HEADER_SIZE);
    BoundaryOfOne(Raw, Some([]));
    assert Marshalled(OneEntry(x, checksum).marshal, [x]) == [Some([])];
    LeftTableOpensIff(OneEntry(x, checksum), FileHeader(0), full[..m], [x], [e], [0], [e.value]);
  }

  // ---------- committing a part of a compaction ----------

  /**
   The restart replaces the run by a table with some keys of its compaction: reads are kept if and only if for each
   entry of the compaction a newer table decides the key, or the older ones with this table on top of them hold its
   value.
   */
  lemma {:induction false} PartOfCompactionIff(older: seq<Table>, run: seq<Table>, newer: seq<Table>, all: seq<Entry>,
                                               part: seq<Entry>)
    requires KeysAscend(all) && AsTable(all) == Compacted(run)
    requires forall i :: 0 <= i < |part| ==> part[i].key in AsTable(all)
    requires TombstoneGuard(Tables.Merge(older), Tables.Merge(run), Tables.Merge(newer))
    ensures Live(Tables.Merge(older + [AsTable(part)] + newer)) == Live(Tables.Merge(older + run + newer))
        <==> forall i :: 0 <= i < |all| ==>
               StillRead(Tables.Merge(older), AsTable(part), Tables.Merge(newer), all[i].key, all[i].value)
  {
    hide Tables.Merge, Live, Compacted, AsTable, TombstoneGuard, KeysAscend, StillRead;
    var o, p, n := Tables.Merge(older), AsTable(part), Tables.Merge(newer);
    forall key | key in p ensures key in AsTable(all) {
      AsTableHas(part, key);
    }
    LossyCompactionIff(older, run, newer, p);
    forall i | 0 <= i < |all|
      ensures StillRead(o, p, n, all[i].key, all[i].value) <==> !Missed(o, AsTable(all), p, n, all[i].key) {
      AsTableAt(all, i);
    }
    forall key | Missed(o, AsTable(all), p, n, key) ensures exists i :: 0 <= i < |all| && all[i].key == key {
      AsTableHas(all, key);
    }
  }
}
