/**
 Tables whose index and data file disagree: which values are refused for their checksum, by lookup, scan and opening.
 */
module DamagedTable {
  import opened Bytes
  import opened Tables
  import opened RecordFormat
  import opened MmapReader
  import opened SSTable
  import opened CutTable

  /**
   The lookup of an index entry at whose offset some record stands, whatever lies around it: it is refused if and only
   if the checksum of the entry is another one than that of the value, and not zero; otherwise the value is returned.
   */
  lemma {:induction false} LookupRefusesIff(codec: Codec, checksum: Bytes.Value -> nat, data: bytes, x: IndexEntry,
                                            v: Bytes.Value)
    requires Lossless(codec) && Sized(codec, v) && x.offset <= |data| && Encode(codec, v) <= data[x.offset..]
    ensures ValueAt(codec, checksum, data, x) == ChecksumMismatch <==> checksum(v) != x.checksum && x.checksum != 0
    ensures checksum(v) == x.checksum || x.checksum == 0 ==> ValueAt(codec, checksum, data, x) == Value(v)
  {
    hide ReadRecord, Encode, Lossless, Sized, ReadNextAt;
    var s, n := data[x.offset..], |Encode(codec, v)|;
    assert s == Encode(codec, v) + s[n..];
    RecordRoundTrip(codec, v, s[n..]);
    LookupIsScan(codec, data, x.offset);
  }

  /** With the checks off, the value is returned in any case. */
  lemma {:induction false} LookupUnchecked(index: seq<IndexEntry>, codec: Codec, checksum: Bytes.Value -> nat,
                                           data: bytes, x: IndexEntry, v: Bytes.Value)
    requires Lossless(codec) && Sized(codec, v) && x.offset <= |data| && Encode(codec, v) <= data[x.offset..]
    requires IndexGet(index, x.key) == Some(x)
    ensures Get(index, codec, checksum, true, data, x.key) == Value(v)
    ensures Get(index, codec, checksum, false, data, x.key)
         == if checksum(v) == x.checksum || x.checksum == 0 then Value(v) else ChecksumMismatch
  {
    hide ReadRecord, Encode, Lossless, Sized, ReadNextAt;
    var s, n := data[x.offset..], |Encode(codec, v)|;
    assert s == Encode(codec, v) + s[n..];
    RecordRoundTrip(codec, v, s[n..]);
    LookupIsScan(codec, data, x.offset);
    RecordIsLong(codec, data, x.offset);
  }

  /** Once the validation has passed, the checks make no difference to any lookup, whatever the data file holds. */
  lemma {:induction false} ValidatedOnce(index: seq<IndexEntry>, codec: Codec, checksum: Bytes.Value -> nat,
                                         data: bytes, k: bytes)
    requires Validates(index, codec, checksum, data)
    ensures Get(index, codec, checksum, true, data, k) == Get(index, codec, checksum, false, data, k)
    ensures var r := Get(index, codec, checksum, true, data, k);
            if exists i :: 0 <= i < |index| && index[i].key == k then r.Value? else r.KeyMissing?
  {
    hide ValueAt, RecordAt, IndexGet;
    var x := IndexGet(index, k);
    if x.Some? {
      var i :| 0 <= i < |index| && index[i] == x.value;
      PassedIsRead(codec, checksum, data, index[i]);
    }
  }

  /** At the very end of the file an entry reads as nil, under the same condition. */
  lemma {:induction false} LookupAtEnd(codec: Codec, checksum: Bytes.Value -> nat, data: bytes, x: IndexEntry)
    requires x.offset == |data|
    ensures ValueAt(codec, checksum, data, x) == ChecksumMismatch <==> checksum(None) != x.checksum && x.checksum != 0
    ensures checksum(None) == x.checksum || x.checksum == 0 ==> ValueAt(codec, checksum, data, x) == Value(None)
  {
  }

  /** And behind the end every entry is an error. */
  lemma {:induction false} LookupBehindEnd(codec: Codec, checksum: Bytes.Value -> nat, data: bytes, x: IndexEntry)
    requires x.offset > |data|
    ensures ValueAt(codec, checksum, data, x).ReadFailed?
  {
  }

  /** The index entries lie at the records with the given numbers; their checksums may be any. */
  ghost predicate EntriesAt(index: seq<IndexEntry>, at: seq<nat>, codec: Codec, records: seq<Bytes.Value>)
  {
    && |index| == |at| && (forall i :: 0 <= i < |at| ==> at[i] < |records|)
    && (forall i :: 0 <= i < |at| ==> index[i].offset == Boundary(codec, records, at[i]))
  }

  /** Opening refuses a table if and only if some entry has a checksum that is neither zero nor that of its record. */
  lemma {:induction false} ValidationRefusesIff(index: seq<IndexEntry>, at: seq<nat>, compressionType: nat,
                                                codec: Codec, records: seq<Bytes.Value>, checksum: Bytes.Value -> nat)
    requires compressionType < 0x1_0000_0000 && Lossless(codec) && AllSized(codec, records)
    requires EntriesAt(index, at, codec, records)
    ensures Validates(index, codec, checksum, FileHeader(compressionType) + EncodeAll(codec, records))
        <==> forall i :: 0 <= i < |index| ==> checksum(records[at[i]]) == index[i].checksum || index[i].checksum == 0
  {
    hide FileHeader, EncodeAll, Lossless, Sized, Boundary, ValueAt, Encode;
    var data := FileHeader(compressionType) + EncodeAll(codec, records);
    forall i | 0 <= i < |index|
      ensures ValueAt(codec, checksum, data, index[i]).Value?
          <==> checksum(records[at[i]]) == index[i].checksum || index[i].checksum == 0 {
      RecordStands(compressionType, codec, records, at[i]);
      LookupRefusesIff(codec, checksum, data, index[i], records[at[i]]);
    }
  }

  lemma {:induction false} RecordStands(compressionType: nat, codec: Codec, records: seq<Bytes.Value>, k: nat)
    requires compressionType < 0x1_0000_0000 && k < |records|
    ensures var data, b := FileHeader(compressionType) + EncodeAll(codec, records), Boundary(codec, records, k);
            b <= |data| && Encode(codec, records[k]) <= data[b..]
  {
    hide FileHeader, Encode;
    var header := FileHeader(compressionType);
    FileAround(codec, header, records, [], k);
    var data, b, t := header + EncodeAll(codec, records), Boundary(codec, records, k),
        EncodeAll(codec, records[k + 1..]) + [];
    assert data + [] == data;
    assert data[b..] == Encode(codec, records[k]) + t;
  }

  /**
   Which two files make a table, whatever is in them: the index file can be loaded, the data file starts with an
   accepted header, and every entry is read without an error.
   */
  lemma {:induction false} OpensIff(codecs: nat -> Codec, unmarshal: bytes -> Option<IndexEntry>,
                                    checksum: Bytes.Value -> nat, indexFile: bytes, d: bytes)
    ensures var loaded, found := LoadedIndex(codecs, unmarshal, indexFile),
                OpenTable(codecs, unmarshal, checksum, indexFile, d);
            && (found.Some? ==> found == loaded)
            && (found.Some? <==>
                  && loaded.Some?
                  && |d| >= 8 && 1 <= d[0] <= 3 && d[1] == d[2] == d[3] == 0 && d[4] <= 3 && d[5] == d[6] == d[7] == 0
                  && forall i :: 0 <= i < |loaded.value| ==>
                       ValueAt(codecs(d[4] as nat), checksum, d, loaded.value[i]).Value?)
  {
    hide LoadedIndex, ValueAt, ReadFileHeader;
    if |d| >= 8 {
      HeaderAcceptedIff(d[..FILE_HEADER_SIZE]);
    }
  }

  /** So a table of two good files, with any checksums in its index, opens if and only if all of them pass. */
  lemma {:induction false} OpeningRefusesIff(f: Format, index: seq<IndexEntry>, at: seq<nat>, records: seq<Bytes.Value>)
    requires Sound(f) && Decodes(f, index) && AllSized(f.codecs(f.indexType), Marshalled(f.marshal, index))
    requires AllSized(f.codecs(f.dataType), records) && EntriesAt(index, at, f.codecs(f.dataType), records)
    ensures var indexFile := FileHeader(f.indexType) + EncodeAll(f.codecs(f.indexType), Marshalled(f.marshal, index));
            var dataFile := FileHeader(f.dataType) + EncodeAll(f.codecs(f.dataType), records);
            OpenTable(f.codecs, f.unmarshal, f.checksum, indexFile, dataFile)
            == if forall i :: 0 <= i < |index| ==>
                  f.checksum(records[at[i]]) == index[i].checksum || index[i].checksum == 0
               then Some(index) else None
  {
    hide FileHeader, EncodeAll, AllSized, Marshalled, Whole, Validates, ReadFileHeader, LoadedIndex, Boundary;
    var ic, c, ms := f.codecs(f.indexType), f.codecs(f.dataType), Marshalled(f.marshal, index);
    var indexFile, dataFile := FileHeader(f.indexType) + EncodeAll(ic, ms),
        FileHeader(f.dataType) + EncodeAll(c, records);
    CutIndexLoads(f, indexFile, index);
    AllWhole(ic, ms, indexFile, f.indexType);
    assert index[..|index|] == index;
    assert dataFile[..FILE_HEADER_SIZE] == FileHeader(f.dataType);
    FileHeaderRoundTrip(f.dataType);
    ValidationRefusesIff(index, at, f.dataType, c, records, f.checksum);
  }
}
