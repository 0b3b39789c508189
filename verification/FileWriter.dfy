/** Writing record files: append, rewind to an earlier record, and close with truncation of what lingers. */
module FileWriter {
  import opened Bytes
  import opened Varint
  import opened RecordFormat
  import opened BufferedWriter

  function Max(a: nat, b: nat): nat
  {
    if a < b then b else a
  }

  /**
   The logical file: header and records up to the current offset, and behind it only bytes that a rewind left,
   which the largest offset then covers.
   */
  ghost predicate Layout(compressionType: nat, codec: Codec, view: bytes, current: nat, largest: nat,
                         records: seq<Value>)
  {
    && compressionType < 0x1_0000_0000
    && current <= |view| <= Max(largest, current)
    && view[..current] == FileHeader(compressionType) + EncodeAll(codec, records)
  }

  /** What appending to the stream of writes does to the file around the current offset. */
  lemma {:induction false} OverlayAppend(base: bytes, start: nat, w: bytes, d: bytes)
    requires start <= |base|
    ensures var view, current, grown := Overlay(base, start, w), start + |w|, Overlay(base, start, w + d);
            && current <= |view| && grown[..current + |d|] == view[..current] + d
            && |grown| == Max(|view|, current + |d|)
  {
    var view, current, grown := Overlay(base, start, w), start + |w|, Overlay(base, start, w + d);
    assert grown[..current + |d|] == base[..start] + w + d;
    assert view[..current] == base[..start] + w;
  }

  lemma {:induction false} HeaderLaid(compressionType: nat, codec: Codec)
    requires compressionType < 0x1_0000_0000
    ensures Overlay([], 0, FileHeader(compressionType)) == FileHeader(compressionType)
    ensures Layout(compressionType, codec, FileHeader(compressionType), FILE_HEADER_SIZE, FILE_HEADER_SIZE, [])
  {
    hide FileHeader;
    assert EncodeAll(codec, []) == [];
  }

  lemma {:induction false} LayoutAppend(compressionType: nat, codec: Codec, base: bytes, start: nat, w: bytes,
                                        largest: nat, records: seq<Value>, v: Value, largest': nat)
    requires start <= |base| && Layout(compressionType, codec, Overlay(base, start, w), start + |w|, largest, records)
    requires largest' >= largest
    ensures var d := Encode(codec, v);
            Layout(compressionType, codec, Overlay(base, start, w + d), start + |w| + |d|, largest', records + [v])
  {
    hide Encode, FileHeader, Overlay;
    var d := Encode(codec, v);
    OverlayAppend(base, start, w, d);
    assert (records + [v])[..|records|] == records;
    assert EncodeAll(codec, records + [v]) == EncodeAll(codec, records) + d;
  }

  /**
   What a failure leaves: the bytes before and since the last seek make up header and records, and the file has got no
   further than that and the first record that was lost.
   */
  ghost predicate Held(compressionType: nat, codec: Codec, base: bytes, start: nat, written: bytes, supplied: bytes,
                       good: bytes, records: seq<Value>, lost: seq<Value>)
  {
    && start <= |base| && compressionType < 0x1_0000_0000 && good <= supplied && |lost| <= 1 && AllSized(codec, lost)
    && base[..start] + good == FileHeader(compressionType) + EncodeAll(codec, records)
    && written <= good + EncodeAll(codec, lost)
  }

  lemma {:induction false} AllHeld(compressionType: nat, codec: Codec, base: bytes, start: nat, written: bytes,
                                   buffered: bytes, supplied: bytes, failed: bool, largest: nat, records: seq<Value>)
    requires start <= |base| && Holds(written, buffered, supplied, failed)
    requires Layout(compressionType, codec, Overlay(base, start, supplied), start + |supplied|, largest, records)
    ensures Held(compressionType, codec, base, start, written, supplied, supplied, records, [])
  {
    hide FileHeader;
    assert Overlay(base, start, supplied)[..start + |supplied|] == base[..start] + supplied;
    assert written <= written + buffered;
    EncodeOne(codec, None);
  }

  lemma {:induction false} HeldButOne(compressionType: nat, codec: Codec, base: bytes, start: nat, before: bytes,
                                      written: bytes, buffered: bytes, good: bytes, d: bytes, failed: bool,
                                      records: seq<Value>, v: Value)
    requires Held(compressionType, codec, base, start, before, good, good, records, [])
    requires Holds(written, buffered, good + d, failed) && d <= Encode(codec, v) && Sized(codec, v)
    ensures Held(compressionType, codec, base, start, written, good + d, good, records, [v])
  {
    hide FileHeader, Encode;
    assert written <= written + buffered <= good + d <= good + Encode(codec, v);
    EncodeOne(codec, v);
  }

  lemma {:induction false} HeldFront(compressionType: nat, codec: Codec, base: bytes, start: nat, written: bytes,
                                     good: bytes, records: seq<Value>)
    requires Held(compressionType, codec, base, start, written, good, good, records, [])
    ensures Held(compressionType, codec, base, start, [], good, good, records, [])
  {
    hide FileHeader, EncodeAll;
  }

  lemma {:induction false} HeldStill(compressionType: nat, codec: Codec, base: bytes, start: nat, written: bytes,
                                     supplied: bytes, more: bytes, good: bytes, records: seq<Value>, lost: seq<Value>)
    requires Held(compressionType, codec, base, start, written, supplied, good, records, lost) && supplied <= more
    ensures Held(compressionType, codec, base, start, written, more, good, records, lost)
  {
    hide FileHeader, EncodeAll;
  }

  lemma {:induction false} LayoutRewind(compressionType: nat, codec: Codec, view: bytes, current: nat, largest: nat,
                                        records: seq<Value>, k: nat)
    requires Layout(compressionType, codec, view, current, largest, records) && k <= |records|
    ensures Boundary(codec, records, k) <= current
    ensures Layout(compressionType, codec, view, Boundary(codec, records, k), Max(largest, current), records[..k])
  {
    hide Encode, FileHeader;
    EncodeAllConcat(codec, records[..k], records[k..]);
    assert records == records[..k] + records[k..];
    var front := FileHeader(compressionType) + EncodeAll(codec, records[..k]);
    assert view[..current] == front + EncodeAll(codec, records[k..]);
    assert view[..|front|] == view[..current][..|front|] == front;
  }

  class FileWriter {
    var open: bool
    var closed: bool
    const file: File
    const bufWriter: Writer
    var largestOffset: nat
    var currentOffset: nat
    var headerOffset: nat
    const compressionType: nat
    const codec: Codec
    const recordHeaderCache: array<byte>
    ghost var records: seq<Value>  // the records that a reader is to find
    ghost var good: bytes          // what was supplied for them since the last seek
    ghost var lost: seq<Value>     // the record whose write failed first

    ghost function Parts(): set<object>
    {
      {this, bufWriter, bufWriter.buf, file, recordHeaderCache}
    }

    ghost predicate Shape()
      reads this, bufWriter, bufWriter.buf, file
    {
      && bufWriter.file == file && bufWriter.Valid()
      && recordHeaderCache != bufWriter.buf && recordHeaderCache.Length == RECORD_HEADER_MAX_SIZE
    }

    /** The file with the buffered bytes in place. */
    ghost function View(): bytes
      reads this, bufWriter, file
      requires file.start <= |file.base|
    {
      Overlay(file.base, file.start, bufWriter.supplied)
    }

    ghost predicate Valid()
      reads this, bufWriter, bufWriter.buf, file
    {
      && Shape() && open && !closed && !bufWriter.failed
      && headerOffset == FILE_HEADER_SIZE
      && currentOffset == file.start + |bufWriter.supplied|
      && Layout(compressionType, codec, View(), currentOffset, largestOffset, records)
      && good == bufWriter.supplied && lost == []
    }

    /** What a failure leaves of this. */
    ghost predicate Holding()
      reads this, bufWriter, file
    {
      Held(compressionType, codec, file.base, file.start, file.written, bufWriter.supplied, good, records, lost)
    }

    /** What every call keeps, failed or not: an open writer that has not failed is as above. */
    ghost predicate Steady()
      reads this, bufWriter, bufWriter.buf, file
    {
      Shape() && (open && !closed && !bufWriter.failed ==> Valid()) && (open || closed ==> Holding())
    }

    /** The file header has reached the file. */
    ghost predicate Headed()
      reads file
    {
      file.pos >= FILE_HEADER_SIZE
    }

    /** The file has never been rewound. */
    ghost predicate Straight()
      reads this, file
    {
      file.base == [] && file.start == 0 && largestOffset <= currentOffset
    }

    constructor (file: File, bufferSize: nat, compressionType: nat, codec: Codec)
      requires file.Valid() && file.content == [] && file.base == [] && file.start == 0 && file.written == []
      ensures Steady() && !open && !closed && !bufWriter.failed && bufWriter.supplied == []
      ensures records == [] && lost == []
      ensures this.file == file && this.codec == codec && this.compressionType == compressionType
      ensures fresh(bufWriter) && fresh(bufWriter.buf) && fresh(recordHeaderCache)
    {
      this.file := file;
      bufWriter := new Writer(file, bufferSize);
      this.compressionType, this.codec := compressionType, codec;
      recordHeaderCache := new byte[RECORD_HEADER_MAX_SIZE];
      open, closed, largestOffset, currentOffset, headerOffset, records := false, false, 0, 0, 0, [];
      good, lost := [], [];
    }

    /** Writes the file header, and flushes it so that a crash leaves a valid file. */
    method Open() returns (err: bool)
      requires Steady() && compressionType < 0x1_0000_0000
      requires !open && !closed ==> !bufWriter.failed && bufWriter.supplied == [] && file.base == [] && file.start == 0
      modifies this, bufWriter, bufWriter.buf, file
      ensures Steady() && (old(open) || old(closed) ==> err && unchanged(this, bufWriter, file))
      ensures !err ==> Valid() && records == [] && file.content == FileHeader(compressionType)
      ensures !err ==> compressionType <= COMPRESSION_TYPE_LZW && largestOffset == currentOffset
      ensures !err ==> Headed() && Straight() && lost == []
      ensures err ==> old(open) || old(closed) || compressionType > COMPRESSION_TYPE_LZW || bufWriter.failed
    {
      hide Holds, EncodeAll, FileHeader, Held, Layout, Overlay;
      if open || closed {
        return true;
      }
      var written, failed := bufWriter.Write(FileHeader(compressionType));
      if failed || compressionType > COMPRESSION_TYPE_LZW {
        return true;
      }
      currentOffset, largestOffset, headerOffset, open := written, written, written, true;
      records, good, lost := [], bufWriter.supplied, [];
      HeaderLaid(compressionType, codec);
      assert bufWriter.supplied == FileHeader(compressionType);
      err := bufWriter.Flush();
      AllHeld(compressionType, codec, file.base, file.start, file.written, bufWriter.buf[..bufWriter.n],
              bufWriter.supplied, bufWriter.failed, largestOffset, records);
    }

    /** Hands the next bytes of a record to the buffer. When that fails first, the record is lost. */
    method WriteBytes(d: bytes, ghost done: bytes, ghost record: Value) returns (n: nat, failed: bool)
      requires Shape() && done + d <= Encode(codec, record) && Sized(codec, record)
      requires bufWriter.failed ==> Holding()
      requires !bufWriter.failed ==>
                 && bufWriter.supplied == good + done
                 && Held(compressionType, codec, file.base, file.start, [], good, good, records, [])
      modifies bufWriter, bufWriter.buf, file, this`lost
      ensures Shape() && failed == bufWriter.failed && (old(bufWriter.failed) ==> failed)
      ensures bufWriter.supplied == old(bufWriter.supplied) + d
      ensures bufWriter.OnlyMore(old(file.written), old(file.start), old(file.base))
      ensures if failed then Holding() else n == |d|
      ensures lost == if failed && !old(bufWriter.failed) then [record] else old(lost)
    {
      hide Holds, Encode, Held, Sized;
      n, failed := bufWriter.Write(d);
      if old(bufWriter.failed) {
        HeldStill(compressionType, codec, file.base, file.start, file.written, old(bufWriter.supplied),
                  bufWriter.supplied, good, records, lost);
      } else if failed {
        assert good + done + d == good + (done + d);
        HeldButOne(compressionType, codec, file.base, file.start, [], file.written, bufWriter.buf[..bufWriter.n], good,
                   done + d, true, records, record);
        lost := [record];
      }
    }

    /** Header and payload as they are to be written. */
    method Prepare(record: Value) returns (header: bytes, toWrite: bytes)
      requires Sized(codec, record) && recordHeaderCache.Length == RECORD_HEADER_MAX_SIZE
      modifies recordHeaderCache
      ensures Encode(codec, record) == if record.None? then header else header + toWrite
    {
      hide RecordHeader, Encode;
      var payload := if record.None? then [] else record.value;
      toWrite := if codec.Raw? then payload else codec.compress(payload);
      header := FillRecordHeaderV3(recordHeaderCache, |payload|, if codec.Raw? then 0 else |toWrite|, record.None?);
      Encoded(codec, record, header, toWrite);
    }

    /** Appends a record; a nil record is a header only. An error of the compressor changes nothing. */
    method Write(record: Value, compressorFails: bool) returns (offset: nat, err: bool)
      requires Steady() && Sized(codec, record)
      modifies this, bufWriter, bufWriter.buf, file, recordHeaderCache
      ensures Steady() && open == old(open) && closed == old(closed)
      ensures !old(open) || old(closed) ==> err && unchanged(this, bufWriter, file)
      ensures old(open) && !old(closed) && bufWriter.failed ==> err
      ensures old(bufWriter.failed) ==> bufWriter.failed
      ensures old(open) && !old(closed) && err && !bufWriter.failed ==>
                codec.Compressed? && compressorFails && unchanged(this, bufWriter, file)
      ensures lost == if bufWriter.failed && !old(bufWriter.failed) then [record] else old(lost)
      ensures codec.Compressed? && compressorFails ==> err && unchanged(this, bufWriter, file)
      ensures !err ==> Valid() && records == old(records) + [record] && offset == old(currentOffset)
      ensures err ==> records == old(records)
      ensures currentOffset >= old(currentOffset)
      ensures largestOffset == old(largestOffset) || largestOffset == currentOffset
      ensures (old(Headed()) ==> Headed()) && (old(Straight()) ==> Straight())
    {
      hide Holds, Encode, EncodeAll, Overlay, Layout, FileHeader, Held, Sized;
      if !open || closed {
        return 0, true;
      }
      if codec.Compressed? && compressorFails {
        return 0, true;
      }
      var header, toWrite := Prepare(record);
      offset := currentOffset;
      err := Put(record, header, toWrite);
      if err {
        offset := 0;
      }
    }

    /** Hands header and payload to the buffer. */
    method Supply(record: Value, header: bytes, toWrite: bytes) returns (n: nat, failed: bool)
      requires Shape() && Sized(codec, record)
      requires Encode(codec, record) == if record.None? then header else header + toWrite
      requires bufWriter.failed ==> Holding()
      requires !bufWriter.failed ==>
                 && bufWriter.supplied == good
                 && Held(compressionType, codec, file.base, file.start, [], good, good, records, [])
      modifies bufWriter, bufWriter.buf, file, this`lost
      ensures Shape() && failed == bufWriter.failed && (old(bufWriter.failed) ==> failed)
      ensures !failed ==> n == |Encode(codec, record)|
      ensures !failed ==> bufWriter.supplied == old(bufWriter.supplied) + Encode(codec, record)
      ensures bufWriter.OnlyMore(old(file.written), old(file.start), old(file.base))
      ensures failed ==> Holding()
      ensures lost == if failed && !old(bufWriter.failed) then [record] else old(lost)
    {
      hide Holds, Encode, Held, Sized;
      n, failed := WriteBytes(header, [], record);
      if failed || record.None? {
        return;
      }
      var m;
      m, failed := WriteBytes(toWrite, header, record);
      assert old(bufWriter.supplied) + header + toWrite == old(bufWriter.supplied) + (header + toWrite);
      n := n + m;
    }

    method Put(record: Value, header: bytes, toWrite: bytes) returns (err: bool)
      requires Steady() && open && !closed && Sized(codec, record)
      requires Encode(codec, record) == if record.None? then header else header + toWrite
      modifies this, bufWriter, bufWriter.buf, file
      ensures Steady() && open && !closed && err == bufWriter.failed && (old(bufWriter.failed) ==> err)
      ensures records == if err then old(records) else old(records) + [record]
      ensures currentOffset >= old(currentOffset)
      ensures largestOffset == old(largestOffset) || largestOffset == currentOffset
      ensures bufWriter.OnlyMore(old(file.written), old(file.start), old(file.base))
      ensures lost == if err && !old(bufWriter.failed) then [record] else old(lost)
    {
      hide Holds, Encode, EncodeAll, Overlay, Layout, FileHeader, Held, Sized;
      if !bufWriter.failed {
        LayoutAppend(compressionType, codec, file.base, file.start, bufWriter.supplied, largestOffset, records, record,
                     if record.None? then largestOffset
                     else Max(largestOffset, currentOffset + |Encode(codec, record)|));
        HeldFront(compressionType, codec, file.base, file.start, file.written, good, records);
      }
      var recordBytes, failed := Supply(record, header, toWrite);
      if failed {
        return true;
      }
      currentOffset := currentOffset + recordBytes;
      if record.Some? {
        largestOffset := Max(largestOffset, currentOffset);
      }
      records, good := records + [record], bufWriter.supplied;
      AllHeld(compressionType, codec, file.base, file.start, file.written, bufWriter.buf[..bufWriter.n],
              bufWriter.supplied, bufWriter.failed, largestOffset, records);
      return false;
    }

    /** Appends a record and leaves nothing in the buffer: the file itself then holds all records. */
    method WriteSync(record: Value, compressorFails: bool) returns (offset: nat, err: bool)
      requires Steady() && Sized(codec, record)
      modifies this, bufWriter, bufWriter.buf, file, recordHeaderCache
      ensures Steady() && (!old(open) || old(closed) ==> err && unchanged(this, bufWriter, file))
      ensures !err ==> Valid() && records == old(records) + [record] && offset == old(currentOffset)
      ensures !err ==> Layout(compressionType, codec, file.content, currentOffset, largestOffset, records)
      ensures currentOffset >= old(currentOffset)
      ensures largestOffset == old(largestOffset) || largestOffset == currentOffset
      ensures open == old(open) && closed == old(closed)
      ensures records == old(records) || records == old(records) + [record]
      ensures old(open) && !old(closed) && bufWriter.failed ==> err
      ensures old(open) && !old(closed) && err && !bufWriter.failed && records == old(records) ==>
                && codec.Compressed? && compressorFails
                && largestOffset == old(largestOffset) && currentOffset == old(currentOffset)
      ensures old(open) && !old(closed) && err && !(codec.Compressed? && compressorFails) ==> !file.reliable
      ensures codec.Compressed? && compressorFails ==> err && records == old(records)
    {
      hide Holds, Encode, EncodeAll, Overlay, Layout, FileHeader, Held;
      offset, err := Write(record, compressorFails);
      if err {
        return 0, true;
      }
      err := bufWriter.Flush();
      AllHeld(compressionType, codec, file.base, file.start, file.written, bufWriter.buf[..bufWriter.n],
              bufWriter.supplied, bufWriter.failed, largestOffset, records);
      if err {
        return 0, true;
      }
      err := file.Sync();
      if err {
        offset := 0;
      }
    }

    method Size() returns (n: nat)
      ensures n == currentOffset
    {
      n := currentOffset;
    }

    /** Goes back to the start of the k-th record: the records from there on are dropped. */
    method Seek(offset: nat, ghost k: nat) returns (err: bool)
      requires Steady() && open && !closed
      requires headerOffset <= offset <= currentOffset && !bufWriter.failed ==>
                 k <= |records| && offset == Boundary(codec, records, k)
      modifies this, bufWriter, bufWriter.buf, file
      ensures Steady() && open && !closed
      ensures !(old(headerOffset) <= offset <= old(currentOffset)) ==> err && unchanged(this, bufWriter, file)
      ensures !err ==> Valid() && k <= |old(records)| && records == old(records)[..k] && currentOffset == offset
      ensures err ==> records == old(records) && (old(Straight()) ==> Straight())
      ensures (old(Headed()) ==> Headed()) && (old(bufWriter.failed) ==> err && bufWriter.failed)
      ensures err && old(headerOffset) <= offset <= old(currentOffset) ==> !file.reliable
    {
      hide Holds, EncodeAll, Overlay, Layout, FileHeader, Boundary, Held;
      if offset < headerOffset {
        return true;
      }
      if offset > currentOffset {
        return true;
      }
      if !bufWriter.failed {
        LayoutRewind(compressionType, codec, View(), currentOffset, largestOffset, records, k);
      }
      err := bufWriter.Seek(offset);
      if err {
        if !old(bufWriter.failed) {
          AllHeld(compressionType, codec, file.base, file.start, file.written, bufWriter.buf[..bufWriter.n],
                  bufWriter.supplied, bufWriter.failed, largestOffset, records);
        }
        return;
      }
      OverlayNothing(file.base, offset);
      largestOffset := Max(largestOffset, currentOffset);
      currentOffset := offset;
      records, good := records[..k], [];
      AllHeld(compressionType, codec, file.base, file.start, file.written, bufWriter.buf[..bufWriter.n],
              bufWriter.supplied, bufWriter.failed, largestOffset, records);
    }

    /** Flushes, and cuts off what an earlier rewind left behind the current offset: the file is header and records. */
    method Close() returns (err: bool)
      requires Steady() && open && !closed
      modifies this, bufWriter, bufWriter.buf, file
      ensures Steady() && closed && !open && records == old(records) && lost == old(lost)
      ensures !err ==> compressionType < 0x1_0000_0000
      ensures !err ==> file.content == FileHeader(compressionType) + EncodeAll(codec, records)
      ensures (old(bufWriter.failed) ==> err) && (old(Headed()) ==> Headed()) && (old(Straight()) ==> Straight())
      ensures err ==> !file.reliable
    {
      hide EncodeAll, Overlay, FileHeader, Holds, Held;
      closed, open := true, false;
      err := bufWriter.Flush();
      if !old(bufWriter.failed) {
        AllHeld(compressionType, codec, file.base, file.start, file.written, bufWriter.buf[..bufWriter.n],
                bufWriter.supplied, bufWriter.failed, largestOffset, records);
      }
      if err {
        return;
      }
      if largestOffset > currentOffset {
        err := file.Truncate(currentOffset);
        if err {
          return;
        }
        bufWriter.supplied, good := [], [];
        NothingHeld(bufWriter.buf[..0]);
        Truncated(compressionType, codec, file.base, file.start, records);
      }
    }
  }

  lemma {:induction false} EncodeOne(codec: Codec, v: Value)
    ensures EncodeAll(codec, [v]) == Encode(codec, v) && EncodeAll(codec, []) == []
  {
    hide Encode;
    assert [v][..0] == [];
  }

  lemma {:induction false} Truncated(compressionType: nat, codec: Codec, base: bytes, start: nat, records: seq<Value>)
    requires compressionType < 0x1_0000_0000 && start == |base|
    requires base == FileHeader(compressionType) + EncodeAll(codec, records)
    ensures Held(compressionType, codec, base, start, [], [], [], records, [])
  {
    hide EncodeAll, FileHeader;
    assert base[..start] + [] == base;
  }

  lemma {:induction false} NothingHeld(buffered: bytes)
    requires buffered == []
    ensures Holds([], buffered, [], false)
  {
  }

  lemma {:induction false} OverlayNothing(base: bytes, at: nat)
    requires at <= |base|
    ensures Overlay(base, at, []) == base
  {
  }

  lemma {:induction false} Encoded(codec: Codec, v: Value, header: bytes, stored: bytes)
    requires stored == Stored(codec, Payload(v))
    requires header == RecordHeader(|Payload(v)|, if codec.Raw? then 0 else |stored|, v.None?)
    ensures Encode(codec, v) == if v.None? then header else header + stored
  {
  }

  /** The current offset is where the next record will start. */
  lemma {:induction false} OffsetIsBoundary(compressionType: nat, codec: Codec, view: bytes, current: nat, largest: nat,
                                            records: seq<Value>)
    requires Layout(compressionType, codec, view, current, largest, records)
    ensures current == Boundary(codec, records, |records|)
  {
    assert records[..|records|] == records;
  }

  /**
   Whatever failed, a file with nothing behind its position, like one that was never rewound, is a front part of its
   header, its records and the first record that was lost; and any file agrees with header and records as far as it was
   written.
   */
  lemma {:induction false} FileHolds(w: FileWriter)
    requires w.Steady() && (w.open || w.closed)
    ensures w.compressionType < 0x1_0000_0000 && |w.lost| <= 1 && AllSized(w.codec, w.lost)
    ensures w.Straight() ==> |w.file.content| == w.file.pos
    ensures |w.file.content| == w.file.pos ==>
              w.file.content <= FileHeader(w.compressionType) + EncodeAll(w.codec, w.records + w.lost)
    ensures var full := FileHeader(w.compressionType) + EncodeAll(w.codec, w.records);
            Agree(w.file.content, full, if w.file.pos < |full| then w.file.pos else |full|)
  {
    hide FileHeader, EncodeAll, Holds, Layout, AllSized;
    var full, file := FileHeader(w.compressionType) + EncodeAll(w.codec, w.records), w.file;
    var m := if file.pos < |full| then file.pos else |full|;
    EncodeAllConcat(w.codec, w.records, w.lost);
    assert file.content[..file.pos] == file.base[..file.start] + file.written;
    assert file.base[..file.start] + file.written <= full + EncodeAll(w.codec, w.lost);
    assert file.content[..m] == file.content[..file.pos][..m];
    assert |file.content| == file.pos ==> file.content[..file.pos] == file.content;
  }

  /** Two files have their first m bytes in common. */
  ghost predicate Agree(a: bytes, b: bytes, m: nat)
  {
    m <= |a| && m <= |b| && a[..m] == b[..m]
  }

  /** A closed file reads back as the surviving records, and still does with zeros behind them. */
  lemma {:induction false} ClosedFileReadsBack(compressionType: nat, codec: Codec, records: seq<Value>, content: bytes,
                                               zeros: bytes)
    requires compressionType < 0x1_0000_0000 && Lossless(codec) && AllSized(codec, records)
    requires forall i :: 0 <= i < |zeros| ==> zeros[i] == 0
    requires content == FileHeader(compressionType) + EncodeAll(codec, records)
    ensures ReadAll(codec, (content + zeros)[FILE_HEADER_SIZE..]) == (records, EndOfFile)
  {
    hide EncodeAll, ReadAll, FileHeader;
    assert (content + zeros)[FILE_HEADER_SIZE..] == EncodeAll(codec, records) + zeros;
    ReadAllRoundTrip(codec, records, zeros);
  }
}
