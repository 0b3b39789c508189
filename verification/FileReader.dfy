/** Reading record files in sequence, by any mix of reading and skipping records. */
module FileReader {
  import opened Bytes
  import opened Varint
  import opened RecordFormat
  import opened BufferedReader

  /** Counts the bytes delivered; resetting the reader does not reset the count. */
  class CountingReader {
    const r: Reader
    var count: nat

    ghost predicate Valid()
      reads this, r, r.rd
    {
      r.Valid()
    }

    ghost function Pending(): bytes
      requires Valid()
      reads this, r, r.buf, r.rd
    {
      r.Pending()
    }

    constructor (r: Reader)
      requires r.Valid()
      ensures Valid() && this.r == r && Pending() == r.Pending()
    {
      this.r := r;
      count := 0;
    }

    method ReadByte() returns (b: Option<byte>)
      requires Valid()
      modifies this, r, r.buf, r.rd`pos
      ensures Valid()
      ensures b.None? <==> old(Pending()) == []
      ensures b.None? ==> Pending() == [] && count == old(count)
      ensures b.Some? ==> b.value == old(Pending())[0] && Taken(old(Pending()), Pending(), 1) && count == old(count) + 1
    {
      b := r.ReadByte();
      if b.Some? {
        count := count + 1;
      }
    }

    method Read(p: array<byte>, from: nat) returns (k: nat, eof: bool)
      requires Valid() && from < p.Length && p != r.buf
      modifies this, r, r.buf, r.rd`pos, p
      ensures Valid() && from + k <= p.Length && (eof <==> old(Pending()) == []) && (k == 0 <==> eof)
      ensures Taken(old(Pending()), Pending(), k) && count == old(count) + k
      ensures p[from..from + k] == old(Pending())[..k] && p[..from] == old(p[..from])
    {
      k, eof := r.Read(p, from);
      if !eof {
        count := count + k;
      }
    }

    method Reset()
      requires r.buf.Length > 0
      modifies r
      ensures Valid() && Pending() == From(r.rd.content, r.rd.pos)
    {
      r.Reset();
    }

    /** Fills p completely, unless the file ends before. */
    method ReadFull(p: array<byte>) returns (n: nat)
      requires Valid() && p != r.buf
      modifies this, r, r.buf, r.rd`pos, p
      ensures Valid() && n <= p.Length && Taken(old(Pending()), Pending(), n) && count == old(count) + n
      ensures n == (if p.Length <= old(|Pending()|) then p.Length else old(|Pending()|))
      ensures p[..n] == old(Pending())[..n]
    {
      hide From;
      n := 0;
      var eof := false;
      while n < p.Length && !eof
        invariant Valid() && n <= p.Length && Taken(old(Pending()), Pending(), n) && count == old(count) + n
        invariant p[..n] == old(Pending())[..n] && (eof ==> Pending() == [])
        decreases p.Length - n, !eof
      {
        ghost var before := Pending();
        var k;
        k, eof := Read(p, n);
        Joined(old(Pending()), before, n, k);
        assert p[..n + k] == p[..n] + p[n..n + k];
        n := n + k;
      }
    }

    /** Reads everything that is left. */
    method ReadRemainder() returns (s: bytes)
      requires Valid()
      modifies this, r, r.buf, r.rd`pos
      ensures Valid() && s == old(Pending()) && Pending() == []
    {
      hide From;
      s := [];
      var chunk := new byte[512];
      var eof := false;
      while !eof
        invariant Valid() && Taken(old(Pending()), Pending(), |s|) && s == old(Pending())[..|s|]
        invariant eof ==> Pending() == []
        decreases |Pending()|, !eof
      {
        ghost var before := Pending();
        var k;
        k, eof := Read(chunk, 0);
        Joined(old(Pending()), before, |s|, k);
        assert chunk[..k] == chunk[0..k];
        s := s + chunk[..k];
      }
    }

    /** Decodes a varint byte by byte. */
    method ReadVarint() returns (v: VarintRead)
      requires Valid()
      modifies this, r, r.buf, r.rd`pos
      ensures Valid() && v == ReadUvarint(old(Pending()), 0)
      ensures v.Varint? ==> Taken(old(Pending()), Pending(), v.length) && count == old(count) + v.length
    {
      hide From, Reader.Pending, Reader.Valid, Combine, ReadUvarint;
      Uncombined(ReadUvarint(Pending(), 0));
      var x: nat, m: nat := 0, 1;
      for i := 0 to MAX_VARINT_LEN
        invariant Valid() && i <= old(|Pending()|) && Taken(old(Pending()), Pending(), i) && count == old(count) + i
        invariant ReadUvarint(old(Pending()), 0) == Combine(x, m, i, ReadUvarint(Pending(), i))
      {
        ghost var before := Pending();
        var b := ReadByte();
        CombineLast(x, m, i, before);
        if b.None? {
          return if i > 0 then NoVarint(UnexpectedEnd) else NoVarint(EndOfFile);
        }
        Joined(old(Pending()), before, i, 1);
        if b.value < 128 {
          if i == MAX_VARINT_LEN - 1 && b.value > 1 {
            return NoVarint(Overflow);
          }
          return Varint(x + m * b.value as nat, i + 1);
        }
        CombineStep(x, m, i, before);
        x, m := x + m * (b.value as nat - 128), m * 128;
      }
      CombineEnd(x, m, Pending());
      return NoVarint(Overflow);
    }

    /** Decodes a record header. */
    method ReadRecordHeaderV3() returns (h: HeaderRead)
      requires Valid()
      modifies this, r, r.buf, r.rd`pos
      ensures Valid() && h == ReadHeader(old(Pending()))
      ensures h.Header? ==> Taken(old(Pending()), Pending(), h.length) && count == old(count) + h.length
      ensures h.BadMagic? ==> Taken(old(Pending()), Pending(), h.consumed)
    {
      hide From, ReadUvarint, Reader.Pending, Reader.Valid;
      ghost var s := Pending();
      var magic := ReadVarint();
      if magic.NoVarint? {
        return NoHeader(magic.error);
      }
      if magic.x != MAGIC {
        return BadMagic(magic.length);
      }
      var isNil := ReadByte();
      if isNil.None? {
        return NoHeader(EndOfFile);
      }
      var n := magic.length + 1;
      assert Pending() == s[n..];
      var u := ReadVarint();
      if u.NoVarint? {
        return NoHeader(u.error);
      }
      assert Pending() == s[n + u.length..];
      var c := ReadVarint();
      if c.NoVarint? {
        return NoHeader(c.error);
      }
      return Header(u.x, c.x, isNil.value == 1, n + u.length + c.length);
    }
  }

  /** What the bytes read so far make of the rest of a varint. */
  function Combine(x: nat, m: nat, i: nat, rest: VarintRead): VarintRead
  {
    match rest
    case Varint(y, n) => Varint(x + m * y, i + n)
    case NoVarint(e) => NoVarint(e)
  }

  lemma {:induction false} Uncombined(r: VarintRead)
    ensures Combine(0, 1, 0, r) == r
  {
  }

  /** The reads that end a varint. */
  lemma {:induction false} CombineLast(x: nat, m: nat, i: nat, s: bytes)
    requires i < MAX_VARINT_LEN
    ensures s == [] ==> Combine(x, m, i, ReadUvarint(s, i)) == NoVarint(if i > 0 then UnexpectedEnd else EndOfFile)
    ensures s != [] && s[0] < 128 ==>
      Combine(x, m, i, ReadUvarint(s, i))
      == if i == MAX_VARINT_LEN - 1 && s[0] > 1 then NoVarint(Overflow) else Varint(x + m * s[0] as nat, i + 1)
  {
  }

  lemma {:induction false} CombineEnd(x: nat, m: nat, s: bytes)
    ensures Combine(x, m, MAX_VARINT_LEN, ReadUvarint(s, MAX_VARINT_LEN)) == NoVarint(Overflow)
  {
  }

  lemma {:induction false} CombineStep(x: nat, m: nat, i: nat, s: bytes)
    requires i < MAX_VARINT_LEN && s != [] && s[0] >= 128
    ensures Combine(x, m, i, ReadUvarint(s, i))
        == Combine(x + m * (s[0] as nat - 128), m * 128, i + 1, ReadUvarint(s[1..], i + 1))
  {
    var rest := ReadUvarint(s[1..], i + 1);
    if rest.Varint? {
      var d, y := s[0] as nat - 128, rest.x;
      assert m * (d + 128 * y) == m * d + (m * 128) * y;
    }
  }

  lemma {:induction false} Joined(all: bytes, before: bytes, n: nat, k: nat)
    requires Taken(all, before, n) && k <= |before|
    ensures before[k..] == all[n + k..] && all[..n] + before[..k] == all[..n + k]
  {
  }

  class FileReader {
    var open: bool
    var closed: bool
    var currentOffset: nat
    const file: InFile
    const reader: CountingReader
    const codecs: nat -> Codec  // the compressor for each compression type
    var codec: Codec
    var version: nat

    ghost predicate Shape()
      reads this, reader, reader.r, reader.r.rd
    {
      reader.r.rd == file && reader.Valid()
    }

    ghost function Pending(): bytes
      requires Shape()
      reads this, reader, reader.r, reader.r.buf, reader.r.rd
    {
      reader.Pending()
    }

    /** The reader stands at its current offset. */
    ghost predicate Aligned()
      requires Shape()
      reads this, reader, reader.r, reader.r.buf, reader.r.rd
    {
      Pending() == From(file.content, currentOffset)
    }

    constructor (file: InFile, bufferSize: nat, codecs: nat -> Codec)
      requires bufferSize > 0 && file.pos == 0
      ensures Shape() && Aligned() && !open && !closed && currentOffset == 0 && this.file == file
      ensures this.codecs == codecs
      ensures fresh(reader) && fresh(reader.r) && fresh(reader.r.buf)
    {
      this.file, this.codecs := file, codecs;
      var r := new Reader(file, bufferSize);
      reader := new CountingReader(r);
      open, closed, currentOffset, codec, version := false, false, 0, Raw, 0;
    }

    /** Reads and checks the file header. */
    method Open() returns (err: bool)
      requires Shape()
      modifies this, reader, reader.r, reader.r.buf, file`pos
      ensures Shape() && (old(open) || old(closed) ==> err && unchanged(this))
      ensures !old(open) && !old(closed) ==>
        (!err <==> |old(Pending())| >= FILE_HEADER_SIZE && ReadFileHeader(old(Pending())[..FILE_HEADER_SIZE]).Version?)
      ensures !err ==> open && !closed && currentOffset == FILE_HEADER_SIZE
      ensures !err ==> Taken(old(Pending()), Pending(), FILE_HEADER_SIZE)
      ensures !err ==> var h := ReadFileHeader(old(Pending())[..FILE_HEADER_SIZE]);
                       h.Version? && version == h.version && codec == codecs(h.compressionType)
    {
      hide From, Reader.Pending, Reader.Valid, ReadFileHeader;
      if open || closed {
        return true;
      }
      var bytes := new byte[FILE_HEADER_SIZE];
      var n := reader.ReadFull(bytes);
      if n != FILE_HEADER_SIZE {
        return true;
      }
      assert bytes[..n] == bytes[..];
      var header := ReadFileHeader(bytes[..]);
      if !header.Version? {
        return true;
      }
      version, codec := header.version, codecs(header.compressionType);
      currentOffset := FILE_HEADER_SIZE;
      open := true;
      return false;
    }

    /** Whether the rest of the file is zeros. */
    method OnlyZerosLeft() returns (zeros: bool)
      requires Shape()
      modifies reader, reader.r, reader.r.buf, file`pos
      ensures Shape() && (zeros <==> forall i :: 0 <= i < |old(Pending())| ==> old(Pending())[i] == 0)
    {
      hide From, Reader.Pending, Reader.Valid;
      ghost var rest := Pending();
      var remainder := reader.ReadRemainder();
      for i := 0 to |remainder|
        invariant forall j :: 0 <= j < i ==> remainder[j] == 0
      {
        if remainder[i] != 0 {
          assert rest[i] != 0;
          return false;
        }
      }
      return true;
    }

    /** Reads the payload that a header announces. */
    method ReadStored(h: HeaderRead, ghost all: bytes) returns (r: RecordRead)
      requires Shape() && h.Header? && Taken(all, Pending(), h.length)
      modifies reader, reader.r, reader.r.buf, file`pos
      ensures Shape() && r == ReadPayload(codec, h, all)
      ensures r.Record? ==> Taken(all, Pending(), r.length) && reader.count == old(reader.count) + r.length - h.length
      ensures r == NoRecord(Undecodable) ==>
                codec.Compressed? && Taken(all, Pending(), h.length + h.compressed)
                && reader.count == old(reader.count) + h.compressed
    {
      hide From, Reader.Pending, Reader.Valid;
      var size := if codec.Raw? then h.uncompressed else h.compressed;
      var buffer := new byte[size];
      ghost var rest := Pending();
      var n := reader.ReadFull(buffer);
      if n != size {
        return NoRecord(if n == 0 then EndOfFile else UnexpectedEnd);
      }
      assert buffer[..n] == buffer[..];
      PayloadBytes(all, rest, h.length, size);
      if codec.Raw? {
        return Record(Some(buffer[..]), h.length + size);
      }
      var decompressed := codec.decompress(buffer[..]);
      if decompressed.None? {
        return NoRecord(Undecodable);
      }
      return Record(Some(decompressed.value), h.length + size);
    }

    /** The next record; zeros up to the end of the file count as its end. */
    method ReadNext() returns (o: Outcome)
      requires Shape() && (open && !closed ==> version == CURRENT_VERSION)
      modifies this, reader, reader.r, reader.r.buf, file`pos
      ensures Shape() && open == old(open) && closed == old(closed) && version == old(version) && codec == old(codec)
      ensures !open || closed ==> o == Stopped(NotOpen) && currentOffset == old(currentOffset)
      ensures open && !closed ==>
                (o, currentOffset) == StepOn(codec, old(Pending()), old(currentOffset), ReadOp.ReadNext)
      ensures old(Aligned()) && (o.Got? || o == Stopped(Undecodable)) ==> Aligned()
    {
      hide From, Reader.Pending, Reader.Valid, ReadHeader, ReadPayload;
      if !open || closed {
        return Stopped(NotOpen);
      }
      ghost var all := Pending();
      var start := reader.count;
      var h := reader.ReadRecordHeaderV3();
      if h.BadMagic? {
        ghost var rest := Pending();
        var zeros := OnlyZerosLeft();
        assert zeros <==> AllZero(rest);
        return Stopped(if zeros then EndOfFile else MagicMismatch);
      }
      if h.NoHeader? {
        return Stopped(h.error);
      }
      if h.isNil {
        currentOffset := currentOffset + (reader.count - start);
        FurtherOn(file.content, old(currentOffset), all, h.length);
        return Got(None);
      }
      var r := ReadStored(h, all);
      if r.NoRecord? && r.error != Undecodable {
        return Stopped(r.error);
      }
      ghost var length := if r.Record? then r.length else h.length + h.compressed;
      currentOffset := currentOffset + (reader.count - start);
      FurtherOn(file.content, old(currentOffset), all, length);
      return if r.Record? then Got(r.value) else Stopped(Undecodable);
    }

    /** Passes the next record by moving the file itself; the byte count is not reset by it. */
    method SkipNext() returns (o: Outcome)
      requires Shape() && (open && !closed ==> version == CURRENT_VERSION)
      modifies this, reader, reader.r, reader.r.buf, file`pos
      ensures Shape() && open == old(open) && closed == old(closed) && version == old(version) && codec == old(codec)
      ensures !open || closed ==> o == Stopped(NotOpen) && currentOffset == old(currentOffset)
      ensures open && !closed ==>
                (o, currentOffset) == StepOn(codec, old(Pending()), old(currentOffset), ReadOp.SkipNext)
      ensures o.Passed? ==> Aligned()
    {
      hide From, Reader.Pending, ReadHeader;
      if !open || closed {
        return Stopped(NotOpen);
      }
      var start := reader.count;
      var h := reader.ReadRecordHeaderV3();
      if h.BadMagic? {
        return Stopped(MagicMismatch);
      }
      if h.NoHeader? {
        return Stopped(h.error);
      }
      var skipped := if codec.Raw? then h.uncompressed else h.compressed;
      var expectedOffset := currentOffset + skipped + (reader.count - start);
      file.Seek(expectedOffset);
      reader.Reset();
      currentOffset := expectedOffset;
      return Passed;
    }
  }

  lemma {:induction false} PayloadBytes(all: bytes, rest: bytes, n: nat, size: nat)
    requires Taken(all, rest, n) && size <= |rest|
    ensures rest[..size] == all[n..n + size] && rest[size..] == all[n + size..]
  {
  }

  lemma {:induction false} FurtherOn(content: bytes, offset: nat, pending: bytes, n: nat)
    requires n <= |pending|
    ensures pending == From(content, offset) ==> pending[n..] == From(content, offset + n)
  {
  }

  // ---------- reading a file to its end ----------

  /** What has been read and what is left make up the whole. */
  ghost predicate ReadSoFar(c: Codec, all: bytes, vs: seq<Value>, rest: bytes)
  {
    ReadAll(c, all) == (vs + ReadAll(c, rest).0, ReadAll(c, rest).1)
  }

  lemma {:induction false} ReadStarts(c: Codec, content: bytes, offset: nat)
    requires offset <= |content|
    ensures ReadSoFar(c, content[offset..], [], From(content, offset))
  {
    hide ReadAll;
    assert [] + ReadAll(c, content[offset..]).0 == ReadAll(c, content[offset..]).0;
  }

  lemma {:induction false} ReadOne(c: Codec, all: bytes, vs: seq<Value>, rest: bytes)
    requires ReadSoFar(c, all, vs, rest)
    ensures var r := ReadRecord(c, rest);
            if r.Record? then ReadSoFar(c, all, vs + [r.value], rest[r.length..]) else ReadAll(c, all) == (vs, r.error)
  {
    hide ReadRecord;
    var r := ReadRecord(c, rest);
    if r.Record? {
      var more := ReadAll(c, rest[r.length..]).0;
      assert vs + ([r.value] + more) == vs + [r.value] + more;
    } else {
      assert vs + [] == vs;
    }
  }

  lemma {:induction false} ReadMore(c: Codec, all: bytes, vs: seq<Value>, content: bytes, offset: nat)
    requires ReadSoFar(c, all, vs, From(content, offset))
    ensures var (o, next) := ReaderStep(c, content, offset, ReadNext);
            && (o.Got? ==> offset < next <= |content| && ReadSoFar(c, all, vs + [o.value], From(content, next)))
            && (o.Stopped? ==> ReadAll(c, all) == (vs, o.error))
            && !o.Passed?
  {
    hide ReadRecord, ReadAll, ReadSoFar;
    var rest := From(content, offset);
    var r := ReadRecord(c, rest);
    ReadOne(c, all, vs, rest);
    if r.Record? {
      assert rest[r.length..] == From(content, offset + r.length);
    }
  }

  /** Reads an opened file to its end. */
  method ReadToEnd(reader: FileReader) returns (vs: seq<Value>, error: ReadError)
    requires reader.Shape() && reader.open && !reader.closed && reader.version == CURRENT_VERSION
    requires reader.Aligned() && reader.currentOffset <= |reader.file.content|
    modifies reader, reader.reader, reader.reader.r, reader.reader.r.buf, reader.file`pos
    ensures (vs, error) == ReadAll(old(reader.codec), reader.file.content[old(reader.currentOffset)..])
  {
    hide ReadAll, ReadSoFar, BufferedReader.Reader.Valid, BufferedReader.Reader.Pending, StepOn, From,
         FileReader.Pending;
    ghost var all := reader.file.content[reader.currentOffset..];
    vs := [];
    ReadStarts(reader.codec, reader.file.content, reader.currentOffset);
    while true
      invariant reader.Shape() && reader.open && !reader.closed && reader.version == CURRENT_VERSION
      invariant reader.codec == old(reader.codec) && reader.Aligned() && reader.currentOffset <= |reader.file.content|
      invariant ReadSoFar(reader.codec, all, vs, From(reader.file.content, reader.currentOffset))
      decreases |reader.file.content| - reader.currentOffset
    {
      ReadMore(reader.codec, all, vs, reader.file.content, reader.currentOffset);
      var next := reader.ReadNext();
      if next.Stopped? {
        return vs, next.error;
      }
      vs := vs + [next.value];
    }
  }

  /** Opens one file and reads it to its end. */
  method ReadWhole(content: bytes, bufferSize: nat, codecs: nat -> Codec) returns (vs: seq<Value>, failed: bool)
    requires bufferSize > 0 && CurrentVersion(content)
    ensures (vs, failed) == ReadFile(codecs, content)
  {
    hide ReadAll, BufferedReader.Reader.Valid, BufferedReader.Reader.Pending, ReadFileHeader;
    var file := new BufferedReader.InFile(content);
    var reader := new FileReader(file, bufferSize, codecs);
    assert From(content, 0) == content;
    var err := reader.Open();
    if err {
      return [], true;
    }
    var error;
    vs, error := ReadToEnd(reader);
    failed := error != EndOfFile;
  }
}
