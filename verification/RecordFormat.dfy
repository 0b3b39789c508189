/** The record files: file header, record header and payload as bytes, and reading them back. */
module RecordFormat {
  import opened Bytes
  import opened Varint

  // ---------- file header ----------

  const CURRENT_VERSION: nat := 3
  const COMPRESSION_TYPE_LZW: nat := 3
  const FILE_HEADER_SIZE := 8

  function PutUint32(x: nat): (s: bytes)
    requires x < 0x1_0000_0000
    ensures |s| == 4
  {
    [(x % 256) as byte, (x / 0x100 % 256) as byte, (x / 0x1_0000 % 256) as byte, (x / 0x100_0000) as byte]
  }

  function Uint32(s: bytes): nat
    requires |s| == 4
  {
    s[0] as nat + 0x100 * s[1] as nat + 0x1_0000 * s[2] as nat + 0x100_0000 * s[3] as nat
  }

  function FileHeader(compressionType: nat): (s: bytes)
    requires compressionType < 0x1_0000_0000
    ensures |s| == FILE_HEADER_SIZE
  {
    PutUint32(CURRENT_VERSION) + PutUint32(compressionType)
  }

  datatype FileHeaderRead =
    | Version(version: nat, compressionType: nat)
    | SizeMismatch
    | VersionMismatch
    | UnknownCompression

  function ReadFileHeader(buffer: bytes): FileHeaderRead
  {
    if |buffer| != FILE_HEADER_SIZE then SizeMismatch else
      var version, compressionType := Uint32(buffer[..4]), Uint32(buffer[4..]);
      if version > CURRENT_VERSION || version < 1 then VersionMismatch
      else if compressionType > COMPRESSION_TYPE_LZW then UnknownCompression
      else Version(version, compressionType)
  }

  lemma {:induction false} Uint32RoundTrip(x: nat)
    requires x < 0x1_0000_0000
    ensures Uint32(PutUint32(x)) == x
  {
  }

  /** A written file header is accepted, with the version and compression it was written with. */
  lemma {:induction false} FileHeaderRoundTrip(compressionType: nat)
    requires compressionType < 0x1_0000_0000
    ensures ReadFileHeader(FileHeader(compressionType))
         == if compressionType <= COMPRESSION_TYPE_LZW then Version(CURRENT_VERSION, compressionType)
            else UnknownCompression
  {
    var s := FileHeader(compressionType);
    assert s[..4] == PutUint32(CURRENT_VERSION) && s[4..] == PutUint32(compressionType);
    Uint32RoundTrip(CURRENT_VERSION);
    Uint32RoundTrip(compressionType);
  }

  /** The bytes of a file header: the version number 3 and the compression type, the lowest byte first. */
  lemma {:induction false} FileHeaderBytes(compressionType: nat)
    requires compressionType < 0x1_0000_0000
    ensures var s := FileHeader(compressionType);
            && |s| == 8 && s[..4] == [3, 0, 0, 0]
            && compressionType == s[4] as nat + 256 * (s[5] as nat + 256 * (s[6] as nat + 256 * s[7] as nat))
  {
    Uint32RoundTrip(compressionType);
    assert PutUint32(3) == [3, 0, 0, 0];
  }

  /** Which file headers are accepted: eight bytes with a version from 1 to 3 and a compression type up to 3. */
  lemma {:induction false} HeaderAcceptedIff(s: bytes)
    ensures ReadFileHeader(s).Version?
        <==> && |s| == 8 && 1 <= s[0] <= 3 && s[1] == s[2] == s[3] == 0 && s[4] <= 3 && s[5] == s[6] == s[7] == 0
    ensures ReadFileHeader(s).Version? ==> ReadFileHeader(s) == Version(s[0] as nat, s[4] as nat)
  {
    if |s| == 8 {
      assert s[..4][0] == s[0] && s[..4][1] == s[1] && s[..4][2] == s[2] && s[..4][3] == s[3];
      assert s[4..][0] == s[4] && s[4..][1] == s[5] && s[4..][2] == s[6] && s[4..][3] == s[7];
    }
  }

  // ---------- record header ----------

  const MAGIC: nat := 0x130691
  const MAGIC_BYTES: bytes := [0x91, 0x8d, 0x4c]
  const RECORD_HEADER_MAX_SIZE := 31

  lemma {:induction false} MagicIsVarint()
    ensures Uvarint(MAGIC) == MAGIC_BYTES
  {
    assert Uvarint(MAGIC / 128 / 128) == [0x4c];
    assert Uvarint(MAGIC / 128) == [0x8d] + [0x4c];
  }

  function RecordHeader(uncompressed: nat, compressed: nat, isNil: bool): bytes
  {
    Uvarint(MAGIC) + [if isNil then 1 else 0] + Uvarint(uncompressed) + Uvarint(compressed)
  }

  /** Fills a record header into the buffer that the writer reuses; its 31 bytes always suffice. */
  method FillRecordHeaderV3(buf: array<byte>, uncompressed: nat, compressed: nat, isNil: bool) returns (header: bytes)
    requires buf.Length >= RECORD_HEADER_MAX_SIZE && uncompressed < UINT64_LIMIT && compressed < UINT64_LIMIT
    modifies buf
    ensures header == RecordHeader(uncompressed, compressed, isNil)
  {
    hide Uvarint, ReadUvarint;
    VarintRoundTrip(MAGIC, []);
    VarintRoundTrip(uncompressed, []);
    VarintRoundTrip(compressed, []);
    var off := PutUvarint(buf, 0, MAGIC);
    ghost var magic := buf[..off];
    buf[off] := if isNil then 1 else 0;
    off := off + 1;
    assert buf[..off] == magic + [if isNil then 1 else 0];
    var n := PutUvarint(buf, off, uncompressed);
    off := off + n;
    n := PutUvarint(buf, off, compressed);
    off := off + n;
    header := buf[..off];
  }

  datatype HeaderRead =
    | Header(uncompressed: nat, compressed: nat, isNil: bool, length: nat)
    | BadMagic(consumed: nat)
    | NoHeader(error: ReadError)

  function ReadHeader(s: bytes): (r: HeaderRead)
    ensures r.Header? ==> 4 <= r.length <= |s| && r.length <= RECORD_HEADER_MAX_SIZE
    ensures r.BadMagic? ==> r.consumed <= |s|
    ensures r.NoHeader? ==> !r.error.Undecodable?
  {
    match ReadUvarint(s, 0)
    case NoVarint(e) => NoHeader(e)
    case Varint(magic, n) =>
      if magic != MAGIC then BadMagic(n)
      else if |s| == n then NoHeader(EndOfFile)
      else ReadSizes(s, s[n] == 1, n + 1)
  }

  function ReadSizes(s: bytes, isNil: bool, n: nat): (r: HeaderRead)
    requires n <= |s|
    ensures r.Header? ==> n + 2 <= r.length <= |s| && r.length <= n + 2 * MAX_VARINT_LEN
    ensures !r.BadMagic? && (r.NoHeader? ==> !r.error.Undecodable?)
  {
    match ReadUvarint(s[n..], 0)
    case NoVarint(e) => NoHeader(e)
    case Varint(u, nu) =>
      match ReadUvarint(s[n + nu..], 0)
      case NoVarint(e) => NoHeader(e)
      case Varint(c, nc) => Header(u, c, isNil, n + nu + nc)
  }

  lemma {:induction false} SizesRoundTrip(pre: bytes, u: nat, c: nat, isNil: bool, t: bytes)
    requires u < UINT64_LIMIT && c < UINT64_LIMIT
    ensures ReadSizes(pre + Uvarint(u) + Uvarint(c) + t, isNil, |pre|)
        == Header(u, c, isNil, |pre| + |Uvarint(u)| + |Uvarint(c)|)
  {
    hide Uvarint, ReadUvarint;
    var s := pre + Uvarint(u) + Uvarint(c) + t;
    VarintRoundTrip(u, Uvarint(c) + t);
    VarintRoundTrip(c, t);
    assert s[|pre|..] == Uvarint(u) + (Uvarint(c) + t);
    assert s[|pre| + |Uvarint(u)|..] == Uvarint(c) + t;
  }

  lemma {:induction false} HeaderRoundTrip(u: nat, c: nat, isNil: bool, t: bytes)
    requires u < UINT64_LIMIT && c < UINT64_LIMIT
    ensures ReadHeader(RecordHeader(u, c, isNil) + t) == Header(u, c, isNil, |RecordHeader(u, c, isNil)|)
  {
    hide Uvarint, ReadUvarint;
    var m, b := Uvarint(MAGIC), [if isNil then 1 else 0 as byte];
    var s := RecordHeader(u, c, isNil) + t;
    VarintRoundTrip(MAGIC, b + Uvarint(u) + Uvarint(c) + t);
    assert s == m + (b + Uvarint(u) + Uvarint(c) + t);
    assert s[|m|] == b[0];
    assert s == (m + b) + Uvarint(u) + Uvarint(c) + t;
    SizesRoundTrip(m + b, u, c, isNil, t);
  }

  /** The byte behind the marker tells a nil record if and only if it is 1. */
  lemma {:induction false} NilMarkerIff(b: byte, u: nat, c: nat, t: bytes)
    requires u < UINT64_LIMIT && c < UINT64_LIMIT
    ensures var h := MAGIC_BYTES + [b] + Uvarint(u) + Uvarint(c);
            ReadHeader(h + t) == Header(u, c, b == 1, |h|)
  {
    hide Uvarint, ReadUvarint;
    var m := Uvarint(MAGIC);
    MagicIsVarint();
    var s := m + [b] + Uvarint(u) + Uvarint(c) + t;
    VarintRoundTrip(MAGIC, [b] + Uvarint(u) + Uvarint(c) + t);
    assert s == m + ([b] + Uvarint(u) + Uvarint(c) + t);
    assert s[|m|] == b;
    assert s == (m + [b]) + Uvarint(u) + Uvarint(c) + t;
    SizesRoundTrip(m + [b], u, c, b == 1, t);
  }

  /** The fixed window that the random access reader looks at is wide enough for every header. */
  lemma {:induction false} HeaderFromWindow(s: bytes, n: nat)
    requires ReadHeader(s).Header? && ReadHeader(s).length <= n <= |s|
    ensures ReadHeader(s[..n]) == ReadHeader(s)
  {
    hide ReadUvarint;
    var w := s[..n];
    var m := ReadUvarint(s, 0).length;
    ReadFromPrefix(s, n, 0);
    var u := ReadUvarint(s[m + 1..], 0).length;
    assert w[m + 1..] == s[m + 1..][..n - m - 1];
    ReadFromPrefix(s[m + 1..], n - m - 1, 0);
    assert w[m + 1 + u..] == s[m + 1 + u..][..n - m - 1 - u];
    ReadFromPrefix(s[m + 1 + u..], n - m - 1 - u, 0);
  }

  // ---------- records ----------

  /** The compressor is a parameter; without one, payloads are stored as they are. */
  datatype Codec = Raw | Compressed(compress: bytes -> bytes, decompress: bytes -> Option<bytes>)

  ghost predicate Lossless(c: Codec)
  {
    c.Compressed? ==> forall x :: c.decompress(c.compress(x)) == Some(x)
  }

  function Stored(c: Codec, r: bytes): bytes
  {
    if c.Raw? then r else c.compress(r)
  }

  function Payload(v: Value): bytes
  {
    if v.None? then [] else v.value
  }

  /** Sizes are 64-bit numbers. */
  predicate Sized(c: Codec, v: Value)
  {
    |Payload(v)| < UINT64_LIMIT && |Stored(c, Payload(v))| < UINT64_LIMIT
  }

  /** The header announces the size of the compressed payload even for a nil record, which has no payload. */
  function HeaderOf(c: Codec, v: Value): bytes
  {
    RecordHeader(|Payload(v)|, if c.Raw? then 0 else |Stored(c, Payload(v))|, v.None?)
  }

  function Encode(c: Codec, v: Value): (s: bytes)
    ensures |s| >= 4
  {
    HeaderOf(c, v) + if v.None? then [] else Stored(c, v.value)
  }

  datatype RecordRead = Record(value: Value, length: nat) | NoRecord(error: ReadError)

  predicate AllZero(s: bytes)
  {
    forall i :: 0 <= i < |s| ==> s[i] == 0
  }

  /** The payload behind a header of n bytes. */
  function ReadPayload(c: Codec, h: HeaderRead, s: bytes): (r: RecordRead)
    requires h.Header? && h.length <= |s|
    ensures r.Record? ==> h.length <= r.length <= |s|
  {
    var size := if c.Raw? then h.uncompressed else h.compressed;
    if h.length + size > |s| then NoRecord(if h.length == |s| then EndOfFile else UnexpectedEnd)
    else
      var stored := s[h.length..h.length + size];
      if c.Raw? then Record(Some(stored), h.length + size)
      else match c.decompress(stored)
        case None => NoRecord(Undecodable)
        case Some(x) => Record(Some(x), h.length + size)
  }

  /**
   What the sequential reader makes of the bytes it has left. Zeros up to the end of the file are the end of the file.
   */
  function ReadRecord(c: Codec, s: bytes): (r: RecordRead)
    ensures r.Record? ==> 4 <= r.length <= |s|
  {
    match ReadHeader(s)
    case NoHeader(e) => NoRecord(e)
    case BadMagic(n) => NoRecord(if AllZero(s[n..]) then EndOfFile else MagicMismatch)
    case Header(u, z, isNil, n) => if isNil then Record(None, n) else ReadPayload(c, Header(u, z, isNil, n), s)
  }

  /** A record is read back as it was written, nil as nil and empty as empty, and nothing behind it is consumed. */
  lemma {:induction false} RecordRoundTrip(c: Codec, v: Value, t: bytes)
    requires Lossless(c) && Sized(c, v)
    ensures ReadRecord(c, Encode(c, v) + t) == Record(v, |Encode(c, v)|)
  {
    hide ReadHeader, RecordHeader;
    var s := Encode(c, v) + t;
    var size := if c.Raw? then 0 else |Stored(c, Payload(v))|;
    var rest := if v.None? then t else Stored(c, v.value) + t;
    HeaderRoundTrip(|Payload(v)|, size, v.None?, rest);
    assert s == HeaderOf(c, v) + rest;
    if v.Some? {
      var h := |HeaderOf(c, v)|;
      assert s[h..h + |Stored(c, v.value)|] == Stored(c, v.value);
    }
  }

  /** A payload that cannot be decompressed is an error, whatever follows it. */
  lemma {:induction false} UndecodableFails(c: Codec, u: nat, stored: bytes, t: bytes)
    requires c.Compressed? && c.decompress(stored).None? && u < UINT64_LIMIT && |stored| < UINT64_LIMIT
    ensures ReadRecord(c, RecordHeader(u, |stored|, false) + stored + t) == NoRecord(Undecodable)
  {
    hide ReadHeader, RecordHeader;
    var h := RecordHeader(u, |stored|, false);
    HeaderRoundTrip(u, |stored|, false, stored + t);
    assert h + stored + t == h + (stored + t);
    assert (h + stored + t)[|h|..|h| + |stored|] == stored;
  }

  // ---------- sequences of records ----------

  function EncodeAll(c: Codec, vs: seq<Value>): bytes
  {
    if vs == [] then [] else EncodeAll(c, vs[..|vs| - 1]) + Encode(c, vs[|vs| - 1])
  }

  ghost predicate AllSized(c: Codec, vs: seq<Value>)
  {
    forall i :: 0 <= i < |vs| ==> Sized(c, vs[i])
  }

  lemma {:induction false} EncodeAllConcat(c: Codec, a: seq<Value>, b: seq<Value>)
    ensures EncodeAll(c, a + b) == EncodeAll(c, a) + EncodeAll(c, b)
  {
    hide Encode;
    if b == [] {
      assert a + b == a;
    } else {
      var n := |b| - 1;
      assert (a + b)[..|a + b| - 1] == a + b[..n];
      EncodeAllConcat(c, a, b[..n]);
    }
  }

  /** Everything that the sequential reader returns, and how it ends. */
  function ReadAll(c: Codec, s: bytes): (seq<Value>, ReadError)
    decreases |s|
  {
    match ReadRecord(c, s)
    case NoRecord(e) => ([], e)
    case Record(v, n) => var (vs, e) := ReadAll(c, s[n..]); ([v] + vs, e)
  }

  lemma {:induction false} ZerosAreTheEnd(c: Codec, zeros: bytes)
    requires forall i :: 0 <= i < |zeros| ==> zeros[i] == 0
    ensures ReadRecord(c, zeros) == NoRecord(EndOfFile)
  {
  }

  /**
   Where no record marker stands, the reader looks at all bytes behind the number it found there: the file ends if and
   only if they are zeros, and otherwise reading fails.
   */
  lemma {:induction false} BadMarkerReads(c: Codec, s: bytes)
    requires ReadUvarint(s, 0).Varint? && ReadUvarint(s, 0).x != 0x130691
    ensures ReadRecord(c, s) == NoRecord(MagicMismatch)
        <==> exists i :: ReadUvarint(s, 0).length <= i < |s| && s[i] != 0
    ensures ReadRecord(c, s) == NoRecord(EndOfFile)
        <==> forall i :: ReadUvarint(s, 0).length <= i < |s| ==> s[i] == 0
  {
    hide ReadUvarint;
    var n := ReadUvarint(s, 0).length;
    if AllZero(s[n..]) {
      forall i | n <= i < |s| ensures s[i] == 0 {
        assert s[n..][i - n] == s[i];
      }
    } else {
      var j :| 0 <= j < |s[n..]| && s[n..][j] != 0;
      assert s[n + j] != 0;
    }
  }

  // ---------- records that are cut off ----------

  /** Where a record of the given header can be cut off so that the reader sees the end of the file. */
  predicate EndPoint(c: Codec, v: Value, n: nat)
  {
    || n == 0 || n == |Uvarint(MAGIC)| || n == |Uvarint(MAGIC)| + 1
    || n == |Uvarint(MAGIC)| + 1 + |Uvarint(|Payload(v)|)| || n == |HeaderOf(c, v)|
  }

  lemma {:induction false} CutVarintBehind(pre: bytes, x: nat, n: nat)
    requires x < UINT64_LIMIT && n < |Uvarint(x)|
    ensures (pre + Uvarint(x)[..n])[|pre|..] == Uvarint(x)[..n]
    ensures ReadUvarint(Uvarint(x)[..n], 0) == NoVarint(if n > 0 then UnexpectedEnd else EndOfFile)
  {
    LimitIsUint64();
    CutVarint(x, n, 0);
  }

  lemma {:induction false} CutSizes(pre: bytes, u: nat, c: nat, isNil: bool, n: nat)
    requires u < UINT64_LIMIT && c < UINT64_LIMIT && |pre| <= n < |pre| + |Uvarint(u)| + |Uvarint(c)|
    ensures ReadSizes((pre + Uvarint(u) + Uvarint(c))[..n], isNil, |pre|)
         == NoHeader(if n == |pre| || n == |pre| + |Uvarint(u)| then EndOfFile else UnexpectedEnd)
  {
    hide Uvarint, ReadUvarint;
    var s := (pre + Uvarint(u) + Uvarint(c))[..n];
    var m := |pre| + |Uvarint(u)|;
    if n < m {
      CutVarintBehind(pre, u, n - |pre|);
      assert s == pre + Uvarint(u)[..n - |pre|];
    } else {
      CutVarintBehind(pre + Uvarint(u), c, n - m);
      VarintRoundTrip(u, Uvarint(c)[..n - m]);
      assert s == pre + Uvarint(u) + Uvarint(c)[..n - m];
      assert s[|pre|..] == Uvarint(u) + Uvarint(c)[..n - m];
      assert s[m..] == Uvarint(c)[..n - m];
    }
  }

  lemma {:induction false} CutHeader(u: nat, c: nat, isNil: bool, n: nat)
    requires u < UINT64_LIMIT && c < UINT64_LIMIT && n < |RecordHeader(u, c, isNil)|
    ensures var m := |Uvarint(MAGIC)|;
            ReadHeader(RecordHeader(u, c, isNil)[..n])
            == NoHeader(if n == 0 || n == m || n == m + 1 || n == m + 1 + |Uvarint(u)| then EndOfFile
                        else UnexpectedEnd)
  {
    hide Uvarint, ReadUvarint, ReadSizes;
    var magic, b := Uvarint(MAGIC), [if isNil then 1 else 0 as byte];
    var s := RecordHeader(u, c, isNil)[..n];
    if n < |magic| {
      CutVarintBehind([], MAGIC, n);
      assert s == magic[..n];
    } else {
      VarintRoundTrip(MAGIC, s[|magic|..]);
      assert s == magic + s[|magic|..];
      if n > |magic| {
        assert s[|magic|] == b[0];
        assert s == (magic + b + Uvarint(u) + Uvarint(c))[..n];
        CutSizes(magic + b, u, c, isNil, n);
      }
    }
  }

  /**
   A record that is cut off is never read as a record: the reader ends at the end points and fails everywhere else.
   */
  lemma {:induction false} CutRecord(c: Codec, v: Value, n: nat)
    requires Sized(c, v) && n < |Encode(c, v)|
    ensures ReadRecord(c, Encode(c, v)[..n]) == NoRecord(if EndPoint(c, v, n) then EndOfFile else UnexpectedEnd)
  {
    hide ReadHeader, RecordHeader, Uvarint;
    var size := if c.Raw? then 0 else |Stored(c, Payload(v))|;
    var h := |HeaderOf(c, v)|;
    HeaderLength(|Payload(v)|, size, v.None?);
    if n < h {
      CutHeader(|Payload(v)|, size, v.None?, n);
      assert Encode(c, v)[..n] == HeaderOf(c, v)[..n];
    } else {
      HeaderRoundTrip(|Payload(v)|, size, v.None?, Stored(c, v.value)[..n - h]);
      assert Encode(c, v)[..n] == HeaderOf(c, v) + Stored(c, v.value)[..n - h];
    }
  }

  lemma {:induction false} HeaderLength(u: nat, c: nat, isNil: bool)
    ensures |RecordHeader(u, c, isNil)| == |Uvarint(MAGIC)| + 1 + |Uvarint(u)| + |Uvarint(c)|
  {
  }

  lemma {:induction false} ReadAllOne(c: Codec, v: Value, t: bytes)
    requires Lossless(c) && Sized(c, v)
    ensures ReadAll(c, Encode(c, v) + t) == ([v] + ReadAll(c, t).0, ReadAll(c, t).1)
  {
    hide ReadRecord, Encode, Lossless, Sized;
    RecordRoundTrip(c, v, t);
    assert (Encode(c, v) + t)[|Encode(c, v)|..] == t;
  }

  /** The records of a file are read whatever follows them. */
  lemma {:induction false} ReadAllAhead(c: Codec, vs: seq<Value>, t: bytes)
    requires Lossless(c) && AllSized(c, vs)
    ensures ReadAll(c, EncodeAll(c, vs) + t) == (vs + ReadAll(c, t).0, ReadAll(c, t).1)
  {
    hide ReadAll, Encode, Lossless, Sized;
    if vs == [] {
      assert EncodeAll(c, vs) + t == t && vs + ReadAll(c, t).0 == ReadAll(c, t).0;
    } else {
      var n := |vs| - 1;
      var rest := Encode(c, vs[n]) + t;
      assert EncodeAll(c, vs) + t == EncodeAll(c, vs[..n]) + rest;
      ReadAllAhead(c, vs[..n], rest);
      ReadAllOne(c, vs[n], t);
      assert vs + ReadAll(c, t).0 == vs[..n] + ([vs[n]] + ReadAll(c, t).0);
    }
  }

  /** A file of records reads back as exactly these records, with any number of zeros behind them. */
  lemma {:induction false} ReadAllRoundTrip(c: Codec, vs: seq<Value>, zeros: bytes)
    requires Lossless(c) && AllSized(c, vs) && forall i :: 0 <= i < |zeros| ==> zeros[i] == 0
    ensures ReadAll(c, EncodeAll(c, vs) + zeros) == (vs, EndOfFile)
  {
    hide ReadRecord, Lossless, AllSized, EncodeAll;
    ZerosAreTheEnd(c, zeros);
    assert ReadAll(c, zeros) == ([], EndOfFile);
    ReadAllAhead(c, vs, zeros);
    assert vs + [] == vs;
  }

  /**
   A file whose last record is cut off anywhere: exactly the records before it are read, and the file ends without
   an error if and only if the cut lies at an end point.
   */
  lemma {:induction false} TornFileReadsBack(c: Codec, vs: seq<Value>, v: Value, n: nat)
    requires Lossless(c) && AllSized(c, vs) && Sized(c, v) && n < |Encode(c, v)|
    ensures ReadAll(c, EncodeAll(c, vs) + Encode(c, v)[..n])
        == (vs, if EndPoint(c, v, n) then EndOfFile else UnexpectedEnd)
  {
    hide Encode, Lossless, Sized, EncodeAll, EndPoint, ReadRecord;
    var t := Encode(c, v)[..n];
    CutRecord(c, v, n);
    assert ReadAll(c, t) == ([], ReadRecord(c, t).error);
    ReadAllAhead(c, vs, t);
    assert vs + [] == vs;
  }

  // ---------- skipping, and mixed runs of reading and skipping ----------

  datatype SkipRead = Skipped(length: nat) | NotSkipped(error: ReadError)

  /** What skipping makes of the bytes left. It neither looks at the nil marker nor accepts zeros as an end. */
  function SkipRecord(c: Codec, s: bytes): SkipRead
  {
    match ReadHeader(s)
    case NoHeader(e) => NotSkipped(e)
    case BadMagic(n) => NotSkipped(MagicMismatch)
    case Header(u, z, isNil, n) => Skipped(n + if c.Raw? then u else z)
  }

  /** Skipping passes exactly one record, unless the record is nil and the compressor makes something of nothing. */
  lemma {:induction false} SkipPassesRecord(c: Codec, v: Value, t: bytes)
    requires Sized(c, v)
    ensures SkipRecord(c, Encode(c, v) + t) == Skipped(|Encode(c, v)|) <==> (v.None? ==> Stored(c, []) == [])
  {
    hide ReadHeader, RecordHeader;
    var size := if c.Raw? then 0 else |Stored(c, Payload(v))|;
    var rest := if v.None? then t else Stored(c, v.value) + t;
    HeaderRoundTrip(|Payload(v)|, size, v.None?, rest);
    assert Encode(c, v) + t == HeaderOf(c, v) + rest;
  }

  /** A lossless compressor that turns nothing into one byte. */
  function Prefixing(): Codec
  {
    Compressed((x: bytes) => [0] + x, (y: bytes) => if y == [] then None else Some(y[1..]))
  }

  lemma {:induction false} PrefixingIsLossless()
    ensures Lossless(Prefixing())
  {
    var c := Prefixing();
    forall x: bytes ensures c.decompress(c.compress(x)) == Some(x) {
      assert ([0] + x)[1..] == x;
    }
  }

  lemma {:induction false} PrefixedBytes()
    ensures Encode(Prefixing(), None) == [0x91, 0x8d, 0x4c, 1, 0, 1]
    ensures Encode(Prefixing(), Some([1])) == [0x91, 0x8d, 0x4c, 0, 1, 2, 0, 1]
  {
    MagicIsVarint();
    assert Uvarint(0) == [0] && Uvarint(1) == [1] && Uvarint(2) == [2];
    assert Prefixing().compress([]) == [0] && Prefixing().compress([1]) == [0, 1];
  }

  lemma {:induction false} MisplacedRead()
    ensures ReadRecord(Prefixing(), [0x8d, 0x4c, 0, 1, 2, 0, 1]) == NoRecord(MagicMismatch)
  {
    var s: bytes := [0x8d, 0x4c, 0, 1, 2, 0, 1];
    assert s[1..][0] == 0x4c;
    assert ReadUvarint(s[1..], 1) == Varint(0x4c, 1);
    assert ReadHeader(s) == BadMagic(2);
    assert s[2..][1] == 1;
  }

  /**
   Skipping a nil record of such a file lands one byte inside the next record, and the read after it fails on a good
   file.
   */
  lemma {:induction false} SkippedNilMisleads()
    ensures var c, v: Value := Prefixing(), Some([1]);
            var file, next := Encode(c, None) + Encode(c, v), |Encode(c, None)|;
            && Lossless(c) && ReadRecord(c, file[next..]) == Record(v, |Encode(c, v)|)
            && SkipRecord(c, file) == Skipped(next + 1)
            && ReadRecord(c, file[next + 1..]) == NoRecord(MagicMismatch)
  {
    hide Encode, ReadRecord, ReadHeader, Lossless, RecordHeader;
    var c, v: Value := Prefixing(), Some([1]);
    PrefixingIsLossless();
    PrefixedBytes();
    MisplacedRead();
    RecordRoundTrip(c, v, []);
    HeaderRoundTrip(0, 1, true, Encode(c, v));
    var file := Encode(c, None) + Encode(c, v);
    assert file[6..] == Encode(c, v) + [];
    assert file[7..] == [0x8d, 0x4c, 0, 1, 2, 0, 1];
    NilIsItsHeader();
  }

  lemma {:induction false} NilIsItsHeader()
    ensures Encode(Prefixing(), None) == RecordHeader(0, 1, true)
  {
  }

  datatype ReadOp = ReadNext | SkipNext

  datatype Outcome = Got(value: Value) | Passed | Stopped(error: ReadError)

  /** The bytes from an offset on; a skip may have moved it beyond the end of the file. */
  function From(file: bytes, offset: nat): bytes
  {
    if offset <= |file| then file[offset..] else []
  }

  /** How long the next record is by its header. */
  function Announced(c: Codec, s: bytes): nat
  {
    match SkipRecord(c, s)
    case Skipped(n) => n
    case NotSkipped(_) => 0
  }

  /** One call of the reader, on the bytes it has left: what it returns and the offset of the next record. */
  function StepOn(c: Codec, pending: bytes, offset: nat, op: ReadOp): (Outcome, nat)
  {
    match op
    case ReadNext => (match ReadRecord(c, pending)
                      case Record(v, n) => (Got(v), offset + n)
                      case NoRecord(e) =>
                        (Stopped(e), if e.Undecodable? then offset + Announced(c, pending) else offset))
    case SkipNext => (match SkipRecord(c, pending)
                      case Skipped(n) => (Passed, offset + n)
                      case NotSkipped(e) => (Stopped(e), offset))
  }

  /** One call of a reader that stands at an offset of a file. */
  function ReaderStep(c: Codec, file: bytes, offset: nat, op: ReadOp): (Outcome, nat)
  {
    StepOn(c, From(file, offset), offset, op)
  }

  /** The offset after a sequence of calls. */
  function OffsetAfter(c: Codec, file: bytes, start: nat, ops: seq<ReadOp>): nat
  {
    if ops == [] then start else
      var n := |ops| - 1;
      ReaderStep(c, file, OffsetAfter(c, file, start, ops[..n]), ops[n]).1
  }

  lemma {:induction false} StepOverRecord(c: Codec, pre: bytes, v: Value, t: bytes, op: ReadOp)
    requires Lossless(c) && Sized(c, v) && (op.SkipNext? && v.None? ==> Stored(c, []) == [])
    ensures ReaderStep(c, pre + Encode(c, v) + t, |pre|, op)
        == (if op.ReadNext? then Got(v) else Passed, |pre| + |Encode(c, v)|)
  {
    hide ReadRecord, SkipRecord, Encode, Lossless;
    assert (pre + Encode(c, v) + t)[|pre|..] == Encode(c, v) + t;
    RecordRoundTrip(c, v, t);
    SkipPassesRecord(c, v, t);
  }

  /** The file around its i-th record. */
  lemma {:induction false} FileAround(c: Codec, header: bytes, vs: seq<Value>, zeros: bytes, i: nat)
    requires i < |vs|
    ensures header + EncodeAll(c, vs) + zeros
         == (header + EncodeAll(c, vs[..i])) + Encode(c, vs[i]) + (EncodeAll(c, vs[i + 1..]) + zeros)
    ensures EncodeAll(c, vs[..i + 1]) == EncodeAll(c, vs[..i]) + Encode(c, vs[i])
  {
    hide Encode;
    assert vs == vs[..i + 1] + vs[i + 1..];
    EncodeAllConcat(c, vs[..i + 1], vs[i + 1..]);
    assert vs[..i + 1][..i] == vs[..i];
  }

  /**
   Any mix of reading and skipping over a file of records: before the i-th call the offset is the start of the
   i-th record, a read returns that record and a skip passes it. Skips of nil records need a compressor
   that compresses nothing to nothing.
   */
  lemma {:induction false} MixedRun(c: Codec, header: bytes, vs: seq<Value>, zeros: bytes, ops: seq<ReadOp>, i: nat)
    requires Lossless(c) && AllSized(c, vs) && i < |ops| <= |vs|
    requires forall k :: 0 <= k < |ops| && ops[k].SkipNext? && vs[k].None? ==> Stored(c, []) == []
    ensures var file := header + EncodeAll(c, vs) + zeros;
            && OffsetAfter(c, file, |header|, ops[..i]) == |header| + |EncodeAll(c, vs[..i])|
            && ReaderStep(c, file, |header| + |EncodeAll(c, vs[..i])|, ops[i])
               == (if ops[i].ReadNext? then Got(vs[i]) else Passed, |header| + |EncodeAll(c, vs[..i + 1])|)
    decreases i
  {
    hide ReaderStep, Encode, Lossless, Stored, EncodeAll;
    var file := header + EncodeAll(c, vs) + zeros;
    assert EncodeAll(c, vs[..0]) == [] by { EncodeNone(c, vs[..0]); }
    if i > 0 {
      MixedRun(c, header, vs, zeros, ops, i - 1);
      assert ops[..i][..i - 1] == ops[..i - 1];
    }
    FileAround(c, header, vs, zeros, i);
    StepOverRecord(c, header + EncodeAll(c, vs[..i]), vs[i], EncodeAll(c, vs[i + 1..]) + zeros, ops[i]);
  }

  // ---------- whole files, and files that are cut off ----------

  /** The records of one file, and whether reading it ended with an error. */
  function ReadFile(codecs: nat -> Codec, content: bytes): (seq<Value>, bool)
  {
    if |content| < FILE_HEADER_SIZE then ([], true) else
      var h := ReadFileHeader(content[..FILE_HEADER_SIZE]);
      if !h.Version? then ([], true) else
        var (vs, e) := ReadAll(codecs(h.compressionType), content[FILE_HEADER_SIZE..]);
        (vs, e != EndOfFile)
  }

  /** Files of the current version, or no record files at all. */
  predicate CurrentVersion(content: bytes)
  {
    |content| >= FILE_HEADER_SIZE && ReadFileHeader(content[..FILE_HEADER_SIZE]).Version?
    ==> ReadFileHeader(content[..FILE_HEADER_SIZE]).version == CURRENT_VERSION
  }

  /** Where the k-th record starts. */
  ghost function Boundary(codec: Codec, records: seq<Value>, k: nat): nat
    requires k <= |records|
  {
    FILE_HEADER_SIZE + |EncodeAll(codec, records[..k])|
  }

  lemma {:induction false} BoundaryNext(codec: Codec, records: seq<Value>, k: nat)
    requires k < |records|
    ensures Boundary(codec, records, k + 1) == Boundary(codec, records, k) + |Encode(codec, records[k])|
  {
    hide Encode;
    assert records[..k + 1][..k] == records[..k];
  }

  lemma {:induction false} BoundaryAscends(codec: Codec, records: seq<Value>, i: nat, j: nat)
    requires i < j <= |records|
    ensures Boundary(codec, records, i) < Boundary(codec, records, j)
  {
    hide Encode, Boundary;
    BoundaryNext(codec, records, j - 1);
    if i < j - 1 {
      BoundaryAscends(codec, records, i, j - 1);
    }
  }

  /** How many records lie within the first m bytes of their file. */
  ghost function Whole(codec: Codec, records: seq<Value>, m: nat): (k: nat)
    ensures k <= |records| && (m >= FILE_HEADER_SIZE ==> Boundary(codec, records, k) <= m)
    ensures k < |records| ==> m < Boundary(codec, records, k + 1)
  {
    if records == [] || Boundary(codec, records, |records|) <= m then |records| else
      var n := |records| - 1;
      assert forall k :: 0 <= k <= n ==> records[..n][..k] == records[..k];
      Whole(codec, records[..n], m)
  }

  lemma {:induction false} WholeIff(codec: Codec, records: seq<Value>, m: nat, i: nat)
    requires FILE_HEADER_SIZE <= m && i < |records|
    ensures i < Whole(codec, records, m) <==> Boundary(codec, records, i + 1) <= m
  {
    hide Boundary;
    var k := Whole(codec, records, m);
    if i + 1 < k {
      BoundaryAscends(codec, records, i + 1, k);
    } else if k < i {
      BoundaryAscends(codec, records, k + 1, i + 1);
    }
  }

  /** A file of records cut off anywhere behind its header: the whole records, and a part of the next one. */
  lemma {:induction false} CutFileIs(compressionType: nat, codec: Codec, records: seq<Value>, m: nat)
    requires compressionType < 0x1_0000_0000
    requires FILE_HEADER_SIZE <= m <= |FileHeader(compressionType) + EncodeAll(codec, records)|
    ensures var cut := (FileHeader(compressionType) + EncodeAll(codec, records))[..m];
            var k := Whole(codec, records, m);
            && cut[..FILE_HEADER_SIZE] == FileHeader(compressionType)
            && (k == |records| ==> cut[FILE_HEADER_SIZE..] == EncodeAll(codec, records))
            && (k < |records| ==>
                  && m - Boundary(codec, records, k) < |Encode(codec, records[k])|
                  && cut[FILE_HEADER_SIZE..]
                     == EncodeAll(codec, records[..k]) + Encode(codec, records[k])[..m - Boundary(codec, records, k)])
  {
    hide FileHeader, Encode, Whole, EncodeAll;
    var full, k := FileHeader(compressionType) + EncodeAll(codec, records), Whole(codec, records, m);
    if k < |records| {
      BoundaryNext(codec, records, k);
      FileAround(codec, FileHeader(compressionType), records, [], k);
      assert full + [] == full;
      var front := FileHeader(compressionType) + EncodeAll(codec, records[..k]);
      assert full[..m] == front + Encode(codec, records[k])[..m - |front|];
    } else {
      assert records[..k] == records;
      assert full[..m] == full;
    }
  }

  /**
   Reading a file that is cut off anywhere yields exactly the records that lie within it, and ends with an error unless
   the cut lies at an end point.
   */
  lemma {:induction false} CutFileReads(codecs: nat -> Codec, compressionType: nat, records: seq<Value>, m: nat)
    requires compressionType <= COMPRESSION_TYPE_LZW && Lossless(codecs(compressionType))
    requires AllSized(codecs(compressionType), records)
    requires FILE_HEADER_SIZE <= m <= |FileHeader(compressionType) + EncodeAll(codecs(compressionType), records)|
    ensures var c := codecs(compressionType);
            var k := Whole(c, records, m);
            ReadFile(codecs, (FileHeader(compressionType) + EncodeAll(c, records))[..m])
            == (records[..k], k < |records| && !EndPoint(c, records[k], m - Boundary(c, records, k)))
  {
    hide FileHeader, ReadFileHeader, Encode, Whole, EncodeAll, Boundary, EndPoint, ReadAll, Lossless, Sized;
    var c := codecs(compressionType);
    var k := Whole(c, records, m);
    CutFileIs(compressionType, c, records, m);
    FileHeaderRoundTrip(compressionType);
    if k < |records| {
      TornFileReadsBack(c, records[..k], records[k], m - Boundary(c, records, k));
    } else {
      assert records[..k] == records && EncodeAll(c, records) + [] == EncodeAll(c, records);
      ReadAllRoundTrip(c, records, []);
    }
  }

  lemma {:induction false} EncodeNone(c: Codec, vs: seq<Value>)
    requires vs == []
    ensures EncodeAll(c, vs) == []
  {
  }
}
