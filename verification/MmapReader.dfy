/** Random access to record files, by the offset of a record or by searching for the next one. */
module MmapReader {
  import opened Bytes
  import opened Varint
  import opened RecordFormat

  /** At most `size` bytes from an offset on. */
  function Window(file: bytes, offset: nat, size: nat): (w: bytes)
    requires offset <= |file|
  {
    if offset + size <= |file| then file[offset..offset + size] else file[offset..]
  }

  /** Decodes the record at an offset from a window of the file that is as long as the longest header. */
  function ReadNextAt(c: Codec, file: bytes, offset: nat): (r: RecordRead)
    ensures r.Record? ==> offset + r.length <= |file|
  {
    if offset > |file| then NoRecord(BadOffset) else
      var window := Window(file, offset, RECORD_HEADER_MAX_SIZE);
      if window == [] then NoRecord(EndOfFile) else
        match ReadHeader(window)
        case NoHeader(e) => NoRecord(e)
        case BadMagic(n) => NoRecord(MagicMismatch)
        case Header(u, z, isNil, n) =>
          if isNil then Record(None, n) else
            var size := if c.Raw? then u else z;
            if offset + n + size > |file| then NoRecord(EndOfFile)
            else ReadPayload(c, Header(u, z, isNil, n), file[offset..])
  }

  lemma {:induction false} WindowHeader(s: bytes, n: nat)
    requires n <= |s| && (n < |s| ==> n >= RECORD_HEADER_MAX_SIZE)
    ensures ReadHeader(s[..n]).Header? <==> ReadHeader(s).Header?
    ensures ReadHeader(s).Header? ==> ReadHeader(s[..n]) == ReadHeader(s)
  {
    hide ReadHeader;
    if ReadHeader(s).Header? {
      HeaderFromWindow(s, n);
    } else if ReadHeader(s[..n]).Header? {
      HeaderFromWhole(s, n);
    }
  }

  lemma {:induction false} HeaderFromWhole(s: bytes, n: nat)
    requires n <= |s| && ReadHeader(s[..n]).Header?
    ensures ReadHeader(s) == ReadHeader(s[..n])
  {
    hide ReadUvarint;
    var w := s[..n];
    var m := ReadUvarint(w, 0).length;
    ReadFromWhole(s, n, 0);
    var u := ReadUvarint(w[m + 1..], 0).length;
    assert w[m + 1..] == s[m + 1..][..n - m - 1];
    ReadFromWhole(s[m + 1..], n - m - 1, 0);
    assert w[m + 1 + u..] == s[m + 1 + u..][..n - m - 1 - u];
    ReadFromWhole(s[m + 1 + u..], n - m - 1 - u, 0);
  }

  /** Lookup by offset and the sequential reader agree on which offsets hold a record and on what it is. */
  lemma {:induction false} LookupIsScan(c: Codec, file: bytes, offset: nat)
    requires offset <= |file|
    ensures ReadNextAt(c, file, offset).Record? <==> ReadRecord(c, file[offset..]).Record?
    ensures ReadNextAt(c, file, offset).Record? ==> ReadNextAt(c, file, offset) == ReadRecord(c, file[offset..])
  {
    hide ReadHeader;
    var s := file[offset..];
    var n := |Window(file, offset, RECORD_HEADER_MAX_SIZE)|;
    assert Window(file, offset, RECORD_HEADER_MAX_SIZE) == s[..n];
    WindowHeader(s, n);
  }

  /** The i-th record of a file is found at its offset. */
  lemma {:induction false} LookupRecord(c: Codec, header: bytes, vs: seq<Value>, zeros: bytes, i: nat)
    requires Lossless(c) && AllSized(c, vs) && i < |vs|
    ensures var r := ReadNextAt(c, header + EncodeAll(c, vs) + zeros, |header| + |EncodeAll(c, vs[..i])|);
            r.Record? && r.value == vs[i]
  {
    hide ReadRecord, Encode, EncodeAll, Lossless, ReadNextAt, Sized;
    var file, offset := header + EncodeAll(c, vs) + zeros, |header| + |EncodeAll(c, vs[..i])|;
    FileAround(c, header, vs, zeros, i);
    assert file[offset..] == Encode(c, vs[i]) + (EncodeAll(c, vs[i + 1..]) + zeros);
    RecordRoundTrip(c, vs[i], EncodeAll(c, vs[i + 1..]) + zeros);
    LookupIsScan(c, file, offset);
  }

  /**
   The errors of a lookup: offsets at and behind the end are told apart, and where no marker stands, zeros or not, there
   is no end of file as for the sequential reader.
   */
  lemma {:induction false} LookupErrors(c: Codec, file: bytes, offset: nat)
    ensures offset > |file| ==> ReadNextAt(c, file, offset) == NoRecord(BadOffset)
    ensures offset == |file| ==> ReadNextAt(c, file, offset) == NoRecord(EndOfFile)
    ensures offset < |file| ==>
              var m := ReadUvarint(file[offset..], 0);
              m.Varint? && m.x != 0x130691 ==> ReadNextAt(c, file, offset) == NoRecord(MagicMismatch)
  {
    hide ReadUvarint;
    if offset < |file| && ReadUvarint(file[offset..], 0).Varint? {
      var s, n := file[offset..], |Window(file, offset, RECORD_HEADER_MAX_SIZE)|;
      assert Window(file, offset, RECORD_HEADER_MAX_SIZE) == s[..n];
      ReadFromPrefix(s, n, 0);
    }
  }

  /** A record whose payload is cut off ends the file. */
  lemma {:induction false} LookupCutPayload(c: Codec, pre: bytes, v: Value, n: nat)
    requires Sized(c, v) && |HeaderOf(c, v)| <= n < |Encode(c, v)|
    ensures ReadNextAt(c, pre + Encode(c, v)[..n], |pre|) == NoRecord(EndOfFile)
  {
    hide ReadHeader, RecordHeader;
    var file, h, size := pre + Encode(c, v)[..n], HeaderOf(c, v), if c.Raw? then 0 else |Stored(c, Payload(v))|;
    var s, m := file[|pre|..], |Window(file, |pre|, RECORD_HEADER_MAX_SIZE)|;
    assert s == h + s[|h|..];
    HeaderRoundTrip(|Payload(v)|, size, v.None?, s[|h|..]);
    assert Window(file, |pre|, RECORD_HEADER_MAX_SIZE) == s[..m];
    WindowHeader(s, m);
  }

  // ---------- searching ----------

  const SEEK_LEN := 4096

  datatype SeekRead = FoundAt(offset: nat, value: Value) | NotFound(error: ReadError)

  predicate MarkerAt(file: bytes, offset: nat)
  {
    offset + |MAGIC_BYTES| <= |file| && file[offset..offset + |MAGIC_BYTES|] == MAGIC_BYTES
  }

  /** A marker with a readable record. */
  ghost predicate HitAt(c: Codec, file: bytes, p: nat)
  {
    MarkerAt(file, p) && ReadNextAt(c, file, p).Record?
  }

  /** A front part of a marker, from the given offset on, ends right before p. */
  predicate Shadowed(file: bytes, offset: nat, p: nat)
  {
    || (offset + 1 <= p <= |file| && file[p - 1] == 0x91)
    || (offset + 2 <= p <= |file| && file[p - 2] == 0x91 && file[p - 1] == 0x8d)
  }

  /** All hits before an offset are shadowed. */
  ghost predicate OnlyShadowed(c: Codec, file: bytes, offset: nat, end: nat)
  {
    forall p :: offset <= p < end && HitAt(c, file, p) ==> Shadowed(file, offset, p)
  }

  lemma {:induction false} MarkerBytes(file: bytes, p: nat)
    requires MarkerAt(file, p)
    ensures file[p] == 0x91 && file[p + 1] == 0x8d && file[p + 2] == 0x4c
  {
    var m := file[p..p + 3];
    assert m == MAGIC_BYTES && m[0] == file[p] && m[1] == file[p + 1] && m[2] == file[p + 2];
  }

  /**
   Stepping over a front part of a marker, and over the byte that does not fit, passes no other hit than a shadowed one.
   */
  lemma {:induction false} StepOver(c: Codec, file: bytes, offset: nat, at: nat, n: nat)
    requires OnlyShadowed(c, file, offset, at) && offset <= at && n < |MAGIC_BYTES| && at + n < |file|
    requires (forall k :: 0 <= k < n ==> file[at + k] == MAGIC_BYTES[k]) && file[at + n] != MAGIC_BYTES[n]
    ensures OnlyShadowed(c, file, offset, at + n + 1) && !HitAt(c, file, at)
  {
    hide ReadNextAt;
    assert n >= 1 ==> file[at + 0] == MAGIC_BYTES[0];
    assert n >= 2 ==> file[at + 1] == MAGIC_BYTES[1];
    forall p | offset <= p < at + n + 1 && HitAt(c, file, p) ensures Shadowed(file, offset, p) {
      MarkerBytes(file, p);
    }
    if MarkerAt(file, at) {
      MarkerBytes(file, at);
    }
  }

  /** Stepping over a whole marker without a readable record passes no hit. */
  lemma {:induction false} StepOverMarker(c: Codec, file: bytes, offset: nat, at: nat)
    requires OnlyShadowed(c, file, offset, at) && offset <= at && MarkerAt(file, at) && !ReadNextAt(c, file, at).Record?
    ensures OnlyShadowed(c, file, offset, at + |MAGIC_BYTES|) && !HitAt(c, file, at)
  {
    hide ReadNextAt;
    MarkerBytes(file, at);
    forall p | offset <= p < at + |MAGIC_BYTES| && HitAt(c, file, p) ensures Shadowed(file, offset, p) {
      MarkerBytes(file, p);
    }
  }

  /** Near the end of the file there is no hit. */
  lemma {:induction false} NoHitAtEnd(c: Codec, file: bytes, offset: nat, end: nat)
    requires OnlyShadowed(c, file, offset, end) && end + |MAGIC_BYTES| >= |file|
    ensures OnlyShadowed(c, file, offset, |file| + 1)
  {
    forall p | offset <= p < |file| + 1 && HitAt(c, file, p) ensures Shadowed(file, offset, p) {
      RecordIsLong(c, file, p);
    }
  }

  /** How much of a marker stands at a position of the window, and whether the window ends before more can be seen. */
  method MatchMarker(window: bytes, i: nat) returns (n: nat, ended: bool)
    requires i < |window|
    ensures n <= |MAGIC_BYTES| && i + n <= |window| && (ended <==> i + n == |window|)
    ensures forall k :: 0 <= k < n ==> window[i + k] == MAGIC_BYTES[k]
    ensures !ended && n < |MAGIC_BYTES| ==> window[i + n] != MAGIC_BYTES[n]
  {
    n := 0;
    while n < |MAGIC_BYTES|
      invariant n <= |MAGIC_BYTES| && i + n < |window|
      invariant forall k :: 0 <= k < n ==> window[i + k] == MAGIC_BYTES[k]
    {
      if window[i + n] != MAGIC_BYTES[n] {
        return n, false;
      }
      n := n + 1;
      if i + n >= |window| {
        return n, true;
      }
    }
    return n, false;
  }

  lemma {:induction false} SeenInFile(file: bytes, next: nat, window: bytes, i: nat, n: nat)
    requires next + |window| <= |file| && window == file[next..next + |window|]
    requires i + n < |window| && n <= |MAGIC_BYTES| && forall k :: 0 <= k < n ==> window[i + k] == MAGIC_BYTES[k]
    ensures forall k :: 0 <= k < n ==> file[next + i + k] == MAGIC_BYTES[k]
    ensures file[next + i + n] == window[i + n]
    ensures n == |MAGIC_BYTES| ==> MarkerAt(file, next + i)
  {
    forall k | 0 <= k < n ensures file[next + i + k] == MAGIC_BYTES[k] {
      assert window[i + k] == file[next + (i + k)];
    }
    if n == |MAGIC_BYTES| {
      var m := file[next + i..next + i + n];
      assert forall k :: 0 <= k < n ==> m[k] == MAGIC_BYTES[k];
    }
  }

  /** Searches one window; without a find, everything before the returned position is done. */
  method SearchWindow(c: Codec, file: bytes, next: nat, window: bytes, ghost offset: nat)
    returns (i: nat, found: Option<Value>)
    requires offset <= next && next + |window| <= |file| && window == file[next..next + |window|] && window != []
    requires OnlyShadowed(c, file, offset, next)
    ensures i <= |window| && OnlyShadowed(c, file, offset, next + i)
    ensures found.Some? ==> MarkerAt(file, next + i) && ReadNextAt(c, file, next + i).Record?
    ensures found.Some? ==> found.value == ReadNextAt(c, file, next + i).value
    ensures found.None? && i == 0 ==> |window| <= |MAGIC_BYTES|
    ensures found.None? && HitAt(c, file, next) ==> i == 0 && |window| <= |MAGIC_BYTES|
    ensures found.Some? && HitAt(c, file, next) ==> i == 0
  {
    hide ReadNextAt, OnlyShadowed, HitAt, MarkerAt;
    i := 0;
    while i < |window|
      invariant i <= |window| && OnlyShadowed(c, file, offset, next + i) && (HitAt(c, file, next) ==> i == 0)
      decreases |window| - i
    {
      var n, ended := MatchMarker(window, i);
      if ended {
        return i, None;
      }
      SeenInFile(file, next, window, i, n);
      if n < |MAGIC_BYTES| {
        StepOver(c, file, offset, next + i, n);
        i := i + n + 1;
        continue;
      }
      var trial := ReadNextAt(c, file, next + i);
      if trial.Record? {
        return i, Some(trial.value);
      }
      StepOverMarker(c, file, offset, next + i);
      i := i + n;
    }
    return i, None;
  }

  /**
   Searches for a record marker in windows of the file. It terminates; what it finds is a marker at or behind the
   offset with a readable record; a record that starts with its marker at the offset itself is always found; and of
   the others only those are passed over before which a front part of a marker ends.
   */
  method SeekNext(c: Codec, file: bytes, offset: nat) returns (r: SeekRead)
    ensures r.FoundAt? ==> offset <= r.offset && MarkerAt(file, r.offset)
    ensures r.FoundAt? ==> ReadNextAt(c, file, r.offset).Record? && r.value == ReadNextAt(c, file, r.offset).value
    ensures HitAt(c, file, offset) ==> r.FoundAt? && r.offset == offset
    ensures forall p :: offset <= p < (if r.FoundAt? then r.offset else |file| + 1) && HitAt(c, file, p) ==>
              Shadowed(file, offset, p)
  {
    hide ReadNextAt, OnlyShadowed, HitAt, Shadowed, MarkerAt;
    HitIsLong(c, file, offset);
    var next := offset;
    NothingPassed(c, file, offset);
    while true
      invariant offset <= next && (HitAt(c, file, offset) ==> next == offset) && OnlyShadowed(c, file, offset, next)
      decreases |file| + 1 - next
    {
      if next > |file| {
        Passed(c, file, offset, next);
        return NotFound(BadOffset);
      }
      var window := Window(file, next, SEEK_LEN);
      if window == [] {
        NoHitAtEnd(c, file, offset, next);
        Passed(c, file, offset, |file| + 1);
        return NotFound(EndOfFile);
      }
      var i, found := SearchWindow(c, file, next, window, offset);
      if found.Some? {
        Passed(c, file, offset, next + i);
        return FoundAt(next + i, found.value);
      }
      if i == 0 {
        NoHitAtEnd(c, file, offset, next);
        Passed(c, file, offset, |file| + 1);
        return NotFound(EndOfFile);
      }
      next := next + i;
    }
  }

  lemma {:induction false} HitIsLong(c: Codec, file: bytes, p: nat)
    ensures HitAt(c, file, p) ==> p + 4 <= |file|
  {
    hide ReadNextAt;
    if HitAt(c, file, p) {
      RecordIsLong(c, file, p);
    }
  }

  lemma {:induction false} NothingPassed(c: Codec, file: bytes, offset: nat)
    ensures OnlyShadowed(c, file, offset, offset)
  {
  }

  lemma {:induction false} Passed(c: Codec, file: bytes, offset: nat, end: nat)
    requires OnlyShadowed(c, file, offset, end)
    ensures forall p :: offset <= p < end && HitAt(c, file, p) ==> Shadowed(file, offset, p)
  {
    hide HitAt, Shadowed;
  }

  lemma {:induction false} RecordIsLong(c: Codec, file: bytes, offset: nat)
    requires ReadNextAt(c, file, offset).Record?
    ensures offset + 4 <= |file|
  {
  }
}
