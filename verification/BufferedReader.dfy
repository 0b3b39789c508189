/** The buffered reader in front of a file, and the byte counter around it. */
module BufferedReader {
  import opened Bytes
  import opened RecordFormat

  /** A file opened for reading. */
  class InFile {
    const content: bytes
    var pos: nat

    constructor (content: bytes)
      ensures this.content == content && pos == 0
    {
      this.content := content;
      pos := 0;
    }

    /** Reads any positive number of bytes that fit, or reports the end of the file. */
    method Read(dst: array<byte>, from: nat) returns (k: nat, eof: bool)
      requires from < dst.Length
      modifies this`pos, dst
      ensures from + k <= dst.Length && eof == (old(From(content, pos)) == []) && (k == 0 <==> eof)
      ensures pos == old(pos) + k && k <= old(|From(content, pos)|)
      ensures dst[from..from + k] == old(From(content, pos))[..k] && dst[..from] == old(dst[..from])
    {
      if pos >= |content| {
        return 0, true;
      }
      k :| 1 <= k <= dst.Length - from && pos + k <= |content|;
      eof := false;
      forall i | 0 <= i < k {
        dst[from + i] := content[pos + i];
      }
      pos := pos + k;
    }

    method Seek(offset: nat)
      modifies this`pos
      ensures pos == offset
    {
      pos := offset;
    }
  }

  /** After some bytes have been taken from the front. */
  ghost predicate Taken(before: bytes, after: bytes, k: nat)
  {
    k <= |before| && after == before[k..]
  }

  /** Go's copy of a slice into an array. */
  method CopyInto(dst: array<byte>, at: nat, src: bytes)
    requires at + |src| <= dst.Length
    modifies dst
    ensures dst[at..at + |src|] == src && dst[..at] == old(dst[..at])
  {
    forall i | 0 <= i < |src| {
      dst[at + i] := src[i];
    }
  }

  lemma {:induction false} TakenFront(buffered: bytes, rest: bytes, k: nat)
    requires k <= |buffered|
    ensures (buffered + rest)[..k] == buffered[..k] && (buffered + rest)[k..] == buffered[k..] + rest
  {
  }

  lemma {:induction false} SplitAt(now: bytes, front: bytes, back: bytes)
    requires |now| == |front| + |back| && now[..|front|] == front && now[|front|..] == back
    ensures now == front + back
  {
  }

  lemma {:induction false} Refilled(now: bytes, before: bytes, rest: bytes, k: nat, rest': bytes)
    requires k <= |rest| && rest == rest[..k] + rest' && now == before + rest[..k]
    ensures now + rest' == before + rest && (k == 0 ==> now == before)
  {
  }

  class Reader {
    const buf: array<byte>
    const rd: InFile
    var r: nat
    var w: nat
    var err: bool  // the end of the file was seen and not reported yet

    ghost predicate Valid()
      reads this, rd
    {
      r <= w <= buf.Length && buf.Length > 0 && (err ==> From(rd.content, rd.pos) == [])
    }

    /** The bytes still to be delivered: buffered ones first, then the rest of the file. */
    ghost function Pending(): bytes
      requires Valid()
      reads this, buf, rd
    {
      buf[r..w] + From(rd.content, rd.pos)
    }

    constructor (rd: InFile, size: nat)
      requires size > 0
      ensures Valid() && fresh(buf) && this.rd == rd && Pending() == From(rd.content, rd.pos)
    {
      this.rd := rd;
      buf := new byte[size];
      r, w, err := 0, 0, false;
    }

    /** Discards what is buffered. */
    method Reset()
      requires buf.Length > 0
      modifies this
      ensures Valid() && Pending() == From(rd.content, rd.pos)
    {
      r, w, err := 0, 0, false;
    }

    /** Slides what is buffered to the front. */
    method Slide()
      requires Valid()
      modifies this`r, this`w, buf
      ensures Valid() && r == 0 && w == old(w) - old(r) && buf[..w] == old(buf[r..w])
    {
      if r > 0 {
        CopyInto(buf, 0, buf[r..w]);
        r, w := 0, w - r;
      }
    }

    /** Slides what is buffered to the front and reads more behind it. */
    method Fill()
      requires Valid() && !err && w - r < buf.Length
      modifies this, buf, rd`pos
      ensures Valid() && Pending() == old(Pending()) && (r == w <==> err && old(r == w))
    {
      hide From;
      ghost var before, rest := buf[r..w], From(rd.content, rd.pos);
      Slide();
      var k, eof := rd.Read(buf, w);
      Split(rd.content, old(rd.pos), k);
      ghost var now := buf[..w + k];
      SplitAt(now, before, rest[..k]);
      Refilled(now, before, rest, k, From(rd.content, rd.pos));
      w := w + k;
      err := eof;
      assert buf[r..w] == now;
    }

    method ReadByte() returns (b: Option<byte>)
      requires Valid()
      modifies this, buf, rd`pos
      ensures Valid()
      ensures b.None? <==> old(Pending()) == []
      ensures b.None? ==> Pending() == []
      ensures b.Some? ==> b.value == old(Pending())[0] && Taken(old(Pending()), Pending(), 1)
    {
      while r == w
        invariant Valid() && Pending() == old(Pending())
        decreases if r < w || err then 0 else 1
      {
        if err {
          err := false;
          return None;
        }
        Fill();
      }
      b := Some(buf[r]);
      r := r + 1;
    }

    /** Copies what is buffered, as far as it fits, into p[from..]. */
    method CopyOut(p: array<byte>, from: nat) returns (k: nat)
      requires Valid() && r < w && from < p.Length && p != buf
      modifies this`r, p
      ensures Valid() && 0 < k && from + k <= p.Length && Taken(old(Pending()), Pending(), k)
      ensures p[from..from + k] == old(Pending())[..k] && p[..from] == old(p[..from])
    {
      hide From;
      k := if p.Length - from < w - r then p.Length - from else w - r;
      TakenFront(buf[r..w], From(rd.content, rd.pos), k);
      assert buf[r..w][..k] == buf[r..r + k];
      CopyInto(p, from, buf[r..r + k]);
      assert buf[r..w][k..] == buf[r + k..w];
      r := r + k;
    }

    /** With nothing buffered, reads into p[from..] itself. */
    method ReadThrough(p: array<byte>, from: nat) returns (k: nat, eof: bool)
      requires Valid() && r == w && !err && from < p.Length && p != buf
      modifies this`err, rd`pos, p
      ensures Valid() && from + k <= p.Length && (eof <==> old(Pending()) == []) && (k == 0 <==> eof)
      ensures Taken(old(Pending()), Pending(), k)
      ensures p[from..from + k] == old(Pending())[..k] && p[..from] == old(p[..from])
    {
      assert Pending() == From(rd.content, rd.pos);
      k, eof := rd.Read(p, from);
      Advance(rd.content, old(rd.pos), k);
      assert Pending() == From(rd.content, rd.pos);
    }

    /** Reads some of what is pending into p[from..]; nothing only at the end of the file. */
    method Read(p: array<byte>, from: nat) returns (k: nat, eof: bool)
      requires Valid() && from < p.Length && p != buf
      modifies this, buf, rd`pos, p
      ensures Valid() && from + k <= p.Length && (eof <==> old(Pending()) == []) && (k == 0 <==> eof)
      ensures Taken(old(Pending()), Pending(), k)
      ensures p[from..from + k] == old(Pending())[..k] && p[..from] == old(p[..from])
    {
      hide From;
      if r == w {
        if err {
          err := false;
          return 0, true;
        }
        if p.Length - from >= buf.Length {
          k, eof := ReadThrough(p, from);
          return;
        }
        Fill();
        if err {
          err := false;
          return 0, true;
        }
      }
      k := CopyOut(p, from);
      eof := false;
    }
  }

  lemma {:induction false} Advance(content: bytes, pos: nat, k: nat)
    requires k <= |From(content, pos)|
    ensures From(content, pos)[k..] == From(content, pos + k)
  {
  }

  lemma {:induction false} Split(content: bytes, pos: nat, k: nat)
    requires k <= |From(content, pos)|
    ensures From(content, pos) == From(content, pos)[..k] + From(content, pos + k)
  {
  }
}
