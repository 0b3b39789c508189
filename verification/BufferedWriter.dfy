/** The buffered writer in front of a file, in its non-aligned mode. */
module BufferedWriter {
  import opened Bytes

  /** File contents after writing some bytes at a position inside it. */
  function Overlay(base: bytes, at: nat, w: bytes): bytes
    requires at <= |base|
  {
    base[..at] + w + if at + |w| <= |base| then base[at + |w|..] else []
  }

  lemma {:induction false} OverlayGrows(base: bytes, at: nat, w: bytes, more: bytes)
    requires at <= |base|
    ensures at + |w| <= |Overlay(base, at, w)|
    ensures Overlay(Overlay(base, at, w), at + |w|, more) == Overlay(base, at, w + more)
  {
  }

  /** A file opened for writing. The ghost fields record what was written since the last seek. */
  class File {
    const reliable: bool  // whether the file system never fails on this file
    var content: bytes
    var pos: nat
    ghost var base: bytes
    ghost var start: nat
    ghost var written: bytes

    ghost predicate Valid()
      reads this
    {
      start <= |base| && content == Overlay(base, start, written) && pos == start + |written|
    }

    constructor (reliable: bool)
      ensures Valid() && content == [] && base == [] && start == 0 && written == [] && this.reliable == reliable
    {
      this.reliable, content, pos, base, start, written := reliable, [], 0, [], 0, [];
    }

    /**
     Writes some front part of p, with or without an error; only an error excuses writing nothing. A reliable file takes
     all of it.
     */
    method Write(p: bytes) returns (n: nat, failed: bool)
      requires Valid()
      modifies this
      ensures Valid() && n <= |p| && (n == 0 && p != [] ==> failed)
      ensures written == old(written) + p[..n] && base == old(base) && start == old(start)
      ensures reliable ==> !failed && n == |p|
    {
      n :| 0 <= n <= |p|;
      failed := *;
      if reliable {
        n, failed := |p|, false;
      } else if n == 0 && p != [] {
        failed := true;
      }
      OverlayGrows(base, start, written, p[..n]);
      content := Overlay(content, pos, p[..n]);
      pos := pos + n;
      written := written + p[..n];
    }

    method Seek(offset: nat) returns (failed: bool)
      requires Valid() && offset <= |content|
      modifies this
      ensures Valid() && content == old(content) && (reliable ==> !failed)
      ensures !failed ==> base == old(content) && start == pos == offset && written == []
      ensures failed ==> pos == old(pos) && base == old(base) && start == old(start) && written == old(written)
    {
      failed := *;
      failed := failed && !reliable;
      if !failed {
        base, start, written := content, offset, [];
        pos := offset;
      }
    }

    /** Asks the operating system to write the file to the disk. */
    method Sync() returns (failed: bool)
      ensures reliable ==> !failed
    {
      failed := *;
      failed := failed && !reliable;
    }

    method Truncate(size: nat) returns (failed: bool)
      requires Valid() && pos <= size <= |content|
      modifies this
      ensures Valid() && content == (if failed then old(content) else old(content)[..size]) && (reliable ==> !failed)
      ensures pos == old(pos) && (failed ==> written == old(written) && base == old(base) && start == old(start))
      ensures !failed ==> written == [] && base == content && start == pos
    {
      failed := *;
      failed := failed && !reliable;
      if !failed {
        content := content[..size];
        base, start, written := content, pos, [];
      }
    }
  }

  /**
   Whatever the file does, it holds a front part of the bytes supplied; and without an error so far, file and
   buffer together hold exactly the bytes supplied.
   */
  ghost predicate Holds(written: bytes, buffered: bytes, supplied: bytes, failed: bool)
  {
    written + buffered <= supplied && (!failed ==> written + buffered == supplied)
  }

  lemma {:induction false} HoldsLonger(written: bytes, buffered: bytes, supplied: bytes, more: bytes)
    requires Holds(written, buffered, supplied, true) && supplied <= more
    ensures Holds(written, buffered, more, true)
  {
  }

  lemma {:induction false} Empty(written: bytes, buffered: bytes, supplied: bytes)
    requires Holds(written, buffered, supplied, false) && buffered == []
    ensures written == supplied
  {
  }

  /** The file took a front part of the buffer. */
  lemma {:induction false} Moved(written: bytes, buffered: bytes, k: nat, supplied: bytes)
    requires Holds(written, buffered, supplied, false) && k <= |buffered|
    ensures Holds(written + buffered[..k], buffered[k..], supplied, true)
    ensures k == |buffered| ==>
              written + buffered[..k] == supplied && Holds(written + buffered[..k], [], supplied, false)
  {
    assert buffered == buffered[..k] + buffered[k..];
    assert k == |buffered| ==> buffered[k..] == [];
  }

  class Writer {
    var failed: bool
    const buf: array<byte>
    var n: nat
    const file: File
    ghost var supplied: bytes  // everything passed to Write since the last seek

    ghost predicate Valid()
      reads this, buf, file
    {
      n <= buf.Length && file.Valid() && Holds(file.written, buf[..n], supplied, failed) && (failed ==> !file.reliable)
    }

    ghost predicate OnlyMore(before: bytes, start: nat, base: bytes)
      reads file
    {
      before <= file.written && file.start == start && file.base == base
    }

    constructor (file: File, size: nat)
      requires file.Valid() && file.written == []
      ensures Valid() && fresh(buf) && this.file == file && !failed && supplied == [] && buf.Length == size
    {
      this.file := file;
      buf := new byte[size];
      n, failed, supplied := 0, false, [];
    }

    /** Hands the buffer to the file. A short write is an error, and errors are final. */
    method Flush() returns (err: bool)
      requires Valid()
      modifies this`n, this`failed, buf, file
      ensures Valid() && err == failed && (old(failed) ==> failed && n == old(n) && unchanged(file))
      ensures OnlyMore(old(file.written), old(file.start), old(file.base))
      ensures !err ==> n == 0 && file.written == supplied
    {
      hide Overlay, Holds;
      if failed {
        return true;
      }
      if n == 0 {
        Empty(file.written, buf[..0], supplied);
        return false;
      }
      ghost var w, b := file.written, buf[..n];
      var k, e := file.Write(buf[..n]);
      if k < n && !e {
        e := true;
      }
      if e {
        Drop(k);
        failed := true;
        Moved(w, b, k, supplied);
        return true;
      }
      Moved(w, b, k, supplied);
      n := 0;
      assert buf[..0] == [];
      return false;
    }

    /** Moves what is left in the buffer to its front. */
    method Drop(k: nat)
      requires k <= n <= buf.Length
      modifies this`n, buf
      ensures n == old(n) - k && buf[..n] == old(buf[..n])[k..]
    {
      if 0 < k < n {
        forall i | 0 <= i < n - k {
          buf[i] := buf[i + k];
        }
      }
      n := n - k;
    }

    /** Copies a front part of p behind the buffered bytes. */
    method Buffer(p: bytes, k: nat)
      requires Valid() && !failed && n + k <= buf.Length && k <= |p|
      modifies this`n, this`supplied, buf
      ensures Valid() && n == old(n) + k && supplied == old(supplied) + p[..k]
    {
      ghost var b := buf[..n];
      forall i | 0 <= i < k {
        buf[n + i] := p[i];
      }
      n := n + k;
      supplied := supplied + p[..k];
      assert buf[..n] == b + p[..k];
    }

    /** With nothing buffered, hands p to the file itself. */
    method WriteThrough(p: bytes) returns (k: nat)
      requires Valid() && !failed && n == 0 && p != []
      modifies this`failed, this`supplied, file
      ensures Valid() && k <= |p| && supplied == old(supplied) + p[..k] && (k == 0 ==> failed)
      ensures OnlyMore(old(file.written), old(file.start), old(file.base))
    {
      k, failed := file.Write(p);
      supplied := supplied + p[..k];
      assert buf[..0] == [];
    }

    /** Takes all of p, or ends with an error. */
    method Write(data: bytes) returns (nn: nat, err: bool)
      requires Valid()
      modifies this`n, this`failed, this`supplied, buf, file
      ensures Valid() && err == failed && (old(failed) ==> failed && unchanged(file))
      ensures supplied == old(supplied) + data
      ensures OnlyMore(old(file.written), old(file.start), old(file.base))
      ensures !err ==> nn == |data|
    {
      hide Holds, Overlay;
      var p := data;
      nn := 0;
      while |p| > buf.Length - n && !failed
        invariant Valid() && nn + |p| == |data| && p == data[nn..] && supplied == old(supplied) + data[..nn]
        invariant OnlyMore(old(file.written), old(file.start), old(file.base))
        invariant old(failed) ==> failed && unchanged(file)
        decreases !failed, |p|, n
      {
        var k;
        if n == 0 {
          k := WriteThrough(p);
        } else {
          k := buf.Length - n;
          Buffer(p, k);
          var e := Flush();
          if e {
            Joined(old(supplied), data, nn, k);
            HoldsLonger(file.written, buf[..n], supplied, old(supplied) + data);
            supplied := old(supplied) + data;
            return 0, true;
          }
        }
        Joined(old(supplied), data, nn, k);
        nn, p := nn + k, p[k..];
      }
      Joined(old(supplied), data, nn, |p|);
      if failed {
        HoldsLonger(file.written, buf[..n], supplied, old(supplied) + data);
        supplied := old(supplied) + data;
        return nn, true;
      }
      Buffer(p, |p|);
      return nn + |p|, false;
    }

    /** Flushes and moves the file position; what was supplied so far is in the file then. */
    method Seek(offset: nat) returns (err: bool)
      requires Valid() && (!failed ==> offset <= file.start + |supplied|)
      modifies this`n, this`failed, this`supplied, buf, file
      ensures Valid() && (old(failed) ==> failed && err)
      ensures err ==> supplied == old(supplied) && OnlyMore(old(file.written), old(file.start), old(file.base))
      ensures (old(failed) ==> unchanged(file)) && (err ==> !file.reliable)
      ensures !err ==> !failed && supplied == [] && file.start == offset
      ensures !err ==> old(file.Valid()) && file.base == Overlay(old(file.base), old(file.start), old(supplied))
    {
      err := Flush();
      if err {
        return;
      }
      OverlayGrows(file.base, file.start, supplied, []);
      err := file.Seek(offset);
      if !err {
        supplied := [];
      }
      assert buf[..0] == [];
    }
  }

  lemma {:induction false} Joined(before: bytes, data: bytes, nn: nat, k: nat)
    requires nn + k <= |data|
    ensures before + data[..nn] + data[nn..][..k] == before + data[..nn + k] <= before + data
    ensures nn + k == |data| ==> before + data[..nn + k] == before + data
    ensures data[nn..][k..] == data[nn + k..]
  {
  }
}
