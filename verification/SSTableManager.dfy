/** The manager of the open tables: selection of a compaction run, and the replacement of the run by its result. */
module SSTableManager {
  import opened Bytes
  import opened Tables
  import opened Readers

  /** A position that has a selected position at or before it and one at or after it. */
  predicate Enclosed(s: seq<bool>, k: nat)
    requires k < |s|
  {
    (exists i :: 0 <= i <= k && s[i]) && (exists j :: k <= j < |s| && s[j])
  }

  function Filled(s: seq<bool>): (r: seq<bool>)
    ensures |r| == |s|
  {
    seq(|s|, k requires 0 <= k < |s| => Enclosed(s, k))
  }

  /** In place: every value enclosed by true values becomes true, nothing else changes. */
  method FloodFill(a: array<bool>)
    modifies a
    ensures a[..] == Filled(old(a[..]))
  {
    var i := 0;
    ghost var s := a[..];
    while i < a.Length
      invariant 0 <= i <= a.Length
      invariant forall k :: i <= k < a.Length ==> a[k] == s[k]
      invariant forall k :: 0 <= k < i ==> (a[k] <==> exists t :: 0 <= t <= k && s[t])
      invariant (exists t :: 0 <= t < i && s[t]) ==> i < a.Length && s[i]
    {
      if a[i] {
        var j := i + 1;
        while j < a.Length && !a[j]
          invariant i < j <= a.Length
          invariant forall k :: i < k < j ==> !s[k]
          invariant forall k :: i < k < j ==> !a[k]
        {
          j := j + 1;
        }
        assert s[i];
        if j == a.Length {
          return;
        }
        assert s[j];
        var x := i;
        while x <= j
          invariant i <= x <= j + 1
          invariant forall k :: i <= k < x ==> a[k]
          invariant forall k :: 0 <= k < i ==> a[k] == (exists t :: 0 <= t <= k && s[t])
          invariant forall k :: j <= k < a.Length ==> a[k] == s[k]
        {
          a[x] := true;
          x := x + 1;
        }
        i := j;
      } else {
        i := i + 1;
      }
    }
  }

  /** The readers whose selection bit is set, in list order. */
  function Chosen(rs: seq<Reader>, sel: seq<bool>): seq<Reader>
    requires |rs| == |sel|
  {
    if rs == [] then [] else
      var n := |rs| - 1;
      Chosen(rs[..n], sel[..n]) + if sel[n] then [rs[n]] else []
  }

  lemma {:induction false} ChosenInterval(rs: seq<Reader>, sel: seq<bool>, lo: nat, hi: nat)
    requires |rs| == |sel| && lo <= hi <= |rs|
    requires forall k :: 0 <= k < |sel| ==> (sel[k] <==> lo <= k < hi)
    ensures Chosen(rs, sel) == rs[lo..hi]
  {
    if rs != [] {
      var n := |rs| - 1;
      if hi == |rs| {
        if lo < hi {
          ChosenInterval(rs[..n], sel[..n], lo, n);
          assert rs[..n][lo..n] + [rs[n]] == rs[lo..hi];
        } else {
          ChosenInterval(rs[..n], sel[..n], n, n);
        }
      } else {
        ChosenInterval(rs[..n], sel[..n], lo, hi);
        assert rs[..n][lo..hi] == rs[lo..hi];
      }
    }
  }

  lemma {:induction false} FirstSelected(s: seq<bool>) returns (lo: nat)
    ensures lo <= |s| && (lo < |s| ==> s[lo]) && forall k :: 0 <= k < lo ==> !s[k]
  {
    if s == [] || s[0] {
      lo := 0;
    } else {
      lo := FirstSelected(s[1..]);
      lo := lo + 1;
      assert forall k :: 0 < k < lo ==> s[k] == s[1..][k - 1];
    }
  }

  lemma {:induction false} LastSelected(s: seq<bool>) returns (hi: nat)
    ensures hi <= |s| && (hi > 0 ==> s[hi - 1]) && forall k :: hi <= k < |s| ==> !s[k]
  {
    if s == [] || s[|s| - 1] {
      hi := |s|;
    } else {
      hi := LastSelected(s[..|s| - 1]);
    }
  }

  /** Whatever tables the size and tombstone criteria pick, the filled selection is one contiguous run. */
  lemma {:induction false} CandidatesAreContiguous(rs: seq<Reader>, sel: seq<bool>) returns (lo: nat, hi: nat)
    requires |rs| == |sel|
    ensures lo <= hi <= |rs| && Chosen(rs, Filled(sel)) == rs[lo..hi]
    ensures lo < hi ==> sel[lo] && sel[hi - 1]
    ensures forall k :: 0 <= k < |sel| && sel[k] ==> lo <= k < hi
  {
    lo := FirstSelected(sel);
    hi := LastSelected(sel);
    if lo == |sel| {
      hi := lo;
    }
    assert lo <= hi by {
      if lo < |sel| {
        assert sel[lo];
      }
    }
    forall k | 0 <= k < |sel| ensures Filled(sel)[k] <==> lo <= k < hi {
      if lo <= k < hi {
        assert sel[lo] && sel[hi - 1];
      }
    }
    ChosenInterval(rs, Filled(sel), lo, hi);
  }

  /** The base directory: table directories in name order and the folder of a compaction, as its merged table. */
  class Directory {
    var tables: seq<Reader>
    var folder: Option<Table>

    constructor (tables: seq<Reader>, folder: Option<Table>)
      ensures this.tables == tables && this.folder == folder
    {
      this.tables, this.folder := tables, folder;
    }

    method RemoveAll(g: nat)
      modifies this`tables
      ensures tables == Remove(old(tables), g)
    {
      tables := Remove(tables, g);
    }

    /** Renaming the compaction folder fails when the target still exists. */
    method RenameFolder(g: nat) returns (ok: bool)
      modifies this
      ensures ok <==> old(folder).Some? && IndexOf(old(tables), g) < 0
      ensures ok ==> folder == None && tables == Insert(old(tables), Reader(g, old(folder).value))
      ensures !ok ==> tables == old(tables) && folder == old(folder)
    {
      ok := folder.Some? && IndexOf(tables, g) < 0;
      if ok {
        tables := Insert(tables, Reader(g, folder.value));
        folder := None;
      }
    }
  }

  /** The selection bits before the gaps are filled. */
  function Selection(rs: seq<Reader>, wanted: Reader -> bool): seq<bool>
  {
    seq(|rs|, i requires 0 <= i < |rs| => wanted(rs[i]))
  }

  /** The run is a part of the reader list, and the merged table its compaction under the tombstone guard. */
  ghost predicate Compacts(rs: seq<Reader>, run: seq<nat>, merged: Table, lo: nat)
  {
    && lo + |run| <= |rs|
    && var inputs := rs[lo..lo + |run|];
    && Gens(inputs) == run && merged == Compacted(Contents(inputs))
    && TombstoneGuard(Stack(rs[..lo]), Stack(inputs), Stack(rs[lo + |run|..]))
  }

  /** Replacing a run by its compaction keeps what a reader sees. */
  lemma {:induction false} ReplacementKeepsView(rs: seq<Reader>, run: seq<nat>, merged: Table, lo: nat)
    requires run != [] && Ascending(rs) && Compacts(rs, run, merged, lo)
    ensures Live(Stack(ReplaceRun(rs, run, merged))) == Live(Stack(rs))
  {
    hide Stack, Live, TombstoneGuard, Compacted, Contents, Gens, ReplaceRun, Compacts, Ascending;
    CompactsParts(rs, run, merged, lo);
    var older, inputs, newer := rs[..lo], rs[lo..lo + |run|], rs[lo + |run|..];
    var m := Reader(run[0], merged);
    ReplaceRunSplit(older, inputs, newer, merged);
    ReplaceKeepsReads(older, inputs, |inputs|, newer, m);
    assert older + [m] + inputs[|inputs|..] + newer == older + [m] + newer;
  }

  lemma {:induction false} CompactsParts(rs: seq<Reader>, run: seq<nat>, merged: Table, lo: nat)
    requires run != [] && Compacts(rs, run, merged, lo)
    ensures lo + |run| <= |rs| && rs == rs[..lo] + rs[lo..lo + |run|] + rs[lo + |run|..]
    ensures var inputs := rs[lo..lo + |run|];
            && inputs != [] && inputs[0].gen == run[0] && Gens(inputs) == run && merged == Compacted(Contents(inputs))
            && TombstoneGuard(Stack(rs[..lo]), Stack(inputs), Stack(rs[lo + |run|..]))
  {
    hide Stack, TombstoneGuard, Compacted, Contents;
    var inputs := rs[lo..lo + |run|];
    assert |Gens(inputs)| == |inputs| && Gens(inputs)[0] == inputs[0].gen;
  }

  lemma {:induction false} RemoveNone(rs: seq<Reader>)
    ensures RemoveEach(rs, []) == rs
  {
  }

  /** Of the directories before, exactly those are gone that are named and open. */
  ghost predicate Without(tables: seq<Reader>, before: seq<Reader>, names: seq<nat>, open: seq<Reader>)
  {
    forall g :: IndexOf(tables, g) >= 0 <==> IndexOf(before, g) >= 0 && !(g in names && IndexOf(open, g) >= 0)
  }

  lemma {:induction false} RemovedOne(tables: seq<Reader>, before: seq<Reader>, names: seq<nat>, open: seq<Reader>,
                                      p: nat)
    requires Ascending(tables) && Without(tables, before, names, open)
    ensures Ascending(Remove(tables, p))
    ensures Without(if IndexOf(open, p) >= 0 then Remove(tables, p) else tables, before, names + [p], open)
  {
    hide IndexOf, Remove, Ascending;
    RemoveOther(tables, p, p);
    if IndexOf(open, p) >= 0 {
      forall g ensures g != p ==> (IndexOf(Remove(tables, p), g) >= 0 <==> IndexOf(tables, g) >= 0) {
        RemoveOther(tables, p, g);
      }
    }
  }

  class Manager {
    var readers: seq<Reader>   // allSSTableReaders
    var current: seq<Reader>   // the readers behind the current super reader
    const disk: Directory

    constructor (disk: Directory)
      ensures readers == [] && current == [] && this.disk == disk
    {
      this.readers, this.current, this.disk := [], [], disk;
    }

    /** The table of the new reader overrides all others, and readers in the order of their generations stay so. */
    method AddReader(r: Reader)
      modifies this
      ensures readers == old(readers) + [r] && current == readers
      ensures Stack(current) == old(Stack(readers)) + r.table
      ensures old(Ascending(readers)) && (forall x :: x in old(readers) ==> x.gen < r.gen) ==> Ascending(readers)
    {
      hide Stack;
      StackConcat(readers, [r]);
      StackSingle(r);
      readers := readers + [r];
      current := readers;
    }

    /** The run to compact: `wanted` decides per table, and the gaps between wanted tables are filled. */
    method CandidateTablesForCompaction(wanted: Reader -> bool) returns (run: seq<Reader>)
      ensures run == Chosen(readers, Filled(Selection(readers, wanted)))
      ensures exists lo, hi :: 0 <= lo <= hi <= |readers| && run == readers[lo..hi]
      ensures forall r :: r in readers && wanted(r) ==> r in run
    {
      var a := new bool[|readers|];
      for i := 0 to |readers|
        invariant forall k :: 0 <= k < i ==> a[k] == wanted(readers[k])
      {
        a[i] := wanted(readers[i]);
      }
      ghost var sel := Selection(readers, wanted);
      assert a[..] == sel;
      FloodFill(a);
      run := [];
      for i := 0 to |readers|
        invariant run == Chosen(readers[..i], a[..i])
      {
        assert readers[..i + 1][..i] == readers[..i] && a[..i + 1][..i] == a[..i];
        if a[i] {
          run := run + [readers[i]];
        }
      }
      assert readers[..|readers|] == readers && a[..|readers|] == a[..];
      ghost var lo, hi := CandidatesAreContiguous(readers, sel);
      forall r | r in readers && wanted(r) ensures r in run {
        var k :| 0 <= k < |readers| && readers[k] == r;
        assert sel[k];
        assert run[k - lo] == r;
      }
    }

    /** Closes every open reader of the run and removes its directory, in the order of the run. */
    method RemoveRunFromDisk(run: seq<nat>)
      requires run != [] && Ascending(disk.tables)
      modifies disk`tables
      ensures Ascending(disk.tables)
      ensures (forall p :: p in run ==> IndexOf(readers, p) >= 0) ==> disk.tables == RemoveEach(old(disk.tables), run)
      ensures forall g :: IndexOf(disk.tables, g) >= 0
                     <==> IndexOf(old(disk.tables), g) >= 0 && !(g in run && IndexOf(readers, g) >= 0)
    {
      hide IndexOf, Remove, RemoveEach, Ascending;
      RemoveNone(disk.tables);
      for j := 0 to |run|
        invariant Ascending(disk.tables)
        invariant Without(disk.tables, old(disk.tables), run[..j], readers)
        invariant (forall p :: p in run ==> IndexOf(readers, p) >= 0) ==>
                    disk.tables == RemoveEach(old(disk.tables), run[..j])
      {
        assert run[..j + 1] == run[..j] + [run[j]];
        RemoveEachSnoc(old(disk.tables), run[..j], run[j]);
        RemovedOne(disk.tables, old(disk.tables), run[..j], readers, run[j]);
        assert run[j] in run;
        if IndexOf(readers, run[j]) >= 0 {
          disk.RemoveAll(run[j]);
        }
      }
      assert run[..|run|] == run;
    }

    /** Drops the remaining readers of the run from the list; fails at the first one that is not open. */
    method RemoveReaders(rest: seq<nat>) returns (ok: bool)
      requires Ascending(readers)
      requires forall i, j :: 0 <= i < j < |rest| ==> rest[i] != rest[j]
      modifies this`readers
      ensures ok <==> forall p :: p in rest ==> IndexOf(old(readers), p) >= 0
      ensures ok ==> readers == RemoveEach(old(readers), rest)
    {
      hide IndexOf, Remove, Ascending, RemoveEach;
      assert RemoveEach(readers, []) == readers by { RemoveNone(readers); }
      for j := 0 to |rest|
        invariant Ascending(readers) && readers == RemoveEach(old(readers), rest[..j])
        invariant forall k :: 0 <= k < j ==> IndexOf(old(readers), rest[k]) >= 0
        invariant forall k :: j <= k < |rest| ==>
                    (IndexOf(readers, rest[k]) >= 0 <==> IndexOf(old(readers), rest[k]) >= 0)
      {
        if IndexOf(readers, rest[j]) < 0 {
          assert rest[j] in rest;
          return false;
        }
        forall k | j <= k < |rest|
          ensures Ascending(Remove(readers, rest[j]))
          ensures k != j ==> (IndexOf(Remove(readers, rest[j]), rest[k]) >= 0 <==> IndexOf(readers, rest[k]) >= 0)
        {
          RemoveOther(readers, rest[j], rest[k]);
        }
        assert rest[..j + 1] == rest[..j] + [rest[j]];
        RemoveEachSnoc(old(readers), rest[..j], rest[j]);
        readers := Remove(readers, rest[j]);
      }
      assert rest[..|rest|] == rest;
      ok := true;
    }

    /**
     Replaces the run by the merged table, on disk and in the reader list. The metadata names the run by its
     directories, ascending; the first of them is the replacement path. It succeeds exactly when every member
     of the run is an open reader.
     */
    method ReflectCompactionResult(run: seq<nat>) returns (ok: bool)
      requires run != [] && disk.folder.Some?
      requires forall i, j :: 0 <= i < j < |run| ==> run[i] != run[j]
      requires Ascending(readers) && Ascending(disk.tables)
      modifies this, disk
      ensures ok <==> forall p :: p in run ==> IndexOf(old(readers), p) >= 0
      ensures ok ==> readers == ReplaceRun(old(readers), run, old(disk.folder).value) && current == readers
      ensures ok ==> forall lo: nat :: Compacts(old(readers), run, old(disk.folder).value, lo) ==>
                       Live(Stack(current)) == Live(old(Stack(readers)))
      ensures ok ==> disk.folder == None
      ensures ok ==> disk.tables == Insert(RemoveEach(old(disk.tables), run), Reader(run[0], old(disk.folder).value))
    {
      hide IndexOf, Remove, Ascending, RemoveEach, Insert, Stack, Live, Compacts;
      var merged := disk.folder.value;
      RemoveRunFromDisk(run);
      assert run[0] in run;
      ok := disk.RenameFolder(run[0]);
      if !ok {
        return;
      }
      var i := IndexOf(readers, run[0]);
      if i < 0 {
        return false;
      }
      readers := readers[i := Reader(run[0], merged)];
      forall p | p in run ensures Ascending(readers) && (IndexOf(readers, p) >= 0 <==> IndexOf(old(readers), p) >= 0) {
        SameName(old(readers), i, merged, p);
      }
      assert forall p :: p in run <==> p == run[0] || p in run[1..];
      ok := RemoveReaders(run[1..]);
      if ok {
        current := readers;
        forall lo: nat | Compacts(old(readers), run, merged, lo)
          ensures Live(Stack(current)) == Live(old(Stack(readers))) {
          ReplacementKeepsView(old(readers), run, merged, lo);
        }
      }
    }
  }
}
