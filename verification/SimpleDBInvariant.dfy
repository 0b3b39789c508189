/** The invariant of the step system, and what the log holds of it. */
module SimpleDBInvariant {
  import opened Bytes
  import opened Tables
  import opened Readers
  import opened SimpleDB

  // ---------- the invariant of a running database ----------

  // Every part takes exactly the fields it talks about, so that a step leaves alone what it does not touch.

  /** The table the flusher has written and not yet published. */
  function Unpublished(f: Flusher): seq<Reader>
  {
    if f.Written? || f.WalRemoved? then [Reader(f.gen, f.store)] else []
  }

  function Busy(f: Flusher): Table
  {
    if f.Idle? then map[] else f.store
  }

  function Pending(l: Lock): Table
  {
    if l.Sending? then l.store else map[]
  }

  /** The write store including an operation that is logged and about to be applied. */
  function Logged(write: Table, lock: Lock): Table
  {
    if lock.Writing? then StoreOp(write, lock.op) else write
  }

  /** The stores that only the log protects, oldest first: each is the replay of one log file. */
  function Unflushed(f: Flusher, lock: Lock, write: Table): seq<Table>
  {
    (if f.Received? || f.Written? then [f.store] else []) +
    (if lock.Sending? then [lock.store] else []) + [Logged(write, lock)]
  }

  function FlushWal(f: Flusher): Option<nat>
  {
    if f.Received? || f.Written? then Some(f.wal) else None
  }

  function SendWal(l: Lock): Option<nat>
  {
    if l.Sending? then Some(l.wal) else None
  }

  /** How far the removal of a compacted run has come. */
  datatype Progress = NotStarted | Removed(n: nat) | Renamed

  function ProgressOf(l: Lock): Progress
  {
    if l.Reflecting? then Removed(l.removed) else if l.Reflected? then Renamed else NotStarted
  }

  ghost predicate GenInv(tables: seq<Reader>, gen: nat)
  {
    && Ascending(tables)
    && forall r :: r in tables ==> r.gen <= gen
  }

  /** Readers, the store being flushed, the store waiting for the flusher and the write store show the map. */
  ghost predicate ViewInv(readers: seq<Reader>, busy: Table, pending: Table, logged: Table, spec: map<bytes, bytes>)
  {
    Live(Stack(readers) + busy + pending + logged) == spec
  }

  /** The read store is the newest store that the readers may not show yet, or adds nothing to them. */
  ghost predicate ReadInv(readers: seq<Reader>, f: Flusher, lock: Lock, read: Table)
  {
    if lock.Sending? then read == lock.store
    else if !f.Idle? then read == f.store
    else Live(Stack(readers) + read) == Live(Stack(readers))
  }

  /** The log: files without operations, then one file per unflushed store. */
  ghost predicate WalInv(unflushed: seq<Table>, flushWal: Option<nat>, sendWal: Option<nat>, nextWal: nat,
                         wals: seq<WalFile>)
  {
    var n := |wals| - |unflushed|;
    && 0 <= n
    && (forall i :: 0 <= i < n ==> wals[i].ops == [])
    && (forall i :: n <= i < |wals| ==> Replay(wals[i].ops) == unflushed[i - n])
    && (forall i, j :: 0 <= i < j < |wals| ==> wals[i].number < wals[j].number)
    && (forall i :: 0 <= i < |wals| ==> wals[i].number < nextWal)
    && (flushWal.Some? ==> |unflushed| >= 1 && wals[n].number == flushWal.value)
    && (sendWal.Some? ==> |unflushed| >= 2 && wals[|wals| - 2].number == sendWal.value)
  }

  /** The run of a compaction as it lies in the reader list, starting at `lo`. */
  ghost predicate RunAt(readers: seq<Reader>, run: seq<nat>, lo: nat)
  {
    && run != [] && lo + |run| <= |readers|
    && Gens(readers[lo..lo + |run|]) == run
    && TombstoneGuard(Stack(readers[..lo]), Stack(readers[lo..lo + |run|]), Stack(readers[lo + |run|..]))
  }

  ghost predicate CompactorInv(readers: seq<Reader>, c: Compactor, p: Progress, folder: Option<Folder>, lo: nat)
  {
    match c
    case NoCompaction => folder == None && p.NotStarted?
    case Selected(run) => folder == None && p.NotStarted? && RunAt(readers, run, lo)
    case Merging(run) => folder.Some? && !folder.value.committed && p.NotStarted? && RunAt(readers, run, lo)
    case Finished(run) =>
      && RunAt(readers, run, lo)
      && (p.Removed? ==> p.n <= |run|)
      && if p.Renamed? then folder == None
         else
           var inputs := readers[lo..lo + |run|];
           folder == Some(Folder(run, inputs, Compacted(Contents(inputs)), true))
  }

  /** The table directories that belong to the reader list. */
  ghost function Listing(readers: seq<Reader>, c: Compactor, p: Progress, lo: nat): seq<Reader>
  {
    match c
    case Finished(run) =>
      if run == [] || lo + |run| > |readers| then readers
      else if p.Removed? && p.n <= |run| then readers[..lo] + readers[lo + p.n..]
      else if p.Renamed? then
        readers[..lo] + [Reader(run[0], Compacted(Contents(readers[lo..lo + |run|])))] + readers[lo + |run|..]
      else readers
    case _ => readers
  }

  ghost predicate DiskInv(readers: seq<Reader>, c: Compactor, p: Progress, folder: Option<Folder>,
                          unpublished: seq<Reader>, tables: seq<Reader>, lo: nat)
  {
    && CompactorInv(readers, c, p, folder, lo)
    && tables == Listing(readers, c, p, lo) + unpublished
  }

  /** Every pending GetBytes will answer from the current map. */
  ghost predicate GetInv(gets: map<nat, PendingGet>, free: bool, read: Table, write: Table, spec: map<bytes, bytes>)
  {
    && (gets != map[] ==> free)
    && forall id :: id in gets ==>
         Decide(gets[id].table, RWGet(read, write, gets[id].key)) == SpecGet(spec, gets[id].key)
  }

  ghost predicate StoreValid(t: Table)
  {
    forall k :: k in t && t[k].Some? ==> t[k].value != []
  }

  ghost predicate OpsValid(wals: seq<WalFile>)
  {
    forall op :: op in AllOps(wals) ==> ValidOp(op)
  }

  ghost predicate DiskAt(m: Memory, d: Disk, lo: nat)
  {
    DiskInv(m.readers, m.compactor, ProgressOf(m.lock), d.folder, Unpublished(m.flusher), d.tables, lo)
  }

  ghost predicate RunningInv(m: Memory, d: Disk, spec: map<bytes, bytes>)
  {
    && GenInv(m.readers + Unpublished(m.flusher), m.gen)
    && ViewInv(m.readers, Busy(m.flusher), Pending(m.lock), Logged(m.write, m.lock), spec)
    && ReadInv(m.readers, m.flusher, m.lock, m.read)
    && WalInv(Unflushed(m.flusher, m.lock, m.write), FlushWal(m.flusher), SendWal(m.lock), m.nextWal, d.wals)
    && GetInv(m.gets, m.lock.Free?, m.read, m.write, spec)
    && StoreValid(m.read) && StoreValid(Logged(m.write, m.lock)) && OpsValid(d.wals)
    && exists lo: nat :: DiskAt(m, d, lo)
  }

  // ---------- the invariant of recovery ----------

  ghost predicate DiskView(d: Disk, spec: map<bytes, bytes>)
  {
    Live(Stack(d.tables) + Replay(AllOps(d.wals))) == spec
  }

  /** A finished compaction of `inputs`, which lie between `older` and `newer`. */
  ghost predicate Compaction(f: Folder, older: seq<Reader>, newer: seq<Reader>)
  {
    && f.inputs != [] && f.run == Gens(f.inputs) && f.merged == Compacted(Contents(f.inputs))
    && Ascending(older + f.inputs + newer)
    && TombstoneGuard(Stack(older), Stack(f.inputs), Stack(newer))
  }

  /** A committed compaction folder beside a newest suffix of its inputs. */
  ghost predicate Unfinished(d: Disk, spec: map<bytes, bytes>, older: seq<Reader>, i: nat, newer: seq<Reader>)
  {
    && d.folder.Some? && d.folder.value.committed && Compaction(d.folder.value, older, newer)
    && i <= |d.folder.value.inputs|
    && d.tables == older + d.folder.value.inputs[i..] + newer
    && Live(Stack(older + d.folder.value.inputs + newer) + Replay(AllOps(d.wals))) == spec
  }

  /** The merged table in place, the inputs from `left` on still there; the repair will remove `next` now. */
  ghost predicate Leftovers(f: Folder, next: nat, left: nat, d: Disk, spec: map<bytes, bytes>, older: seq<Reader>,
                            newer: seq<Reader>)
  {
    && d.folder == None && Compaction(f, older, newer) && 1 <= next <= left <= |f.inputs|
    && d.tables == older + [Reader(f.run[0], f.merged)] + f.inputs[left..] + newer
    && Live(Stack(older + f.inputs + newer) + Replay(AllOps(d.wals))) == spec
  }

  ghost predicate Recoverable(d: Disk, spec: map<bytes, bytes>)
  {
    && Ascending(d.tables)
    && if d.folder.Some? && d.folder.value.committed
       then exists older, i: nat, newer :: Unfinished(d, spec, older, i, newer)
       else DiskView(d, spec)
  }

  ghost predicate Opened(readers: seq<Reader>, gen: nat, d: Disk)
  {
    && d.folder == None && readers == d.tables && Ascending(readers)
    && gen == NewestGen(readers)
  }

  /** The generation of the last table, or 0 without tables. */
  function NewestGen(rs: seq<Reader>): nat
  {
    if rs == [] then 0 else rs[|rs| - 1].gen
  }

  lemma {:induction false} NewestBounds(rs: seq<Reader>)
    requires Ascending(rs)
    ensures forall r :: r in rs ==> r.gen <= NewestGen(rs)
  {
  }

  ghost predicate Recovered(readers: seq<Reader>, read: Table, spec: map<bytes, bytes>)
  {
    Live(Stack(readers)) == spec && Live(Stack(readers) + read) == spec && StoreValid(read)
  }

  ghost predicate RecoveryInv(stage: Recovery, d: Disk, spec: map<bytes, bytes>)
  {
    && OpsValid(d.wals)
    && match stage
       case Repair => Recoverable(d, spec)
       case RepairRename(f) =>
         && d.folder == Some(f)
         && exists older, i: nat, newer :: Unfinished(d, spec, older, i, newer) && i >= 1
       case RepairRest(f, next) => exists left: nat, older, newer :: Leftovers(f, next, left, d, spec, older, newer)
       case Reconstruct => d.folder == None && Ascending(d.tables) && DiskView(d, spec)
       case ReplayWal(readers, gen) => Opened(readers, gen, d) && DiskView(d, spec)
       case CleanWal(readers, gen, read) =>
         && Opened(readers, gen, d) && DiskView(d, spec)
         && Recovered(readers, read, spec)
       case Fresh(readers, gen, read) => Opened(readers, gen, d) && d.wals == [] && Recovered(readers, read, spec)
  }

  ghost predicate Inv(s: State, spec: map<bytes, bytes>)
  {
    match s
    case Running(m, d) => RunningInv(m, d, spec)
    case Recovering(stage, d) => RecoveryInv(stage, d, spec)
  }

  // ---------- the log ----------

  lemma {:induction false} ReplayConcat(a: seq<Op>, b: seq<Op>)
    ensures Replay(a + b) == Replay(a) + Replay(b)
  {
    if b == [] {
      assert a + b == a;
    } else {
      var b' := b[..|b| - 1];
      assert (a + b)[..|a + b| - 1] == a + b';
      ReplayConcat(a, b');
    }
  }

  lemma {:induction false} AllOpsConcat(a: seq<WalFile>, b: seq<WalFile>)
    ensures AllOps(a + b) == AllOps(a) + AllOps(b)
  {
    if b == [] {
      assert a + b == a;
    } else {
      var b' := b[..|b| - 1];
      assert (a + b)[..|a + b| - 1] == a + b';
      AllOpsConcat(a, b');
      assert AllOps(a) + AllOps(b') + b[|b| - 1].ops == AllOps(a) + (AllOps(b') + b[|b| - 1].ops);
    }
  }

  lemma {:induction false} EmptyLogs(wals: seq<WalFile>)
    requires forall i :: 0 <= i < |wals| ==> wals[i].ops == []
    ensures AllOps(wals) == []
  {
    if wals != [] {
      EmptyLogs(wals[..|wals| - 1]);
    }
  }

  lemma {:induction false} ReplayNonEmpty(ops: seq<Op>)
    ensures Replay(ops) == map[] <==> ops == []
  {
    if ops != [] {
      assert ops[|ops| - 1].key in Replay(ops);
    }
  }

  /** Log files that replay to the given stores replay, together, to their override. */
  lemma {:induction false} ReplayFiles(wals: seq<WalFile>, parts: seq<Table>)
    requires |wals| == |parts|
    requires forall i :: 0 <= i < |wals| ==> Replay(wals[i].ops) == parts[i]
    ensures Replay(AllOps(wals)) == Merge(parts)
  {
    if wals != [] {
      var n := |wals| - 1;
      ReplayFiles(wals[..n], parts[..n]);
      ReplayConcat(AllOps(wals[..n]), wals[n].ops);
    }
  }

  /** The log replays exactly to the unflushed stores. */
  lemma {:induction false} LogProtects(unflushed: seq<Table>, flushWal: Option<nat>, sendWal: Option<nat>, nextWal: nat,
                                       wals: seq<WalFile>)
    requires WalInv(unflushed, flushWal, sendWal, nextWal, wals)
    ensures Replay(AllOps(wals)) == Merge(unflushed)
  {
    var n := |wals| - |unflushed|;
    assert wals == wals[..n] + wals[n..];
    AllOpsConcat(wals[..n], wals[n..]);
    EmptyLogs(wals[..n]);
    ReplayFiles(wals[n..], unflushed);
    assert AllOps(wals) == AllOps(wals[n..]);
  }
}
