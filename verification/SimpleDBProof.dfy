/** Preservation of the invariant by every step of a running database. */
module SimpleDBProof {
  import opened Bytes
  import opened Tables
  import opened Readers
  import opened SSTableManager
  import opened SimpleDB
  import opened SimpleDBInvariant

  // ---------- writers ----------

  lemma {:induction false} LiveOp(base: Table, w: Table, op: Op)
    requires ValidOp(op)
    ensures Live(base + StoreOp(w, op)) == SpecOp(Live(base + w), op)
  {
    var a, b := Live(base + StoreOp(w, op)), SpecOp(Live(base + w), op);
    forall k ensures (k in a <==> k in b) && (k in a ==> a[k] == b[k]) {
      assert k != op.key ==> (k in base + StoreOp(w, op) <==> k in base + w);
    }
  }

  lemma {:induction false} ViewAppend(readers: seq<Reader>, busy: Table, pending: Table, write: Table,
                                      spec: map<bytes, bytes>, op: Op)
    requires ViewInv(readers, busy, pending, write, spec) && ValidOp(op)
    ensures ViewInv(readers, busy, pending, StoreOp(write, op), SpecOp(spec, op))
  {
    LiveOp(Stack(readers) + busy + pending, write, op);
  }

  lemma {:induction false} OpsAppend(wals: seq<WalFile>, op: Op)
    requires wals != [] && OpsValid(wals) && ValidOp(op)
    ensures OpsValid(LogTo(wals, op))
  {
    var n := |wals| - 1;
    assert LogTo(wals, op)[..n] == wals[..n];
    assert AllOps(LogTo(wals, op)) == AllOps(wals) + [op];
  }

  lemma {:induction false} LogAppend(f: Flusher, write: Table, op: Op, nextWal: nat, wals: seq<WalFile>)
    requires WalInv(Unflushed(f, Free, write), FlushWal(f), None, nextWal, wals) && wals != []
    ensures WalInv(Unflushed(f, Writing(op), write), FlushWal(f), None, nextWal, LogTo(wals, op))
  {
    var n := |wals| - 1;
    assert (wals[n].ops + [op])[..|wals[n].ops|] == wals[n].ops;
    assert Replay(wals[n].ops + [op]) == StoreOp(Replay(wals[n].ops), op);
  }

  lemma {:induction false} StoreOpValid(t: Table, op: Op)
    requires StoreValid(t) && ValidOp(op)
    ensures StoreValid(StoreOp(t, op))
  {
  }

  lemma {:induction false} AppendStep(m: Memory, d: Disk, op: Op, spec: map<bytes, bytes>)
    requires RunningInv(m, d, spec) && m.lock.Free? && m.gets == map[] && ValidOp(op) && d.wals != []
    ensures RunningInv(m.(lock := Writing(op)), d.(wals := LogTo(d.wals, op)), SpecOp(spec, op))
  {
    hide GenInv, ViewInv, WalInv, StoreValid, OpsValid, DiskInv, Stack, Live, StoreOp, LogTo;
    var lo: nat :| DiskAt(m, d, lo);
    ViewAppend(m.readers, Busy(m.flusher), map[], m.write, spec, op);
    LogAppend(m.flusher, m.write, op, m.nextWal, d.wals);
    StoreOpValid(m.write, op);
    OpsAppend(d.wals, op);
    assert DiskAt(m.(lock := Writing(op)), d.(wals := LogTo(d.wals, op)), lo);
  }

  lemma {:induction false} ApplyStep(m: Memory, d: Disk, spec: map<bytes, bytes>)
    requires RunningInv(m, d, spec) && m.lock.Writing?
    ensures RunningInv(m.(write := StoreOp(m.write, m.lock.op), lock := Free), d, spec)
  {
    hide GenInv, ViewInv, WalInv, StoreValid, OpsValid, DiskInv, Stack, Live, StoreOp;
    var lo: nat :| DiskAt(m, d, lo);
    assert DiskAt(m.(write := StoreOp(m.write, m.lock.op), lock := Free), d, lo);
  }

  lemma {:induction false} ViewRotate(readers: seq<Reader>, busy: Table, write: Table, spec: map<bytes, bytes>)
    requires ViewInv(readers, busy, map[], write, spec)
    ensures ViewInv(readers, busy, write, map[], spec)
  {
    hide Stack, Live;
    var base := Stack(readers) + busy;
    assert base + map[] + write == base + write + map[];
  }

  lemma {:induction false} LogRotate(unflushed: seq<Table>, flushWal: Option<nat>, nextWal: nat, wals: seq<WalFile>)
    requires WalInv(unflushed, flushWal, None, nextWal, wals) && unflushed != []
    ensures WalInv(unflushed + [map[]], flushWal, Some(wals[|wals| - 1].number), nextWal + 1,
                   wals + [WalFile(nextWal, [])])
  {
  }

  lemma {:induction false} OpsRotate(wals: seq<WalFile>, number: nat)
    requires OpsValid(wals)
    ensures OpsValid(wals + [WalFile(number, [])])
  {
    assert (wals + [WalFile(number, [])])[..|wals|] == wals;
  }

  lemma {:induction false} RotateStep(m: Memory, d: Disk, spec: map<bytes, bytes>)
    requires RunningInv(m, d, spec) && m.lock.Free? && m.gets == map[] && d.wals != []
    ensures RunningInv(
              m.(read := m.write, write := map[], nextWal := m.nextWal + 1,
                 lock := Sending(m.write, d.wals[|d.wals| - 1].number)),
              d.(wals := d.wals + [WalFile(m.nextWal, [])]), spec)
  {
    hide GenInv, ViewInv, WalInv, OpsValid, DiskInv, Stack, Live;
    var lock := Sending(m.write, d.wals[|d.wals| - 1].number);
    var lo: nat :| DiskAt(m, d, lo);
    ViewRotate(m.readers, Busy(m.flusher), m.write, spec);
    assert Unflushed(m.flusher, lock, map[]) == Unflushed(m.flusher, Free, m.write) + [map[]];
    LogRotate(Unflushed(m.flusher, Free, m.write), FlushWal(m.flusher), m.nextWal, d.wals);
    OpsRotate(d.wals, m.nextWal);
    assert DiskAt(m.(read := m.write, write := map[], nextWal := m.nextWal + 1, lock := lock),
                  d.(wals := d.wals + [WalFile(m.nextWal, [])]), lo);
  }

  lemma {:induction false} ViewRendezvous(readers: seq<Reader>, store: Table, write: Table, spec: map<bytes, bytes>)
    requires ViewInv(readers, map[], store, write, spec)
    ensures ViewInv(readers, store, map[], write, spec)
  {
    hide Stack, Live;
    var base := Stack(readers);
    assert base + map[] + store + write == base + store + map[] + write;
  }

  lemma {:induction false} LogRendezvous(a: Table, b: Table, wal: nat, nextWal: nat, wals: seq<WalFile>)
    requires WalInv([a, b], None, Some(wal), nextWal, wals)
    ensures WalInv([a, b], Some(wal), None, nextWal, wals)
  {
  }

  lemma {:induction false} RendezvousStep(m: Memory, d: Disk, spec: map<bytes, bytes>)
    requires RunningInv(m, d, spec) && m.lock.Sending? && m.flusher.Idle?
    ensures RunningInv(m.(flusher := Received(m.lock.store, m.lock.wal), lock := Free), d, spec)
  {
    hide GenInv, ViewInv, WalInv, StoreValid, OpsValid, DiskInv, Stack, Live;
    var m' := m.(flusher := Received(m.lock.store, m.lock.wal), lock := Free);
    var lo: nat :| DiskAt(m, d, lo);
    ViewRendezvous(m.readers, m.lock.store, m.write, spec);
    assert Unflushed(m.flusher, m.lock, m.write) == [m.lock.store, m.write] == Unflushed(m'.flusher, m'.lock, m.write);
    LogRendezvous(m.lock.store, m.write, m.lock.wal, m.nextWal, d.wals);
    assert DiskAt(m', d, lo);
  }

  // ---------- the flusher ----------

  lemma {:induction false} LogSkip(rest: seq<Table>, flushWal: Option<nat>, sendWal: Option<nat>, nextWal: nat,
                                   wals: seq<WalFile>)
    requires WalInv([map[]] + rest, flushWal, sendWal, nextWal, wals)
    requires sendWal.Some? ==> |rest| >= 2
    ensures WalInv(rest, None, sendWal, nextWal, wals)
  {
    ReplayNonEmpty(wals[|wals| - |rest| - 1].ops);
  }

  lemma {:induction false} ReadSkip(readers: seq<Reader>, lock: Lock, store: Table, wal: nat, read: Table)
    requires ReadInv(readers, Received(store, wal), lock, read) && store == map[]
    ensures ReadInv(readers, Idle, lock, read)
  {
    assert Stack(readers) + map[] == Stack(readers);
  }

  lemma {:induction false} FlushSkipStep(m: Memory, d: Disk, spec: map<bytes, bytes>)
    requires RunningInv(m, d, spec) && m.flusher.Received? && m.flusher.store == map[]
    ensures RunningInv(m.(flusher := Idle), d, spec)
  {
    hide GenInv, ViewInv, ReadInv, WalInv, GetInv, StoreValid, OpsValid, DiskInv, Stack, Live;
    var lo: nat :| DiskAt(m, d, lo);
    ReadSkip(m.readers, m.lock, m.flusher.store, m.flusher.wal, m.read);
    assert Unflushed(m.flusher, m.lock, m.write) == [map[]] + Unflushed(Idle, m.lock, m.write);
    LogSkip(Unflushed(Idle, m.lock, m.write), FlushWal(m.flusher), SendWal(m.lock), m.nextWal, d.wals);
    assert DiskAt(m.(flusher := Idle), d, lo);
  }

  lemma {:induction false} InsertLast(rs: seq<Reader>, r: Reader)
    requires forall x :: x in rs ==> x.gen < r.gen
    ensures Insert(rs, r) == rs + [r]
  {
    if rs != [] {
      InsertLast(rs[1..], r);
      assert rs[0] in rs;
    }
  }

  lemma {:induction false} ListingBelow(readers: seq<Reader>, c: Compactor, p: Progress, folder: Option<Folder>,
                                        lo: nat, gen: nat)
    requires CompactorInv(readers, c, p, folder, lo) && forall r :: r in readers ==> r.gen <= gen
    ensures forall x :: x in Listing(readers, c, p, lo) ==> x.gen <= gen
  {
    hide Compacted, Contents, Stack, TombstoneGuard;
    if p.Renamed? {
      assert readers[lo] in readers;
      assert Gens(readers[lo..lo + |c.run|])[0] == readers[lo].gen;
    }
  }

  lemma {:induction false} DiskWrite(readers: seq<Reader>, c: Compactor, p: Progress, folder: Option<Folder>,
                                     tables: seq<Reader>, lo: nat, gen: nat, store: Table)
    requires DiskInv(readers, c, p, folder, [], tables, lo) && GenInv(readers, gen)
    ensures DiskInv(readers, c, p, folder, [Reader(gen + 1, store)], Insert(tables, Reader(gen + 1, store)), lo)
  {
    ListingBelow(readers, c, p, folder, lo, gen);
    hide CompactorInv, Listing;
    assert tables == Listing(readers, c, p, lo);
    InsertLast(tables, Reader(gen + 1, store));
  }

  lemma {:induction false} GenWrite(readers: seq<Reader>, gen: nat, store: Table)
    requires GenInv(readers, gen)
    ensures GenInv(readers + [Reader(gen + 1, store)], gen + 1)
  {
  }

  lemma {:induction false} FlushWriteStep(m: Memory, d: Disk, spec: map<bytes, bytes>)
    requires RunningInv(m, d, spec) && m.flusher.Received?
    ensures RunningInv(
              m.(gen := m.gen + 1, flusher := Written(m.flusher.store, m.flusher.wal, m.gen + 1)),
              d.(tables := Insert(d.tables, Reader(m.gen + 1, m.flusher.store))), spec)
  {
    hide GenInv, ViewInv, WalInv, GetInv, StoreValid, OpsValid, DiskInv, Stack, Live, Insert;
    var lo: nat :| DiskAt(m, d, lo);
    assert m.readers + [] == m.readers;
    DiskWrite(m.readers, m.compactor, ProgressOf(m.lock), d.folder, d.tables, lo, m.gen, m.flusher.store);
    GenWrite(m.readers, m.gen, m.flusher.store);
    assert DiskAt(m.(gen := m.gen + 1, flusher := Written(m.flusher.store, m.flusher.wal, m.gen + 1)),
                  d.(tables := Insert(d.tables, Reader(m.gen + 1, m.flusher.store))), lo);
  }

  lemma {:induction false} RemoveWalAt(wals: seq<WalFile>, i: nat)
    requires i < |wals|
    requires forall a, b :: 0 <= a < b < |wals| ==> wals[a].number < wals[b].number
    ensures RemoveWal(wals, wals[i].number) == wals[..i] + wals[i + 1..]
  {
    if i > 0 {
      RemoveWalAt(wals[1..], i - 1);
    }
  }

  lemma {:induction false} OpsRemove(wals: seq<WalFile>, number: nat)
    ensures forall op :: op in AllOps(RemoveWal(wals, number)) ==> op in AllOps(wals)
  {
    if wals != [] {
      var tail := RemoveWal(wals[1..], number);
      assert wals == [wals[0]] + wals[1..];
      AllOpsConcat([wals[0]], wals[1..]);
      AllOpsConcat([wals[0]], tail);
      OpsRemove(wals[1..], number);
    }
  }

  lemma {:induction false} LogRemove(store: Table, rest: seq<Table>, wal: nat, sendWal: Option<nat>, nextWal: nat,
                                     wals: seq<WalFile>)
    requires WalInv([store] + rest, Some(wal), sendWal, nextWal, wals) && OpsValid(wals)
    requires sendWal.Some? ==> |rest| >= 2
    ensures WalInv(rest, None, sendWal, nextWal, RemoveWal(wals, wal)) && OpsValid(RemoveWal(wals, wal))
  {
    hide Replay, AllOps, RemoveWal;
    var n := |wals| - |rest| - 1;
    RemoveWalAt(wals, n);
    OpsRemove(wals, wal);
    var wals' := wals[..n] + wals[n + 1..];
    assert forall i :: 0 <= i < |wals'| ==> wals'[i] == wals[if i < n then i else i + 1];
  }

  lemma {:induction false} FlushRemoveWalStep(m: Memory, d: Disk, spec: map<bytes, bytes>)
    requires RunningInv(m, d, spec) && m.flusher.Written?
    ensures RunningInv(m.(flusher := WalRemoved(m.flusher.store, m.flusher.gen)),
                       d.(wals := RemoveWal(d.wals, m.flusher.wal)), spec)
  {
    hide GenInv, ViewInv, WalInv, GetInv, StoreValid, OpsValid, DiskInv, Stack, Live, RemoveWal;
    var f' := WalRemoved(m.flusher.store, m.flusher.gen);
    var lo: nat :| DiskAt(m, d, lo);
    assert Unflushed(m.flusher, m.lock, m.write) == [m.flusher.store] + Unflushed(f', m.lock, m.write);
    LogRemove(m.flusher.store, Unflushed(f', m.lock, m.write), m.flusher.wal, SendWal(m.lock), m.nextWal, d.wals);
    assert DiskAt(m.(flusher := f'), d.(wals := RemoveWal(d.wals, m.flusher.wal)), lo);
  }

  lemma {:induction false} GuardGrows(older: Table, run: Table, newer: Table, t: Table)
    requires TombstoneGuard(older, run, newer)
    ensures TombstoneGuard(older, run, newer + t)
  {
  }

  lemma {:induction false} RunAtGrows(readers: seq<Reader>, run: seq<nat>, lo: nat, r: Reader)
    requires RunAt(readers, run, lo)
    ensures RunAt(readers + [r], run, lo)
  {
    hide Stack, TombstoneGuard;
    var hi := lo + |run|;
    assert (readers + [r])[..lo] == readers[..lo] && (readers + [r])[lo..hi] == readers[lo..hi];
    assert (readers + [r])[hi..] == readers[hi..] + [r];
    StackConcat(readers[hi..], [r]);
    GuardGrows(Stack(readers[..lo]), Stack(readers[lo..hi]), Stack(readers[hi..]), Stack([r]));
  }

  lemma {:induction false} DiskPublish(readers: seq<Reader>, c: Compactor, folder: Option<Folder>, r: Reader,
                                       tables: seq<Reader>, lo: nat)
    requires DiskInv(readers, c, NotStarted, folder, [r], tables, lo)
    ensures DiskInv(readers + [r], c, NotStarted, folder, [], tables, lo)
  {
    hide Compacted, Contents, RunAt;
    if !c.NoCompaction? {
      RunAtGrows(readers, c.run, lo, r);
      assert lo + |c.run| <= |readers| by { RunAtBounds(readers, c.run, lo); }
      assert (readers + [r])[lo..lo + |c.run|] == readers[lo..lo + |c.run|];
    }
    assert readers + [r] + [] == readers + [r];
  }

  lemma {:induction false} RunAtBounds(readers: seq<Reader>, run: seq<nat>, lo: nat)
    requires RunAt(readers, run, lo)
    ensures run != [] && lo + |run| <= |readers|
  {
  }

  lemma {:induction false} ViewPublish(readers: seq<Reader>, r: Reader, pending: Table, logged: Table,
                                       spec: map<bytes, bytes>)
    requires ViewInv(readers, r.table, pending, logged, spec)
    ensures ViewInv(readers + [r], map[], pending, logged, spec)
  {
    hide Stack, Live;
    StackConcat(readers, [r]);
    StackSingle(r);
    var base := Stack(readers) + r.table;
    assert base + map[] == base;
  }

  lemma {:induction false} ReadPublish(readers: seq<Reader>, r: Reader)
    ensures Live(Stack(readers + [r]) + r.table) == Live(Stack(readers + [r]))
  {
    hide Stack, Live;
    StackConcat(readers, [r]);
    StackSingle(r);
    var base := Stack(readers) + r.table;
    assert base + r.table == base;
  }

  lemma {:induction false} PublishStep(m: Memory, d: Disk, spec: map<bytes, bytes>)
    requires RunningInv(m, d, spec) && m.flusher.WalRemoved? && !m.lock.Reflecting? && !m.lock.Reflected?
    ensures RunningInv(m.(readers := m.readers + [Reader(m.flusher.gen, m.flusher.store)], flusher := Idle), d, spec)
  {
    hide GenInv, ViewInv, WalInv, GetInv, StoreValid, OpsValid, DiskInv, Stack, Live;
    var r := Reader(m.flusher.gen, m.flusher.store);
    var lo: nat :| DiskAt(m, d, lo);
    DiskPublish(m.readers, m.compactor, d.folder, r, d.tables, lo);
    ViewPublish(m.readers, r, Pending(m.lock), Logged(m.write, m.lock), spec);
    ReadPublish(m.readers, r);
    assert m.readers + [r] + [] == m.readers + [r];
    assert DiskAt(m.(readers := m.readers + [r], flusher := Idle), d, lo);
  }

  // ---------- readers ----------

  /**
   Reading tables first and memstores second finds the value of the stacked view, whoever wins, if and only if
   the memstores do not answer with an empty value.
   */
  lemma {:induction false} DecideIsLive(base: Table, read: Table, write: Table, k: bytes)
    ensures Decide(TableGet(base, k), RWGet(read, write, k)) == SpecGet(Live(base + read + write), k)
            <==> RWGet(read, write, k) != MemValue([])
  {
    var all := base + read + write;
    assert k in all <==> k in base || k in read || k in write;
  }

  lemma {:induction false} NoEmptyAnswer(read: Table, write: Table, k: bytes)
    requires StoreValid(read) && StoreValid(write)
    ensures RWGet(read, write, k) != MemValue([])
  {
  }

  /** The read store hides nothing: with the lock free, readers, read store and write store show the map. */
  lemma {:induction false} MemoryView(readers: seq<Reader>, f: Flusher, read: Table, write: Table,
                                      spec: map<bytes, bytes>)
    requires ViewInv(readers, Busy(f), map[], write, spec) && ReadInv(readers, f, Free, read)
    ensures Live(Stack(readers) + read + write) == spec
  {
    hide Stack;
    var base := Stack(readers);
    if f.Idle? {
      LiveCongruence(base + read, base, write);
      assert base + map[] + map[] + write == base + write;
    } else {
      assert base + read + map[] + write == base + read + write;
    }
  }

  lemma {:induction false} GetBeginStep(m: Memory, d: Disk, spec: map<bytes, bytes>, id: nat, k: bytes)
    requires RunningInv(m, d, spec) && m.lock.Free?
    ensures RunningInv(m.(gets := m.gets[id := PendingGet(k, TableGet(Stack(m.readers), k))]), d, spec)
  {
    hide GenInv, ViewInv, WalInv, StoreValid, OpsValid, DiskInv, Stack, Live, ReadInv, Decide, RWGet, TableGet, SpecGet;
    var lo: nat :| DiskAt(m, d, lo);
    MemoryView(m.readers, m.flusher, m.read, m.write, spec);
    DecideIsLive(Stack(m.readers), m.read, m.write, k);
    NoEmptyAnswer(m.read, m.write, k);
    assert DiskAt(m.(gets := m.gets[id := PendingGet(k, TableGet(Stack(m.readers), k))]), d, lo);
  }

  lemma {:induction false} GetEndStep(m: Memory, d: Disk, spec: map<bytes, bytes>, id: nat)
    requires RunningInv(m, d, spec) && id in m.gets
    ensures RunningInv(m.(gets := m.gets - {id}), d, spec)
  {
    hide GenInv, ViewInv, WalInv, StoreValid, OpsValid, DiskInv, Stack, Live, ReadInv, Decide, RWGet, TableGet, SpecGet;
    var lo: nat :| DiskAt(m, d, lo);
    assert DiskAt(m.(gets := m.gets - {id}), d, lo);
  }

  // ---------- the compactor ----------

  lemma {:induction false} SelectRun(readers: seq<Reader>, sel: seq<bool>) returns (lo: nat)
    requires |sel| == |readers| && Ascending(readers)
    requires Chosen(readers, Filled(sel)) != [] && RunGuard(readers, Gens(Chosen(readers, Filled(sel))))
    ensures RunAt(readers, Gens(Chosen(readers, Filled(sel))), lo)
  {
    hide Filled, Stack, TombstoneGuard, Chosen;
    var hi;
    lo, hi := CandidatesAreContiguous(readers, sel);
    var run := Gens(Chosen(readers, Filled(sel)));
    assert |run| == hi - lo && run[0] == readers[lo].gen;
    IndexOfAscending(readers, lo);
    assert readers[lo..lo + |run|] == readers[lo..hi];
  }

  lemma {:induction false} PrefixAscending(a: seq<Reader>, b: seq<Reader>, gen: nat)
    requires GenInv(a + b, gen)
    ensures GenInv(a, gen)
  {
    assert forall i :: 0 <= i < |a| ==> (a + b)[i] == a[i];
    assert forall r :: r in a ==> r in a + b;
  }

  lemma {:induction false} SelectStep(m: Memory, d: Disk, spec: map<bytes, bytes>, sel: seq<bool>)
    requires RunningInv(m, d, spec) && m.compactor.NoCompaction? && |sel| == |m.readers|
    requires Chosen(m.readers, Filled(sel)) != [] && RunGuard(m.readers, Gens(Chosen(m.readers, Filled(sel))))
    ensures RunningInv(m.(compactor := Selected(Gens(Chosen(m.readers, Filled(sel))))), d, spec)
  {
    hide ViewInv, WalInv, GetInv, StoreValid, OpsValid, Stack, Live, RunGuard, RunAt, Chosen, Filled, Ascending;
    var l: nat :| DiskAt(m, d, l);
    PrefixAscending(m.readers, Unpublished(m.flusher), m.gen);
    var lo := SelectRun(m.readers, sel);
    assert DiskAt(m.(compactor := Selected(Gens(Chosen(m.readers, Filled(sel))))), d, lo);
  }

  lemma {:induction false} StartMergeStep(m: Memory, d: Disk, spec: map<bytes, bytes>)
    requires RunningInv(m, d, spec) && m.compactor.Selected?
    ensures RunningInv(m.(compactor := Merging(m.compactor.run)),
                       d.(folder := Some(Folder(m.compactor.run, [], map[], false))), spec)
  {
    hide GenInv, ViewInv, WalInv, GetInv, StoreValid, OpsValid, Stack, Live, RunAt;
    var lo: nat :| DiskAt(m, d, lo);
    assert DiskAt(m.(compactor := Merging(m.compactor.run)),
                  d.(folder := Some(Folder(m.compactor.run, [], map[], false))), lo);
  }

  /** Opening the run by its paths, in name order, finds exactly the readers of the run. */
  lemma {:induction false} InputsOfRun(tables: seq<Reader>, lo: nat, hi: nat)
    requires Ascending(tables) && lo <= hi <= |tables|
    ensures RunInputs(tables, Gens(tables[lo..hi])) == tables[lo..hi]
    decreases hi - lo
  {
    if lo < hi {
      IndexOfAscending(tables, lo);
      assert Gens(tables[lo..hi])[1..] == Gens(tables[lo + 1..hi]);
      InputsOfRun(tables, lo + 1, hi);
      assert [tables[lo]] + tables[lo + 1..hi] == tables[lo..hi];
    }
  }

  lemma {:induction false} CommitInputs(readers: seq<Reader>, run: seq<nat>, unpublished: seq<Reader>,
                                        tables: seq<Reader>, lo: nat, gen: nat)
    requires RunAt(readers, run, lo) && tables == readers + unpublished && GenInv(tables, gen)
    ensures RunInputs(tables, run) == readers[lo..lo + |run|]
  {
    hide Stack, TombstoneGuard, RunInputs;
    assert tables[lo..lo + |run|] == readers[lo..lo + |run|];
    InputsOfRun(tables, lo, lo + |run|);
  }

  lemma {:induction false} CommitStep(m: Memory, d: Disk, spec: map<bytes, bytes>)
    requires RunningInv(m, d, spec) && m.compactor.Merging?
    ensures var inputs := RunInputs(d.tables, m.compactor.run);
            RunningInv(m.(compactor := Finished(m.compactor.run)),
                       d.(folder := Some(Folder(m.compactor.run, inputs, Compacted(Contents(inputs)), true))), spec)
  {
    hide GenInv, ViewInv, WalInv, GetInv, StoreValid, OpsValid, Stack, Live, RunAt, RunInputs, Compacted, Contents;
    var lo: nat :| DiskAt(m, d, lo);
    CommitInputs(m.readers, m.compactor.run, Unpublished(m.flusher), d.tables, lo, m.gen);
    var inputs := RunInputs(d.tables, m.compactor.run);
    assert DiskAt(m.(compactor := Finished(m.compactor.run)),
                  d.(folder := Some(Folder(m.compactor.run, inputs, Compacted(Contents(inputs)), true))), lo);
  }

  lemma {:induction false} ReflectBeginStep(m: Memory, d: Disk, spec: map<bytes, bytes>)
    requires RunningInv(m, d, spec) && m.compactor.Finished? && m.lock.Free? && m.gets == map[]
    ensures RunningInv(m.(lock := Reflecting(0)), d, spec)
  {
    hide GenInv, ViewInv, WalInv, StoreValid, OpsValid, Stack, Live, RunAt, Compacted, Contents;
    var lo: nat :| DiskAt(m, d, lo);
    RunAtBounds(m.readers, m.compactor.run, lo);
    assert m.readers[..lo] + m.readers[lo..] == m.readers;
    assert DiskAt(m.(lock := Reflecting(0)), d, lo);
  }

  lemma {:induction false} RunAtGen(readers: seq<Reader>, run: seq<nat>, lo: nat, i: nat)
    requires RunAt(readers, run, lo) && i < |run|
    ensures lo + i < |readers| && readers[lo + i].gen == run[i]
  {
    assert Gens(readers[lo..lo + |run|])[i] == readers[lo + i].gen;
  }

  /** Removing the next member of the run leaves the older tables, the rest of the run and the newer tables. */
  lemma {:induction false} DiskRemove(readers: seq<Reader>, run: seq<nat>, n: nat, unpublished: seq<Reader>, lo: nat,
                                      gen: nat)
    requires RunAt(readers, run, lo) && n < |run| && GenInv(readers + unpublished, gen)
    ensures IndexOf(readers, run[n]) >= 0
    ensures Remove(readers[..lo] + readers[lo + n..] + unpublished, run[n])
        == readers[..lo] + readers[lo + n + 1..] + unpublished
  {
    hide Gens, TombstoneGuard, Stack;
    RunAtGen(readers, run, lo, n);
    hide RunAt, Remove, IndexOf;
    var r := readers[lo + n];
    var rest := readers[lo + n + 1..] + unpublished;
    var all := readers + unpublished;
    var part := readers[..lo] + [r] + rest;
    assert readers[..lo] + readers[lo + n..] + unpublished == part;
    assert forall i :: 0 <= i < |part| ==> part[i] == all[if i < lo then i else i + n];
    RemoveSplit(readers[..lo], r, rest);
    assert readers[..lo] + rest == readers[..lo] + readers[lo + n + 1..] + unpublished;
    assert all[lo + n] == r;
    PrefixAscending(readers, unpublished, gen);
    IndexOfAscending(readers, lo + n);
  }

  lemma {:induction false} DiskRemoveNext(readers: seq<Reader>, run: seq<nat>, n: nat, folder: Option<Folder>,
                                          unpublished: seq<Reader>, tables: seq<Reader>, lo: nat, gen: nat)
    requires DiskInv(readers, Finished(run), Removed(n), folder, unpublished, tables, lo)
    requires n < |run| && GenInv(readers + unpublished, gen)
    ensures IndexOf(readers, run[n]) >= 0
    ensures DiskInv(readers, Finished(run), Removed(n + 1), folder, unpublished, Remove(tables, run[n]), lo)
  {
    hide GenInv, RunAt, Compacted, Contents, Remove, IndexOf;
    RunAtBounds(readers, run, lo);
    DiskRemove(readers, run, n, unpublished, lo, gen);
  }

  lemma {:induction false} ReflectRemoveStep(m: Memory, d: Disk, spec: map<bytes, bytes>)
    requires RunningInv(m, d, spec) && m.compactor.Finished? && m.lock.Reflecting? && m.lock.removed < |m.compactor.run|
    ensures IndexOf(m.readers, m.compactor.run[m.lock.removed]) >= 0
    ensures RunningInv(m.(lock := Reflecting(m.lock.removed + 1)),
                       d.(tables := Remove(d.tables, m.compactor.run[m.lock.removed])), spec)
  {
    hide GenInv, ViewInv, WalInv, StoreValid, OpsValid, Stack, Live, DiskInv, Remove, IndexOf;
    var lo: nat :| DiskAt(m, d, lo);
    DiskRemoveNext(m.readers, m.compactor.run, m.lock.removed, d.folder, Unpublished(m.flusher), d.tables, lo, m.gen);
    assert DiskAt(m.(lock := Reflecting(m.lock.removed + 1)),
                  d.(tables := Remove(d.tables, m.compactor.run[m.lock.removed])), lo);
  }

  lemma {:induction false} DiskRename(readers: seq<Reader>, run: seq<nat>, unpublished: seq<Reader>, lo: nat, gen: nat,
                                      merged: Table)
    requires RunAt(readers, run, lo) && GenInv(readers + unpublished, gen)
    ensures var tables := readers[..lo] + readers[lo + |run|..] + unpublished;
            && Insert(tables, Reader(run[0], merged))
               == readers[..lo] + [Reader(run[0], merged)] + readers[lo + |run|..] + unpublished
            && IndexOf(tables, run[0]) < 0
  {
    RunAtGen(readers, run, lo, 0);
    hide RunAt, Insert, Stack, IndexOf;
    var hi := lo + |run|;
    var older, inputs, newer := readers[..lo], readers[lo..hi], readers[hi..] + unpublished;
    assert older + inputs + newer == readers + unpublished;
    AscendingReplace(older, inputs, newer, merged);
    InsertSplit(older, Reader(run[0], merged), newer);
    assert older + newer == readers[..lo] + readers[hi..] + unpublished;
    assert older + [Reader(run[0], merged)] + newer == older + [Reader(run[0], merged)] + readers[hi..] + unpublished;
    RemoveSplit(older, Reader(run[0], merged), newer);
    RemoveOther(older + [Reader(run[0], merged)] + newer, run[0], run[0]);
  }

  lemma {:induction false} DiskRenameFolder(readers: seq<Reader>, run: seq<nat>, folder: Option<Folder>,
                                            unpublished: seq<Reader>, tables: seq<Reader>, lo: nat, gen: nat)
    requires DiskInv(readers, Finished(run), Removed(|run|), folder, unpublished, tables, lo)
    requires GenInv(readers + unpublished, gen)
    ensures run != [] && folder.Some? && IndexOf(tables, run[0]) < 0
    ensures DiskInv(readers, Finished(run), Renamed, None, unpublished,
                    Insert(tables, Reader(run[0], folder.value.merged)), lo)
  {
    hide GenInv, RunAt, Compacted, Contents, Insert, IndexOf;
    RunAtBounds(readers, run, lo);
    DiskRename(readers, run, unpublished, lo, gen, folder.value.merged);
  }

  lemma {:induction false} ReflectRenameStep(m: Memory, d: Disk, spec: map<bytes, bytes>)
    requires RunningInv(m, d, spec) && m.compactor.Finished? && m.lock.Reflecting?
    requires m.lock.removed == |m.compactor.run| != 0
    requires d.folder.Some?
    ensures IndexOf(d.tables, m.compactor.run[0]) < 0
    ensures RunningInv(m.(lock := Reflected),
                       d.(tables := Insert(d.tables, Reader(m.compactor.run[0], d.folder.value.merged)),
                          folder := None), spec)
  {
    hide GenInv, ViewInv, WalInv, StoreValid, OpsValid, Stack, Live, DiskInv, Insert, IndexOf;
    var lo: nat :| DiskAt(m, d, lo);
    DiskRenameFolder(m.readers, m.compactor.run, d.folder, Unpublished(m.flusher), d.tables, lo, m.gen);
    assert DiskAt(m.(lock := Reflected),
                  d.(tables := Insert(d.tables, Reader(m.compactor.run[0], d.folder.value.merged)), folder := None),
                  lo);
  }

  lemma {:induction false} ViewReplaced(a: seq<Reader>, b: seq<Reader>, busy: Table, pending: Table, logged: Table,
                                        spec: map<bytes, bytes>)
    requires ViewInv(a, busy, pending, logged, spec) && Live(Stack(a)) == Live(Stack(b))
    ensures ViewInv(b, busy, pending, logged, spec)
  {
    hide Live, Stack;
    LiveCongruence(Stack(a), Stack(b), busy);
    LiveCongruence(Stack(a) + busy, Stack(b) + busy, pending);
    LiveCongruence(Stack(a) + busy + pending, Stack(b) + busy + pending, logged);
  }

  lemma {:induction false} ReadReplaced(a: seq<Reader>, b: seq<Reader>, f: Flusher, lock: Lock, lock': Lock,
                                        read: Table)
    requires ReadInv(a, f, lock, read) && Live(Stack(a)) == Live(Stack(b)) && !lock.Sending? && !lock'.Sending?
    ensures ReadInv(b, f, lock', read)
  {
    hide Live, Stack;
    LiveCongruence(Stack(a), Stack(b), read);
  }

  lemma {:induction false} FinishRun(readers: seq<Reader>, run: seq<nat>, unpublished: seq<Reader>, lo: nat, gen: nat,
                                     tables: seq<Reader>)
    requires RunAt(readers, run, lo) && GenInv(readers + unpublished, gen)
    requires tables == readers[..lo]
                       + [Reader(run[0], Compacted(Contents(readers[lo..lo + |run|])))]
                       + readers[lo + |run|..] + unpublished
    ensures IndexOf(tables, run[0]) >= 0
    ensures var readers' := ReplaceRun(readers, run, tables[IndexOf(tables, run[0])].table);
            && tables == readers' + unpublished
            && GenInv(readers' + unpublished, gen)
            && Live(Stack(readers')) == Live(Stack(readers))
  {
    var hi := lo + |run|;
    hide Stack, Live, IndexOf, ReplaceRun, Compacted, Contents, TombstoneGuard, Gens;
    RunAtGen(readers, run, lo, 0);
    RunAtGens(readers, run, lo);
    var merged := Compacted(Contents(readers[lo..hi]));
    var older, inputs, newer := readers[..lo], readers[lo..hi], readers[hi..];
    ReplaceKeepsReads(older, inputs, |inputs|, newer, Reader(run[0], merged));
    hide RunAt;
    assert older + [Reader(run[0], merged)] + inputs[|inputs|..] + newer == older + [Reader(run[0], merged)] + newer;
    assert older + inputs + newer == readers;
    assert older + inputs + (newer + unpublished) == readers + unpublished;
    AscendingReplace(older, inputs, newer + unpublished, merged);
    assert older + [Reader(run[0], merged)] + (newer + unpublished) == tables;
    assert tables[lo] == Reader(run[0], merged);
    IndexOfAscending(tables, lo);
    PrefixAscending(readers, unpublished, gen);
    ReplaceRunSplit(older, inputs, newer, merged);
    forall r | r in tables ensures r.gen <= gen {
      if r in older || r in newer || r in unpublished {
        assert r in readers + unpublished;
      } else {
        assert readers[lo] in readers + unpublished;
      }
    }
  }

  lemma {:induction false} RunAtGens(readers: seq<Reader>, run: seq<nat>, lo: nat)
    requires RunAt(readers, run, lo)
    ensures lo + |run| <= |readers| && Gens(readers[lo..lo + |run|]) == run
  {
  }

  lemma {:induction false} ReflectFinishStep(m: Memory, d: Disk, spec: map<bytes, bytes>)
    requires RunningInv(m, d, spec) && m.compactor.Finished? && m.lock.Reflected? && m.compactor.run != []
    ensures IndexOf(d.tables, m.compactor.run[0]) >= 0
    ensures var merged := d.tables[IndexOf(d.tables, m.compactor.run[0])].table;
            RunningInv(m.(readers := ReplaceRun(m.readers, m.compactor.run, merged), lock := Free,
                          compactor := NoCompaction), d, spec)
  {
    hide GenInv, ViewInv, WalInv, StoreValid, OpsValid, Stack, Live, ReadInv, RunAt, Compacted, Contents, IndexOf,
         ReplaceRun;
    var lo: nat :| DiskAt(m, d, lo);
    RunAtBounds(m.readers, m.compactor.run, lo);
    FinishRun(m.readers, m.compactor.run, Unpublished(m.flusher), lo, m.gen, d.tables);
    var readers' := ReplaceRun(m.readers, m.compactor.run, d.tables[IndexOf(d.tables, m.compactor.run[0])].table);
    ViewReplaced(m.readers, readers', Busy(m.flusher), map[], m.write, spec);
    ReadReplaced(m.readers, readers', m.flusher, m.lock, Free, m.read);
    assert DiskAt(m.(readers := readers', lock := Free, compactor := NoCompaction), d, 0);
  }
}
