/** Crashes and every sub-step of Open keep the database recoverable to the map of all logged operations. */
module SimpleDBRecovery {
  import opened Bytes
  import opened Tables
  import opened Readers
  import opened SimpleDB
  import opened SimpleDBInvariant
  import opened SimpleDBProof

  // ---------- a crash of the running database ----------

  lemma {:induction false} UnflushedMerge(f: Flusher, lock: Lock, write: Table)
    ensures var s := if f.Received? || f.Written? then f.store else map[];
            Merge(Unflushed(f, lock, write)) == s + Pending(lock) + Logged(write, lock)
  {
    hide Logged;
    var a: seq<Table> := if f.Received? || f.Written? then [f.store] else [];
    var b: seq<Table> := if lock.Sending? then [lock.store] else [];
    var c := [Logged(write, lock)];
    MergeConcat(a + b, c);
    MergeConcat(a, b);
    MergeSingle(Logged(write, lock));
    if f.Received? || f.Written? {
      MergeSingle(f.store);
    }
    if lock.Sending? {
      MergeSingle(lock.store);
    }
  }

  lemma {:induction false} StackUnpublished(readers: seq<Reader>, f: Flusher)
    ensures Stack(readers + Unpublished(f)) == Stack(readers) + (if f.Written? || f.WalRemoved? then f.store else map[])
  {
    StackConcat(readers, Unpublished(f));
    if f.Written? || f.WalRemoved? {
      StackSingle(Reader(f.gen, f.store));
    }
  }

  lemma {:induction false} Assoc(a: Table, b: Table, c: Table)
    ensures a + (b + c) == (a + b) + c
  {
  }

  lemma {:induction false} Overrides(a: Table, s: Table, p: Table, w: Table)
    ensures a + (s + p + w) == a + s + p + w
    ensures (a + s) + (s + p + w) == a + s + p + w
    ensures (a + s) + (map[] + p + w) == a + s + p + w
    ensures (a + map[]) + (s + p + w) == a + s + p + w
  {
    Assoc(a, s + p, w);
    Assoc(a, s, p);
    assert a + map[] == a && map[] + p == p;
    Assoc(a + s, s + p, w);
    Assoc(a + s, s, p);
    assert a + s + s == a + s;
    Assoc(a + s, p, w);
  }

  /** Whatever the flusher has done so far, tables plus log show the same map as the memory does. */
  lemma {:induction false} LogView(m: Memory, wals: seq<WalFile>, spec: map<bytes, bytes>)
    requires ViewInv(m.readers, Busy(m.flusher), Pending(m.lock), Logged(m.write, m.lock), spec)
    requires WalInv(Unflushed(m.flusher, m.lock, m.write), FlushWal(m.flusher), SendWal(m.lock), m.nextWal, wals)
    ensures Live(Stack(m.readers + Unpublished(m.flusher)) + Replay(AllOps(wals))) == spec
  {
    hide WalInv, Unflushed, Stack, Live, Replay, AllOps, Logged, Pending, Merge;
    LogProtects(Unflushed(m.flusher, m.lock, m.write), FlushWal(m.flusher), SendWal(m.lock), m.nextWal, wals);
    UnflushedMerge(m.flusher, m.lock, m.write);
    StackUnpublished(m.readers, m.flusher);
    Overrides(Stack(m.readers), Busy(m.flusher), Pending(m.lock), Logged(m.write, m.lock));
    Overrides(Stack(m.readers), map[], Pending(m.lock), Logged(m.write, m.lock));
  }

  lemma {:induction false} RunGuardGrows(readers: seq<Reader>, run: seq<nat>, unpublished: seq<Reader>, lo: nat)
    requires RunAt(readers, run, lo)
    ensures TombstoneGuard(Stack(readers[..lo]), Stack(readers[lo..lo + |run|]),
                           Stack(readers[lo + |run|..] + unpublished))
  {
    hide Stack, TombstoneGuard;
    var hi := lo + |run|;
    StackConcat(readers[hi..], unpublished);
    GuardGrows(Stack(readers[..lo]), Stack(readers[lo..hi]), Stack(readers[hi..]), Stack(unpublished));
  }

  lemma {:induction false} CrashUnfinished(readers: seq<Reader>, run: seq<nat>, n: nat, unpublished: seq<Reader>,
                                           lo: nat, gen: nat, d: Disk, spec: map<bytes, bytes>)
    requires RunAt(readers, run, lo) && n <= |run| && GenInv(readers + unpublished, gen)
    requires d.folder == Some(Folder(run, readers[lo..lo + |run|], Compacted(Contents(readers[lo..lo + |run|])), true))
    requires d.tables == readers[..lo] + readers[lo + n..] + unpublished
    requires Live(Stack(readers + unpublished) + Replay(AllOps(d.wals))) == spec
    ensures Unfinished(d, spec, readers[..lo], n, readers[lo + |run|..] + unpublished)
    ensures Ascending(d.tables)
  {
    hide Stack, Live, Replay, AllOps, Compacted, Contents, TombstoneGuard, RunAt, GenInv, Gens, Ascending;
    RunAtBounds(readers, run, lo);
    RunAtGens(readers, run, lo);
    RunGuardGrows(readers, run, unpublished, lo);
    AscendingOf(readers + unpublished, gen);
    var hi := lo + |run|;
    var older, inputs, newer := readers[..lo], readers[lo..hi], readers[hi..] + unpublished;
    assert older + inputs + newer == readers + unpublished;
    assert d.tables == older + inputs[n..] + newer;
    assert Unfinished(d, spec, older, n, newer);
    UnfinishedAscending(d, spec, older, n, newer);
  }

  lemma {:induction false} CrashRenamed(readers: seq<Reader>, run: seq<nat>, unpublished: seq<Reader>, lo: nat,
                                        gen: nat, d: Disk, spec: map<bytes, bytes>)
    requires RunAt(readers, run, lo) && GenInv(readers + unpublished, gen)
    requires d.tables == readers[..lo] + [Reader(run[0],
         Compacted(Contents(readers[lo..lo + |run|])))] + readers[lo + |run|..] + unpublished
    requires Live(Stack(readers + unpublished) + Replay(AllOps(d.wals))) == spec
    ensures DiskView(d, spec) && Ascending(d.tables)
  {
    FinishRun(readers, run, unpublished, lo, gen, d.tables);
    hide Stack, Live, Replay, AllOps, RunAt, ReplaceRun, IndexOf, Compacted, Contents;
    var readers' := ReplaceRun(readers, run, d.tables[IndexOf(d.tables, run[0])].table);
    StackConcat(readers, unpublished);
    StackConcat(readers', unpublished);
    LiveCongruence(Stack(readers), Stack(readers'), Stack(unpublished));
    LiveCongruence(Stack(readers + unpublished), Stack(readers' + unpublished), Replay(AllOps(d.wals)));
  }

  lemma {:induction false} CrashFinished(m: Memory, d: Disk, lo: nat, spec: map<bytes, bytes>)
    requires DiskAt(m, d, lo) && m.compactor.Finished? && GenInv(m.readers + Unpublished(m.flusher), m.gen)
    requires Live(Stack(m.readers + Unpublished(m.flusher)) + Replay(AllOps(d.wals))) == spec
    ensures Recoverable(d, spec)
  {
    hide GenInv, Stack, Live, RunAt, Compacted, Contents, Replay, AllOps, Unfinished, Ascending, DiskView;
    var run, unpublished := m.compactor.run, Unpublished(m.flusher);
    RunAtBounds(m.readers, run, lo);
    if m.lock.Reflected? {
      CrashRenamed(m.readers, run, unpublished, lo, m.gen, d, spec);
    } else {
      var n := if m.lock.Reflecting? then m.lock.removed else 0;
      assert m.readers[..lo] + m.readers[lo..] == m.readers;
      CrashUnfinished(m.readers, run, n, unpublished, lo, m.gen, d, spec);
      assert d.folder.value.committed && Unfinished(d, spec, m.readers[..lo], n, m.readers[lo + |run|..] + unpublished);
    }
  }

  lemma {:induction false} CrashRunning(m: Memory, d: Disk, spec: map<bytes, bytes>)
    requires RunningInv(m, d, spec)
    ensures Recoverable(d, spec) && OpsValid(d.wals)
  {
    hide GenInv, ViewInv, WalInv, GetInv, StoreValid, OpsValid, Stack, Live, ReadInv, RunAt, Replay, AllOps, Ascending;
    var lo: nat :| DiskAt(m, d, lo);
    LogView(m, d.wals, spec);
    if m.compactor.Finished? {
      hide DiskInv, Recoverable;
      CrashFinished(m, d, lo, spec);
    } else {
      AscendingOf(m.readers + Unpublished(m.flusher), m.gen);
    }
  }

  lemma {:induction false} AscendingOf(tables: seq<Reader>, gen: nat)
    requires GenInv(tables, gen)
    ensures Ascending(tables)
  {
  }

  // ---------- repairCompactions ----------

  lemma {:induction false} UnfinishedAscending(d: Disk, spec: map<bytes, bytes>, older: seq<Reader>, i: nat,
                                               newer: seq<Reader>)
    requires Unfinished(d, spec, older, i, newer)
    ensures Ascending(d.tables)
  {
    hide Stack, Live, Replay, AllOps, Compacted, Contents, TombstoneGuard;
    var all := older + d.folder.value.inputs + newer;
    assert forall k :: 0 <= k < |d.tables| ==> d.tables[k] == all[if k < |older| then k else k + i];
  }

  /**
   Removing the replacement path: the remaining members of the run are still a newest suffix, now without the first.
   */
  lemma {:induction false} RepairFirstStep(d: Disk, spec: map<bytes, bytes>, older: seq<Reader>, i: nat,
                                           newer: seq<Reader>)
    requires Unfinished(d, spec, older, i, newer)
    ensures d.folder.value.run != []
    ensures Unfinished(d.(tables := Remove(d.tables, d.folder.value.run[0])), spec, older,
                       if i == 0 then 1 else i, newer)
  {
    hide Stack, Live, Replay, AllOps, Compacted, Contents, TombstoneGuard, Remove;
    var f := d.folder.value;
    var inputs := f.inputs;
    assert Gens(inputs)[0] == inputs[0].gen;
    if i == 0 {
      assert d.tables == older + inputs + newer == older + [inputs[0]] + (inputs[1..] + newer);
      RemoveSplit(older, inputs[0], inputs[1..] + newer);
      assert older + (inputs[1..] + newer) == older + inputs[1..] + newer;
    } else {
      FirstAbsent(older, inputs, i, newer);
      RemoveAbsent(d.tables, f.run[0]);
    }
  }

  lemma {:induction false} RemoveAbsent(tables: seq<Reader>, g: nat)
    requires IndexOf(tables, g) < 0
    ensures Remove(tables, g) == tables
  {
  }

  lemma {:induction false} FirstAbsent(older: seq<Reader>, inputs: seq<Reader>, i: nat, newer: seq<Reader>)
    requires Ascending(older + inputs + newer) && 1 <= i <= |inputs|
    ensures IndexOf(older + inputs[i..] + newer, inputs[0].gen) < 0
  {
    var all, part := older + inputs + newer, older + inputs[i..] + newer;
    assert all[|older|] == inputs[0];
    assert forall k :: 0 <= k < |part| ==> part[k] == all[if k < |older| then k else k + i];
  }

  lemma {:induction false} InsertMerged(older: seq<Reader>, inputs: seq<Reader>, i: nat, newer: seq<Reader>,
                                        merged: Table)
    requires Ascending(older + inputs + newer) && 1 <= i <= |inputs|
    ensures Insert(older + inputs[i..] + newer, Reader(inputs[0].gen, merged)) == older + [Reader(inputs[0].gen,
         merged)] + inputs[i..] + newer
    ensures Ascending(older + [Reader(inputs[0].gen, merged)] + inputs[i..] + newer)
  {
    hide Insert;
    var m := Reader(inputs[0].gen, merged);
    var all, part := older + inputs + newer, older + [m] + (inputs[i..] + newer);
    assert all[|older|] == inputs[0];
    assert forall k :: 0 <= k < |part| ==> part[k].gen == all[if k <= |older| then k else k + i - 1].gen;
    InsertSplit(older, m, inputs[i..] + newer);
    assert older + (inputs[i..] + newer) == older + inputs[i..] + newer;
    assert part == older + [m] + inputs[i..] + newer;
  }

  /** Leftover members of the run do not change the view, however many are left. */
  lemma {:induction false} LeftoversView(f: Folder, next: nat, left: nat, d: Disk, spec: map<bytes, bytes>,
                                         older: seq<Reader>, newer: seq<Reader>)
    requires Leftovers(f, next, left, d, spec, older, newer)
    ensures DiskView(d, spec) && Ascending(d.tables)
  {
    ReplaceKeepsReads(older, f.inputs, left, newer, Reader(f.run[0], f.merged));
    hide Stack, Live, Replay, AllOps, Compacted, Contents, TombstoneGuard;
    assert Gens(f.inputs)[0] == f.inputs[0].gen;
    InsertMerged(older, f.inputs, left, newer, f.merged);
    LiveCongruence(Stack(d.tables), Stack(older + f.inputs + newer), Replay(AllOps(d.wals)));
  }

  /** The rename: the folder becomes the first table of the run. */
  lemma {:induction false} RepairMoveStep(d: Disk, spec: map<bytes, bytes>, older: seq<Reader>, i: nat,
                                          newer: seq<Reader>)
    requires Unfinished(d, spec, older, i, newer) && i >= 1
    ensures d.folder.value.run != [] && IndexOf(d.tables, d.folder.value.run[0]) < 0
    ensures var f := d.folder.value;
            Leftovers(f, 1, i, d.(tables := Insert(d.tables, Reader(f.run[0], f.merged)), folder := None), spec, older,
                      newer)
  {
    hide Stack, Live, Replay, AllOps, Compacted, Contents, TombstoneGuard, Insert, IndexOf;
    var f := d.folder.value;
    assert Gens(f.inputs)[0] == f.inputs[0].gen;
    FirstAbsent(older, f.inputs, i, newer);
    InsertMerged(older, f.inputs, i, newer, f.merged);
  }

  /** The ascending removals: a member that is already gone changes nothing, the next one shortens the suffix. */
  lemma {:induction false} RepairRemoveStep(f: Folder, next: nat, left: nat, d: Disk, spec: map<bytes, bytes>,
                                            older: seq<Reader>, newer: seq<Reader>)
    requires Leftovers(f, next, left, d, spec, older, newer) && next < |f.run|
    ensures Leftovers(f, next + 1, if next == left then left + 1 else left,
                      d.(tables := Remove(d.tables, f.run[next])), spec, older, newer)
  {
    hide Stack, Live, Replay, AllOps, Compacted, Contents, TombstoneGuard, Remove, IndexOf;
    var m := Reader(f.run[0], f.merged);
    assert forall k :: 0 <= k < |f.run| ==> f.run[k] == f.inputs[k].gen;
    InsertMerged(older, f.inputs, left, newer, f.merged);
    if next == left {
      var rest := f.inputs[left + 1..] + newer;
      assert d.tables == (older + [m]) + [f.inputs[left]] + rest;
      RemoveSplit(older + [m], f.inputs[left], rest);
      assert older + [m] + rest == older + [m] + f.inputs[left + 1..] + newer;
    } else {
      MemberAbsent(older, f.inputs, next, left, newer, f.merged);
      RemoveAbsent(d.tables, f.run[next]);
    }
  }

  lemma {:induction false} MemberAbsent(older: seq<Reader>, inputs: seq<Reader>, next: nat, left: nat,
                                        newer: seq<Reader>, merged: Table)
    requires Ascending(older + inputs + newer) && 1 <= next < left <= |inputs|
    ensures IndexOf(older + [Reader(inputs[0].gen, merged)] + inputs[left..] + newer, inputs[next].gen) < 0
  {
    var all, part := older + inputs + newer, older + [Reader(inputs[0].gen, merged)] + inputs[left..] + newer;
    assert all[|older|] == inputs[0] && all[|older| + next] == inputs[next];
    assert forall k :: 0 <= k < |part| ==> part[k].gen == all[if k <= |older| then k else k + left - 1].gen;
  }

  // ---------- reconstructSSTables and replayAndSetupWriteAheadLog ----------

  lemma {:induction false} MaxGenIsNewest(rs: seq<Reader>)
    requires Ascending(rs)
    ensures MaxGen(rs) == NewestGen(rs)
  {
    if rs != [] {
      MaxGenIsNewest(rs[..|rs| - 1]);
    }
  }

  lemma {:induction false} ReplayValid(ops: seq<Op>)
    requires forall op :: op in ops ==> ValidOp(op)
    ensures StoreValid(Replay(ops))
  {
    if ops != [] {
      ReplayValid(ops[..|ops| - 1]);
      assert ops[|ops| - 1] in ops;
      StoreOpValid(Replay(ops[..|ops| - 1]), ops[|ops| - 1]);
    }
  }

  lemma {:induction false} OpenedGrows(readers: seq<Reader>, gen: nat, d: Disk, store: Table)
    requires Opened(readers, gen, d)
    ensures Opened(readers + [Reader(gen + 1, store)], gen + 1, d.(tables := Insert(d.tables, Reader(gen + 1, store))))
  {
    InsertLast(d.tables, Reader(gen + 1, store));
  }

  /**
   Replaying the log into a new table is idempotent: with the log still there, or replayed again, the view is the same.
   */
  lemma {:induction false} ReplayStep(readers: seq<Reader>, gen: nat, d: Disk, spec: map<bytes, bytes>)
    requires Opened(readers, gen, d) && DiskView(d, spec) && OpsValid(d.wals)
    ensures var store := Replay(AllOps(d.wals));
            var r := Reader(gen + 1, store);
            && Opened(readers + [r], gen + 1, d.(tables := Insert(d.tables, r)))
            && DiskView(d.(tables := Insert(d.tables, r)), spec)
            && Recovered(readers + [r], store, spec)
  {
    ReplayValid(AllOps(d.wals));
    hide Stack, Live, Replay, AllOps, OpsValid, StoreValid, Insert, Ascending;
    var store := Replay(AllOps(d.wals));
    var r := Reader(gen + 1, store);
    OpenedGrows(readers, gen, d, store);
    StackConcat(readers, [r]);
    StackSingle(r);
    assert Stack(readers) + store + store == Stack(readers) + store;
  }

  lemma {:induction false} ReplayNothing(readers: seq<Reader>, gen: nat, d: Disk, spec: map<bytes, bytes>)
    requires Opened(readers, gen, d) && DiskView(d, spec) && AllOps(d.wals) == []
    ensures Recovered(readers, map[], spec)
  {
    hide Stack, Live;
    assert Stack(readers) + map[] == Stack(readers);
  }

  lemma {:induction false} FreshView(d: Disk, readers: seq<Reader>, read: Table, spec: map<bytes, bytes>)
    requires Recovered(readers, read, spec) && readers == d.tables && d.wals == []
    ensures DiskView(d, spec) && OpsValid(d.wals)
  {
    hide Stack, Live;
    assert Stack(readers) + map[] == Stack(readers);
  }

  lemma {:induction false} StartStep(readers: seq<Reader>, gen: nat, read: Table, d: Disk, spec: map<bytes, bytes>)
    requires Opened(readers, gen, d) && Recovered(readers, read, spec)
    ensures RunningInv(Memory(map[], read, readers, gen, 1, Idle, Free, NoCompaction, map[]),
                       d.(wals := [WalFile(0, [])]), spec)
  {
    hide GenInv, ViewInv, ReadInv, WalInv, GetInv, StoreValid, OpsValid, DiskInv, Unflushed, Unpublished, Busy, Pending,
         Logged, FlushWal, SendWal, ProgressOf, Stack, Live, Ascending;
    var m := Memory(map[], read, readers, gen, 1, Idle, Free, NoCompaction, map[]);
    StartedLog();
    StartedView(readers, read, spec);
    StartedDisk(readers, gen, d);
    assert DiskAt(m, d.(wals := [WalFile(0, [])]), 0);
  }

  /** The log that Open starts belongs to the empty store. */
  lemma {:induction false} StartedLog()
    ensures WalInv(Unflushed(Idle, Free, map[]), FlushWal(Idle), SendWal(Free), 1, [WalFile(0, [])])
    ensures OpsValid([WalFile(0, [])])
  {
    assert [WalFile(0, [])][..0] == [];
  }

  lemma {:induction false} StartedView(readers: seq<Reader>, read: Table, spec: map<bytes, bytes>)
    requires Recovered(readers, read, spec)
    ensures ViewInv(readers, Busy(Idle), Pending(Free), Logged(map[], Free), spec)
    ensures ReadInv(readers, Idle, Free, read) && GetInv(map[], true, read, map[], spec)
    ensures StoreValid(read) && StoreValid(Logged(map[], Free))
  {
    hide Stack, Live;
    assert Stack(readers) + map[] + map[] + map[] == Stack(readers);
  }

  lemma {:induction false} StartedDisk(readers: seq<Reader>, gen: nat, d: Disk)
    requires Opened(readers, gen, d)
    ensures GenInv(readers + Unpublished(Idle), gen)
    ensures DiskInv(readers, NoCompaction, ProgressOf(Free), d.folder, Unpublished(Idle), d.tables, 0)
  {
    NewestBounds(readers);
    assert readers + [] == readers;
  }
}
