/**
 File names as the order of versions. The step system lists tables and log files by number; the code lists them by
 sorting names. Both agree in every run, as long as the numbers fit the padding of the names.
 */
module SimpleDBNames {
  import opened Bytes
  import opened Tables
  import opened Readers
  import opened Names
  import opened SSTableManager
  import opened SimpleDB
  import opened SimpleDBInvariant
  import opened SimpleDBProof
  import opened SimpleDBTheorems
  import RecordFormat
  import Wal

  const TABLE_DIGITS := 15
  const TABLE_PREFIX: bytes := [115, 115, 116, 97, 98, 108, 101, 95]  // "sstable_"

  function TablePath(basePath: bytes, gen: nat): bytes
  {
    (basePath + TABLE_PREFIX) + (Padded(TABLE_DIGITS, gen) + [])
  }

  /** The name of a table directory: "sstable_" and fifteen digits. */
  lemma {:induction false} TableName(basePath: bytes)
    ensures TablePath(basePath, 7) == basePath + [115, 115, 116, 97, 98, 108, 101, 95]
                                      + [48, 48, 48, 48, 48, 48, 48, 48, 48, 48, 48, 48, 48, 48, 55]
  {
  }

  function TablePaths(basePath: bytes, gens: seq<nat>): seq<bytes>
  {
    seq(|gens|, i requires 0 <= i < |gens| => TablePath(basePath, gens[i]))
  }

  function LogPaths(basePath: bytes, wals: seq<WalFile>): seq<bytes>
  {
    seq(|wals|, i requires 0 <= i < |wals| => Wal.WalPath(basePath, wals[i].number))
  }

  // ---------- generations grow by at most one per step ----------

  ghost predicate GensUpTo(rs: seq<Reader>, n: nat)
  {
    forall r :: r in rs ==> r.gen <= n
  }

  ghost predicate RunUpTo(run: seq<nat>, n: nat)
  {
    forall g :: g in run ==> g <= n
  }

  ghost predicate MemoryUpTo(m: Memory, n: nat)
  {
    && m.gen <= n && GensUpTo(m.readers, n)
    && (m.flusher.Written? || m.flusher.WalRemoved? ==> m.flusher.gen <= n)
    && (!m.compactor.NoCompaction? ==> RunUpTo(m.compactor.run, n))
  }

  ghost predicate StageUpTo(stage: Recovery, n: nat)
  {
    match stage
    case RepairRename(f) => RunUpTo(f.run, n)
    case RepairRest(f, _) => RunUpTo(f.run, n)
    case ReplayWal(readers, gen) => GensUpTo(readers, n) && gen <= n
    case CleanWal(readers, gen, _) => GensUpTo(readers, n) && gen <= n
    case Fresh(readers, gen, _) => GensUpTo(readers, n) && gen <= n
    case _ => true
  }

  ghost predicate NumbersUpTo(s: State, n: nat)
  {
    && GensUpTo(s.disk.tables, n) && (s.disk.folder.Some? ==> RunUpTo(s.disk.folder.value.run, n))
    && match s
       case Running(m, _) => MemoryUpTo(m, n)
       case Recovering(stage, _) => StageUpTo(stage, n)
  }

  lemma {:induction false} InsertUpTo(rs: seq<Reader>, r: Reader, n: nat)
    requires GensUpTo(rs, n) && r.gen <= n
    ensures GensUpTo(Insert(rs, r), n)
  {
    if rs != [] {
      InsertUpTo(rs[1..], r, n);
      assert forall x :: x in Insert(rs, r) ==> x == r || x in rs || x in Insert(rs[1..], r);
    }
  }

  lemma {:induction false} RemoveUpTo(rs: seq<Reader>, g: nat, n: nat)
    requires GensUpTo(rs, n)
    ensures GensUpTo(Remove(rs, g), n)
  {
  }

  lemma {:induction false} RemoveEachUpTo(rs: seq<Reader>, gs: seq<nat>, n: nat)
    requires GensUpTo(rs, n)
    ensures GensUpTo(RemoveEach(rs, gs), n)
    decreases |gs|
  {
    hide Remove;
    if gs != [] {
      RemoveUpTo(rs, gs[0], n);
      RemoveEachUpTo(Remove(rs, gs[0]), gs[1..], n);
    }
  }

  lemma {:induction false} ReplaceRunUpTo(rs: seq<Reader>, run: seq<nat>, merged: Table, n: nat)
    requires GensUpTo(rs, n) && run != [] && RunUpTo(run, n)
    ensures GensUpTo(ReplaceRun(rs, run, merged), n)
  {
    hide RemoveEach, IndexOf;
    var i := IndexOf(rs, run[0]);
    var replaced := if i < 0 then rs else rs[i := Reader(run[0], merged)];
    assert run[0] in run;
    RemoveEachUpTo(replaced, run[1..], n);
  }

  lemma {:induction false} ChosenUpTo(rs: seq<Reader>, sel: seq<bool>, n: nat)
    requires |rs| == |sel| && GensUpTo(rs, n)
    ensures GensUpTo(Chosen(rs, sel), n)
  {
    if rs != [] {
      ChosenUpTo(rs[..|rs| - 1], sel[..|rs| - 1], n);
    }
  }

  lemma {:induction false} GensRun(rs: seq<Reader>, n: nat)
    requires GensUpTo(rs, n)
    ensures RunUpTo(Gens(rs), n)
  {
  }

  lemma {:induction false} MaxGenUpTo(rs: seq<Reader>, n: nat)
    requires GensUpTo(rs, n)
    ensures MaxGen(rs) <= n
  {
    if rs != [] {
      MaxGenUpTo(rs[..|rs| - 1], n);
    }
  }

  lemma {:induction false} Later(s: State, n: nat)
    requires NumbersUpTo(s, n)
    ensures NumbersUpTo(s, n + 1)
  {
  }

  /** The steps of the flusher add at most one generation. */
  lemma {:induction false} FlusherNumbers(s: State, step: Step, n: nat)
    requires s.Running? && NumbersUpTo(s, n) && Enabled(s, step) && FlusherMoves(step)
    ensures NumbersUpTo(Next(s, step), n + 1)
  {
    Later(s, n);
    hide GensUpTo, RunUpTo, Insert, RemoveWal;
    match step
    case FlushWrite => InsertUpTo(s.disk.tables, Reader(s.m.gen + 1, s.m.flusher.store), n + 1);
    case Publish => PublishUpTo(s.m.readers, Reader(s.m.flusher.gen, s.m.flusher.store), n + 1);
    case _ =>
  }

  /** Writers, readers and crashes leave all generations alone. */
  lemma {:induction false} WriterNumbers(s: State, step: Step, n: nat)
    requires s.Running? && NumbersUpTo(s, n) && Enabled(s, step) && !CompactorMoves(step) && !FlusherMoves(step)
    ensures NumbersUpTo(Next(s, step), n + 1)
  {
    Later(s, n);
    hide GensUpTo, RunUpTo, LogTo, StoreOp, Stack, TableGet;
  }

  predicate CompactorMoves(step: Step)
  {
    || step.Select? || step.StartMerge? || step.Commit? || step.ReflectBegin? || step.ReflectRemove?
    || step.ReflectRename? || step.ReflectFinish?
  }

  lemma {:induction false} CompactorNumbers(s: State, step: Step, n: nat)
    requires s.Running? && NumbersUpTo(s, n) && Enabled(s, step) && CompactorMoves(step)
    ensures NumbersUpTo(Next(s, step), n + 1)
  {
    Later(s, n);
    hide GensUpTo, RunUpTo, Insert, Remove, ReplaceRun, Chosen, Filled, IndexOf, Compacted, RunInputs, Contents,
         RunGuard;
    var m, d := s.m, s.disk;
    match step
    case Select(sel) =>
      ChosenUpTo(m.readers, Filled(sel), n + 1);
      GensRun(Chosen(m.readers, Filled(sel)), n + 1);
    case ReflectRemove => RemoveUpTo(d.tables, m.compactor.run[m.lock.removed], n + 1);
    case ReflectRename =>
      RunMember(m.compactor.run, 0, n + 1);
      InsertUpTo(d.tables, Reader(m.compactor.run[0], d.folder.value.merged), n + 1);
    case ReflectFinish =>
      ReplaceRunUpTo(m.readers, m.compactor.run, d.tables[IndexOf(d.tables, m.compactor.run[0])].table, n + 1);
    case _ =>
  }

  lemma {:induction false} RunMember(run: seq<nat>, i: nat, n: nat)
    requires RunUpTo(run, n) && i < |run|
    ensures run[i] <= n
  {
    assert run[i] in run;
  }

  lemma {:induction false} PublishUpTo(rs: seq<Reader>, r: Reader, n: nat)
    requires GensUpTo(rs, n) && r.gen <= n
    ensures GensUpTo(rs + [r], n)
  {
  }

  lemma {:induction false} RecoveringNumbers(s: State, step: Step, n: nat)
    requires s.Recovering? && NumbersUpTo(s, n) && Enabled(s, step)
    ensures NumbersUpTo(Next(s, step), n + 1)
  {
    hide GensUpTo, RunUpTo, Insert, Remove, IndexOf, Replay, AllOps, MaxGen, Torn, NumbersUpTo, Next, Enabled;
    Later(s, n);
    if step.ReplayAll? {
      ReplayNumbers(s, n);
    } else if step.RepairFirst? || step.RepairMove? || step.RepairRemove? {
      RepairNumbers(s, step, n + 1);
    } else {
      StageNumbers(s, step, n + 1);
    }
  }

  lemma {:induction false} RepairNumbers(s: State, step: Step, n: nat)
    requires s.Recovering? && NumbersUpTo(s, n) && Enabled(s, step)
    requires step.RepairFirst? || step.RepairMove? || step.RepairRemove?
    ensures NumbersUpTo(Next(s, step), n)
  {
    hide GensUpTo, RunUpTo, Insert, Remove, IndexOf, Torn;
    var d := s.disk;
    match step
    case RepairFirst => RemoveUpTo(d.tables, d.folder.value.run[0], n);
    case RepairMove =>
      RunMember(s.stage.folder.run, 0, n);
      InsertUpTo(d.tables, Reader(s.stage.folder.run[0], s.stage.folder.merged), n);
    case RepairRemove => RemoveUpTo(d.tables, s.stage.folder.run[s.stage.next], n);
  }

  lemma {:induction false} StageNumbers(s: State, step: Step, n: nat)
    requires s.Recovering? && NumbersUpTo(s, n) && Enabled(s, step)
    requires !step.ReplayAll? && !step.RepairFirst? && !step.RepairMove? && !step.RepairRemove?
    ensures NumbersUpTo(Next(s, step), n)
  {
    MaxGenUpTo(s.disk.tables, n);
    hide GensUpTo, RunUpTo, Insert, Remove, IndexOf, MaxGen, Torn;
  }

  lemma {:induction false} ReplayNumbers(s: State, n: nat)
    requires s.Recovering? && NumbersUpTo(s, n) && Enabled(s, ReplayAll)
    ensures NumbersUpTo(Next(s, ReplayAll), n + 1)
  {
    hide GensUpTo, RunUpTo, Insert, Replay, AllOps, Torn;
    Later(s, n);
    var r := Reader(s.stage.gen + 1, Replay(AllOps(s.disk.wals)));
    RecoveredNumbers(s, n);
    PublishUpTo(s.stage.readers, r, n + 1);
    InsertUpTo(s.disk.tables, r, n + 1);
  }

  lemma {:induction false} RecoveredNumbers(s: State, n: nat)
    requires s.Recovering? && s.stage.ReplayWal? && NumbersUpTo(s, n)
    ensures s.stage.gen <= n
  {
  }

  lemma {:induction false} NumbersRun(s: State, steps: seq<Step>, n: nat)
    requires NumbersUpTo(s, n) && Runs(s, steps)
    ensures NumbersUpTo(Exec(s, steps), n + |steps|)
    decreases |steps|
  {
    hide NumbersUpTo, Next, Enabled;
    if steps != [] {
      if s.Running? {
        if CompactorMoves(steps[0]) {
          CompactorNumbers(s, steps[0], n);
        } else if FlusherMoves(steps[0]) {
          FlusherNumbers(s, steps[0], n);
        } else {
          WriterNumbers(s, steps[0], n);
        }
      } else {
        RecoveringNumbers(s, steps[0], n);
      }
      NumbersRun(Next(s, steps[0]), steps[1..], n + 1);
    }
  }

  // ---------- log numbers ascend ----------

  ghost predicate LogAscends(wals: seq<WalFile>, bound: nat)
  {
    && (forall i, j :: 0 <= i < j < |wals| ==> wals[i].number < wals[j].number)
    && (forall i :: 0 <= i < |wals| ==> wals[i].number < bound)
  }

  /** The log files ascend, and what a crash left behind them lies in the last file or in a newer one. */
  ghost predicate LogOrdered(s: State, format: LogFormat)
  {
    && s.disk.format == format
    && match s
       case Running(m, d) => LogAscends(d.wals, m.nextWal) && d.tail.NoTail?
       case Recovering(stage, d) =>
         && (exists bound: nat :: LogAscends(d.wals, bound))
         && (stage.Fresh? ==> d.wals == [] && d.tail.NoTail?)
         && (d.tail.CutRecord? ==> d.wals != [] && PartOfRecord(format, d.tail.op, d.tail.n))
         && (d.tail.CutHeader? ==> LogAscends(d.wals, d.tail.number) && d.tail.n < RecordFormat.FILE_HEADER_SIZE)
  }

  lemma {:induction false} RemoveWalAscends(wals: seq<WalFile>, number: nat, bound: nat)
    requires LogAscends(wals, bound)
    ensures LogAscends(RemoveWal(wals, number), bound)
    ensures forall w :: w in RemoveWal(wals, number) ==> w in wals
  {
    if wals != [] && wals[0].number != number {
      var rest := RemoveWal(wals[1..], number);
      RemoveWalAscends(wals[1..], number, bound);
      forall i | 0 <= i < |rest| ensures wals[0].number < rest[i].number {
        assert rest[i] in rest;
        var j :| 0 <= j < |wals[1..]| && wals[1..][j] == rest[i];
        assert wals[j + 1] == rest[i];
      }
    }
  }

  lemma {:induction false} RunningLog(s: State, step: Step, format: LogFormat)
    requires s.Running? && LogOrdered(s, format) && Enabled(s, step)
    ensures LogOrdered(Next(s, step), format)
  {
    hide Insert, Remove, ReplaceRun, Chosen, Filled, IndexOf, Compacted, RunInputs, Contents, RunGuard, Stack,
         RemoveWal, PartOfRecord;
    match step
    case Append(op) => AppendAscends(s.disk.wals, op, s.m.nextWal);
    case FlushRemoveWal => RemoveWalAscends(s.disk.wals, s.m.flusher.wal, s.m.nextWal);
    case _ => hide LogTo;
  }

  lemma {:induction false} AppendAscends(wals: seq<WalFile>, op: Op, bound: nat)
    requires wals != [] && LogAscends(wals, bound)
    ensures LogAscends(LogTo(wals, op), bound)
  {
  }

  lemma {:induction false} RecoveringLog(s: State, step: Step, format: LogFormat)
    requires s.Recovering? && LogOrdered(s, format) && Enabled(s, step)
    ensures LogOrdered(Next(s, step), format)
  {
    hide Insert, Remove, IndexOf, Replay, AllOps, MaxGen, PartOfRecord;
    assert LogAscends([], 0);
  }

  lemma {:induction false} LogRun(s: State, steps: seq<Step>, format: LogFormat)
    requires LogOrdered(s, format) && Runs(s, steps)
    ensures LogOrdered(Exec(s, steps), format)
    decreases |steps|
  {
    hide LogOrdered, Next, Enabled;
    if steps != [] {
      if s.Running? {
        RunningLog(s, steps[0], format);
      } else {
        RecoveringLog(s, steps[0], format);
      }
      LogRun(Next(s, steps[0]), steps[1..], format);
    }
  }

  /** In every state of every run the log is so. */
  lemma {:induction false} LogStaysOrdered(format: LogFormat, steps: seq<Step>)
    requires Runs(Init(format), steps)
    ensures LogOrdered(Exec(Init(format), steps), format)
  {
    hide Next, Enabled, Runs;
    assert LogAscends([], 0);
    LogRun(Init(format), steps, format);
  }

  // ---------- sorting names is listing by number ----------

  lemma {:induction false} SortedPaths(basePath: bytes, gens: seq<nat>, listing: seq<bytes>)
    requires forall i, j :: 0 <= i < j < |gens| ==> gens[i] < gens[j]
    requires forall i :: 0 <= i < |gens| ==> gens[i] < Pow10(TABLE_DIGITS)
    requires multiset(listing) == multiset(TablePaths(basePath, gens))
    ensures SortStrings(listing) == TablePaths(basePath, gens)
  {
    hide Less, Padded, SortStrings, Pow10;
    NamesOfAscending(basePath + TABLE_PREFIX, TABLE_DIGITS, gens, [], TablePaths(basePath, gens));
    SortingIsUnique(TablePaths(basePath, gens), SortStrings(listing));
  }

  /**
   In every run no table has a generation above the number of steps, so that only a very long run leaves the padding.
   */
  lemma {:induction false} GenerationsUpToSteps(format: LogFormat, steps: seq<Step>)
    requires Runs(Init(format), steps)
    ensures NumbersUpTo(Exec(Init(format), steps), |steps|)
  {
    hide Next, Enabled, Runs;
    NumbersRun(Init(format), steps, 0);
  }

  /**
   In every run, as long as the generations fit the padding, recovery opens the tables in the order of the listing:
   sorting the names of the table directories, found in any order, gives the order of their generations.
   */
  lemma {:induction false} TablesSortByGeneration(format: LogFormat, steps: seq<Step>, basePath: bytes,
                                                  listing: seq<bytes>)
    requires Runs(Init(format), steps)
    requires var s := Exec(Init(format), steps); s.Recovering? && s.stage.Reconstruct?
    requires forall r :: r in Exec(Init(format), steps).disk.tables ==> r.gen < Pow10(TABLE_DIGITS)
    requires multiset(listing) == multiset(TablePaths(basePath, Gens(Exec(Init(format), steps).disk.tables)))
    ensures SortStrings(listing) == TablePaths(basePath, Gens(Exec(Init(format), steps).disk.tables))
  {
    hide Next, Enabled, Runs, SpecRun, Pow10, TablePaths, DiskView, SortStrings, OpsValid;
    Reachable(format, steps);
    var tables := Exec(Init(format), steps).disk.tables;
    assert forall i :: 0 <= i < |tables| ==> tables[i] in tables;
    SortedPaths(basePath, Gens(tables), listing);
  }

  /** And sorting the paths of a selected run never reorders it. */
  lemma {:induction false} RunSortsByGeneration(format: LogFormat, steps: seq<Step>, basePath: bytes)
    requires Runs(Init(format), steps)
    requires var s := Exec(Init(format), steps); s.Running? && s.m.compactor.Selected?
    requires forall g :: g in Exec(Init(format), steps).m.compactor.run ==> g < Pow10(TABLE_DIGITS)
    ensures var run := Exec(Init(format), steps).m.compactor.run;
            SortStrings(TablePaths(basePath, run)) == TablePaths(basePath, run)
  {
    hide Next, Enabled, Runs, Exec, SpecRun, Pow10, TablePaths, SortStrings, Inv;
    Reachable(format, steps);
    var s := Exec(Init(format), steps);
    SelectedAscends(s, SpecRun(map[], steps));
    var run := s.m.compactor.run;
    assert forall i :: 0 <= i < |run| ==> run[i] in run;
    SortedPaths(basePath, run, TablePaths(basePath, run));
  }

  /** A selected run is in the order of its generations. */
  lemma {:induction false} SelectedAscends(s: State, spec: map<bytes, bytes>)
    requires Inv(s, spec) && s.Running? && s.m.compactor.Selected?
    ensures forall i, j :: 0 <= i < j < |s.m.compactor.run| ==> s.m.compactor.run[i] < s.m.compactor.run[j]
  {
    hide ViewInv, ReadInv, WalInv, StoreValid, OpsValid, GetInv, Stack, TombstoneGuard;
    var m, run := s.m, s.m.compactor.run;
    var lo: nat :| DiskAt(m, s.disk, lo);
    PrefixAscending(m.readers, Unpublished(m.flusher), m.gen);
    forall i | 0 <= i < |run| ensures run[i] == m.readers[lo + i].gen {
      assert run[i] == m.readers[lo..lo + |run|][i].gen;
    }
  }

  /**
   In every run, as long as their numbers fit the padding, sorting the names of the log files gives the order of their
   creation.
   */
  lemma {:induction false} LogsSortByNumber(format: LogFormat, steps: seq<Step>, basePath: bytes, listing: seq<bytes>)
    requires Runs(Init(format), steps)
    requires forall w :: w in Exec(Init(format), steps).disk.wals ==> w.number < Wal.FILE_LIMIT
    requires multiset(listing) == multiset(LogPaths(basePath, Exec(Init(format), steps).disk.wals))
    ensures SortStrings(listing) == LogPaths(basePath, Exec(Init(format), steps).disk.wals)
  {
    hide Next, Enabled, Runs, SortStrings, Less, Wal.WalPath;
    LogStaysOrdered(format, steps);
    var wals := Exec(Init(format), steps).disk.wals;
    var numbers := Numbers(wals);
    assert LogPaths(basePath, wals) == Wal.PathsOf(basePath, numbers);
    assert forall i :: 0 <= i < |wals| ==> wals[i] in wals;
    Wal.SortedByCreation(basePath, numbers, listing);
  }

  function Numbers(wals: seq<WalFile>): (r: seq<nat>)
    ensures |r| == |wals|
  {
    seq(|wals|, i requires 0 <= i < |wals| => wals[i].number)
  }
}
