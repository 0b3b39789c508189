/** What holds of every run of SimpleDB. */
module SimpleDBTheorems {
  import opened Bytes
  import opened Tables
  import opened Readers
  import opened SSTableManager
  import opened SimpleDB
  import opened SimpleDBInvariant
  import opened SimpleDBProof
  import opened SimpleDBRecovery

  // ---------- every step keeps the invariant ----------

  lemma {:induction false} WriterStep(s: State, step: Step, spec: map<bytes, bytes>)
    requires Inv(s, spec) && s.Running? && Enabled(s, step)
    requires step.Append? || step.Apply? || step.Rotate? || step.Rendezvous? || step.GetBegin? || step.GetEnd?
    ensures Inv(Next(s, step), SpecStep(spec, step))
  {
    hide RunningInv, LogTo, StoreOp, SpecOp, TableGet, Stack;
    match step
    case Append(op) => AppendStep(s.m, s.disk, op, spec);
    case Apply => ApplyStep(s.m, s.disk, spec);
    case Rotate => RotateStep(s.m, s.disk, spec);
    case Rendezvous => RendezvousStep(s.m, s.disk, spec);
    case GetBegin(id, k) => GetBeginStep(s.m, s.disk, spec, id, k);
    case GetEnd(id) => GetEndStep(s.m, s.disk, spec, id);
  }

  lemma {:induction false} FlusherStep(s: State, step: Step, spec: map<bytes, bytes>)
    requires Inv(s, spec) && s.Running? && Enabled(s, step)
    requires step.FlushSkip? || step.FlushWrite? || step.FlushRemoveWal? || step.Publish?
    ensures Inv(Next(s, step), SpecStep(spec, step))
  {
    hide RunningInv, Insert, RemoveWal;
    match step
    case FlushSkip => FlushSkipStep(s.m, s.disk, spec);
    case FlushWrite => FlushWriteStep(s.m, s.disk, spec);
    case FlushRemoveWal => FlushRemoveWalStep(s.m, s.disk, spec);
    case Publish => PublishStep(s.m, s.disk, spec);
  }

  lemma {:induction false} CompactorStep(s: State, step: Step, spec: map<bytes, bytes>)
    requires Inv(s, spec) && s.Running? && Enabled(s, step)
    requires step.Select? || step.StartMerge? || step.Commit? || step.ReflectBegin? || step.ReflectRemove?
        || step.ReflectRename? || step.ReflectFinish?
    ensures Inv(Next(s, step), SpecStep(spec, step))
  {
    hide RunningInv, Chosen, RunGuard, RunInputs, Compacted, Contents, Remove, Insert, IndexOf, ReplaceRun;
    match step
    case Select(sel) => SelectStep(s.m, s.disk, spec, sel);
    case StartMerge => StartMergeStep(s.m, s.disk, spec);
    case Commit => CommitStep(s.m, s.disk, spec);
    case ReflectBegin => ReflectBeginStep(s.m, s.disk, spec);
    case ReflectRemove => ReflectRemoveStep(s.m, s.disk, spec);
    case ReflectRename => ReflectRenameStep(s.m, s.disk, spec);
    case ReflectFinish => ReflectFinishStep(s.m, s.disk, spec);
  }

  lemma {:induction false} CrashRecovering(stage: Recovery, d: Disk, spec: map<bytes, bytes>)
    requires RecoveryInv(stage, d, spec)
    ensures Recoverable(d, spec)
  {
    hide Unfinished, Leftovers, DiskView, Recovered, Ascending, OpsValid;
    match stage
    case RepairRename(f) =>
      var older, i: nat, newer :| Unfinished(d, spec, older, i, newer) && i >= 1;
      UnfinishedCommitted(d, spec, older, i, newer);
      UnfinishedAscending(d, spec, older, i, newer);
    case RepairRest(f, next) =>
      var left: nat, older, newer :| Leftovers(f, next, left, d, spec, older, newer);
      LeftoversView(f, next, left, d, spec, older, newer);
      LeftoversFolder(f, next, left, d, spec, older, newer);
    case Fresh(readers, gen, read) => FreshView(d, readers, read, spec);
    case _ =>
  }

  /**
   A crash at any stage, of the running database or of a recovery: memory is lost and the disk, as it is, recovers. At
   the last stage of Open it can also strike inside the header of the first log file.
   */
  lemma {:induction false} CrashStep(s: State, spec: map<bytes, bytes>)
    requires Inv(s, spec)
    ensures Enabled(s, Crash) && Inv(Next(s, Crash), spec) && Next(s, Crash) == Recovering(Repair, s.disk)
    ensures s.Recovering? && s.stage.Fresh? ==> forall n :: 0 <= n < 8 ==> Enabled(s, TornCreate(n))
  {
    hide RunningInv, Recoverable;
    match s
    case Running(m, d) => CrashRunning(m, d, spec);
    case Recovering(stage, d) => CrashRecovering(stage, d, spec);
  }

  /**
   A crash inside a log append or a file creation leaves what a crash before it leaves, and behind the log the bytes
   that were written: the first n of the record of the operation, or of the header of the next file.
   */
  lemma {:induction false} TornStep(s: State, step: Step, spec: map<bytes, bytes>)
    requires Enabled(s, step) && (step.TornAppend? || step.TornCreate?)
    requires Inv(s, spec)
    ensures Inv(Next(s, step), spec) && Next(s, step).Recovering? && Next(s, step).stage.Repair?
    ensures var t := Next(s, step).disk;
            && t.tables == s.disk.tables && t.wals == s.disk.wals && t.folder == s.disk.folder
            && t.format == s.disk.format
            && (step.TornAppend? ==> t.tail == CutRecord(step.op, step.n))
            && (step.TornCreate? ==> t.tail == CutHeader(if s.Running? then s.m.nextWal else 0, step.n))
  {
    hide RunningInv, Recoverable;
    match s {
      case Running(m, d) => CrashRunning(m, d, spec);
      case Recovering(stage, d) => CrashRecovering(stage, d, spec);
    }
    RecoverableFrame(s.disk, Next(s, step).disk, spec);
  }

  lemma {:induction false} RecoverableFrame(d: Disk, d': Disk, spec: map<bytes, bytes>)
    requires Recoverable(d, spec) && d'.tables == d.tables && d'.wals == d.wals && d'.folder == d.folder
    ensures Recoverable(d', spec)
  {
    hide Compaction;
    if d.folder.Some? && d.folder.value.committed {
      var older, i: nat, newer :| Unfinished(d, spec, older, i, newer);
      assert Unfinished(d', spec, older, i, newer);
    }
  }

  lemma {:induction false} UnfinishedCommitted(d: Disk, spec: map<bytes, bytes>, older: seq<Reader>, i: nat,
                                               newer: seq<Reader>)
    requires Unfinished(d, spec, older, i, newer)
    ensures d.folder.Some? && d.folder.value.committed
  {
  }

  lemma {:induction false} LeftoversFolder(f: Folder, next: nat, left: nat, d: Disk, spec: map<bytes, bytes>,
                                           older: seq<Reader>, newer: seq<Reader>)
    requires Leftovers(f, next, left, d, spec, older, newer)
    ensures d.folder == None && f.run != [] && |f.run| == |f.inputs| && 1 <= next <= left <= |f.run|
  {
  }

  lemma {:induction false} RepairStep(s: State, step: Step, spec: map<bytes, bytes>)
    requires Inv(s, spec) && s.Recovering? && Enabled(s, step)
    requires step.RepairDelete? || step.RepairFirst? || step.RepairMove? || step.RepairRemove? || step.RepairDone?
    ensures Inv(Next(s, step), spec)
  {
    hide Unfinished, Leftovers, Remove, Insert, IndexOf, DiskView, Ascending, OpsValid;
    var d := s.disk;
    match step
    case RepairDelete => DiskViewFrame(d, d.(folder := None), spec);
    case RepairFirst =>
      var older, i: nat, newer :| Unfinished(d, spec, older, i, newer);
      RepairFirstStep(d, spec, older, i, newer);
      var j := if i == 0 then 1 else i;
      assert Unfinished(Next(s, step).disk, spec, older, j, newer) && j >= 1;
    case RepairMove =>
      var older, i: nat, newer :| Unfinished(d, spec, older, i, newer) && i >= 1;
      RepairMoveStep(d, spec, older, i, newer);
      assert Leftovers(d.folder.value, 1, i, Next(s, step).disk, spec, older, newer);
    case RepairRemove =>
      var f, next := s.stage.folder, s.stage.next;
      var left: nat, older, newer :| Leftovers(f, next, left, d, spec, older, newer);
      RepairRemoveStep(f, next, left, d, spec, older, newer);
      assert Leftovers(f, next + 1, if next == left then left + 1 else left, Next(s, step).disk, spec, older, newer);
    case RepairDone =>
      if s.stage.RepairRest? {
        var f, next := s.stage.folder, s.stage.next;
        var left: nat, older, newer :| Leftovers(f, next, left, d, spec, older, newer);
        LeftoversView(f, next, left, d, spec, older, newer);
        LeftoversFolder(f, next, left, d, spec, older, newer);
      }
  }

  lemma {:induction false} DiskViewFrame(d: Disk, d': Disk, spec: map<bytes, bytes>)
    requires DiskView(d, spec) && d'.tables == d.tables && d'.wals == d.wals
    ensures DiskView(d', spec)
  {
  }

  lemma {:induction false} OpenStep(s: State, step: Step, spec: map<bytes, bytes>)
    requires Inv(s, spec) && s.Recovering? && Enabled(s, step)
    requires step.OpenTables? || step.ReplayAll? || step.RemoveWals? || step.Start?
    ensures Inv(Next(s, step), spec)
  {
    hide Insert, DiskView, Ascending, RunningInv, Recovered, AllOps, Replay, MaxGen;
    var d := s.disk;
    match step
    case OpenTables => MaxGenIsNewest(d.tables);
    case ReplayAll =>
      if AllOps(d.wals) == [] {
        ReplayNothing(s.stage.readers, s.stage.gen, d, spec);
      } else {
        ReplayStep(s.stage.readers, s.stage.gen, d, spec);
      }
    case RemoveWals => assert AllOps([]) == [] by { NoOps(); }
    case Start => StartStep(s.stage.readers, s.stage.gen, s.stage.read, d, spec);
  }

  lemma {:induction false} NoOps()
    ensures AllOps([]) == []
  {
  }

  lemma {:induction false} StepPreserves(s: State, step: Step, spec: map<bytes, bytes>)
    requires Inv(s, spec) && Enabled(s, step)
    ensures Inv(Next(s, step), SpecStep(spec, step))
  {
    hide Inv, Next;
    if s.Running? {
      match step
      case Append(_) | Apply | Rotate | Rendezvous | GetBegin(_, _) | GetEnd(_) => WriterStep(s, step, spec);
      case FlushSkip | FlushWrite | FlushRemoveWal | Publish => FlusherStep(s, step, spec);
      case Crash => CrashStep(s, spec);
      case TornAppend(_, _) | TornCreate(_) => TornStep(s, step, spec);
      case _ => CompactorStep(s, step, spec);
    } else {
      match step
      case Crash => CrashStep(s, spec);
      case TornCreate(_) => TornStep(s, step, spec);
      case OpenTables | ReplayAll | RemoveWals | Start => OpenStep(s, step, spec);
      case _ => RepairStep(s, step, spec);
    }
  }

  // ---------- all runs ----------

  /**
   Safety over whole runs: whatever interleaving, crashes and repeated recoveries, the invariant holds of the
   map of all logged operations.
   */
  lemma {:induction false} RunPreserves(s: State, steps: seq<Step>, spec: map<bytes, bytes>)
    requires Inv(s, spec) && Runs(s, steps)
    ensures Inv(Exec(s, steps), SpecRun(spec, steps))
    decreases |steps|
  {
    hide Inv, Next, Enabled;
    if steps != [] {
      StepPreserves(s, steps[0], spec);
      RunPreserves(Next(s, steps[0]), steps[1..], SpecStep(spec, steps[0]));
    }
  }

  lemma {:induction false} InitInv(format: LogFormat)
    ensures Inv(Init(format), map[])
  {
    assert Contents([]) == [];
    assert Live(Stack([]) + Replay(AllOps([]))) == map[];
  }

  lemma {:induction false} Reachable(format: LogFormat, steps: seq<Step>)
    requires Runs(Init(format), steps)
    ensures Inv(Exec(Init(format), steps), SpecRun(map[], steps))
  {
    InitInv(format);
    RunPreserves(Init(format), steps, map[]);
  }

  lemma {:induction false} RunsConcat(s: State, a: seq<Step>, b: seq<Step>)
    ensures Runs(s, a + b) <==> Runs(s, a) && Runs(Exec(s, a), b)
    ensures Runs(s, a + b) ==> Exec(s, a + b) == Exec(Exec(s, a), b)
    decreases |a|
  {
    hide Next, Enabled;
    if a == [] {
      assert a + b == b;
    } else {
      assert (a + b)[0] == a[0] && (a + b)[1..] == a[1..] + b;
      if Enabled(s, a[0]) {
        RunsConcat(Next(s, a[0]), a[1..], b);
      }
    }
  }

  lemma {:induction false} SpecConcat(m: map<bytes, bytes>, a: seq<Step>, b: seq<Step>)
    ensures SpecRun(m, a + b) == SpecRun(SpecRun(m, a), b)
    decreases |a|
  {
    if a == [] {
      assert a + b == b;
    } else {
      assert (a + b)[0] == a[0] && (a + b)[1..] == a[1..] + b;
      SpecConcat(SpecStep(m, a[0]), a[1..], b);
    }
  }

  predicate EndsProcess(step: Step)
  {
    step.Crash? || step.TornAppend? || step.TornCreate?
  }

  /** A step that neither ends the get with the given id nor the process. */
  predicate LeavesPending(step: Step, id: nat)
  {
    step != GetEnd(id) && !EndsProcess(step)
  }

  /** Such a step leaves the get pending as it is, and logs no operation. */
  lemma {:induction false} PendingStays(s: State, step: Step, id: nat, spec: map<bytes, bytes>)
    requires s.Running? && id in s.m.gets && Enabled(s, step) && LeavesPending(step, id)
    requires Inv(s, spec)
    ensures var t := Next(s, step);
            && t.Running? && id in t.m.gets && t.m.gets[id] == s.m.gets[id] && SpecStep(spec, step) == spec
  {
    hide Insert, Remove, RemoveWal, ReplaceRun, Chosen, Filled, IndexOf, Compacted, RunInputs, Contents, RunGuard,
         Stack, LogTo, TableGet, GenInv, ViewInv, ReadInv, WalInv, StoreValid, OpsValid, DiskAt, StoreOp;
  }

  lemma {:induction false} PendingStaysRun(s: State, steps: seq<Step>, id: nat, spec: map<bytes, bytes>)
    requires s.Running? && id in s.m.gets && Runs(s, steps) && Inv(s, spec)
    requires forall step :: step in steps ==> LeavesPending(step, id)
    ensures var t := Exec(s, steps);
            && t.Running? && id in t.m.gets && t.m.gets[id] == s.m.gets[id] && SpecRun(spec, steps) == spec
    decreases |steps|
  {
    hide Next, Enabled, Inv, LeavesPending;
    if steps != [] {
      PendingStays(s, steps[0], id, spec);
      StepPreserves(s, steps[0], spec);
      PendingStaysRun(Next(s, steps[0]), steps[1..], id, spec);
    }
  }

  /** A pending get answers from the current map, for the key it was filed under. */
  lemma {:induction false} PendingAnswers(s: State, id: nat, spec: map<bytes, bytes>)
    requires Inv(s, spec) && s.Running? && id in s.m.gets
    ensures GetAnswer(s, id) == SpecGet(spec, s.m.gets[id].key)
  {
    hide Decide, RWGet, SpecGet, GenInv, ViewInv, ReadInv, WalInv, StoreValid, OpsValid, DiskAt;
  }

  lemma {:induction false} GetIsFiled(s: State, id: nat, k: bytes)
    requires Enabled(s, GetBegin(id, k))
    ensures var t := Next(s, GetBegin(id, k)); t.Running? && id in t.m.gets && t.m.gets[id].key == k
  {
    hide Stack, TableGet;
  }

  /**
   GetBytes(k) in any run: whatever the flusher, the compactor and other readers do between its two reads, the call is
   pending until it ends, and it answers exactly what the map of all operations logged before the call holds for k.
   */
  lemma {:induction false} GetAnswersTheMap(format: LogFormat, pre: seq<Step>, id: nat, k: bytes, rest: seq<Step>)
    requires Runs(Init(format), pre + ([GetBegin(id, k)] + rest))
    requires forall step :: step in rest ==> LeavesPending(step, id)
    ensures var s := Exec(Init(format), pre + ([GetBegin(id, k)] + rest));
            && s.Running? && id in s.m.gets
            && GetAnswer(s, id) == SpecGet(SpecRun(map[], pre), k)
            && SpecRun(map[], pre + ([GetBegin(id, k)] + rest)) == SpecRun(map[], pre)
  {
    hide Next, Enabled, Inv, SpecRun, Exec, Runs, GetAnswer, SpecGet, LeavesPending;
    var call := [GetBegin(id, k)] + rest;
    RunsConcat(Init(format), pre, call);
    SpecConcat(map[], pre, call);
    var s, spec := Exec(Init(format), pre), SpecRun(map[], pre);
    Reachable(format, pre);
    CallUnfolds(s, GetBegin(id, k), rest, spec);
    GetIsFiled(s, id, k);
    StepPreserves(s, GetBegin(id, k), spec);
    var t := Next(s, GetBegin(id, k));
    PendingStaysRun(t, rest, id, spec);
    RunPreserves(t, rest, spec);
    PendingAnswers(Exec(t, rest), id, spec);
  }

  lemma {:induction false} CallUnfolds(s: State, step: Step, rest: seq<Step>, spec: map<bytes, bytes>)
    requires Runs(s, [step] + rest)
    ensures Enabled(s, step) && Runs(Next(s, step), rest) && Exec(s, [step] + rest) == Exec(Next(s, step), rest)
    ensures SpecRun(spec, [step] + rest) == SpecRun(SpecStep(spec, step), rest)
  {
    hide Next, Enabled;
    assert ([step] + rest)[0] == step && ([step] + rest)[1..] == rest;
  }

  /** The get with the given id is pending in all states of the run. */
  ghost predicate PendingThroughout(s: State, steps: seq<Step>, id: nat)
    requires Runs(s, steps)
    decreases |steps|
  {
    s.Running? && id in s.m.gets && (steps == [] || PendingThroughout(Next(s, steps[0]), steps[1..], id))
  }

  /** No operation is logged while a GetBytes is pending, so its answer was right at every moment of the call. */
  lemma {:induction false} MapIsStableDuringGet(s: State, steps: seq<Step>, id: nat, spec: map<bytes, bytes>)
    requires Runs(s, steps) && PendingThroughout(s, steps, id)
    ensures SpecRun(spec, steps) == spec
    decreases |steps|
  {
    if steps != [] {
      MapIsStableDuringGet(Next(s, steps[0]), steps[1..], id, spec);
    }
  }

  /**
   After any number of crashes, an open database with no writer in it shows every key as the map of all logged
   operations does.
   */
  lemma {:induction false} OpenDatabaseShowsTheMap(format: LogFormat, steps: seq<Step>)
    requires Runs(Init(format), steps)
    requires var s := Exec(Init(format), steps); s.Running? && s.m.lock.Free?
    ensures var m := Exec(Init(format), steps).m;
            Live(Stack(m.readers) + m.read + m.write) == SpecRun(map[], steps)
  {
    hide Next, Enabled, SpecRun, Exec, Runs, Live, Stack;
    hide GenInv, ViewInv, ReadInv, WalInv, StoreValid, OpsValid, DiskAt, GetInv;
    Reachable(format, steps);
    var m := Exec(Init(format), steps).m;
    MemoryView(m.readers, m.flusher, m.read, m.write, SpecRun(map[], steps));
  }

  /**
   In every reachable state the readers ascend strictly by generation and the next generation exceeds all tables on
   disk.
   */
  lemma {:induction false} GenerationsAscend(format: LogFormat, steps: seq<Step>)
    requires Runs(Init(format), steps) && Exec(Init(format), steps).Running?
    ensures var s := Exec(Init(format), steps);
            && Ascending(s.m.readers)
            && (forall r :: r in s.m.readers ==> r.gen <= s.m.gen)
            && (forall r :: r in s.disk.tables ==> r.gen <= s.m.gen)
  {
    hide Next, Enabled, SpecRun, Exec, Runs, Live, Stack;
    hide ViewInv, ReadInv, WalInv, StoreValid, OpsValid, GetInv;
    Reachable(format, steps);
    var m, d := Exec(Init(format), steps).m, Exec(Init(format), steps).disk;
    var lo: nat :| DiskAt(m, d, lo);
    PrefixAscending(m.readers, Unpublished(m.flusher), m.gen);
    ListingBelow(m.readers, m.compactor, ProgressOf(m.lock), d.folder, lo, m.gen);
    hide Listing, CompactorInv, Ascending;
  }

  // ---------- recovery always comes to an end ----------

  /** The step Open takes next. */
  function RecoveryStep(s: State): Step
    requires s.Recovering?
  {
    match s.stage
    case Repair =>
      if s.disk.folder.None? then RepairDone
      else if s.disk.folder.value.committed then RepairFirst
      else RepairDelete
    case RepairRename(_) => RepairMove
    case RepairRest(f, next) => if next < |f.run| then RepairRemove else RepairDone
    case Reconstruct => OpenTables
    case ReplayWal(_, _) => ReplayAll
    case CleanWal(_, _, _) => RemoveWals
    case Fresh(_, _, _) => Start
  }

  function RecoveryRank(s: State): nat
  {
    if s.Running? then 0 else
      match s.stage
      case Repair =>
        if s.disk.folder.None? then 5 else if s.disk.folder.value.committed then 7 + |s.disk.folder.value.run| else 6
      case RepairRename(f) => 6 + |f.run|
      case RepairRest(f, next) => 5 + if next < |f.run| then |f.run| - next else 0
      case Reconstruct => 4
      case ReplayWal(_, _) => 3
      case CleanWal(_, _, _) => 2
      case Fresh(_, _, _) => 1
  }

  /** The one stage of Open that can fail: the replay of a log that is torn inside a record. */
  predicate Stuck(s: State)
    requires s.Recovering?
  {
    s.stage.ReplayWal? && Torn(s.disk)
  }

  /** No other stage of Open can fail: the next step is possible and brings the database closer to running. */
  lemma {:induction false} RecoveryProgress(s: State, spec: map<bytes, bytes>)
    requires Inv(s, spec) && s.Recovering?
    ensures Enabled(s, RecoveryStep(s)) <==> !Stuck(s)
    ensures !Stuck(s) ==> RecoveryRank(Next(s, RecoveryStep(s))) < RecoveryRank(s)
  {
    hide Unfinished, Leftovers, Remove, Insert, IndexOf, DiskView, Ascending, OpsValid, Recovered, AllOps, Replay,
         MaxGen;
    var d := s.disk;
    match s.stage
    case Repair =>
      if d.folder.Some? && d.folder.value.committed {
        var older, i: nat, newer :| Unfinished(d, spec, older, i, newer);
        RepairFirstStep(d, spec, older, i, newer);
      }
    case RepairRename(f) =>
      var older, i: nat, newer :| Unfinished(d, spec, older, i, newer) && i >= 1;
      RepairMoveStep(d, spec, older, i, newer);
    case _ =>
  }

  /**
   A database that has just been opened: nothing is in the memstore, nobody is at work, the log is one empty file, all
   tables are open and the next generation follows the newest, and it shows the map.
   */
  ghost predicate JustOpened(s: State, spec: map<bytes, bytes>)
  {
    && s.Running? && s.m.lock == Free && s.m.gets == map[] && s.m.flusher == Idle && s.m.compactor == NoCompaction
    && s.disk.wals == [WalFile(0, [])] && s.m.nextWal == 1 && s.disk.folder == None
    && s.m.readers == s.disk.tables
    && s.m.gen == (if s.m.readers == [] then 0 else s.m.readers[|s.m.readers| - 1].gen)
    && s.m.write == map[] && Live(Stack(s.m.readers)) == spec
  }

  /** Open ends with its last stage, and then the database is as it should be. */
  lemma {:induction false} OpenEnds(s: State, step: Step, spec: map<bytes, bytes>)
    requires Inv(s, spec) && s.Recovering? && Enabled(s, step) && Next(s, step).Running?
    ensures step == Start && JustOpened(Next(s, step), spec)
  {
    hide Ascending, OpsValid, Insert, Remove, IndexOf, DiskView, Unfinished, Leftovers, StoreValid, Stack, Live;
  }

  /**
   From every state, whatever crash left it, Open reaches a running database unless the log is torn, one that has
   nothing but what was on disk.
   */
  lemma {:induction false} OpenTerminates(s: State, spec: map<bytes, bytes>) returns (steps: seq<Step>)
    requires Inv(s, spec) && !Torn(s.disk)
    ensures Opens(s, steps) && (if s.Running? then steps == [] else JustOpened(Exec(s, steps), spec))
    decreases RecoveryRank(s)
  {
    hide Inv, Next, Enabled, JustOpened;
    if s.Running? {
      steps := [];
    } else {
      var step := RecoveryStep(s);
      RecoveryProgress(s, spec);
      RecoveryStepPlain(s);
      StepPreserves(s, step, spec);
      if Next(s, step).Running? {
        OpenEnds(s, step, spec);
      }
      var rest := OpenTerminates(Next(s, step), SpecStep(spec, step));
      steps := [step] + rest;
      assert steps[0] == step && steps[1..] == rest;
    }
  }

  /** The steps that Open itself takes. */
  predicate OfOpen(step: Step)
  {
    || step.RepairDelete? || step.RepairFirst? || step.RepairMove? || step.RepairRemove? || step.RepairDone?
    || step.OpenTables? || step.ReplayAll? || step.RemoveWals? || step.Start?
  }

  /** A run of Open alone, to a running database. */
  ghost predicate Opens(s: State, steps: seq<Step>)
  {
    Runs(s, steps) && Exec(s, steps).Running? && forall step :: step in steps ==> OfOpen(step)
  }

  /** A torn log is met in the stages of Open before the replay only. */
  ghost predicate TornEarly(s: State)
  {
    Torn(s.disk) ==> s.Recovering? && !s.stage.CleanWal? && !s.stage.Fresh?
  }

  lemma {:induction false} TornEarlyRun(s: State, steps: seq<Step>)
    requires TornEarly(s) && Runs(s, steps)
    ensures TornEarly(Exec(s, steps)) && (Torn(s.disk) ==> Torn(Exec(s, steps).disk))
    decreases |steps|
  {
    if steps != [] {
      TornEarlyStep(s, steps[0]);
      hide Next, Enabled, TornEarly;
      TornEarlyRun(Next(s, steps[0]), steps[1..]);
    }
  }

  lemma {:induction false} TornEarlyStep(s: State, step: Step)
    requires TornEarly(s) && Enabled(s, step)
    ensures TornEarly(Next(s, step)) && (Torn(s.disk) ==> Torn(Next(s, step).disk))
  {
    hide Insert, Remove, Replay, AllOps, MaxGen, IndexOf, Compacted, Contents, RunInputs, ReplaceRun, Chosen, Filled,
         RunGuard, LogTo;
  }

  /**
   In every state of every run, Open can finish if and only if the log is not torn; a torn log stays torn through all
   crashes.
   */
  lemma {:induction false} OpensIffNotTorn(format: LogFormat, steps: seq<Step>)
    requires Runs(Init(format), steps)
    ensures var s := Exec(Init(format), steps); (exists more :: Opens(s, more)) <==> !Torn(s.disk)
    ensures var s := Exec(Init(format), steps);
            Torn(s.disk) ==> forall more :: Runs(s, more) ==> Exec(s, more).Recovering?
  {
    hide Inv, Next, Enabled, Runs, Exec, SpecRun;
    Reachable(format, steps);
    TornEarlyRun(Init(format), steps);
    var s := Exec(Init(format), steps);
    if Torn(s.disk) {
      forall more | Runs(s, more) ensures Exec(s, more).Recovering? {
        TornEarlyRun(s, more);
      }
    } else {
      var more := OpenTerminates(s, SpecRun(map[], steps));
    }
  }

  lemma {:induction false} RecoveryStepPlain(s: State)
    requires s.Recovering?
    ensures OfOpen(RecoveryStep(s))
    ensures !Stuck(s) && Enabled(s, RecoveryStep(s)) && !Torn(s.disk) ==> !Torn(Next(s, RecoveryStep(s)).disk)
  {
  }

  /** reflectCompactionResult never fails: every member of the run is an open reader, and the rename target is free. */
  lemma {:induction false} ReflectProgress(s: State, spec: map<bytes, bytes>)
    requires Inv(s, spec) && s.Running? && (s.m.lock.Reflecting? || s.m.lock.Reflected?)
    ensures s.m.compactor.Finished?
    ensures var step := if s.m.lock.Reflected? then ReflectFinish
                        else if s.m.lock.removed < |s.m.compactor.run| then ReflectRemove else ReflectRename;
            Enabled(s, step) && (step.ReflectRemove? ==> IndexOf(s.m.readers, s.m.compactor.run[s.m.lock.removed]) >= 0)
  {
    hide GenInv, ViewInv, WalInv, GetInv, StoreValid, OpsValid, Stack, Live, ReadInv, RunAt, Compacted, Contents,
         IndexOf, ReplaceRun, Remove, Insert, Listing;
    var m, d := s.m, s.disk;
    var lo: nat :| DiskAt(m, d, lo);
    RunAtBounds(m.readers, m.compactor.run, lo);
    if m.lock.Reflected? {
      ReflectFinishStep(m, d, spec);
    } else if m.lock.removed < |m.compactor.run| {
      ReflectRemoveStep(m, d, spec);
    } else {
      ReflectRenameStep(m, d, spec);
    }
  }

  // ---------- the rendezvous never blocks for good ----------

  predicate FlusherMoves(step: Step)
  {
    step.FlushSkip? || step.FlushWrite? || step.FlushRemoveWal? || step.Publish?
  }

  /** How many steps the flusher is away from its channel, at most. */
  function FlusherDistance(f: Flusher): nat
  {
    match f
    case Idle => 0
    case WalRemoved(_, _) => 1
    case Written(_, _, _) => 2
    case Received(_, _) => 3
  }

  /**
   A step of the other goroutines while a writer waits for the flusher: neither the rendezvous nor the end of the
   process.
   */
  predicate WhileWaiting(step: Step)
  {
    !step.Rendezvous? && !EndsProcess(step)
  }

  /**
   Such a step leaves the writer waiting; it brings the flusher closer if it is the flusher's and leaves it alone if
   not.
   */
  lemma {:induction false} WaitingStep(s: State, step: Step)
    requires s.Running? && s.m.lock.Sending? && Enabled(s, step) && WhileWaiting(step)
    ensures var t := Next(s, step);
            && t.Running? && t.m.lock == s.m.lock
            && if FlusherMoves(step) then FlusherDistance(t.m.flusher) < FlusherDistance(s.m.flusher)
               else t.m.flusher == s.m.flusher
  {
    hide Insert, Remove, RemoveWal, ReplaceRun, Chosen, Filled, IndexOf, Compacted, RunInputs, Contents, RunGuard,
         Stack, LogTo, TableGet;
  }

  /** The step that the flusher, or the waiting writer, takes next. */
  function FlusherNext(f: Flusher): Step
  {
    match f
    case Idle => Rendezvous
    case WalRemoved(_, _) => Publish
    case Written(_, _, _) => FlushRemoveWal
    case Received(store, _) => if store == map[] then FlushSkip else FlushWrite
  }

  function FlusherSteps(steps: seq<Step>): nat
  {
    if steps == [] then 0 else (if FlusherMoves(steps[0]) then 1 else 0) + FlusherSteps(steps[1..])
  }

  /**
   A writer that waits for the flusher with the database lock held: in any interleaving of the other goroutines the
   flusher takes at most three steps, at every moment it can take its next one, and when it cannot the rendezvous is
   possible.
   */
  lemma {:induction false} FlusherArrives(s: State, steps: seq<Step>)
    requires s.Running? && s.m.lock.Sending? && Runs(s, steps) && forall step :: step in steps ==> WhileWaiting(step)
    ensures var t := Exec(s, steps);
            && t.Running? && t.m.lock == s.m.lock
            && FlusherSteps(steps) + FlusherDistance(t.m.flusher) <= FlusherDistance(s.m.flusher) <= 3
            && Enabled(t, FlusherNext(t.m.flusher)) && (Enabled(t, Rendezvous) <==> FlusherDistance(t.m.flusher) == 0)
            && (FlusherMoves(FlusherNext(t.m.flusher)) || FlusherNext(t.m.flusher) == Rendezvous)
    decreases |steps|
  {
    if steps != [] {
      hide Next, Enabled, FlusherDistance;
      WaitingStep(s, steps[0]);
      FlusherArrives(Next(s, steps[0]), steps[1..]);
    }
  }
}
