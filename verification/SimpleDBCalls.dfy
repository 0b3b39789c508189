/** What the calls of the database achieve when they run to their end: no step stands still, and none blocks another. */
module SimpleDBCalls {
  import opened Bytes
  import opened Tables
  import opened Readers
  import opened SSTableManager
  import opened SimpleDB
  import opened SimpleDBInvariant
  import opened SimpleDBProof
  import opened SimpleDBTheorems
  import RecordFormat

  /** The database is open, nobody holds its lock, and no get is pending. */
  predicate Quiet(s: State)
  {
    s.Running? && s.m.lock == Free && s.m.gets == map[]
  }

  // ---------- building runs ----------

  lemma {:induction false} NoStep(s: State)
    ensures Runs(s, []) && Exec(s, []) == s
  {
  }

  lemma {:induction false} StepThen(s: State, step: Step, rest: seq<Step>)
    requires Enabled(s, step) && Runs(Next(s, step), rest)
    ensures Runs(s, [step] + rest) && Exec(s, [step] + rest) == Exec(Next(s, step), rest)
  {
    hide Next, Enabled;
    assert ([step] + rest)[0] == step && ([step] + rest)[1..] == rest;
  }

  /** A running database has a log file to append to. */
  lemma {:induction false} LogIsThere(s: State, spec: map<bytes, bytes>)
    requires Inv(s, spec) && s.Running?
    ensures s.disk.wals != []
  {
    hide GenInv, ViewInv, ReadInv, StoreValid, OpsValid, DiskAt, GetInv;
  }

  // ---------- writing and reading ----------

  /**
   Every operation with a key, and a value if it is an addition, can start in a quiet state, and the process can die
   behind any byte of its record, or of the header of a new log file.
   */
  lemma {:induction false} WriteCanStart(s: State, spec: map<bytes, bytes>, op: Op)
    requires Inv(s, spec) && Quiet(s) && op.key != [] && (op.Put? ==> op.value != [])
    ensures Enabled(s, Append(op)) && Enabled(s, Rotate)
    ensures forall n: nat :: n < |RecordFormat.Encode(s.disk.format.codec, Some(s.disk.format.marshal(op)))| ==>
              Enabled(s, TornAppend(op, n))
    ensures forall n :: 0 <= n < 8 ==> Enabled(s, TornCreate(n))
  {
    hide Inv, RecordFormat.Encode;
    LogIsThere(s, spec);
  }

  /** A writer whose operation is logged can apply it now, and after any step of the others. */
  lemma {:induction false} WriterCanApply(s: State, step: Step)
    requires s.Running? && s.m.lock.Writing? && Enabled(s, step) && step != Apply && !EndsProcess(step)
    ensures Enabled(s, Apply)
    ensures var t := Next(s, step); t.Running? && t.m.lock == s.m.lock && Enabled(t, Apply)
  {
    hide Insert, Remove, RemoveWal, ReplaceRun, Chosen, Filled, IndexOf, Compacted, RunInputs, Contents, RunGuard,
         Stack, LogTo, TableGet, StoreOp;
  }

  lemma {:induction false} AppendThenApply(s: State, op: Op)
    requires Enabled(s, Append(op)) && Quiet(s)
    ensures var t := Next(s, Append(op));
            && Enabled(t, Apply) && Quiet(Next(t, Apply))
            && Next(t, Apply).m.flusher == s.m.flusher && Next(t, Apply).m.compactor == s.m.compactor
  {
    hide LogTo, StoreOp;
  }

  /** PutBytes and DeleteBytes: after the append and the memstore update every reader sees the operation. */
  lemma {:induction false} WriteCompletes(format: LogFormat, pre: seq<Step>, op: Op)
    requires Runs(Init(format), pre) && Quiet(Exec(Init(format), pre))
    requires op.key != [] && (op.Put? ==> op.value != [])
    ensures Runs(Init(format), pre + [Append(op), Apply])
    ensures var t := Exec(Init(format), pre + [Append(op), Apply]);
            && Quiet(t)
            && Live(Stack(t.m.readers) + t.m.read + t.m.write)
               == (if op.Put? then SpecRun(map[], pre)[op.key := op.value] else SpecRun(map[], pre) - {op.key})
  {
    hide Next, Enabled, Inv, SpecRun, Exec, Runs, Live, Stack;
    var s, call := Exec(Init(format), pre), [Append(op), Apply];
    Reachable(format, pre);
    WriteCanStart(s, SpecRun(map[], pre), op);
    AppendThenApply(s, op);
    var t := Next(s, Append(op));
    NoStep(Next(t, Apply));
    StepThen(t, Apply, []);
    assert [Apply] + [] == [Apply];
    StepThen(s, Append(op), [Apply]);
    assert [Append(op)] + [Apply] == call;
    RunsConcat(Init(format), pre, call);
    OpenDatabaseShowsTheMap(format, pre + call);
    SpecConcat(map[], pre, call);
    SpecOfWrite(SpecRun(map[], pre), op);
  }

  lemma {:induction false} SpecOfWrite(m: map<bytes, bytes>, op: Op)
    ensures SpecRun(m, [Append(op), Apply]) == if op.Put? then m[op.key := op.value] else m - {op.key}
  {
    assert [Append(op), Apply][1..] == [Apply] && [Apply][1..] == [];
  }

  /** A get can start whenever nobody holds the lock, end at any time, and its end leaves everything else as it is. */
  lemma {:induction false} GetCompletes(s: State, id: nat, k: bytes)
    requires s.Running?
    ensures s.m.lock == Free && id !in s.m.gets ==> Enabled(s, GetBegin(id, k))
    ensures id in s.m.gets ==> Enabled(s, GetEnd(id))
    ensures id in s.m.gets ==> Next(s, GetEnd(id)) == Running(s.m.(gets := s.m.gets - {id}), s.disk)
  {
  }

  // ---------- flushing ----------

  /** The steps of a flush, from the rotation to the publication of the table. */
  function FlushSteps(store: Table): seq<Step>
  {
    if store == map[] then [Rotate, Rendezvous, FlushSkip]
    else [Rotate, Rendezvous, FlushWrite, FlushRemoveWal, Publish]
  }

  lemma {:induction false} RotateAndSend(s: State)
    requires Quiet(s) && s.disk.wals != [] && s.m.flusher.Idle?
    ensures Enabled(s, Rotate) && Enabled(Next(s, Rotate), Rendezvous)
    ensures var t := Next(Next(s, Rotate), Rendezvous);
            && Quiet(t) && t.m.flusher.Received? && t.m.flusher.store == s.m.write && t.m.readers == s.m.readers
            && t.m.write == map[] && t.m.read == s.m.write && t.m.gen == s.m.gen && t.disk.tables == s.disk.tables
            && t.m.compactor == s.m.compactor
  {
  }

  lemma {:induction false} FlushReceived(s: State)
    requires Quiet(s) && s.m.flusher.Received? && s.m.flusher.store != map[]
    ensures Enabled(s, FlushWrite) && Enabled(Next(s, FlushWrite), FlushRemoveWal)
    ensures Enabled(Next(Next(s, FlushWrite), FlushRemoveWal), Publish)
    ensures var t := Next(Next(Next(s, FlushWrite), FlushRemoveWal), Publish);
            && Quiet(t) && t.m.flusher.Idle? && t.m.write == s.m.write && t.m.read == s.m.read
            && t.m.readers == s.m.readers + [Reader(s.m.gen + 1, s.m.flusher.store)]
            && t.disk.tables == Insert(s.disk.tables, Reader(s.m.gen + 1, s.m.flusher.store))
  {
    hide Insert, RemoveWal;
  }

  lemma {:induction false} InsertHas(rs: seq<Reader>, r: Reader)
    ensures r in Insert(rs, r)
  {
    if rs != [] && !(r.gen < rs[0].gen) {
      InsertHas(rs[1..], r);
    }
  }

  /** Without unflushed operations the log has none. */
  lemma {:induction false} LogIsEmpty(s: State, spec: map<bytes, bytes>)
    requires Inv(s, spec) && Quiet(s) && s.m.flusher.Idle? && s.m.write == map[]
    ensures AllOps(s.disk.wals) == []
  {
    hide GenInv, ViewInv, ReadInv, StoreValid, OpsValid, DiskAt, GetInv, Replay;
    var wals := s.disk.wals;
    forall i | 0 <= i < |wals| ensures wals[i].ops == [] {
      ReplayNonEmpty(wals[i].ops);
    }
    EmptyLogs(wals);
  }

  /**
   A flush from any quiet state with an idle flusher: it runs to its end, the write store is empty then and what it held
   is the newest open table and on disk, and the log holds no operation any more.
   */
  lemma {:induction false} FlushCompletes(format: LogFormat, pre: seq<Step>)
    requires Runs(Init(format), pre) && Quiet(Exec(Init(format), pre)) && Exec(Init(format), pre).m.flusher.Idle?
    ensures var s := Exec(Init(format), pre);
            var steps := FlushSteps(s.m.write);
            && Runs(s, steps)
            && var t := Exec(s, steps);
            && Quiet(t) && t.m.flusher.Idle? && t.m.write == map[] && t.m.read == s.m.write && AllOps(t.disk.wals) == []
            && (if s.m.write == map[] then t.m.readers == s.m.readers
                else && t.m.readers == s.m.readers + [Reader(s.m.gen + 1, s.m.write)]
                     && Reader(s.m.gen + 1, s.m.write) in t.disk.tables)
  {
    hide Next, Enabled, Inv, SpecRun, Exec, Runs, Insert, AllOps;
    var s, spec := Exec(Init(format), pre), SpecRun(map[], pre);
    Reachable(format, pre);
    LogIsThere(s, spec);
    RotateAndSend(s);
    var r := Next(s, Rotate);
    var u := Next(r, Rendezvous);
    StepPreserves(s, Rotate, spec);
    StepPreserves(r, Rendezvous, spec);
    if s.m.write == map[] {
      SkipReceived(u);
      var t := Next(u, FlushSkip);
      StepPreserves(u, FlushSkip, spec);
      LogIsEmpty(t, spec);
      NoStep(t);
      StepThen(u, FlushSkip, []);
      StepThen(r, Rendezvous, [FlushSkip] + []);
      StepThen(s, Rotate, [Rendezvous] + ([FlushSkip] + []));
      assert [Rotate] + ([Rendezvous] + ([FlushSkip] + [])) == FlushSteps(s.m.write);
    } else {
      FlushReceived(u);
      var a := Next(u, FlushWrite);
      var b := Next(a, FlushRemoveWal);
      var t := Next(b, Publish);
      StepPreserves(u, FlushWrite, spec);
      StepPreserves(a, FlushRemoveWal, spec);
      StepPreserves(b, Publish, spec);
      LogIsEmpty(t, spec);
      InsertHas(u.disk.tables, Reader(u.m.gen + 1, u.m.flusher.store));
      NoStep(t);
      StepThen(b, Publish, []);
      StepThen(a, FlushRemoveWal, [Publish] + []);
      StepThen(u, FlushWrite, [FlushRemoveWal] + ([Publish] + []));
      StepThen(r, Rendezvous, [FlushWrite] + ([FlushRemoveWal] + ([Publish] + [])));
      StepThen(s, Rotate, [Rendezvous] + ([FlushWrite] + ([FlushRemoveWal] + ([Publish] + []))));
      assert [Rotate] + ([Rendezvous] + ([FlushWrite] + ([FlushRemoveWal] + ([Publish] + []))))
          == FlushSteps(s.m.write);
    }
  }

  lemma {:induction false} SkipReceived(s: State)
    requires Quiet(s) && s.m.flusher.Received? && s.m.flusher.store == map[]
    ensures Enabled(s, FlushSkip)
    ensures Next(s, FlushSkip) == Running(s.m.(flusher := Idle), s.disk)
  {
  }

  // ---------- compacting ----------

  /** The readers of a list, with those from lo on that the run names replaced by their compaction. */
  ghost predicate RunReplaced(before: seq<Reader>, lo: nat, n: nat, after: seq<Reader>)
  {
    && n > 0 && lo + n <= |before|
    && after == before[..lo] + [Reader(before[lo].gen, Compacted(Contents(before[lo..lo + n])))] + before[lo + n..]
  }

  /** What the selection covers: from the first selected reader to the last one. */
  predicate Spans(sel: seq<bool>, lo: nat, hi: nat)
  {
    lo < hi <= |sel| && sel[lo] && sel[hi - 1] && forall k :: 0 <= k < |sel| && sel[k] ==> lo <= k < hi
  }

  /** Every selection of readers under the tombstone guard can be compacted, and its run is what it covers. */
  lemma {:induction false} CompactionCanStart(s: State, spec: map<bytes, bytes>, sel: seq<bool>, lo: nat, hi: nat)
    requires Inv(s, spec) && s.Running? && s.m.compactor.NoCompaction? && |sel| == |s.m.readers| && Spans(sel, lo, hi)
    requires TombstoneGuard(Stack(s.m.readers[..lo]), Stack(s.m.readers[lo..hi]), Stack(s.m.readers[hi..]))
    ensures Enabled(s, Select(sel)) && Chosen(s.m.readers, Filled(sel)) == s.m.readers[lo..hi]
  {
    hide Filled, Chosen, Stack, TombstoneGuard, ViewInv, ReadInv, WalInv, StoreValid, OpsValid, GetInv, DiskAt;
    var a, b := CandidatesAreContiguous(s.m.readers, sel);
    assert a == lo && b == hi;
    PrefixAscending(s.m.readers, Unpublished(s.m.flusher), s.m.gen);
    var run := Gens(s.m.readers[lo..hi]);
    assert |run| == hi - lo && run[0] == s.m.readers[lo].gen;
    IndexOfAscending(s.m.readers, lo);
  }

  lemma {:induction false} MergeStarts(s: State, sel: seq<bool>)
    requires Quiet(s) && Enabled(s, Select(sel))
    ensures var a := Next(s, Select(sel));
            && Enabled(a, StartMerge)
            && var t := Next(a, StartMerge);
            && Quiet(t) && t.m.compactor == Merging(Gens(Chosen(s.m.readers, Filled(sel)))) && t.disk.folder.Some?
            && t.m.readers == s.m.readers && t.m.flusher == s.m.flusher
  {
    hide RunGuard, Chosen, Filled;
  }

  lemma {:induction false} MergeEnds(s: State)
    requires Quiet(s) && s.m.compactor.Merging? && s.disk.folder.Some?
    ensures Enabled(s, Commit)
    ensures var c := Next(s, Commit);
            && Enabled(c, ReflectBegin)
            && var t := Next(c, ReflectBegin);
            && t.Running? && t.m.compactor == Finished(s.m.compactor.run) && t.m.lock == Reflecting(0)
            && t.m.readers == s.m.readers && t.m.gets == map[] && t.m.flusher == s.m.flusher
  {
    hide RunInputs, Compacted, Contents;
  }

  /** From there on to the end, with any number of run members removed already. */
  lemma {:induction false} ReflectRun(s: State, spec: map<bytes, bytes>) returns (steps: seq<Step>, lo: nat)
    requires Inv(s, spec) && s.Running? && s.m.compactor.Finished? && s.m.gets == map[]
    requires s.m.lock.Reflecting? || s.m.lock.Reflected?
    ensures Runs(s, steps)
    ensures var t := Exec(s, steps);
            && Quiet(t) && t.m.compactor.NoCompaction? && t.disk.folder == None && t.m.flusher == s.m.flusher
            && RunReplaced(s.m.readers, lo, |s.m.compactor.run|, t.m.readers)
            && Gens(s.m.readers[lo..lo + |s.m.compactor.run|]) == s.m.compactor.run
            && t.disk.tables == t.m.readers + Unpublished(t.m.flusher)
    decreases if s.m.lock.Reflected? then 0 else |s.m.compactor.run| + 1 - s.m.lock.removed
  {
    hide Next, Enabled, Inv, Exec, Runs, RunReplaced, IndexOf;
    ReflectProgress(s, spec);
    if s.m.lock.Reflected? {
      lo := FinishReplaces(s, spec);
      steps := [ReflectFinish] + [];
      NoStep(Next(s, ReflectFinish));
      StepThen(s, ReflectFinish, []);
    } else {
      ReflectBounds(s, spec);
      var step := if s.m.lock.removed < |s.m.compactor.run| then ReflectRemove else ReflectRename;
      ReflectKeeps(s, step);
      StepPreserves(s, step, spec);
      var rest;
      rest, lo := ReflectRun(Next(s, step), spec);
      steps := [step] + rest;
      StepThen(s, step, rest);
    }
  }

  lemma {:induction false} ReflectBounds(s: State, spec: map<bytes, bytes>)
    requires Inv(s, spec) && s.Running? && s.m.compactor.Finished? && s.m.lock.Reflecting?
    ensures s.m.lock.removed <= |s.m.compactor.run|
  {
    hide GenInv, ViewInv, ReadInv, WalInv, StoreValid, OpsValid, GetInv, Listing;
  }

  lemma {:induction false} ReflectKeeps(s: State, step: Step)
    requires s.Running? && s.m.compactor.Finished? && Enabled(s, step) && (step.ReflectRemove? || step.ReflectRename?)
    ensures var t := Next(s, step);
            && t.Running? && t.m.compactor == s.m.compactor && t.m.gets == s.m.gets && t.m.readers == s.m.readers
            && t.m.flusher == s.m.flusher
            && t.m.lock == if step.ReflectRemove? then Reflecting(s.m.lock.removed + 1) else Reflected
  {
    hide Remove, Insert, IndexOf;
  }

  lemma {:induction false} FinishReplaces(s: State, spec: map<bytes, bytes>) returns (lo: nat)
    requires Inv(s, spec) && s.Running? && s.m.compactor.Finished? && s.m.lock.Reflected? && s.m.gets == map[]
    requires Enabled(s, ReflectFinish)
    ensures var t := Next(s, ReflectFinish);
            && Quiet(t) && t.m.compactor.NoCompaction? && t.disk.folder == None && t.m.flusher == s.m.flusher
            && RunReplaced(s.m.readers, lo, |s.m.compactor.run|, t.m.readers)
            && Gens(s.m.readers[lo..lo + |s.m.compactor.run|]) == s.m.compactor.run
            && t.disk.tables == t.m.readers + Unpublished(t.m.flusher)
  {
    hide GenInv, ViewInv, ReadInv, WalInv, StoreValid, OpsValid, GetInv, IndexOf, ReplaceRun, DiskInv, RunReplaced;
    lo :| DiskAt(s.m, s.disk, lo);
    FinishReaders(s.m.readers, s.m.compactor.run, s.disk.folder, Unpublished(s.m.flusher), s.disk.tables, lo, s.m.gen);
  }

  lemma {:induction false} FinishReaders(readers: seq<Reader>, run: seq<nat>, folder: Option<Folder>,
                                         unpublished: seq<Reader>, tables: seq<Reader>, lo: nat, gen: nat)
    requires DiskInv(readers, Finished(run), Renamed, folder, unpublished, tables, lo)
    requires GenInv(readers + unpublished, gen)
    ensures run != [] && folder == None && IndexOf(tables, run[0]) >= 0
    ensures var after := ReplaceRun(readers, run, tables[IndexOf(tables, run[0])].table);
            RunReplaced(readers, lo, |run|, after) && tables == after + unpublished
    ensures lo + |run| <= |readers| && Gens(readers[lo..lo + |run|]) == run
  {
    hide GenInv, IndexOf, ReplaceRun, Stack, Compacted, Contents, TombstoneGuard;
    RunAtGen(readers, run, lo, 0);
    RunAtGens(readers, run, lo);
    FinishRun(readers, run, unpublished, lo, gen, tables);
    hide RunAt, Gens;
    var merged := Reader(run[0], Compacted(Contents(readers[lo..lo + |run|])));
    var replaced := readers[..lo] + [merged] + readers[lo + |run|..];
    SameFront(ReplaceRun(readers, run, tables[IndexOf(tables, run[0])].table), replaced, unpublished);
  }

  lemma {:induction false} SameFront(a: seq<Reader>, b: seq<Reader>, c: seq<Reader>)
    requires a + c == b + c
    ensures a == b
  {
    assert |a + c| == |b + c|;
    assert (a + c)[..|a|] == a && (b + c)[..|b|] == b;
  }

  /**
   A compaction from any quiet state without one, for any selection under the tombstone guard: it runs to its end, and
   then all readers from the first selected to the last selected one are replaced in place by their compaction, in
   memory and on disk, and the compaction folder is gone.
   */
  lemma {:induction false} CompactionCompletes(format: LogFormat, pre: seq<Step>, sel: seq<bool>, lo: nat, hi: nat)
    returns (steps: seq<Step>)
    requires Runs(Init(format), pre) && Quiet(Exec(Init(format), pre))
    requires var m := Exec(Init(format), pre).m;
             && m.compactor.NoCompaction? && |sel| == |m.readers| && Spans(sel, lo, hi)
             && TombstoneGuard(Stack(m.readers[..lo]), Stack(m.readers[lo..hi]), Stack(m.readers[hi..]))
    ensures var s := Exec(Init(format), pre);
            && Runs(s, steps)
            && var t := Exec(s, steps);
            && Quiet(t) && t.m.compactor.NoCompaction? && t.disk.folder == None
            && t.m.readers == s.m.readers[..lo]
                              + [Reader(s.m.readers[lo].gen, Compacted(Contents(s.m.readers[lo..hi])))]
                              + s.m.readers[hi..]
            && t.disk.tables == t.m.readers + Unpublished(t.m.flusher)
  {
    hide Next, Inv, SpecRun, Exec, Runs, Chosen, Filled, RunGuard, Enabled, TombstoneGuard, Compacted, Contents;
    var s, spec := Exec(Init(format), pre), SpecRun(map[], pre);
    Reachable(format, pre);
    CompactionCanStart(s, spec, sel, lo, hi);
    MergeStarts(s, sel);
    var a := Next(s, Select(sel));
    var b := Next(a, StartMerge);
    MergeEnds(b);
    var c := Next(b, Commit);
    var d := Next(c, ReflectBegin);
    StepPreserves(s, Select(sel), spec);
    StepPreserves(a, StartMerge, spec);
    StepPreserves(b, Commit, spec);
    StepPreserves(c, ReflectBegin, spec);
    var rest, at := ReflectRun(d, spec);
    AtFirst(s, spec, lo, hi, at);
    StepThen(c, ReflectBegin, rest);
    StepThen(b, Commit, [ReflectBegin] + rest);
    StepThen(a, StartMerge, [Commit] + ([ReflectBegin] + rest));
    StepThen(s, Select(sel), [StartMerge] + ([Commit] + ([ReflectBegin] + rest)));
    steps := [Select(sel)] + ([StartMerge] + ([Commit] + ([ReflectBegin] + rest)));
  }

  /** Generations tell where a run lies. */
  lemma {:induction false} AtFirst(s: State, spec: map<bytes, bytes>, lo: nat, hi: nat, at: nat)
    requires Inv(s, spec) && s.Running? && lo < hi <= |s.m.readers| && at + (hi - lo) <= |s.m.readers|
    requires Gens(s.m.readers[at..at + (hi - lo)]) == Gens(s.m.readers[lo..hi])
    ensures at == lo
  {
    hide ViewInv, ReadInv, WalInv, StoreValid, OpsValid, GetInv, DiskAt;
    PrefixAscending(s.m.readers, Unpublished(s.m.flusher), s.m.gen);
    assert Gens(s.m.readers[at..at + (hi - lo)])[0] == s.m.readers[at].gen;
    assert Gens(s.m.readers[lo..hi])[0] == s.m.readers[lo].gen;
  }
}
