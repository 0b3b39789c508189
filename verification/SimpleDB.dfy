/**
 SimpleDB as a step system. A state is what the process holds in memory and what is on disk; a step is one
 section of the code that is atomic for the other goroutines or for a crash. Every interleaving of the writer
 methods, readers, the flusher, the compactor, crashes and the sub-steps of recovery is a sequence of steps.
 */
module SimpleDB {
  import opened Bytes
  import opened Tables
  import opened Readers
  import opened SSTableManager
  import RecordFormat

  // ---------- operations, memstores and the write-ahead log ----------

  datatype Op = Put(key: bytes, value: bytes) | Delete(key: bytes)

  /** Put rejects empty keys and values; the documentation forbids them for every writer method. */
  predicate ValidOp(op: Op)
  {
    op.key != [] && (op.Put? ==> op.value != [])
  }

  /** The effect of an operation on a memstore: an upsert or a tombstone. */
  function StoreOp(t: Table, op: Op): Table
  {
    match op
    case Put(k, v) => t[k := Some(v)]
    case Delete(k) => t[k := None]
  }

  /** Replaying mutations, in order, into an empty memstore. */
  function Replay(ops: seq<Op>): Table
  {
    if ops == [] then map[] else StoreOp(Replay(ops[..|ops| - 1]), ops[|ops| - 1])
  }

  datatype WalFile = WalFile(number: nat, ops: seq<Op>)

  /** All mutations of the log directory in file-name order. */
  function AllOps(wals: seq<WalFile>): seq<Op>
  {
    if wals == [] then [] else AllOps(wals[..|wals| - 1]) + wals[|wals| - 1].ops
  }

  function RemoveWal(wals: seq<WalFile>, number: nat): seq<WalFile>
  {
    if wals == [] then [] else if wals[0].number == number then wals[1..] else [wals[0]] + RemoveWal(wals[1..], number)
  }

  /** The specification: a plain map. */
  function SpecOp(m: map<bytes, bytes>, op: Op): map<bytes, bytes>
  {
    match op
    case Put(k, v) => m[k := v]
    case Delete(k) => m - {k}
  }

  datatype GetResult = ErrNotFound | Found(value: bytes)

  function SpecGet(m: map<bytes, bytes>, k: bytes): GetResult
  {
    if k in m then Found(m[k]) else ErrNotFound
  }

  // ---------- the read path ----------

  datatype TableResult = TableNotFound | TableValue(value: Value)
  datatype MemResult = KeyNotFound | KeyTombstoned | MemValue(value: bytes)

  function TableGet(t: Table, k: bytes): TableResult
  {
    if k in t then TableValue(t[k]) else TableNotFound
  }

  function MemGet(t: Table, k: bytes): MemResult
  {
    if k !in t then KeyNotFound else if t[k].None? then KeyTombstoned else MemValue(t[k].value)
  }

  /** The write store wins, tombstones included; only a missing key falls through to the read store. */
  function RWGet(read: Table, write: Table, k: bytes): MemResult
  {
    var w := MemGet(write, k);
    if w.KeyNotFound? then MemGet(read, k) else w
  }

  /** The decision GetBytes takes from what it read in the tables first and in the memstores second. */
  function Decide(t: TableResult, m: MemResult): GetResult
  {
    var sstableNotFound := t.TableNotFound? || t.value.None? || t.value.value == [];
    match m
    case KeyNotFound => if sstableNotFound then ErrNotFound else Found(t.value.value)
    case KeyTombstoned => ErrNotFound
    case MemValue(v) => Found(v)
  }

  // ---------- states ----------

  /**
   A compaction folder: the run it replaces and, once the success flag and the closed table are in it, the
   merged table. `inputs` records the tables the merge read.
   */
  datatype Folder = Folder(run: seq<nat>, inputs: seq<Reader>, merged: Table, committed: bool)

  /** How operations become the records of a log file, for any encoding. */
  datatype LogFormat = LogFormat(codec: RecordFormat.Codec, marshal: Op -> bytes)

  function LogRecord(format: LogFormat, op: Op): Value
  {
    Some(format.marshal(op))
  }

  /**
   What a crash left behind the complete records of the log: the first n bytes of a record in the last file, or of the
   header of a file just created.
   */
  datatype Tail = NoTail | CutRecord(op: Op, n: nat) | CutHeader(number: nat, n: nat)

  datatype Disk = Disk(tables: seq<Reader>, wals: seq<WalFile>, folder: Option<Folder>, tail: Tail, format: LogFormat)

  /** The log ends inside a record or a file header, where the replay fails instead of ending. */
  predicate Torn(d: Disk)
  {
    match d.tail
    case NoTail => false
    case CutRecord(op, n) => !RecordFormat.EndPoint(d.format.codec, LogRecord(d.format, op), n)
    case CutHeader(_, _) => true
  }

  /** Where the flusher is with the store it received: its table written, its log file removed. */
  datatype Flusher =
    | Idle
    | Received(store: Table, wal: nat)
    | Written(store: Table, wal: nat, gen: nat)
    | WalRemoved(store: Table, gen: nat)

  /** Who holds the database lock exclusively, and how far that holder is. */
  datatype Lock =
    | Free
    | Writing(op: Op)                     // logged, not yet in the memstore
    | Sending(store: Table, wal: nat)     // swapped, blocked on the unbuffered flush channel
    | Reflecting(removed: nat)            // removing the directories of the compacted run
    | Reflected                           // compaction folder renamed, reader list still old

  datatype Compactor = NoCompaction | Selected(run: seq<nat>) | Merging(run: seq<nat>) | Finished(run: seq<nat>)

  /** A GetBytes between its table read and its memstore read. */
  datatype PendingGet = PendingGet(key: bytes, table: TableResult)

  datatype Memory = Memory(
    write: Table, read: Table, readers: seq<Reader>, gen: nat, nextWal: nat,
    flusher: Flusher, lock: Lock, compactor: Compactor, gets: map<nat, PendingGet>)

  /** The stages of Open. */
  datatype Recovery =
    | Repair
    | RepairRename(folder: Folder)
    | RepairRest(folder: Folder, next: nat)
    | Reconstruct
    | ReplayWal(readers: seq<Reader>, gen: nat)
    | CleanWal(readers: seq<Reader>, gen: nat, read: Table)
    | Fresh(readers: seq<Reader>, gen: nat, read: Table)

  datatype State = Running(m: Memory, disk: Disk) | Recovering(stage: Recovery, disk: Disk)

  /** An empty directory. */
  function Init(format: LogFormat): State
  {
    Recovering(Repair, Disk([], [], None, NoTail, format))
  }

  // ---------- steps ----------

  datatype Step =
    | Append(op: Op) | Apply | Rotate | Rendezvous
    | FlushSkip | FlushWrite | FlushRemoveWal | Publish
    | GetBegin(id: nat, key: bytes) | GetEnd(id: nat)
    | Select(selection: seq<bool>) | StartMerge | Commit
    | ReflectBegin | ReflectRemove | ReflectRename | ReflectFinish
    | Crash | TornAppend(op: Op, n: nat) | TornCreate(n: nat)
    | RepairDelete | RepairFirst | RepairMove | RepairRemove | RepairDone | OpenTables | ReplayAll | RemoveWals | Start

  ghost predicate Enabled(s: State, step: Step)
  {
    match s
    case Running(m, d) =>
      (match step
       case Append(op) => m.lock.Free? && m.gets == map[] && ValidOp(op) && d.wals != []
       case Apply => m.lock.Writing?
       case Rotate => m.lock.Free? && m.gets == map[] && d.wals != []
       case Rendezvous => m.lock.Sending? && m.flusher.Idle?
       case FlushSkip => m.flusher.Received? && m.flusher.store == map[]
       case FlushWrite => m.flusher.Received? && m.flusher.store != map[]
       case FlushRemoveWal => m.flusher.Written?
       case Publish => m.flusher.WalRemoved? && !m.lock.Reflecting? && !m.lock.Reflected?
       case GetBegin(id, _) => m.lock.Free? && id !in m.gets
       case GetEnd(id) => id in m.gets
       case Select(sel) =>
         && m.compactor.NoCompaction? && |sel| == |m.readers|
         && Chosen(m.readers, Filled(sel)) != []
         && RunGuard(m.readers, Gens(Chosen(m.readers, Filled(sel))))
       case StartMerge => m.compactor.Selected?
       case Commit => m.compactor.Merging? && d.folder.Some?
       case ReflectBegin => m.compactor.Finished? && m.lock.Free? && m.gets == map[]
       case ReflectRemove => m.compactor.Finished? && m.lock.Reflecting? && m.lock.removed < |m.compactor.run|
       case ReflectRename =>
         && m.compactor.Finished? && m.lock.Reflecting? && m.lock.removed == |m.compactor.run| != 0
         && d.folder.Some? && IndexOf(d.tables, m.compactor.run[0]) < 0
       case ReflectFinish =>
         && m.compactor.Finished? && m.lock.Reflected? && m.compactor.run != []
         && IndexOf(d.tables, m.compactor.run[0]) >= 0
       case Crash => true
       case TornAppend(op, n) =>
         && m.lock.Free? && m.gets == map[] && ValidOp(op) && d.wals != []
         && PartOfRecord(d.format, op, n)
       case TornCreate(n) => m.lock.Free? && m.gets == map[] && d.wals != [] && n < RecordFormat.FILE_HEADER_SIZE
       case _ => false)
    case Recovering(stage, d) =>
      (match step
       case Crash => true
       case RepairDelete => stage.Repair? && d.folder.Some? && !d.folder.value.committed
       case RepairFirst => stage.Repair? && d.folder.Some? && d.folder.value.committed && d.folder.value.run != []
       case RepairMove =>
         && stage.RepairRename? && d.folder.Some? && stage.folder.run != []
         && IndexOf(d.tables, stage.folder.run[0]) < 0
       case RepairRemove => stage.RepairRest? && stage.next < |stage.folder.run|
       case RepairDone => (stage.Repair? && d.folder.None?) || (stage.RepairRest? && stage.next >= |stage.folder.run|)
       case OpenTables => stage.Reconstruct?
       case ReplayAll => stage.ReplayWal? && !Torn(d)
       case RemoveWals => stage.CleanWal?
       case Start => stage.Fresh?
       case TornCreate(n) => stage.Fresh? && n < RecordFormat.FILE_HEADER_SIZE
       case _ => false)
  }

  /** A proper front part of the record of an operation. */
  predicate PartOfRecord(format: LogFormat, op: Op, n: nat)
  {
    n < |RecordFormat.Encode(format.codec, LogRecord(format, op))|
  }

  /** The tombstone guard of a run of the reader list, found by the position of its first member. */
  ghost predicate RunGuard(readers: seq<Reader>, run: seq<nat>)
  {
    && run != []
    && var lo := IndexOf(readers, run[0]);
    && 0 <= lo && lo + |run| <= |readers|
    && TombstoneGuard(Stack(readers[..lo]), Stack(readers[lo..lo + |run|]), Stack(readers[lo + |run|..]))
  }

  /** The newest generation among the listed tables. */
  function MaxGen(rs: seq<Reader>): nat
  {
    if rs == [] then 0 else
      var g := MaxGen(rs[..|rs| - 1]);
      if rs[|rs| - 1].gen > g then rs[|rs| - 1].gen else g
  }

  function RunInputs(tables: seq<Reader>, run: seq<nat>): seq<Reader>
  {
    if run == [] then [] else
      var i := IndexOf(tables, run[0]);
      (if i < 0 then [] else [tables[i]]) + RunInputs(tables, run[1..])
  }

  function LogTo(wals: seq<WalFile>, op: Op): seq<WalFile>
    requires wals != []
  {
    var n := |wals| - 1;
    wals[n := WalFile(wals[n].number, wals[n].ops + [op])]
  }

  ghost function Next(s: State, step: Step): State
    requires Enabled(s, step)
  {
    var d := s.disk;
    match step
    // PutBytes and DeleteBytes under the exclusive lock: synchronous log append, then the memstore
    case Append(op) => Running(s.m.(lock := Writing(op)), d.(wals := LogTo(d.wals, op)))
    case Apply => Running(s.m.(write := StoreOp(s.m.write, s.m.lock.op), lock := Free), d)
    // rotateWalAndFlushMemstore: new log file, memstore swap, then blocked on the channel with the lock held
    case Rotate =>
      Running(s.m.(read := s.m.write, write := map[], nextWal := s.m.nextWal + 1,
                   lock := Sending(s.m.write, d.wals[|d.wals| - 1].number)),
              d.(wals := d.wals + [WalFile(s.m.nextWal, [])]))
    case Rendezvous => Running(s.m.(flusher := Received(s.m.lock.store, s.m.lock.wal), lock := Free), d)
    // executeFlush
    case FlushSkip => Running(s.m.(flusher := Idle), d)
    case FlushWrite =>
      Running(s.m.(gen := s.m.gen + 1, flusher := Written(s.m.flusher.store, s.m.flusher.wal, s.m.gen + 1)),
              d.(tables := Insert(d.tables, Reader(s.m.gen + 1, s.m.flusher.store))))
    case FlushRemoveWal =>
      Running(s.m.(flusher := WalRemoved(s.m.flusher.store, s.m.flusher.gen)),
              d.(wals := RemoveWal(d.wals, s.m.flusher.wal)))
    case Publish =>
      Running(s.m.(readers := s.m.readers + [Reader(s.m.flusher.gen, s.m.flusher.store)], flusher := Idle), d)
    // GetBytes under the shared lock
    case GetBegin(id, k) => Running(s.m.(gets := s.m.gets[id := PendingGet(k, TableGet(Stack(s.m.readers), k))]), d)
    case GetEnd(id) => Running(s.m.(gets := s.m.gets - {id}), d)
    // executeCompaction
    case Select(sel) => Running(s.m.(compactor := Selected(Gens(Chosen(s.m.readers, Filled(sel))))), d)
    case StartMerge =>
      Running(s.m.(compactor := Merging(s.m.compactor.run)),
              d.(folder := Some(Folder(s.m.compactor.run, [], map[], false))))
    case Commit =>
      var inputs := RunInputs(d.tables, s.m.compactor.run);
      Running(s.m.(compactor := Finished(s.m.compactor.run)),
              d.(folder := Some(Folder(s.m.compactor.run, inputs, Compacted(Contents(inputs)), true))))
    // reflectCompactionResult under both locks
    case ReflectBegin => Running(s.m.(lock := Reflecting(0)), d)
    case ReflectRemove =>
      Running(s.m.(lock := Reflecting(s.m.lock.removed + 1)),
              if IndexOf(s.m.readers, s.m.compactor.run[s.m.lock.removed]) < 0 then d
              else d.(tables := Remove(d.tables, s.m.compactor.run[s.m.lock.removed])))
    case ReflectRename =>
      Running(s.m.(lock := Reflected),
              d.(tables := Insert(d.tables, Reader(s.m.compactor.run[0], d.folder.value.merged)), folder := None))
    case ReflectFinish =>
      var merged := d.tables[IndexOf(d.tables, s.m.compactor.run[0])].table;
      Running(s.m.(readers := ReplaceRun(s.m.readers, s.m.compactor.run, merged), lock := Free,
                   compactor := NoCompaction), d)
    // memory is lost, the disk stays; Open starts over
    case Crash => Recovering(Repair, d)
    // the process dies inside a log append, with a part of the record in the file
    case TornAppend(op, n) => Recovering(Repair, d.(tail := CutRecord(op, n)))
    // or between the creation of a log file and the write of its header
    case TornCreate(n) => Recovering(Repair, d.(tail := CutHeader(if s.Running? then s.m.nextWal else 0, n)))
    // repairCompactions
    case RepairDelete => Recovering(Repair, d.(folder := None))
    case RepairFirst => Recovering(RepairRename(d.folder.value), d.(tables := Remove(d.tables, d.folder.value.run[0])))
    case RepairMove =>
      Recovering(RepairRest(s.stage.folder, 1),
                 d.(tables := Insert(d.tables, Reader(s.stage.folder.run[0], s.stage.folder.merged)), folder := None))
    case RepairRemove =>
      Recovering(RepairRest(s.stage.folder, s.stage.next + 1),
                 d.(tables := Remove(d.tables, s.stage.folder.run[s.stage.next])))
    case RepairDone => Recovering(Reconstruct, d)
    // reconstructSSTables
    case OpenTables => Recovering(ReplayWal(d.tables, MaxGen(d.tables)), d)
    // replayAndSetupWriteAheadLog
    case ReplayAll =>
      var readers, gen := s.stage.readers, s.stage.gen;
      if AllOps(d.wals) == [] then Recovering(CleanWal(readers, gen, map[]), d)
      else
        var store := Replay(AllOps(d.wals));
        Recovering(CleanWal(readers + [Reader(gen + 1, store)], gen + 1, store),
                   d.(tables := Insert(d.tables, Reader(gen + 1, store))))
    case RemoveWals => Recovering(Fresh(s.stage.readers, s.stage.gen, s.stage.read), d.(wals := [], tail := NoTail))
    case Start =>
      Running(Memory(map[], s.stage.read, s.stage.readers, s.stage.gen, 1, Idle, Free, NoCompaction, map[]),
              d.(wals := [WalFile(0, [])]))
  }

  /** What the client of a finishing GetBytes receives. */
  ghost function GetAnswer(s: State, id: nat): GetResult
    requires s.Running? && id in s.m.gets
  {
    Decide(s.m.gets[id].table, RWGet(s.m.read, s.m.write, s.m.gets[id].key))
  }

  /** What a step means for the specification: only the log append of an operation changes the map. */
  function SpecStep(m: map<bytes, bytes>, step: Step): map<bytes, bytes>
  {
    if step.Append? then SpecOp(m, step.op) else m
  }

  // ---------- runs ----------

  ghost predicate Runs(s: State, steps: seq<Step>)
    decreases |steps|
  {
    steps == [] || (Enabled(s, steps[0]) && Runs(Next(s, steps[0]), steps[1..]))
  }

  ghost function Exec(s: State, steps: seq<Step>): State
    requires Runs(s, steps)
    decreases |steps|
  {
    if steps == [] then s else Exec(Next(s, steps[0]), steps[1..])
  }

  /** The map after all logged operations of a run. */
  function SpecRun(m: map<bytes, bytes>, steps: seq<Step>): map<bytes, bytes>
    decreases |steps|
  {
    if steps == [] then m else SpecRun(SpecStep(m, steps[0]), steps[1..])
  }
}
