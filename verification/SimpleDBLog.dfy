/** The log of the step system as the bytes of the log directory. */
module SimpleDBLog {
  import opened Bytes
  import opened SimpleDB
  import opened SimpleDBInvariant
  import opened SimpleDBTheorems
  import opened SimpleDBNames
  import RecordFormat
  import Wal

  /** The records of a log file. */
  function Records(format: LogFormat, ops: seq<Op>): (r: seq<Value>)
    ensures |r| == |ops|
  {
    seq(|ops|, i requires 0 <= i < |ops| => LogRecord(format, ops[i]))
  }

  function LogRecords(format: LogFormat, wals: seq<WalFile>): (r: seq<seq<Value>>)
    ensures |r| == |wals|
  {
    seq(|wals|, i requires 0 <= i < |wals| => Records(format, wals[i].ops))
  }

  lemma {:induction false} FlattenIsAllOps(format: LogFormat, wals: seq<WalFile>)
    ensures Wal.Flatten(LogRecords(format, wals)) == Records(format, AllOps(wals))
  {
    if wals != [] {
      var n := |wals| - 1;
      FlattenIsAllOps(format, wals[..n]);
      assert LogRecords(format, wals)[..n] == LogRecords(format, wals[..n]);
    }
  }

  /** The numbers of all log files, with the one that a crash left without its whole header. */
  function DiskNumbers(d: Disk): seq<nat>
  {
    Numbers(d.wals) + if d.tail.CutHeader? then [d.tail.number] else []
  }

  /** The files of the directory hold the log of the disk, with what a crash left behind it. */
  ghost predicate Holds(files: map<bytes, bytes>, basePath: bytes, compressionType: nat, d: Disk)
  {
    var numbers, log, codec := Numbers(d.wals), LogRecords(d.format, d.wals), d.format.codec;
    match d.tail
    case NoTail => Wal.NumberedLog(files, basePath, numbers, compressionType, codec, log)
    case CutRecord(op, n) =>
      Wal.TornLog(files, basePath, numbers, compressionType, codec, log, LogRecord(d.format, op), n)
    case CutHeader(number, n) =>
      && Wal.NumberedLog(files, basePath, numbers, compressionType, codec, log)
      && Wal.WalPath(basePath, number) in files && compressionType < 0x1_0000_0000
      && n < RecordFormat.FILE_HEADER_SIZE
      && files[Wal.WalPath(basePath, number)] == RecordFormat.FileHeader(compressionType)[..n]
  }

  /**
   A listing of the directory, in any order and among any other files; the numbers of the log files fit the padding.
   */
  ghost predicate Listed(files: map<bytes, bytes>, paths: seq<bytes>, basePath: bytes, compressionType: nat, d: Disk)
  {
    && Holds(files, basePath, compressionType, d) && (forall p :: p in paths ==> p in files)
    && (forall i :: 0 <= i < |DiskNumbers(d)| ==> DiskNumbers(d)[i] < Wal.FILE_LIMIT)
    && multiset(Wal.WalFiles(paths)) == multiset(Wal.PathsOf(basePath, DiskNumbers(d)))
  }

  /**
   The log of the step system is the log on disk: in every state of every run, with crashes at any byte of an append or
   of a file header and with any log files removed by flushes, replaying the directory yields exactly the logged
   operations, and it fails if and only if the log is torn.
   */
  lemma {:induction false} ReplayIsTheLog(format: LogFormat, steps: seq<Step>, codecs: nat -> RecordFormat.Codec,
                                          files: map<bytes, bytes>, paths: seq<bytes>, basePath: bytes,
                                          compressionType: nat)
    requires Runs(Init(format), steps)
    requires codecs(compressionType) == format.codec && RecordFormat.Lossless(format.codec)
    requires Listed(files, paths, basePath, compressionType, Exec(Init(format), steps).disk)
    ensures var d := Exec(Init(format), steps).disk;
            Wal.ReplayFiles(codecs, Wal.SortedContents(files, paths)) == (Records(format, AllOps(d.wals)), Torn(d))
    ensures var vs, ops := Wal.ReplayFiles(codecs, Wal.SortedContents(files, paths)).0,
                           AllOps(Exec(Init(format), steps).disk.wals);
            |vs| == |ops| && forall i :: 0 <= i < |ops| ==> vs[i] == Some(format.marshal(ops[i]))
  {
    hide Next, Enabled, Runs, Wal.ReplayFiles, Wal.SortedContents, AllOps, RecordFormat.EndPoint, Wal.TornLog,
         Wal.NumberedLog, Wal.WalFiles, Wal.PathsOf, RecordFormat.Lossless, RecordFormat.FileHeader;
    LogStaysOrdered(format, steps);
    var d := Exec(Init(format), steps).disk;
    var log := LogRecords(format, d.wals);
    FlattenIsAllOps(format, d.wals);
    NumbersAscend(Exec(Init(format), steps), format);
    match d.tail
    case NoTail =>
      assert DiskNumbers(d) == Numbers(d.wals);
      Wal.ReplayYieldsTheLog(codecs, files, paths, basePath, Numbers(d.wals), compressionType, log);
    case CutRecord(op, n) =>
      assert DiskNumbers(d) == Numbers(d.wals);
      Wal.TornLogReplays(codecs, files, paths, basePath, Numbers(d.wals), compressionType, log, LogRecord(format, op),
                         n);
    case CutHeader(number, n) =>
      Wal.HeadlessLogFails(codecs, files, paths, basePath, Numbers(d.wals), number, compressionType, log, n);
  }

  lemma {:induction false} NumbersAscend(s: State, format: LogFormat)
    requires LogOrdered(s, format)
    ensures var numbers := DiskNumbers(s.disk); forall i, j :: 0 <= i < j < |numbers| ==> numbers[i] < numbers[j]
  {
    hide PartOfRecord;
  }

  /** So Open can finish if and only if the replay of the directory succeeds, in every state of every run. */
  lemma {:induction false} OpensIffReplaySucceeds(format: LogFormat, steps: seq<Step>,
                                                  codecs: nat -> RecordFormat.Codec, files: map<bytes, bytes>,
                                                  paths: seq<bytes>, basePath: bytes, compressionType: nat)
    requires Runs(Init(format), steps)
    requires codecs(compressionType) == format.codec && RecordFormat.Lossless(format.codec)
    requires Listed(files, paths, basePath, compressionType, Exec(Init(format), steps).disk)
    ensures (exists more :: Opens(Exec(Init(format), steps), more))
        <==> !Wal.ReplayFiles(codecs, Wal.SortedContents(files, paths)).1
  {
    hide Runs, Exec, Opens, Torn, Wal.ReplayFiles, Wal.SortedContents, Records, RecordFormat.Lossless;
    OpensIffNotTorn(format, steps);
    ReplayIsTheLog(format, steps, codecs, files, paths, basePath, compressionType);
  }

  // ---------- after a crash inside an append ----------

  lemma {:induction false} LastStep(format: LogFormat, pre: seq<Step>, step: Step)
    requires Runs(Init(format), pre + [step])
    ensures Runs(Init(format), pre) && Enabled(Exec(Init(format), pre), step)
    ensures Exec(Init(format), pre + [step]) == Next(Exec(Init(format), pre), step)
  {
    hide Next, Enabled;
    RunsConcat(Init(format), pre, [step]);
    assert [step][1..] == [];
  }

  /**
   A crash after n bytes of the record of an operation, in any run: the log files are those of before, with these bytes
   behind them, and Open can finish if and only if the n-th byte is an end point of the record.
   */
  lemma {:induction false} TornAppendOpensIff(format: LogFormat, pre: seq<Step>, op: Op, n: nat)
    requires Runs(Init(format), pre + [TornAppend(op, n)])
    ensures Runs(Init(format), pre) && n < |RecordFormat.Encode(format.codec, Some(format.marshal(op)))|
    ensures var s, t := Exec(Init(format), pre), Exec(Init(format), pre + [TornAppend(op, n)]);
            && t.disk.wals == s.disk.wals && t.disk.tables == s.disk.tables && t.disk.folder == s.disk.folder
            && t.disk.tail == CutRecord(op, n) && t.disk.format == format
            && ((exists more :: Opens(t, more)) <==> RecordFormat.EndPoint(format.codec, Some(format.marshal(op)), n))
  {
    hide Next, Runs, Exec, Opens, Inv, RecordFormat.EndPoint, RecordFormat.Encode;
    var step := TornAppend(op, n);
    LastStep(format, pre, step);
    Reachable(format, pre);
    TornStep(Exec(Init(format), pre), step, SpecRun(map[], pre));
    LogStaysOrdered(format, pre);
    OpensIffNotTorn(format, pre + [step]);
  }

  /** A crash inside the header of a new log file: Open can never finish again. */
  lemma {:induction false} TornCreateNeverOpens(format: LogFormat, pre: seq<Step>, n: nat)
    requires Runs(Init(format), pre + [TornCreate(n)])
    ensures Runs(Init(format), pre) && n < RecordFormat.FILE_HEADER_SIZE
    ensures var s, t := Exec(Init(format), pre), Exec(Init(format), pre + [TornCreate(n)]);
            && t.disk.wals == s.disk.wals && t.disk.tables == s.disk.tables && t.disk.folder == s.disk.folder
            && t.disk.tail.CutHeader? && t.disk.tail.n == n && !exists more :: Opens(t, more)
  {
    hide Next, Runs, Exec, Opens, Inv;
    var step := TornCreate(n);
    LastStep(format, pre, step);
    Reachable(format, pre);
    TornStep(Exec(Init(format), pre), step, SpecRun(map[], pre));
    OpensIffNotTorn(format, pre + [step]);
  }
}
