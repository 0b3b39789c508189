/**
 The write-ahead log: numbered record files, appended to one after the other and replayed in the order of their names.
 */
module Wal {
  import opened Bytes
  import opened Varint
  import opened RecordFormat
  import opened Names
  import opened BufferedWriter
  import opened FileWriter
  import BufferedReader
  import FileReader

  const FILE_LIMIT: nat := 1000000
  const DIGITS := 6
  const SUFFIX: bytes := [46, 119, 97, 108]  // ".wal"

  function WalPath(basePath: bytes, number: nat): bytes
  {
    basePath + (Padded(DIGITS, number) + SUFFIX)
  }

  lemma {:induction false} LimitIsWidth()
    ensures Pow10(DIGITS) == FILE_LIMIT
  {
    assert Pow10(2) == 10 * Pow10(1) == 100;
    assert Pow10(4) == 10 * Pow10(3) == 100 * Pow10(2);
    assert Pow10(6) == 10 * Pow10(5) == 100 * Pow10(4);
  }

  function Flatten(log: seq<seq<Value>>): seq<Value>
  {
    if log == [] then [] else Flatten(log[..|log| - 1]) + log[|log| - 1]
  }

  // ---------- replaying ----------

  predicate HasSuffix(path: bytes)
  {
    |path| >= |SUFFIX| && path[|path| - |SUFFIX|..] == SUFFIX
  }

  /** The log files among the files of a directory walk, in the order of the walk. */
  function WalFiles(paths: seq<bytes>): seq<bytes>
  {
    if paths == [] then [] else
      var last := paths[|paths| - 1];
      WalFiles(paths[..|paths| - 1]) + if HasSuffix(last) then [last] else []
  }

  lemma {:induction false} WalFilesAre(paths: seq<bytes>, p: bytes)
    ensures p in WalFiles(paths) <==> p in paths && HasSuffix(p)
  {
    hide HasSuffix;
    if paths != [] {
      var n := |paths| - 1;
      WalFilesAre(paths[..n], p);
      assert paths == paths[..n] + [paths[n]];
    }
  }

  /** Which files of a listing are log files: those whose names end in ".wal", each as often as it is listed. */
  lemma {:induction false} LogFilesAre(paths: seq<bytes>, p: bytes)
    ensures multiset(WalFiles(paths))[p]
         == if |p| >= 4 && p[|p| - 4..] == [46, 119, 97, 108] then multiset(paths)[p] else 0
  {
    assert HasSuffix(p) <==> |p| >= 4 && p[|p| - 4..] == [46, 119, 97, 108];
    hide HasSuffix;
    if paths != [] {
      var n := |paths| - 1;
      LogFilesAre(paths[..n], p);
      assert paths == paths[..n] + [paths[n]];
      assert multiset(paths) == multiset(paths[..n]) + multiset{paths[n]};
      assert multiset(WalFiles(paths))
          == multiset(WalFiles(paths[..n])) + if HasSuffix(paths[n]) then multiset{paths[n]} else multiset{};
    }
  }

  /** The name of a log file: six digits and ".wal". */
  lemma {:induction false} LogFileName(basePath: bytes)
    ensures WalPath(basePath, 0) == basePath + [48, 48, 48, 48, 48, 48, 46, 119, 97, 108]
    ensures WalPath(basePath, 42) == basePath + [48, 48, 48, 48, 52, 50, 46, 119, 97, 108]
  {
  }

  /** The records of several files, up to the first error. */
  function ReplayFiles(codecs: nat -> Codec, contents: seq<bytes>): (seq<Value>, bool)
  {
    if contents == [] then ([], false) else
      var (vs, failed) := ReplayFiles(codecs, contents[..|contents| - 1]);
      if failed then (vs, true) else
        var (ws, bad) := ReadFile(codecs, contents[|contents| - 1]);
        (vs + ws, bad)
  }

  function Contents(files: map<bytes, bytes>, paths: seq<bytes>): (r: seq<bytes>)
    requires forall p :: p in paths ==> p in files
    ensures |r| == |paths|
  {
    seq(|paths|, i requires 0 <= i < |paths| => files[paths[i]])
  }

  /** Walks the directory, sorts the log files by name and hands out their records. */
  method Replay(paths: seq<bytes>, files: map<bytes, bytes>, bufferSize: nat, codecs: nat -> Codec)
    returns (out: seq<Value>, failed: bool)
    requires bufferSize > 0 && (forall p :: p in paths ==> p in files && CurrentVersion(files[p]))
    ensures (out, failed) == ReplayFiles(codecs, SortedContents(files, paths))
  {
    hide ReadFile, CurrentVersion;
    var walFiles := SortStrings(WalFiles(paths));
    SortedIn(files, paths);
    ghost var contents := SortedContents(files, paths);
    out := [];
    for i := 0 to |walFiles|
      invariant (out, false) == ReplayFiles(codecs, contents[..i])
    {
      var vs, bad := FileReader.ReadWhole(files[walFiles[i]], bufferSize, codecs);
      assert contents[..i + 1][..i] == contents[..i];
      out := out + vs;
      if bad {
        StopsAt(codecs, contents, i + 1);
        return out, true;
      }
    }
    assert contents[..|walFiles|] == contents;
    return out, false;
  }

  lemma {:induction false} SortedIn(files: map<bytes, bytes>, paths: seq<bytes>)
    requires forall p :: p in paths ==> p in files
    ensures forall p :: p in SortStrings(WalFiles(paths)) ==> p in paths && p in files
  {
    forall p | p in SortStrings(WalFiles(paths)) ensures p in paths && p in files {
      assert p in multiset(SortStrings(WalFiles(paths)));
      assert p in multiset(WalFiles(paths));
      WalFilesAre(paths, p);
    }
  }

  ghost function SortedContents(files: map<bytes, bytes>, paths: seq<bytes>): seq<bytes>
    requires forall p :: p in paths ==> p in files
  {
    SortedIn(files, paths);
    Contents(files, SortStrings(WalFiles(paths)))
  }

  lemma {:induction false} StopsAt(codecs: nat -> Codec, contents: seq<bytes>, n: nat)
    requires n <= |contents| && ReplayFiles(codecs, contents[..n]).1
    ensures ReplayFiles(codecs, contents) == ReplayFiles(codecs, contents[..n])
    decreases |contents|
  {
    hide ReadFile;
    if n == |contents| {
      assert contents[..n] == contents;
    } else {
      var front := contents[..|contents| - 1];
      assert front[..n] == contents[..n];
      StopsAt(codecs, front, n);
    }
  }

  // ---------- a directory that holds a log ----------

  function WalPaths(basePath: bytes, n: nat): (r: seq<bytes>)
    ensures |r| == n
  {
    seq(n, i requires 0 <= i < n => WalPath(basePath, i))
  }

  /** The numbered files hold the records of the log, file by file. */
  ghost predicate LogFiles(files: map<bytes, bytes>, basePath: bytes, compressionType: nat, codec: Codec,
                           log: seq<seq<Value>>)
  {
    && compressionType <= COMPRESSION_TYPE_LZW && |log| <= FILE_LIMIT
    && forall i :: 0 <= i < |log| ==> LogFile(files, WalPath(basePath, i), compressionType, codec, log[i])
  }

  ghost predicate LogFile(files: map<bytes, bytes>, path: bytes, compressionType: nat, codec: Codec, vs: seq<Value>)
  {
    && compressionType < 0x1_0000_0000 && AllSized(codec, vs)
    && path in files && files[path] == FileHeader(compressionType) + EncodeAll(codec, vs)
  }

  lemma {:induction false} PathOrder(basePath: bytes, i: nat, j: nat)
    requires i < FILE_LIMIT && j < FILE_LIMIT
    ensures Less(WalPath(basePath, i), WalPath(basePath, j)) <==> i < j
    ensures WalPath(basePath, i) == WalPath(basePath, j) <==> i == j
  {
    hide Less, Padded;
    LimitIsWidth();
    NameOrder(basePath, DIGITS, i, j, SUFFIX);
    NameOrder(basePath, DIGITS, j, i, SUFFIX);
    LessTrichotomy(WalPath(basePath, i), WalPath(basePath, j));
  }

  /** The numbers of the log files that a directory holds; those of flushed stores have been removed. */
  ghost predicate FileNumbers(numbers: seq<nat>)
  {
    && (forall i, j :: 0 <= i < j < |numbers| ==> numbers[i] < numbers[j])
    && (forall i :: 0 <= i < |numbers| ==> numbers[i] < FILE_LIMIT)
  }

  function PathsOf(basePath: bytes, numbers: seq<nat>): (r: seq<bytes>)
    ensures |r| == |numbers|
  {
    seq(|numbers|, i requires 0 <= i < |numbers| => WalPath(basePath, numbers[i]))
  }

  /** The files with the given numbers hold the records of the log, file by file. */
  ghost predicate NumberedLog(files: map<bytes, bytes>, basePath: bytes, numbers: seq<nat>, compressionType: nat,
                              codec: Codec, log: seq<seq<Value>>)
  {
    && compressionType <= COMPRESSION_TYPE_LZW && |numbers| == |log|
    && forall i :: 0 <= i < |log| ==> LogFile(files, WalPath(basePath, numbers[i]), compressionType, codec, log[i])
  }

  /** Sorting the names of the log files gives them in the order of their creation. */
  lemma {:induction false} SortedByCreation(basePath: bytes, numbers: seq<nat>, names: seq<bytes>)
    requires FileNumbers(numbers) && multiset(names) == multiset(PathsOf(basePath, numbers))
    ensures SortStrings(names) == PathsOf(basePath, numbers)
  {
    hide Less, WalPath, SortStrings;
    var paths := PathsOf(basePath, numbers);
    forall i, j | 0 <= i < j < |paths| ensures Less(paths[i], paths[j]) {
      PathOrder(basePath, numbers[i], numbers[j]);
    }
    SortingIsUnique(paths, SortStrings(names));
  }

  lemma {:induction false} FileReplays(codecs: nat -> Codec, files: map<bytes, bytes>, path: bytes,
                                       compressionType: nat, vs: seq<Value>)
    requires compressionType <= COMPRESSION_TYPE_LZW && Lossless(codecs(compressionType))
    requires LogFile(files, path, compressionType, codecs(compressionType), vs)
    ensures ReadFile(codecs, files[path]) == (vs, false) && CurrentVersion(files[path])
  {
    hide EncodeAll, ReadAll, FileHeader, Lossless, AllSized, ReadFileHeader;
    var content, header := files[path], FileHeader(compressionType);
    assert content[..FILE_HEADER_SIZE] == header;
    FileHeaderRoundTrip(compressionType);
    assert content[FILE_HEADER_SIZE..] == EncodeAll(codecs(compressionType), vs) + [];
    ReadAllRoundTrip(codecs(compressionType), vs, []);
  }

  lemma {:induction false} FilesReplay(codecs: nat -> Codec, files: map<bytes, bytes>, basePath: bytes,
                                       numbers: seq<nat>, compressionType: nat, log: seq<seq<Value>>,
                                       contents: seq<bytes>, n: nat)
    requires NumberedLog(files, basePath, numbers, compressionType, codecs(compressionType), log)
    requires Lossless(codecs(compressionType))
    requires |contents| == |log| && n <= |log|
    requires forall i :: 0 <= i < |log| ==>
               WalPath(basePath, numbers[i]) in files && contents[i] == files[WalPath(basePath, numbers[i])]
    ensures ReplayFiles(codecs, contents[..n]) == (Flatten(log[..n]), false)
    decreases n
  {
    hide LogFile, WalPath, ReadFile, Lossless;
    if n > 0 {
      FilesReplay(codecs, files, basePath, numbers, compressionType, log, contents, n - 1);
      FileReplays(codecs, files, WalPath(basePath, numbers[n - 1]), compressionType, log[n - 1]);
      assert contents[..n][..n - 1] == contents[..n - 1] && log[..n][..n - 1] == log[..n - 1];
    }
  }

  /**
   Replaying a directory that lists the log files, in any order and among any other files, yields exactly the
   records of the log, file after file, whichever files have been removed before.
   */
  lemma {:induction false} ReplayYieldsTheLog(codecs: nat -> Codec, files: map<bytes, bytes>, paths: seq<bytes>,
                                              basePath: bytes, numbers: seq<nat>, compressionType: nat,
                                              log: seq<seq<Value>>)
    requires NumberedLog(files, basePath, numbers, compressionType, codecs(compressionType), log)
    requires Lossless(codecs(compressionType))
    requires FileNumbers(numbers) && (forall p :: p in paths ==> p in files)
    requires multiset(WalFiles(paths)) == multiset(PathsOf(basePath, numbers))
    ensures ReplayFiles(codecs, SortedContents(files, paths)) == (Flatten(log), false)
  {
    hide WalPath, ReplayFiles, Lossless, SortStrings, WalFiles, FileNumbers;
    var contents := SortedContents(files, paths);
    SortedByCreation(basePath, numbers, WalFiles(paths));
    forall i | 0 <= i < |log|
      ensures WalPath(basePath, numbers[i]) in files && contents[i] == files[WalPath(basePath, numbers[i])] {
      assert LogFile(files, WalPath(basePath, numbers[i]), compressionType, codecs(compressionType), log[i]);
    }
    FilesReplay(codecs, files, basePath, numbers, compressionType, log, contents, |log|);
    assert contents[..|log|] == contents && log[..|log|] == log;
  }

  // ---------- a log whose last append was cut off ----------

  lemma {:induction false} TornFileReplays(codecs: nat -> Codec, compressionType: nat, vs: seq<Value>, v: Value, n: nat,
                                           content: bytes)
    requires compressionType <= COMPRESSION_TYPE_LZW && Lossless(codecs(compressionType))
    requires AllSized(codecs(compressionType), vs) && Sized(codecs(compressionType), v)
    requires n < |Encode(codecs(compressionType), v)|
    requires content == FileHeader(compressionType) + EncodeAll(codecs(compressionType), vs)
                        + Encode(codecs(compressionType), v)[..n]
    ensures ReadFile(codecs, content) == (vs, !EndPoint(codecs(compressionType), v, n))
  {
    hide EncodeAll, ReadAll, FileHeader, Lossless, AllSized, ReadFileHeader, Encode, EndPoint, Sized;
    var c, header := codecs(compressionType), FileHeader(compressionType);
    assert content[..FILE_HEADER_SIZE] == header;
    FileHeaderRoundTrip(compressionType);
    assert content[FILE_HEADER_SIZE..] == EncodeAll(c, vs) + Encode(c, v)[..n];
    TornFileReadsBack(c, vs, v, n);
  }

  /** A log file without its whole header fails the replay: a crash between creating it and writing the header. */
  lemma {:induction false} HeadlessFileFails(codecs: nat -> Codec, compressionType: nat, n: nat)
    requires compressionType < 0x1_0000_0000 && n < FILE_HEADER_SIZE
    ensures ReadFile(codecs, FileHeader(compressionType)[..n]) == ([], true)
  {
  }

  /** The files with the given numbers hold the log, and the last one a part of another record behind it. */
  ghost predicate TornLog(files: map<bytes, bytes>, basePath: bytes, numbers: seq<nat>, compressionType: nat,
                          codec: Codec, log: seq<seq<Value>>, v: Value, n: nat)
  {
    && log != [] && |numbers| == |log| && compressionType <= COMPRESSION_TYPE_LZW
    && Sized(codec, v) && n < |Encode(codec, v)|
    && var k := |log| - 1;
    && NumberedLog(files, basePath, numbers[..k], compressionType, codec, log[..k]) && AllSized(codec, log[k])
    && WalPath(basePath, numbers[k]) in files
    && files[WalPath(basePath, numbers[k])]
        == FileHeader(compressionType) + EncodeAll(codec, log[k]) + Encode(codec, v)[..n]
  }

  /**
   A crash inside the last append: the replay yields exactly the records that were appended completely, and it
   succeeds if and only if the record was cut off at an end point.
   */
  lemma {:induction false} TornLogReplays(codecs: nat -> Codec, files: map<bytes, bytes>, paths: seq<bytes>,
                                          basePath: bytes, numbers: seq<nat>, compressionType: nat,
                                          log: seq<seq<Value>>, v: Value, n: nat)
    requires TornLog(files, basePath, numbers, compressionType, codecs(compressionType), log, v, n)
    requires Lossless(codecs(compressionType))
    requires FileNumbers(numbers) && (forall p :: p in paths ==> p in files)
    requires multiset(WalFiles(paths)) == multiset(PathsOf(basePath, numbers))
    ensures ReplayFiles(codecs, SortedContents(files, paths))
        == (Flatten(log), !EndPoint(codecs(compressionType), v, n))
  {
    hide WalPath, Lossless, SortStrings, WalFiles, ReadFile, Encode, EncodeAll, FileHeader, AllSized, EndPoint, Sized,
         LogFile, FileNumbers;
    var k := |log| - 1;
    var contents := SortedContents(files, paths);
    SortedByCreation(basePath, numbers, WalFiles(paths));
    var front := contents[..k];
    forall i | 0 <= i < k
      ensures WalPath(basePath, numbers[..k][i]) in files && front[i] == files[WalPath(basePath, numbers[..k][i])] {
      LogFileExists(files, basePath, numbers[..k], compressionType, codecs(compressionType), log[..k], i);
    }
    FilesReplay(codecs, files, basePath, numbers[..k], compressionType, log[..k], front, k);
    assert front[..k] == front && log[..k][..k] == log[..k];
    TornFileReplays(codecs, compressionType, log[k], v, n, contents[k]);
    assert contents[..|contents| - 1] == front;
  }

  /**
   A crash between creating a log file and writing its header: the other files are replayed, and then the replay fails.
   */
  lemma {:induction false} HeadlessLogFails(codecs: nat -> Codec, files: map<bytes, bytes>, paths: seq<bytes>,
                                            basePath: bytes, numbers: seq<nat>, number: nat, compressionType: nat,
                                            log: seq<seq<Value>>, n: nat)
    requires NumberedLog(files, basePath, numbers, compressionType, codecs(compressionType), log)
    requires Lossless(codecs(compressionType))
    requires WalPath(basePath, number) in files && n < FILE_HEADER_SIZE && compressionType < 0x1_0000_0000
    requires files[WalPath(basePath, number)] == FileHeader(compressionType)[..n]
    requires FileNumbers(numbers + [number]) && (forall p :: p in paths ==> p in files)
    requires multiset(WalFiles(paths)) == multiset(PathsOf(basePath, numbers + [number]))
    ensures ReplayFiles(codecs, SortedContents(files, paths)) == (Flatten(log), true)
  {
    hide WalPath, Lossless, SortStrings, WalFiles, ReadFile, FileHeader, LogFile, FileNumbers;
    var k := |log|;
    var contents := SortedContents(files, paths);
    SortedByCreation(basePath, numbers + [number], WalFiles(paths));
    var front := contents[..k];
    forall i | 0 <= i < k
      ensures WalPath(basePath, numbers[i]) in files && front[i] == files[WalPath(basePath, numbers[i])] {
      LogFileExists(files, basePath, numbers, compressionType, codecs(compressionType), log, i);
    }
    FilesReplay(codecs, files, basePath, numbers, compressionType, log, front, k);
    assert front[..k] == front && log[..k] == log;
    HeadlessFileFails(codecs, compressionType, n);
    assert contents[..|contents| - 1] == front && Flatten(log) + [] == Flatten(log);
  }

  lemma {:induction false} LogFileExists(files: map<bytes, bytes>, basePath: bytes, numbers: seq<nat>,
                                         compressionType: nat, codec: Codec, log: seq<seq<Value>>, i: nat)
    requires NumberedLog(files, basePath, numbers, compressionType, codec, log) && i < |log|
    ensures WalPath(basePath, numbers[i]) in files
  {
    assert LogFile(files, WalPath(basePath, numbers[i]), compressionType, codec, log[i]);
  }

  /** All numbers below a bound: a log from which no file was removed. */
  function UpTo(n: nat): (r: seq<nat>)
    ensures |r| == n
  {
    seq(n, i requires 0 <= i < n => i)
  }

  lemma {:induction false} CompleteIsNumbered(files: map<bytes, bytes>, basePath: bytes, compressionType: nat,
                                              codec: Codec, log: seq<seq<Value>>)
    requires LogFiles(files, basePath, compressionType, codec, log)
    ensures NumberedLog(files, basePath, UpTo(|log|), compressionType, codec, log) && FileNumbers(UpTo(|log|))
    ensures PathsOf(basePath, UpTo(|log|)) == WalPaths(basePath, |log|)
  {
    hide LogFile, WalPath;
  }

  /** The directory holds the log files and nothing else. */
  ghost predicate OnlyLogFiles(files: map<bytes, bytes>, basePath: bytes, n: nat)
  {
    forall p :: p in files <==> p in WalPaths(basePath, n)
  }

  lemma {:induction false} AllAreWalFiles(paths: seq<bytes>)
    requires forall p :: p in paths ==> HasSuffix(p)
    ensures WalFiles(paths) == paths
  {
    hide HasSuffix;
    if paths != [] {
      var n := |paths| - 1;
      AllAreWalFiles(paths[..n]);
      assert paths == paths[..n] + [paths[n]];
    }
  }

  lemma {:induction false} PathHasSuffix(basePath: bytes, i: nat)
    ensures HasSuffix(WalPath(basePath, i))
  {
    var p := WalPath(basePath, i);
    assert p == (basePath + Padded(DIGITS, i)) + SUFFIX;
  }

  lemma {:induction false} EachPathOnce(basePath: bytes, n: nat)
    requires n <= FILE_LIMIT
    ensures multiset(WalPaths(basePath, n)) == multiset(set p | p in WalPaths(basePath, n))
  {
    hide WalPath, Less;
    if n > 0 {
      EachPathOnce(basePath, n - 1);
      var front, all, last := WalPaths(basePath, n - 1), WalPaths(basePath, n), WalPath(basePath, n - 1);
      assert all == front + [last];
      forall i | 0 <= i < n - 1 ensures front[i] != last {
        PathOrder(basePath, i, n - 1);
      }
      OneMoreOnce(front, last);
    }
  }

  lemma {:induction false} OneMoreOnce(front: seq<bytes>, last: bytes)
    requires multiset(front) == multiset(set p | p in front) && last !in front
    ensures multiset(front + [last]) == multiset(set p | p in front + [last])
  {
    assert (set p | p in front + [last]) == (set p | p in front) + {last};
    assert multiset(front + [last]) == multiset(front) + multiset{last};
  }

  /** Any listing of such a directory lists each log file once. */
  lemma {:induction false} ListingOfLog(files: map<bytes, bytes>, paths: seq<bytes>, basePath: bytes, n: nat)
    requires n <= FILE_LIMIT && OnlyLogFiles(files, basePath, n) && multiset(paths) == multiset(files.Keys)
    ensures multiset(WalFiles(paths)) == multiset(WalPaths(basePath, n)) && forall p :: p in paths ==> p in files
  {
    hide WalPath, HasSuffix;
    forall p | p in paths ensures p in files && HasSuffix(p) {
      assert p in multiset(paths);
      var i :| 0 <= i < n && WalPaths(basePath, n)[i] == p;
      PathHasSuffix(basePath, i);
    }
    AllAreWalFiles(paths);
    EachPathOnce(basePath, n);
    assert files.Keys == set p | p in WalPaths(basePath, n);
  }

  // ---------- appending ----------

  /** The log with one more record in its last file. */
  ghost function LogAppend(log: seq<seq<Value>>, v: Value): (r: seq<seq<Value>>)
    requires log != []
    ensures |r| == |log| && r[..|log| - 1] == log[..|log| - 1] && r[|log| - 1] == log[|log| - 1] + [v]
  {
    log[..|log| - 1] + [log[|log| - 1] + [v]]
  }

  lemma {:induction false} Appended(codec: Codec, log: seq<seq<Value>>, v: Value)
    requires log != []
    ensures Flatten(LogAppend(log, v)) == Flatten(log) + [v]
    ensures AllSized(codec, log[|log| - 1]) && Sized(codec, v) ==> AllSized(codec, LogAppend(log, v)[|log| - 1])
  {
  }

  lemma {:induction false} FlattenRotate(log: seq<seq<Value>>)
    ensures Flatten(log + [[]]) == Flatten(log)
  {
    assert (log + [[]])[..|log|] == log;
  }

  lemma {:induction false} LogFilesGrow(files: map<bytes, bytes>, basePath: bytes, compressionType: nat, codec: Codec,
                                        log: seq<seq<Value>>, content: bytes)
    requires log != [] && |log| <= FILE_LIMIT && LogFiles(files, basePath, compressionType, codec, log[..|log| - 1])
    requires AllSized(codec, log[|log| - 1])
    requires compressionType < 0x1_0000_0000
    requires content == FileHeader(compressionType) + EncodeAll(codec, log[|log| - 1])
    ensures LogFiles(files[WalPath(basePath, |log| - 1) := content], basePath, compressionType, codec, log)
    ensures OnlyLogFiles(files, basePath, |log| - 1) ==>
              OnlyLogFiles(files[WalPath(basePath, |log| - 1) := content], basePath, |log|)
  {
    hide WalPath, FileHeader, EncodeAll, AllSized;
    var n := |log| - 1;
    var grown := files[WalPath(basePath, n) := content];
    forall i | 0 <= i < |log| ensures LogFile(grown, WalPath(basePath, i), compressionType, codec, log[i]) {
      PathOrder(basePath, i, n);
      if i < n {
        assert LogFile(files, WalPath(basePath, i), compressionType, codec, log[..n][i]);
      }
    }
    assert WalPaths(basePath, n + 1) == WalPaths(basePath, n) + [WalPath(basePath, n)];
  }

  class Appender {
    const basePath: bytes
    const maxWalFileSize: nat
    const bufferSize: nat
    const compressionType: nat
    const codec: Codec
    const reliable: bool  // whether the file system never fails
    var nextWriterNumber: nat
    var currentWriter: FileWriter
    var currentWriterPath: bytes
    var files: map<bytes, bytes>    // the files that were closed
    ghost var log: seq<seq<Value>>  // the records appended to each file
    ghost var failed: bool          // whether writing, closing or opening a file ever failed

    ghost function Repr(): set<object>
      reads this
    {
      {this, currentWriter, currentWriter.bufWriter, currentWriter.bufWriter.buf, currentWriter.file,
       currentWriter.recordHeaderCache}
    }

    ghost predicate Valid()
      reads Repr()
    {
      && 1 <= nextWriterNumber <= FILE_LIMIT && |log| == nextWriterNumber
      && currentWriter.codec == codec && currentWriter.compressionType == compressionType <= COMPRESSION_TYPE_LZW
      && currentWriterPath == WalPath(basePath, nextWriterNumber - 1)
      && currentWriter.file.reliable == reliable && (failed ==> !reliable)
      && currentWriter.Steady()
      && (!failed ==> if currentWriter.closed then Complete() else Writing())
    }

    /** All files are closed and hold the log. */
    ghost predicate Complete()
      reads this
    {
      LogFiles(files, basePath, compressionType, codec, log) && OnlyLogFiles(files, basePath, |log|)
    }

    /** All files but the last one are closed, and the last one is being written. */
    ghost predicate Writing()
      reads Repr()
    {
      && log != [] && currentWriter.open && !currentWriter.bufWriter.failed && currentWriter.records == log[|log| - 1]
      && AllSized(codec, log[|log| - 1]) && currentWriter.largestOffset <= currentWriter.currentOffset
      && LogFiles(files, basePath, compressionType, codec, log[..|log| - 1]) && OnlyLogFiles(files, basePath, |log| - 1)
    }

    /** A log whose first file has just been opened. */
    constructor (basePath: bytes, maxWalFileSize: nat, bufferSize: nat, writer: FileWriter)
      requires writer.Valid() && writer.records == [] && writer.compressionType <= COMPRESSION_TYPE_LZW
      requires writer.largestOffset <= writer.currentOffset
      ensures Valid() && !failed && currentWriter == writer && !writer.closed && log == [[]] && files == map[]
      ensures this.basePath == basePath && this.compressionType == writer.compressionType && this.codec == writer.codec
      ensures this.reliable == writer.file.reliable
    {
      hide FileWriter.Valid, FileHeader, EncodeAll;
      this.basePath, this.maxWalFileSize, this.bufferSize := basePath, maxWalFileSize, bufferSize;
      compressionType, codec, reliable := writer.compressionType, writer.codec, writer.file.reliable;
      nextWriterNumber, currentWriter, currentWriterPath := 1, writer, WalPath(basePath, 0);
      files, log, failed := map[], [[]], false;
      new;
      Opened(writer);
      assert log[..0] == [];
    }

    /** Opens the file with the next number, unless a million files have been opened. */
    method SetupNextWriter() returns (err: bool)
      requires Valid() && currentWriter.closed
      modifies this
      ensures Valid() && fresh(Repr() - old(Repr())) && files == old(files) && (old(failed) ==> failed)
      ensures nextWriterNumber == old(nextWriterNumber) + if err then 0 else 1
      ensures log == if err then old(log) else old(log) + [[]]
      ensures err ==> currentWriter == old(currentWriter) && (failed || nextWriterNumber == FILE_LIMIT)
      ensures old(nextWriterNumber) == FILE_LIMIT ==> err && failed == old(failed)
      ensures !err ==> !currentWriter.closed && failed == old(failed)
    {
      hide FileWriter.Valid, FileWriter.Steady, WalPath, LogFiles, AllSized, OnlyLogFiles;
      if nextWriterNumber >= FILE_LIMIT {
        return true;
      }
      var writer := OpenNew(bufferSize, compressionType, codec, reliable);
      if writer == null {
        failed := true;
        return true;
      }
      err := false;
      NothingSized(codec);
      currentWriterPath := WalPath(basePath, nextWriterNumber);
      nextWriterNumber := nextWriterNumber + 1;
      currentWriter := writer;
      assert (log + [[]])[..|log|] == log;
      log := log + [[]];
    }

    /** Closes the current file and opens the next one; no record is added or lost. */
    method Rotate() returns (path: bytes, err: bool)
      requires Valid()
      modifies Repr()
      ensures Valid() && fresh(Repr() - old(Repr())) && (old(failed) ==> failed)
      ensures log == if err then old(log) else old(log) + [[]]
      ensures err ==> failed || old(currentWriter.closed) || nextWriterNumber == FILE_LIMIT
      ensures !err ==> failed == old(failed) && path == old(currentWriterPath) && path in files && !currentWriter.closed
    {
      hide FileWriter.Valid, WalPath, FileHeader, EncodeAll, LogFiles, AllSized, OnlyLogFiles;
      path := currentWriterPath;
      if currentWriter.closed || !currentWriter.open {
        return [], true;
      }
      err := currentWriter.Close();
      if err {
        failed := true;
        return [], true;
      }
      if !failed {
        LogFilesGrow(files, basePath, compressionType, codec, log, currentWriter.file.content);
      }
      files := files[currentWriterPath := currentWriter.file.content];
      err := SetupNextWriter();
    }

    /** Rotates when the next record would make the file too large. */
    method CheckSizeAndRotate(nextRecordSize: nat) returns (err: bool)
      requires Valid()
      modifies Repr()
      ensures Valid() && fresh(Repr() - old(Repr())) && (old(failed) ==> failed)
      ensures Flatten(log) == old(Flatten(log)) && (!err ==> failed == old(failed))
      ensures !err && currentWriter.closed ==> old(currentWriter.closed)
      ensures old(currentWriter.currentOffset) + nextRecordSize <= maxWalFileSize ==>
                !err && log == old(log) && Repr() == old(Repr())
      ensures old(currentWriter.currentOffset) + nextRecordSize > maxWalFileSize && !err ==> log == old(log) + [[]]
      ensures err ==> failed || old(currentWriter.closed) || nextWriterNumber == FILE_LIMIT
    {
      hide FileWriter.Valid, FileWriter.Steady, WalPath, LogFiles, AllSized, Flatten;
      err := false;
      if currentWriter.currentOffset + nextRecordSize > maxWalFileSize {
        var path;
        path, err := Rotate();
        FlattenRotate(old(log));
      }
    }

    /** What excuses an append that fails: a failed file, a closed log, or an error of the compressor. */
    ghost predicate Excused(closed: bool, compressorFails: bool)
      reads this
    {
      failed || closed || (codec.Compressed? && compressorFails)
    }

    /** Writes a record to the current file. */
    method WriteToCurrent(record: Value, compressorFails: bool) returns (err: bool)
      requires Valid() && Sized(codec, record)
      modifies Repr()
      ensures Valid() && Repr() == old(Repr())
      ensures err ==> log == old(log) && (old(failed) ==> failed) && Excused(old(currentWriter.closed), compressorFails)
      ensures !err ==> log == LogAppend(old(log), record) && failed == old(failed)
    {
      hide FileWriter.Valid, FileWriter.Steady, WalPath, LogFiles, OnlyLogFiles, Flatten, Sized, AllSized, LogAppend;
      var offset;
      offset, err := currentWriter.Write(record, compressorFails);
      if err {
        FailedFile(currentWriter);
        failed := failed || currentWriter.bufWriter.failed;
        return;
      }
      Appended(codec, log, record);
      log := LogAppend(log, record);
    }

    /** Appends a record behind all others. */
    method Append(record: Value, compressorFails: bool) returns (err: bool)
      requires Valid() && Sized(codec, record)
      modifies Repr()
      ensures Valid() && fresh(Repr() - old(Repr()))
      ensures Flatten(log) == old(Flatten(log)) + if err then [] else [record]
      ensures !err && !old(failed) ==> !failed
      ensures err ==> Excused(old(currentWriter.closed), compressorFails) || nextWriterNumber == FILE_LIMIT
    {
      hide FileWriter.Valid, FileWriter.Steady, WalPath, LogFiles, OnlyLogFiles, Flatten, Sized, AllSized, LogAppend;
      err := CheckSizeAndRotate(|Payload(record)|);
      if err {
        return;
      }
      Appended(codec, log, record);
      err := WriteToCurrent(record, compressorFails);
    }

    /** Writes a record to the current file and the file to the disk. */
    method WriteToDisk(record: Value, compressorFails: bool) returns (err: bool)
      requires Valid() && Sized(codec, record)
      modifies Repr()
      ensures Valid() && Repr() == old(Repr())
      ensures err ==> log == old(log) && (old(failed) ==> failed) && Excused(old(currentWriter.closed), compressorFails)
      ensures !err ==> log == LogAppend(old(log), record) && failed == old(failed)
      ensures !err && !failed ==> LogFiles(OnDisk(), basePath, compressionType, codec, log)
    {
      hide FileWriter.Valid, FileWriter.Steady, WalPath, LogFiles, OnlyLogFiles, Flatten, Sized, AllSized, LogAppend,
           Layout, FileHeader, EncodeAll;
      var offset;
      offset, err := currentWriter.WriteSync(record, compressorFails);
      if err {
        FailedFile(currentWriter);
        failed := failed || currentWriter.bufWriter.failed || currentWriter.records != old(currentWriter.records);
        return;
      }
      Appended(codec, log, record);
      log := LogAppend(log, record);
      if !failed {
        NothingLingers(compressionType, codec, currentWriter.file.content, currentWriter.currentOffset,
                       currentWriter.largestOffset, currentWriter.records);
        LogFilesGrow(files, basePath, compressionType, codec, log, currentWriter.file.content);
      }
    }

    /** Appends a record so that the files on disk, with the open one as it is, already hold the whole log. */
    method AppendSync(record: Value, compressorFails: bool) returns (err: bool)
      requires Valid() && Sized(codec, record)
      modifies Repr()
      ensures Valid() && fresh(Repr() - old(Repr()))
      ensures Flatten(log) == old(Flatten(log)) + if err then [] else [record]
      ensures !err && !old(failed) ==> !failed && LogFiles(OnDisk(), basePath, compressionType, codec, log)
      ensures err ==> Excused(old(currentWriter.closed), compressorFails) || nextWriterNumber == FILE_LIMIT
    {
      hide FileWriter.Valid, FileWriter.Steady, WalPath, LogFiles, OnlyLogFiles, Flatten, Sized, AllSized, LogAppend;
      err := CheckSizeAndRotate(|Payload(record)|);
      if err {
        return;
      }
      Appended(codec, log, record);
      err := WriteToDisk(record, compressorFails);
    }

    /** The closed files, and the current one as it is. */
    ghost function OnDisk(): map<bytes, bytes>
      reads this, currentWriter, currentWriter.file
    {
      files[currentWriterPath := currentWriter.file.content]
    }

    /** Closes the current file: the files then hold the whole log. */
    method Close() returns (err: bool)
      requires Valid() && !currentWriter.closed && currentWriter.open
      modifies Repr()
      ensures log == old(log) && (!err && !old(failed) ==> Complete()) && (err ==> !reliable)
    {
      hide FileWriter.Valid, WalPath, FileHeader, EncodeAll, LogFiles, AllSized, OnlyLogFiles;
      err := currentWriter.Close();
      if err {
        failed := true;
        return;
      }
      if !failed {
        LogFilesGrow(files, basePath, compressionType, codec, log, currentWriter.file.content);
      }
      files := files[currentWriterPath := currentWriter.file.content];
    }
  }

  lemma {:induction false} FailedFile(w: FileWriter)
    requires w.Steady()
    ensures w.bufWriter.failed ==> !w.file.reliable
  {
  }

  lemma {:induction false} Opened(w: FileWriter)
    requires w.Valid()
    ensures w.Steady() && w.open && !w.closed && !w.bufWriter.failed
  {
  }

  lemma {:induction false} NothingSized(codec: Codec)
    ensures AllSized(codec, [])
  {
  }

  /** Creates a file and opens a record writer for it. */
  method OpenNew(bufferSize: nat, compressionType: nat, codec: Codec, reliable: bool) returns (w: FileWriter?)
    requires compressionType < 0x1_0000_0000
    ensures w == null ==> !reliable || compressionType > COMPRESSION_TYPE_LZW
    ensures w != null ==> fresh({w, w.bufWriter, w.bufWriter.buf, w.file, w.recordHeaderCache})
    ensures w != null ==> w.Valid() && w.Steady() && w.open && !w.closed && !w.bufWriter.failed && w.records == []
    ensures w != null ==> w.largestOffset == w.currentOffset && w.codec == codec
    ensures w != null ==> w.compressionType == compressionType <= COMPRESSION_TYPE_LZW && w.file.reliable == reliable
  {
    hide FileWriter.Valid, FileHeader, EncodeAll;
    var file := new File(reliable);
    var writer := new FileWriter(file, bufferSize, compressionType, codec);
    var err := writer.Open();
    if err {
      return null;
    }
    Opened(writer);
    w := writer;
  }

  /** A file that was never rewound has nothing behind its records. */
  lemma {:induction false} NothingLingers(compressionType: nat, codec: Codec, content: bytes, current: nat,
                                          largest: nat, records: seq<Value>)
    requires Layout(compressionType, codec, content, current, largest, records) && largest <= current
    ensures compressionType < 0x1_0000_0000 && content == FileHeader(compressionType) + EncodeAll(codec, records)
  {
    assert content[..current] == content;
  }

  /** A log that was closed without a failure replays to exactly what was appended, in the order it was appended. */
  lemma {:induction false} ClosedLogReplays(a: Appender, codecs: nat -> Codec, paths: seq<bytes>)
    requires a.Complete() && codecs(a.compressionType) == a.codec && Lossless(a.codec)
    requires multiset(paths) == multiset(a.files.Keys)
    ensures forall p :: p in paths ==> p in a.files
    ensures ReplayFiles(codecs, SortedContents(a.files, paths)) == (Flatten(a.log), false)
  {
    hide ReplayFiles, SortedContents, OnlyLogFiles, WalFiles, WalPaths, Lossless, PathsOf, FileNumbers, NumberedLog;
    ListingOfLog(a.files, paths, a.basePath, |a.log|);
    CompleteIsNumbered(a.files, a.basePath, a.compressionType, a.codec, a.log);
    ReplayYieldsTheLog(codecs, a.files, paths, a.basePath, UpTo(|a.log|), a.compressionType, a.log);
  }

  /** Starts a log with its first file. */
  method NewAppender(basePath: bytes, maxWalFileSize: nat, bufferSize: nat, compressionType: nat, codec: Codec,
                     reliable: bool)
    returns (a: Appender?)
    requires compressionType < 0x1_0000_0000
    ensures a == null ==> !reliable || compressionType > COMPRESSION_TYPE_LZW
    ensures a != null ==> a.basePath == basePath && a.codec == codec && a.reliable == reliable
    ensures a != null ==> fresh(a.Repr()) && a.Valid() && !a.failed && a.log == [[]] && a.files == map[]
  {
    hide FileWriter.Valid, FileWriter.Steady, WalPath, LogFiles, AllSized, OnlyLogFiles;
    var writer := OpenNew(bufferSize, compressionType, codec, reliable);
    if writer == null {
      return null;
    }
    a := new Appender(basePath, maxWalFileSize, bufferSize, writer);
  }
}
