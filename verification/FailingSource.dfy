/**
 A merge whose source fails. The wrapper around a table iterator drops every error but the end, so that records that
 cannot be read reach the heap as blank ones, with nil key and nil value and before everything else, and records with a
 wrong checksum as if they were right.
 */
module FailingSource {
  import opened Bytes
  import opened Tables
  import opened PriorityQueue
  import opened Merger
  import RecordFormat
  import SSTable

  // ---------- what the wrapper hands out ----------

  /**
   What the iterator over a table returns for an index entry: key, value and whether there is an error beside them.
   */
  datatype Scanned = Scanned(key: bytes, value: Value, failed: bool)

  function ScanNext(x: SSTable.IndexEntry, o: RecordFormat.Outcome, checksum: Value -> nat,
                    skipHashCheck: bool): Scanned
  {
    if !o.Got? then Scanned([], None, true)
    else Scanned(x.key, o.value, !skipHashCheck && SSTable.Checked(checksum, x.checksum, o.value).ChecksumMismatch?)
  }

  /** The wrapper passes key and value on and drops the error. */
  function Wrapped(s: Scanned, ctx: int): Item
  {
    Item(s.key, s.value, ctx)
  }

  /** What it hands out for a table, whatever reading returns. */
  function Handed(index: seq<SSTable.IndexEntry>, outcomes: seq<RecordFormat.Outcome>, checksum: Value -> nat,
                  skipHashCheck: bool, ctx: int): (items: seq<Item>)
    requires |index| == |outcomes|
    ensures |items| == |index|
  {
    seq(|index|, i requires 0 <= i < |index| => Wrapped(ScanNext(index[i], outcomes[i], checksum, skipHashCheck), ctx))
  }

  /** The scan of a table, up to its first error, in these terms. */
  lemma {:induction false} ScanFromIsScanNext(index: seq<SSTable.IndexEntry>, codec: RecordFormat.Codec,
                                              checksum: Value -> nat, skipHashCheck: bool, data: bytes, offset: nat)
    requires index != []
    ensures var (o, next) := RecordFormat.ReaderStep(codec, data, offset, RecordFormat.ReadNext);
            var s := ScanNext(index[0], o, checksum, skipHashCheck);
            var (es, failed) := SSTable.ScanFrom(index, codec, checksum, skipHashCheck, data, offset);
            if s.failed then es == [] && failed else es != [] && es[0] == Entry(s.key, s.value)
  {
    hide RecordFormat.ReaderStep, SSTable.Checked;
  }

  /** Checksums make no difference to a merge: with the checks or without, each record that can be read takes part. */
  lemma {:induction false} ChecksumsAreIgnored(index: seq<SSTable.IndexEntry>, outcomes: seq<RecordFormat.Outcome>,
                                               checksum: Value -> nat, ctx: int)
    requires |index| == |outcomes|
    ensures Handed(index, outcomes, checksum, false, ctx) == Handed(index, outcomes, checksum, true, ctx)
    ensures forall i :: 0 <= i < |index| ==>
              Handed(index, outcomes, checksum, false, ctx)[i]
              == if outcomes[i].Got? then Item(index[i].key, outcomes[i].value, ctx) else Item([], None, ctx)
  {
  }

  /** So a value that the checks have told to be wrong is merged under its key. */
  lemma {:induction false} WrongValueIsMerged(reduce: Reduce, x: SSTable.IndexEntry, v: Value, checksum: Value -> nat,
                                              ctx: int)
    requires x.key != [] && Keeps(reduce, v) && SSTable.Checked(checksum, x.checksum, v).ChecksumMismatch?
    ensures ScanNext(x, RecordFormat.Got(v), checksum, false).failed
    ensures Output(reduce, Handed([x], [RecordFormat.Got(v)], checksum, false, ctx)) == [Entry(x.key, v)]
  {
    var items := Handed([x], [RecordFormat.Got(v)], checksum, false, ctx);
    assert items == [Item(x.key, v, ctx)];
    OutputPlain(reduce, items);
    OneGroup(reduce, items);
    PickOne(items[0]);
    ReducedToNothing(reduce, items);
  }

  // ---------- the iterator over any stream ----------

  /** What the merge iterator holds: the previous key, the group it accumulates, and what it has returned. */
  datatype Buffer = Buffer(prevKey: Option<bytes>, group: seq<Item>, emitted: seq<Entry>)

  /** The reduction of the accumulated group; a nil key counts as nothing. */
  function Reduced(reduce: Reduce, b: Buffer): seq<Entry>
  {
    if b.prevKey.None? || b.group == [] || !Keeps(reduce, Pick(b.group)) then []
    else [Entry(b.prevKey.value, Pick(b.group))]
  }

  /** One record: another key completes the group before it, unless the previous key was nil. */
  function Taken(reduce: Reduce, b: Buffer, x: Item): Buffer
  {
    if b.prevKey.Some? && x.key != b.prevKey.value then Buffer(KeySlice(x.key), [x], b.emitted + Reduced(reduce, b))
    else Buffer(KeySlice(x.key), b.group + [x], b.emitted)
  }

  function Fold(reduce: Reduce, stream: seq<Item>): Buffer
  {
    if stream == [] then Buffer(None, [], [])
    else Taken(reduce, Fold(reduce, stream[..|stream| - 1]), stream[|stream| - 1])
  }

  /** Everything that the iterator returns for a stream, in whatever order its records come. */
  function Returned(reduce: Reduce, stream: seq<Item>): seq<Entry>
  {
    Fold(reduce, stream).emitted + Reduced(reduce, Fold(reduce, stream))
  }

  /** Empty keys come before all others. */
  ghost predicate EmptyFirst(stream: seq<Item>)
  {
    forall i, j :: 0 <= i < j < |stream| && stream[i].key != [] ==> stream[j].key != []
  }

  lemma {:induction false} FoldBuffers(reduce: Reduce, stream: seq<Item>)
    requires EmptyFirst(stream)
    ensures var b := Fold(reduce, stream);
            Buffering(reduce, stream, b.prevKey, Values(b.group), Contexts(b.group), b.emitted)
    ensures stream != [] ==> Fold(reduce, stream).group != []
  {
    hide Buffering;
    if stream == [] {
      NothingFolded(reduce);
    } else {
      var n := |stream| - 1;
      var front, x := stream[..n], stream[n];
      FoldBuffers(reduce, front);
      assert front + [x] == stream;
      if front != [] && NextKey(front) != [] {
        var p := NextKeyAt(front);
        assert stream[p] == front[p] && x.key != [];
      }
      FoldStep(reduce, front, Fold(reduce, front), x);
    }
  }

  lemma {:induction false} NothingFolded(reduce: Reduce)
    ensures Fold(reduce, []) == Buffer(None, [], [])
    ensures Buffering(reduce, [], None, Values([]), Contexts([]), [])
  {
  }

  lemma {:induction false} FoldStep(reduce: Reduce, front: seq<Item>, b: Buffer, x: Item)
    requires Buffering(reduce, front, b.prevKey, Values(b.group), Contexts(b.group), b.emitted)
    requires (NextKey(front) != [] ==> x.key != []) && (front != [] ==> b.group != [])
    ensures var c := Taken(reduce, b, x);
            Buffering(reduce, front + [x], c.prevKey, Values(c.group), Contexts(c.group), c.emitted)
  {
    hide Buffering, NextKey, Adopt, GroupBuffered;
    assert Values(b.group + [x]) == Values(b.group) + [x.value];
    assert Contexts(b.group + [x]) == Contexts(b.group) + [x.ctx];
    assert Values([x]) == [x.value] && Contexts([x]) == [x.ctx];
    BufferedKey(reduce, front, b.prevKey, Values(b.group), Contexts(b.group), b.emitted);
    if b.prevKey.Some? {
      AdoptGrows(front, x);
      Unbuffered(reduce, front, b.prevKey, Values(b.group), Contexts(b.group), b.emitted);
      var a := Adopt(front);
      if x.key != b.prevKey.value {
        ReducedIsGroup(reduce, a, b);
        GroupStarts(reduce, a, b.prevKey, Values(b.group), Contexts(b.group), b.emitted, x, Reduced(reduce, b));
        Rebuffered(reduce, front + [x], Some(x.key), [x.value], [x.ctx], b.emitted + Reduced(reduce, b));
      } else {
        GroupContinues(reduce, a, b.prevKey, Values(b.group), Contexts(b.group), b.emitted, x);
        Rebuffered(reduce, front + [x], Some(x.key), Values(b.group) + [x.value], Contexts(b.group) + [x.ctx],
                   b.emitted);
      }
    } else if x.key == [] {
      EmptyContinues(reduce, front, b.prevKey, Values(b.group), Contexts(b.group), b.emitted, x);
    } else {
      KeyArrives(reduce, front, b.prevKey, Values(b.group), Contexts(b.group), b.emitted, x);
    }
  }

  lemma {:induction false} ReducedIsGroup(reduce: Reduce, a: seq<Item>, b: Buffer)
    requires GroupBuffered(reduce, a, b.prevKey, Values(b.group), Contexts(b.group), b.emitted)
    ensures Reduced(reduce, b) == ReduceGroup(reduce, a[GroupStart(a)..])
  {
    hide LatestIndex, ReduceAll, GroupStart;
    var g := a[GroupStart(a)..];
    assert |Values(b.group)| == |Values(g)| && b.group != [];
    assert g[0].key == a[|a| - 1].key;
  }

  /** On a stream whose empty keys come first, that is what the iterator was shown to return. */
  lemma {:induction false} ReturnedIsOutput(reduce: Reduce, stream: seq<Item>)
    requires EmptyFirst(stream)
    ensures Returned(reduce, stream) == Output(reduce, stream)
  {
    hide Fold, NextKey, Adopt;
    var b := Fold(reduce, stream);
    FoldBuffers(reduce, stream);
    if NextKey(stream) == [] {
      assert b.emitted + [] == [];
    } else {
      var a := Adopt(stream);
      ReducedIsGroup(reduce, a, b);
      ReduceAllUnfolds(reduce, a);
    }
  }

  // ---------- blank records in the middle ----------

  lemma {:induction false} FoldKey(reduce: Reduce, stream: seq<Item>)
    requires stream != []
    ensures Fold(reduce, stream).prevKey == KeySlice(stream[|stream| - 1].key)
  {
  }

  /** The streams meet between two groups, the first of which has a key. */
  ghost predicate Parts(before: seq<Item>, t: seq<Item>)
  {
    before != [] && t != [] ==> before[|before| - 1].key != [] && before[|before| - 1].key != t[0].key
  }

  /** Behind such a place the iterator goes on as from the start. */
  lemma {:induction false} FoldRestarts(reduce: Reduce, before: seq<Item>, t: seq<Item>)
    requires before != [] && t != [] && Parts(before, t)
    ensures Fold(reduce, before + t)
         == Buffer(Fold(reduce, t).prevKey, Fold(reduce, t).group, Returned(reduce, before) + Fold(reduce, t).emitted)
  {
    hide Fold, Reduced;
    var n := |t| - 1;
    assert (before + t)[..|before + t| - 1] == before + t[..n] && (before + t)[|before + t| - 1] == t[n];
    FoldUnfolds(reduce, before + t);
    FoldUnfolds(reduce, t);
    var r := Returned(reduce, before);
    if n == 0 {
      FoldKey(reduce, before);
      NothingFolded(reduce);
      assert before + t[..n] == before && t[..n] == [] && r + [] == r;
    } else {
      FoldRestarts(reduce, before, t[..n]);
      var b := Fold(reduce, t[..n]);
      assert r + b.emitted + Reduced(reduce, b) == r + (b.emitted + Reduced(reduce, b));
      SameReduced(reduce, b, r + b.emitted);
    }
  }

  lemma {:induction false} FoldUnfolds(reduce: Reduce, stream: seq<Item>)
    requires stream != []
    ensures Fold(reduce, stream) == Taken(reduce, Fold(reduce, stream[..|stream| - 1]), stream[|stream| - 1])
  {
  }

  lemma {:induction false} SameReduced(reduce: Reduce, b: Buffer, emitted: seq<Entry>)
    ensures Reduced(reduce, b.(emitted := emitted)) == Reduced(reduce, b)
  {
  }

  /** What the iterator returns falls apart at such a place. */
  lemma {:induction false} ReturnedRestarts(reduce: Reduce, before: seq<Item>, t: seq<Item>)
    requires Parts(before, t)
    ensures Returned(reduce, before + t) == Returned(reduce, before) + Returned(reduce, t)
  {
    hide Reduced;
    NothingReturned(reduce);
    if before == [] {
      assert before + t == t;
    } else if t == [] {
      assert before + t == before;
    } else {
      FoldRestarts(reduce, before, t);
      hide Fold;
      SameReduced(reduce, Fold(reduce, t), Fold(reduce, before + t).emitted);
    }
  }

  lemma {:induction false} NothingReturned(reduce: Reduce)
    ensures Returned(reduce, []) == []
  {
  }

  /** The records that a failed source still hands out. */
  ghost predicate Blanks(blanks: seq<Item>, ctx: int)
  {
    blanks != [] && forall i :: 0 <= i < |blanks| ==> blanks[i] == Item([], None, ctx)
  }

  /** The records of one key. */
  ghost predicate OneKey(group: seq<Item>)
  {
    && group != [] && group[0].key != []
    && (forall i :: 0 <= i < |group| ==> group[i].key == group[0].key && group[i].ctx >= 0)
  }

  /**
   A source fails between `before` and the group of the next key, which other sources deliver. Before and behind that
   any sources may have failed as well.
   */
  ghost predicate FailsBetween(before: seq<Item>, blanks: seq<Item>, ctx: int, first: seq<Item>, rest: seq<Item>)
  {
    && (before != [] ==> before[|before| - 1].key != []) && Blanks(blanks, ctx) && ctx >= 0
    && OneKey(first) && (rest != [] ==> rest[0].key != first[0].key)
  }

  /** One group with blank records before it or without. */
  lemma {:induction false} GroupReturns(reduce: Reduce, blanks: seq<Item>, first: seq<Item>)
    requires OneKey(first) && forall i :: 0 <= i < |blanks| ==> blanks[i].key == []
    ensures Returned(reduce, blanks + first) == ReduceGroup(reduce, Rekeyed(blanks, first[0].key) + first)
  {
    hide ReduceAll, ReduceGroup, Returned, Output;
    var t := blanks + first;
    assert t == blanks + first + [];
    assert Laid(t, blanks, first, []);
    ReturnedIsOutput(reduce, t);
    OutputLaid(reduce, t, blanks, first, []);
    NothingReduced(reduce, []);
  }

  /** What the merge returns when a source fails: the blank records join the next group, and nothing else changes. */
  lemma {:induction false} FailureReturns(reduce: Reduce, before: seq<Item>, blanks: seq<Item>, ctx: int,
                                          first: seq<Item>, rest: seq<Item>)
    requires FailsBetween(before, blanks, ctx, first, rest)
    ensures Returned(reduce, before + (blanks + first + rest))
         == Returned(reduce, before)
            + (ReduceGroup(reduce, Rekeyed(blanks, first[0].key) + first) + Returned(reduce, rest))
    ensures Returned(reduce, first + rest) == ReduceGroup(reduce, first) + Returned(reduce, rest)
  {
    hide ReduceGroup, Returned;
    ReturnedRestarts(reduce, before, blanks + first + rest);
    ReturnedRestarts(reduce, blanks + first, rest);
    ReturnedRestarts(reduce, first, rest);
    GroupReturns(reduce, blanks, first);
    GroupReturns(reduce, [], first);
    assert [] + first == first && Rekeyed([], first[0].key) == [];
  }

  /** With no key behind it, a failure changes nothing of what the records that were read give. */
  lemma {:induction false} FailureAtTheEnd(reduce: Reduce, before: seq<Item>, blanks: seq<Item>, ctx: int)
    requires (before != [] ==> before[|before| - 1].key != []) && Blanks(blanks, ctx)
    ensures Returned(reduce, before + blanks) == Returned(reduce, before)
  {
    hide Returned;
    ReturnedRestarts(reduce, before, blanks);
    ReturnedIsOutput(reduce, blanks);
    NextKeyEmpty(blanks);
    assert Returned(reduce, before) + [] == Returned(reduce, before);
  }

  predicate Exceeds(d: seq<int>, c: int)
  {
    exists i :: 0 <= i < |d| && d[i] > c
  }

  lemma {:induction false} NothingExceeds(d: seq<int>, c: int)
    requires d == []
    ensures !Exceeds(d, c)
  {
  }

  lemma {:induction false} ExceedsGrows(d: seq<int>, c: int)
    requires d != []
    ensures Exceeds(d, c) <==> Exceeds(d[..|d| - 1], c) || d[|d| - 1] > c
  {
    var n := |d| - 1;
    if i :| 0 <= i < |d| && d[i] > c && i < n {
      assert d[..n][i] > c;
    }
  }

  lemma {:induction false} GreatestWithin(d: seq<int>, c: int)
    requires c >= 0 && (forall i :: 0 <= i < |d| ==> d[i] >= 0) && !Exceeds(d, c)
    ensures LatestIndex(d).0 <= c
  {
    if d != [] {
      LatestIndexIsGreatest(d);
    }
  }

  lemma {:induction false} LatestBehind(blank: seq<int>, c: int, d: seq<int>)
    requires blank != [] && c >= 0 && (forall i :: 0 <= i < |blank| ==> blank[i] == c)
    requires forall i :: 0 <= i < |d| ==> d[i] >= 0
    ensures LatestIndex(blank + d) == if Exceeds(d, c) then (LatestIndex(d).0, |blank| + LatestIndex(d).1) else (c, 0)
  {
    hide Exceeds;
    if d == [] {
      assert blank + d == blank;
      NothingExceeds(d, c);
      FirstContext(blank);
    } else {
      var n := |d| - 1;
      assert (blank + d)[..|blank + d| - 1] == blank + d[..n];
      LatestBehind(blank, c, d[..n]);
      ExceedsGrows(d, c);
      if !Exceeds(d[..n], c) {
        GreatestWithin(d[..n], c);
      }
    }
  }

  /** The blank records win the next group unless it holds a greater context, that is a newer table. */
  lemma {:induction false} BlankPick(blanks: seq<Item>, ctx: int, first: seq<Item>, k: bytes)
    requires Blanks(blanks, ctx) && ctx >= 0 && first != [] && forall i :: 0 <= i < |first| ==> first[i].ctx >= 0
    ensures Pick(Rekeyed(blanks, k) + first) == if Exceeds(Contexts(first), ctx) then Pick(first) else None
  {
    hide LatestIndex;
    var joined, c, d := Rekeyed(blanks, k) + first, Contexts(Rekeyed(blanks, k)), Contexts(first);
    assert Contexts(joined) == c + d;
    LatestBehind(c, ctx, d);
  }

  /**
   When the blank records make no difference: between two keys if and only if a newer table holds the next key, or the
   reduction drops that key anyway. Otherwise the next key is missing from the output. Applied to one failure after the
   other, this says when the output is that of the records that were read.
   */
  lemma {:induction false} FailureBetweenKeysIff(reduce: Reduce, before: seq<Item>, blanks: seq<Item>, ctx: int,
                                                 first: seq<Item>, rest: seq<Item>)
    requires FailsBetween(before, blanks, ctx, first, rest)
    requires before != [] ==> before[|before| - 1].key != first[0].key
    ensures Returned(reduce, before + (blanks + first + rest)) == Returned(reduce, before + (first + rest))
        <==> Exceeds(Contexts(first), ctx) || !Keeps(reduce, Pick(first))
  {
    hide ReduceGroup, Returned, Pick;
    FailureReturns(reduce, before, blanks, ctx, first, rest);
    var k := first[0].key;
    BlankPick(blanks, ctx, first, k);
    AlikeGroups(reduce, Rekeyed(blanks, k) + first, first);
    ReturnedRestarts(reduce, before, first + rest);
    SameMiddle(Returned(reduce, before), ReduceGroup(reduce, Rekeyed(blanks, k) + first), ReduceGroup(reduce, first),
               Returned(reduce, rest));
  }

  lemma {:induction false} SameMiddle(a: seq<Entry>, x: seq<Entry>, y: seq<Entry>, b: seq<Entry>)
    ensures a + (x + b) == a + (y + b) <==> x == y
  {
    if a + (x + b) == a + (y + b) {
      assert (a + (x + b))[|a|..] == x + b && (a + (y + b))[|a|..] == y + b;
      assert |x + b| == |y + b|;
      assert (x + b)[..|x|] == x && (y + b)[..|y|] == y;
    }
  }

  /**
   And inside a key, of which `group` had been read before: if and only if one of the two parts is dropped and the other
   one chooses as the whole would.
   */
  lemma {:induction false} FailureInsideKeyIff(reduce: Reduce, before: seq<Item>, group: seq<Item>, blanks: seq<Item>,
                                               ctx: int, first: seq<Item>, rest: seq<Item>)
    requires FailsBetween(before, blanks, ctx, first, rest) && OneKey(group) && group[0].key == first[0].key
    requires before != [] ==> before[|before| - 1].key != first[0].key
    ensures var p, q := Pick(group), if Exceeds(Contexts(first), ctx) then Pick(first) else None;
            Returned(reduce, (before + group) + (blanks + first + rest))
            == Returned(reduce, before + ((group + first) + rest))
            <==> || (!Keeps(reduce, q) && Alike(reduce, p, Pick(group + first)))
                 || (!Keeps(reduce, p) && Alike(reduce, q, Pick(group + first)))
  {
    hide ReduceGroup, Returned, Pick, Exceeds, Alike, Keeps;
    var k := first[0].key;
    var joined, whole := Rekeyed(blanks, k) + first, group + first;
    FailureReturns(reduce, before + group, blanks, ctx, first, rest);
    BlankPick(blanks, ctx, first, k);
    ReturnedRestarts(reduce, before, group);
    GroupReturns(reduce, [], group);
    GroupReturns(reduce, [], whole);
    assert [] + group == group && [] + whole == whole && Rekeyed([], k) == [];
    ReturnedRestarts(reduce, whole, rest);
    ReturnedRestarts(reduce, before, whole + rest);
    TwoForOne(reduce, group, joined, whole);
    SplitMiddle(Returned(reduce, before), ReduceGroup(reduce, group), ReduceGroup(reduce, joined),
                ReduceGroup(reduce, whole), Returned(reduce, rest));
  }

  lemma {:induction false} SplitMiddle(a: seq<Entry>, x: seq<Entry>, y: seq<Entry>, z: seq<Entry>, b: seq<Entry>)
    ensures (a + x) + (y + b) == a + (z + b) <==> x + y == z
  {
    assert (a + x) + (y + b) == a + ((x + y) + b);
    SameMiddle(a, x + y, z, b);
  }

  /** Two reductions of a key instead of one. */
  lemma {:induction false} TwoForOne(reduce: Reduce, a: seq<Item>, b: seq<Item>, whole: seq<Item>)
    requires a != [] && b != [] && whole != [] && a[0].key == b[0].key == whole[0].key
    ensures ReduceGroup(reduce, a) + ReduceGroup(reduce, b) == ReduceGroup(reduce, whole)
        <==> || (!Keeps(reduce, Pick(b)) && Alike(reduce, Pick(a), Pick(whole)))
             || (!Keeps(reduce, Pick(a)) && Alike(reduce, Pick(b), Pick(whole)))
  {
    hide ReduceGroup, Pick, Alike, Keeps;
    var x, y, z := ReduceGroup(reduce, a), ReduceGroup(reduce, b), ReduceGroup(reduce, whole);
    AlikeGroups(reduce, a, whole);
    AlikeGroups(reduce, b, whole);
    ReducedToNothing(reduce, a);
    ReducedToNothing(reduce, b);
    ReducedToNothing(reduce, whole);
    assert y == [] ==> x + y == x;
    assert x == [] ==> x + y == y;
  }

  /**
   A failure inside a key: the older value of the key is returned first, and the newer one as a second entry of the same
   key, which the table writer refuses. The older value is what the table then holds.
   */
  lemma {:induction false} FailureKeepsStaleValue(k: bytes, stale: bytes, latest: bytes)
    requires k != [] && stale != [] && latest != []
    ensures var failing, blank, newer := Item(k, Some(stale), 0), Item([], None, 0), Item(k, Some(latest), 1);
            && ReduceAll(LatestWinsSkipTombstones, [failing, newer]) == [Entry(k, Some(latest))]
            && Returned(LatestWinsSkipTombstones, [failing] + ([blank] + [newer] + []))
               == [Entry(k, Some(stale)), Entry(k, Some(latest))]
  {
    hide ReduceAll, ReduceGroup, Returned, Pick;
    var reduce := LatestWinsSkipTombstones;
    var failing, blank, newer := Item(k, Some(stale), 0), Item([], None, 0), Item(k, Some(latest), 1);
    assert [blank] + [newer] + [] == [blank, newer];
    FailureReturns(reduce, [failing], [blank], 0, [newer], []);
    NothingReturned(reduce);
    GroupReturns(reduce, [], [failing]);
    assert [] + [failing] == [failing] && Rekeyed([], k) == [];
    BlankPick([blank], 0, [newer], k);
    assert Contexts([newer])[0] > 0;
    PickOne(failing);
    PickOne(newer);
    PickNewer(failing, newer);
    OneGroup(reduce, [failing, newer]);
    ReducedToNothing(reduce, [failing]);
    ReducedToNothing(reduce, [failing, newer]);
    ReducedToNothing(reduce, Rekeyed([blank], k) + [newer]);
  }

  lemma {:induction false} PickOne(x: Item)
    ensures Pick([x]) == x.value
  {
  }

  lemma {:induction false} PickNewer(x: Item, y: Item)
    requires 0 <= x.ctx < y.ctx
    ensures Pick([x, y]) == y.value
  {
    hide LatestIndex;
    var c := Contexts([x, y]);
    assert c[0] == x.ctx && c[1] == y.ctx;
    LatestIndexIsGreatest(c);
  }

  // ---------- the heap hands blank records out at once ----------

  function BlankEntries(n: nat): (es: seq<Entry>)
    ensures |es| == n
  {
    seq(n, i => Entry([], None))
  }

  /** An iterator that stands on a blank record, has n others ahead, and then what it can read again. */
  function Failing(n: nat, ctx: int, tail: seq<Entry>): Element
  {
    Element([], None, Source(ctx, BlankEntries(n) + tail))
  }

  lemma {:induction false} FailingNext(n: nat, ctx: int, tail: seq<Entry>)
    ensures n > 0 ==>
              && Failing(n, ctx, tail).rest.entries != []
              && FillNext(Failing(n, ctx, tail).rest) == Failing(n - 1, ctx, tail)
    ensures n == 0 ==> Failing(n, ctx, tail).rest.entries == tail
  {
    if n > 0 {
      assert (BlankEntries(n) + tail)[1..] == BlankEntries(n - 1) + tail;
    }
  }

  /** The element without a key is the least one. */
  lemma {:induction false} BlankIsNext(before: seq<Element>, after: seq<Element>, others: multiset<Element>, e: Element,
                                       blank: Element)
    requires HandedBy(before, after, e) && multiset(before) == others + multiset{blank} && blank.Element?
    requires blank.key == []
    requires forall x :: x in others && x.Element? ==> x.key != []
    ensures e == blank
    ensures multiset(after) == others + if e.rest.entries == [] then multiset{} else multiset{FillNext(e.rest)}
  {
    assert blank in multiset(before) && e in multiset(before);
    assert Leq(e.key, []);
    assert e.key == [];
    var more := if e.rest.entries == [] then multiset{} else multiset{FillNext(e.rest)};
    assert multiset(after) == (multiset(after) + multiset{e}) - multiset{e};
    assert others + more == (others + multiset{e} + more) - multiset{e};
  }

  /**
   Whatever the other iterators stand on, once a source has failed the heap hands out its blank records next, one behind
   the other, and nothing else of the heap changes.
   */
  method TakeBlanks(queue: PriorityQueue, n: nat, ghost others: multiset<Element>, ghost ctx: int,
                    ghost tail: seq<Entry>)
    returns (items: seq<Item>)
    requires queue.Heaped() && multiset(queue.heap) == others + multiset{Failing(n, ctx, tail)}
    requires forall e :: e in others && e.Element? ==> e.key != []
    modifies queue
    ensures queue.Heaped() && |items| == n + 1 && Blanks(items, ctx)
    ensures multiset(queue.heap) == others + if tail == [] then multiset{} else multiset{FillNext(Source(ctx, tail))}
  {
    hide HandedBy, Leq, Less, HeapOrder, Remaining, AllSorted;
    items := [];
    for i := 0 to n + 1
      invariant queue.Heaped() && |items| == i && (forall j :: 0 <= j < i ==> items[j] == Item([], None, ctx))
      invariant i <= n ==> multiset(queue.heap) == others + multiset{Failing(n - i, ctx, tail)}
      invariant i == n + 1 ==>
                  multiset(queue.heap)
                  == others + if tail == [] then multiset{} else multiset{FillNext(Source(ctx, tail))}
    {
      ghost var before := queue.heap;
      Standing(before, others, Failing(n - i, ctx, tail));
      var next := queue.Next();
      ghost var e: Element :| e.Element? && HandedBy(before, queue.heap, e) && next.value == RootItemOf(e);
      BlankIsNext(before, queue.heap, others, e, Failing(n - i, ctx, tail));
      FailingNext(n - i, ctx, tail);
      items := items + [next.value];
    }
  }

  lemma {:induction false} Standing(heap: seq<Element>, others: multiset<Element>, e: Element)
    requires multiset(heap) == others + multiset{e} && e.Element? && |heap| >= 1 && heap[0].Nil?
    ensures |heap| > 1
  {
    assert e in multiset(heap);
  }
}
