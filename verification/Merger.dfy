/** Merging sorted tables: grouping of equal keys, latest-wins reduction, and what the result means. */
module Merger {
  import opened Bytes
  import opened Tables
  import opened PriorityQueue

  /** The two reductions: keep the latest value, or keep it unless it is empty. */
  datatype Reduce = LatestWins | LatestWinsSkipTombstones

  /**
   Whether the iterator passes a reduced value on: nil values are dropped, and empty ones with the second reduction.
   */
  predicate Keeps(reduce: Reduce, v: Value)
  {
    v.Some? && (reduce.LatestWinsSkipTombstones? ==> v.value != [])
  }

  /** The position of the first greatest context, found as the code does from the start values 0 and 0. */
  function LatestIndex(context: seq<int>): (r: (int, nat))
    ensures context != [] ==> r.1 < |context|
  {
    if context == [] then (0, 0) else
      var n := |context| - 1;
      var (maxCtx, index) := LatestIndex(context[..n]);
      if context[n] > maxCtx then (context[n], n) else (maxCtx, if n == 0 then 0 else index)
  }

  /** Over non-negative contexts the chosen position has the greatest one. */
  lemma {:induction false} LatestIndexIsGreatest(context: seq<int>)
    requires context != [] && forall i :: 0 <= i < |context| ==> context[i] >= 0
    ensures var (maxCtx, index) := LatestIndex(context);
            maxCtx == context[index] && forall i :: 0 <= i < |context| ==> context[i] <= context[index]
  {
    var n := |context| - 1;
    if n > 0 {
      LatestIndexIsGreatest(context[..n]);
      assert forall i :: 0 <= i < n ==> context[..n][i] == context[i];
    }
  }

  method ScanReduceLatestWins(values: seq<Value>, context: seq<int>) returns (value: Value)
    requires |values| == |context| && context != []
    ensures value == values[LatestIndex(context).1]
  {
    var maxCtx, maxCtxIndex := 0, 0;
    for i := 0 to |context|
      invariant (maxCtx, maxCtxIndex) == LatestIndex(context[..i])
    {
      assert context[..i + 1][..i] == context[..i];
      if context[i] > maxCtx {
        maxCtx, maxCtxIndex := context[i], i;
      }
    }
    assert context[..|context|] == context;
    value := values[maxCtxIndex];
  }

  // ---------- groups of equal keys ----------

  function Values(items: seq<Item>): seq<Value>
  {
    seq(|items|, i requires 0 <= i < |items| => items[i].value)
  }

  function Contexts(items: seq<Item>): seq<int>
  {
    seq(|items|, i requires 0 <= i < |items| => items[i].ctx)
  }

  /** Where the last group of equal keys of a stream begins. */
  function GroupStart(stream: seq<Item>): (n: nat)
    requires stream != []
    ensures n < |stream| && forall i :: n <= i < |stream| ==> stream[i].key == stream[|stream| - 1].key
    ensures n > 0 ==> stream[n - 1].key != stream[|stream| - 1].key
  {
    var last := |stream| - 1;
    if last > 0 && stream[last - 1].key == stream[last].key then GroupStart(stream[..last]) else last
  }

  /** The reduction of one group. */
  function ReduceGroup(reduce: Reduce, group: seq<Item>): seq<Entry>
    requires group != []
  {
    var v := Values(group)[LatestIndex(Contexts(group)).1];
    if Keeps(reduce, v) then [Entry(group[0].key, v)] else []
  }

  /** The reductions of all groups of a stream. */
  function ReduceAll(reduce: Reduce, stream: seq<Item>): seq<Entry>
  {
    if stream == [] then [] else
      var n := GroupStart(stream);
      ReduceAll(reduce, stream[..n]) + ReduceGroup(reduce, stream[n..])
  }

  /** What one more record does to the last group. */
  lemma {:induction false} SameGroup(stream: seq<Item>, x: Item)
    requires stream != [] && x.key == stream[|stream| - 1].key
    ensures var n, grown := GroupStart(stream), stream + [x];
            && GroupStart(grown) == n && grown[..n] == stream[..n]
            && Values(grown[n..]) == Values(stream[n..]) + [x.value]
            && Contexts(grown[n..]) == Contexts(stream[n..]) + [x.ctx]
  {
    assert (stream + [x])[..|stream|] == stream;
    assert (stream + [x])[GroupStart(stream)..] == stream[GroupStart(stream)..] + [x];
  }

  lemma {:induction false} NewGroup(stream: seq<Item>, x: Item)
    requires stream != [] ==> x.key != stream[|stream| - 1].key
    ensures var n, grown := |stream|, stream + [x];
            && GroupStart(grown) == n && grown[..n] == stream
            && Values(grown[n..]) == [x.value] && Contexts(grown[n..]) == [x.ctx]
  {
    assert (stream + [x])[|stream|..] == [x];
    assert (stream + [x])[..|stream|] == stream;
  }

  // ---------- what the reductions of a sorted stream are ----------

  ghost predicate SortedItems(items: seq<Item>)
  {
    forall i, j :: 0 <= i < j < |items| ==> Leq(items[i].key, items[j].key)
  }

  /** No record of the same key has a greater context. */
  ghost predicate IsLatest(records: multiset<Item>, x: Item)
  {
    x in records && forall y :: y in records && y.key == x.key ==> y.ctx <= x.ctx
  }

  /** Contexts are non-negative, and one context has at most one value for a key. */
  ghost predicate OneValuePerContext(records: multiset<Item>)
  {
    && (forall x :: x in records ==> x.ctx >= 0)
    && (forall x, y :: x in records && y in records && x.key == y.key && x.ctx == y.ctx ==> x.value == y.value)
  }

  lemma {:induction false} GroupIsLast(stream: seq<Item>, i: nat)
    requires stream != [] && SortedItems(stream) && i < GroupStart(stream)
    ensures Less(stream[i].key, stream[|stream| - 1].key)
  {
    hide Less;
    var n, last := GroupStart(stream), |stream| - 1;
    LessTrichotomy(stream[n - 1].key, stream[last].key);
    LessTrichotomy(stream[i].key, stream[n - 1].key);
    if stream[i].key != stream[n - 1].key {
      LessTransitive(stream[i].key, stream[n - 1].key, stream[last].key);
    }
  }

  /** One group reduces to its record with the greatest context. */
  lemma {:induction false} ReduceGroupPicks(reduce: Reduce, group: seq<Item>) returns (x: Item)
    requires group != [] && (forall i :: 0 <= i < |group| ==> group[i].ctx >= 0 && group[i].key == group[0].key)
    ensures x in group && (forall i :: 0 <= i < |group| ==> group[i].ctx <= x.ctx)
    ensures ReduceGroup(reduce, group) == if Keeps(reduce, x.value) then [Entry(x.key, x.value)] else []
  {
    var contexts := Contexts(group);
    LatestIndexIsGreatest(contexts);
    x := group[LatestIndex(contexts).1];
    assert forall i :: 0 <= i < |group| ==> contexts[i] == group[i].ctx;
  }

  /** The record that wins the last group of a sorted stream wins in the stream. */
  lemma {:induction false} GroupWinner(stream: seq<Item>, x: Item)
    requires stream != [] && SortedItems(stream) && x in stream[GroupStart(stream)..]
    requires forall i :: GroupStart(stream) <= i < |stream| ==> stream[i].ctx <= x.ctx
    ensures IsLatest(multiset(stream), x) && x.key == stream[|stream| - 1].key
  {
    hide Less, SortedItems, GroupStart;
    var last := |stream| - 1;
    forall y | y in multiset(stream) && y.key == x.key ensures y.ctx <= x.ctx {
      var i :| 0 <= i < |stream| && stream[i] == y;
      if i < GroupStart(stream) {
        GroupIsLast(stream, i);
        LessTrichotomy(stream[i].key, stream[last].key);
      }
    }
  }

  /** The last group of a sorted stream, with its winner. */
  lemma {:induction false} LastGroup(reduce: Reduce, stream: seq<Item>) returns (x: Item)
    requires stream != [] && SortedItems(stream) && OneValuePerContext(multiset(stream))
    ensures IsLatest(multiset(stream), x) && x.key == stream[|stream| - 1].key
    ensures ReduceAll(reduce, stream)
         == ReduceAll(reduce, stream[..GroupStart(stream)]) 
            + if Keeps(reduce, x.value) then [Entry(x.key, x.value)] else []
  {
    hide Keeps, SortedItems, IsLatest, GroupStart, ReduceGroup, OneValuePerContext;
    var n := GroupStart(stream);
    var group := stream[n..];
    assert ReduceAll(reduce, stream) == ReduceAll(reduce, stream[..n]) + ReduceGroup(reduce, group);
    hide ReduceAll;
    forall i | 0 <= i < |group| ensures group[i].ctx >= 0 && group[i].key == group[0].key {
      NonNegativeContext(stream, n + i);
    }
    x := ReduceGroupPicks(reduce, group);
    assert forall i :: n <= i < |stream| ==> stream[i] == group[i - n];
    GroupWinner(stream, x);
  }

  lemma {:induction false} NonNegativeContext(stream: seq<Item>, i: nat)
    requires i < |stream| && OneValuePerContext(multiset(stream))
    ensures stream[i].ctx >= 0
  {
    assert stream[i] in multiset(stream);
  }

  lemma {:induction false} PrefixOfStream(stream: seq<Item>, n: nat)
    requires n <= |stream| && SortedItems(stream) && OneValuePerContext(multiset(stream))
    ensures SortedItems(stream[..n]) && OneValuePerContext(multiset(stream[..n]))
  {
    forall x | x in multiset(stream[..n]) ensures x in multiset(stream) {
      var i :| 0 <= i < n && stream[..n][i] == x;
      assert stream[i] == x;
    }
  }

  /** A record outside the last group is latest in the stream if and only if it is in the part before it. */
  lemma {:induction false} LatestInPrefix(stream: seq<Item>, x: Item)
    requires stream != [] && SortedItems(stream)
    ensures var m := multiset(stream[..GroupStart(stream)]);
            IsLatest(m, x) <==> IsLatest(multiset(stream), x) && x.key != stream[|stream| - 1].key
  {
    hide Less, Leq;
    var n, key := GroupStart(stream), stream[|stream| - 1].key;
    var m := multiset(stream[..n]);
    forall y ensures y in m <==> y in multiset(stream) && y.key != key {
      if y in m {
        var i :| 0 <= i < n && stream[..n][i] == y;
        assert stream[i] == y;
        GroupIsLast(stream, i);
        LessTrichotomy(y.key, key);
      }
      if y in multiset(stream) && y.key != key {
        var i :| 0 <= i < |stream| && stream[i] == y;
        assert i < n && stream[..n][i] == y;
      }
    }
  }

  /** Exactly the latest values that the reduction keeps are returned. */
  lemma {:induction false} ReduceAllMembers(reduce: Reduce, stream: seq<Item>, e: Entry)
    requires SortedItems(stream) && OneValuePerContext(multiset(stream))
    ensures e in ReduceAll(reduce, stream)
        <==> Keeps(reduce, e.value) && exists x :: IsLatest(multiset(stream), x) && x.key == e.key && x.value == e.value
    decreases |stream|
  {
    hide Less, Leq, Keeps, SortedItems, OneValuePerContext, IsLatest;
    if stream == [] {
      NothingIsLatest();
    } else {
      var n := GroupStart(stream);
      var g := LastGroup(reduce, stream);
      PrefixOfStream(stream, n);
      ReduceAllMembers(reduce, stream[..n], e);
      forall x ensures IsLatest(multiset(stream[..n]), x) <==> IsLatest(multiset(stream), x) && x.key != g.key {
        LatestInPrefix(stream, x);
      }
      forall x | IsLatest(multiset(stream), x) && x.key == g.key ensures x.value == g.value {
        LatestIsUnique(multiset(stream), x, g);
      }
    }
  }

  lemma {:induction false} NothingIsLatest()
    ensures forall x :: !IsLatest(multiset([]), x)
  {
  }

  lemma {:induction false} LatestIsUnique(records: multiset<Item>, x: Item, y: Item)
    requires OneValuePerContext(records) && IsLatest(records, x) && IsLatest(records, y) && x.key == y.key
    ensures x.value == y.value
  {
  }

  /** Every returned entry is a record of the stream. */
  lemma {:induction false} ReducedFrom(reduce: Reduce, stream: seq<Item>, i: nat) returns (j: nat)
    requires i < |ReduceAll(reduce, stream)|
    ensures j < |stream| && Entry(stream[j].key, stream[j].value) == ReduceAll(reduce, stream)[i]
    decreases |stream|
  {
    var n := GroupStart(stream);
    if i < |ReduceAll(reduce, stream[..n])| {
      j := ReducedFrom(reduce, stream[..n], i);
    } else {
      hide LatestIndex, Keeps, GroupStart;
      j := n + LatestIndex(Contexts(stream[n..])).1;
    }
  }

  /** The reductions of a sorted stream have strictly ascending keys. */
  lemma {:induction false} ReduceAllAscends(reduce: Reduce, stream: seq<Item>)
    requires SortedItems(stream)
    ensures KeysAscend(ReduceAll(reduce, stream))
    decreases |stream|
  {
    hide Less, Leq, Keeps, LatestIndex;
    if stream != [] {
      var n := GroupStart(stream);
      var before := ReduceAll(reduce, stream[..n]);
      ReduceAllAscends(reduce, stream[..n]);
      forall i | 0 <= i < |before| ensures Less(before[i].key, stream[n].key) {
        var j := ReducedFrom(reduce, stream[..n], i);
        GroupIsLast(stream, j);
      }
    }
  }

  // ---------- what the iterator makes of empty keys ----------

  // An empty key read from a table file is a nil slice, and the iterator takes a nil previous key for no key at all.

  /** The first key of a stream that is not empty, or the empty key. */
  function NextKey(stream: seq<Item>): bytes
  {
    if stream == [] then [] else if stream[0].key != [] then stream[0].key else NextKey(stream[1..])
  }

  /** The stream as the iterator groups it: records of the empty key pass for records of the next key. */
  function Adopt(stream: seq<Item>): (r: seq<Item>)
    ensures |r| == |stream|
  {
    var k := NextKey(stream);
    seq(|stream|, i requires 0 <= i < |stream| => if stream[i].key == [] then stream[i].(key := k) else stream[i])
  }

  /** Everything that the iterator returns for a stream: a stream without any other key gives nothing. */
  function Output(reduce: Reduce, stream: seq<Item>): seq<Entry>
  {
    if NextKey(stream) == [] then [] else ReduceAll(reduce, Adopt(stream))
  }

  lemma {:induction false} NextKeyEmpty(stream: seq<Item>)
    ensures NextKey(stream) == [] <==> forall i :: 0 <= i < |stream| ==> stream[i].key == []
  {
    if stream != [] {
      NextKeyEmpty(stream[1..]);
      assert forall i :: 1 <= i < |stream| ==> stream[i] == stream[1..][i - 1];
    }
  }

  /** Where the next key stands: behind nothing but empty keys. */
  lemma {:induction false} NextKeyAt(stream: seq<Item>) returns (p: nat)
    requires NextKey(stream) != []
    ensures p < |stream| && stream[p].key == NextKey(stream) && forall i :: 0 <= i < p ==> stream[i].key == []
  {
    if stream[0].key != [] {
      p := 0;
    } else {
      p := NextKeyAt(stream[1..]);
      p := p + 1;
      assert forall i :: 1 <= i < p ==> stream[i] == stream[1..][i - 1];
    }
  }

  lemma {:induction false} NextKeyGrows(stream: seq<Item>, x: Item)
    ensures NextKey(stream + [x]) == if NextKey(stream) != [] then NextKey(stream) else x.key
  {
    if stream != [] {
      NextKeyGrows(stream[1..], x);
      assert (stream + [x])[1..] == stream[1..] + [x];
    }
  }

  /** Without empty keys the iterator returns the reductions of all groups. */
  lemma {:induction false} OutputPlain(reduce: Reduce, stream: seq<Item>)
    requires forall i :: 0 <= i < |stream| ==> stream[i].key != []
    ensures Adopt(stream) == stream && Output(reduce, stream) == ReduceAll(reduce, stream)
  {
    NextKeyEmpty(stream);
  }

  lemma {:induction false} AdoptSorted(stream: seq<Item>)
    requires SortedItems(stream)
    ensures SortedItems(Adopt(stream))
  {
    hide Less;
    NextKeyEmpty(stream);
    if NextKey(stream) == [] {
      assert Adopt(stream) == stream;
    } else {
      var p := NextKeyAt(stream);
      var a := Adopt(stream);
      forall i, j | 0 <= i < j < |a| ensures Leq(a[i].key, a[j].key) {
        LessTrichotomy(stream[p].key, stream[p].key);
        if stream[i].key == [] && stream[j].key != [] {
          assert p <= j;
        } else if stream[i].key != [] {
          EmptyIsLeast(stream[i].key, stream[j].key);
        }
      }
    }
  }

  lemma {:induction false} EmptyIsLeast(a: bytes, b: bytes)
    requires Leq(a, b) && a != []
    ensures b != []
  {
  }

  /** Whatever the keys are, the returned keys ascend strictly. */
  lemma {:induction false} OutputAscends(reduce: Reduce, stream: seq<Item>)
    requires SortedItems(stream)
    ensures KeysAscend(Output(reduce, stream))
  {
    hide SortedItems, ReduceAll, Adopt;
    AdoptSorted(stream);
    ReduceAllAscends(reduce, Adopt(stream));
  }

  /** The value that the reduction of a group chooses. */
  function Pick(group: seq<Item>): Value
    requires group != []
  {
    Values(group)[LatestIndex(Contexts(group)).1]
  }

  lemma {:induction false} ReduceAllUnfolds(reduce: Reduce, stream: seq<Item>)
    requires stream != []
    ensures ReduceAll(reduce, stream)
        == ReduceAll(reduce, stream[..GroupStart(stream)]) + ReduceGroup(reduce, stream[GroupStart(stream)..])
  {
  }

  lemma {:induction false} NothingReduced(reduce: Reduce, stream: seq<Item>)
    requires stream == []
    ensures ReduceAll(reduce, stream) == []
  {
  }

  /** Streams behind each other, where no group reaches across. */
  lemma {:induction false} ReduceAllConcat(reduce: Reduce, a: seq<Item>, b: seq<Item>)
    requires a != [] && b != [] ==> a[|a| - 1].key != b[0].key
    ensures ReduceAll(reduce, a + b) == ReduceAll(reduce, a) + ReduceAll(reduce, b)
    decreases |b|
  {
    hide ReduceGroup, ReduceAll, GroupStart;
    if b == [] {
      assert a + b == a;
      NothingReduced(reduce, b);
    } else {
      var n := GroupStart(b);
      GroupStartBehind(a, b);
      ConcatSlices(a, b, n);
      ReduceAllConcat(reduce, a, b[..n]);
      ReduceAllUnfolds(reduce, a + b);
      ReduceAllUnfolds(reduce, b);
      Associates(ReduceAll(reduce, a), ReduceAll(reduce, b[..n]), ReduceGroup(reduce, b[n..]));
    }
  }

  lemma {:induction false} Associates(x: seq<Entry>, y: seq<Entry>, z: seq<Entry>)
    ensures (x + y) + z == x + (y + z)
  {
  }

  lemma {:induction false} ConcatSlices(a: seq<Item>, b: seq<Item>, n: nat)
    requires n <= |b|
    ensures (a + b)[..|a| + n] == a + b[..n] && (a + b)[|a| + n..] == b[n..]
  {
  }

  lemma {:induction false} GroupStartIs(stream: seq<Item>, n: nat)
    requires n < |stream| && (forall i :: n <= i < |stream| ==> stream[i].key == stream[|stream| - 1].key)
    requires n > 0 ==> stream[n - 1].key != stream[|stream| - 1].key
    ensures GroupStart(stream) == n
  {
    hide GroupStart;
  }

  lemma {:induction false} GroupStartBehind(a: seq<Item>, b: seq<Item>)
    requires b != [] && (a != [] ==> a[|a| - 1].key != b[0].key)
    ensures GroupStart(a + b) == |a| + GroupStart(b)
  {
    hide GroupStart;
    var s, n := a + b, GroupStart(b);
    forall i | |a| + n <= i < |s| ensures s[i].key == s[|s| - 1].key {
      assert s[i] == b[i - |a|];
    }
    assert n > 0 ==> s[|a| + n - 1] == b[n - 1];
    GroupStartIs(s, |a| + n);
  }

  lemma {:induction false} OneGroup(reduce: Reduce, group: seq<Item>)
    requires group != [] && forall i :: 0 <= i < |group| ==> group[i].key == group[0].key
    ensures ReduceAll(reduce, group) == ReduceGroup(reduce, group)
  {
    hide ReduceGroup;
    var n := GroupStart(group);
    assert n == 0;
    assert group[0..] == group && group[..0] == [];
  }

  /** How a stream with empty keys lies: the empty keys, the group of the next key, and the rest. */
  ghost predicate Laid(stream: seq<Item>, empty: seq<Item>, first: seq<Item>, rest: seq<Item>)
  {
    && stream == empty + first + rest
    && (forall i :: 0 <= i < |empty| ==> empty[i].key == [])
    && (first == [] ==> rest == [])
    && (forall i :: 0 <= i < |first| ==> first[i].key == first[0].key && first[i].key != [])
    && (forall i :: 0 <= i < |rest| ==> rest[i].key != [] && rest[i].key != first[0].key)
  }

  /** The records of the empty key under another key. */
  function Rekeyed(items: seq<Item>, k: bytes): (r: seq<Item>)
    ensures |r| == |items|
  {
    seq(|items|, i requires 0 <= i < |items| => items[i].(key := k))
  }

  lemma {:induction false} AdoptLaid(stream: seq<Item>, empty: seq<Item>, first: seq<Item>, rest: seq<Item>)
    requires Laid(stream, empty, first, rest) && first != []
    ensures NextKey(stream) == first[0].key && Adopt(stream) == (Rekeyed(empty, first[0].key) + first) + rest
  {
    NextKeyEmpty(stream);
    assert stream[|empty|] == first[0];
    var p := NextKeyAt(stream);
    assert p == |empty|;
    forall i | 0 <= i < |stream| ensures Adopt(stream)[i] == ((Rekeyed(empty, first[0].key) + first) + rest)[i] {
      assert stream[i] == if i < |empty| then empty[i] else if i < |empty| + |first| then first[i - |empty|]
          else rest[i - |empty| - |first|];
    }
  }

  /** No entry is ever returned for the empty key. */
  lemma {:induction false} OutputLaid(reduce: Reduce, stream: seq<Item>, empty: seq<Item>, first: seq<Item>,
                                      rest: seq<Item>)
    requires Laid(stream, empty, first, rest) && first != []
    ensures Output(reduce, stream)
         == ReduceGroup(reduce, Rekeyed(empty, first[0].key) + first) + ReduceAll(reduce, rest)
    ensures ReduceAll(reduce, first + rest) == ReduceGroup(reduce, first) + ReduceAll(reduce, rest)
  {
    hide ReduceAll, ReduceGroup;
    AdoptLaid(stream, empty, first, rest);
    var joined := Rekeyed(empty, first[0].key) + first;
    ReduceAllConcat(reduce, joined, rest);
    ReduceAllConcat(reduce, first, rest);
    OneGroup(reduce, joined);
    OneGroup(reduce, first);
  }

  /** Two values that a reduction does not tell apart. */
  predicate Alike(reduce: Reduce, a: Value, b: Value)
  {
    Keeps(reduce, a) || Keeps(reduce, b) ==> a == b
  }

  lemma {:induction false} AlikeGroups(reduce: Reduce, a: seq<Item>, b: seq<Item>)
    requires a != [] && b != [] && a[0].key == b[0].key
    ensures ReduceGroup(reduce, a) == ReduceGroup(reduce, b) <==> Alike(reduce, Pick(a), Pick(b))
  {
    hide LatestIndex;
    var x, y := ReduceGroup(reduce, a), ReduceGroup(reduce, b);
    assert |x| == 1 ==> x[0].value == Pick(a);
    assert |y| == 1 ==> y[0].value == Pick(b);
  }

  lemma {:induction false} ReducedToNothing(reduce: Reduce, group: seq<Item>)
    requires group != []
    ensures ReduceGroup(reduce, group) == [] <==> !Keeps(reduce, Pick(group))
    ensures Keeps(reduce, Pick(group)) ==> ReduceGroup(reduce, group) == [Entry(group[0].key, Pick(group))]
  {
  }

  /** What reductions should return for a stream with empty keys. */
  lemma {:induction false} ReduceAllLaid(reduce: Reduce, stream: seq<Item>, empty: seq<Item>, first: seq<Item>,
                                         rest: seq<Item>)
    requires Laid(stream, empty, first, rest) && empty != []
    ensures ReduceAll(reduce, stream) == ReduceGroup(reduce, empty) + ReduceAll(reduce, first + rest)
  {
    hide ReduceAll, ReduceGroup;
    assert stream == empty + (first + rest);
    assert first != [] ==> (first + rest)[0] == first[0];
    ReduceAllConcat(reduce, empty, first + rest);
    OneGroup(reduce, empty);
  }

  /**
   Exactly when the iterator returns the reductions of all groups of a stream: if there is no empty key; or if the
   value chosen for the empty key is one that the reduction drops anyway, and its records do not change what is
   chosen for the next key.
   */
  lemma {:induction false} OutputIff(reduce: Reduce, stream: seq<Item>, empty: seq<Item>, first: seq<Item>,
                                     rest: seq<Item>)
    requires Laid(stream, empty, first, rest)
    ensures Output(reduce, stream) == ReduceAll(reduce, stream)
        <==> empty == [] || (&& !Keeps(reduce, Pick(empty))
                             && (first == [] || Alike(reduce, Pick(Rekeyed(empty, first[0].key) + first), Pick(first))))
  {
    hide ReduceAll, ReduceGroup, Pick, Adopt, Rekeyed, Alike, Keeps;
    if empty == [] {
      assert forall i :: 0 <= i < |stream| ==> stream[i].key != [];
      OutputPlain(reduce, stream);
    } else {
      ReduceAllLaid(reduce, stream, empty, first, rest);
      if first == [] {
        assert first + rest == [] && stream == empty;
        NextKeyEmpty(stream);
        NothingReduced(reduce, first + rest);
        ReducedToNothing(reduce, empty);
      } else {
        OutputLaid(reduce, stream, empty, first, rest);
        OutputIffJoined(reduce, empty, first, ReduceAll(reduce, rest));
      }
    }
  }

  lemma {:induction false} OutputIffJoined(reduce: Reduce, empty: seq<Item>, first: seq<Item>, rest: seq<Entry>)
    requires empty != [] && first != [] && empty[0].key == [] && first[0].key != []
    ensures var joined := Rekeyed(empty, first[0].key) + first;
            ReduceGroup(reduce, joined) + rest == ReduceGroup(reduce, empty) + (ReduceGroup(reduce, first) + rest)
            <==> !Keeps(reduce, Pick(empty)) && Alike(reduce, Pick(joined), Pick(first))
  {
    hide LatestIndex, Keeps;
    var joined := Rekeyed(empty, first[0].key) + first;
    assert joined[0].key == first[0].key;
    AlikeGroups(reduce, joined, first);
    var x, y, e := ReduceGroup(reduce, joined), ReduceGroup(reduce, first), ReduceGroup(reduce, empty);
    if e == [] {
      assert e + (y + rest) == y + rest;
      if x + rest == y + rest {
        assert |x| == |y|;
        assert x == (x + rest)[..|x|] == (y + rest)[..|y|] == y;
      }
    } else {
      assert x + rest != e + (y + rest) by {
        if |x| == 1 {
          assert (x + rest)[0] == x[0] && (e + (y + rest))[0] == e[0];
        } else {
          assert |x + rest| == |rest|;
        }
      }
    }
  }

  /** Every sorted stream lies so. */
  lemma {:induction false} StreamLaid(stream: seq<Item>) returns (empty: seq<Item>, first: seq<Item>, rest: seq<Item>)
    requires SortedItems(stream)
    ensures Laid(stream, empty, first, rest)
  {
    hide Less, SortedItems, NextKey;
    NextKeyEmpty(stream);
    if NextKey(stream) == [] {
      empty, first, rest := stream, [], [];
      assert stream == empty + first + rest;
    } else {
      var p := NextKeyAt(stream);
      var q := p + 1;
      while q < |stream| && stream[q].key == stream[p].key
        invariant p < q <= |stream| && forall i :: p <= i < q ==> stream[i].key == stream[p].key
      {
        q := q + 1;
      }
      empty, first, rest := stream[..p], stream[p..q], stream[q..];
      assert stream == empty + first + rest;
      forall i | 0 <= i < |rest| ensures rest[i].key != [] && rest[i].key != first[0].key {
        BehindGroup(stream, p, q, q + i);
      }
    }
  }

  lemma {:induction false} BehindGroup(stream: seq<Item>, p: nat, q: nat, j: nat)
    requires SortedItems(stream) && p < q <= j < |stream| && stream[q].key != stream[p].key && stream[p].key != []
    ensures stream[j].key != stream[p].key && stream[j].key != []
  {
    EmptyIsLeast(stream[p].key, stream[j].key);
    hide Less;
    LessTrichotomy(stream[p].key, stream[q].key);
    LessTrichotomy(stream[q].key, stream[j].key);
    LessTrichotomy(stream[p].key, stream[j].key);
    if stream[q].key != stream[j].key {
      LessTransitive(stream[p].key, stream[q].key, stream[j].key);
    }
  }

  /**
   An empty key corrupts its neighbour: with equal contexts its value is returned for the key behind it, whatever that
   is.
   */
  lemma {:induction false} EmptyKeyCorruptsNeighbour(reduce: Reduce, v: Value, k: bytes, w: Value, ctx: int)
    requires k != [] && Keeps(reduce, v) && Keeps(reduce, w)
    ensures var stream := [Item([], v, ctx), Item(k, w, ctx)];
            && SortedItems(stream)
            && ReduceAll(reduce, stream) == [Entry([], v), Entry(k, w)]
            && Output(reduce, stream) == [Entry(k, v)]
  {
    hide LatestIndex, ReduceAll, Pick, ReduceGroup, Output, SortedItems, Laid, Leq, Contexts, Values, Keeps;
    var a, b := Item([], v, ctx), Item(k, w, ctx);
    TwoLaid(a, b);
    ReduceAllLaid(reduce, [a, b], [a], [b], []);
    OutputLaid(reduce, [a, b], [a], [b], []);
    NothingReduced(reduce, []);
    var joined := Rekeyed([a], k) + [b];
    assert joined[0] == Item(k, v, ctx) && joined[1] == b;
    FirstOfEqual([a]);
    FirstOfEqual([b]);
    FirstOfEqual(joined);
    ReducedToNothing(reduce, [a]);
    ReducedToNothing(reduce, [b]);
    ReducedToNothing(reduce, joined);
  }

  lemma {:induction false} TwoLaid(a: Item, b: Item)
    requires a.key == [] && b.key != []
    ensures SortedItems([a, b]) && Laid([a, b], [a], [b], [])
  {
    assert [a, b] == [a] + [b] + [];
  }

  /** Of equal contexts the first one is chosen. */
  lemma {:induction false} FirstOfEqual(group: seq<Item>)
    requires group != [] && forall i :: 0 <= i < |group| ==> group[i].ctx == group[0].ctx
    ensures Pick(group) == group[0].value
  {
    FirstContext(Contexts(group));
  }

  lemma {:induction false} FirstContext(c: seq<int>)
    requires c != [] && forall i :: 0 <= i < |c| ==> c[i] == c[0]
    ensures LatestIndex(c) == (if c[0] > 0 then c[0] else 0, 0)
  {
    var n := |c| - 1;
    if n > 0 {
      FirstContext(c[..n]);
    } else {
      assert c[..n] == [];
    }
  }

  // ---------- the iterator ----------

  ghost predicate AllAbove(items: seq<Item>, rest: multiset<Item>)
  {
    forall i, x :: 0 <= i < |items| && x in rest ==> Leq(items[i].key, x.key)
  }

  /** The queue hands out a sorted permutation: what it took, what is left, and what there is in all. */
  ghost predicate Sorting(consumed: seq<Item>, rest: multiset<Item>, total: multiset<Item>)
  {
    SortedItems(consumed) && AllAbove(consumed, rest) && multiset(consumed) + rest == total
  }

  lemma {:induction false} SortingStarts(total: multiset<Item>)
    ensures Sorting([], total, total)
  {
  }

  lemma {:induction false} SortingGrows(consumed: seq<Item>, rest: multiset<Item>, x: Item, total: multiset<Item>)
    requires Sorting(consumed, rest, total)
    requires x in rest && forall y :: y in rest ==> Leq(x.key, y.key)
    ensures Sorting(consumed + [x], rest - multiset{x}, total)
    ensures |rest - multiset{x}| < |rest|
  {
    hide Leq;
    assert multiset(consumed + [x]) == multiset(consumed) + multiset{x};
  }

  lemma {:induction false} SortingEnds(consumed: seq<Item>, total: multiset<Item>)
    requires Sorting(consumed, multiset{}, total)
    ensures SortedItems(consumed) && multiset(consumed) == total
  {
  }

  /** The group being accumulated, and what has been returned for the groups before it. */
  ghost predicate GroupBuffered(reduce: Reduce, stream: seq<Item>, prevKey: Option<bytes>, values: seq<Value>,
                                contexts: seq<int>, emitted: seq<Entry>)
  {
    && stream != []
    && var n := GroupStart(stream);
    && prevKey == Some(stream[|stream| - 1].key)
    && values == Values(stream[n..]) && contexts == Contexts(stream[n..])
    && emitted == ReduceAll(reduce, stream[..n])
  }

  /** The buffers of the iterator: before the first key that is not nil everything is accumulated as one group. */
  ghost predicate Buffering(reduce: Reduce, consumed: seq<Item>, prevKey: Option<bytes>, values: seq<Value>,
                            contexts: seq<int>, emitted: seq<Entry>)
  {
    if NextKey(consumed) == [] then
      prevKey == None && values == Values(consumed) && contexts == Contexts(consumed) && emitted == []
    else GroupBuffered(reduce, Adopt(consumed), prevKey, values, contexts, emitted)
  }

  lemma {:induction false} GroupContinues(reduce: Reduce, stream: seq<Item>, prevKey: Option<bytes>, values: seq<Value>,
                                          contexts: seq<int>, emitted: seq<Entry>, x: Item)
    requires GroupBuffered(reduce, stream, prevKey, values, contexts, emitted) && prevKey == Some(x.key)
    ensures GroupBuffered(reduce, stream + [x], prevKey, values + [x.value], contexts + [x.ctx], emitted)
  {
    hide ReduceAll, GroupStart;
    SameGroup(stream, x);
  }

  lemma {:induction false} GroupStarts(reduce: Reduce, stream: seq<Item>, prevKey: Option<bytes>, values: seq<Value>,
                                       contexts: seq<int>, emitted: seq<Entry>, x: Item, reduced: seq<Entry>)
    requires GroupBuffered(reduce, stream, prevKey, values, contexts, emitted) && prevKey != Some(x.key)
    requires reduced == ReduceGroup(reduce, stream[GroupStart(stream)..])
    ensures GroupBuffered(reduce, stream + [x], Some(x.key), [x.value], [x.ctx], emitted + reduced)
  {
    hide GroupStart, ReduceGroup;
    NewGroup(stream, x);
  }

  lemma {:induction false} AdoptGrows(stream: seq<Item>, x: Item)
    requires NextKey(stream) != [] && x.key != []
    ensures NextKey(stream + [x]) == NextKey(stream) && Adopt(stream + [x]) == Adopt(stream) + [x]
  {
    NextKeyGrows(stream, x);
  }

  /** A record of the empty key joins the others. */
  lemma {:induction false} EmptyContinues(reduce: Reduce, consumed: seq<Item>, prevKey: Option<bytes>,
                                          values: seq<Value>, contexts: seq<int>, emitted: seq<Entry>, x: Item)
    requires Buffering(reduce, consumed, prevKey, values, contexts, emitted) && NextKey(consumed) == [] == x.key
    ensures Buffering(reduce, consumed + [x], None, values + [x.value], contexts + [x.ctx], emitted)
  {
    NextKeyGrows(consumed, x);
  }

  /** The first other key adopts them. */
  lemma {:induction false} KeyArrives(reduce: Reduce, consumed: seq<Item>, prevKey: Option<bytes>, values: seq<Value>,
                                      contexts: seq<int>, emitted: seq<Entry>, x: Item)
    requires Buffering(reduce, consumed, prevKey, values, contexts, emitted) && NextKey(consumed) == [] != x.key
    ensures Buffering(reduce, consumed + [x], Some(x.key), values + [x.value], contexts + [x.ctx], emitted)
  {
    var grown := consumed + [x];
    NextKeyGrows(consumed, x);
    NextKeyEmpty(consumed);
    var a := Adopt(grown);
    assert forall i :: 0 <= i < |a| ==> a[i].key == x.key;
    assert GroupStart(a) == 0;
    assert a[0..] == a && a[..0] == [];
    assert Values(a) == values + [x.value] && Contexts(a) == contexts + [x.ctx];
  }

  /** Go's nil and empty slices: an empty key read from a table file is nil. */
  function KeySlice(k: bytes): Option<bytes>
  {
    if k == [] then None else Some(k)
  }

  /** Iterates over the reductions of the groups of the merged sources. */
  class MergeCompactionIterator {
    const reduce: Reduce
    const queue: PriorityQueue
    var prevKey: Option<bytes>
    var valBuf: seq<Value>
    var ctxBuf: seq<int>
    ghost var consumed: seq<Item>      // everything taken from the queue so far
    ghost var emitted: seq<Entry>      // everything returned so far
    ghost const total: multiset<Item>  // everything the sources hold

    ghost predicate Buffered()
      reads this
    {
      Buffering(reduce, consumed, prevKey, valBuf, ctxBuf, emitted)
    }

    /** After the last group was returned. */
    ghost predicate Drained()
      reads this, queue
    {
      valBuf == [] && emitted == Output(reduce, consumed) && Remaining(queue.heap) == multiset{}
    }

    ghost predicate Valid()
      reads this, queue
    {
      && queue.Valid()
      && Sorting(consumed, Remaining(queue.heap), total)
      && (Buffered() || Drained())
    }

    constructor (sources: seq<Source>, reduce: Reduce)
      requires SortedSources(sources)
      ensures Valid() && emitted == [] && total == AllItems(sources) && this.reduce == reduce && fresh(queue)
    {
      hide Sorting, AllItems, SortedSources, HeapOrder, AllSorted, Remaining;
      var q := new PriorityQueue(sources);
      this.reduce, queue, prevKey, valBuf, ctxBuf := reduce, q, None, [], [];
      consumed, emitted, total := [], [], AllItems(sources);
      SortingStarts(AllItems(sources));
    }

    /** The reduced value of the accumulated group, or nothing; a nil key counts as nothing. */
    method ReduceBuffer() returns (r: Option<Entry>)
      requires Buffered() && consumed != []
      ensures prevKey.None? <==> NextKey(consumed) == []
      ensures prevKey.None? ==> r.None?
      ensures prevKey.Some? ==>
        var a := Adopt(consumed); (if r.Some? then [r.value] else []) == ReduceGroup(reduce, a[GroupStart(a)..])
    {
      hide LatestIndex, NextKey, ReduceAll;
      var v := ScanReduceLatestWins(valBuf, ctxBuf);
      if prevKey.None? || v.None? || (reduce.LatestWinsSkipTombstones? && v.value == []) {
        return None;
      }
      return Some(Entry(prevKey.value, v));
    }

    /** Adds a record to its group; a record of another key completes the group before it, unless its key was nil. */
    method Take(x: Item) returns (r: Option<Entry>)
      requires Buffered() && (NextKey(consumed) != [] ==> x.key != [])
      modifies this
      ensures Buffered() && consumed == old(consumed) + [x]
      ensures emitted == old(emitted) + if r.Some? then [r.value] else []
    {
      hide Buffering, ReduceGroup, GroupStart, NextKey, Adopt, GroupBuffered;
      BufferedKey(reduce, consumed, prevKey, valBuf, ctxBuf, emitted);
      r := None;
      if prevKey.Some? {
        AdoptGrows(consumed, x);
        Unbuffered(reduce, consumed, prevKey, valBuf, ctxBuf, emitted);
      }
      if prevKey.Some? && Compare(x.key, prevKey.value) != 0 {
        r := ReduceBuffer();
        GroupStarts(reduce, Adopt(consumed), prevKey, valBuf, ctxBuf, emitted, x, if r.Some? then [r.value] else []);
        valBuf, ctxBuf := [], [];
      } else if prevKey.Some? {
        GroupContinues(reduce, Adopt(consumed), prevKey, valBuf, ctxBuf, emitted, x);
      } else if x.key == [] {
        EmptyContinues(reduce, consumed, prevKey, valBuf, ctxBuf, emitted, x);
      } else {
        KeyArrives(reduce, consumed, prevKey, valBuf, ctxBuf, emitted, x);
      }
      assert emitted + [] == emitted && [] + [x.value] == [x.value] && [] + [x.ctx] == [x.ctx];
      if prevKey.Some? {
        Rebuffered(reduce, consumed + [x], Some(x.key), valBuf + [x.value], ctxBuf + [x.ctx],
                   emitted + if r.Some? then [r.value] else []);
      }
      prevKey, valBuf, ctxBuf := KeySlice(x.key), valBuf + [x.value], ctxBuf + [x.ctx];
      consumed := consumed + [x];
      emitted := emitted + if r.Some? then [r.value] else [];
    }

    /** Returns the reduction of the last group, once. */
    method Finish() returns (r: Option<Entry>)
      requires (Buffered() || Drained()) && Remaining(queue.heap) == multiset{}
      modifies this
      ensures (Buffered() || Drained()) && consumed == old(consumed)
      ensures r.Some? ==> emitted == old(emitted) + [r.value] && |valBuf| < old(|valBuf|)
      ensures r.None? ==> emitted == old(emitted) == Output(reduce, consumed)
    {
      hide Buffering, ReduceGroup, GroupStart, Output, NextKey, Adopt;
      if |valBuf| > 0 {
        BufferedSomething(reduce, consumed, prevKey, valBuf, ctxBuf, emitted);
        r := ReduceBuffer();
        if r.Some? {
          valBuf := [];
          emitted := emitted + [r.value];
          return;
        }
      } else {
        NothingBuffered();
      }
      return None;
    }

    lemma {:induction false} NothingBuffered()
      requires (Buffered() || Drained()) && valBuf == []
      ensures emitted == Output(reduce, consumed)
    {
    }

    /**
     Returns the reduction of the next group that the reduction keeps. At the end, everything the sources hold
     has been consumed in order, and exactly the output for that stream has been returned.
     */
    method Next() returns (r: Option<Entry>)
      requires Valid()
      modifies this, queue
      ensures Valid()
      ensures r.Some? ==> emitted == old(emitted) + [r.value]
      ensures r.Some? ==> |Remaining(queue.heap)| < old(|Remaining(queue.heap)|)
                          || (|Remaining(queue.heap)| == old(|Remaining(queue.heap)|) && |valBuf| < old(|valBuf|))
      ensures r.None? ==> emitted == old(emitted) == Output(reduce, consumed)
      ensures r.None? ==> SortedItems(consumed) && multiset(consumed) == total
    {
      hide Sorting, Buffering, HeapOrder, AllSorted, Remaining, Filled, Output, SortedItems, Leq, NextKey;
      r := None;
      while r.None?
        invariant Valid()
        invariant r.None? ==> emitted == old(emitted) && |Remaining(queue.heap)| <= old(|Remaining(queue.heap)|)
        invariant r.None? && |Remaining(queue.heap)| == old(|Remaining(queue.heap)|) ==> valBuf == old(valBuf)
        invariant r.Some? ==>
                    emitted == old(emitted) + [r.value] && |Remaining(queue.heap)| < old(|Remaining(queue.heap)|)
        decreases |Remaining(queue.heap)|, r.None?
      {
        ghost var rest := Remaining(queue.heap);
        var next := queue.Next();
        if next.None? {
          r := Finish();
          SortingEnds(consumed, total);
          return;
        }
        SortingGrows(consumed, rest, next.value, total);
        KeyOfRecord(consumed, rest, next.value, total);
        r := Take(next.value);
      }
    }
  }

  /** At every moment, what was returned has ascending keys, and its keys and values are those of the sources. */
  lemma {:induction false} EmittedSoFar(it: MergeCompactionIterator)
    requires it.Valid()
    ensures KeysAscend(it.emitted)
    ensures forall e :: e in it.emitted ==> FromRecords(it.total, e)
  {
    hide AllAbove, KeysAscend, ReduceAll, Leq, Filled, HeapOrder, AllSorted, Remaining, GroupStart, NextKey;
    var n := EmittedPrefix(it);
    AdoptSorted(it.consumed);
    var a := Adopt(it.consumed);
    PrefixSorted(a, n);
    ReduceAllAscends(it.reduce, a[..n]);
    forall e | e in it.emitted ensures FromRecords(it.total, e) {
      var i :| 0 <= i < |it.emitted| && it.emitted[i] == e;
      var j := ReducedFrom(it.reduce, a[..n], i);
      var p := KeyOfAdopted(it.consumed, j);
      assert it.consumed[j] in multiset(it.consumed) && it.consumed[p] in multiset(it.consumed);
      assert it.consumed[j] in it.total && it.consumed[j].value == e.value;
      assert it.consumed[p] in it.total && it.consumed[p].key == e.key;
    }
  }

  /** Key and value of an entry are those of records, of two records if the key is adopted. */
  ghost predicate FromRecords(records: multiset<Item>, e: Entry)
  {
    (exists x :: x in records && x.value == e.value) && (exists x :: x in records && x.key == e.key)
  }

  lemma {:induction false} KeyOfAdopted(stream: seq<Item>, j: nat) returns (p: nat)
    requires j < |stream|
    ensures p < |stream| && stream[p].key == Adopt(stream)[j].key && Adopt(stream)[j].value == stream[j].value
  {
    p := j;
    if stream[j].key == [] && NextKey(stream) != [] {
      p := NextKeyAt(stream);
    }
  }

  lemma {:induction false} PrefixSorted(items: seq<Item>, n: nat)
    requires SortedItems(items) && n <= |items|
    ensures SortedItems(items[..n])
  {
    hide Leq;
  }

  lemma {:induction false} EmittedPrefix(it: MergeCompactionIterator) returns (n: nat)
    requires it.Buffered() || it.Drained()
    ensures n <= |it.consumed| && it.emitted == ReduceAll(it.reduce, Adopt(it.consumed)[..n])
  {
    hide NextKey;
    var a := Adopt(it.consumed);
    if NextKey(it.consumed) == [] {
      n := 0;
      assert a[..0] == [];
    } else if it.Buffered() {
      n := GroupStart(a);
    } else {
      n := |it.consumed|;
      assert a[..n] == a;
    }
  }

  ghost predicate NonEmptyKeys(records: multiset<Item>)
  {
    forall x :: x in records ==> x.key != []
  }

  /** Behind a key that is not empty, no empty key comes. */
  lemma {:induction false} KeyOfRecord(consumed: seq<Item>, rest: multiset<Item>, x: Item, total: multiset<Item>)
    requires Sorting(consumed, rest, total) && x in rest
    ensures NextKey(consumed) != [] ==> x.key != []
  {
    hide Less;
    if NextKey(consumed) != [] {
      var p := NextKeyAt(consumed);
      EmptyIsLeast(consumed[p].key, x.key);
    }
  }

  lemma {:induction false} BufferedKey(reduce: Reduce, consumed: seq<Item>, prevKey: Option<bytes>, values: seq<Value>,
                                       contexts: seq<int>, emitted: seq<Entry>)
    requires Buffering(reduce, consumed, prevKey, values, contexts, emitted)
    ensures prevKey.None? <==> NextKey(consumed) == []
    ensures prevKey.Some? ==> consumed != []
  {
  }

  lemma {:induction false} Unbuffered(reduce: Reduce, consumed: seq<Item>, prevKey: Option<bytes>, values: seq<Value>,
                                      contexts: seq<int>, emitted: seq<Entry>)
    requires Buffering(reduce, consumed, prevKey, values, contexts, emitted) && prevKey.Some?
    ensures GroupBuffered(reduce, Adopt(consumed), prevKey, values, contexts, emitted)
  {
  }

  lemma {:induction false} Rebuffered(reduce: Reduce, consumed: seq<Item>, prevKey: Option<bytes>, values: seq<Value>,
                                      contexts: seq<int>, emitted: seq<Entry>)
    requires GroupBuffered(reduce, Adopt(consumed), prevKey, values, contexts, emitted) && NextKey(consumed) != []
    ensures Buffering(reduce, consumed, prevKey, values, contexts, emitted)
  {
  }

  /** The accumulated group completes what the stream reduces to. */
  lemma {:induction false} BufferedSomething(reduce: Reduce, consumed: seq<Item>, prevKey: Option<bytes>,
                                             values: seq<Value>, contexts: seq<int>, emitted: seq<Entry>)
    requires Buffering(reduce, consumed, prevKey, values, contexts, emitted) && values != []
    ensures consumed != []
    ensures Output(reduce, consumed)
         == emitted + if prevKey.None? then [] else var a := Adopt(consumed); ReduceGroup(reduce, a[GroupStart(a)..])
  {
    hide NextKey, ReduceGroup, GroupStart;
  }

  // ---------- merging whole tables ----------

  /** No source holds an empty key. */
  ghost predicate KeyedSources(sources: seq<Source>)
  {
    forall i, e :: 0 <= i < |sources| && e in sources[i].entries ==> e.key != []
  }

  /** What the merge asks of its inputs: strictly sorted entries, and distinct non-negative contexts. */
  ghost predicate GoodSources(sources: seq<Source>)
  {
    && (forall i :: 0 <= i < |sources| ==> sources[i].ctx >= 0 && KeysAscend(sources[i].entries))
    && (forall i, j :: 0 <= i < j < |sources| ==> sources[i].ctx != sources[j].ctx)
  }

  /** Of the sources that have the key, source i has the greatest context. */
  ghost predicate Decides(sources: seq<Source>, i: nat, k: bytes)
  {
    && i < |sources| && k in AsTable(sources[i].entries)
    && forall j :: 0 <= j < |sources| && k in AsTable(sources[j].entries) ==> sources[j].ctx <= sources[i].ctx
  }

  /** An entry of the source that decides its key. */
  ghost predicate Survives(sources: seq<Source>, e: Entry)
  {
    exists i: nat :: Decides(sources, i, e.key) && AsTable(sources[i].entries)[e.key] == e.value
  }

  ghost predicate FromSource(s: Source, x: Item)
  {
    x.ctx == s.ctx && Entry(x.key, x.value) in s.entries
  }

  lemma {:induction false} ItemsAre(s: Source, x: Item)
    ensures x in Items(s) <==> FromSource(s, x)
    decreases |s.entries|
  {
    if x in Items(s) {
      ItemsMember(s, x);
    }
    if FromSource(s, x) && s.entries[0] != Entry(x.key, x.value) {
      ItemsAre(Source(s.ctx, s.entries[1..]), x);
    }
  }

  lemma {:induction false} AllItemsAre(sources: seq<Source>, x: Item)
    ensures x in AllItems(sources) <==> exists i :: 0 <= i < |sources| && FromSource(sources[i], x)
  {
    hide FromSource, Items;
    if sources != [] {
      var n := |sources| - 1;
      AllItemsAre(sources[..n], x);
      ItemsAre(sources[n], x);
      if x in AllItems(sources[..n]) {
        var i :| 0 <= i < n && FromSource(sources[..n][i], x);
        assert sources[i] == sources[..n][i];
      }
      forall i | 0 <= i < |sources| && FromSource(sources[i], x) ensures x in AllItems(sources) {
        if i < n {
          assert sources[..n][i] == sources[i];
        }
      }
    }
  }

  lemma {:induction false} EntryInTable(es: seq<Entry>, e: Entry)
    requires KeysAscend(es)
    ensures e in es <==> e.key in AsTable(es) && AsTable(es)[e.key] == e.value
  {
    hide AsTable, KeysAscend;
    AsTableHas(es, e.key);
    if e in es {
      var i :| 0 <= i < |es| && es[i] == e;
      AsTableAt(es, i);
    }
    if e.key in AsTable(es) {
      var i :| 0 <= i < |es| && es[i].key == e.key;
      AsTableAt(es, i);
      assert es[i].key == e.key;
    }
  }

  lemma {:induction false} SourcesSorted(sources: seq<Source>)
    requires GoodSources(sources)
    ensures SortedSources(sources)
  {
    hide Less;
    forall i | 0 <= i < |sources| ensures SortedEntries(sources[i].entries) {
      var es := sources[i].entries;
      forall a, b | 0 <= a < b < |es| ensures Leq(es[a].key, es[b].key) {
        LessTrichotomy(es[a].key, es[b].key);
      }
    }
  }

  lemma {:induction false} SameKeySameValue(sources: seq<Source>, x: Item, y: Item)
    requires GoodSources(sources) && x in AllItems(sources) && y in AllItems(sources) && x.key == y.key
    requires x.ctx == y.ctx
    ensures x.value == y.value
  {
    hide AllItems, AsTable;
    AllItemsAre(sources, x);
    AllItemsAre(sources, y);
    var i :| 0 <= i < |sources| && FromSource(sources[i], x);
    var j :| 0 <= j < |sources| && FromSource(sources[j], y);
    hide KeysAscend;
    assert i == j;
    EntryInTable(sources[i].entries, Entry(x.key, x.value));
    EntryInTable(sources[i].entries, Entry(y.key, y.value));
  }

  lemma {:induction false} GoodRecords(sources: seq<Source>)
    requires GoodSources(sources)
    ensures OneValuePerContext(AllItems(sources)) && (KeyedSources(sources) ==> NonEmptyKeys(AllItems(sources)))
  {
    hide AllItems, AsTable, KeysAscend;
    forall x | x in AllItems(sources) ensures x.ctx >= 0 && (KeyedSources(sources) ==> x.key != []) {
      AllItemsAre(sources, x);
      var i :| 0 <= i < |sources| && FromSource(sources[i], x);
    }
    forall x, y | x in AllItems(sources) && y in AllItems(sources) && x.key == y.key && x.ctx == y.ctx
      ensures x.value == y.value {
      SameKeySameValue(sources, x, y);
    }
  }

  lemma {:induction false} RecordOfTable(sources: seq<Source>, i: nat, k: bytes) returns (x: Item)
    requires GoodSources(sources) && i < |sources| && k in AsTable(sources[i].entries)
    ensures x in AllItems(sources) && x == Item(k, AsTable(sources[i].entries)[k], sources[i].ctx)
  {
    hide AllItems, AsTable, KeysAscend;
    x := Item(k, AsTable(sources[i].entries)[k], sources[i].ctx);
    EntryInTable(sources[i].entries, Entry(k, x.value));
    AllItemsAre(sources, x);
    assert FromSource(sources[i], x);
  }

  lemma {:induction false} TableOfRecord(sources: seq<Source>, x: Item) returns (i: nat)
    requires GoodSources(sources) && x in AllItems(sources)
    ensures i < |sources| && x.key in AsTable(sources[i].entries)
    ensures x == Item(x.key, AsTable(sources[i].entries)[x.key], sources[i].ctx)
  {
    hide AllItems, AsTable, KeysAscend;
    AllItemsAre(sources, x);
    i :| 0 <= i < |sources| && FromSource(sources[i], x);
    EntryInTable(sources[i].entries, Entry(x.key, x.value));
  }

  /** The latest record of a key comes from the source that decides the key, and the other way round. */
  lemma {:induction false} LatestSurvives(sources: seq<Source>, e: Entry)
    requires GoodSources(sources)
    ensures Survives(sources, e) <==> exists x :: IsLatest(AllItems(sources), x) && x.key == e.key && x.value == e.value
  {
    hide AllItems, AsTable, GoodSources;
    if Survives(sources, e) {
      var i: nat :| Decides(sources, i, e.key) && AsTable(sources[i].entries)[e.key] == e.value;
      var x := RecordOfTable(sources, i, e.key);
      forall y | y in AllItems(sources) && y.key == x.key ensures y.ctx <= x.ctx {
        var j := TableOfRecord(sources, y);
      }
      assert IsLatest(AllItems(sources), x);
    }
    forall x | IsLatest(AllItems(sources), x) && x.key == e.key && x.value == e.value ensures Survives(sources, e) {
      var i := TableOfRecord(sources, x);
      forall j | 0 <= j < |sources| && e.key in AsTable(sources[j].entries) ensures sources[j].ctx <= sources[i].ctx {
        var y := RecordOfTable(sources, j, e.key);
      }
      assert Decides(sources, i, e.key);
    }
  }

  /** The entries that a merge with reduction is to return. */
  ghost predicate Merged(reduce: Reduce, sources: seq<Source>, out: seq<Entry>)
  {
    forall e :: e in out <==> Keeps(reduce, e.value) && Survives(sources, e)
  }

  /** What a drained iterator has returned, in terms of its sources. */
  lemma {:induction false} ReducedSources(reduce: Reduce, sources: seq<Source>, stream: seq<Item>)
    requires GoodSources(sources) && SortedItems(stream) && multiset(stream) == AllItems(sources)
    ensures KeysAscend(Output(reduce, stream)) && Merged(reduce, sources, ReduceAll(reduce, stream))
    ensures KeyedSources(sources) ==> Output(reduce, stream) == ReduceAll(reduce, stream)
  {
    hide SortedItems, GoodSources, OneValuePerContext, KeysAscend, ReduceAll, Keeps, Survives, IsLatest, AllItems,
         Output, KeyedSources;
    GoodRecords(sources);
    OutputAscends(reduce, stream);
    forall e ensures e in ReduceAll(reduce, stream) <==> Keeps(reduce, e.value) && Survives(sources, e) {
      ReduceAllMembers(reduce, stream, e);
      LatestSurvives(sources, e);
    }
    if KeyedSources(sources) {
      assert forall i :: 0 <= i < |stream| ==> stream[i] in multiset(stream);
      OutputPlain(reduce, stream);
    }
  }

  /**
   The merge with reduction. Always: strictly ascending keys, and exactly the output for the sorted stream of all
   records. Without empty keys: exactly the surviving entries whose value the reduction keeps. The returned entries
   are what the code hands to the table writer, one WriteNext call each.
   */
  method MergeCompact(sources: seq<Source>, reduce: Reduce) returns (out: seq<Entry>, ghost stream: seq<Item>)
    requires GoodSources(sources)
    ensures KeysAscend(out)
    ensures SortedItems(stream) && multiset(stream) == AllItems(sources) && out == Output(reduce, stream)
    ensures KeyedSources(sources) ==> Merged(reduce, sources, out)
  {
    hide SortedItems, GoodSources, KeysAscend, Output, AllItems, Remaining, SortedSources, Sorting, Merged,
         KeyedSources, ReduceAll, MergeCompactionIterator.Valid;
    SourcesSorted(sources);
    var it := new MergeCompactionIterator(sources, reduce);
    out := [];
    var more := true;
    while more
      invariant it.Valid() && fresh(it) && fresh(it.queue) && it.total == AllItems(sources) && it.reduce == reduce
      invariant it.emitted == out
      invariant !more ==> out == Output(reduce, it.consumed)
      invariant !more ==> SortedItems(it.consumed) && multiset(it.consumed) == AllItems(sources)
      decreases more, |Remaining(it.queue.heap)|, |it.valBuf|
    {
      var next := it.Next();
      if next.None? {
        more := false;
      } else {
        out := out + [next.value];
      }
    }
    stream := it.consumed;
    ReducedSources(reduce, sources, stream);
  }

  /** The merge without reduction: a sorted permutation of all records, each with the context of its own source. */
  method MergeAll(sources: seq<Source>) returns (out: seq<Item>)
    requires SortedSources(sources)
    ensures SortedItems(out) && multiset(out) == AllItems(sources)
  {
    hide SortedItems, AllItems, Remaining, SortedSources, Sorting, HeapOrder, AllSorted, Leq;
    var queue := new PriorityQueue(sources);
    out := [];
    SortingStarts(AllItems(sources));
    var more := true;
    while more
      invariant queue.Valid() && fresh(queue) && Sorting(out, Remaining(queue.heap), AllItems(sources))
      invariant !more ==> Remaining(queue.heap) == multiset{}
      decreases more, |Remaining(queue.heap)|
    {
      ghost var rest := Remaining(queue.heap);
      var next := queue.Next();
      if next.None? {
        more := false;
      } else {
        SortingGrows(out, rest, next.value, AllItems(sources));
        out := out + [next.value];
      }
    }
    SortingEnds(out, AllItems(sources));
  }
}
