/**
 Lists of open tables. Every table lives in a directory named after its generation; the list is kept oldest
 first, and the same list type also describes the directory listing in name order.
 */
module Readers {
  import opened Tables

  datatype Reader = Reader(gen: nat, table: Table)

  function Contents(rs: seq<Reader>): seq<Table>
  {
    seq(|rs|, i requires 0 <= i < |rs| => rs[i].table)
  }

  function Gens(rs: seq<Reader>): seq<nat>
  {
    seq(|rs|, i requires 0 <= i < |rs| => rs[i].gen)
  }

  /** The override of all listed tables, oldest first. */
  function Stack(rs: seq<Reader>): Table
  {
    Merge(Contents(rs))
  }

  ghost predicate Ascending(rs: seq<Reader>)
  {
    forall i, j :: 0 <= i < j < |rs| ==> rs[i].gen < rs[j].gen
  }

  /** `indexOfReader`: the first reader with the given name, or a negative number. */
  function IndexOf(rs: seq<Reader>, g: nat): (i: int)
    ensures -1 <= i < |rs|
    ensures i >= 0 ==> rs[i].gen == g && forall j :: 0 <= j < i ==> rs[j].gen != g
    ensures i < 0 ==> forall j :: 0 <= j < |rs| ==> rs[j].gen != g
  {
    if rs == [] then -1
    else if rs[0].gen == g then 0
    else var i := IndexOf(rs[1..], g); if i < 0 then -1 else i + 1
  }

  /** Removing the reader (or directory) of one generation; nothing happens when there is none. */
  function Remove(rs: seq<Reader>, g: nat): seq<Reader>
  {
    var i := IndexOf(rs, g);
    if i < 0 then rs else rs[..i] + rs[i + 1..]
  }

  function RemoveEach(rs: seq<Reader>, gs: seq<nat>): seq<Reader>
  {
    if gs == [] then rs else RemoveEach(Remove(rs, gs[0]), gs[1..])
  }

  /** A directory appearing in a listing: it takes its place in name order. */
  function Insert(rs: seq<Reader>, r: Reader): seq<Reader>
  {
    if rs == [] || r.gen < rs[0].gen then [r] + rs else [rs[0]] + Insert(rs[1..], r)
  }

  /**
   What a finished compaction does to the reader list: the merged table replaces the first of the run, the others go.
   */
  function ReplaceRun(rs: seq<Reader>, run: seq<nat>, merged: Table): seq<Reader>
    requires run != []
  {
    var i := IndexOf(rs, run[0]);
    RemoveEach(if i < 0 then rs else rs[i := Reader(run[0], merged)], run[1..])
  }

  lemma {:induction false} StackConcat(a: seq<Reader>, b: seq<Reader>)
    ensures Stack(a + b) == Stack(a) + Stack(b)
  {
    assert Contents(a + b) == Contents(a) + Contents(b);
    MergeConcat(Contents(a), Contents(b));
  }

  lemma {:induction false} StackSingle(r: Reader)
    ensures Stack([r]) == r.table
  {
    assert Contents([r]) == [r.table];
    MergeSingle(r.table);
  }

  lemma {:induction false} IndexOfAscending(rs: seq<Reader>, i: nat)
    requires Ascending(rs) && i < |rs|
    ensures IndexOf(rs, rs[i].gen) == i
  {
  }

  lemma {:induction false} RemoveSplit(a: seq<Reader>, r: Reader, b: seq<Reader>)
    requires Ascending(a + [r] + b)
    ensures Remove(a + [r] + b, r.gen) == a + b
    ensures Ascending(a + b)
  {
    var rs := a + [r] + b;
    assert rs[|a|] == r;
    IndexOfAscending(rs, |a|);
    assert rs[..|a|] == a && rs[|a| + 1..] == b;
    assert forall i :: 0 <= i < |a + b| ==> (a + b)[i] == rs[if i < |a| then i else i + 1];
  }

  lemma {:induction false} RemoveEachSplit(a: seq<Reader>, run: seq<Reader>, b: seq<Reader>)
    requires Ascending(a + run + b)
    ensures RemoveEach(a + run + b, Gens(run)) == a + b
    ensures Ascending(a + b)
  {
    if run == [] {
      assert a + run + b == a + b;
    } else {
      var rest := run[1..];
      assert a + run + b == a + [run[0]] + (rest + b);
      RemoveSplit(a, run[0], rest + b);
      assert a + (rest + b) == a + rest + b;
      assert Gens(run)[1..] == Gens(rest);
      RemoveEachSplit(a, rest, b);
    }
  }

  lemma {:induction false} RemoveEachSnoc(rs: seq<Reader>, gs: seq<nat>, g: nat)
    ensures RemoveEach(rs, gs + [g]) == Remove(RemoveEach(rs, gs), g)
  {
    if gs == [] {
      assert gs + [g] == [g];
      assert [g][1..] == [];
    } else {
      assert (gs + [g])[1..] == gs[1..] + [g];
      RemoveEachSnoc(Remove(rs, gs[0]), gs[1..], g);
    }
  }

  lemma {:induction false} RemoveKeepsOrder(rs: seq<Reader>, g: nat)
    requires Ascending(rs)
    ensures Ascending(Remove(rs, g))
  {
    hide IndexOf;
    var i, ts := IndexOf(rs, g), Remove(rs, g);
    if i >= 0 {
      forall a, b | 0 <= a < b < |ts| ensures ts[a].gen < ts[b].gen {
        assert ts[a] == rs[if a < i then a else a + 1];
        assert ts[b] == rs[if b < i then b else b + 1];
      }
    }
  }

  lemma {:induction false} RemoveKeepsOthers(rs: seq<Reader>, g: nat, p: nat)
    requires p != g
    ensures IndexOf(Remove(rs, g), p) >= 0 <==> IndexOf(rs, p) >= 0
  {
    hide IndexOf;
    var i, ts := IndexOf(rs, g), Remove(rs, g);
    if i >= 0 {
      var j, k := IndexOf(rs, p), IndexOf(ts, p);
      if j >= 0 {
        assert rs[j] == ts[if j < i then j else j - 1];
      }
      if k >= 0 {
        assert ts[k] == rs[if k < i then k else k + 1];
      }
    }
  }

  lemma {:induction false} RemoveRemoves(rs: seq<Reader>, g: nat)
    requires Ascending(rs)
    ensures IndexOf(Remove(rs, g), g) < 0
  {
    hide IndexOf;
    var i, ts := IndexOf(rs, g), Remove(rs, g);
    if i >= 0 {
      forall k | 0 <= k < |ts| ensures ts[k].gen != g {
        assert ts[k] == rs[if k < i then k else k + 1];
      }
    }
  }

  /** Removing one generation keeps the order, and the presence of every other generation. */
  lemma {:induction false} RemoveOther(rs: seq<Reader>, g: nat, p: nat)
    requires Ascending(rs)
    ensures Ascending(Remove(rs, g))
    ensures IndexOf(Remove(rs, g), g) < 0
    ensures p != g ==> (IndexOf(Remove(rs, g), p) >= 0 <==> IndexOf(rs, p) >= 0)
  {
    hide IndexOf, Remove, Ascending;
    RemoveKeepsOrder(rs, g);
    RemoveRemoves(rs, g);
    if p != g {
      RemoveKeepsOthers(rs, g, p);
    }
  }

  /** Another table under the same name changes neither order nor presence. */
  lemma {:induction false} SameName(rs: seq<Reader>, i: nat, t: Table, p: nat)
    requires Ascending(rs) && i < |rs|
    ensures Ascending(rs[i := Reader(rs[i].gen, t)])
    ensures IndexOf(rs[i := Reader(rs[i].gen, t)], p) >= 0 <==> IndexOf(rs, p) >= 0
  {
    hide IndexOf;
    var ts := rs[i := Reader(rs[i].gen, t)];
    assert forall k :: 0 <= k < |rs| ==> ts[k].gen == rs[k].gen;
    var j, k := IndexOf(rs, p), IndexOf(ts, p);
    assert j >= 0 ==> ts[j].gen == p;
    assert k >= 0 ==> rs[k].gen == p;
  }

  lemma {:induction false} InsertSplit(a: seq<Reader>, r: Reader, b: seq<Reader>)
    requires Ascending(a + [r] + b)
    ensures Insert(a + b, r) == a + [r] + b
  {
    var rs := a + [r] + b;
    if a == [] {
      assert a + b == b && rs == [r] + b;
      assert b != [] ==> rs[1] == b[0];
    } else {
      assert rs[0] == a[0] && rs[|a|] == r;
      assert rs[1..] == a[1..] + [r] + b;
      InsertSplit(a[1..], r, b);
      assert (a + b)[1..] == a[1..] + b && (a + b)[0] == a[0];
      assert [a[0]] + (a[1..] + [r] + b) == rs;
    }
  }

  lemma {:induction false} AscendingReplace(a: seq<Reader>, run: seq<Reader>, b: seq<Reader>, merged: Table)
    requires run != [] && Ascending(a + run + b)
    ensures Ascending(a + [Reader(run[0].gen, merged)] + b)
    ensures Ascending(a + [Reader(run[0].gen, merged)] + run[1..] + b)
  {
    var rs, ts := a + run + b, a + [Reader(run[0].gen, merged)] + b;
    assert forall i :: 0 <= i < |ts| ==> ts[i].gen == rs[if i <= |a| then i else i + |run| - 1].gen;
    var us := a + [Reader(run[0].gen, merged)] + run[1..] + b;
    assert forall i :: 0 <= i < |us| ==> us[i].gen == rs[i].gen;
  }

  /** On a contiguous run the replacement leaves the older and the newer readers as they are. */
  lemma {:induction false} ReplaceRunSplit(a: seq<Reader>, run: seq<Reader>, b: seq<Reader>, merged: Table)
    requires run != [] && Ascending(a + run + b)
    ensures ReplaceRun(a + run + b, Gens(run), merged) == a + [Reader(run[0].gen, merged)] + b
  {
    var rs, m := a + run + b, Reader(run[0].gen, merged);
    assert rs[|a|] == run[0];
    IndexOfAscending(rs, |a|);
    assert rs[|a| := m] == (a + [m]) + run[1..] + b;
    AscendingReplace(a, run, b, merged);
    assert Gens(run)[1..] == Gens(run[1..]);
    RemoveEachSplit(a + [m], run[1..], b);
  }

  /** What the replacement of a run means to readers, for any stores above it. */
  lemma {:induction false} ReplaceKeepsReads(older: seq<Reader>, inputs: seq<Reader>, i: nat, newer: seq<Reader>,
                                             merged: Reader)
    requires i <= |inputs| && merged.table == Compacted(Contents(inputs))
    requires TombstoneGuard(Stack(older), Stack(inputs), Stack(newer))
    ensures Live(Stack(older + [merged] + inputs[i..] + newer)) == Live(Stack(older + inputs + newer))
  {
    hide TombstoneGuard, Live, Merge;
    CompactionPreservesReads(Contents(older), Contents(inputs), Contents(newer), i);
    assert Contents(older + [merged] + inputs[i..] + newer)
        == Contents(older) + [Compacted(Contents(inputs))] + Contents(inputs)[i..] + Contents(newer);
    assert Contents(older + inputs + newer) == Contents(older) + Contents(inputs) + Contents(newer);
  }
}
