/**
 What the tables of the store mean: a table is a finite map from keys to values, where a nil value is a
 tombstone, and a list of tables (oldest first) means the override of its members.
 */
module Tables {
  import opened Bytes

  type Table = map<bytes, Value>

  /** The override of a list of tables: for each key the newest table that has the key decides. */
  function Merge(ts: seq<Table>): Table
  {
    if ts == [] then map[] else Merge(ts[..|ts| - 1]) + ts[|ts| - 1]
  }

  /** A value that a reader of the database can see: the code treats nil and empty values alike. */
  predicate IsLive(v: Value)
  {
    v.Some? && v.value != []
  }

  /** The map a reader of the database sees in a table. */
  function Live(t: Table): map<bytes, bytes>
  {
    map k | k in t && IsLive(t[k]) :: t[k].value
  }

  function DropTombstones(t: Table): Table
  {
    map k | k in t && IsLive(t[k]) :: t[k]
  }

  /** The table a compaction of `run` produces: latest value wins, tombstones are dropped. */
  function Compacted(run: seq<Table>): Table
  {
    DropTombstones(Merge(run))
  }

  lemma {:induction false} MergeConcat(a: seq<Table>, b: seq<Table>)
    ensures Merge(a + b) == Merge(a) + Merge(b)
  {
    if b == [] {
      assert a + b == a;
    } else {
      var b' := b[..|b| - 1];
      assert (a + b)[..|a + b| - 1] == a + b';
      MergeConcat(a, b');
      assert (Merge(a) + Merge(b')) + b[|b| - 1] == Merge(a) + (Merge(b') + b[|b| - 1]);
    }
  }

  lemma {:induction false} MergeSingle(t: Table)
    ensures Merge([t]) == t
  {
    assert [t][..0] == [];
    assert map[] + t == t;
  }

  /** Two stacks a reader cannot tell apart stay so below any newer table. */
  lemma {:induction false} LiveCongruence(a: Table, b: Table, t: Table)
    requires Live(a) == Live(b)
    ensures Live(a + t) == Live(b + t)
  {
    forall k
      ensures k in Live(a + t) <==> k in Live(b + t)
      ensures k in Live(a + t) ==> Live(a + t)[k] == Live(b + t)[k] {
      if k !in t {
        assert k in Live(a) <==> k in Live(b);
        assert k in Live(a) ==> Live(a)[k] == Live(b)[k];
      }
    }
  }

  /**
   Which keys a dropped tombstone can resurrect: every key that the run deletes, that an older table still
   holds live, must be decided by a newer table.
   */
  ghost predicate TombstoneGuard(older: Table, run: Table, newer: Table)
  {
    forall k :: k in run && !IsLive(run[k]) && k in older && IsLive(older[k]) ==> k in newer
  }

  /** The decision for one key, as the map-level core of the lemmas below. */
  lemma {:induction false} LiveAfterDrop(o: Table, p: Table, s: Table, n: Table)
    requires TombstoneGuard(o, p + s, n)
    ensures Live(((o + DropTombstones(p + s)) + s) + n) == Live((o + (p + s)) + n)
  {
    var a, b := ((o + DropTombstones(p + s)) + s) + n, (o + (p + s)) + n;
    forall k ensures (k in Live(a) <==> k in Live(b)) && (k in Live(a) ==> Live(a)[k] == Live(b)[k]) {
      if k !in n && k !in s && k in p {
        assert (p + s)[k] == p[k];
      }
    }
  }

  lemma {:induction false} MergeOfParts(older: seq<Table>, t: Table, rest: seq<Table>, newer: seq<Table>)
    ensures Merge(older + [t] + rest + newer) == ((Merge(older) + t) + Merge(rest)) + Merge(newer)
  {
    MergeConcat(older + [t] + rest, newer);
    MergeConcat(older + [t], rest);
    MergeConcat(older, [t]);
    MergeSingle(t);
  }

  /**
   Compaction in the place of a contiguous run, with any newest suffix of the run still present beside the
   merged table, as a crash in the middle of the removals leaves it: reads are unchanged.
   */
  lemma {:induction false} CompactionPreservesReads(older: seq<Table>, run: seq<Table>, newer: seq<Table>, i: nat)
    requires i <= |run|
    requires TombstoneGuard(Merge(older), Merge(run), Merge(newer))
    ensures Live(Merge(older + [Compacted(run)] + run[i..] + newer)) == Live(Merge(older + run + newer))
  {
    hide Merge, Live, DropTombstones, TombstoneGuard;
    MergeOfParts(older, Compacted(run), run[i..], newer);
    MergeConcat(older + run, newer);
    MergeConcat(older, run);
    assert run == run[..i] + run[i..];
    MergeConcat(run[..i], run[i..]);
    LiveAfterDrop(Merge(older), Merge(run[..i]), Merge(run[i..]), Merge(newer));
  }

  lemma {:induction false} ResurrectedKey(o: Table, r: Table, n: Table, k: bytes)
    requires k in r && !IsLive(r[k]) && k in o && IsLive(o[k]) && k !in n
    ensures k in Live((o + DropTombstones(r)) + n) && k !in Live((o + r) + n)
  {
  }

  /** The guard is exact: replacing a contiguous run by its compaction keeps all reads if and only if it holds. */
  lemma {:induction false} CompactionPreservesReadsIff(older: seq<Table>, run: seq<Table>, newer: seq<Table>)
    ensures Live(Merge(older + [Compacted(run)] + newer)) == Live(Merge(older + run + newer))
            <==> TombstoneGuard(Merge(older), Merge(run), Merge(newer))
  {
    var o, r, n := Merge(older), Merge(run), Merge(newer);
    assert older + [Compacted(run)] + run[|run|..] + newer == older + [Compacted(run)] + newer;
    if TombstoneGuard(o, r, n) {
      CompactionPreservesReads(older, run, newer, |run|);
    } else {
      var k :| k in r && !IsLive(r[k]) && k in o && IsLive(o[k]) && k !in n;
      MergeOfParts(older, Compacted(run), [], newer);
      MergeConcat(older + run, newer);
      MergeConcat(older, run);
      ResurrectedKey(o, r, n, k);
    }
  }

  /** A run that starts at the oldest table always satisfies the guard. */
  lemma {:induction false} GuardAtOldest(run: Table, newer: Table)
    ensures TombstoneGuard(Merge([]), run, newer)
  {
  }

  /** A merged table that lacks entries. */
  ghost predicate PartOf(part: Table, whole: Table)
  {
    forall k :: k in part ==> k in whole && part[k] == whole[k]
  }

  /** A newer table decides the key, or the older ones with the part on top of them hold its value. */
  predicate StillRead(o: Table, part: Table, n: Table, k: bytes, v: Value)
  {
    k in n || (k in o + part && (o + part)[k] == v)
  }

  /** The lost entries that matter. */
  ghost predicate Missed(o: Table, whole: Table, part: Table, n: Table, k: bytes)
  {
    k in whole && !StillRead(o, part, n, k, whole[k])
  }

  lemma {:induction false} LossyDrop(o: Table, r: Table, part: Table, n: Table)
    requires part.Keys <= DropTombstones(r).Keys && TombstoneGuard(o, r, n)
    ensures Live((o + part) + n) == Live((o + r) + n) <==> forall k :: !Missed(o, DropTombstones(r), part, n, k)
  {
    var a, b, whole := (o + part) + n, (o + r) + n, DropTombstones(r);
    forall k ensures Missed(o, whole, part, n, k)
                <==> !((k in Live(a) <==> k in Live(b)) && (k in Live(a) ==> Live(a)[k] == Live(b)[k])) {
    }
    if forall k :: !Missed(o, whole, part, n, k) {
      assert Live(a) == Live(b);
    }
  }

  /**
   Replacing a run by a table with some keys of its compaction, as a merge whose write errors were ignored leaves it:
   reads are kept if and only if no lost entry matters. What is lost is read from the older tables again.
   */
  lemma {:induction false} LossyCompactionIff(older: seq<Table>, run: seq<Table>, newer: seq<Table>, part: Table)
    requires part.Keys <= Compacted(run).Keys && TombstoneGuard(Merge(older), Merge(run), Merge(newer))
    ensures Live(Merge(older + [part] + newer)) == Live(Merge(older + run + newer))
        <==> forall k :: !Missed(Merge(older), Compacted(run), part, Merge(newer), k)
  {
    hide Merge, Live, DropTombstones, TombstoneGuard, PartOf, Missed;
    assert older + [part] + [] + newer == older + [part] + newer;
    MergeOfParts(older, part, [], newer);
    NothingMerged();
    assert (Merge(older) + part) + map[] == Merge(older) + part;
    MergeConcat(older + run, newer);
    MergeConcat(older, run);
    LossyDrop(Merge(older), Merge(run), part, Merge(newer));
  }

  lemma {:induction false} NothingMerged()
    ensures Merge([]) == map[]
  {
  }

  const K: bytes := [1]
  const OLD: bytes := [2]
  const NEW: bytes := [3]

  /** Why the guard is needed: a compaction above the oldest table resurrects a deleted key. */
  lemma {:induction false} DroppedTombstoneResurrects()
    ensures var older, run := [map[K := Some(OLD)]], [map[K := None]];
            && K !in Live(Merge(older + run))
            && K in Live(Merge(older + [Compacted(run)]))
  {
    var older: seq<Table>, run: seq<Table> := [map[K := Some(OLD)]], [map[K := None]];
    MergeConcat(older, run);
    MergeConcat(older, [Compacted(run)]);
    MergeSingle(older[0]);
    MergeSingle(run[0]);
    MergeSingle(Compacted(run));
  }

  /** Why a lost entry matters: a run replaced by a part of its compaction loses a key that no other table holds. */
  lemma {:induction false} LostEntryLosesKey()
    ensures var run, part := [map[K := Some(NEW)]], map[];
            && PartOf(part, Compacted(run)) && K in Live(Merge([] + run + [])) && K !in Live(Merge([] + [part] + []))
  {
    var run: seq<Table>, part: Table := [map[K := Some(NEW)]], map[];
    assert [] + run + [] == run && [] + [part] + [] == [part];
    MergeSingle(run[0]);
    MergeSingle(part);
  }

  /** The override of two one-table lists, unfolded. */
  lemma {:induction false} MergePair(a: Table, b: Table)
    ensures Merge([a, b]) == a + b
  {
    assert [a, b] == [a] + [b];
    MergeConcat([a], [b]);
    MergeSingle(a);
    MergeSingle(b);
  }

  /** Why the run has to be contiguous: merging the first and third table into the first place lets an old write win. */
  lemma {:induction false} NonContiguousRunLosesWrite()
    ensures var a, b, c := map[K := Some(OLD)], map[K := None], map[K := Some(NEW)];
            && K in Live(Merge([a, b] + [c]))
            && K !in Live(Merge([Compacted([a, c]), b]))
  {
    var a: Table, b: Table, c: Table := map[K := Some(OLD)], map[K := None], map[K := Some(NEW)];
    MergeConcat([a, b], [c]);
    MergeSingle(c);
    MergePair(a, c);
    MergePair(Compacted([a, c]), b);
  }

  /** Why the leftovers have to be a newest suffix: with the newest run member removed first, an older version wins. */
  lemma {:induction false} LeftoverPrefixLosesWrite()
    ensures var run := [map[K := Some(OLD)], map[K := Some(NEW)]];
            && K in Live(Merge(run)) && Live(Merge(run))[K] == NEW
            && K in Live(Merge([Compacted(run), run[0]])) && Live(Merge([Compacted(run), run[0]]))[K] == OLD
  {
    var a: Table, b: Table := map[K := Some(OLD)], map[K := Some(NEW)];
    MergePair(a, b);
    MergePair(Compacted([a, b]), a);
  }

  // ---------- sorted entries ----------

  datatype Entry = Entry(key: bytes, value: Value)

  /** Strictly ascending keys, the order of every table file. */
  ghost predicate KeysAscend(es: seq<Entry>)
  {
    forall i, j :: 0 <= i < j < |es| ==> Less(es[i].key, es[j].key)
  }

  /** The table a list of entries stands for. */
  function AsTable(es: seq<Entry>): Table
  {
    if es == [] then map[] else AsTable(es[..|es| - 1])[es[|es| - 1].key := es[|es| - 1].value]
  }

  lemma {:induction false} AsTableHas(es: seq<Entry>, k: bytes)
    ensures k in AsTable(es) <==> exists i :: 0 <= i < |es| && es[i].key == k
  {
    if es != [] {
      AsTableHas(es[..|es| - 1], k);
    }
  }

  lemma {:induction false} AsTableAt(es: seq<Entry>, i: nat)
    requires KeysAscend(es) && i < |es|
    ensures es[i].key in AsTable(es) && AsTable(es)[es[i].key] == es[i].value
  {
    hide Less;
    var n := |es| - 1;
    if i < n {
      AsTableAt(es[..n], i);
      LessTrichotomy(es[i].key, es[n].key);
    }
  }

  /** A sorted list of entries is determined by its members: it stands for any table with exactly these. */
  lemma {:induction false} AsTableIs(es: seq<Entry>, t: Table)
    requires KeysAscend(es)
    requires forall i :: 0 <= i < |es| ==> es[i].key in t && t[es[i].key] == es[i].value
    requires forall k :: k in t ==> exists i :: 0 <= i < |es| && es[i].key == k
    ensures AsTable(es) == t
  {
    hide AsTable, KeysAscend;
    forall k ensures (k in AsTable(es) <==> k in t) && (k in t ==> AsTable(es)[k] == t[k]) {
      AsTableHas(es, k);
      if k in t {
        var i :| 0 <= i < |es| && es[i].key == k;
        AsTableAt(es, i);
      }
    }
  }
}
