/** Empty keys and values, which the documentation forbids and PutBytes accepts: what exactly goes wrong with them. */
module SimpleDBEdges {
  import opened Bytes
  import opened Tables
  import opened SimpleDB

  /**
   A flush moves a store from the memstore into the newest table. The answer for a key stays the same if and only
   if the store does not hold an empty value for it.
   */
  lemma {:induction false} FlushKeepsAnswerIff(base: Table, store: Table, k: bytes)
    ensures Decide(TableGet(base, k), RWGet(map[], store, k))
         == Decide(TableGet(base + store, k), RWGet(map[], map[], k))
        <==> !(k in store && store[k] == Some([]))
  {
    assert k in base + store <==> k in base || k in store;
  }

  /** The accepted empty value: found before its flush and gone after it, whatever the tables hold. */
  lemma {:induction false} EmptyValueIsLostByFlush(base: Table, k: bytes)
    ensures var store := StoreOp(map[], Put(k, []));
            && Decide(TableGet(base, k), RWGet(map[], store, k)) == Found([])
            && Decide(TableGet(base + store, k), RWGet(map[], map[], k)) == ErrNotFound
  {
    FlushKeepsAnswerIff(base, StoreOp(map[], Put(k, [])), k);
  }

  // ---------- replaying the log ----------

  /**
   A mutation as the replay sees it. An empty byte field of a log message is read back as nil. A nil key sends the
   replay to the string fields of the message, which are empty; a nil value beside a key is refused by the memstore.
   */
  function ReplayMutation(t: Table, op: Op): Option<Table>
  {
    match op
    case Put(k, v) =>
      if k == [] then Some(t[[] := Some([])])
      else if v == [] then None
      else Some(t[k := Some(v)])
    case Delete(k) => Some(t[k := None])
  }

  /** The store that the replay builds, or nothing when it fails and Open with it. */
  function ReplayMutations(ops: seq<Op>): Option<Table>
  {
    if ops == [] then Some(map[]) else
      var t := ReplayMutations(ops[..|ops| - 1]);
      if t.None? then None else ReplayMutation(t.value, ops[|ops| - 1])
  }

  /** The replay succeeds if and only if no logged value of a non-empty key is empty. */
  lemma {:induction false} ReplaySucceedsIff(ops: seq<Op>)
    ensures ReplayMutations(ops).Some?
        <==> forall i :: 0 <= i < |ops| ==> !(ops[i].Put? && ops[i].key != [] && ops[i].value == [])
  {
    if ops != [] {
      ReplaySucceedsIff(ops[..|ops| - 1]);
    }
  }

  /** What a successful replay builds: the logged store, except that the empty key has lost its value. */
  lemma {:induction false} ReplayedStore(ops: seq<Op>)
    requires ReplayMutations(ops).Some?
    ensures var t, logged := ReplayMutations(ops).value, Replay(ops);
            && t.Keys == logged.Keys
            && (forall k :: k in t && k != [] ==> t[k] == logged[k])
            && ([] in t ==> t[[]] == if logged[[]].Some? then Some([]) else None)
  {
    if ops != [] {
      ReplayedStore(ops[..|ops| - 1]);
    }
  }

  /** The replay rebuilds exactly the logged store if and only if it succeeds and no value of the empty key is lost. */
  lemma {:induction false} ReplayIsFaithfulIff(ops: seq<Op>)
    ensures ReplayMutations(ops) == Some(Replay(ops))
        <==> && (forall i :: 0 <= i < |ops| ==> !(ops[i].Put? && ops[i].key != [] && ops[i].value == []))
             && !([] in Replay(ops) && IsLive(Replay(ops)[[]]))
  {
    ReplaySucceedsIff(ops);
    if ReplayMutations(ops).Some? {
      ReplayedStore(ops);
      var t, logged := ReplayMutations(ops).value, Replay(ops);
      if !([] in logged && IsLive(logged[[]])) {
        assert forall k :: k in t ==> t[k] == logged[k];
        assert t == logged;
      }
    }
  }

  /** Operations as documented are replayed exactly. */
  lemma {:induction false} ValidOpsReplay(ops: seq<Op>)
    requires forall i :: 0 <= i < |ops| ==> ValidOp(ops[i])
    ensures ReplayMutations(ops) == Some(Replay(ops))
  {
    KeysOfOps(ops);
    ReplayIsFaithfulIff(ops);
  }

  lemma {:induction false} KeysOfOps(ops: seq<Op>)
    requires forall i :: 0 <= i < |ops| ==> ValidOp(ops[i])
    ensures [] !in Replay(ops)
  {
    if ops != [] {
      KeysOfOps(ops[..|ops| - 1]);
    }
  }
}
