/**
 The skip list: a pointer structure with a fixed number of levels and nondeterministic node heights that
 behaves as an ordered map.
 */
module SkipList {
  import opened Bytes

  /** The contract of a comparator. */
  ghost predicate TotalOrder<K(!new)>(cmp: (K, K) -> int)
  {
    Consistent(cmp) && Transitive(cmp)
  }

  ghost predicate Consistent<K(!new)>(cmp: (K, K) -> int)
  {
    && (forall a, b :: cmp(a, b) == 0 <==> a == b)
    && (forall a, b :: cmp(a, b) < 0 <==> cmp(b, a) > 0)
  }

  ghost predicate Transitive<K(!new)>(cmp: (K, K) -> int)
  {
    forall a, b, c :: cmp(a, b) < 0 && cmp(b, c) < 0 ==> cmp(a, c) < 0
  }

  /** The payload of a node; the head node has none. */
  datatype Entry<K, V> = Head | Entry(key: K, value: V)

  class Node<K(!new), V> {
    const entry: Entry<K, V>
    var next: seq<Node?<K, V>>   // one successor per level, the length is the height of the node

    constructor (entry: Entry<K, V>, height: nat)
      ensures this.entry == entry && |next| == height && forall i :: 0 <= i < height ==> next[i] == null
    {
      this.entry := entry;
      this.next := seq(height, _ => null);
    }
  }

  ghost function Successor<K(!new), V>(level: seq<Node<K, V>>, i: nat): Node?<K, V>
  {
    if i + 1 < |level| then level[i + 1] else null
  }

  /** The nodes of one level, head first, linked in this order. */
  ghost predicate Linked<K(!new), V>(level: seq<Node<K, V>>, l: nat)
    reads level
  {
    && (forall i :: 0 <= i < |level| ==> |level[i].next| > l)
    && (forall i :: 0 <= i < |level| ==> level[i].next[l] == Successor(level, i))
  }

  /** Keys ascend strictly after the head. */
  ghost predicate Ordered<K(!new), V>(level: seq<Node<K, V>>, cmp: (K, K) -> int)
  {
    && |level| >= 1
    && (forall i :: 1 <= i < |level| ==> level[i].entry.Entry?)
    && (forall i, j :: 1 <= i < j < |level| ==> cmp(level[i].entry.key, level[j].entry.key) < 0)
  }

  /** One level of the list. */
  ghost predicate LevelOk<K(!new), V>(level: seq<Node<K, V>>, l: nat, head: Node<K, V>, cmp: (K, K) -> int,
                                      nodes: set<Node<K, V>>)
    reads nodes
  {
    Shape(level, head, cmp, nodes) && Linked(level, l)
  }

  ghost predicate Shape<K(!new), V>(level: seq<Node<K, V>>, head: Node<K, V>, cmp: (K, K) -> int,
                                    nodes: set<Node<K, V>>)
  {
    && (forall n :: n in level ==> n in nodes)
    && Ordered(level, cmp) && level[0] == head && head.entry.Head?
  }

  ghost predicate Below<K(!new), V>(upper: seq<Node<K, V>>, lower: seq<Node<K, V>>)
  {
    forall i :: 0 <= i < |upper| ==> upper[i] in lower
  }

  /** Position `p` of a level is the last node before the key. */
  ghost predicate LastBefore<K(!new), V>(level: seq<Node<K, V>>, cmp: (K, K) -> int, key: K, p: nat)
  {
    && Ordered(level, cmp) && p < |level|
    && (forall i :: 1 <= i <= p ==> cmp(key, level[i].entry.key) > 0)
    && (forall i :: p < i < |level| ==> cmp(key, level[i].entry.key) <= 0)
  }

  ghost predicate PrevOk<K(!new), V>(level: seq<Node<K, V>>, cmp: (K, K) -> int, key: K, p: nat, prev: Node<K, V>)
  {
    LastBefore(level, cmp, key, p) && prev == level[p]
  }

  ghost function InsertAfter<T>(s: seq<T>, p: nat, x: T): seq<T>
    requires p < |s|
  {
    s[..p + 1] + [x] + s[p + 1..]
  }

  lemma {:induction false} LastBeforeIntro<K(!new), V>(level: seq<Node<K, V>>, cmp: (K, K) -> int, key: K, p: nat)
    requires TotalOrder(cmp) && Ordered(level, cmp) && p < |level|
    requires p > 0 ==> cmp(key, level[p].entry.key) > 0
    requires p + 1 < |level| ==> cmp(key, level[p + 1].entry.key) <= 0
    ensures LastBefore(level, cmp, key, p)
    ensures PrevOk(level, cmp, key, p, level[p])
  {
    forall i | 1 <= i <= p ensures cmp(key, level[i].entry.key) > 0 {
      assert i < p ==> cmp(level[i].entry.key, level[p].entry.key) < 0;
      assert cmp(level[p].entry.key, key) < 0;
    }
    forall i | p < i < |level| ensures cmp(key, level[i].entry.key) <= 0 {
      assert i > p + 1 ==> cmp(level[p + 1].entry.key, level[i].entry.key) < 0;
      assert cmp(key, level[p + 1].entry.key) == 0 ==> key == level[p + 1].entry.key;
    }
  }

  lemma {:induction false} OrderedInsert<K(!new), V>(level: seq<Node<K, V>>, cmp: (K, K) -> int, p: nat, x: Node<K, V>)
    requires TotalOrder(cmp) && Ordered(level, cmp) && x.entry.Entry?
    requires LastBefore(level, cmp, x.entry.key, p)
    requires forall i :: 1 <= i < |level| ==> level[i].entry.key != x.entry.key
    ensures Ordered(InsertAfter(level, p, x), cmp)
  {
    hide Transitive;
    var s := InsertAfter(level, p, x);
    forall i | 1 <= i < |s| ensures s[i].entry.Entry? {
      assert s[i] == if i <= p then level[i] else if i == p + 1 then x else level[i - 1];
    }
    forall i, j | 1 <= i < j < |s| ensures cmp(s[i].entry.key, s[j].entry.key) < 0 {
      assert s[i] == if i <= p then level[i] else if i == p + 1 then x else level[i - 1];
      assert s[j] == if j <= p then level[j] else if j == p + 1 then x else level[j - 1];
      if j == p + 1 {
        assert cmp(x.entry.key, level[i].entry.key) > 0;
      } else if i == p + 1 {
        assert cmp(x.entry.key, level[j - 1].entry.key) <= 0;
      }
    }
  }

  /** What a search needs to know about the node it stands on. */
  lemma {:induction false} StandingOn<K(!new), V>(level: seq<Node<K, V>>, l: nat, head: Node<K, V>, cmp: (K, K) -> int,
                                                  nodes: set<Node<K, V>>, p: nat)
    requires LevelOk(level, l, head, cmp, nodes) && p < |level|
    ensures Ordered(level, cmp) && |level[p].next| > l && level[p].next[l] == Successor(level, p)
    ensures p + 1 < |level| ==> level[p + 1].entry.Entry?
    ensures p > 0 ==> level[p].entry.Entry?
  {
  }

  lemma {:induction false} DownOne<K(!new), V>(upper: seq<Node<K, V>>, lower: seq<Node<K, V>>, p: nat) returns (q: nat)
    requires Below(upper, lower) && p < |upper|
    ensures q < |lower| && lower[q] == upper[p]
  {
    assert upper[p] in lower;
    q :| 0 <= q < |lower| && lower[q] == upper[p];
  }

  lemma {:induction false} LevelStart<K(!new), V>(level: seq<Node<K, V>>, l: nat, head: Node<K, V>, cmp: (K, K) -> int,
                                                  nodes: set<Node<K, V>>)
    requires LevelOk(level, l, head, cmp, nodes)
    ensures |level| > 0 && level[0] == head
  {
  }

  class Map<K(!new), V> {
    const cmp: (K, K) -> int
    var maxHeight: nat
    var size: nat
    const head: Node<K, V>
    ghost var levels: seq<seq<Node<K, V>>>
    ghost var contents: map<K, V>
    ghost var nodes: set<Node<K, V>>

    ghost predicate Valid()
      reads this, nodes
    {
      && TotalOrder(cmp)
      && maxHeight >= 1 && |levels| == maxHeight
      && (forall l :: 0 <= l < maxHeight ==> LevelOk(levels[l], l, head, cmp, nodes))
      && (forall l :: 0 <= l < maxHeight - 1 ==> Below(levels[l + 1], levels[l]))
      && size == |levels[0]| - 1
      && Holds(levels[0], contents)
    }

    constructor (cmp: (K, K) -> int)
      requires TotalOrder(cmp)
      ensures Valid() && fresh(nodes) && contents == map[] && maxHeight == 12 && this.cmp == cmp
    {
      var h := new Node<K, V>(Head, 12);
      this.cmp := cmp;
      head := h;
      maxHeight := 12;
      size := 0;
      levels := seq(12, _ => [h]);
      contents := map[];
      nodes := {h};
    }

    /** The first node not before the key, and per level the last node before it. */
    method FindGreaterOrEqual(key: K) returns (found: Node?<K, V>, prevTable: seq<Node<K, V>>, ghost pos: seq<nat>)
      requires Valid()
      ensures |prevTable| == |pos| == maxHeight
      ensures forall l :: 0 <= l < maxHeight ==>
                PrevOk(levels[l], cmp, key, pos[l], prevTable[l])
      ensures found == Successor(levels[0], pos[0])
    {
      hide TotalOrder, LastBefore, PrevOk, LevelOk, Below, Ordered, Linked;
      var x := head;
      var level := maxHeight - 1;
      ghost var p: nat := 0;
      LevelStart(levels[level], level, head, cmp, nodes);
      prevTable := seq(maxHeight, _ => head);
      pos := seq(maxHeight, _ => 0);
      while true
        invariant 0 <= level < maxHeight && p < |levels[level]| && x == levels[level][p]
        invariant p > 0 ==> x.entry.Entry? && cmp(key, x.entry.key) > 0
        invariant |prevTable| == |pos| == maxHeight
        invariant forall l :: level < l < maxHeight ==> PrevOk(levels[l], cmp, key, pos[l], prevTable[l])
        decreases level, |levels[level]| - p
      {
        StandingOn(levels[level], level, head, cmp, nodes, p);
        var next := x.next[level];
        if next != null && cmp(key, next.entry.key) > 0 {
          x := next;
          p := p + 1;
        } else {
          LastBeforeIntro(levels[level], cmp, key, p);
          prevTable := prevTable[level := x];
          pos := pos[level := p];
          if level == 0 {
            return next, prevTable, pos;
          }
          LevelStart(levels[level - 1], level - 1, head, cmp, nodes);
          LevelStart(levels[level], level, head, cmp, nodes);
          if p > 0 {
            p := DownOne(levels[level - 1 + 1], levels[level - 1], p);
          }
          level := level - 1;
        }
      }
    }

    method RandomHeight() returns (height: nat)
      requires maxHeight >= 1
      ensures 1 <= height <= maxHeight
    {
      height := 1;
      while height < maxHeight
        invariant 1 <= height <= maxHeight
      {
        var coin: bool := *;
        if !coin {
          break;
        }
        height := height + 1;
      }
    }

    /**
     Adds a key that is not in the list yet, at whatever height chance gives it. A duplicate key is a panic in the code.
     */
    method Insert(key: K, value: V)
      requires Valid() && key !in contents
      modifies this`size, this`levels, this`contents, this`nodes, nodes
      ensures Valid() && contents == old(contents)[key := value]
      ensures fresh(nodes - old(nodes))
    {
      hide TotalOrder, Shape, Below, PrevOk, LinkOk, Grown, Ordered, Linked, Holds;
      var found, prevTable, pos := FindGreaterOrEqual(key);
      var height := RandomHeight();
      var x := new Node<K, V>(Entry(key, value), height);
      ghost var before := levels;
      forall l | 0 <= l < maxHeight ensures LinkOk(before[l], l, prevTable[l], pos[l], x) && prevTable[l] in nodes {
        ReadyToLink(before[l], l, head, cmp, nodes, key, pos[l], prevTable[l], x);
      }
      levels := LinkNode(x, prevTable, height, before, pos);
      forall l | 0 <= l < maxHeight ensures LevelOk(levels[l], l, head, cmp, nodes + {x}) {
        KeyIsNew(before, head, cmp, nodes, contents, key, l);
        GrownLevelOk(before[l], l, head, cmp, nodes, height, pos[l], prevTable[l], x);
      }
      forall l | 0 <= l < maxHeight - 1 ensures Below(levels[l + 1], levels[l]) {
        GrownBelow(before[l + 1], before[l], l, height, pos[l + 1], pos[l], cmp, prevTable[l + 1], prevTable[l], x);
      }
      GrownBottom(before[0], height, pos[0], cmp, prevTable[0], x, contents);
      nodes := nodes + {x};
      contents := contents[key := value];
      size := size + 1;
    }

    method Get(key: K) returns (r: Option<V>)
      requires Valid()
      ensures r == if key in contents then Some(contents[key]) else None
    {
      hide TotalOrder, Shape, Below, PrevOk, Ordered, Linked, Holds;
      var found, prevTable, pos := FindGreaterOrEqual(key);
      SearchDecides(levels[0], head, cmp, nodes, key, pos[0], prevTable[0], contents);
      if found != null && cmp(key, found.entry.key) == 0 {
        return Some(found.entry.value);
      }
      return None;
    }

    method Contains(key: K) returns (b: bool)
      requires Valid()
      ensures b <==> key in contents
    {
      var r := Get(key);
      b := r.Some?;
    }

    /** An iterator over the whole sorted sequence. */
    method Iterate() returns (it: Iterator<K, V>)
      requires Valid()
      ensures fresh(it) && it.list == this && it.Valid() && IsRange(it.Pending(), contents, cmp, None, None)
    {
      hide TotalOrder, Below, Ordered, Linked, Holds, IsRange, Upto, PrevOk;
      StandingOn(levels[0], 0, head, cmp, nodes, 0);
      it := new Iterator<K, V>(this, head.next[0], None, 0);
      WholeRange(levels[0], head, cmp, nodes, contents);
    }

    /** An iterator over all keys not below the given one. */
    method IterateStartingAt(key: K) returns (it: Iterator<K, V>)
      requires Valid()
      ensures fresh(it) && it.list == this && it.Valid() && IsRange(it.Pending(), contents, cmp, Some(key), None)
    {
      hide TotalOrder, Below, Ordered, Linked, Holds, IsRange, Upto, PrevOk, Shape;
      var node, prevTable, pos := FindGreaterOrEqual(key);
      UptoIsRange(levels[0], head, cmp, nodes, key, None, pos[0], prevTable[0], contents);
      it := new Iterator<K, V>(this, node, None, pos[0]);
    }

    /** An iterator over all keys between the given ones, both inclusive; an error when they are in the wrong order. */
    method IterateBetween(keyLower: K, keyHigher: K) returns (r: Option<Iterator<K, V>>)
      requires Valid()
      ensures r.None? <==> cmp(keyLower, keyHigher) > 0
      ensures r.Some? ==> fresh(r.value) && r.value.list == this && r.value.Valid()
      ensures r.Some? ==> IsRange(r.value.Pending(), contents, cmp, Some(keyLower), Some(keyHigher))
    {
      hide TotalOrder, Below, Ordered, Linked, Holds, IsRange, Upto, PrevOk, Shape;
      var node, prevTable, pos := FindGreaterOrEqual(keyLower);
      if cmp(keyLower, keyHigher) > 0 {
        return None;
      }
      UptoIsRange(levels[0], head, cmp, nodes, keyLower, Some(keyHigher), pos[0], prevTable[0], contents);
      var it := new Iterator<K, V>(this, node, Some(keyHigher), pos[0]);
      r := Some(it);
    }
  }

  class Iterator<K(!new), V> {
    const list: Map<K, V>
    var node: Node?<K, V>
    const keyHigher: Option<K>
    var doneNext: bool
    ghost var at: nat   // the position before the node on the bottom level

    ghost predicate Valid()
      reads this, list, list.nodes
    {
      && list.Valid() && at < |list.levels[0]| + 1
      && node == Successor(list.levels[0], at)
      && (doneNext ==> Upto(list.levels[0], at + 1, list.cmp, keyHigher) == [])
    }

    /** The pairs that the iterator has yet to return. */
    ghost function Pending(): seq<(K, V)>
      reads this, list
      requires |list.levels| > 0
    {
      if doneNext then [] else Upto(list.levels[0], at + 1, list.cmp, keyHigher)
    }

    constructor (list: Map<K, V>, node: Node?<K, V>, keyHigher: Option<K>, ghost at: nat)
      requires list.Valid() && at < |list.levels[0]| && node == Successor(list.levels[0], at)
      ensures this.list == list && this.keyHigher == keyHigher && this.at == at
      ensures Valid() && Pending() == Upto(list.levels[0], at + 1, list.cmp, keyHigher)
    {
      hide TotalOrder, LevelOk, Below, Holds, Upto;
      this.list, this.node, this.keyHigher, this.doneNext, this.at := list, node, keyHigher, false, at;
    }

    /** Returns the pending pairs one by one, then signals the end, again and again. */
    method Next() returns (r: Option<(K, V)>)
      requires Valid()
      modifies this
      ensures Valid()
      ensures old(Pending()) == [] ==> r == None && Pending() == []
      ensures old(Pending()) != [] ==> r == Some(old(Pending())[0]) && Pending() == old(Pending())[1..]
    {
      hide TotalOrder, LevelOk, Below, Holds, Upto, Ordered, Linked;
      UptoNext(list.levels[0], at + 1, list.cmp, keyHigher);
      if node == null || doneNext {
        return None;
      }
      var cur := node;
      StandingOn(list.levels[0], 0, list.head, list.cmp, list.nodes, at + 1);
      node := cur.next[0];
      at := at + 1;
      if keyHigher.Some? {
        var c := list.cmp(cur.entry.key, keyHigher.value);
        if c == 0 {
          doneNext := true;
          NothingAbove(list.levels[0], list.cmp, keyHigher.value, at);
        } else if c > 0 {
          NothingAbove(list.levels[0], list.cmp, keyHigher.value, at);
          return None;
        }
      }
      return Some((cur.entry.key, cur.entry.value));
    }
  }

  /** The pairs of a level from a position on, as long as the upper bound allows. */
  ghost function Upto<K(!new), V>(level: seq<Node<K, V>>, at: nat, cmp: (K, K) -> int, higher: Option<K>): seq<(K, V)>
    decreases |level| - at
  {
    if at >= |level| || level[at].entry.Head? then []
    else if higher.Some? && cmp(level[at].entry.key, higher.value) > 0 then []
    else [(level[at].entry.key, level[at].entry.value)] + Upto(level, at + 1, cmp, higher)
  }

  lemma {:induction false} UptoNext<K(!new), V>(level: seq<Node<K, V>>, at: nat, cmp: (K, K) -> int, higher: Option<K>)
    ensures at >= |level| ==> Upto(level, at, cmp, higher) == []
    ensures at < |level| && level[at].entry.Entry? && higher.Some? && cmp(level[at].entry.key, higher.value) > 0 ==>
              Upto(level, at, cmp, higher) == []
    ensures at < |level| && level[at].entry.Entry? && (higher.None? || cmp(level[at].entry.key, higher.value) <= 0) ==>
              Upto(level, at, cmp, higher)
              == [(level[at].entry.key, level[at].entry.value)] + Upto(level, at + 1, cmp, higher)
  {
  }

  lemma {:induction false} NothingAbove<K(!new), V>(level: seq<Node<K, V>>, cmp: (K, K) -> int, higher: K, at: nat)
    requires TotalOrder(cmp) && Ordered(level, cmp) && 1 <= at < |level| && cmp(level[at].entry.key, higher) >= 0
    ensures Upto(level, at + 1, cmp, Some(higher)) == []
  {
    if at + 1 < |level| {
      assert cmp(level[at].entry.key, level[at + 1].entry.key) < 0;
      assert cmp(higher, level[at].entry.key) < 0 || higher == level[at].entry.key;
    }
  }

  ghost predicate Within<K(!new)>(k: K, cmp: (K, K) -> int, lower: Option<K>, higher: Option<K>)
  {
    (lower.Some? ==> cmp(lower.value, k) <= 0) && (higher.Some? ==> cmp(k, higher.value) <= 0)
  }

  /** The sorted sequence of exactly the pairs of an ordered map whose keys are within bounds. */
  ghost predicate IsRange<K(!new), V>(out: seq<(K, V)>, contents: map<K, V>, cmp: (K, K) -> int, lower: Option<K>,
                                      higher: Option<K>)
  {
    && (forall i, j :: 0 <= i < j < |out| ==> cmp(out[i].0, out[j].0) < 0)
    && (forall i :: 0 <= i < |out| ==>
          && out[i].0 in contents && contents[out[i].0] == out[i].1
          && (lower.Some? ==> cmp(lower.value, out[i].0) <= 0) && (higher.Some? ==> cmp(out[i].0, higher.value) <= 0))
    && (forall k :: k in contents && (lower.Some? ==> cmp(lower.value, k) <= 0)
                    && (higher.Some? ==> cmp(k, higher.value) <= 0) ==>
          exists i :: 0 <= i < |out| && out[i].0 == k)
  }

  lemma {:induction false} ReadyToLink<K(!new), V>(level: seq<Node<K, V>>, l: nat, head: Node<K, V>, cmp: (K, K) -> int,
                                                   nodes: set<Node<K, V>>,
                                key: K, p: nat, prev: Node<K, V>, x: Node<K, V>)
    requires TotalOrder(cmp) && LevelOk(level, l, head, cmp, nodes) && PrevOk(level, cmp, key, p, prev) && x !in nodes
    ensures LinkOk(level, l, prev, p, x) && prev in nodes
  {
    forall a, b | 0 <= a < b < |level| ensures level[a] != level[b] {
      if a > 0 {
        assert cmp(level[a].entry.key, level[b].entry.key) < 0;
      }
    }
  }

  /** A new key is new on every level. */
  lemma {:induction false} InBottom<K(!new), V>(levels: seq<seq<Node<K, V>>>, l: nat, n: Node<K, V>)
    requires l < |levels| && n in levels[l]
    requires forall i :: 0 <= i < |levels| - 1 ==> Below(levels[i + 1], levels[i])
    ensures n in levels[0]
  {
    if l > 0 {
      assert Below(levels[l - 1 + 1], levels[l - 1]);
      var i :| 0 <= i < |levels[l]| && levels[l][i] == n;
      InBottom(levels, l - 1, n);
    }
  }

  ghost predicate NoKey<K(!new), V>(level: seq<Node<K, V>>, key: K)
  {
    forall i :: 1 <= i < |level| ==> level[i].entry.Entry? && level[i].entry.key != key
  }

  lemma {:induction false} KeyIsNew<K(!new), V>(levels: seq<seq<Node<K, V>>>, head: Node<K, V>, cmp: (K, K) -> int,
                                                nodes: set<Node<K, V>>, contents: map<K, V>, key: K, l: nat)
    requires l < |levels| && key !in contents
    requires forall i :: 0 <= i < |levels| - 1 ==> Below(levels[i + 1], levels[i])
    requires Shape(levels[0], head, cmp, nodes) && Shape(levels[l], head, cmp, nodes) && Holds(levels[0], contents)
    ensures NoKey(levels[l], key)
  {
    hide Below;
    forall i | 1 <= i < |levels[l]| ensures levels[l][i].entry.key != key {
      InBottom(levels, l, levels[l][i]);
    }
  }

  lemma {:induction false} GrownLevelOk<K(!new), V>(level: seq<Node<K, V>>, l: nat, head: Node<K, V>,
                                                    cmp: (K, K) -> int, nodes: set<Node<K, V>>, height: nat, p: nat,
                                                    prev: Node<K, V>, x: Node<K, V>)
    requires TotalOrder(cmp) && Shape(level, head, cmp, nodes)
    requires x.entry.Entry? && PrevOk(level, cmp, x.entry.key, p, prev) && NoKey(level, x.entry.key)
    requires Linked(Grown(level, l, height, p, x), l)
    ensures LevelOk(Grown(level, l, height, p, x), l, head, cmp, nodes + {x})
  {
    hide TotalOrder, Linked;
    if l < height {
      OrderedInsert(level, cmp, p, x);
    }
  }

  lemma {:induction false} GrownBelow<K(!new), V>(upper: seq<Node<K, V>>, lower: seq<Node<K, V>>, l: nat, height: nat,
                                                  pu: nat, pl: nat, cmp: (K, K) -> int, prevUpper: Node<K, V>,
                                                  prevLower: Node<K, V>, x: Node<K, V>)
    requires Below(upper, lower) && x.entry.Entry?
    requires PrevOk(upper, cmp, x.entry.key, pu, prevUpper) && PrevOk(lower, cmp, x.entry.key, pl, prevLower)
    ensures Below(Grown(upper, l + 1, height, pu, x), Grown(lower, l, height, pl, x))
  {
    hide Ordered;
    var u, w := Grown(upper, l + 1, height, pu, x), Grown(lower, l, height, pl, x);
    forall i | 0 <= i < |u| ensures u[i] in w {
      if u[i] in upper {
        var k :| 0 <= k < |upper| && upper[k] == u[i];
        assert upper[k] in lower;
      }
    }
  }

  /** The bottom level holds exactly the contents. */
  ghost predicate Holds<K(!new), V>(level: seq<Node<K, V>>, contents: map<K, V>)
  {
    && (forall i :: 1 <= i < |level| ==>
          && level[i].entry.Entry? && level[i].entry.key in contents
          && contents[level[i].entry.key] == level[i].entry.value)
    && (forall k :: k in contents ==> exists i :: 1 <= i < |level| && level[i].entry.key == k)
  }

  lemma {:induction false} HoldsInsert<K(!new), V>(level: seq<Node<K, V>>, p: nat, x: Node<K, V>, contents: map<K, V>)
    requires p < |level| && x.entry.Entry? && Holds(level, contents) && x.entry.key !in contents
    ensures Holds(InsertAfter(level, p, x), contents[x.entry.key := x.entry.value])
  {
    var g, c := InsertAfter(level, p, x), contents[x.entry.key := x.entry.value];
    forall i | 1 <= i < |g|
      ensures g[i].entry.Entry? && g[i].entry.key in c && c[g[i].entry.key] == g[i].entry.value
    {
      assert g[i] == if i <= p then level[i] else if i == p + 1 then x else level[i - 1];
    }
    forall k | k in c ensures exists i :: 1 <= i < |g| && g[i].entry.key == k {
      HoldsWitness(level, p, x, contents, k);
    }
  }

  lemma {:induction false} HoldsWitness<K(!new), V>(level: seq<Node<K, V>>, p: nat, x: Node<K, V>, contents: map<K, V>,
                                                    k: K)
    requires p < |level| && x.entry.Entry? && Holds(level, contents)
    requires k == x.entry.key || k in contents
    ensures exists i :: 1 <= i < |InsertAfter(level, p, x)| && InsertAfter(level, p, x)[i].entry == Entry(k,
         InsertAfter(level, p, x)[i].entry.value)
  {
    var g := InsertAfter(level, p, x);
    if k == x.entry.key {
      assert g[p + 1] == x;
    } else {
      var i :| 1 <= i < |level| && level[i].entry.key == k;
      assert g[if i <= p then i else i + 1] == level[i];
    }
  }

  lemma {:induction false} GrownBottom<K(!new), V>(level: seq<Node<K, V>>, height: nat, p: nat, cmp: (K, K) -> int,
                                                   prev: Node<K, V>, x: Node<K, V>, contents: map<K, V>)
    requires x.entry.Entry? && height >= 1 && PrevOk(level, cmp, x.entry.key, p, prev)
    requires Holds(level, contents) && x.entry.key !in contents
    ensures Holds(Grown(level, 0, height, p, x), contents[x.entry.key := x.entry.value])
    ensures |Grown(level, 0, height, p, x)| == |level| + 1
  {
    hide Holds, Ordered;
    HoldsInsert(level, p, x, contents);
  }

  /** A level ready to take the new node after the given position. */
  ghost predicate LinkOk<K(!new), V>(level: seq<Node<K, V>>, l: nat, prev: Node<K, V>, p: nat, x: Node<K, V>)
    reads level
  {
    && Linked(level, l) && p < |level| && prev == level[p] && x !in level
    && forall a, b :: 0 <= a < b < |level| ==> level[a] != level[b]
  }

  /** The list of a level after the insertion of a node of the given height. */
  ghost function Grown<K(!new), V>(level: seq<Node<K, V>>, l: nat, height: nat, p: nat, x: Node<K, V>): seq<Node<K, V>>
  {
    if l < height && p < |level| then InsertAfter(level, p, x) else level
  }

  method LinkLevel<K(!new), V>(x: Node<K, V>, prev: Node<K, V>, i: nat, ghost level: seq<Node<K, V>>, ghost p: nat)
    requires LinkOk(level, i, prev, p, x) && i < |x.next|
    modifies x`next, prev`next
    ensures x.next == old(x.next)[i := old(prev.next[i])] && |prev.next| > i && prev.next == old(prev.next)[i := x]
    ensures Linked(InsertAfter(level, p, x), i)
  {
    x.next := x.next[i := prev.next[i]];
    prev.next := prev.next[i := x];
    ghost var s := InsertAfter(level, p, x);
    forall k | 0 <= k < |s| ensures |s[k].next| > i && s[k].next[i] == Successor(s, k) {
      assert s[k] == if k <= p then level[k] else if k == p + 1 then x else level[k - 1];
      assert k + 1 < |s| ==> s[k + 1] == if k + 1 <= p then level[k + 1] else if k + 1 == p + 1 then x else level[k];
    }
  }

  /** Relinking one level leaves the links of every other level alone. */
  method LinkStep<K(!new), V>(x: Node<K, V>, prev: Node<K, V>, i: nat, ghost levels: seq<seq<Node<K, V>>>, ghost p: nat)
    requires i < |levels| && i < |x.next| && LinkOk(levels[i], i, prev, p, x)
    requires forall l :: 0 <= l < |levels| ==> Linked(levels[l], l)
    modifies x`next, prev`next
    ensures |x.next| == |old(x.next)| && |prev.next| == |old(prev.next)|
    ensures forall l :: 0 <= l < |levels| && l != i ==> Linked(levels[l], l)
    ensures Linked(InsertAfter(levels[i], p, x), i)
  {
    LinkLevel(x, prev, i, levels[i], p);
    forall l, k | 0 <= l < |levels| && l != i && 0 <= k < |levels[l]|
      ensures |levels[l][k].next| > l && levels[l][k].next[l] == Successor(levels[l], k)
    {
      assert old(Linked(levels[l], l));
      assert old(|levels[l][k].next|) > l && old(levels[l][k].next[l]) == Successor(levels[l], k);
    }
  }

  method LinkNode<K(!new), V>(x: Node<K, V>, prevTable: seq<Node<K, V>>, height: nat,
                              ghost before: seq<seq<Node<K, V>>>, ghost pos: seq<nat>)
    returns (ghost after: seq<seq<Node<K, V>>>)
    requires |prevTable| == |pos| == |before| && height <= |before| && |x.next| == height
    requires forall l :: 0 <= l < |before| ==> LinkOk(before[l], l, prevTable[l], pos[l], x)
    modifies x`next, prevTable
    ensures |after| == |before|
    ensures forall l :: 0 <= l < |before| ==> after[l] == Grown(before[l], l, height, pos[l], x) && Linked(after[l], l)
  {
    after := before;
    for i := 0 to height
      invariant |after| == |before| && |x.next| == height
      invariant forall l :: i <= l < |before| ==> after[l] == before[l]
      invariant forall l :: 0 <= l < i ==> after[l] == Grown(before[l], l, height, pos[l], x)
      invariant forall l :: 0 <= l < |before| ==> Linked(after[l], l)
    {
      assert LinkOk(after[i], i, prevTable[i], pos[i], x);
      LinkStep(x, prevTable[i], i, after, pos[i]);
      after := after[i := InsertAfter(after[i], pos[i], x)];
    }
  }

  lemma {:induction false} SearchDecides<K(!new), V>(level: seq<Node<K, V>>, head: Node<K, V>, cmp: (K, K) -> int,
                                                     nodes: set<Node<K, V>>, key: K, p: nat, prev: Node<K, V>,
                                                     contents: map<K, V>)
    requires TotalOrder(cmp) && Shape(level, head, cmp, nodes) && Holds(level, contents)
    requires PrevOk(level, cmp, key, p, prev)
    ensures var x := Successor(level, p);
            && (x != null ==> x.entry.Entry?)
            && (key in contents <==> x != null && cmp(key, x.entry.key) == 0)
            && (key in contents ==> contents[key] == x.entry.value)
  {
    hide Transitive;
    if key in contents {
      var i :| 1 <= i < |level| && level[i].entry.key == key;
      assert cmp(key, level[i].entry.key) == 0;
    }
  }

  ghost function Pairs<K(!new), V>(level: seq<Node<K, V>>, lo: nat, hi: nat): seq<(K, V)>
    requires 1 <= lo <= hi <= |level| && forall i :: 1 <= i < |level| ==> level[i].entry.Entry?
  {
    seq(hi - lo, i requires 0 <= i < hi - lo => (level[lo + i].entry.key, level[lo + i].entry.value))
  }

  /** The pairs up to a bound are a slice of the level. */
  lemma {:induction false} UptoSlice<K(!new), V>(level: seq<Node<K, V>>, at: nat, cmp: (K, K) -> int,
                                                 higher: Option<K>) returns (e: nat)
    requires Ordered(level, cmp) && 1 <= at <= |level|
    ensures at <= e <= |level| && Upto(level, at, cmp, higher) == Pairs(level, at, e)
    ensures higher.Some? ==> forall i :: at <= i < e ==> cmp(level[i].entry.key, higher.value) <= 0
    ensures e < |level| ==> higher.Some? && cmp(level[e].entry.key, higher.value) > 0
    decreases |level| - at
  {
    if at == |level| || (higher.Some? && cmp(level[at].entry.key, higher.value) > 0) {
      e := at;
    } else {
      e := UptoSlice(level, at + 1, cmp, higher);
      assert Pairs(level, at, e) == [(level[at].entry.key, level[at].entry.value)] + Pairs(level, at + 1, e);
    }
  }

  /** The bound that the positions from `at` on respect. */
  ghost predicate StartsAt<K(!new), V>(level: seq<Node<K, V>>, cmp: (K, K) -> int, lower: Option<K>, at: nat)
  {
    && Ordered(level, cmp) && 1 <= at <= |level|
    && (lower.None? ==> at == 1)
    && (lower.Some? ==> forall i :: 1 <= i < at ==> cmp(lower.value, level[i].entry.key) > 0)
    && (lower.Some? ==> forall i :: at <= i < |level| ==> cmp(lower.value, level[i].entry.key) <= 0)
  }

  /** Every pair within bounds is in the slice. */
  lemma {:induction false} SliceComplete<K(!new), V>(level: seq<Node<K, V>>, cmp: (K, K) -> int, lower: Option<K>,
                                                     higher: Option<K>, at: nat, e: nat, contents: map<K, V>, k: K)
    requires TotalOrder(cmp) && Holds(level, contents) && StartsAt(level, cmp, lower, at) && at <= e <= |level|
    requires e < |level| ==> higher.Some? && cmp(level[e].entry.key, higher.value) > 0
    requires k in contents && Within(k, cmp, lower, higher)
    ensures exists i :: 0 <= i < |Pairs(level, at, e)| && Pairs(level, at, e)[i].0 == k
  {
    hide TotalOrder;
    var i :| 1 <= i < |level| && level[i].entry.key == k;
    assert i < e by {
      if i >= e {
        AboveEnd(level, cmp, higher, e, i);
      }
    }
    assert i >= at;
    assert Pairs(level, at, e)[i - at].0 == k;
  }

  lemma {:induction false} SliceOrdered<K(!new), V>(level: seq<Node<K, V>>, cmp: (K, K) -> int, at: nat, e: nat)
    requires Ordered(level, cmp) && 1 <= at <= e <= |level|
    ensures var out := Pairs(level, at, e); forall i, j :: 0 <= i < j < |out| ==> cmp(out[i].0, out[j].0) < 0
  {
    var out := Pairs(level, at, e);
    forall i, j | 0 <= i < j < |out| ensures cmp(out[i].0, out[j].0) < 0 {
      assert out[i].0 == level[at + i].entry.key && out[j].0 == level[at + j].entry.key;
    }
  }

  lemma {:induction false} SliceSound<K(!new), V>(level: seq<Node<K, V>>, cmp: (K, K) -> int, lower: Option<K>,
                                                  higher: Option<K>, at: nat, e: nat, contents: map<K, V>)
    requires Holds(level, contents) && StartsAt(level, cmp, lower, at) && at <= e <= |level|
    requires higher.Some? ==> forall i :: at <= i < e ==> cmp(level[i].entry.key, higher.value) <= 0
    ensures var out := Pairs(level, at, e);
            forall i :: 0 <= i < |out| ==>
              out[i].0 in contents && contents[out[i].0] == out[i].1 && Within(out[i].0, cmp, lower, higher)
  {
    var out := Pairs(level, at, e);
    forall i | 0 <= i < |out|
      ensures out[i].0 in contents && contents[out[i].0] == out[i].1 && Within(out[i].0, cmp, lower, higher)
    {
      assert out[i] == (level[at + i].entry.key, level[at + i].entry.value);
    }
  }

  lemma {:induction false} SliceIsRange<K(!new), V>(level: seq<Node<K, V>>, cmp: (K, K) -> int, lower: Option<K>,
                                                    higher: Option<K>, at: nat, contents: map<K, V>)
    requires TotalOrder(cmp) && Holds(level, contents) && StartsAt(level, cmp, lower, at)
    ensures IsRange(Upto(level, at, cmp, higher), contents, cmp, lower, higher)
  {
    hide Upto, TotalOrder, Holds, Ordered;
    var e := UptoSlice(level, at, cmp, higher);
    SliceOrdered(level, cmp, at, e);
    SliceSound(level, cmp, lower, higher, at, e, contents);
    var out := Upto(level, at, cmp, higher);
    forall k | k in contents && Within(k, cmp, lower, higher) ensures exists i :: 0 <= i < |out| && out[i].0 == k {
      SliceComplete(level, cmp, lower, higher, at, e, contents, k);
    }
    hide Pairs, StartsAt;
  }

  lemma {:induction false} AboveEnd<K(!new), V>(level: seq<Node<K, V>>, cmp: (K, K) -> int, higher: Option<K>, e: nat,
                                                i: nat)
    requires TotalOrder(cmp) && Ordered(level, cmp) && 1 <= e <= i < |level|
    requires higher.Some? && cmp(level[e].entry.key, higher.value) > 0
    ensures cmp(level[i].entry.key, higher.value) > 0
  {
    assert i > e ==> cmp(level[e].entry.key, level[i].entry.key) < 0;
    assert cmp(higher.value, level[e].entry.key) < 0;
  }

  lemma {:induction false} UptoIsRange<K(!new), V>(level: seq<Node<K, V>>, head: Node<K, V>, cmp: (K, K) -> int,
                                                   nodes: set<Node<K, V>>, lower: K, higher: Option<K>, p: nat,
                                                   prev: Node<K, V>, contents: map<K, V>)
    requires TotalOrder(cmp) && Shape(level, head, cmp, nodes) && Holds(level, contents)
    requires PrevOk(level, cmp, lower, p, prev)
    ensures p < |level| && IsRange(Upto(level, p + 1, cmp, higher), contents, cmp, Some(lower), higher)
  {
    hide TotalOrder, Holds, IsRange, Upto;
    SliceIsRange(level, cmp, Some(lower), higher, p + 1, contents);
  }

  lemma {:induction false} WholeRange<K(!new), V>(level: seq<Node<K, V>>, head: Node<K, V>, cmp: (K, K) -> int,
                                                  nodes: set<Node<K, V>>, contents: map<K, V>)
    requires TotalOrder(cmp) && Shape(level, head, cmp, nodes) && Holds(level, contents)
    ensures IsRange(Upto(level, 1, cmp, None), contents, cmp, None, None)
  {
    hide TotalOrder, Holds, IsRange, Upto;
    SliceIsRange(level, cmp, None, None, 1, contents);
  }
}
