/** The k-way merge queue: a 1-based binary heap of iterators, ordered by the key each iterator stands on. */
module PriorityQueue {
  import opened Bytes
  import opened Tables

  /** One record of one source; the context names the source. */
  datatype Item = Item(key: bytes, value: Value, ctx: int)

  /** A source: its context and the entries its iterator will return. */
  datatype Source = Source(ctx: int, entries: seq<Entry>)

  /** A heap slot: the record an iterator stands on, and what the iterator has left. Slot 0 stays unused. */
  datatype Element = Nil | Element(key: bytes, value: Value, rest: Source)

  ghost function Items(s: Source): multiset<Item>
    decreases |s.entries|
  {
    if s.entries == [] then multiset{} else
      multiset{Item(s.entries[0].key, s.entries[0].value, s.ctx)} + Items(Source(s.ctx, s.entries[1..]))
  }

  ghost function ElementItems(e: Element): multiset<Item>
  {
    if e.Nil? then multiset{} else multiset{Item(e.key, e.value, e.rest.ctx)} + Items(e.rest)
  }

  /** All records that the elements still hold. */
  ghost function Remaining(h: seq<Element>): multiset<Item>
  {
    if h == [] then multiset{} else ElementItems(h[0]) + Remaining(h[1..])
  }

  ghost function AllItems(sources: seq<Source>): multiset<Item>
  {
    if sources == [] then multiset{} else AllItems(sources[..|sources| - 1]) + Items(sources[|sources| - 1])
  }

  // ---------- permutations keep what remains ----------

  lemma {:induction false} RemainingAt(h: seq<Element>, i: nat)
    requires i < |h|
    ensures Remaining(h) == ElementItems(h[i]) + Remaining(h[..i] + h[i + 1..])
  {
    hide ElementItems;
    if i == 0 {
      assert h[..0] + h[1..] == h[1..];
    } else {
      RemainingAt(h[1..], i - 1);
      assert (h[..i] + h[i + 1..])[1..] == h[1..][..i - 1] + h[1..][i..];
      assert (h[..i] + h[i + 1..])[0] == h[0];
    }
  }

  ghost predicate Permuted(a: seq<Element>, b: seq<Element>)
  {
    multiset(a) == multiset(b)
  }

  lemma {:induction false} RemainingPermuted(a: seq<Element>, b: seq<Element>)
    requires Permuted(a, b)
    ensures Remaining(a) == Remaining(b)
  {
    if a == [] {
      assert |b| == |multiset(b)|;
    } else {
      var i := DropFirst(a, b);
      hide Permuted, Remaining, ElementItems;
      RemainingPermuted(a[1..], b[..i] + b[i + 1..]);
      RemainingAt(a, 0);
      assert a[..0] + a[1..] == a[1..];
      RemainingAt(b, i);
    }
  }

  lemma {:induction false} DropFirst(a: seq<Element>, b: seq<Element>) returns (i: nat)
    requires Permuted(a, b) && a != []
    ensures i < |b| && b[i] == a[0] && Permuted(a[1..], b[..i] + b[i + 1..])
  {
    assert a[0] in multiset(b);
    i :| 0 <= i < |b| && b[i] == a[0];
    MultisetAt(a, 0);
    MultisetAt(b, i);
    assert a[..0] + a[1..] == a[1..];
    var b' := b[..i] + b[i + 1..];
    assert multiset(b) == multiset{a[0]} + multiset(b');
    assert multiset(a) == multiset{a[0]} + multiset(a[1..]);
    assert multiset(a[1..]) == (multiset{a[0]} + multiset(a[1..])) - multiset{a[0]};
    assert multiset(b') == (multiset{a[0]} + multiset(b')) - multiset{a[0]};
  }

  lemma {:induction false} MultisetAt(s: seq<Element>, i: nat)
    requires i < |s|
    ensures multiset(s) == multiset{s[i]} + multiset(s[..i] + s[i + 1..])
  {
    assert s == s[..i] + [s[i]] + s[i + 1..];
  }

  lemma {:induction false} SwapKeeps(s: seq<Element>, i: nat, j: nat, original: seq<Element>)
    requires i < |s| && j < |s| && Permuted(s, original)
    ensures Permuted(s[i := s[j]][j := s[i]], original)
  {
  }

  // ---------- order ----------

  predicate Leq(a: bytes, b: bytes)
  {
    !Less(b, a)
  }

  lemma {:induction false} LeqTransitive(a: bytes, b: bytes, c: bytes)
    requires Leq(a, b) && Leq(b, c)
    ensures Leq(a, c)
  {
    LessTrichotomy(a, b);
    LessTrichotomy(b, c);
    if Less(c, a) {
      if a == b || b == c {
      } else {
        LessTransitive(a, b, c);
        LessTrichotomy(a, c);
      }
    }
  }

  lemma {:induction false} LessIsLeq(a: bytes, b: bytes)
    requires Less(a, b)
    ensures Leq(a, b)
  {
    LessTrichotomy(a, b);
  }

  /** Slots 1 to size are filled. */
  ghost predicate Filled(h: seq<Element>, size: nat)
  {
    |h| == size + 1 && forall i :: 1 <= i <= size ==> h[i].Element?
  }

  ghost predicate ParentOk(h: seq<Element>, m: nat)
    requires 2 <= m < |h| && h[m].Element? && h[m / 2].Element?
  {
    Leq(h[m / 2].key, h[m].key)
  }

  ghost predicate HeapOrder(h: seq<Element>, size: nat)
    requires Filled(h, size)
  {
    forall m :: 2 <= m <= size ==> ParentOk(h, m)
  }

  /** The root is a minimum. */
  lemma {:induction false} RootIsLeast(h: seq<Element>, size: nat, m: nat)
    requires Filled(h, size) && HeapOrder(h, size) && 1 <= m <= size
    ensures Leq(h[1].key, h[m].key)
  {
    hide Less;
    if m == 1 {
      LessTrichotomy(h[1].key, h[1].key);
    } else {
      RootIsLeast(h, size, m / 2);
      assert ParentOk(h, m);
      LeqTransitive(h[1].key, h[m / 2].key, h[m].key);
    }
  }

  class PriorityQueue {
    var size: nat
    var heap: seq<Element>

    /** Moves the element at a leaf up to its place. */
    method UpHeap(leaf: nat)
      requires Filled(heap, size) && 1 <= leaf <= size
      requires forall m :: 2 <= m <= size && m != leaf ==> ParentOk(heap, m)
      requires forall m :: 2 <= m <= size ==> m / 2 != leaf
      modifies this`heap
      ensures Filled(heap, size) && HeapOrder(heap, size)
      ensures heap[0] == old(heap[0]) && Permuted(heap, old(heap))
    {
      assert Permuted(heap, heap);
      assert Rising(heap, size, leaf);
      hide Less, Leq, Rising, Permuted, HeapOrder, ParentOk;
      var i := leaf;
      var element := heap[i];
      var j := i / 2;
      ghost var v := heap;
      while j > 0 && Less(element.key, heap[j].key)
        invariant 1 <= i <= size && j == i / 2
        invariant Filled(heap, size) && element.Element? && v == heap[i := element] && heap[0] == old(heap[0])
        invariant Permuted(v, old(heap)) && Rising(v, size, i)
        decreases i
      {
        UpStep(v, size, i);
        SwapKeeps(v, i, j, old(heap));
        HoleMoves(heap, size, i, j, element);
        v := v[i := v[j]][j := v[i]];
        heap := heap[i := heap[j]];
        i := j;
        j := j / 2;
      }
      heap := heap[i := element];
      UpDone(v, size, i);
    }

    /** Moves the root down to its place. */
    method DownHeap()
      requires Filled(heap, size)
      requires forall m :: 2 <= m <= size && m / 2 != 1 ==> ParentOk(heap, m)
      modifies this`heap
      ensures Filled(heap, size) && HeapOrder(heap, size)
      ensures heap[0] == old(heap[0]) && Permuted(heap, old(heap))
    {
      if size == 0 {
        return;
      }
      assert Permuted(heap, heap);
      SiftingStart(heap, size);
      hide Less, Leq, Sifting, LeastChild, Permuted, HeapOrder, ParentOk;
      var i := 1;
      var element := heap[i];
      ghost var v := heap;
      var j := SmallerChild(i, element);
      while j <= size && Less(heap[j].key, element.key)
        invariant 1 <= i <= size && (j == 2 * i || j == 2 * i + 1)
        invariant Filled(heap, size) && element.Element? && v == heap[i := element] && heap[0] == old(heap[0])
        invariant Permuted(v, old(heap))
        invariant Sifting(v, size, i) && LeastChild(v, size, i, j)
        decreases size - i
      {
        DownStep(v, size, i, j);
        SwapKeeps(v, i, j, old(heap));
        HoleMoves(heap, size, i, j, element);
        v := v[i := v[j]][j := v[i]];
        heap := heap[i := heap[j]];
        i := j;
        j := SmallerChild(i, element);
      }
      heap := heap[i := element];
      DownDone(v, size, i, j);
    }

    /** The left child, or the right one when it is smaller. */
    method SmallerChild(i: nat, ghost element: Element) returns (j: nat)
      requires Filled(heap, size) && 1 <= i <= size && element.Element?
      ensures (j == 2 * i || j == 2 * i + 1) && LeastChild(heap[i := element], size, i, j)
    {
      hide Less;
      j := 2 * i;
      var k := j + 1;
      if k <= size && Less(heap[k].key, heap[j].key) {
        LessTrichotomy(heap[k].key, heap[j].key);
        j := k;
      }
      ghost var v := heap[i := element];
      forall m | 2 <= m <= size && m / 2 == i ensures Leq(v[j].key, v[m].key) {
        LessTrichotomy(heap[j].key, heap[j].key);
        assert m == 2 * i || m == 2 * i + 1;
      }
    }

    /** A heap of the records that the iterators stand on, whatever they will return later. */
    ghost predicate Heaped()
      reads this
    {
      Filled(heap, size) && heap[0].Nil? && HeapOrder(heap, size)
    }

    ghost predicate Valid()
      reads this
    {
      Heaped() && AllSorted(heap)
    }

    /** Puts every source that has a first record into the heap. */
    constructor (sources: seq<Source>)
      requires SortedSources(sources)
      ensures Valid() && Remaining(heap) == AllItems(sources)
    {
      size, heap := 0, [Nil];
      new;
      hide Less, Leq;
      for i := 0 to |sources|
        invariant Valid() && Remaining(heap) == AllItems(sources[..i])
      {
        assert sources[..i + 1][..i] == sources[..i];
        Push(sources[i]);
      }
      assert sources[..|sources|] == sources;
    }

    method Push(source: Source)
      requires Valid() && SortedEntries(source.entries)
      modifies this
      ensures Valid() && Remaining(heap) == old(Remaining(heap)) + Items(source)
    {
      if source.entries == [] {
        return;
      }
      hide Less, Leq, HeapOrder, AllSorted, Remaining, SortedEntries, ParentOk, Permuted, Items;
      var e := FillNext(source);
      Appended(heap, size, source);
      heap := heap + [e];
      size := size + 1;
      ghost var appended := heap;
      UpHeap(size);
      RemainingPermuted(heap, appended);
      SortedPermuted(heap, appended);
    }

    /** Drops the root, whose source is exhausted: it moves to the last slot and is chopped off. */
    method RemoveRoot()
      requires Heaped() && size >= 1 && heap[1].rest.entries == []
      modifies this
      ensures Filled(heap, size) && heap[0].Nil? && (old(AllSorted(heap)) ==> AllSorted(heap))
      ensures multiset(heap) + multiset{old(heap)[1]} == old(multiset(heap))
      ensures forall m :: 2 <= m <= size && m / 2 != 1 ==> ParentOk(heap, m)
      ensures Remaining(heap) == old(Remaining(heap)) - multiset{RootItem(old(heap))}
    {
      hide Less, Leq, HeapOrder, AllSorted, Remaining, ParentOk, Permuted;
      ghost var before := heap;
      heap := heap[1 := heap[size]][size := heap[1]];
      LastApart(before, heap, size);
      heap := heap[..size];
      size := size - 1;
      Chopped(before, heap, size);
    }

    /** Lets the root stand on the next record of its source. */
    method AdvanceRoot()
      requires Heaped() && size >= 1 && heap[1].rest.entries != []
      modifies this
      ensures Filled(heap, size) && heap[0].Nil? && (old(AllSorted(heap)) ==> AllSorted(heap))
      ensures multiset(heap) + multiset{old(heap)[1]} == old(multiset(heap)) + multiset{FillNext(old(heap)[1].rest)}
      ensures forall m :: 2 <= m <= size && m / 2 != 1 ==> ParentOk(heap, m)
      ensures Remaining(heap) == old(Remaining(heap)) - multiset{RootItem(old(heap))}
    {
      hide Less, Leq, HeapOrder, AllSorted, Remaining, ParentOk, Permuted;
      Advanced(heap, size);
      MultisetAt(heap, 1);
      MultisetAt(heap[1 := FillNext(heap[1].rest)], 1);
      heap := heap[1 := FillNext(heap[1].rest)];
      assert heap[..1] + heap[2..] == old(heap)[..1] + old(heap)[2..];
    }

    /**
     Returns a least of the records that the iterators stand on, and lets its iterator go on. Over sorted sources that
     is a least record of all; what remains is everything else. Nothing is returned when nothing remains.
     */
    method Next() returns (r: Option<Item>)
      requires Heaped()
      modifies this
      ensures Heaped() && (old(Valid()) ==> Valid())
      ensures r.None? <==> old(Remaining(heap)) == multiset{}
      ensures r.None? ==> Remaining(heap) == multiset{} && old(size) == 0
      ensures r.Some? ==> r.value in old(Remaining(heap)) && Remaining(heap) == old(Remaining(heap)) - multiset{r.value}
      ensures r.Some? && old(Valid()) ==> forall x :: x in old(Remaining(heap)) ==> Leq(r.value.key, x.key)
      ensures r.Some? ==> exists e: Element :: e.Element? && HandedBy(old(heap), heap, e) && r.value == RootItemOf(e)
    {
      hide Less, Leq, HeapOrder, AllSorted, Remaining, ParentOk, Permuted, HandedBy;
      if size == 0 {
        NothingRemains(heap);
        return None;
      }
      var top := heap[1];
      r := Some(Item(top.key, top.value, top.rest.ctx));
      RootRemains(heap, size);
      if AllSorted(heap) {
        RootIsLeastItem(heap, size);
      }
      if top.rest.entries == [] {
        RemoveRoot();
      } else {
        AdvanceRoot();
      }
      ghost var unsifted := heap;
      DownHeap();
      RemainingPermuted(heap, unsifted);
      if AllSorted(unsifted) {
        SortedPermuted(heap, unsifted);
      }
      RootHanded(old(heap), unsifted, heap, old(size));
    }
  }

  /** The heap gave the record of one of its elements, a least one, and let the iterator of that element go on. */
  ghost predicate HandedBy(before: seq<Element>, after: seq<Element>, e: Element)
  {
    && e.Element? && e in before && (forall x :: x in before && x.Element? ==> Leq(e.key, x.key))
    && multiset(after) + multiset{e}
       == multiset(before) + if e.rest.entries == [] then multiset{} else multiset{FillNext(e.rest)}
  }

  lemma {:induction false} RootHanded(before: seq<Element>, unsifted: seq<Element>, after: seq<Element>, size: nat)
    requires Filled(before, size) && size >= 1 && before[0].Nil? && HeapOrder(before, size)
    requires Permuted(after, unsifted)
    requires var e := before[1];
             multiset(unsifted) + multiset{e}
             == multiset(before) + if e.rest.entries == [] then multiset{} else multiset{FillNext(e.rest)}
    ensures HandedBy(before, after, before[1])
  {
    hide Leq, HeapOrder;
    forall x | x in before && x.Element? ensures Leq(before[1].key, x.key) {
      var m :| 0 <= m < |before| && before[m] == x;
      RootIsLeast(before, size, m);
    }
  }

  lemma {:induction false} RootRemains(h: seq<Element>, size: nat)
    requires Filled(h, size) && size >= 1
    ensures RootItem(h) in Remaining(h)
  {
    hide Remaining;
    RemainingAt(h, 1);
  }

  lemma {:induction false} LastApart(before: seq<Element>, swapped: seq<Element>, size: nat)
    requires |before| == size + 1 && size >= 1 && swapped == before[1 := before[size]][size := before[1]]
    ensures multiset(swapped[..size]) + multiset{before[1]} == multiset(before)
  {
    SwapKeeps(before, 1, size, before);
    assert swapped == swapped[..size] + [before[1]];
  }

  /** Loads the next record of a source that has one. */
  function FillNext(s: Source): (e: Element)
    requires s.entries != []
  {
    Element(s.entries[0].key, s.entries[0].value, Source(s.ctx, s.entries[1..]))
  }

  ghost predicate SortedEntries(es: seq<Entry>)
  {
    forall i, j :: 0 <= i < j < |es| ==> Leq(es[i].key, es[j].key)
  }

  ghost predicate SortedSources(sources: seq<Source>)
  {
    forall i :: 0 <= i < |sources| ==> SortedEntries(sources[i].entries)
  }

  ghost predicate SortedElement(e: Element)
  {
    && e.Element? && SortedEntries(e.rest.entries)
    && forall i :: 0 <= i < |e.rest.entries| ==> Leq(e.key, e.rest.entries[i].key)
  }

  lemma {:induction false} NotLess(a: bytes, b: bytes)
    requires !Less(a, b)
    ensures Leq(b, a)
  {
  }

  /** Copying a neighbour into the hole moves the hole: seen with the element in the hole, two slots are exchanged. */
  lemma {:induction false} HoleMoves(h: seq<Element>, size: nat, i: nat, j: nat, element: Element)
    requires Filled(h, size) && 1 <= i <= size && 1 <= j <= size && i != j && element.Element?
    ensures var v := h[i := element]; v[i := v[j]][j := v[i]] == h[i := h[j]][j := element]
    ensures Filled(h[i := h[j]], size) && h[i := h[j]][0] == h[0]
  {
  }

  /** Order everywhere except above position i, whose children respect its parent. */
  ghost predicate Rising(v: seq<Element>, size: nat, i: nat)
  {
    && Filled(v, size) && 1 <= i <= size
    && (forall m :: 2 <= m <= size && m != i ==> ParentOk(v, m))
    && (i >= 2 ==> forall m :: 2 <= m <= size && m / 2 == i ==> Leq(v[i / 2].key, v[m].key))
  }

  /** One exchange with a greater parent: only the parent's own place can be out of order afterwards. */
  lemma {:induction false} UpStep(v: seq<Element>, size: nat, i: nat)
    requires Rising(v, size, i) && i >= 2 && Less(v[i].key, v[i / 2].key)
    ensures Rising(v[i := v[i / 2]][i / 2 := v[i]], size, i / 2)
  {
    hide Less, Leq;
    var j := i / 2;
    var w := v[i := v[j]][j := v[i]];
    LessIsLeq(v[i].key, v[j].key);
    forall m | 2 <= m <= size && m != j ensures ParentOk(w, m) {
      if m != i && m / 2 == j {
        assert ParentOk(v, m);
        LeqTransitive(v[i].key, v[j].key, v[m].key);
      } else if m != i && m / 2 != i {
        assert ParentOk(v, m);
      }
    }
    if j >= 2 {
      assert ParentOk(v, j);
      forall m | 2 <= m <= size && m / 2 == j ensures Leq(w[j / 2].key, w[m].key) {
        if m != i {
          assert ParentOk(v, m);
          LeqTransitive(v[j / 2].key, v[j].key, v[m].key);
        }
      }
    }
  }

  lemma {:induction false} UpDone(v: seq<Element>, size: nat, i: nat)
    requires Rising(v, size, i) && (i >= 2 ==> !Less(v[i].key, v[i / 2].key))
    ensures HeapOrder(v, size)
  {
    hide Less;
    forall m | 2 <= m <= size ensures ParentOk(v, m) {
    }
  }

  /** Order everywhere except below position i, whose children still respect the grandparent. */
  ghost predicate Sifting(v: seq<Element>, size: nat, i: nat)
  {
    && Filled(v, size) && 1 <= i <= size
    && (forall m :: 2 <= m <= size && m / 2 != i ==> ParentOk(v, m))
    && (i >= 2 ==> forall m :: 2 <= m <= size && m / 2 == i ==> Leq(v[i / 2].key, v[m].key))
  }

  ghost predicate LeastChild(v: seq<Element>, size: nat, i: nat, j: nat)
  {
    && Filled(v, size) && (2 * i <= size ==> j <= size)
    && (forall m :: 2 <= m <= size && m / 2 == i ==> j <= size && v[j].Element? && Leq(v[j].key, v[m].key))
  }

  lemma {:induction false} SiftingStart(v: seq<Element>, size: nat)
    requires Filled(v, size) && size >= 1 && forall m :: 2 <= m <= size && m / 2 != 1 ==> ParentOk(v, m)
    ensures Sifting(v, size, 1)
  {
  }

  /** One exchange with the least child: only the place of that child can be out of order afterwards. */
  lemma {:induction false} DownStep(v: seq<Element>, size: nat, i: nat, j: nat)
    requires Sifting(v, size, i) && LeastChild(v, size, i, j) && (j == 2 * i || j == 2 * i + 1) && j <= size
    requires Less(v[j].key, v[i].key)
    ensures Sifting(v[i := v[j]][j := v[i]], size, j)
  {
    hide Less, Leq;
    var w := v[i := v[j]][j := v[i]];
    LessIsLeq(v[j].key, v[i].key);
    forall m | 2 <= m <= size && m / 2 != j ensures ParentOk(w, m) {
      if m != i && m / 2 != i {
        assert ParentOk(v, m);
      }
    }
    forall m | 2 <= m <= size && m / 2 == j ensures Leq(w[j / 2].key, w[m].key) {
      assert ParentOk(v, m);
    }
  }

  lemma {:induction false} DownDone(v: seq<Element>, size: nat, i: nat, j: nat)
    requires Sifting(v, size, i) && LeastChild(v, size, i, j) && (j == 2 * i || j == 2 * i + 1)
    requires j > size || !Less(v[j].key, v[i].key)
    ensures HeapOrder(v, size)
  {
    hide Less, Leq;
    forall m | 2 <= m <= size ensures ParentOk(v, m) {
      if m / 2 == i {
        NotLess(v[j].key, v[i].key);
        LeqTransitive(v[i].key, v[j].key, v[m].key);
      }
    }
  }

  lemma {:induction false} ParentFrame(a: seq<Element>, b: seq<Element>, m: nat)
    requires 2 <= m < |a| && m < |b| && a[m] == b[m] && a[m / 2] == b[m / 2]
    requires a[m].Element? && a[m / 2].Element? && ParentOk(a, m)
    ensures ParentOk(b, m)
  {
  }

  ghost predicate AllSorted(h: seq<Element>)
  {
    forall m :: 1 <= m < |h| ==> SortedElement(h[m])
  }

  ghost function RootItemOf(e: Element): Item
    requires e.Element?
  {
    Item(e.key, e.value, e.rest.ctx)
  }

  ghost function RootItem(h: seq<Element>): Item
    requires |h| >= 2 && h[1].Element?
  {
    RootItemOf(h[1])
  }

  lemma {:induction false} FillNextSorted(s: Source)
    requires s.entries != [] && SortedEntries(s.entries)
    ensures SortedElement(FillNext(s))
  {
    hide Less, Leq;
    assert forall i :: 0 <= i < |s.entries| - 1 ==> s.entries[1..][i] == s.entries[i + 1];
  }

  lemma {:induction false} AppendedRemaining(h: seq<Element>, e: Element)
    ensures Remaining(h + [e]) == Remaining(h) + ElementItems(e)
  {
    hide Remaining, ElementItems;
    RemainingAt(h + [e], |h|);
    assert (h + [e])[..|h|] + (h + [e])[|h| + 1..] == h;
  }

  lemma {:induction false} Appended(h: seq<Element>, size: nat, source: Source)
    requires Filled(h, size) && HeapOrder(h, size) && AllSorted(h) && source.entries != []
    requires SortedEntries(source.entries)
    ensures var g := h + [FillNext(source)];
            && Filled(g, size + 1) && AllSorted(g)
            && (forall m :: 2 <= m <= size + 1 && m != size + 1 ==> ParentOk(g, m))
            && Remaining(g) == Remaining(h) + Items(source)
  {
    hide SortedElement, Remaining, SortedEntries, Items, ElementItems, ParentOk;
    var e := FillNext(source);
    var g := h + [e];
    FillNextSorted(source);
    AppendedRemaining(h, e);
    SourceItems(source);
    assert forall m :: 0 <= m <= size ==> g[m] == h[m];
    forall m | 2 <= m <= size ensures ParentOk(g, m) {
      ParentFrame(h, g, m);
    }
  }

  lemma {:induction false} SourceItems(s: Source)
    requires s.entries != []
    ensures ElementItems(FillNext(s)) == Items(s)
  {
  }

  lemma {:induction false} SortedPermuted(a: seq<Element>, b: seq<Element>)
    requires Permuted(a, b) && AllSorted(b) && |a| > 0 && |b| > 0 && b[0].Nil?
    requires forall m :: 1 <= m < |a| ==> a[m].Element?
    ensures AllSorted(a)
  {
    hide SortedElement;
    forall m | 1 <= m < |a| ensures SortedElement(a[m]) {
      assert a[m] in multiset(b);
      var k :| 0 <= k < |b| && b[k] == a[m];
    }
  }

  lemma {:induction false} NothingRemains(h: seq<Element>)
    requires |h| == 1 && h[0].Nil?
    ensures Remaining(h) == multiset{}
  {
    assert h[1..] == [];
  }

  lemma {:induction false} ItemsMember(s: Source, x: Item)
    requires x in Items(s)
    ensures exists i :: 0 <= i < |s.entries| && s.entries[i] == Entry(x.key, x.value) && s.ctx == x.ctx
    decreases |s.entries|
  {
    var e := s.entries[0];
    if x == Item(e.key, e.value, s.ctx) {
      assert s.entries[0] == Entry(x.key, x.value);
    } else {
      var t := Source(s.ctx, s.entries[1..]);
      ItemsMember(t, x);
      var i :| 0 <= i < |t.entries| && t.entries[i] == Entry(x.key, x.value);
      assert s.entries[i + 1] == t.entries[i];
    }
  }

  lemma {:induction false} RemainingMember(h: seq<Element>, x: Item)
    requires x in Remaining(h)
    ensures exists i :: 0 <= i < |h| && x in ElementItems(h[i])
  {
    hide ElementItems;
    if x in ElementItems(h[0]) {
    } else {
      RemainingMember(h[1..], x);
      var i :| 0 <= i < |h[1..]| && x in ElementItems(h[1..][i]);
      assert h[i + 1] == h[1..][i];
    }
  }

  lemma {:induction false} RootBelow(h: seq<Element>, size: nat, x: Item)
    requires Filled(h, size) && size >= 1 && h[0].Nil? && HeapOrder(h, size) && AllSorted(h)
    requires x in Remaining(h)
    ensures Leq(h[1].key, x.key)
  {
    hide Less, Leq;
    RemainingMember(h, x);
    var m :| 0 <= m < |h| && x in ElementItems(h[m]);
    assert m >= 1;
    RootIsLeast(h, size, m);
    if x != Item(h[m].key, h[m].value, h[m].rest.ctx) {
      ItemsMember(h[m].rest, x);
      var i :| 0 <= i < |h[m].rest.entries| && h[m].rest.entries[i] == Entry(x.key, x.value);
      LeqTransitive(h[1].key, h[m].key, x.key);
    }
  }

  lemma {:induction false} RootIsLeastItem(h: seq<Element>, size: nat)
    requires Filled(h, size) && size >= 1 && h[0].Nil? && HeapOrder(h, size) && AllSorted(h)
    ensures RootItem(h) in Remaining(h) && forall x :: x in Remaining(h) ==> Leq(h[1].key, x.key)
  {
    hide Less, Leq, HeapOrder, AllSorted, Remaining;
    RemainingAt(h, 1);
    forall x | x in Remaining(h) ensures Leq(h[1].key, x.key) {
      RootBelow(h, size, x);
    }
  }

  lemma {:induction false} ReplacedRemaining(h: seq<Element>, e: Element)
    requires |h| >= 2 && h[1].Element? && ElementItems(h[1]) == multiset{RootItemOf(h[1])} + ElementItems(e)
    ensures Remaining(h[1 := e]) == Remaining(h) - multiset{RootItemOf(h[1])}
  {
    hide Remaining, ElementItems, RootItemOf;
    RemainingAt(h, 1);
    RemainingAt(h[1 := e], 1);
    assert h[..1] + h[2..] == h[1 := e][..1] + h[1 := e][2..];
  }

  lemma {:induction false} Advanced(h: seq<Element>, size: nat)
    requires Filled(h, size) && size >= 1 && HeapOrder(h, size) && h[1].rest.entries != []
    ensures var g := h[1 := FillNext(h[1].rest)];
            && Filled(g, size) && (AllSorted(h) ==> AllSorted(g))
            && (forall m :: 2 <= m <= size && m / 2 != 1 ==> ParentOk(g, m))
            && Remaining(g) == Remaining(h) - multiset{RootItem(h)}
  {
    if AllSorted(h) {
      assert SortedElement(h[1]);
      FillNextSorted(h[1].rest);
    }
    SourceItems(h[1].rest);
    hide SortedElement, Remaining, ParentOk, Items;
    var e := FillNext(h[1].rest);
    var g := h[1 := e];
    ReplacedRemaining(h, e);
    forall m | 2 <= m <= size && m / 2 != 1 ensures ParentOk(g, m) {
      ParentFrame(h, g, m);
    }
  }

  lemma {:induction false} ChoppedRemaining(h: seq<Element>, size: nat)
    requires |h| == size + 2 && h[1].Element? && h[1].rest.entries == []
    ensures Remaining(h[1 := h[size + 1]][size + 1 := h[1]][..size + 1]) == Remaining(h) - multiset{RootItem(h)}
  {
    assert ElementItems(h[1]) == multiset{RootItem(h)};
    assert Permuted(h, h);
    hide Remaining, ElementItems, Permuted, RootItem;
    var s := h[1 := h[size + 1]][size + 1 := h[1]];
    SwapKeeps(h, 1, size + 1, h);
    RemainingPermuted(s, h);
    RemainingAt(s, size + 1);
    assert s[..size + 1] + s[size + 2..] == s[..size + 1];
  }

  /** Chopping the last slot keeps order and shape of the others. */
  lemma {:induction false} Chopped(h: seq<Element>, g: seq<Element>, size: nat)
    requires Filled(h, size + 1) && HeapOrder(h, size + 1) && h[0].Nil? && h[1].rest.entries == []
    requires g == h[1 := h[size + 1]][size + 1 := h[1]][..size + 1]
    ensures Filled(g, size) && g[0].Nil? && (AllSorted(h) ==> AllSorted(g))
    ensures forall m :: 2 <= m <= size && m / 2 != 1 ==> ParentOk(g, m)
    ensures Remaining(g) == Remaining(h) - multiset{RootItem(h)}
  {
    hide SortedElement, Remaining, ParentOk;
    ChoppedRemaining(h, size);
    assert forall m :: 1 <= m <= size ==> g[m] == if m == 1 then h[size + 1] else h[m];
    forall m | 2 <= m <= size && m / 2 != 1 ensures ParentOk(g, m) {
      ParentFrame(h, g, m);
    }
  }
}
