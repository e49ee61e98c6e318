/** A doubly linked queue whose nodes come from an embedded pool while it lasts: src/core/ymo_queue.c. */
module Queues {
  import opened Common

  class Node<T> {
    var queue: Queue?<T>
    var next: Node?<T>
    var prev: Node?<T>
    var data: Option<T>  // `None` is the null pointer

    constructor ()
      ensures queue == null
    {
      queue, next, prev, data := null, null, null, None;
    }
  }

  // ---------------------------------------------------------------- the heap as a value

  datatype Cell<T> = Cell(queue: Queue?<T>, next: Node?<T>, prev: Node?<T>, data: Option<T>)

  type Heap<T> = map<Node<T>, Cell<T>>

  ghost function Snap<T>(s: set<Node<T>>): (m: Heap<T>)
    reads s
  {
    map n | n in s :: Cell(n.queue, n.next, n.prev, n.data)
  }

  function At<T>(ns: seq<Node<T>>, i: int): (n: Node?<T>) {
    if 0 <= i < |ns| then ns[i] else null
  }

  ghost predicate Distinct<T>(ns: seq<Node<T>>) {
    forall i, j :: 0 <= i < j < |ns| ==> ns[i] != ns[j]
  }

  /** Node `i` of the list points to its neighbours. */
  ghost predicate LinkedAt<T>(m: Heap<T>, ns: seq<Node<T>>, i: int) {
    0 <= i < |ns| && ns[i] in m && m[ns[i]].next == At(ns, i + 1) && m[ns[i]].prev == At(ns, i - 1)
  }

  /** `next` and `prev` are each other's inverses along the list, and null at its ends. */
  ghost predicate Linked<T>(m: Heap<T>, ns: seq<Node<T>>) {
    forall i :: 0 <= i < |ns| ==> LinkedAt(m, ns, i)
  }

  ghost predicate StackedAt<T>(m: Heap<T>, ns: seq<Node<T>>, i: int) {
    0 <= i < |ns| && ns[i] in m && m[ns[i]].next == At(ns, i + 1)
  }

  ghost predicate Stacked<T>(m: Heap<T>, ns: seq<Node<T>>) {
    forall i :: 0 <= i < |ns| ==> StackedAt(m, ns, i)
  }

  ghost function DataOf<T>(m: Heap<T>, n: Node<T>): (d: Option<T>) {
    if n in m then m[n].data else None
  }

  ghost function Datas<T>(m: Heap<T>, ns: seq<Node<T>>): (r: seq<Option<T>>)
    ensures |r| == |ns|
  {
    seq(|ns|, i requires 0 <= i < |ns| => DataOf(m, ns[i]))
  }

  ghost predicate Apart<T>(xs: seq<Node<T>>, ys: seq<Node<T>>) {
    forall i, j :: 0 <= i < |xs| && 0 <= j < |ys| ==> xs[i] != ys[j]
  }

  /** A change elsewhere. */
  lemma LinkedFrame<T>(m: Heap<T>, ns: seq<Node<T>>, n: Node<T>, c: Cell<T>)
    requires Linked(m, ns) && Apart([n], ns)
    ensures Linked(m[n := c], ns) && Datas(m[n := c], ns) == Datas(m, ns)
  {
    assert [n][0] == n;
    forall i | 0 <= i < |ns|
      ensures LinkedAt(m[n := c], ns, i) && m[n := c][ns[i]] == m[ns[i]]
    {
      assert LinkedAt(m, ns, i);
    }
  }

  lemma StackedFrame<T>(m: Heap<T>, ns: seq<Node<T>>, n: Node<T>, c: Cell<T>)
    requires Stacked(m, ns) && Apart([n], ns)
    ensures Stacked(m[n := c], ns)
  {
    assert [n][0] == n;
    var m' := m[n := c];
    forall i | 0 <= i < |ns|
      ensures StackedAt(m', ns, i)
    {
      assert StackedAt(m, ns, i);
    }
  }

  /** A node's `next` or `prev` as set by a neighbour that may be absent. */
  function SetNext<T>(m: Heap<T>, n: Node?<T>, next: Node?<T>): (r: Heap<T>) {
    if n == null || n !in m then m else m[n := m[n].(next := next)]
  }

  function SetPrev<T>(m: Heap<T>, n: Node?<T>, prev: Node?<T>): (r: Heap<T>) {
    if n == null || n !in m then m else m[n := m[n].(prev := prev)]
  }

  lemma AppendLinked<T>(m: Heap<T>, ns: seq<Node<T>>, n: Node<T>, c: Cell<T>)
    requires Linked(m, ns) && Distinct(ns) && Apart([n], ns)
    requires c.next == null && c.prev == At(ns, |ns| - 1)
    ensures At(ns, |ns| - 1) != null ==> At(ns, |ns| - 1) in m
    ensures var m' := SetNext(m, At(ns, |ns| - 1), n)[n := c];
            Linked(m', ns + [n]) && Datas(m', ns + [n]) == Datas(m, ns) + [c.data]
  {
    assert [n][0] == n;
    if ns != [] { assert LinkedAt(m, ns, |ns| - 1); }
    var m' := SetNext(m, At(ns, |ns| - 1), n)[n := c];
    forall i | 0 <= i < |ns + [n]|
      ensures LinkedAt(m', ns + [n], i) && (i < |ns| ==> m'[ns[i]].data == m[ns[i]].data)
    {
      if i < |ns| { assert LinkedAt(m, ns, i); }
    }
  }

  lemma PrependLinked<T>(m: Heap<T>, ns: seq<Node<T>>, n: Node<T>, c: Cell<T>)
    requires Linked(m, ns) && Distinct(ns) && Apart([n], ns)
    requires c.next == At(ns, 0) && c.prev == null
    ensures At(ns, 0) != null ==> At(ns, 0) in m
    ensures var m' := SetPrev(m, At(ns, 0), n)[n := c];
            Linked(m', [n] + ns) && Datas(m', [n] + ns) == [c.data] + Datas(m, ns)
  {
    assert [n][0] == n;
    if ns != [] { assert LinkedAt(m, ns, 0); }
    var m' := SetPrev(m, At(ns, 0), n)[n := c];
    forall i | 0 <= i < |[n] + ns|
      ensures LinkedAt(m', [n] + ns, i) && (i > 0 ==> m'[ns[i - 1]].data == m[ns[i - 1]].data)
    {
      if i > 0 { assert LinkedAt(m, ns, i - 1); }
    }
  }

  function Without<T>(ns: seq<T>, k: nat): (r: seq<T>)
    requires k < |ns|
    ensures |r| == |ns| - 1
  {
    ns[..k] + ns[k + 1..]
  }

  lemma RemoveLinked<T>(m: Heap<T>, ns: seq<Node<T>>, k: nat)
    requires Linked(m, ns) && Distinct(ns) && k < |ns|
    ensures At(ns, k - 1) != null ==> At(ns, k - 1) in m
    ensures At(ns, k + 1) != null ==> At(ns, k + 1) in m
    ensures var m' := SetPrev(SetNext(m, At(ns, k - 1), At(ns, k + 1)), At(ns, k + 1), At(ns, k - 1));
            Linked(m', Without(ns, k)) && Datas(m', Without(ns, k)) == Without(Datas(m, ns), k)
  {
    if k > 0 { assert LinkedAt(m, ns, k - 1); }
    if k + 1 < |ns| { assert LinkedAt(m, ns, k + 1); }
    var m' := SetPrev(SetNext(m, At(ns, k - 1), At(ns, k + 1)), At(ns, k + 1), At(ns, k - 1));
    var r := Without(ns, k);
    forall i | 0 <= i < |r|
      ensures LinkedAt(m', r, i) && r[i] in m && m'[r[i]].data == m[r[i]].data
    {
      RemovedAt(m, ns, k, m', r, i);
    }
    DatasWithout(m, m', ns, r, k);
  }

  lemma DatasWithout<T>(m: Heap<T>, m': Heap<T>, ns: seq<Node<T>>, r: seq<Node<T>>, k: nat)
    requires k < |ns| && r == Without(ns, k)
    requires forall i :: 0 <= i < |r| ==> r[i] in m && r[i] in m' && m'[r[i]].data == m[r[i]].data
    ensures Datas(m', r) == Without(Datas(m, ns), k)
  {
  }

  lemma RemovedAt<T>(m: Heap<T>, ns: seq<Node<T>>, k: nat, m': Heap<T>, r: seq<Node<T>>, i: nat)
    requires Linked(m, ns) && Distinct(ns) && k < |ns| && r == Without(ns, k) && i < |r|
    requires (At(ns, k - 1) != null ==> At(ns, k - 1) in m) && (At(ns, k + 1) != null ==> At(ns, k + 1) in m)
    requires m' == SetPrev(SetNext(m, At(ns, k - 1), At(ns, k + 1)), At(ns, k + 1), At(ns, k - 1))
    ensures r[i] in m && LinkedAt(m', r, i) && m'[r[i]].data == m[r[i]].data
  {
    var j := if i < k then i else i + 1;
    assert r[i] == ns[j] && LinkedAt(m, ns, j);
    assert k > 0 && j != k - 1 ==> ns[j] != ns[k - 1];
    assert k + 1 < |ns| && j != k + 1 ==> ns[j] != ns[k + 1];
    assert At(r, i + 1) == if j == k - 1 then At(ns, k + 1) else At(ns, j + 1);
    assert At(r, i - 1) == if j == k + 1 then At(ns, k - 1) else At(ns, j - 1);
  }

  lemma PushStacked<T>(m: Heap<T>, ns: seq<Node<T>>, n: Node<T>, c: Cell<T>)
    requires Stacked(m, ns) && Apart([n], ns) && c.next == At(ns, 0)
    ensures Stacked(m[n := c], [n] + ns)
  {
    StackedFrame(m, ns, n, c);
    var m' := m[n := c];
    forall i | 0 <= i < |[n] + ns|
      ensures StackedAt(m', [n] + ns, i)
    {
      if i > 0 { assert StackedAt(m', ns, i - 1); }
    }
  }

  ghost function CellOf<T>(n: Node<T>): (c: Cell<T>)
    reads n
  {
    Cell(n.queue, n.next, n.prev, n.data)
  }

  /** One node's fields have been set. */
  lemma OneSet<T>(s: set<Node<T>>, m: Heap<T>, n: Node<T>)
    requires m.Keys == s && n in s && (forall x :: x in s && x != n ==> CellOf(x) == m[x])
    ensures Snap(s) == m[n := CellOf(n)]
  {
  }

  /** How many nodes of a list come from the pool. */
  ghost function Pooled<T>(ns: seq<Node<T>>, own: set<Node<T>>): (k: nat) {
    if ns == [] then 0 else Pooled(ns[..|ns| - 1], own) + (if ns[|ns| - 1] in own then 1 else 0)
  }

  lemma {:induction false} PooledSplit<T>(xs: seq<Node<T>>, ys: seq<Node<T>>, own: set<Node<T>>)
    ensures Pooled(xs + ys, own) == Pooled(xs, own) + Pooled(ys, own)
    decreases |ys|
  {
    if ys == [] {
      assert xs + ys == xs;
    } else {
      assert (xs + ys)[..|xs + ys| - 1] == xs + ys[..|ys| - 1];
      PooledSplit(xs, ys[..|ys| - 1], own);
    }
  }

  lemma PooledOne<T>(n: Node<T>, own: set<Node<T>>)
    ensures Pooled([n], own) == if n in own then 1 else 0
  {
    assert [n][..0] == [];
  }

  lemma PooledWithout<T>(ns: seq<Node<T>>, k: nat, own: set<Node<T>>)
    requires k < |ns|
    ensures Pooled(ns, own) == Pooled(Without(ns, k), own) + (if ns[k] in own then 1 else 0)
  {
    assert ns == ns[..k] + ([ns[k]] + ns[k + 1..]);
    PooledSplit(ns[..k], [ns[k]] + ns[k + 1..], own);
    PooledSplit([ns[k]], ns[k + 1..], own);
    PooledOne(ns[k], own);
    PooledSplit(ns[..k], ns[k + 1..], own);
  }

  // ---------------------------------------------------------------- the queue as a value

  /** Everything a queue consists of: the nodes' fields, its own fields, and the lists they spell out. */
  datatype Image<T> = Image(m: Heap<T>, head: Node?<T>, tail: Node?<T>, noItems: nat, pstack: Node?<T>,
                            items: seq<Node<T>>, frees: seq<Node<T>>, own: set<Node<T>>)

  ghost predicate Ends<T>(s: Image<T>) {
    && s.head == At(s.items, 0) && s.tail == At(s.items, |s.items| - 1) && s.noItems == |s.items|
    && s.pstack == At(s.frees, 0)
    && Distinct(s.items) && Distinct(s.frees) && Apart(s.items, s.frees)
  }

  /** Pool nodes, and no others, name the queue; free nodes are pool nodes. */
  ghost predicate Named<T>(q: Queue<T>, s: Image<T>) {
    && s.own <= s.m.Keys && (forall n :: n in s.m ==> s.m[n].queue == if n in s.own then q else null)
    && (forall i :: 0 <= i < |s.frees| ==> s.frees[i] in s.own)
  }

  /** All the nodes of the pool are free, or in the list, or are the `spare` ones. */
  ghost predicate Counted<T>(s: Image<T>, spare: nat) {
    |s.frees| + Pooled(s.items, s.own) + spare == |s.own|
  }

  ghost predicate Sound<T>(q: Queue<T>, s: Image<T>, spare: nat) {
    Ends(s) && Linked(s.m, s.items) && Stacked(s.m, s.frees) && Named(q, s) && Counted(s, spare)
  }

  /** Node `n` is in neither list. */
  ghost predicate Limbo<T>(s: Image<T>, n: Node<T>) {
    n in s.m && Apart([n], s.items) && Apart([n], s.frees)
  }

  function Spare<T>(s: Image<T>, n: Node<T>): (k: nat) {
    if n in s.own then 1 else 0
  }

  /** The queue after a node has been hung at its back. */
  ghost function Appended<T>(s: Image<T>, n: Node<T>, item: Option<T>): (r: Image<T>)
    requires n in s.m
  {
    s.(m := SetNext(s.m, s.tail, n)[n := Cell(s.m[n].queue, null, s.tail, item)],
       head := if s.tail == null then n else s.head, tail := n, noItems := s.noItems + 1, items := s.items + [n])
  }

  lemma AppendedHeap<T>(q: Queue<T>, s: Image<T>, n: Node<T>, item: Option<T>)
    requires Sound(q, s, Spare(s, n)) && Limbo(s, n)
    ensures s.tail != null ==> s.tail in s.m && s.tail != n
    ensures var r := Appended(s, n, item);
            Linked(r.m, r.items) && Stacked(r.m, r.frees) && DatasOf(r) == DatasOf(s) + [item]
  {
    AppendLinked(s.m, s.items, n, Cell(s.m[n].queue, null, s.tail, item));
    FreesElsewhere(s, n, s.tail, Appended(s, n, item).m);
    assert [n][0] == n;
  }

  lemma AppendSound<T>(q: Queue<T>, s: Image<T>, n: Node<T>, item: Option<T>)
    requires Sound(q, s, Spare(s, n)) && Limbo(s, n)
    ensures s.tail != null ==> s.tail in s.m && s.tail != n
    ensures Sound(q, Appended(s, n, item), 0) && DatasOf(Appended(s, n, item)) == DatasOf(s) + [item]
  {
    AppendedHeap(q, s, n, item);
    ApartSnoc(s.items, s.frees, n, s.own);
  }

  /** The queue after a node has been hung at its front. */
  ghost function Prepended<T>(s: Image<T>, n: Node<T>, item: Option<T>): (r: Image<T>)
    requires n in s.m
  {
    s.(m := SetPrev(s.m, s.head, n)[n := Cell(s.m[n].queue, s.head, null, item)],
       tail := if s.head == null then n else s.tail, head := n, noItems := s.noItems + 1, items := [n] + s.items)
  }

  lemma PrependedHeap<T>(q: Queue<T>, s: Image<T>, n: Node<T>, item: Option<T>)
    requires Sound(q, s, Spare(s, n)) && Limbo(s, n)
    ensures s.head != null ==> s.head in s.m && s.head != n
    ensures var r := Prepended(s, n, item);
            Linked(r.m, r.items) && Stacked(r.m, r.frees) && DatasOf(r) == [item] + DatasOf(s)
  {
    PrependLinked(s.m, s.items, n, Cell(s.m[n].queue, s.head, null, item));
    FreesElsewhere(s, n, s.head, Prepended(s, n, item).m);
    assert [n][0] == n;
  }

  lemma PrependSound<T>(q: Queue<T>, s: Image<T>, n: Node<T>, item: Option<T>)
    requires Sound(q, s, Spare(s, n)) && Limbo(s, n)
    ensures s.head != null ==> s.head in s.m && s.head != n
    ensures Sound(q, Prepended(s, n, item), 0) && DatasOf(Prepended(s, n, item)) == [item] + DatasOf(s)
  {
    PrependedHeap(q, s, n, item);
    ApartSnoc(s.items, s.frees, n, s.own);
  }

  /** The queue after its node `k` has been unlinked. */
  ghost function Unlinked<T>(s: Image<T>, k: nat): (r: Image<T>)
    requires k < |s.items| == s.noItems
  {
    var prev, next := At(s.items, k - 1), At(s.items, k + 1);
    s.(m := SetPrev(SetNext(s.m, prev, next), next, prev),
       head := if k == 0 then next else s.head, tail := if k + 1 == |s.items| then prev else s.tail,
       noItems := s.noItems - 1, items := Without(s.items, k))
  }

  lemma UnlinkSound<T>(q: Queue<T>, s: Image<T>, k: nat)
    requires Sound(q, s, 0) && k < |s.items|
    ensures s.items[k] in s.m && s.m[s.items[k]].next == At(s.items, k + 1)
        && s.m[s.items[k]].prev == At(s.items, k - 1)
    ensures At(s.items, k - 1) != null ==> At(s.items, k - 1) in s.m
    ensures At(s.items, k + 1) != null ==> At(s.items, k + 1) in s.m
    ensures Sound(q, Unlinked(s, k), Spare(s, s.items[k])) && Limbo(Unlinked(s, k), s.items[k])
    ensures DatasOf(Unlinked(s, k)) == Without(DatasOf(s), k)
  {
    assert LinkedAt(s.m, s.items, k);
    RemoveLinked(s.m, s.items, k);
    var r := Unlinked(s, k);
    PooledWithout(s.items, k, s.own);
    forall i | 0 <= i < |s.frees|
      ensures StackedAt(r.m, s.frees, i)
    {
      assert StackedAt(s.m, s.frees, i);
    }
    WithoutApart(s.items, s.frees, k);
    assert [s.items[k]][0] == s.items[k];
  }

  lemma WithoutApart<T>(items: seq<Node<T>>, frees: seq<Node<T>>, k: nat)
    requires Distinct(items) && Apart(items, frees) && k < |items|
    ensures Distinct(Without(items, k)) && Apart(Without(items, k), frees)
    ensures Apart([items[k]], Without(items, k)) && Apart([items[k]], frees)
  {
    var r := Without(items, k);
    assert forall i :: 0 <= i < |r| ==> r[i] == items[if i < k then i else i + 1];
  }

  /** Setting a new node, and one end of the list, leaves the free nodes alone. */
  lemma FreesElsewhere<T>(s: Image<T>, n: Node<T>, end: Node?<T>, m': Heap<T>)
    requires Stacked(s.m, s.frees) && Apart(s.items, s.frees) && Apart([n], s.frees)
    requires end == null || end == At(s.items, 0) || end == At(s.items, |s.items| - 1)
    requires forall x :: x in s.m && x != n && x != end ==> x in m' && m'[x] == s.m[x]
    ensures Stacked(m', s.frees)
  {
    assert [n][0] == n;
    forall i | 0 <= i < |s.frees|
      ensures StackedAt(m', s.frees, i)
    {
      assert StackedAt(s.m, s.frees, i) && s.frees[i] != n;
      if end != null {
        assert forall j :: 0 <= j < |s.items| ==> s.items[j] != s.frees[i];
      }
    }
  }

  /** The queue after the top of the stack has been taken off it. */
  ghost function Taken<T>(s: Image<T>): (r: Image<T>)
    requires s.frees != [] && s.frees[0] in s.m
  {
    s.(m := s.m[s.frees[0] := s.m[s.frees[0]].(next := null, prev := null)], pstack := s.m[s.frees[0]].next,
        frees := s.frees[1..])
  }

  lemma TakeSound<T>(q: Queue<T>, s: Image<T>)
    requires Sound(q, s, 0) && s.frees != []
    ensures s.frees[0] in s.m && s.frees[0] in s.own
    ensures Sound(q, Taken(s), 1) && Limbo(Taken(s), s.frees[0]) && DatasOf(Taken(s)) == DatasOf(s)
  {
    assert StackedAt(s.m, s.frees, 0);
    TakeTop(s.m, s.items, s.frees, s.m[s.frees[0]].(next := null, prev := null));
  }

  /** The queue with one more node in the heap. */
  lemma NewSound<T>(q: Queue<T>, s: Image<T>, n: Node<T>, c: Cell<T>)
    requires Sound(q, s, 0) && n !in s.m && c.queue == null
    ensures var r := s.(m := s.m[n := c]);
            Sound(q, r, Spare(r, n)) && Limbo(r, n) && DatasOf(r) == DatasOf(s)
  {
    NewNode(s.m, s.items, s.frees, n, c);
  }

  /** The queue with a node put back on the stack, or given back to the heap. */
  lemma DeleteSound<T>(q: Queue<T>, s: Image<T>, n: Node<T>)
    requires Sound(q, s, Spare(s, n)) && Limbo(s, n)
    ensures var r := if n in s.own
                     then s.(m := s.m[n := s.m[n].(next := s.pstack, prev := null)], pstack := n,
                         frees := [n] + s.frees)
                     else s.(m := s.m - {n});
            Sound(q, r, 0) && DatasOf(r) == DatasOf(s)
  {
    if n in s.own {
      PutBack(s.m, s.items, s.frees, n, s.m[n].(next := s.pstack, prev := null));
    } else {
      Dropped(s.m, s.items, s.frees, n);
    }
  }

  ghost function DatasOf<T>(s: Image<T>): (r: seq<Option<T>>) {
    Datas(s.m, s.items)
  }

  // ---------------------------------------------------------------- the pool

  ghost predicate PoolLinked<T>(q: Queue<T>, ns: seq<Node<T>>, j: int)
    reads ns
  {
    0 <= j < |ns| && ns[j].queue == q && ns[j].next == At(ns, j + 1) && ns[j].prev == At(ns, j - 1)
  }

  lemma PoolStacked<T>(q: Queue<T>, ns: seq<Node<T>>, s: set<Node<T>>)
    requires s == (set n | n in ns) && forall j :: 0 <= j < |ns| ==> PoolLinked(q, ns, j)
    ensures Stacked(Snap(s), ns) && forall n :: n in s ==> Snap(s)[n].queue == q
  {
    forall j | 0 <= j < |ns|
      ensures StackedAt(Snap(s), ns, j)
    {
      assert PoolLinked(q, ns, j) && ns[j] in ns;
    }
    forall n | n in s
      ensures Snap(s)[n].queue == q
    {
      var j :| 0 <= j < |ns| && ns[j] == n;
      assert PoolLinked(q, ns, j);
    }
  }

  lemma {:induction false} DistinctSize<T>(ns: seq<Node<T>>)
    requires Distinct(ns)
    ensures |set n | n in ns| == |ns|
  {
    if ns != [] {
      var init, n := ns[..|ns| - 1], ns[|ns| - 1];
      DistinctSize(init);
      assert (set x | x in ns) == (set x | x in init) + {n};
      assert n !in init;
    }
  }

  lemma PoolSound<T>(q: Queue<T>, ns: seq<Node<T>>, s: Image<T>)
    requires Distinct(ns) && forall j :: 0 <= j < |ns| ==> PoolLinked(q, ns, j)
    requires s.own == (set n | n in ns) && s.m == Snap(s.own) && s.frees == ns && s.pstack == At(ns, 0)
    requires s.items == [] && s.head == null && s.tail == null && s.noItems == 0
    ensures Sound(q, s, 0) && DatasOf(s) == [] && |s.own| == |ns|
  {
    PoolStacked(q, ns, s.own);
    DistinctSize(ns);
    assert forall i :: 0 <= i < |ns| ==> ns[i] in ns;
  }

  // ---------------------------------------------------------------- the queue

  class Queue<T> {
    var head: Node?<T>
    var tail: Node?<T>
    var noItems: nat
    var pstack: Node?<T>
    ghost var items: seq<Node<T>>  // front to back
    ghost var frees: seq<Node<T>>  // the stack of unused pool nodes, top first
    ghost var own: set<Node<T>>  // the nodes of the pool
    ghost var repr: set<Node<T>>

    ghost function Now(): (s: Image<T>)
      reads this, repr
    {
      Image(Snap(repr), head, tail, noItems, pstack, items, frees, own)
    }

    ghost predicate Valid()
      reads this, repr
    {
      Sound(this, Now(), 0)
    }

    /** What the queue holds, front to back. */
    ghost function Contents(): (r: seq<Option<T>>)
      reads this, repr
    {
      DatasOf(Now())
    }

    /** ymo_queue_create. */
    constructor ()
      ensures Valid() && Contents() == [] && own == {} && repr == {}
    {
      head, tail, noItems, pstack := null, null, 0, null;
      items, frees, own, repr := [], [], {}, {};
    }

    /** ymo_queue_pool_init, on a new queue. The nodes come in one array of at least two. */
    method PoolInit(pool: array<Node<T>>)
      requires Valid() && noItems == 0 && own == {} && repr == {} && pool.Length >= 2 && Distinct(pool[..])
      modifies this`pstack, this`frees, this`own, this`repr, set n | n in pool[..]
      ensures Valid() && Contents() == [] && |own| == pool.Length && repr == own && frees == pool[..]
    {
      var last := pool.Length - 1;
      ghost var ns := pool[..];
      PoolNode(pool, 0, null, pool[1]);
      PoolNode(pool, last, pool[last - 1], null);
      var i := 1;
      while i < last
        invariant 1 <= i <= last && pool[..] == ns
        invariant forall j :: (0 <= j < i || j == last) ==> PoolLinked(this, ns, j)
      {
        PoolNode(pool, i, pool[i - 1], pool[i + 1]);
        i := i + 1;
      }
      pstack := pool[0];
      frees, own, repr := ns, set n | n in ns, set n | n in ns;
      PoolSound(this, ns, Now());
    }

    method PoolNode(pool: array<Node<T>>, i: nat, prev: Node?<T>, next: Node?<T>)
      requires i < pool.Length && Distinct(pool[..])
      requires prev == At(pool[..], i - 1) && next == At(pool[..], i + 1)
      modifies pool[i]
      ensures PoolLinked(this, pool[..], i)
      ensures forall j :: 0 <= j < pool.Length && j != i && old(PoolLinked(this, pool[..], j)) ==>
                PoolLinked(this, pool[..], j)
    {
      ghost var ns := pool[..];
      assert forall j :: 0 <= j < |ns| && j != i ==> ns[j] != ns[i];
      pool[i].prev := prev;
      pool[i].next := next;
      pool[i].queue := this;
    }

    /** create_node: from the pool while there are nodes in it, and from the heap after that. */
    method CreateNode() returns (node: Node<T>)
      requires Valid()
      modifies this`pstack, this`frees, this`repr, repr
      ensures node in repr && Sound(this, Now(), Spare(Now(), node)) && Limbo(Now(), node)
      ensures Contents() == old(Contents()) && fresh(repr - old(repr))
    {
      if pstack == null {
        node := HeapNode();
      } else {
        node := PopFree();
      }
    }

    method HeapNode() returns (node: Node<T>)
      requires Valid()
      modifies this`repr
      ensures node in repr && Sound(this, Now(), Spare(Now(), node)) && Limbo(Now(), node)
      ensures Contents() == old(Contents()) && fresh(repr - old(repr))
    {
      ghost var s := Now();
      node := NewNode();
      NewSound(this, s, node, CellOf(node));
    }

    method NewNode() returns (node: Node<T>)
      modifies this`repr
      ensures fresh(node) && repr == old(repr) + {node} && node.queue == null
      ensures Now() == old(Now()).(m := old(Now()).m[node := CellOf(node)])
    {
      ghost var s := Now();
      node := new Node<T>();
      repr := repr + {node};
      assert Now() == s.(m := s.m[node := CellOf(node)]);
    }

    /** The top of the stack of free nodes. */
    method PopFree() returns (node: Node<T>)
      requires Valid() && pstack != null
      modifies this`pstack, this`frees, repr
      ensures node in repr && Sound(this, Now(), Spare(Now(), node)) && Limbo(Now(), node)
      ensures Contents() == old(Contents())
    {
      ghost var s := Now();
      TakeSound(this, s);
      node := pstack;
      pstack := pstack.next;
      node.next := null;
      node.prev := null;
      frees := frees[1..];
      OneSet(repr, s.m, node);
      assert Now() == Taken(s);
    }

    /** Puts a node on top of the stack. */
    method PushFree(node: Node<T>, ghost all: set<Node<T>>)
      requires node in all
      modifies this`pstack, node
      ensures pstack == node
      ensures Snap(all) == old(Snap(all))[node := old(CellOf(node)).(next := old(pstack), prev := null)]
    {
      ghost var m := Snap(all);
      if pstack != null {
        node.prev := null;
        node.next := pstack;
        pstack := node;
      } else {
        node.next, node.prev := null, null;
        pstack := node;
      }
      OneSet(all, m, node);
    }

    /** delete_node: a pool node goes on top of the stack; any other is given back to the heap. */
    method DeleteNode(node: Node<T>)
      requires Sound(this, Now(), Spare(Now(), node)) && Limbo(Now(), node)
      modifies this`pstack, this`frees, this`repr, node
      ensures Valid() && repr <= old(repr) && Contents() == old(Contents())
    {
      if node.queue != null {
        ghost var s := Now();
        DeleteSound(this, s, node);
        node.queue.PushFree(node, repr);
        frees := [node] + frees;
      } else {
        Forget(node);
      }
    }

    /** A node from the heap is let go of. */
    ghost method Forget(node: Node<T>)
      requires Sound(this, Now(), Spare(Now(), node)) && Limbo(Now(), node) && node.queue == null
      modifies this`repr
      ensures Valid() && repr <= old(repr) && Contents() == old(Contents())
    {
      ghost var s := Now();
      DeleteSound(this, s, node);
      repr := repr - {node};
      assert Snap(repr) == s.m - {node};
    }

    /** Sets the fields of a node that is in neither list, and its neighbour's link to it. */
    method Fill(node: Node<T>, item: Option<T>, prev: Node?<T>, next: Node?<T>)
      requires node in repr && prev != node && next != node
      modifies node
      ensures Snap(repr) == old(Snap(repr))[node := Cell(node.queue, next, prev, item)] && node.queue == old(node.queue)
    {
      ghost var m := Snap(repr);
      node.data := item;
      node.next := next;
      node.prev := prev;
      OneSet(repr, m, node);
    }

    /** Sets the link of a neighbour, if there is one. */
    method SetNextOf(n: Node?<T>, next: Node?<T>)
      requires n != null ==> n in repr
      modifies if n == null then {} else {n}
      ensures Snap(repr) == SetNext(old(Snap(repr)), n, next)
    {
      ghost var m := Snap(repr);
      if n != null {
        n.next := next;
        OneSet(repr, m, n);
      }
    }

    method SetPrevOf(n: Node?<T>, prev: Node?<T>)
      requires n != null ==> n in repr
      modifies if n == null then {} else {n}
      ensures Snap(repr) == SetPrev(old(Snap(repr)), n, prev)
    {
      ghost var m := Snap(repr);
      if n != null {
        n.prev := prev;
        OneSet(repr, m, n);
      }
    }

    /** The queue's own fields, once the nodes are linked. */
    method Enter(first: Node<T>, last: Node<T>, ghost list: seq<Node<T>>, ghost s: Image<T>)
      requires s == Image(Snap(repr), first, last, noItems + 1, pstack, list, frees, own)
      modifies this`head, this`tail, this`noItems, this`items
      ensures Now() == s
    {
      head, tail := first, last;
      noItems := noItems + 1;
      items := list;
    }

    method Leave(first: Node?<T>, last: Node?<T>, ghost list: seq<Node<T>>, ghost s: Image<T>)
      requires noItems > 0 && s == Image(Snap(repr), first, last, noItems - 1, pstack, list, frees, own)
      modifies this`head, this`tail, this`noItems, this`items
      ensures Now() == s
    {
      head, tail := first, last;
      noItems := noItems - 1;
      items := list;
    }

    /** ymo_queue_append. */
    method Append(item: Option<T>)
      requires Valid()
      modifies this, repr
      ensures Valid() && own == old(own) && fresh(repr - old(repr))
      ensures Contents() == old(Contents()) + [item]
    {
      var node := CreateNode();
      AppendSound(this, Now(), node, item);
      HangBack(node, item);
    }

    method HangBack(node: Node<T>, item: Option<T>)
      requires node in repr && node != tail && (tail != null ==> tail in repr && head != null)
      modifies this`head, this`tail, this`noItems, this`items, repr
      ensures Now() == Appended(old(Now()), node, item)
    {
      ghost var s := Now();
      Fill(node, item, tail, null);
      SetCommutes(s.m, node, Cell(node.queue, null, tail, item), tail, node);
      SetNextOf(tail, node);
      Enter(if tail == null then node else head, node, items + [node], Appended(s, node, item));
    }

    /** ymo_queue_prepend. */
    method Prepend(item: Option<T>)
      requires Valid()
      modifies this, repr
      ensures Valid() && own == old(own) && fresh(repr - old(repr))
      ensures Contents() == [item] + old(Contents())
    {
      var node := CreateNode();
      PrependSound(this, Now(), node, item);
      HangFront(node, item);
    }

    method HangFront(node: Node<T>, item: Option<T>)
      requires node in repr && node != head && (head != null ==> head in repr && tail != null)
      modifies this`head, this`tail, this`noItems, this`items, repr
      ensures Now() == Prepended(old(Now()), node, item)
    {
      ghost var s := Now();
      Fill(node, item, null, head);
      SetCommutes(s.m, node, Cell(node.queue, head, null, item), head, node);
      SetPrevOf(head, node);
      Enter(node, if head == null then node else tail, [node] + items, Prepended(s, node, item));
    }

    /** Unlinks item `k`; what happens to its node is left to delete_node. */
    method Unlink(node: Node<T>, ghost k: nat)
      requires Valid() && k < |items| && node == items[k]
      modifies this`head, this`tail, this`noItems, this`items, repr
      ensures Now() == Unlinked(old(Now()), k)
    {
      ghost var s := Now();
      UnlinkSound(this, s, k);
      var next, prev := node.next, node.prev;
      SetNextOf(prev, next);
      SetPrevOf(next, prev);
      Leave(if node == head then next else head, if node == tail then prev else tail,
            Without(items, k), Unlinked(s, k));
    }

    /** ymo_queue_popfront; `None` for an empty queue. */
    method PopFront() returns (data: Option<T>)
      requires Valid()
      modifies this, repr
      ensures Valid() && own == old(own) && repr <= old(repr)
      ensures if old(Contents()) == [] then data == None && Contents() == []
              else data == old(Contents())[0] && Contents() == old(Contents())[1..]
    {
      data := None;
      var node := head;
      if node == null {
        return;
      }
      ghost var s := Now();
      UnlinkSound(this, s, 0);
      var next := node.next;
      SetPrevOf(next, null);
      Leave(next, if node == tail then null else tail, Without(items, 0), Unlinked(s, 0));
      data := node.data;
      DeleteNode(node);
    }

    /** ymo_queue_popback. */
    method PopBack() returns (data: Option<T>)
      requires Valid()
      modifies this, repr
      ensures Valid() && own == old(own) && repr <= old(repr)
      ensures var n := |old(Contents())|;
              if n == 0 then data == None && Contents() == []
              else data == old(Contents())[n - 1] && Contents() == old(Contents())[..n - 1]
    {
      data := None;
      var node := tail;
      if node == null {
        return;
      }
      ghost var s, k := Now(), |items| - 1;
      UnlinkSound(this, s, k);
      var prev := node.prev;
      SetNextOf(prev, null);
      Leave(if node == head then null else head, prev, Without(items, k), Unlinked(s, k));
      data := node.data;
      DeleteNode(node);
    }

    /** ymo_queue_remove, for a member at place `k`, or for no node at all. */
    method Remove(node: Node?<T>, ghost k: nat) returns (status: Status)
      requires Valid() && (node != null ==> k < |items| && node == items[k])
      modifies this, repr
      ensures Valid() && own == old(own) && repr <= old(repr)
      ensures status == if node == null then EINVAL else OKAY
      ensures Contents() == if node == null then old(Contents()) else Without(old(Contents()), k)
    {
      if node == null {
        return EINVAL;
      }
      ghost var s := Now();
      UnlinkSound(this, s, k);
      if node.prev == node.next && node != head {
        return EINVAL;
      }
      Unlink(node, k);
      DeleteNode(node);
      status := OKAY;
    }
  }

  lemma ItemsIn<T>(m: Heap<T>, ns: seq<Node<T>>)
    requires Linked(m, ns)
    ensures forall i :: 0 <= i < |ns| ==> ns[i] in m
  {
    forall i | 0 <= i < |ns|
      ensures ns[i] in m
    {
      assert LinkedAt(m, ns, i);
    }
  }

  lemma FreesIn<T>(m: Heap<T>, ns: seq<Node<T>>)
    requires Stacked(m, ns)
    ensures forall i :: 0 <= i < |ns| ==> ns[i] in m
  {
    forall i | 0 <= i < |ns|
      ensures ns[i] in m
    {
      assert StackedAt(m, ns, i);
    }
  }

  /** Taking the top of the stack: it is then in neither list, and its links may be reset. */
  lemma TakeTop<T>(m: Heap<T>, items: seq<Node<T>>, frees: seq<Node<T>>, c: Cell<T>)
    requires Linked(m, items) && Stacked(m, frees) && frees != [] && Distinct(frees) && Apart(items, frees)
    ensures frees[0] in m && m[frees[0]].next == At(frees[1..], 0)
    ensures var n := frees[0];
            && Apart([n], items) && Apart([n], frees[1..]) && Distinct(frees[1..]) && Apart(items, frees[1..])
            && Linked(m[n := c], items) && Stacked(m[n := c], frees[1..]) && Datas(m[n := c], items) == Datas(m, items)
  {
    var n, rest := frees[0], frees[1..];
    assert StackedAt(m, frees, 0);
    assert forall i :: 0 <= i < |items| ==> items[i] != frees[0];
    assert forall i :: 0 <= i < |rest| ==> rest[i] == frees[i + 1] && frees[0] != frees[i + 1];
    LinkedFrame(m, items, n, c);
    forall i | 0 <= i < |rest|
      ensures StackedAt(m, rest, i)
    {
      assert StackedAt(m, frees, i + 1);
    }
    StackedFrame(m, rest, n, c);
  }

  lemma SetCommutes<T>(m: Heap<T>, n: Node<T>, c: Cell<T>, end: Node?<T>, x: Node<T>)
    requires end != null ==> end in m && end != n
    ensures SetNext(m[n := c], end, x) == SetNext(m, end, x)[n := c]
    ensures SetPrev(m[n := c], end, x) == SetPrev(m, end, x)[n := c]
  {
  }

  lemma ApartSnoc<T>(items: seq<Node<T>>, frees: seq<Node<T>>, n: Node<T>, own: set<Node<T>>)
    requires Distinct(items) && Apart(items, frees) && Apart([n], items) && Apart([n], frees)
    ensures Distinct(items + [n]) && Apart(items + [n], frees) && Distinct([n] + items) && Apart([n] + items, frees)
    ensures Pooled(items + [n], own) == Pooled(items, own) + (if n in own then 1 else 0)
    ensures Pooled([n] + items, own) == Pooled(items, own) + (if n in own then 1 else 0)
  {
    assert [n][0] == n;
    PooledSplit(items, [n], own);
    PooledSplit([n], items, own);
    PooledOne(n, own);
  }

  lemma PutBack<T>(m: Heap<T>, items: seq<Node<T>>, frees: seq<Node<T>>, n: Node<T>, c: Cell<T>)
    requires Linked(m, items) && Stacked(m, frees) && Distinct(frees) && Apart(items, frees)
    requires Apart([n], items) && Apart([n], frees) && c.next == At(frees, 0)
    ensures Linked(m[n := c], items) && Stacked(m[n := c], [n] + frees) && Datas(m[n := c], items) == Datas(m, items)
    ensures Distinct([n] + frees) && Apart(items, [n] + frees)
  {
    assert [n][0] == n;
    LinkedFrame(m, items, n, c);
    PushStacked(m, frees, n, c);
  }

  lemma Dropped<T>(m: Heap<T>, items: seq<Node<T>>, frees: seq<Node<T>>, n: Node<T>)
    requires Linked(m, items) && Stacked(m, frees) && Apart([n], items) && Apart([n], frees)
    ensures Linked(m - {n}, items) && Stacked(m - {n}, frees) && Datas(m - {n}, items) == Datas(m, items)
  {
    assert [n][0] == n;
    forall i | 0 <= i < |items|
      ensures LinkedAt(m - {n}, items, i)
    {
      assert LinkedAt(m, items, i);
    }
    forall i | 0 <= i < |frees|
      ensures StackedAt(m - {n}, frees, i)
    {
      assert StackedAt(m, frees, i);
    }
  }

  lemma NewNode<T>(m: Heap<T>, items: seq<Node<T>>, frees: seq<Node<T>>, n: Node<T>, c: Cell<T>)
    requires Linked(m, items) && Stacked(m, frees) && n !in m
    ensures Apart([n], items) && Apart([n], frees)
    ensures Linked(m[n := c], items) && Stacked(m[n := c], frees)
    ensures Datas(m[n := c], items) == Datas(m, items)
  {
    ItemsIn(m, items);
    FreesIn(m, frees);
    LinkedFrame(m, items, n, c);
    StackedFrame(m, frees, n, c);
  }

  /** In every valid queue the links are each other's inverses, and each pool node is free or in the list. */
  lemma LinksAreInverse<T>(q: Queue<T>, i: nat)
    requires q.Valid() && i < |q.items|
    ensures q.items[i] in q.repr
    ensures q.items[i].next == null <==> q.items[i] == q.tail
    ensures q.items[i].prev == null <==> q.items[i] == q.head
    ensures q.items[i].next != null ==> q.items[i].next in q.repr && q.items[i].next.prev == q.items[i]
    ensures q.items[i].prev != null ==> q.items[i].prev in q.repr && q.items[i].prev.next == q.items[i]
    ensures |q.frees| + Pooled(q.items, q.own) == |q.own|
  {
    var m := Snap(q.repr);
    assert LinkedAt(m, q.items, i);
    if i > 0 { assert LinkedAt(m, q.items, i - 1); }
    if i + 1 < |q.items| { assert LinkedAt(m, q.items, i + 1); }
  }

  // ---------------------------------------------------------------- whole runs

  datatype Op<T> = AddBack(item: Option<T>) | AddFront(item: Option<T>) | TakeFront | TakeBack | RemoveAt(k: nat)

  function Done<T>(xs: seq<Option<T>>, op: Op<T>): (r: seq<Option<T>>) {
    match op
    case AddBack(item) => xs + [item]
    case AddFront(item) => [item] + xs
    case TakeFront => if xs == [] then [] else xs[1..]
    case TakeBack => if xs == [] then [] else xs[..|xs| - 1]
    case RemoveAt(k) => if k < |xs| then Without(xs, k) else xs
  }

  function DoneAll<T>(ops: seq<Op<T>>): (r: seq<Option<T>>) {
    if ops == [] then [] else Done(DoneAll(ops[..|ops| - 1]), ops[|ops| - 1])
  }

  /** The member at place `k`, or null. */
  method MemberAt<T>(q: Queue<T>, k: nat) returns (node: Node?<T>)
    requires q.Valid()
    ensures node == At(q.items, k)
  {
    node := q.head;
    var i := 0;
    while i < k && node != null
      invariant i <= k && node == At(q.items, i) && (node == null ==> |q.items| <= i)
    {
      assert LinkedAt(Snap(q.repr), q.items, i);
      node := node.next;
      i := i + 1;
    }
  }

  method Perform<T>(q: Queue<T>, op: Op<T>)
    requires q.Valid()
    modifies q, q.repr
    ensures q.Valid() && q.own == old(q.own) && fresh(q.repr - old(q.repr))
    ensures q.Contents() == Done(old(q.Contents()), op)
  {
    match op
    case AddBack(item) => q.Append(item);
    case AddFront(item) => q.Prepend(item);
    case TakeFront => var _ := q.PopFront();
    case TakeBack => var _ := q.PopBack();
    case RemoveAt(k) =>
      var node := MemberAt(q, k);
      var _ := q.Remove(node, k);
  }

  /** The operations from number `i` on. */
  method PerformAll<T>(q: Queue<T>, ops: seq<Op<T>>, i: nat)
    requires q.Valid() && i <= |ops| && q.Contents() == DoneAll(ops[..i])
    modifies q, q.repr
    ensures q.Valid() && q.own == old(q.own) && q.Contents() == DoneAll(ops)
    decreases |ops| - i
  {
    if i < |ops| {
      Perform(q, ops[i]);
      assert ops[..i + 1][..i] == ops[..i];
      PerformAll(q, ops, i + 1);
    } else {
      assert ops[..i] == ops;
    }
  }

  /** Over every run on a pool of at least two nodes: the queue holds what a sequence would, and each pool
      node is free or in the list. */
  method Drive<T>(pool: array<Node<T>>, ops: seq<Op<T>>) returns (q: Queue<T>)
    requires pool.Length >= 2 && Distinct(pool[..])
    modifies set n | n in pool[..]
    ensures q.Valid() && q.Contents() == DoneAll(ops) && q.noItems == |DoneAll(ops)|
    ensures |q.frees| + Pooled(q.items, q.own) == |q.own| == pool.Length
  {
    q := new Queue<T>();
    q.PoolInit(pool);
    PerformAll(q, ops, 0);
  }
}
