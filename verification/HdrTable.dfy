/** The header table: buckets of nodes chained by `next`, from an embedded pool while it lasts:
    src/protocol/http/ymo_http_hdr_table.c. */
module HdrTable {
  import opened Bytes
  import opened Common

  const BUCKET_SIZE := 8
  const POOL_SIZE := 4

  type Str = seq<Byte>

  class Node {
    var hId: nat
    var hdr: Str
    var hdrLen: nat
    var value: Str
    var noPool: bool
    var next: Node?

    constructor ()
      ensures CellOf(this) == Cell(0, Entry([], 0, []), false, null)
    {
      hId, hdr, hdrLen, value, noPool, next := 0, [], 0, [], false, null;
    }
  }

  // ---------------------------------------------------------------- the heap as a value

  /** What a header id is mapped to. */
  datatype Entry = Entry(hdr: Str, hdrLen: nat, value: Str)

  datatype Cell = Cell(hId: nat, entry: Entry, noPool: bool, next: Node?)

  type Heap = map<Node, Cell>

  ghost function CellOf(n: Node): (c: Cell)
    reads n
  {
    Cell(n.hId, Entry(n.hdr, n.hdrLen, n.value), n.noPool, n.next)
  }

  ghost function Snap(s: set<Node>): (m: Heap)
    reads s
  {
    map n | n in s :: CellOf(n)
  }

  lemma OneSet(s: set<Node>, m: Heap, n: Node)
    requires m.Keys == s && n in s && (forall x :: x in s && x != n ==> CellOf(x) == m[x])
    ensures Snap(s) == m[n := CellOf(n)]
  {
  }

  lemma SnapAdded(s: set<Node>, m: Heap, n: Node)
    requires m.Keys == s && n !in s && (forall x :: x in s ==> CellOf(x) == m[x])
    ensures Snap(s + {n}) == m[n := CellOf(n)]
  {
  }

  function At(ns: seq<Node>, i: int): (n: Node?) {
    if 0 <= i < |ns| then ns[i] else null
  }

  ghost predicate Distinct(ns: seq<Node>) {
    forall i, j :: 0 <= i < j < |ns| ==> ns[i] != ns[j]
  }

  ghost predicate Apart(xs: seq<Node>, ys: seq<Node>) {
    forall i, j :: 0 <= i < |xs| && 0 <= j < |ys| ==> xs[i] != ys[j]
  }

  ghost predicate LeadsAt(m: Heap, ns: seq<Node>, i: int) {
    0 <= i < |ns| && ns[i] in m && m[ns[i]].next == At(ns, i + 1)
  }

  /** Following `next` goes through the nodes, one after the other, and ends. */
  ghost predicate Chain(m: Heap, ns: seq<Node>) {
    Distinct(ns) && forall i :: 0 <= i < |ns| ==> LeadsAt(m, ns, i)
  }

  ghost predicate Outside(n: Node, ns: seq<Node>) {
    forall i :: 0 <= i < |ns| ==> ns[i] != n
  }

  lemma ChainFrame(m: Heap, ns: seq<Node>, n: Node, c: Cell)
    requires Chain(m, ns) && Outside(n, ns)
    ensures Chain(m[n := c], ns) && Chain(m - {n}, ns)
  {
    var m1, m2 := m[n := c], m - {n};
    forall i | 0 <= i < |ns|
      ensures LeadsAt(m1, ns, i) && LeadsAt(m2, ns, i)
    {
      assert LeadsAt(m, ns, i);
    }
  }

  /** A node that keeps its `next`. */
  lemma ChainKept(m: Heap, ns: seq<Node>, n: Node, c: Cell)
    requires Chain(m, ns) && n in m && c.next == m[n].next
    ensures Chain(m[n := c], ns)
  {
    var m1 := m[n := c];
    forall i | 0 <= i < |ns|
      ensures LeadsAt(m1, ns, i)
    {
      assert LeadsAt(m, ns, i);
    }
  }

  lemma ChainCons(m: Heap, ns: seq<Node>, n: Node, c: Cell)
    requires Chain(m, ns) && Outside(n, ns) && c.next == At(ns, 0)
    ensures Chain(m[n := c], [n] + ns)
  {
    ChainFrame(m, ns, n, c);
    var m1 := m[n := c];
    forall i | 0 <= i < |[n] + ns|
      ensures LeadsAt(m1, [n] + ns, i)
    {
      if i > 0 { assert LeadsAt(m1, ns, i - 1); }
    }
  }

  lemma ChainRest(m: Heap, ns: seq<Node>)
    requires Chain(m, ns) && ns != []
    ensures ns[0] in m && m[ns[0]].next == At(ns, 1) == At(ns[1..], 0)
    ensures Chain(m, ns[1..]) && Outside(ns[0], ns[1..])
  {
    assert LeadsAt(m, ns, 0);
    forall i | 0 <= i < |ns[1..]|
      ensures LeadsAt(m, ns[1..], i)
    {
      assert LeadsAt(m, ns, i + 1);
    }
  }

  // ---------------------------------------------------------------- the table as a value

  datatype Image = Image(m: Heap, heads: seq<Node?>, poolHead: Node?,
                         chains: seq<seq<Node>>, frees: seq<Node>, own: set<Node>)

  ghost predicate Shaped(s: Image) {
    && |s.heads| == |s.chains| == BUCKET_SIZE && s.poolHead == At(s.frees, 0)
    && (forall b :: 0 <= b < BUCKET_SIZE ==> s.heads[b] == At(s.chains[b], 0))
  }

  /** Every list is a chain, and no two lists share a node. */
  ghost predicate Chained(s: Image) {
    && Chain(s.m, s.frees)
    && (forall b :: 0 <= b < |s.chains| ==> Chain(s.m, s.chains[b]))
    && (forall b :: 0 <= b < |s.chains| ==> Apart(s.frees, s.chains[b]))
    && (forall b, c :: 0 <= b < c < |s.chains| ==> Apart(s.chains[b], s.chains[c]))
  }

  ghost predicate KeyAt(m: Heap, ns: seq<Node>, b: nat, i: int) {
    0 <= i < |ns| && ns[i] in m && m[ns[i]].hId % BUCKET_SIZE == b
  }

  /** The nodes of bucket `b` have ids that belong there, all different. */
  ghost predicate Keyed(m: Heap, ns: seq<Node>, b: nat) {
    && (forall i :: 0 <= i < |ns| ==> KeyAt(m, ns, b, i))
    && (forall i, j :: 0 <= i < j < |ns| && ns[i] in m && ns[j] in m ==> m[ns[i]].hId != m[ns[j]].hId)
  }

  ghost predicate InSome(chains: seq<seq<Node>>, n: Node) {
    exists b :: 0 <= b < |chains| && n in chains[b]
  }

  /** Pool nodes are the ones without the flag, and but for `loose` each is free or in a bucket. */
  ghost predicate Pooled(s: Image, loose: set<Node>) {
    && s.own <= s.m.Keys && (forall n :: n in s.m ==> (s.m[n].noPool <==> n !in s.own))
    && (forall i :: 0 <= i < |s.frees| ==> s.frees[i] in s.own)
    && (forall n :: n in s.own && n !in loose ==> n in s.frees || InSome(s.chains, n))
  }

  ghost predicate Sound(s: Image, loose: set<Node>) {
    Shaped(s) && Chained(s) && Pooled(s, loose) && forall b :: 0 <= b < BUCKET_SIZE ==> Keyed(s.m, s.chains[b], b)
  }

  /** Node `n` is in no list. */
  ghost predicate Limbo(s: Image, n: Node) {
    n in s.m && Outside(n, s.frees) && forall b :: 0 <= b < |s.chains| ==> Outside(n, s.chains[b])
  }

  // ---------------------------------------------------------------- the map

  ghost function FindIn(m: Heap, ns: seq<Node>, id: nat): (e: Option<Entry>) {
    if ns == [] then None
    else if ns[0] in m && m[ns[0]].hId == id then Some(m[ns[0]].entry)
    else FindIn(m, ns[1..], id)
  }

  /** What the table maps `id` to. */
  ghost function Lookup(s: Image, id: nat): (e: Option<Entry>) {
    if |s.chains| == BUCKET_SIZE then FindIn(s.m, s.chains[id % BUCKET_SIZE], id) else None
  }

  lemma {:induction false} FindFrame(m: Heap, m': Heap, ns: seq<Node>, id: nat)
    requires forall i :: 0 <= i < |ns| ==>
               ns[i] in m && ns[i] in m' && m'[ns[i]].hId == m[ns[i]].hId && m'[ns[i]].entry == m[ns[i]].entry
    ensures FindIn(m', ns, id) == FindIn(m, ns, id)
    decreases |ns|
  {
    if ns != [] { FindFrame(m, m', ns[1..], id); }
  }

  /** A node found by its place is what looking its id up finds. */
  lemma {:induction false} FindAt(m: Heap, ns: seq<Node>, b: nat, i: nat)
    requires Keyed(m, ns, b) && i < |ns|
    ensures ns[i] in m && FindIn(m, ns, m[ns[i]].hId) == Some(m[ns[i]].entry)
    decreases i
  {
    assert KeyAt(m, ns, b, i);
    if i > 0 {
      KeyedRest(m, ns, b);
      FindAt(m, ns[1..], b, i - 1);
      assert KeyAt(m, ns, b, 0);
    }
  }

  lemma KeyedRest(m: Heap, ns: seq<Node>, b: nat)
    requires Keyed(m, ns, b) && ns != []
    ensures Keyed(m, ns[1..], b)
  {
    forall i | 0 <= i < |ns[1..]|
      ensures KeyAt(m, ns[1..], b, i)
    {
      assert KeyAt(m, ns, b, i + 1);
    }
  }

  /** Nothing is found exactly if no node has the id. */
  lemma {:induction false} FindNone(m: Heap, ns: seq<Node>, id: nat)
    requires forall i :: 0 <= i < |ns| ==> ns[i] in m
    ensures FindIn(m, ns, id) == None <==> forall i :: 0 <= i < |ns| ==> m[ns[i]].hId != id
    decreases |ns|
  {
    if ns != [] {
      FindNone(m, ns[1..], id);
      assert forall i :: 0 < i < |ns| ==> ns[i] == ns[1..][i - 1];
    }
  }

  // ---------------------------------------------------------------- operations, as values

  /** The table after its top free node has been taken. */
  function TookFree(s: Image): (r: Image)
    requires s.frees != []
  {
    s.(poolHead := At(s.frees, 1), frees := s.frees[1..])
  }

  lemma TookFreeSound(s: Image)
    requires Sound(s, {}) && s.frees != []
    ensures s.frees[0] in s.m && s.m[s.frees[0]].next == At(s.frees, 1) && !s.m[s.frees[0]].noPool
    ensures Sound(TookFree(s), {s.frees[0]}) && Limbo(TookFree(s), s.frees[0])
    ensures forall id: nat :: Lookup(TookFree(s), id) == Lookup(s, id)
  {
    ChainRest(s.m, s.frees);
    var n, r := s.frees[0], TookFree(s);
    assert forall i :: 0 <= i < |r.frees| ==> r.frees[i] == s.frees[i + 1];
    assert forall x :: x in s.frees ==> x == n || x in r.frees;
    forall b | 0 <= b < |s.chains|
      ensures Outside(n, s.chains[b])
    {
      assert Apart(s.frees, s.chains[b]);
    }
  }

  /** The table with one more node in the heap, flagged as not from the pool. */
  lemma NewNodeSound(s: Image, n: Node, c: Cell)
    requires Sound(s, {}) && n !in s.m && c.noPool
    ensures var r := s.(m := s.m[n := c]);
            Sound(r, {n}) && Limbo(r, n) && forall id: nat :: Lookup(r, id) == Lookup(s, id)
  {
    NodesIn(s);
    ChainFrame(s.m, s.frees, n, c);
    forall b | 0 <= b < |s.chains|
      ensures Chain(s.m[n := c], s.chains[b]) && Keyed(s.m[n := c], s.chains[b], b)
    {
      ChainFrame(s.m, s.chains[b], n, c);
      KeyedFrame(s.m, s.m[n := c], s.chains[b], b);
    }
    LookupFrame(s, s.(m := s.m[n := c]));
  }

  /** Nodes of lists are in the heap. */
  lemma NodesIn(s: Image)
    requires Chained(s)
    ensures forall i :: 0 <= i < |s.frees| ==> s.frees[i] in s.m
    ensures forall b, i :: 0 <= b < |s.chains| && 0 <= i < |s.chains[b]| ==> s.chains[b][i] in s.m
    ensures forall n :: n !in s.m ==> Outside(n, s.frees)
    ensures forall n, b :: n !in s.m && 0 <= b < |s.chains| ==> Outside(n, s.chains[b])
  {
    forall i | 0 <= i < |s.frees|
      ensures s.frees[i] in s.m
    {
      assert LeadsAt(s.m, s.frees, i);
    }
    forall b, i | 0 <= b < |s.chains| && 0 <= i < |s.chains[b]|
      ensures s.chains[b][i] in s.m
    {
      assert Chain(s.m, s.chains[b]);
      assert LeadsAt(s.m, s.chains[b], i);
    }
  }

  lemma KeyedFrame(m: Heap, m': Heap, ns: seq<Node>, b: nat)
    requires Keyed(m, ns, b)
    requires forall i :: 0 <= i < |ns| ==> ns[i] in m && ns[i] in m' && m'[ns[i]].hId == m[ns[i]].hId
    ensures Keyed(m', ns, b)
  {
    forall i | 0 <= i < |ns|
      ensures KeyAt(m', ns, b, i)
    {
      assert KeyAt(m, ns, b, i);
    }
  }

  lemma LookupFrame(s: Image, r: Image)
    requires r.chains == s.chains
    requires forall b, i :: 0 <= b < |s.chains| && 0 <= i < |s.chains[b]| ==>
               s.chains[b][i] in s.m && s.chains[b][i] in r.m
               && r.m[s.chains[b][i]].hId == s.m[s.chains[b][i]].hId
               && r.m[s.chains[b][i]].entry == s.m[s.chains[b][i]].entry
    ensures forall id: nat :: Lookup(r, id) == Lookup(s, id)
  {
    if |s.chains| == BUCKET_SIZE {
      forall id: nat
        ensures Lookup(r, id) == Lookup(s, id)
      {
        FindFrame(s.m, r.m, s.chains[id % BUCKET_SIZE], id);
      }
    }
  }

  /** The table after a node has been filled in and put first in its bucket. */
  function Inserted(s: Image, n: Node, id: nat, e: Entry): (r: Image)
    requires |s.heads| == |s.chains| == BUCKET_SIZE && n in s.m
  {
    var b := id % BUCKET_SIZE;
    s.(m := s.m[n := Cell(id, e, s.m[n].noPool, s.heads[b])], heads := s.heads[b := n],
        chains := s.chains[b := [n] + s.chains[b]])
  }

  lemma InsertedChained(s: Image, n: Node, id: nat, e: Entry)
    requires Sound(s, {n}) && Limbo(s, n)
    ensures Chained(Inserted(s, n, id, e))
  {
    var r, b0 := Inserted(s, n, id, e), id % BUCKET_SIZE;
    ChainFrame(s.m, s.frees, n, r.m[n]);
    forall b | 0 <= b < |r.chains|
      ensures Chain(r.m, r.chains[b]) && Apart(s.frees, r.chains[b])
    {
      assert Apart(s.frees, s.chains[b]);
      if b == b0 {
        ChainCons(s.m, s.chains[b], n, r.m[n]);
      } else {
        ChainFrame(s.m, s.chains[b], n, r.m[n]);
      }
    }
    forall b, c | 0 <= b < c < |r.chains|
      ensures Apart(r.chains[b], r.chains[c])
    {
      assert Apart(s.chains[b], s.chains[c]);
    }
  }

  lemma InsertedKeyed(s: Image, n: Node, id: nat, e: Entry)
    requires Sound(s, {n}) && Limbo(s, n) && Lookup(s, id) == None
    ensures var r := Inserted(s, n, id, e); forall b :: 0 <= b < BUCKET_SIZE ==> Keyed(r.m, r.chains[b], b)
  {
    var r, b0 := Inserted(s, n, id, e), id % BUCKET_SIZE;
    NodesIn(s);
    forall b | 0 <= b < BUCKET_SIZE
      ensures Keyed(r.m, r.chains[b], b)
    {
      assert Outside(n, s.chains[b]);
      KeyedFrame(s.m, r.m, s.chains[b], b);
      if b == b0 {
        FindNone(s.m, s.chains[b], id);
        KeyedCons(r.m, s.chains[b], n, b);
      }
    }
  }

  lemma KeyedCons(m: Heap, ns: seq<Node>, n: Node, b: nat)
    requires Keyed(m, ns, b) && n in m && m[n].hId % BUCKET_SIZE == b
    requires forall i :: 0 <= i < |ns| ==> ns[i] in m && m[ns[i]].hId != m[n].hId
    ensures Keyed(m, [n] + ns, b)
  {
    forall i | 0 <= i < |[n] + ns|
      ensures KeyAt(m, [n] + ns, b, i)
    {
      if i > 0 { assert KeyAt(m, ns, b, i - 1); }
    }
  }

  lemma InsertedPooled(s: Image, n: Node, id: nat, e: Entry)
    requires Sound(s, {n}) && Limbo(s, n)
    ensures Pooled(Inserted(s, n, id, e), {})
  {
    var r, b0 := Inserted(s, n, id, e), id % BUCKET_SIZE;
    assert n in r.chains[b0];
    forall x | x in r.own
      ensures x in r.frees || InSome(r.chains, x)
    {
      if x != n && x !in s.frees {
        var b :| 0 <= b < |s.chains| && x in s.chains[b];
        assert x in r.chains[b];
      }
    }
  }

  /** Inserting maps the id to the entry, and nothing else anew. */
  lemma InsertedSound(s: Image, n: Node, id: nat, e: Entry)
    requires Sound(s, {n}) && Limbo(s, n) && Lookup(s, id) == None
    ensures Sound(Inserted(s, n, id, e), {})
    ensures forall j: nat :: Lookup(Inserted(s, n, id, e), j) == if j == id then Some(e) else Lookup(s, j)
  {
    var r := Inserted(s, n, id, e);
    InsertedChained(s, n, id, e);
    InsertedKeyed(s, n, id, e);
    InsertedPooled(s, n, id, e);
    NodesIn(s);
    forall j: nat
      ensures Lookup(r, j) == if j == id then Some(e) else Lookup(s, j)
    {
      var b := j % BUCKET_SIZE;
      assert Outside(n, s.chains[b]);
      FindFrame(s.m, r.m, s.chains[b], j);
      if b == id % BUCKET_SIZE {
        assert r.chains[b][0] == n && r.chains[b][1..] == s.chains[b];
      }
    }
  }

  /** The table after the entry of a node has been overwritten. */
  function Overwritten(s: Image, n: Node, e: Entry): (r: Image)
    requires n in s.m
  {
    s.(m := s.m[n := s.m[n].(entry := e)])
  }

  lemma OverwrittenSound(s: Image, b: nat, i: nat, e: Entry)
    requires Sound(s, {}) && b < BUCKET_SIZE && i < |s.chains[b]|
    ensures s.chains[b][i] in s.m && Sound(Overwritten(s, s.chains[b][i], e), {})
    ensures var id := s.m[s.chains[b][i]].hId;
            forall j: nat :: Lookup(Overwritten(s, s.chains[b][i], e), j) == if j == id then Some(e) else Lookup(s, j)
  {
    NodesIn(s);
    var n := s.chains[b][i];
    var r, id := Overwritten(s, n, e), s.m[n].hId;
    ChainKept(s.m, s.frees, n, r.m[n]);
    forall c | 0 <= c < BUCKET_SIZE
      ensures Chain(r.m, r.chains[c]) && Keyed(r.m, r.chains[c], c)
    {
      ChainKept(s.m, s.chains[c], n, r.m[n]);
      KeyedFrame(s.m, r.m, s.chains[c], c);
    }
    assert KeyAt(s.m, s.chains[b], b, i);
    forall j: nat
      ensures Lookup(r, j) == if j == id then Some(e) else Lookup(s, j)
    {
      if j == id {
        FindAt(r.m, r.chains[b], b, i);
      } else {
        FindOther(s.m, r.m, s.chains[j % BUCKET_SIZE], n, j);
      }
    }
  }

  lemma {:induction false} FindOther(m: Heap, m': Heap, ns: seq<Node>, n: Node, id: nat)
    requires n in m && n in m' && m[n].hId != id && m'[n].hId != id
    requires forall i :: 0 <= i < |ns| ==> ns[i] in m && ns[i] in m' && (ns[i] != n ==> m'[ns[i]] == m[ns[i]])
    ensures FindIn(m', ns, id) == FindIn(m, ns, id)
    decreases |ns|
  {
    if ns != [] { FindOther(m, m', ns[1..], n, id); }
  }

  /** The table after the first node of bucket `b` has been let go of. */
  function Freed(s: Image, b: nat): (r: Image) {
    if b < |s.heads| == |s.chains| && s.chains[b] != [] && s.chains[b][0] in s.m then
      var n := s.chains[b][0];
      var t := s.(heads := s.heads[b := At(s.chains[b], 1)], chains := s.chains[b := s.chains[b][1..]]);
      if s.m[n].noPool then t.(m := s.m - {n})
      else t.(m := s.m[n := s.m[n].(next := s.poolHead)], poolHead := n, frees := [n] + s.frees)
    else s
  }

  /** Freeing the first node of chain `b` leaves every chain linked and apart from the freed node. */
  lemma FreedOne(s: Image, b: nat, k: nat, c: Cell)
    requires Sound(s, {}) && b < BUCKET_SIZE && s.chains[b] != [] && k < BUCKET_SIZE
    requires s.chains[b][0] in s.m
    ensures var n, rest := s.chains[b][0], if k == b then s.chains[b][1..] else s.chains[k];
            Chain(s.m[n := c], rest) && Chain(s.m - {n}, rest) && Outside(n, rest) && Apart(s.frees, rest)
  {
    var n := s.chains[b][0];
    ChainRest(s.m, s.chains[b]);
    assert Apart(s.frees, s.chains[k]);
    if k < b { assert Apart(s.chains[k], s.chains[b]); }
    if b < k { assert Apart(s.chains[b], s.chains[k]); }
    ChainFrame(s.m, if k == b then s.chains[b][1..] else s.chains[k], n, c);
  }

  lemma FreedChained(s: Image, b: nat)
    requires Sound(s, {}) && b < BUCKET_SIZE && s.chains[b] != []
    ensures s.chains[b][0] in s.m && s.m[s.chains[b][0]].next == At(s.chains[b], 1)
    ensures Chained(Freed(s, b)) && Shaped(Freed(s, b))
  {
    ChainRest(s.m, s.chains[b]);
    var n, r := s.chains[b][0], Freed(s, b);
    assert Apart(s.frees, s.chains[b]);
    assert Outside(n, s.frees);
    var c := s.m[n].(next := s.poolHead);
    ChainFrame(s.m, s.frees, n, c);
    ChainCons(s.m, s.frees, n, c);
    forall k | 0 <= k < |r.chains|
      ensures Chain(r.m, r.chains[k]) && Outside(n, r.chains[k]) && Apart(s.frees, r.chains[k])
    {
      FreedOne(s, b, k, c);
    }
    forall k, l | 0 <= k < l < |r.chains|
      ensures Apart(r.chains[k], r.chains[l])
    {
      assert Apart(s.chains[k], s.chains[l]);
    }
  }

  lemma FreedKeyed(s: Image, b: nat)
    requires Sound(s, {}) && b < BUCKET_SIZE && s.chains[b] != [] && s.chains[b][0] in s.m
    requires forall k :: 0 <= k < BUCKET_SIZE ==> Outside(s.chains[b][0], Freed(s, b).chains[k])
    ensures forall k :: 0 <= k < BUCKET_SIZE ==> Keyed(Freed(s, b).m, Freed(s, b).chains[k], k)
  {
    var r := Freed(s, b);
    NodesIn(s);
    forall k | 0 <= k < BUCKET_SIZE
      ensures Keyed(r.m, r.chains[k], k)
    {
      if k == b {
        KeyedRest(s.m, s.chains[b], b);
        assert forall i :: 0 <= i < |r.chains[b]| ==> r.chains[b][i] == s.chains[b][i + 1];
      }
      KeyedFrame(s.m, r.m, r.chains[k], k);
    }
  }

  lemma FreedPooled(s: Image, b: nat)
    requires Sound(s, {}) && b < BUCKET_SIZE && s.chains[b] != [] && s.chains[b][0] in s.m
    ensures Pooled(Freed(s, b), {})
  {
    var n, r := s.chains[b][0], Freed(s, b);
    forall x | x in r.own
      ensures x in r.frees || InSome(r.chains, x)
    {
      if x in s.frees {
      } else {
        var k :| 0 <= k < |s.chains| && x in s.chains[k];
        assert x == n || x in r.chains[k];
      }
    }
  }

  /** Letting go of a node keeps the table sound: pool nodes become free, the others are gone. */
  lemma FreedSound(s: Image, b: nat)
    requires Sound(s, {}) && b < BUCKET_SIZE && s.chains[b] != []
    ensures s.chains[b][0] in s.m && s.m[s.chains[b][0]].next == At(s.chains[b], 1) && Sound(Freed(s, b), {})
  {
    FreedChained(s, b);
    var n, r := s.chains[b][0], Freed(s, b);
    forall k | 0 <= k < BUCKET_SIZE
      ensures Outside(n, r.chains[k])
    {
      if k < b { assert Apart(s.chains[k], s.chains[b]); }
      if b < k { assert Apart(s.chains[b], s.chains[k]); }
      if k == b { ChainRest(s.m, s.chains[b]); }
    }
    FreedKeyed(s, b);
    FreedPooled(s, b);
  }

  // ---------------------------------------------------------------- the table

  class Table {
    const bucket: array<Node?>
    var poolHead: Node?
    ghost var chains: seq<seq<Node>>
    ghost var frees: seq<Node>
    ghost var own: set<Node>  // the nodes of the pool
    ghost var repr: set<Node>

    ghost function Now(): (s: Image)
      reads this, bucket, repr
    {
      Image(Snap(repr), bucket[..], poolHead, chains, frees, own)
    }

    ghost predicate Valid()
      reads this, bucket, repr
    {
      Sound(Now(), {})
    }

    /** What the table maps a header id to. */
    ghost function Find(id: nat): (e: Option<Entry>)
      reads this, bucket, repr
    {
      Lookup(Now(), id)
    }

    /** The table and the nodes of its pool, zeroed, and then ymo_http_hdr_table_init. */
    constructor ()
      ensures Valid() && fresh(bucket) && fresh(repr) && |own| == POOL_SIZE
      ensures forall id: nat :: Find(id) == None
    {
      bucket := new Node?[BUCKET_SIZE](_ => null);
      poolHead := null;
      chains, frees, own, repr := Empty(), [], {}, {};
      new;
      var items := ZeroedNodes();
      Init(items);
    }

    /** ymo_http_hdr_table_init: each node of the pool but the last leads to the next. */
    method Init(items: seq<Node>)
      requires |items| == POOL_SIZE && Distinct(items)
          && (forall i :: 0 <= i < |items| ==> items[i].next == null && !items[i].noPool)
      requires chains == Empty() && bucket.Length == BUCKET_SIZE
          && (forall b :: 0 <= b < BUCKET_SIZE ==> bucket[b] == null)
      modifies this, items
      ensures Valid() && repr == own == (set n | n in items) && |own| == POOL_SIZE
      ensures forall id: nat :: Find(id) == None
    {
      StringTogether(items);
      poolHead := items[0];
      frees, own, repr := items, set n | n in items, set n | n in items;
      PoolTable(this, items);
    }

    method SetFlag(node: Node, flag: bool)
      requires node in repr
      modifies node`noPool
      ensures Snap(repr) == old(Snap(repr))[node := old(CellOf(node)).(noPool := flag)]
    {
      ghost var m := Snap(repr);
      node.noPool := flag;
      OneSet(repr, m, node);
    }

    method Overwrite(node: Node, hdr: Str, hdrLen: nat, value: Str)
      requires node in repr
      modifies node
      ensures Snap(repr) == old(Snap(repr))[node := old(CellOf(node)).(entry := Entry(hdr, hdrLen, value))]
    {
      ghost var m := Snap(repr);
      node.hdr := hdr;
      node.value := value;
      node.hdrLen := hdrLen;
      OneSet(repr, m, node);
    }

    method Fill(node: Node, hId: nat, hdr: Str, hdrLen: nat, value: Str, next: Node?)
      requires node in repr
      modifies node
      ensures Snap(repr) == old(Snap(repr))[node := Cell(hId, Entry(hdr, hdrLen, value), old(node.noPool), next)]
    {
      ghost var m := Snap(repr);
      node.hId := hId;
      node.hdr := hdr;
      node.hdrLen := hdrLen;
      node.value := value;
      node.next := next;
      OneSet(repr, m, node);
    }

    /** ymo_http_hdr_table_node_create: from the pool while there are nodes in it, and from the heap,
        flagged, after that. */
    method NodeCreate() returns (node: Node)
      requires Valid()
      modifies this`poolHead, this`frees, this`repr, repr
      ensures node in repr && Sound(Now(), {node}) && Limbo(Now(), node) && fresh(repr - old(repr))
      ensures forall id: nat :: Find(id) == old(Find(id))
    {
      if poolHead != null {
        node := TakeNode();
      } else {
        node := HeapNode();
      }
    }

    method TakeNode() returns (node: Node)
      requires Valid() && poolHead != null
      modifies this`poolHead, this`frees, repr
      ensures node in repr && Sound(Now(), {node}) && Limbo(Now(), node)
      ensures forall id: nat :: Find(id) == old(Find(id))
    {
      ghost var s := Now();
      TookFreeSound(s);
      node := poolHead;
      Unstack(s);
      SetFlag(node, false);
    }

    /** The top of the free list comes off. */
    method Unstack(ghost s: Image)
      requires s == Now() && poolHead != null && frees != [] && poolHead == frees[0] && poolHead in repr
      modifies this`poolHead, this`frees
      ensures Now() == s.(poolHead := old(poolHead.next), frees := s.frees[1..])
    {
      poolHead := poolHead.next;
      frees := frees[1..];
    }

    method NewNode() returns (node: Node)
      modifies this`repr
      ensures fresh(node) && node.noPool && repr == old(repr) + {node}
      ensures Now() == old(Now()).(m := old(Now()).m[node := CellOf(node)])
    {
      ghost var s := Now();
      node := new Node();
      node.noPool := true;
      SnapAdded(repr, s.m, node);
      repr := repr + {node};
    }

    method HeapNode() returns (node: Node)
      requires Valid()
      modifies this`repr
      ensures fresh(node) && repr == old(repr) + {node} && Sound(Now(), {node}) && Limbo(Now(), node)
      ensures forall id: nat :: Find(id) == old(Find(id))
    {
      ghost var s := Now();
      node := NewNode();
      NewNodeSound(s, node, CellOf(node));
    }

    /** table_insert_first. */
    method InsertFirst(hId: nat, index: nat, hdrLen: nat, hdr: Str, value: Str) returns (id: nat)
      requires Valid() && index == hId % BUCKET_SIZE && Find(hId) == None
      modifies this`poolHead, this`frees, this`repr, this`chains, bucket, repr
      ensures Valid() && id == hId && fresh(repr - old(repr))
      ensures forall j: nat :: Find(j) == if j == hId then Some(Entry(hdr, hdrLen, value)) else old(Find(j))
    {
      var node := NodeCreate();
      ghost var s := Now();
      InsertedSound(s, node, hId, Entry(hdr, hdrLen, value));
      Fill(node, hId, hdr, hdrLen, value, bucket[index]);
      SetBucket(index, node, [node] + chains[index], Inserted(s, node, hId, Entry(hdr, hdrLen, value)));
      id := hId;
    }

    /** Bucket `index` gets a new first node. */
    method SetBucket(index: nat, node: Node?, ghost ns: seq<Node>, ghost s: Image)
      requires index < bucket.Length && index < |chains|
      requires s == Image(Snap(repr), bucket[..][index := node], poolHead, chains[index := ns], frees, own)
      modifies this`chains, bucket
      ensures Now() == s
    {
      ghost var was := bucket[..];
      bucket[index] := node;
      chains := chains[index := ns];
      assert bucket[..] == was[index := node];
    }

    /** ymo_http_hdr_table_insert_precompute: the entry of a node with the same id is overwritten. */
    method InsertPrecompute(hId: nat, hdr: Str, hdrLen: nat, value: Str) returns (id: nat)
      requires Valid()
      modifies this`poolHead, this`frees, this`repr, this`chains, bucket, repr
      ensures Valid() && id == hId && fresh(repr - old(repr))
      ensures forall j: nat :: Find(j) == if j == hId then Some(Entry(hdr, hdrLen, value)) else old(Find(j))
    {
      var index := hId % BUCKET_SIZE;
      var current := bucket[index];
      ghost var s, ns, k := Now(), chains[index], 0;
      NodesIn(s);
      while current != null
        invariant 0 <= k <= |ns| && current == At(ns, k) && Now() == s
        invariant forall i :: 0 <= i < k ==> s.m[ns[i]].hId != hId
        decreases |ns| - k
      {
        assert LeadsAt(s.m, ns, k);
        if current.hId == hId {
          OverwrittenSound(s, index, k, Entry(hdr, hdrLen, value));
          Overwrite(current, hdr, hdrLen, value);
          assert Now() == Overwritten(s, current, Entry(hdr, hdrLen, value));
          return hId;
        }
        assert s.m[ns[k]].hId != hId;
        current := current.next;
        k := k + 1;
      }
      FindNone(s.m, ns, hId);
      id := InsertFirst(hId, index, hdrLen, hdr, value);
    }

    /** The table with `current` for the head of bucket `index`, which is still to be written. */
    ghost function With(index: nat, current: Node?): (s: Image)
      requires index < bucket.Length
      reads this, bucket, repr
    {
      Now().(heads := bucket[..][index := current])
    }

    /** ymo_http_hdr_table_node_free, on the first node left in bucket `index`. */
    method NodeFree(node: Node, ghost index: nat)
      requires index < bucket.Length == |chains| && chains[index] != [] && chains[index][0] == node && node in repr
      modifies this`poolHead, this`frees, this`repr, this`chains, node
      ensures With(index, At(old(chains[index]), 1)) == Freed(old(With(index, node)), index) && repr <= old(repr)
      ensures chains == old(chains)[index := old(chains[index])[1..]]
    {
      ghost var s, rest := With(index, node), At(chains[index], 1);
      if node.noPool {
        repr := repr - {node};
        assert Snap(repr) == s.m - {node};
      } else {
        SetNext(node, poolHead);
        poolHead := node;
        frees := [node] + frees;
      }
      SetChain(index, rest, chains[index][1..], Freed(s, index));
    }

    ghost method SetChain(index: nat, head: Node?, ns: seq<Node>, s: Image)
      requires index < bucket.Length && index < |chains|
      requires s == Image(Snap(repr), bucket[..][index := head], poolHead, chains[index := ns], frees, own)
      modifies this`chains
      ensures With(index, head) == s && chains == old(chains)[index := ns]
    {
      chains := chains[index := ns];
    }

    method SetNext(node: Node, next: Node?)
      requires node in repr
      modifies node`next
      ensures Snap(repr) == old(Snap(repr))[node := old(CellOf(node)).(next := next)]
    {
      ghost var m := Snap(repr);
      node.next := next;
      OneSet(repr, m, node);
    }

    /** Lets go of the first node left in bucket `index`. */
    method ClearOne(dnode: Node, index: nat) returns (current: Node?)
      requires index < bucket.Length && Sound(With(index, dnode), {})
      modifies this`poolHead, this`frees, this`repr, this`chains, repr
      ensures repr <= old(repr) && Sound(With(index, current), {})
      ensures index < |old(chains)| && old(chains[index]) != []
          && chains == old(chains)[index := old(chains[index])[1..]]
    {
      assert With(index, dnode).heads[index] == At(chains[index], 0);
      FreedSound(With(index, dnode), index);
      current := dnode.next;
      NodeFree(dnode, index);
    }

    /** Lets go of every node of a bucket. */
    method ClearBucket(index: nat)
      requires Valid() && index < BUCKET_SIZE
      modifies this`poolHead, this`frees, this`repr, this`chains, bucket, repr
      ensures Valid() && repr <= old(repr) && chains == old(chains)[index := []]
    {
      var current := bucket[index];
      ghost var was := chains;
      assert bucket[..][index := current] == bucket[..];
      while current != null
        modifies this`poolHead, this`frees, this`repr, this`chains, repr
        invariant repr <= old(repr) && Sound(With(index, current), {})
        invariant |chains| == |was| && chains == was[index := chains[index]]
        decreases |chains[index]|
      {
        current := ClearOne(current, index);
      }
      assert With(index, null).heads[index] == At(chains[index], 0);
      SetBucket(index, null, [], With(index, null));
    }

    /** ymo_http_hdr_table_clear. */
    method Clear()
      requires Valid()
      modifies this`poolHead, this`frees, this`repr, this`chains, bucket, repr
      ensures Valid() && repr <= old(repr)
      ensures forall id: nat :: Find(id) == None
    {
      var index := 0;
      while index < BUCKET_SIZE
        invariant 0 <= index <= BUCKET_SIZE && Valid() && repr <= old(repr)
        invariant forall b :: 0 <= b < index ==> chains[b] == []
      {
        ClearBucket(index);
        index := index + 1;
      }
    }

    // -------------------------------------------------------------- iteration

    /** The first node of the first bucket from `i` on that has one. */
    method FirstFrom(i: nat) returns (cur: Node?)
      requires Valid() && i <= BUCKET_SIZE
      ensures cur == At(NodesFrom(chains, i), 0)
    {
      var b := i;
      while b < BUCKET_SIZE
        invariant i <= b <= BUCKET_SIZE && NodesFrom(chains, i) == NodesFrom(chains, b)
      {
        cur := bucket[b];
        assert cur == At(chains[b], 0);
        if cur != null {
          return;
        }
        b := b + 1;
      }
      cur := null;
    }

    /** ymo_http_hdr_table_next: from node `k` of bucket `b`, or from the start. */
    method Next(cur: Node?, ghost b: nat, ghost k: nat) returns (next: Node?)
      requires Valid() && (cur != null ==> b < BUCKET_SIZE && k < |chains[b]| && cur == chains[b][k])
      ensures next == At(if cur == null then NodesFrom(chains, 0) else chains[b][k + 1..] + NodesFrom(chains, b + 1), 0)
    {
      if cur == null {
        next := FirstFrom(0);
        return;
      }
      assert LeadsAt(Now().m, chains[b], k) && KeyAt(Now().m, chains[b], b, k);
      if cur.next != null {
        return cur.next;
      }
      next := FirstFrom(cur.hId % BUCKET_SIZE + 1);
    }

    /** Iterating to the end: every entry once, each under its id. */
    method List() returns (entries: seq<(nat, Entry)>)
      requires Valid()
      ensures forall id: nat, e :: (id, e) in entries <==> Find(id) == Some(e)
      ensures forall i, j :: 0 <= i < j < |entries| ==> entries[i].0 != entries[j].0
    {
      entries := Iterate();
      ListingIsMap(Now(), 0);
    }

    method Iterate() returns (entries: seq<(nat, Entry)>)
      requires Valid()
      ensures entries == Listing(Now().m, NodesFrom(chains, 0))
    {
      entries := [];
      ghost var s, all, p := Now(), NodesFrom(chains, 0), 0;
      var cur := Next(null, 0, 0);
      while cur != null
        invariant 0 <= p <= |all| && cur == At(all, p) && entries == Listing(s.m, all[..p])
        decreases |all| - p
      {
        var item;
        cur, item := Advance(cur, p, s, all);
        entries := entries + [item];
        p := p + 1;
      }
      assert all[..p] == all;
    }

    /** The entry of the node at place `p`, and the node after it. */
    method Advance(cur: Node, ghost p: nat, ghost s: Image, ghost all: seq<Node>)
      returns (next: Node?, item: (nat, Entry))
      requires Valid() && s == Now() && all == NodesFrom(chains, 0) && p < |all| && cur == all[p]
      ensures next == At(all, p + 1) && Listing(s.m, all[..p + 1]) == Listing(s.m, all[..p]) + [item]
    {
      ghost var b, k := PlaceOf(chains, 0, p);
      ListingStep(s, b, k, all, p);
      item := (cur.hId, Entry(cur.hdr, cur.hdrLen, cur.value));
      next := Next(cur, b, k);
      assert next == At(all[p + 1..], 0);
    }

    /** ymo_http_hdr_table_get_id. */
    method GetId(hId: nat) returns (data: Option<Str>)
      requires Valid()
      ensures data == if Find(hId).Some? then Some(Find(hId).value.value) else None
    {
      data := None;
      var index := hId % BUCKET_SIZE;
      var current := bucket[index];
      ghost var s, ns, k := Now(), chains[index], 0;
      assert ns[0..] == ns;
      while current != null
        invariant 0 <= k <= |ns| && current == At(ns, k)
        invariant FindIn(s.m, ns, hId) == FindIn(s.m, ns[k..], hId)
        decreases |ns| - k
      {
        assert LeadsAt(s.m, ns, k) && ns[k..][0] == ns[k] && ns[k..][1..] == ns[k + 1..];
        if current.hId == hId {
          return Some(current.value);
        }
        current := current.next;
        k := k + 1;
      }
    }
  }

  // ---------------------------------------------------------------- all entries in order

  /** The nodes of the buckets from `b` on, in order. */
  function NodesFrom(chains: seq<seq<Node>>, b: nat): (r: seq<Node>)
    decreases |chains| - b
  {
    if b >= |chains| then [] else chains[b] + NodesFrom(chains, b + 1)
  }

  /** The bucket of the node at place `p`, its place there, and what follows it. */
  lemma {:induction false} PlaceOf(chains: seq<seq<Node>>, from: nat, p: nat) returns (b: nat, k: nat)
    requires p < |NodesFrom(chains, from)|
    ensures from <= b < |chains| && k < |chains[b]| && NodesFrom(chains, from)[p] == chains[b][k]
    ensures NodesFrom(chains, from)[p + 1..] == chains[b][k + 1..] + NodesFrom(chains, b + 1)
    decreases |chains| - from
  {
    if p < |chains[from]| {
      b, k := from, p;
    } else {
      b, k := PlaceOf(chains, from + 1, p - |chains[from]|);
    }
  }

  ghost function Listing(m: Heap, ns: seq<Node>): (r: seq<(nat, Entry)>) {
    if ns == [] then []
    else Listing(m, ns[..|ns| - 1]) + (var n := ns[|ns| - 1]; if n in m then [(m[n].hId, m[n].entry)] else [])
  }

  lemma {:induction false} ListingSplit(m: Heap, xs: seq<Node>, ys: seq<Node>)
    ensures Listing(m, xs + ys) == Listing(m, xs) + Listing(m, ys)
    decreases |ys|
  {
    if ys == [] {
      assert xs + ys == xs;
    } else {
      assert (xs + ys)[..|xs + ys| - 1] == xs + ys[..|ys| - 1];
      ListingSplit(m, xs, ys[..|ys| - 1]);
    }
  }

  lemma {:induction false} ListingAt(m: Heap, ns: seq<Node>)
    requires forall i :: 0 <= i < |ns| ==> ns[i] in m
    ensures |Listing(m, ns)| == |ns|
    ensures forall i :: 0 <= i < |ns| ==> Listing(m, ns)[i] == (m[ns[i]].hId, m[ns[i]].entry)
  {
    if ns != [] { ListingAt(m, ns[..|ns| - 1]); }
  }

  lemma ListingStep(s: Image, b: nat, k: nat, all: seq<Node>, p: nat)
    requires Chained(s) && b < |s.chains| && k < |s.chains[b]| && p < |all| && all[p] == s.chains[b][k]
    ensures all[p] in s.m
        && Listing(s.m, all[..p + 1]) == Listing(s.m, all[..p]) + [(s.m[all[p]].hId, s.m[all[p]].entry)]
  {
    assert LeadsAt(s.m, s.chains[b], k);
    assert all[..p + 1][..p] == all[..p];
  }

  /** One bucket's entries are those the table finds there. */
  lemma BucketListing(m: Heap, ns: seq<Node>, b: nat)
    requires Keyed(m, ns, b) && forall i :: 0 <= i < |ns| ==> ns[i] in m
    ensures forall id: nat, e :: (id, e) in Listing(m, ns) <==> FindIn(m, ns, id) == Some(e)
    ensures forall i :: 0 <= i < |Listing(m, ns)| ==> Listing(m, ns)[i].0 % BUCKET_SIZE == b
    ensures forall i, j :: 0 <= i < j < |Listing(m, ns)| ==> Listing(m, ns)[i].0 != Listing(m, ns)[j].0
  {
    ListingAt(m, ns);
    var l := Listing(m, ns);
    forall i | 0 <= i < |ns|
      ensures m[ns[i]].hId % BUCKET_SIZE == b && FindIn(m, ns, m[ns[i]].hId) == Some(m[ns[i]].entry)
    {
      assert KeyAt(m, ns, b, i);
      FindAt(m, ns, b, i);
    }
    forall id: nat, e | FindIn(m, ns, id) == Some(e)
      ensures (id, e) in l
    {
      FindNone(m, ns, id);
      var i :| 0 <= i < |ns| && m[ns[i]].hId == id;
      assert l[i] == (id, e);
    }
  }

  /** What comes later in the table has other ids. */
  lemma {:induction false} ListingIsMap(s: Image, b: nat)
    requires Sound(s, {}) && b <= BUCKET_SIZE
    ensures var l := Listing(s.m, NodesFrom(s.chains, b));
            && (forall id: nat, e :: (id, e) in l <==> id % BUCKET_SIZE >= b && Lookup(s, id) == Some(e))
            && (forall i, j :: 0 <= i < j < |l| ==> l[i].0 != l[j].0)
    decreases BUCKET_SIZE - b
  {
    if b < BUCKET_SIZE {
      NodesIn(s);
      BucketListing(s.m, s.chains[b], b);
      ListingIsMap(s, b + 1);
      ListingSplit(s.m, s.chains[b], NodesFrom(s.chains, b + 1));
      JoinListings(s, b, Listing(s.m, s.chains[b]), Listing(s.m, NodesFrom(s.chains, b + 1)));
    }
  }

  lemma JoinListings(s: Image, b: nat, xs: seq<(nat, Entry)>, ys: seq<(nat, Entry)>)
    requires b < BUCKET_SIZE == |s.chains|
    requires forall id: nat, e :: (id, e) in xs <==> FindIn(s.m, s.chains[b], id) == Some(e)
    requires forall i :: 0 <= i < |xs| ==> xs[i].0 % BUCKET_SIZE == b
    requires forall i, j :: 0 <= i < j < |xs| ==> xs[i].0 != xs[j].0
    requires forall id: nat, e :: (id, e) in ys <==> id % BUCKET_SIZE >= b + 1 && Lookup(s, id) == Some(e)
    requires forall i, j :: 0 <= i < j < |ys| ==> ys[i].0 != ys[j].0
    ensures forall id: nat, e :: (id, e) in xs + ys <==> id % BUCKET_SIZE >= b && Lookup(s, id) == Some(e)
    ensures forall i, j :: 0 <= i < j < |xs + ys| ==> (xs + ys)[i].0 != (xs + ys)[j].0
  {
    forall id: nat, e
      ensures (id, e) in xs ==> id % BUCKET_SIZE == b && Lookup(s, id) == Some(e)
    {
      if (id, e) in xs {
        var i :| 0 <= i < |xs| && xs[i] == (id, e);
      }
    }
    forall i | 0 <= i < |ys|
      ensures ys[i].0 % BUCKET_SIZE >= b + 1
    {
      assert (ys[i].0, ys[i].1) in ys;
    }
  }

  function Empty(): (r: seq<seq<Node>>)
    ensures |r| == BUCKET_SIZE && forall b :: 0 <= b < |r| ==> r[b] == []
  {
    seq(BUCKET_SIZE, _ => [])
  }

  method ZeroedNodes() returns (items: seq<Node>)
    ensures |items| == POOL_SIZE && Distinct(items) && fresh(set n | n in items)
    ensures forall i :: 0 <= i < |items| ==> items[i].next == null && !items[i].noPool
  {
    items := [];
    while |items| < POOL_SIZE
      invariant |items| <= POOL_SIZE && Distinct(items) && fresh(set n | n in items)
      invariant forall i :: 0 <= i < |items| ==> items[i].next == null && !items[i].noPool
      decreases POOL_SIZE - |items|
    {
      var n := new Node();
      items := items + [n];
    }
  }

  method StringTogether(items: seq<Node>)
    requires |items| == POOL_SIZE && Distinct(items)
        && (forall i :: 0 <= i < |items| ==> items[i].next == null && !items[i].noPool)
    modifies items
    ensures forall i :: 0 <= i < |items| ==> items[i].next == At(items, i + 1) && !items[i].noPool
  {
    var i := 0;
    while i < POOL_SIZE - 1
      invariant 0 <= i <= POOL_SIZE - 1 && forall j :: 0 <= j < POOL_SIZE ==> !items[j].noPool
      invariant forall j :: 0 <= j < i ==> items[j].next == At(items, j + 1)
      invariant forall j :: i <= j < POOL_SIZE ==> items[j].next == null
    {
      items[i].next := items[i + 1];
      i := i + 1;
    }
  }

  lemma {:induction false} DistinctSize(ns: seq<Node>)
    requires Distinct(ns)
    ensures |set n | n in ns| == |ns|
  {
    if ns != [] {
      var init, n := ns[..|ns| - 1], ns[|ns| - 1];
      DistinctSize(init);
      assert (set x | x in ns) == (set x | x in init) + {n};
      assert n !in init;
    }
  }

  lemma PoolCells(items: seq<Node>, s: set<Node>)
    requires s == (set n | n in items)
    requires forall i :: 0 <= i < |items| ==> items[i].next == At(items, i + 1) && !items[i].noPool
    ensures forall i :: 0 <= i < |items| && items[i] in Snap(s) ==>
              Snap(s)[items[i]].next == At(items, i + 1) && !Snap(s)[items[i]].noPool
  {
  }

  lemma PoolTable(t: Table, items: seq<Node>)
    requires |items| == POOL_SIZE && Distinct(items)
    requires forall i :: 0 <= i < |items| ==> items[i].next == At(items, i + 1) && !items[i].noPool
    requires t.repr == t.own == (set n | n in items) && t.frees == items && t.poolHead == items[0]
    requires t.chains == Empty() && t.bucket.Length == BUCKET_SIZE
    requires forall b :: 0 <= b < BUCKET_SIZE ==> t.bucket[b] == null
    ensures t.Valid() && |t.own| == POOL_SIZE && forall id: nat :: t.Find(id) == None
  {
    PoolCells(items, t.repr);
    PoolSound(items, t.Now());
  }

  lemma PoolSound(items: seq<Node>, s: Image)
    requires Distinct(items) && s.own == (set n | n in items) && s.m.Keys == s.own && s.frees == items
        && s.poolHead == At(items, 0)
    requires forall i :: 0 <= i < |items| && items[i] in s.m ==>
               s.m[items[i]].next == At(items, i + 1) && !s.m[items[i]].noPool
    requires s.chains == Empty() && |s.heads| == BUCKET_SIZE && forall b :: 0 <= b < BUCKET_SIZE ==> s.heads[b] == null
    ensures Sound(s, {}) && |s.own| == |items| && forall id: nat :: Lookup(s, id) == None
  {
    DistinctSize(items);
    forall i | 0 <= i < |items|
      ensures LeadsAt(s.m, items, i) && items[i] in s.own
    {
      assert items[i] in items;
    }
  }

  // ---------------------------------------------------------------- whole runs

  datatype Act = Insert(id: nat, entry: Entry) | ClearAll

  /** The latest entry inserted for an id since the table was last cleared. */
  function Latest(acts: seq<Act>, id: nat): (e: Option<Entry>) {
    if acts == [] then None
    else
      var before, act := acts[..|acts| - 1], acts[|acts| - 1];
      match act
      case Insert(id', entry) => if id' == id then Some(entry) else Latest(before, id)
      case ClearAll => None
  }

  /** The table maps each id to its latest entry, and has all of its pool. */
  ghost predicate Follows(t: Table, acts: seq<Act>)
    reads t, t.bucket, t.repr
  {
    t.Valid() && |t.own| == POOL_SIZE && forall id: nat :: t.Find(id) == Latest(acts, id)
  }

  lemma LatestSnoc(acts: seq<Act>, act: Act, id: nat)
    ensures Latest(acts + [act], id) ==
              if act.ClearAll? then None else if act.id == id then Some(act.entry) else Latest(acts, id)
  {
    assert (acts + [act])[..|acts|] == acts;
  }

  method PerformInsert(t: Table, id: nat, entry: Entry, ghost before: seq<Act>)
    requires Follows(t, before)
    modifies t`poolHead, t`frees, t`repr, t`chains, t.bucket, t.repr
    ensures Follows(t, before + [Insert(id, entry)]) && fresh(t.repr - old(t.repr))
  {
    var _ := t.InsertPrecompute(id, entry.hdr, entry.hdrLen, entry.value);
    forall j: nat
      ensures Latest(before + [Insert(id, entry)], j) == if j == id then Some(entry) else Latest(before, j)
    {
      LatestSnoc(before, Insert(id, entry), j);
    }
  }

  method PerformClear(t: Table, ghost before: seq<Act>)
    requires Follows(t, before)
    modifies t`poolHead, t`frees, t`repr, t`chains, t.bucket, t.repr
    ensures Follows(t, before + [ClearAll]) && fresh(t.repr - old(t.repr))
  {
    t.Clear();
    forall j: nat
      ensures Latest(before + [ClearAll], j) == None
    {
      LatestSnoc(before, ClearAll, j);
    }
  }

  method Perform(t: Table, act: Act, ghost before: seq<Act>, ghost acts: seq<Act>)
    requires Follows(t, before) && acts == before + [act]
    modifies t`poolHead, t`frees, t`repr, t`chains, t.bucket, t.repr
    ensures Follows(t, acts) && fresh(t.repr - old(t.repr))
  {
    match act
    case Insert(id, entry) => PerformInsert(t, id, entry, before);
    case ClearAll => PerformClear(t, before);
  }

  method Open() returns (t: Table)
    ensures Follows(t, []) && fresh(t) && fresh(t.bucket) && fresh(t.repr)
  {
    t := new Table();
  }

  /** The acts from number `i` on. */
  method PerformAll(t: Table, acts: seq<Act>, i: nat, ghost done: seq<Act>)
    requires i <= |acts| && done == acts[..i] && Follows(t, done)
    modifies t`poolHead, t`frees, t`repr, t`chains, t.bucket, t.repr
    ensures Follows(t, acts)
    decreases |acts| - i
  {
    if i < |acts| {
      Perform(t, acts[i], done, acts[..i + 1]);
      PerformAll(t, acts, i + 1, acts[..i + 1]);
    } else {
      assert done == acts;
    }
  }

  /** Over every run, the table is the map from each id to its latest entry, and no node of its pool is lost. */
  method Drive(acts: seq<Act>) returns (t: Table)
    ensures Follows(t, acts)
  {
    t := Open();
    PerformAll(t, acts, 0, []);
  }
}
