/** What trie_node_annotate writes into the nodes, as values keyed by path. */
module TrieNumbering {
  import opened Bytes
  import opened TrieSpec
  import opened TrieFlat

  /** The numbers of one node, and the two counters at the moment its children were reached. */
  datatype Nums = Nums(index: nat, valueId: nat, first: nat, vfirst: nat)

  /** The child of `p` in slot `c` is numbered after everything in the slots before it. */
  ghost predicate ChildNumbered(tree: Tree, nums: map<Str, Nums>, p: Str, c: Byte)
    requires c in tree.kids
  {
    && p in nums && Down(p, c) in nums
    && var n, k := nums[p], nums[Down(p, c)];
       var v := tree.kids[c].value;
    && k.index == n.first + NodesBefore(tree, c)
    && k.first == k.index + 1
    && (v ==> k.valueId == n.vfirst + EndsBefore(tree, c))
    && k.vfirst == n.vfirst + EndsBefore(tree, c) + (if v then 1 else 0)
  }

  ghost predicate KidsNumbered(tree: Tree, nums: map<Str, Nums>, p: Str, i: nat) {
    forall c: Byte {:trigger Down(p, c)} :: c < i && c in tree.kids ==> ChildNumbered(tree, nums, p, c)
  }

  /** Every node at or below `p` has its children numbered. */
  ghost predicate AllNumbered(tree: Tree, nums: map<Str, Nums>, p: Str)
    decreases tree
  {
    && KidsNumbered(tree, nums, p, 256)
    && forall c: Byte {:trigger Down(p, c)} :: c in tree.kids ==> AllNumbered(tree.kids[c], nums, Down(p, c))
  }

  ghost predicate FirstKids(tree: Tree, nums: map<Str, Nums>, p: Str, i: nat) {
    && KidsNumbered(tree, nums, p, i)
    && forall c: Byte {:trigger Down(p, c)} :: c < i && c in tree.kids ==> AllNumbered(tree.kids[c], nums, Down(p, c))
  }

  /** Outside the nodes at or below `q`, nothing differs. */
  ghost predicate SameBut(nums: map<Str, Nums>, nums': map<Str, Nums>, q: Str) {
    nums.Keys == nums'.Keys && forall p {:trigger nums'[p]} :: p in nums && !(q <= p) ==> nums'[p] == nums[p]
  }

  lemma {:induction false} AllNumberedFrame(tree: Tree, nums: map<Str, Nums>, nums': map<Str, Nums>, p: Str, q: Str)
    requires AllNumbered(tree, nums, p) && SameBut(nums, nums', q)
    requires !(q <= p) && !(p <= q)
    ensures AllNumbered(tree, nums', p)
    decreases tree
  {
    forall c: Byte | c in tree.kids
      ensures ChildNumbered(tree, nums', p, c) && AllNumbered(tree.kids[c], nums', Down(p, c))
    {
      assert ChildNumbered(tree, nums, p, c);
      assert Down(p, c)[..|p|] == p;
      assert !(q <= Down(p, c)) && !(Down(p, c) <= q);
      AllNumberedFrame(tree.kids[c], nums, nums', Down(p, c), q);
    }
  }

  /** The children of `p` in slots before `i` are numbered from the two counters on, and nothing
      outside the subtree of `p` differs from `was`. */
  ghost predicate PartNumbered(tree: Tree, was: map<Str, Nums>, nums: map<Str, Nums>, p: Str, i: nat,
                               nodeId: nat, valueId: nat)
  {
    && FirstKids(tree, nums, p, i) && SameBut(was, nums, p)
    && p in was && nums[p] == was[p].(first := nodeId, vfirst := valueId)
  }

  /** Numbering one more child keeps the children before it numbered. */
  lemma {:induction false} PartNumberedStep(tree: Tree, was: map<Str, Nums>, nums: map<Str, Nums>,
                                            nums': map<Str, Nums>,
                                            p: Str, i: Byte, nodeId: nat, valueId: nat)
    requires PartNumbered(tree, was, nums, p, i, nodeId, valueId)
    requires SameBut(nums, nums', Down(p, i))
    requires i in tree.kids ==> ChildNumbered(tree, nums', p, i) && AllNumbered(tree.kids[i], nums', Down(p, i))
    ensures PartNumbered(tree, was, nums', p, i + 1, nodeId, valueId)
  {
    var q := Down(p, i);
    assert !(q <= p) && p <= q;
    forall c: Byte | c < i + 1 && c in tree.kids
      ensures ChildNumbered(tree, nums', p, c) && AllNumbered(tree.kids[c], nums', Down(p, c))
    {
      if c < i {
        assert ChildNumbered(tree, nums, p, c);
        assert !(q <= Down(p, c)) && !(Down(p, c) <= q);
        AllNumberedFrame(tree.kids[c], nums, nums', Down(p, c), q);
      }
    }
  }

  /** The child in slot `c` has been numbered, and then everything below it. */
  lemma ChildDone(tree: Tree, c: Byte, p: Str, was: map<Str, Nums>, mid: map<Str, Nums>, nums: map<Str, Nums>,
                  nodeId: nat, valueId: nat)
    requires c in tree.kids && p in was && Down(p, c) in was
    requires nodeId == was[p].first + NodesBefore(tree, c) && valueId == was[p].vfirst + EndsBefore(tree, c)
    requires mid == was[Down(p, c) := was[Down(p, c)].(index := nodeId,
                                                       valueId := if tree.kids[c].value then valueId
                                                                  else was[Down(p, c)].valueId)]
    requires PartNumbered(tree.kids[c], mid, nums, Down(p, c), 256, nodeId + 1,
                          valueId + if tree.kids[c].value then 1 else 0)
    ensures SameBut(was, nums, Down(p, c)) && ChildNumbered(tree, nums, p, c)
    ensures AllNumbered(tree.kids[c], nums, Down(p, c))
  {
    assert !(Down(p, c) <= p);
  }

  lemma SlotCounts(tree: Tree, i: Byte)
    ensures NodesBefore(tree, i + 1) ==
        NodesBefore(tree, i) + (if i in tree.kids then 1 + Size(Siblings(tree.kids[i], 0)) else 0)
    ensures i in tree.kids ==>
              EndsBefore(tree, i + 1) ==
                  EndsBefore(tree, i) + (if tree.kids[i].value then 1 else 0) + Ends(Siblings(tree.kids[i], 0))
    ensures i !in tree.kids ==> EndsBefore(tree, i + 1) == EndsBefore(tree, i)
  {
  }

  /** The number written into a node is its place in preorder. */
  lemma {:induction false} NumberIsIndex(tree: Tree, nums: map<Str, Nums>, p: Str, i: nat, w: Str)
    requires AllNumbered(tree, nums, p) && p in nums
    requires i <= 256 && HasNode(Siblings(tree, i), w)
    ensures p + w in nums
    ensures nums[p + w].index == nums[p].first + NodesBefore(tree, i) + NodeIndex(Siblings(tree, i), w)
    decreases tree, 256 - i
  {
    if i !in tree.kids {
      NumberIsIndex(tree, nums, p, i + 1, w);
    } else if w[0] != i {
      NumberIsIndex(tree, nums, p, i + 1, w);
    } else {
      assert ChildNumbered(tree, nums, p, i);
      if w[1..] == [] {
        assert p + w == Down(p, i);
      } else {
        assert p + w == Down(p, i) + w[1..];
        NumberIsIndex(tree.kids[i], nums, Down(p, i), 0, w[1..]);
      }
    }
  }

  /** The same for every node below the root. */
  lemma NumbersAreIndices(tree: Tree, nums: map<Str, Nums>)
    requires AllNumbered(tree, nums, []) && [] in nums && nums[[]].first == 0
    ensures forall w {:trigger HasNode(Siblings(tree, 0), w)} :: HasNode(Siblings(tree, 0), w) ==>
              w in nums && nums[w].index == NodeIndex(Siblings(tree, 0), w)
  {
    forall w | HasNode(Siblings(tree, 0), w) ensures w in nums && nums[w].index == NodeIndex(Siblings(tree, 0), w) {
      NumberIsIndex(tree, nums, [], 0, w);
      assert [] + w == w;
    }
  }

  /** The paths of the nodes other than the root, and the numbers in them. */
  ghost function Indices(nums: map<Str, Nums>): (indices: map<Str, nat>) {
    map p | p in nums && p != [] :: nums[p].index
  }

  /** The numbers are a bijection between the paths and 0 to n - 1. */
  ghost predicate Bijective(indices: map<Str, nat>, n: nat) {
    && (forall w {:trigger indices[w]} :: w in indices ==> indices[w] < n)
    && (forall v, w {:trigger indices[v], indices[w]} ::
          v in indices && w in indices && indices[v] == indices[w] ==> v == w)
    && (forall k :: 0 <= k < n ==> Taken(indices, k))
  }

  ghost predicate Taken(indices: map<Str, nat>, k: nat) {
    exists w {:trigger indices[w]} :: w in indices && indices[w] == k
  }

  /** The nodes other than the root are those of the root's forest, each has been numbered with its place in
      preorder, and that is a bijection. */
  ghost predicate InPreorder(tree: Tree, nums: map<Str, Nums>) {
    var f, indices := Siblings(tree, 0), Indices(nums);
    && AllNumbered(tree, nums, [])
    && (forall w {:trigger HasNode(f, w)} :: w in indices <==> HasNode(f, w))
    && (forall w {:trigger indices[w]} :: HasNode(f, w) ==> indices[w] == NodeIndex(f, w))
    && Bijective(indices, Size(f))
  }

  lemma NumberedInPreorder(tree: Tree, nums: map<Str, Nums>)
    requires Walkable(tree) && AllNumbered(tree, nums, []) && [] in nums && nums[[]].first == 0
    requires forall w {:trigger HasNode(Siblings(tree, 0), w)} :: w in nums && w != [] ==> HasNode(Siblings(tree, 0), w)
    ensures InPreorder(tree, nums)
  {
    NumbersAreIndices(tree, nums);
    SiblingsSorted(tree, 0);
    PlacesAreBijective(Siblings(tree, 0), Indices(nums));
  }

  /** If the paths in a table are a forest's nodes and the numbers their places in preorder, they are a
      bijection. */
  lemma PlacesAreBijective(f: Forest, indices: map<Str, nat>)
    requires Sorted(f, 0) && forall w {:trigger HasNode(f, w)} :: w in indices <==> HasNode(f, w)
    requires forall w {:trigger indices[w]} :: HasNode(f, w) ==> indices[w] == NodeIndex(f, w)
    ensures Bijective(indices, Size(f))
  {
    forall v, w | v in indices && w in indices && indices[v] == indices[w]
      ensures v == w
    {
      assert HasNode(f, v) && HasNode(f, w);
      PathOfIndex(f, v);
      PathOfIndex(f, w);
    }
    forall k | 0 <= k < Size(f)
      ensures Taken(indices, k)
    {
      IndexOfPath(f, k, 0);
      assert indices[NodePath(f, k)] == k;
    }
  }

  lemma NumberedAt(tree: Tree, nums: map<Str, Nums>, p: Str, c: Byte)
    requires KidsNumbered(tree, nums, p, 256) && c in tree.kids
    ensures ChildNumbered(tree, nums, p, c)
  {
    var q := Down(p, c);
  }

  /** A node's first child is numbered next after it, and each child's next sibling after all of that
      child's own subtree. */
  lemma FirstAndNext(tree: Tree, nums: map<Str, Nums>, p: Str, c: Byte, d: Byte)
    requires KidsNumbered(tree, nums, p, 256) && c in tree.kids && d in tree.kids
    ensures p in nums && Down(p, c) in nums && Down(p, d) in nums
    ensures (forall b: Byte :: b < c ==> b !in tree.kids) ==> nums[Down(p, c)].index == nums[p].first
    ensures c < d && (forall b: Byte :: c < b < d ==> b !in tree.kids) ==>
              nums[Down(p, d)].index == nums[Down(p, c)].index + 1 + Size(Siblings(tree.kids[c], 0))
    ensures nums[Down(p, c)].first == nums[Down(p, c)].index + 1
  {
    NumberedAt(tree, nums, p, c);
    NumberedAt(tree, nums, p, d);
    if forall b: Byte :: b < c ==> b !in tree.kids {
      SkipTo(tree, 0, c);
    }
    if c < d && (forall b: Byte :: c < b < d ==> b !in tree.kids) {
      SlotCounts(tree, c);
      SkipTo(tree, c + 1, d);
    }
  }
}
