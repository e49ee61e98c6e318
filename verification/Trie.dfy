/** src/core/ymo_trie.c: the pointer trie, its numbering, and the flattened array built from it. */
module Trie {
  import opened Bytes
  import opened Common
  import opened TrieSpec
  import opened TrieFlat
  import opened TrieNumbering

  class TrieNode {
    var children: seq<TrieNode?>
    var index: nat
    var valueId: nat
    var value: bool

    // Where the node sits, what hangs below it, and the two counters when its children were numbered.
    ghost const path: Str
    ghost var tree: Tree
    ghost var first: nat
    ghost var vfirst: nat

    constructor (ghost path: Str)
      ensures this.path == path && tree == Leaf && !value
      ensures children == NoChildren
    {
      children, index, valueId, value := NoChildren, 0, 0, false;
      this.path, tree, first, vfirst := path, Leaf, 0, 0;
    }
  }

  /** The structural fields of a node, as a value. */
  datatype Links = Links(children: seq<TrieNode?>, value: bool, tree: Tree)

  const NoChildren: seq<TrieNode?> := seq(256, _ => null)

  /** The links of the node at `p` agree with the map from paths to nodes, and lead to `kids`. */
  ghost predicate Linked(at: map<Str, TrieNode>, links: map<Str, Links>, p: Str, kids: map<Byte, Tree>)
    requires p in links && at.Keys == links.Keys
  {
    && |links[p].children| == 256
    && (forall c: Byte {:trigger Down(p, c)} ::
          if Down(p, c) in at
          then c in kids && links[p].children[c] == at[Down(p, c)] && kids[c] == links[Down(p, c)].tree
          else c !in kids && links[p].children[c] == null)
  }

  ghost predicate Settled(at: map<Str, TrieNode>, links: map<Str, Links>, p: Str)
    requires p in links && at.Keys == links.Keys
  {
    links[p].value == links[p].tree.value && Linked(at, links, p, links[p].tree.kids)
  }

  /** Nodes are keyed by path, and paths are closed under taking prefixes. */
  ghost predicate Keyed(at: map<Str, TrieNode>) {
    && [] in at
    && (forall p {:trigger at[p]} :: p in at ==> at[p].path == p)
    && (forall p {:trigger Up(p)} :: p in at && p != [] ==> Up(p) in at)
  }

  /** Every node is settled except the one at `done`, which still holds `before` although its
      tree already counts `rest` in. */
  ghost predicate Pending(at: map<Str, TrieNode>, links: map<Str, Links>, done: Str, rest: Str, before: Tree) {
    && at.Keys == links.Keys && Keyed(at) && done in at
    && (forall p {:trigger Settled(at, links, p)} :: p in at && p != done ==> Settled(at, links, p))
    && links[done].tree == Insert(before, rest)
    && links[done].value == before.value && Linked(at, links, done, before.kids)
  }

  /** Counting a new key in at the root leaves the root pending. */
  lemma StartPending(at: map<Str, TrieNode>, links: map<Str, Links>, rest: Str)
    requires at.Keys == links.Keys && Keyed(at)
    requires forall p {:trigger Settled(at, links, p)} :: p in at ==> Settled(at, links, p)
    ensures Pending(at, links[[] := links[[]].(tree := Insert(links[[]].tree, rest))], [], rest, links[[]].tree)
  {
    var links' := links[[] := links[[]].(tree := Insert(links[[]].tree, rest))];
    forall p | p in at && p != [] ensures Settled(at, links', p) {
      assert Settled(at, links, p);
    }
    assert Settled(at, links, []);
  }

  /** Hanging an empty node below the pending one adds an empty child and disturbs nothing else. */
  lemma AttachKeepsPending(at: map<Str, TrieNode>, links: map<Str, Links>, done: Str, rest: Str, before: Tree,
                           c: Byte, node: TrieNode)
    requires Pending(at, links, done, rest, before) && rest != [] && rest[0] == c
    requires Down(done, c) !in at && node.path == Down(done, c)
    ensures Pending(at[Down(done, c) := node],
                    links[done := links[done].(children := links[done].children[c := node])]
                         [Down(done, c) := Links(NoChildren, false, Leaf)],
                    done, rest, WithKid(before, c))
  {
    var at' := at[Down(done, c) := node];
    var links' := links[done := links[done].(children := links[done].children[c := node])]
                       [Down(done, c) := Links(NoChildren, false, Leaf)];
    forall p | p in at' && p != done ensures Settled(at', links', p) {
      if p in at {
        assert Settled(at, links, p);
        forall d: Byte ensures Down(p, d) != Down(done, c) {
          assert Up(Down(p, d)) == p && Up(Down(done, c)) == done;
        }
      } else {
        forall d: Byte ensures Down(p, d) !in at' {
          assert Up(Down(p, d)) == p;
        }
      }
    }
  }

  /** Entering the child makes the parent settled and the child pending. */
  lemma DescendKeepsPending(at: map<Str, TrieNode>, links: map<Str, Links>, done: Str, rest: Str, before: Tree, c: Byte)
    requires Pending(at, links, done, rest, before) && rest != [] && rest[0] == c && c in before.kids
    ensures Down(done, c) in at
    ensures Pending(at, links[Down(done, c) := links[Down(done, c)].(tree := Insert(before.kids[c], rest[1..]))],
                    Down(done, c), rest[1..], before.kids[c])
  {
    assert Down(done, c) in at;
    var child := Down(done, c);
    var links' := links[child := links[child].(tree := Insert(before.kids[c], rest[1..]))];
    assert Settled(at, links, child);
    forall p | p in at && p != child ensures Settled(at, links', p) {
      assert p != done ==> Settled(at, links, p);
      forall d: Byte ensures Down(p, d) == child ==> p == done && d == c {
        assert Up(Down(p, d)) == p && Up(Down(done, c)) == done;
        assert Down(p, d)[|p|] == d;
      }
    }
  }

  lemma {:induction false} PrefixIn(at: map<Str, TrieNode>, p: Str, w: Str)
    requires Keyed(at) && p + w in at
    ensures p in at
    decreases |w|
  {
    if w == [] {
      assert p + w == p;
    } else {
      assert Up(p + w) == p + w[..|w| - 1];
      PrefixIn(at, p, w[..|w| - 1]);
    }
  }

  /** Below a node of a settled trie, a path that leads to a node is one of the node's own tree. */
  lemma {:induction false} NodesAreOnPaths(at: map<Str, TrieNode>, links: map<Str, Links>, p: Str, w: Str)
    requires at.Keys == links.Keys && Keyed(at) && p + w in at && p in at && w != []
    requires forall q {:trigger Settled(at, links, q)} :: q in at ==> Settled(at, links, q)
    ensures HasNode(Siblings(links[p].tree, 0), w)
    decreases |w|
  {
    var c, rest := w[0], w[1..];
    assert Down(p, c) + rest == p + w;
    PrefixIn(at, Down(p, c), rest);
    assert Settled(at, links, p);
    assert links[p].tree.kids[c] == links[Down(p, c)].tree;
    if rest != [] {
      NodesAreOnPaths(at, links, Down(p, c), rest);
    }
    TreeHasNode(links[p].tree, 0, w);
  }

  function WithKid(t: Tree, c: Byte): (r: Tree) {
    t.(kids := t.kids[c := Kid(t, c)])
  }

  class PointerTrie {
    var root: TrieNode
    var noNodes: nat
    var noValues: nat
    ghost var at: map<Str, TrieNode>

    ghost function LinksOf(): (links: map<Str, Links>)
      reads this`at, at.Values`children, at.Values`value, at.Values`tree
      ensures links.Keys == at.Keys
    {
      map p | p in at :: Links(at[p].children, at[p].value, at[p].tree)
    }

    ghost predicate Valid()
      reads this, at.Values`children, at.Values`value, at.Values`tree
    {
      && Keyed(at) && root == at[[]]
      && (forall p {:trigger Settled(at, LinksOf(), p)} :: p in at ==> Settled(at, LinksOf(), p))
      && noNodes == Size(Siblings(root.tree, 0))
    }

    constructor ()
      ensures Valid() && fresh(at.Values)
      ensures root.tree == Leaf && noValues == 0
    {
      root := new TrieNode([]);
      noNodes, noValues := 0, 0;
      new;
      at := map[[] := root];
      SiblingsOfLeaf(0);
      forall c: Byte ensures Down([], c) !in at {
      }
      assert Settled(at, LinksOf(), []);
    }

    ghost predicate Inserting(current: TrieNode, done: Str, rest: Str, before: Tree)
      reads this, at.Values
    {
      Pending(at, LinksOf(), done, rest, before) && current == at[done] && [] in at && root == at[[]]
    }

    /** Counts the key about to be inserted in at the root. */
    ghost method Start(rest: Str)
      requires Valid()
      modifies root`tree
      ensures Inserting(root, [], rest, old(root.tree)) && root.tree == Insert(old(root.tree), rest)
    {
      var links := LinksOf();
      StartPending(at, links, rest);
      root.tree := Insert(root.tree, rest);
      assert LinksOf() == links[[] := links[[]].(tree := root.tree)];
    }

    /** A new child for `c`. */
    method AddChild(current: TrieNode, c: Byte, ghost done: Str, ghost rest: Str, ghost before: Tree)
      requires Inserting(current, done, rest, before)
      requires rest != [] && rest[0] == c && Down(done, c) !in at
      modifies this`noNodes, this`at, current`children
      ensures Inserting(current, done, rest, WithKid(before, c)) && noNodes == old(noNodes) + 1
      ensures at[[]] == old(at)[[]] && at[[]].tree == old(at[[]].tree)
      ensures forall n :: n in at.Values ==> n in old(at.Values) || fresh(n)
    {
      ghost var links, top := LinksOf(), at[[]];
      var node := new TrieNode(Down(done, c));
      noNodes := noNodes + 1;
      current.children := current.children[c := node];
      AttachKeepsPending(at, links, done, rest, before, c, node);
      at := at[Down(done, c) := node];
      assert at[[]] == top && top.tree == old(top.tree);
      assert LinksOf() == links[done := links[done].(children := links[done].children[c := node])]
                               [Down(done, c) := Links(NoChildren, false, Leaf)];
    }

    /** Makes sure the node being inserted at has a child for `c`. */
    method NeedChild(current: TrieNode, c: Byte, ghost done: Str, ghost rest: Str, ghost before: Tree)
      requires Inserting(current, done, rest, before)
      requires rest != [] && rest[0] == c
      modifies this`noNodes, this`at, current`children
      ensures Inserting(current, done, rest, WithKid(before, c))
      ensures at[[]] == old(at)[[]] && at[[]].tree == old(at[[]].tree)
      ensures noNodes == old(noNodes) + (if c in before.kids then 0 else 1)
      ensures forall n :: n in at.Values ==> n in old(at.Values) || fresh(n)
    {
      if current.children[c] == null {
        assert Down(done, c) !in at;
        AddChild(current, c, done, rest, before);
      } else {
        assert Down(done, c) in at;
        assert WithKid(before, c) == before;
      }
    }

    /** One turn of the insertion loop: on to the child for `c`, making it if it is missing. */
    method Descend(current: TrieNode, c: Byte, ghost done: Str, ghost rest: Str, ghost before: Tree)
      returns (next: TrieNode)
      requires Inserting(current, done, rest, before)
      requires rest != [] && rest[0] == c
      modifies this`noNodes, this`at, at.Values
      ensures Inserting(next, Down(done, c), rest[1..], Kid(before, c))
      ensures at[[]] == old(at)[[]] && at[[]].tree == old(at[[]].tree)
      ensures noNodes == old(noNodes) + (if c in before.kids then 0 else 1)
      ensures forall n :: n in at.Values ==> n in old(at.Values) || fresh(n)
    {
      NeedChild(current, c, done, rest, before);
      ghost var links := LinksOf();
      ghost var kid := Kid(before, c);
      DescendKeepsPending(at, links, done, rest, WithKid(before, c), c);
      next := current.children[c];
      next.tree := Insert(kid, rest[1..]);
      assert LinksOf() == links[Down(done, c) := links[Down(done, c)].(tree := Insert(kid, rest[1..]))];
    }

    /** The insertion loop: from the root down to the node that ends the folded key. */
    method Walk(s: Str, ghost start: Tree) returns (current: TrieNode, ghost done: Str, ghost before: Tree)
      requires Inserting(root, [], Fold(s), start) && 0 !in s
      modifies this`noNodes, this`at, at.Values
      ensures Inserting(current, done, [], before)
      ensures root.tree == old(root.tree) && noNodes == old(noNodes) + NewNodes(start, Fold(s))
      ensures forall n :: n in at.Values ==> n in old(at.Values) || fresh(n)
    {
      current := root;
      done, before := [], start;
      var k := 0;
      ghost var rest := Fold(s);
      var c := ToLower(CharAt(s, k));
      while c != 0
        invariant k <= |s| && c == ToLower(CharAt(s, k)) && rest == Fold(s)[k..]
        invariant Inserting(current, done, rest, before)
        invariant noNodes + NewNodes(before, rest) == old(noNodes) + NewNodes(start, Fold(s))
        invariant root.tree == old(root.tree)
        invariant forall n :: n in at.Values ==> n in old(at.Values) || fresh(n)
        decreases |s| - k
      {
        ToLowerMeaning(CharAt(s, k));
        current := Descend(current, c, done, rest, before);
        done, rest, before, k := Down(done, c), rest[1..], Kid(before, c), k + 1;
        c := ToLower(CharAt(s, k));
      }
      ToLowerMeaning(CharAt(s, k));
      assert rest == [];
    }

    /** Adds the folded form of the C string `s`, creating nodes where the path leaves the trie. */
    method AddString(s: Str) returns (status: Status)
      requires Valid() && 0 !in s
      modifies this, at.Values
      ensures Valid() && status == OKAY
      ensures root == old(root) && root.tree == Insert(old(root.tree), Fold(s))
      ensures noValues == old(noValues) + 1
      ensures forall n :: n in at.Values ==> n in old(at.Values) || fresh(n)
    {
      InsertSize(root.tree, Fold(s));
      ghost var start := root.tree;
      Start(Fold(s));
      var current;
      ghost var done, before;
      current, done, before := Walk(s, start);
      Finish(current, done, before);
      status := OKAY;
    }

    /** Marks the end of the key. */
    method Finish(current: TrieNode, ghost done: Str, ghost before: Tree)
      requires Inserting(current, done, [], before)
      requires noNodes == Size(Siblings(root.tree, 0))
      modifies this`noValues, current`value
      ensures Valid() && noValues == old(noValues) + 1
    {
      ghost var links := LinksOf();
      noValues := noValues + 1;
      current.value := true;
      assert LinksOf() == links[done := links[done].(value := true)];
      forall p | p in at ensures Settled(at, LinksOf(), p) {
        assert p != done ==> Settled(at, links, p);
      }
    }

    ghost function NumsOf(): (nums: map<Str, Nums>)
      reads this`at, at.Values`index, at.Values`valueId, at.Values`first, at.Values`vfirst
      ensures nums.Keys == at.Keys
    {
      map p | p in at :: Nums(at[p].index, at[p].valueId, at[p].first, at[p].vfirst)
    }

    ghost predicate Holds(node: TrieNode)
      reads this`at
    {
      node.path in at && at[node.path] == node
    }

    ghost predicate Numbering(node: TrieNode, was: map<Str, Nums>, i: nat, nodeId: nat, valueId: nat)
      reads this, at.Values, node
    {
      PartNumbered(node.tree, was, NumsOf(), node.path, i, nodeId, valueId)
    }

    /** Notes the two counters on reaching a node. */
    ghost method Reach(node: TrieNode, nodeId: nat, valueId: nat)
      requires Valid() && Holds(node)
      modifies node`first, node`vfirst
      ensures Numbering(node, old(NumsOf()), 0, nodeId, valueId)
      ensures node.first == nodeId && node.vfirst == valueId
    {
      node.first, node.vfirst := nodeId, valueId;
    }

    /** trie_node_annotate: numbers everything below `node`, counting up from the two counters. */
    method Annotate(node: TrieNode, nodeId: nat, valueId: nat) returns (nodeId': nat, valueId': nat)
      requires Valid() && Holds(node)
      modifies at.Values`index, at.Values`valueId, at.Values`first, at.Values`vfirst
      ensures nodeId' == nodeId + Size(Siblings(node.tree, 0)) && valueId' == valueId + Ends(Siblings(node.tree, 0))
      ensures Numbering(node, old(NumsOf()), 256, nodeId, valueId)
      decreases node.tree, 2
    {
      nodeId', valueId' := nodeId, valueId;
      Reach(node, nodeId, valueId);
      var i := 0;
      while i < 256
        invariant 0 <= i <= 256
        invariant nodeId' == nodeId + NodesBefore(node.tree, i) && valueId' == valueId + EndsBefore(node.tree, i)
        invariant Numbering(node, old(NumsOf()), i, nodeId, valueId)
      {
        ghost var nums := NumsOf();
        nodeId', valueId' := AnnotateSlot(node, i, nodeId', valueId');
        PartNumberedStep(node.tree, old(NumsOf()), nums, NumsOf(), node.path, i, nodeId, valueId);
        i := i + 1;
      }
    }

    /** The body of the loop over child slots. */
    method AnnotateSlot(node: TrieNode, i: Byte, nodeId: nat, valueId: nat) returns (nodeId': nat, valueId': nat)
      requires Valid() && Holds(node)
      requires nodeId == node.first + NodesBefore(node.tree, i) && valueId == node.vfirst + EndsBefore(node.tree, i)
      modifies at.Values`index, at.Values`valueId, at.Values`first, at.Values`vfirst
      ensures nodeId' == nodeId + NodesBefore(node.tree, i + 1) - NodesBefore(node.tree, i)
      ensures valueId' == valueId + EndsBefore(node.tree, i + 1) - EndsBefore(node.tree, i)
      ensures SameBut(old(NumsOf()), NumsOf(), Down(node.path, i))
      ensures i in node.tree.kids ==>
                ChildNumbered(node.tree, NumsOf(), node.path, i)
                && AllNumbered(node.tree.kids[i], NumsOf(), Down(node.path, i))
      decreases node.tree, 1
    {
      nodeId', valueId' := nodeId, valueId;
      assert Settled(at, LinksOf(), node.path);
      assert Down(node.path, i) in at <==> i in node.tree.kids;
      SlotCounts(node.tree, i);
      var child := node.children[i];
      if child != null {
        nodeId', valueId' := NumberChild(node, i, child, nodeId, valueId);
        assert node.tree.kids[i] == child.tree && Settled(at, LinksOf(), child.path);
      }
    }

    /** A node's own numbers. */
    method SetNumbers(child: TrieNode, nodeId: nat, valueId: nat) returns (nodeId': nat, valueId': nat)
      requires Keyed(at) && Holds(child)
      modifies child`index, child`valueId
      ensures nodeId' == nodeId + 1 && valueId' == valueId + if child.value then 1 else 0
      ensures NumsOf() == old(NumsOf())[child.path := old(NumsOf())[child.path].(index := nodeId,
          valueId := if child.value then valueId else old(child.valueId))]
    {
      nodeId', valueId' := nodeId, valueId;
      child.index := nodeId';
      nodeId' := nodeId' + 1;
      if child.value {
        child.valueId := valueId';
        valueId' := valueId' + 1;
      }
    }

    /** Numbers one child and everything below it. */
    method NumberChild(ghost node: TrieNode, ghost i: Byte, child: TrieNode, nodeId: nat, valueId: nat)
        returns (nodeId': nat, valueId': nat)
      requires Valid() && Holds(node) && i in node.tree.kids && Down(node.path, i) in at
          && at[Down(node.path, i)] == child
      requires nodeId == node.first + NodesBefore(node.tree, i) && valueId == node.vfirst + EndsBefore(node.tree, i)
      modifies at.Values`index, at.Values`valueId, at.Values`first, at.Values`vfirst
      ensures nodeId' == nodeId + 1 + Size(Siblings(child.tree, 0))
      ensures valueId' == valueId + (if child.value then 1 else 0) + Ends(Siblings(child.tree, 0))
      ensures SameBut(old(NumsOf()), NumsOf(), Down(node.path, i))
      ensures ChildNumbered(node.tree, NumsOf(), node.path, i)
      ensures AllNumbered(child.tree, NumsOf(), Down(node.path, i))
      decreases node.tree, 0
    {
      assert Settled(at, LinksOf(), node.path) && Settled(at, LinksOf(), child.path);
      ghost var was := NumsOf();
      nodeId', valueId' := SetNumbers(child, nodeId, valueId);
      ghost var mid := NumsOf();
      nodeId', valueId' := Annotate(child, nodeId', valueId');
      ChildDone(node.tree, i, node.path, was, mid, NumsOf(), nodeId, valueId);
    }

    /** Annotation has run. */
    ghost predicate Numbered(node: TrieNode)
      reads this, at.Values, node
    {
      Valid() && Holds(node) && AllNumbered(node.tree, NumsOf(), node.path)
    }

    /** What flattening below `node` relies on: annotation has run, and no slot is 0xFF. */
    ghost predicate Annotated(node: TrieNode)
      reads this, at.Values, node
    {
      Numbered(node) && Walkable(node.tree)
    }

    lemma SlotOf(node: TrieNode, c: Byte)
      requires Numbered(node)
      ensures |node.children| == 256 && (c in node.tree.kids <==> node.children[c] != null)
      ensures c in node.tree.kids ==> node.children[c].index == node.first + NodesBefore(node.tree, c)
    {
      assert Settled(at, LinksOf(), node.path);
      assert c in node.tree.kids <==> Down(node.path, c) in at;
      if c in node.tree.kids {
        assert ChildNumbered(node.tree, NumsOf(), node.path, c);
      }
    }

    lemma KidOf(node: TrieNode, c: Byte)
      requires Annotated(node)
      ensures |node.children| == 256 && (c in node.tree.kids <==> node.children[c] != null)
      ensures c in node.tree.kids ==>
                var k := node.children[c];
                Annotated(k) && k.tree == node.tree.kids[c] && k.value == k.tree.value && c < 255
                && k.index == node.first + NodesBefore(node.tree, c) && k.first == k.index + 1
                && (k.value ==> k.valueId == node.vfirst + EndsBefore(node.tree, c))
                && k.vfirst == node.vfirst + EndsBefore(node.tree, c) + (if k.value then 1 else 0)
    {
      assert Settled(at, LinksOf(), node.path);
      assert c in node.tree.kids <==> Down(node.path, c) in at;
      if c in node.tree.kids {
        assert ChildNumbered(node.tree, NumsOf(), node.path, c);
        assert Settled(at, LinksOf(), Down(node.path, c));
      }
    }

    /** Whether any slot of `node` is taken. */
    method HasChild(node: TrieNode) returns (found: bool)
      requires Annotated(node)
      ensures found == Siblings(node.tree, 0).Cons?
    {
      found := false;
      var t := 0;
      while t < 256
        invariant 0 <= t <= 256 && !found
        invariant Siblings(node.tree, 0) == Siblings(node.tree, t)
      {
        KidOf(node, t);
        if node.children[t] != null {
          found := true;
          break;
        }
        t := t + 1;
      }
    }

    /** The next taken slot from `i` on, and the loop counter just past it; the caller takes one off the
        counter and goes on there. */
    method FindRight(node: TrieNode, i: nat) returns (right: TrieNode?, t: nat)
      requires Numbered(node) && i <= 256
      ensures t <= 256 && t - 1 == NextCounter(node.tree, i)
      ensures i <= 255 ==> i < t && Siblings(node.tree, i) == Siblings(node.tree, t - 1)
      ensures forall d: Byte :: i <= d < t - 1 ==> d !in node.tree.kids
      ensures right == null ==> t == 256 && Siblings(node.tree, i) == Nil
      ensures right != null ==>
                t - 1 in node.tree.kids && right.index == node.first + NodesBefore(node.tree, t - 1)
    {
      right, t := null, i;
      while t < 256
        invariant i <= t <= 256 && right == null
        invariant Siblings(node.tree, i) == Siblings(node.tree, t)
        invariant NextCounter(node.tree, i) == NextCounter(node.tree, t)
        invariant forall d: Byte :: i <= d < t ==> d !in node.tree.kids
      {
        SlotOf(node, t);
        right := node.children[t];
        t := t + 1;
        if right != null {
          break;
        }
      }
    }

    /** Everything about a child's cell but its offset. */
    method WriteCell(cells: array<Cell>, node: TrieNode, left: TrieNode, c: Byte)
      requires Annotated(node) && c in node.tree.kids && |node.children| == 256 && node.children[c] == left
      requires left.index + Size(Siblings(left.tree, 0)) < cells.Length && cells[left.index] == Blank
      requires InBounds(cells[..])
      modifies cells
      ensures InBounds(cells[..])
      ensures cells[..] == old(cells[..])[left.index := Cell(Siblings(left.tree, 0).Cons?, left.value,
                                                            if left.value then left.valueId % 256 else 0, 0, c)]
    {
      KidOf(node, c);
      ghost var was := cells[..];
      cells[left.index] := cells[left.index].(value := c);
      var any := HasChild(left);
      if any {
        cells[left.index] := cells[left.index].(hasChild := true);
      }
      if left.value {
        cells[left.index] := cells[left.index].(terminal := true, hdrId := left.valueId % 256);
      }
      NewCellInBounds(was, cells[..], left.index);
    }

    /** The jump to the next sibling, if it is not too long. */
    method WriteOffset(cells: array<Cell>, ghost node: TrieNode, left: TrieNode, right: TrieNode, ghost d: Byte)
      returns (status: Status)
      requires d in node.tree.kids && right.index == node.first + NodesBefore(node.tree, d) && left.index < right.index
      requires node.first + Size(Siblings(node.tree, 0)) <= cells.Length && InBounds(cells[..])
      requires left.index < cells.Length && cells[left.index].offset == 0 && cells[left.index].value != 0
      modifies cells
      ensures status == if right.index - left.index > MAX_OFFSET then EOVERFLOW else OKAY
      ensures InBounds(cells[..])
      ensures cells[..] == if status != OKAY then old(cells[..])
          else old(cells[..])[left.index := old(cells[left.index]).(offset := right.index - left.index)]
    {
      var offset := right.index - left.index;
      if offset > MAX_OFFSET {
        return EOVERFLOW;
      }
      ghost var was := cells[..];
      assert CellInBounds(was, left.index);
      SlotIs(node.tree, d);
      NodesBeforeMonotone(node.tree, d + 1, 256);
      cells[left.index] := cells[left.index].(offset := offset);
      NewCellInBounds(was, cells[..], left.index);
      status := OKAY;
    }

    /** A child's whole cell, unless the jump to its next sibling is too long; `t` is the counter
        past that sibling. */
    method WriteSlot(cells: array<Cell>, node: TrieNode, c: Byte) returns (status: Status, t: nat)
      requires Annotated(node) && c in node.tree.kids && node.first + Size(Siblings(node.tree, 0)) <= cells.Length
      requires 0 <= node.first + NodesBefore(node.tree, c) < cells.Length
      requires cells[node.first + NodesBefore(node.tree, c)] == Blank && InBounds(cells[..])
      modifies cells
      ensures InBounds(cells[..])
      ensures c + 1 < t <= 256 && forall d: Byte :: c < d < t - 1 ==> d !in node.tree.kids
      ensures status == if TooFar(node.tree, c) then EOVERFLOW else OKAY
      ensures SameOutside(old(cells[..]), cells[..], node.first + NodesBefore(node.tree, c),
          node.first + NodesBefore(node.tree, c) + 1)
      ensures status == OKAY ==>
                cells[node.first + NodesBefore(node.tree, c)] == SlotCell(node.tree, c, node.vfirst)
      ensures status != OKAY ==>
                var cell := cells[node.first + NodesBefore(node.tree, c)];
                cell.value == c && cell.offset == 0
    {
      KidOf(node, c);
      SlotCounts(node.tree, c);
      var left := node.children[c];
      WriteCell(cells, node, left, c);
      var right: TrieNode?;
      right, t := FindRight(node, c + 1);
      status := OKAY;
      if right != null {
        status := WriteOffset(cells, node, left, right, t - 1);
      }
    }

    /** Fills in the cells of one child and of its subtree. */
    method FlattenSlot(cells: array<Cell>, node: TrieNode, c: Byte) returns (status: Status, t: nat)
      requires Annotated(node) && c in node.tree.kids
      requires 0 <= NodesBefore(node.tree, c) && node.first + Size(Siblings(node.tree, 0)) <= cells.Length
      requires BlankFrom(cells[..], node.first + NodesBefore(node.tree, c)) && InBounds(cells[..])
      modifies cells
      ensures InBounds(cells[..])
      ensures status != OKAY ==> Broken(cells[..], Siblings(node.tree, c), node.first + NodesBefore(node.tree, c))
      ensures c + 1 < t <= 256 && forall d: Byte :: c < d < t - 1 ==> d !in node.tree.kids
      ensures status == OKAY <==> SlotFits(node.tree, c)
      ensures status == OKAY || status == EOVERFLOW
      ensures status == OKAY ==> SlotEncoded(cells[..], node.tree, c, node.first, node.vfirst)
      ensures SameOutside(old(cells[..]), cells[..], node.first + NodesBefore(node.tree, c),
          node.first + NodesBefore(node.tree, c + 1))
      decreases node.tree, 0
    {
      KidOf(node, c);
      CountsBefore(node.tree, c);
      SlotIs(node.tree, c);
      var left := node.children[c];
      ghost var pos, sub := node.first + NodesBefore(node.tree, c), Siblings(left.tree, 0);
      status, t := WriteSlot(cells, node, c);
      if status == OKAY {
        ghost var mid := cells[..];
        status := Flatten(cells, left);
        if status == OKAY {
          SlotFilled(mid, cells[..], node.tree, c, pos, node.first, node.vfirst, sub, left.first, left.vfirst);
        }
      }
      if status != OKAY {
        SlotBreaks(cells[..], node.tree, c, pos);
      }
    }

    /** One turn of the loop over child slots, at a slot that is taken. */
    method FlattenNext(cells: array<Cell>, node: TrieNode, c: Byte, ghost was: seq<Cell>)
      returns (status: Status, t: nat)
      requires Annotated(node) && c in node.tree.kids
      requires node.first + Size(Siblings(node.tree, 0)) <= cells.Length
      requires Filling(was, cells, node, c) && InBounds(cells[..])
      modifies cells
      ensures InBounds(cells[..])
      ensures status != OKAY ==> Broken(cells[..], Siblings(node.tree, 0), node.first)
      ensures c < t - 1 <= 255
      ensures status == OKAY || status == EOVERFLOW
      ensures status == OKAY ==> Filling(was, cells, node, t - 1)
      ensures Fits(Siblings(node.tree, c)) <==> status == OKAY && Fits(Siblings(node.tree, t - 1))
      ensures SameOutside(was, cells[..], node.first, node.first + Size(Siblings(node.tree, 0)))
      decreases node.tree, 1
    {
      ghost var before := cells[..];
      FilledFrame(was, before, node.tree, c, node.first, node.vfirst);
      status, t := FlattenSlot(cells, node, c);
      SkipTo(node.tree, c + 1, t - 1);
      if status == OKAY {
        FilledStep(was, before, cells[..], node.tree, c, t - 1, node.first, node.vfirst);
      } else {
        SlotsEncodedFrame(before, cells[..], node.tree, c, node.first, node.vfirst);
        BrokenFromStart(cells[..], node.tree, 0, c, node.first, node.vfirst);
      }
    }

    ghost predicate Filling(was: seq<Cell>, cells: array<Cell>, node: TrieNode, i: nat)
      requires i <= 256
      reads cells, node
    {
      FilledTo(was, cells[..], node.tree, i, node.first, node.vfirst)
    }

    /** One turn of that loop; `next` is where it goes on. */
    method FlattenFrom(cells: array<Cell>, node: TrieNode, i: Byte, ghost was: seq<Cell>)
      returns (status: Status, next: nat)
      requires Annotated(node) && node.first + Size(Siblings(node.tree, 0)) <= cells.Length
      requires Filling(was, cells, node, i) && InBounds(cells[..])
      modifies cells
      ensures i < next <= 256 && (status == OKAY || status == EOVERFLOW) && InBounds(cells[..])
      ensures status != OKAY ==> Broken(cells[..], Siblings(node.tree, 0), node.first)
      ensures status == OKAY ==> Filling(was, cells, node, next)
      ensures Fits(Siblings(node.tree, i)) <==> status == OKAY && Fits(Siblings(node.tree, next))
      ensures status != OKAY ==> SameOutside(was, cells[..], node.first, node.first + Size(Siblings(node.tree, 0)))
      decreases node.tree, 2
    {
      KidOf(node, i);
      var left := node.children[i];
      next := i + 1;
      if left == null {
        FilledSkip(was, cells[..], node.tree, i, node.first, node.vfirst);
        return OKAY, next;
      }
      var t;
      status, t := FlattenNext(cells, node, i, was);
      next := t - 1;
    }

    /** oitrie_node_create: fills in the cells of everything below `node`. */
    method Flatten(cells: array<Cell>, node: TrieNode) returns (status: Status)
      requires Annotated(node)
      requires node.first + Size(Siblings(node.tree, 0)) <= cells.Length
      requires BlankFrom(cells[..], node.first) && InBounds(cells[..])
      modifies cells
      ensures InBounds(cells[..])
      ensures status != OKAY ==> Broken(cells[..], Siblings(node.tree, 0), node.first)
      ensures status == OKAY <==> Fits(Siblings(node.tree, 0))
      ensures status == OKAY || status == EOVERFLOW
      ensures status == OKAY ==> Encodes(cells[..], Siblings(node.tree, 0), node.first, node.vfirst)
      ensures SameOutside(old(cells[..]), cells[..], node.first, node.first + Size(Siblings(node.tree, 0)))
      decreases node.tree, 3
    {
      status := OKAY;
      ghost var was := cells[..];
      var i := 0;
      while i < 256
        invariant 0 <= i <= 256 && status == OKAY
        invariant Fits(Siblings(node.tree, 0)) <==> Fits(Siblings(node.tree, i))
        invariant Filling(was, cells, node, i) && InBounds(cells[..])
        decreases 256 - i
      {
        status, i := FlattenFrom(cells, node, i, was);
        if status != OKAY {
          return;
        }
      }
      FilledAll(was, cells[..], node.tree, node.first, node.vfirst);
    }

    /** Annotation has numbered the nodes other than the root one to one from zero, in preorder. */
    ghost predicate Ordered()
      reads this, root, at.Values
    {
      InPreorder(root.tree, NumsOf())
    }

    lemma NodesInPreorder()
      requires Valid() && Walkable(root.tree) && AllNumbered(root.tree, NumsOf(), []) && root.first == 0
      ensures Ordered()
    {
      forall w {:trigger HasNode(Siblings(root.tree, 0), w)} | w in at && w != []
        ensures HasNode(Siblings(root.tree, 0), w)
      {
        assert [] + w == w;
        NodesAreOnPaths(at, LinksOf(), [], w);
      }
      NumberedInPreorder(root.tree, NumsOf());
    }

    /** Numbers all the nodes below the root from zero. */
    method Number()
      requires Valid() && Walkable(root.tree)
      modifies at.Values`index, at.Values`valueId, at.Values`first, at.Values`vfirst
      ensures Annotated(root) && root.first == root.vfirst == 0 && Ordered()
    {
      var nodeId, valueId := Annotate(root, 0, 0);
      NodesInPreorder();
    }

    /** A new array with the trie flattened into it, if every jump fits; a failure goes unnoticed. */
    method FlatCells() returns (cells: array<Cell>)
      requires Annotated(root) && root.first == root.vfirst == 0
      ensures fresh(cells) && cells.Length == noNodes && InBounds(cells[..])
      ensures if Fits(Siblings(root.tree, 0)) then Encodes(cells[..], Siblings(root.tree, 0), 0, 0)
              else Broken(cells[..], Siblings(root.tree, 0), 0)
    {
      cells := new Cell[noNodes](_ => Blank);
      assert forall k :: 0 <= k < noNodes ==> CellInBounds(cells[..], k);
      var status := Flatten(cells, root);
    }

    /** ymo_oitrie_create: numbers the nodes and flattens them; a failed flattening goes unnoticed. */
    method CreateOffsetTrie() returns (flat: OffsetTrie)
      requires Valid() && Walkable(root.tree) && noNodes > 0
      modifies at.Values`index, at.Values`valueId, at.Values`first, at.Values`vfirst
      ensures fresh(flat) && flat.noNodes == noNodes && flat.noValues == noValues
      ensures flat.Walked() && if Fits(Siblings(root.tree, 0)) then flat.Holds(Siblings(root.tree, 0))
                               else Broken(flat.cells[..], Siblings(root.tree, 0), 0)
      ensures Ordered() && noNodes == Size(Siblings(root.tree, 0))
    {
      Number();
      var cells := FlatCells();
      flat := new OffsetTrie(cells, noNodes, noValues);
      SiblingsSorted(root.tree, 0);
    }
  }

  class OffsetTrie {
    const cells: array<Cell>
    const noNodes: nat
    const noValues: nat

    constructor (cells: array<Cell>, noNodes: nat, noValues: nat)
      ensures this.cells == cells && this.noNodes == noNodes && this.noValues == noValues
    {
      this.cells, this.noNodes, this.noValues := cells, noNodes, noValues;
    }

    ghost predicate Holds(f: Forest)
      reads cells
    {
      At(cells[..], f, 0, 0)
    }

    ghost predicate Walked()
      reads cells
    {
      cells.Length > 0 && InBounds(cells[..])
    }

    /** What a walk over the cells finds for a key. */
    ghost function Answer(w: Str): (r: Option<Byte>)
      requires Walked()
      reads cells
    {
      Look(cells[..], 0, w)
    }

    /** ymo_oitrie_get_id: walks the array only, always forward; `hdrId` is written on success. A blank cell, which
        a complete array does not have, matches the end of the string; what is read behind it may be anything. */
    method GetId(s: Str) returns (status: Status, hdrId: Byte)
      requires Walked() && 0 !in s
      ensures status == if Answer(Fold(s)).Some? then OKAY else EINVAL
      ensures status == OKAY ==> hdrId == Answer(Fold(s)).value
    {
      hdrId := 0;
      var k: nat, current: nat := 0, 0;
      var c: Byte := ToLower(CharAt(s, k));
      ghost var w := Fold(s);
      while true
        invariant k <= |s| && current < cells.Length && c == ToLower(CharAt(s, k)) && w == Fold(s)[k..]
        invariant Answer(Fold(s)) == Look(cells[..], current, w)
        decreases cells.Length - current
      {
        assert CellInBounds(cells[..], current);
        ToLowerMeaning(CharAt(s, k));
        if c == cells[current].value {
          if k == |s| {
            c := *;
          } else {
            c := ToLower(CharAt(s, k + 1));
            ToLowerMeaning(CharAt(s, k + 1));
            assert w[1..] == Fold(s)[k + 1..];
          }
          if c == 0 && cells[current].terminal {
            hdrId := cells[current].hdrId;
            return OKAY, hdrId;
          }
          if cells[current].hasChild {
            w, k := w[1..], k + 1;
            current := current + 1;
          } else {
            break;
          }
        } else {
          if cells[current].offset != 0 {
            current := current + cells[current].offset;
          } else {
            break;
          }
        }
      }
      status := EINVAL;
    }
  }

  /** The character a C pointer sees `k` steps into a string. */
  function CharAt(s: Str, k: nat): (c: Byte)
    requires k <= |s|
  {
    if k < |s| then s[k] else 0
  }

  /** How many nodes inserting a key adds. */
  function NewNodes(t: Tree, s: Str): (n: nat)
    decreases |s|
  {
    if s == [] then 0 else (if s[0] in t.kids then 0 else 1) + NewNodes(Kid(t, s[0]), s[1..])
  }

  lemma {:induction false} InsertSize(t: Tree, s: Str)
    ensures Size(Siblings(Insert(t, s), 0)) == Size(Siblings(t, 0)) + NewNodes(t, s)
    decreases |s|
  {
    if s == [] {
      SiblingsIgnoreValue(t, 0);
    } else {
      InsertSize(Kid(t, s[0]), s[1..]);
      SiblingsUpdate(t, s[0], Insert(Kid(t, s[0]), s[1..]), 0);
      SiblingsOfLeaf(0);
    }
  }

  lemma {:induction false} SiblingsOfLeaf(i: nat)
    requires i <= 256
    ensures Siblings(Leaf, i) == Nil
    decreases 256 - i
  {
    if i < 256 { SiblingsOfLeaf(i + 1); }
  }

  /** The tree that adding the keys one after another builds, and their folded set. */
  function TreeOf(keys: seq<Str>): (t: Tree) {
    if keys == [] then Leaf else Insert(TreeOf(keys[..|keys| - 1]), Fold(keys[|keys| - 1]))
  }

  ghost function Folded(keys: seq<Str>): (r: set<Str>) {
    set k | k in keys :: Fold(k)
  }

  lemma {:induction false} TreeOfHolds(keys: seq<Str>, w: Str)
    ensures HasTree(TreeOf(keys), w) <==> w in Folded(keys)
  {
    if keys == [] {
      assert !HasTree(Leaf, w);
    } else {
      var n := |keys| - 1;
      TreeOfHolds(keys[..n], w);
      InsertAdds(TreeOf(keys[..n]), Fold(keys[n]), w);
      assert keys == keys[..n] + [keys[n]];
    }
  }

  lemma {:induction false} TreeOfWalkable(keys: seq<Str>)
    requires forall k :: k in keys ==> WalkableKey(k)
    ensures Walkable(TreeOf(keys))
  {
    if keys != [] {
      var n := |keys| - 1;
      assert keys[n] in keys;
      TreeOfWalkable(keys[..n]);
      FoldWalkable(keys[n]);
      InsertWalkable(TreeOf(keys[..n]), Fold(keys[n]));
    }
  }

  lemma FoldWalkable(s: Str)
    requires WalkableKey(s)
    ensures WalkableKey(Fold(s))
  {
    forall i | 0 <= i < |s| ensures Fold(s)[i] != 0 && Fold(s)[i] != 255 {
      assert s[i] in s;
      ToLowerMeaning(s[i]);
    }
  }

  /** Every path of a tree leads to the end of a key. */
  predicate RipeTree(t: Tree) {
    forall c :: c in t.kids ==> (t.kids[c].value || t.kids[c].kids != map[]) && RipeTree(t.kids[c])
  }

  lemma {:induction false} InsertRipe(t: Tree, s: Str)
    requires RipeTree(t)
    ensures RipeTree(Insert(t, s)) && (Insert(t, s).value || Insert(t, s).kids != map[])
    decreases |s|
  {
    if s != [] {
      InsertRipe(Kid(t, s[0]), s[1..]);
      assert s[0] in Insert(t, s).kids;
    }
  }

  lemma {:induction false} TreeOfRipe(keys: seq<Str>)
    ensures RipeTree(TreeOf(keys))
  {
    if keys != [] {
      TreeOfRipe(keys[..|keys| - 1]);
      InsertRipe(TreeOf(keys[..|keys| - 1]), Fold(keys[|keys| - 1]));
    }
  }

  lemma {:induction false} SomeSibling(t: Tree, i: nat, c: Byte)
    requires i <= c && c in t.kids
    ensures Siblings(t, i).Cons?
    decreases c - i
  {
    if i < c { SomeSibling(t, i + 1, c); }
  }

  lemma {:induction false} RipeSiblings(t: Tree, i: nat)
    requires i <= 256 && RipeTree(t)
    ensures Ripe(Siblings(t, i))
    decreases t, 256 - i
  {
    if i < 256 {
      RipeSiblings(t, i + 1);
      if i in t.kids {
        RipeSiblings(t.kids[i], 0);
        if t.kids[i].kids != map[] {
          var c :| c in t.kids[i].kids;
          SomeSibling(t.kids[i], 0, c);
        }
      }
    }
  }

  /** Lookup in these cells answers as the key set does, with the dictionary rank in its eight-bit field. */
  ghost predicate AnswersAs(cells: seq<Cell>, keys: set<Str>)
    requires InBounds(cells) && |cells| > 0
  {
    forall w :: Look(cells, 0, w) == if w in keys then Some(Rank(keys, w) % 256) else None
  }

  /** A flattened trie answers every string as its key set does exactly if every jump has fitted. */
  lemma AnswersExactly(t: Tree, keys: set<Str>, cells: seq<Cell>)
    requires Walkable(t) && RipeTree(t) && (forall k :: k in keys <==> k != [] && HasTree(t, k))
    requires InBounds(cells) && |cells| > 0
    requires if Fits(Siblings(t, 0)) then At(cells, Siblings(t, 0), 0, 0) else Broken(cells, Siblings(t, 0), 0)
    ensures AnswersAs(cells, keys) <==> Fits(Siblings(t, 0))
  {
    if Fits(Siblings(t, 0)) {
      forall w ensures Look(cells, 0, w) == if w in keys then Some(Rank(keys, w) % 256) else None {
        LookIsFind(cells, Siblings(t, 0), 0, 0, w);
        FindIsRank(t, keys, w);
      }
    } else {
      SiblingsSorted(t, 0);
      RipeSiblings(t, 0);
      var w := BrokenHides(cells, Siblings(t, 0), 0, 0);
      WordsAreKeys(t, 0, w);
    }
  }

  lemma TreeOfKeys(keys: seq<Str>)
    requires keys != [] && forall k :: k in keys ==> k != [] && WalkableKey(k)
    ensures var t := TreeOf(keys);
            && Walkable(t) && RipeTree(t) && Size(Siblings(t, 0)) > 0
            && forall k :: k in Folded(keys) <==> k != [] && HasTree(t, k)
  {
    TreeOfWalkable(keys);
    TreeOfRipe(keys);
    forall w ensures HasTree(TreeOf(keys), w) <==> w in Folded(keys) {
      TreeOfHolds(keys, w);
    }
    assert [] !in Folded(keys);
    assert keys[0] in keys && Fold(keys[0]) in Folded(keys);
    WordsAreKeys(TreeOf(keys), 0, Fold(keys[0]));
  }

  /** A pointer trie of these keys. */
  method AddAll(keys: seq<Str>) returns (trie: PointerTrie)
    requires forall k :: k in keys ==> 0 !in k
    ensures trie.Valid() && trie.root.tree == TreeOf(keys)
    ensures fresh(trie) && forall p :: p in trie.at.Values ==> fresh(p)
  {
    trie := new PointerTrie();
    var n := 0;
    while n < |keys|
      invariant n <= |keys| && trie.Valid() && trie.root.tree == TreeOf(keys[..n])
      invariant fresh(trie) && forall p :: p in trie.at.Values ==> fresh(p)
    {
      assert keys[n] in keys && keys[..n + 1][..n] == keys[..n];
      var _ := trie.AddString(keys[n]);
      n := n + 1;
    }
    assert keys[..n] == keys;
  }

  /** Build a trie from `keys` and flatten it: the array answers every string as the key set does exactly if
      every jump fits. Otherwise some key is not found. */
  method Build(keys: seq<Str>) returns (flat: OffsetTrie)
    requires keys != [] && forall k :: k in keys ==> k != [] && WalkableKey(k)
    ensures flat.Walked() && (AnswersAs(flat.cells[..], Folded(keys)) <==> Fits(Siblings(TreeOf(keys), 0)))
  {
    TreeOfKeys(keys);
    var trie := AddAll(keys);
    flat := trie.CreateOffsetTrie();
    AnswersExactly(TreeOf(keys), Folded(keys), flat.cells[..]);
  }

  /** Build a trie, flatten it and look `s` up: the flattened walk answers like the key set itself, and the id it
      gives is the key's dictionary rank in its eight-bit field. */
  method FindAmong(keys: seq<Str>, s: Str) returns (status: Status, hdrId: Byte)
    requires keys != [] && 0 !in s && forall k :: k in keys ==> k != [] && WalkableKey(k)
    requires Fits(Siblings(TreeOf(keys), 0))
    ensures status == if Fold(s) in Folded(keys) then OKAY else EINVAL
    ensures status == OKAY ==> hdrId == Rank(Folded(keys), Fold(s)) % 256
  {
    var flat := Build(keys);
    status, hdrId := flat.GetId(s);
    assert flat.Answer(Fold(s)) == Look(flat.cells[..], 0, Fold(s));
  }

  // ---------------------------------------------------------------- key sets that fail

  lemma {:induction false} NewNodesOfLeaf(s: Str)
    ensures NewNodes(Leaf, s) == |s|
  {
    if s != [] { NewNodesOfLeaf(s[1..]); }
  }

  /** The nodes below the first node of a tree's only key. */
  lemma OneKeySize(s: Str)
    requires s != []
    ensures var t := Insert(Leaf, s);
            t.kids == map[s[0] := Insert(Leaf, s[1..])] && Size(Siblings(t.kids[s[0]], 0)) == |s| - 1
  {
    InsertSize(Leaf, s[1..]);
    NewNodesOfLeaf(s[1..]);
    SiblingsOfLeaf(0);
  }

  /** A tree with at most one child at every node has no siblings to jump to. */
  lemma {:induction false} LoneFits(s: Str, i: nat)
    requires i <= 256
    ensures Fits(Siblings(Insert(Leaf, s), i))
    decreases |s|, 256 - i
  {
    if i < 256 {
      LoneFits(s, i + 1);
      if s != [] && i == s[0] {
        LoneFits(s[1..], 0);
        SkipTo(Insert(Leaf, s), i + 1, 256);
      }
    }
  }

  lemma {:induction false} TwoChildrenFit(t: Tree, c: Byte, d: Byte, i: nat)
    requires i <= 256 && c < d && t.kids.Keys == {c, d}
    requires Fits(Siblings(t.kids[c], 0)) && Fits(Siblings(t.kids[d], 0))
    ensures i > c ==> Fits(Siblings(t, i))
    ensures i <= c ==> (Fits(Siblings(t, i)) <==> 1 + Size(Siblings(t.kids[c], 0)) <= 255)
    decreases 256 - i
  {
    if i < 256 {
      TwoChildrenFit(t, c, d, i + 1);
      if i == c {
        SomeSibling(t, c + 1, d);
      } else if i == d {
        SkipTo(t, d + 1, 256);
      }
    }
  }

  /** Two keys, one with a first byte before the other's: they fit exactly if the first has at most 255 bytes. */
  lemma LongKeyHides(long: Str, other: Str)
    requires long != [] && other != [] && Fold(long)[0] < Fold(other)[0]
    ensures Fits(Siblings(TreeOf([long, other]), 0)) <==> |long| <= 255
  {
    var t := TreeOf([long, other]);
    assert [long, other][..1] == [long] && [long][..0] == [];
    assert TreeOf([long]) == Insert(TreeOf([]), Fold(long)) == Insert(Leaf, Fold(long));
    assert t == Insert(Insert(Leaf, Fold(long)), Fold(other));
    var c, d := Fold(long)[0], Fold(other)[0];
    OneKeySize(Fold(long));
    assert t.kids[c] == Insert(Leaf, Fold(long)[1..]) && t.kids[d] == Insert(Leaf, Fold(other)[1..]);
    assert t.kids.Keys == {c, d};
    LoneFits(Fold(long)[1..], 0);
    LoneFits(Fold(other)[1..], 0);
    TwoChildrenFit(t, c, d, 0);
  }

  /** The flattening loop moves on from every child it handles, at every node. */
  predicate Loops(t: Tree) {
    forall c :: c in t.kids ==> NextCounter(t, c + 1) > c && Loops(t.kids[c])
  }

  predicate FreeOfFF(t: Tree) {
    forall c :: c in t.kids ==> c != 255 && FreeOfFF(t.kids[c])
  }

  lemma {:induction false} LoopsExactly(t: Tree)
    ensures Loops(t) <==> FreeOfFF(t)
  {
    LoopAdvances(t);
    forall c | c in t.kids ensures Loops(t.kids[c]) <==> FreeOfFF(t.kids[c]) {
      LoopsExactly(t.kids[c]);
    }
  }

  lemma {:induction false} InsertFreeOfFF(t: Tree, s: Str)
    ensures FreeOfFF(Insert(t, s)) <==> FreeOfFF(t) && 255 !in s
    decreases |s|
  {
    if s != [] {
      var r := Insert(t, s);
      InsertFreeOfFF(Kid(t, s[0]), s[1..]);
      assert 255 in s <==> s[0] == 255 || 255 in s[1..] by { assert s == [s[0]] + s[1..]; }
      assert forall c :: c in r.kids <==> c in t.kids || c == s[0];
      assert forall c :: c in t.kids && c != s[0] ==> r.kids[c] == t.kids[c];
    }
  }

  lemma FoldKeepsFF(s: Str)
    ensures 255 in Fold(s) <==> 255 in s
  {
    forall i | 0 <= i < |s| ensures Fold(s)[i] == 255 <==> s[i] == 255 {
      ToLowerMeaning(s[i]);
    }
    if 255 in s {
      var i :| 0 <= i < |s| && s[i] == 255;
      assert Fold(s)[i] == 255;
    }
  }

  /** The flattening loop moves on everywhere exactly if no key has a byte 0xFF; for the one-byte key 0xFF it
      comes back to the slot that it has just handled. */
  lemma {:induction false} LoopsWithoutFF(keys: seq<Str>)
    ensures Loops(TreeOf(keys)) <==> forall k :: k in keys ==> 255 !in k
  {
    LoopsExactly(TreeOf(keys));
    if keys != [] {
      var init, k := keys[..|keys| - 1], keys[|keys| - 1];
      LoopsWithoutFF(init);
      LoopsExactly(TreeOf(init));
      InsertFreeOfFF(TreeOf(init), Fold(k));
      FoldKeepsFF(k);
      assert keys == init + [k];
    }
  }
}
