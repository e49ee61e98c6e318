/** Nodes linked by parent, child and sibling pointers: src/core/ymo_yaml.c. */
module Yaml {
  import opened Bytes
  import opened Common
  import opened YamlSpec
  import opened YamlLookup

  class Node {
    var kind: Kind
    var value: Str
    var parent: Node?
    var child: Node?
    var next: Node?

    constructor (kind: Kind, value: Str, parent: Node?)
      ensures CellOf(this) == Cell(kind, value, parent, null, null)
    {
      this.kind, this.value, this.parent := kind, value, parent;
      child, next := null, null;
    }
  }

  // ---------------------------------------------------------------- nodes against the table

  /** A node's fields, as a value. */
  datatype Cell = Cell(kind: Kind, value: Str, parent: Node?, child: Node?, next: Node?)

  ghost function CellOf(n: Node): (c: Cell)
    reads n
  {
    Cell(n.kind, n.value, n.parent, n.child, n.next)
  }

  ghost function Cells(nodes: seq<Node>): (cs: seq<Cell>)
    reads nodes
    ensures |cs| == |nodes|
  {
    seq(|nodes|, i requires 0 <= i < |nodes| reads nodes => CellOf(nodes[i]))
  }

  function Ref(nodes: seq<Node>, i: Option<nat>): (n: Node?) {
    if i.Some? && i.value < |nodes| then nodes[i.value] else null
  }

  function KidAt(kids: seq<nat>, j: nat): (i: Option<nat>) {
    if j < |kids| then Some(kids[j]) else None
  }

  /** Children name their parent, and come after it and in order. */
  ghost predicate InOrder(links: seq<Link>, i: nat)
    requires i < |links|
  {
    && (links[i].parent.Some? ==> links[i].parent.value < i)
    && (forall j :: 0 <= j < |links[i].kids| ==> HasParent(links, links[i].kids[j], i))
    && (forall j, k :: 0 <= j < k < |links[i].kids| ==> links[i].kids[j] < links[i].kids[k])
  }

  ghost predicate HasParent(links: seq<Link>, k: nat, i: nat) {
    k < |links| && links[k].parent == Some(i)
  }

  ghost predicate Mirrors(nodes: seq<Node>, cells: seq<Cell>, links: seq<Link>, i: nat)
    requires i < |cells| && i < |links|
  {
    && cells[i].kind == links[i].kind && cells[i].value == links[i].value
    && cells[i].parent == Ref(nodes, links[i].parent)
    && cells[i].child == Ref(nodes, KidAt(links[i].kids, 0))
  }

  /** The children lead from one to the next, and the last to none. */
  ghost predicate Siblings(nodes: seq<Node>, cells: seq<Cell>, kids: seq<nat>) {
    forall j :: 0 <= j < |kids| ==> LeadsTo(cells, kids[j], Ref(nodes, KidAt(kids, j + 1)))
  }

  ghost predicate LeadsTo(cells: seq<Cell>, k: nat, n: Node?) {
    k < |cells| && cells[k].next == n
  }

  ghost predicate Different(nodes: seq<Node>) {
    forall i, j :: 0 <= i < j < |nodes| ==> nodes[i] != nodes[j]
  }

  ghost predicate Coupled(nodes: seq<Node>, cells: seq<Cell>, links: seq<Link>) {
    && |nodes| == |cells| == |links| && Different(nodes)
    && (forall i :: 0 <= i < |links| ==> Mirrors(nodes, cells, links, i))
    && (forall i :: 0 <= i < |links| ==> InOrder(links, i))
    && (forall i :: 0 <= i < |links| ==> Siblings(nodes, cells, links[i].kids))
  }

  function NewCell(l: Link, parent: Node?): (c: Cell) {
    Cell(l.kind, l.value, parent, null, null)
  }

  lemma RefGrown(nodes: seq<Node>, n: Node, i: Option<nat>)
    ensures i.Some? && i.value < |nodes| ==> Ref(nodes + [n], i) == Ref(nodes, i)
    ensures i.None? ==> Ref(nodes + [n], i) == null
    ensures i == Some(|nodes|) ==> Ref(nodes + [n], i) == n
  {
  }

  /** The table with one more node is as well formed as before. */
  lemma AddInOrder(links: seq<Link>, l: Link)
    requires forall i :: 0 <= i < |links| ==> InOrder(links, i)
    requires l.kids == [] && (l.parent.Some? ==> l.parent.value < |links|)
    ensures forall i :: 0 <= i <= |links| ==> InOrder(Add(links, l), i)
  {
    var links' := Add(links, l);
    forall i | 0 <= i <= |links|
      ensures InOrder(links', i)
    {
      if i < |links| {
        assert InOrder(links, i);
        forall j | 0 <= j < |links'[i].kids|
          ensures HasParent(links', links'[i].kids[j], i)
        {
          if j < |links[i].kids| { assert HasParent(links, links[i].kids[j], i); }
        }
        forall j, k | 0 <= j < k < |links'[i].kids|
          ensures links'[i].kids[j] < links'[i].kids[k]
        {
          assert HasParent(links, links[i].kids[j], i);
        }
      }
    }
  }

  /** The fields after the new node has been hung below node `p`: as its first child, or after its last. */
  function Hung(cells: seq<Cell>, links: seq<Link>, p: nat, n: Node): (r: seq<Cell>)
    requires p < |links| && |cells| == |links|
    ensures |r| == |cells|
  {
    var kids := links[p].kids;
    if kids == [] then cells[p := cells[p].(child := n)]
    else if kids[|kids| - 1] < |cells| then cells[kids[|kids| - 1] := cells[kids[|kids| - 1]].(next := n)]
    else cells
  }

  lemma HungMirrors(nodes: seq<Node>, cells: seq<Cell>, links: seq<Link>, l: Link, p: nat, n: Node)
    requires Coupled(nodes, cells, links) && l.kids == [] && l.parent == Some(p) && p < |links|
    ensures var cells' := Hung(cells, links, p, n) + [NewCell(l, nodes[p])];
            forall i :: 0 <= i <= |links| ==> Mirrors(nodes + [n], cells', Add(links, l), i)
  {
    var cells' := Hung(cells, links, p, n) + [NewCell(l, nodes[p])];
    forall i | 0 <= i <= |links|
      ensures Mirrors(nodes + [n], cells', Add(links, l), i)
    {
      if i < |links| {
        assert Mirrors(nodes, cells, links, i) && InOrder(links, i);
        RefGrown(nodes, n, links[i].parent);
        if links[i].kids != [] {
          assert HasParent(links, links[i].kids[0], i);
        }
      }
    }
  }

  lemma HungSiblings(nodes: seq<Node>, cells: seq<Cell>, links: seq<Link>, l: Link, p: nat, n: Node)
    requires Coupled(nodes, cells, links) && l.kids == [] && l.parent == Some(p) && p < |links|
    ensures var cells' := Hung(cells, links, p, n) + [NewCell(l, nodes[p])];
            forall i :: 0 <= i <= |links| ==> Siblings(nodes + [n], cells', Add(links, l)[i].kids)
  {
    var links', cells' := Add(links, l), Hung(cells, links, p, n) + [NewCell(l, nodes[p])];
    forall i, j | 0 <= i <= |links| && 0 <= j < |links'[i].kids|
      ensures LeadsTo(cells', links'[i].kids[j], Ref(nodes + [n], KidAt(links'[i].kids, j + 1)))
    {
      if i < |links| {
        assert InOrder(links, i) && InOrder(links, p) && Siblings(nodes, cells, links[i].kids);
        KidLeads(nodes, cells, links, l, p, n, i, j);
      }
    }
  }

  lemma KidLeads(nodes: seq<Node>, cells: seq<Cell>, links: seq<Link>, l: Link, p: nat, n: Node, i: nat, j: nat)
    requires |nodes| == |cells| == |links| && i < |links| && l.kids == [] && l.parent == Some(p) && p < |links|
    requires InOrder(links, i) && InOrder(links, p) && Siblings(nodes, cells, links[i].kids)
    requires j < |Add(links, l)[i].kids|
    ensures var kids, cells' := Add(links, l)[i].kids, Hung(cells, links, p, n) + [NewCell(l, nodes[p])];
            LeadsTo(cells', kids[j], Ref(nodes + [n], KidAt(kids, j + 1)))
  {
    var kids := links[i].kids;
    if j == |kids| {
      assert Add(links, l)[i].kids[j] == |links|;
    } else {
      assert HasParent(links, kids[j], i) && LeadsTo(cells, kids[j], Ref(nodes, KidAt(kids, j + 1)));
      if j + 1 < |kids| {
        assert HasParent(links, kids[j + 1], i);
      }
      var last := links[p].kids;
      if last != [] {
        assert HasParent(links, last[|last| - 1], p);
      }
    }
  }

  /** Hanging a new node in the heap keeps heap and table in step. */
  lemma HungCoupled(nodes: seq<Node>, cells: seq<Cell>, links: seq<Link>, l: Link, p: nat, n: Node)
    requires Coupled(nodes, cells, links) && l.kids == [] && l.parent == Some(p) && p < |links| && n !in nodes
    ensures Coupled(nodes + [n], Hung(cells, links, p, n) + [NewCell(l, nodes[p])], Add(links, l))
  {
    AddInOrder(links, l);
    HungMirrors(nodes, cells, links, l, p, n);
    HungSiblings(nodes, cells, links, l, p, n);
    assert forall i :: 0 <= i < |nodes| ==> nodes[i] in nodes;
  }

  /** So does a new node with no parent. */
  lemma RootCoupled(nodes: seq<Node>, cells: seq<Cell>, links: seq<Link>, l: Link, n: Node)
    requires Coupled(nodes, cells, links) && l.kids == [] && l.parent == None && n !in nodes
    ensures Coupled(nodes + [n], cells + [NewCell(l, null)], Add(links, l))
  {
    AddInOrder(links, l);
    RootMirrors(nodes, cells, links, l, n);
    RootSiblings(nodes, cells, links, l, n);
    assert forall i :: 0 <= i < |nodes| ==> nodes[i] in nodes;
  }

  lemma RootMirrors(nodes: seq<Node>, cells: seq<Cell>, links: seq<Link>, l: Link, n: Node)
    requires Coupled(nodes, cells, links) && l.kids == [] && l.parent == None
    ensures forall i :: 0 <= i <= |links| ==> Mirrors(nodes + [n], cells + [NewCell(l, null)], Add(links, l), i)
  {
    forall i | 0 <= i < |links|
      ensures Mirrors(nodes + [n], cells + [NewCell(l, null)], Add(links, l), i)
    {
      assert Mirrors(nodes, cells, links, i) && InOrder(links, i);
      if links[i].kids != [] { assert HasParent(links, links[i].kids[0], i); }
    }
  }

  lemma RootSiblings(nodes: seq<Node>, cells: seq<Cell>, links: seq<Link>, l: Link, n: Node)
    requires Coupled(nodes, cells, links) && l.kids == [] && l.parent == None
    ensures forall i :: 0 <= i <= |links| ==> Siblings(nodes + [n], cells + [NewCell(l, null)], Add(links, l)[i].kids)
  {
    forall i, j | 0 <= i < |links| && 0 <= j < |links[i].kids|
      ensures LeadsTo(cells + [NewCell(l, null)], links[i].kids[j], Ref(nodes + [n], KidAt(links[i].kids, j + 1)))
    {
      assert InOrder(links, i) && Siblings(nodes, cells, links[i].kids);
      assert LeadsTo(cells, links[i].kids[j], Ref(nodes, KidAt(links[i].kids, j + 1)));
      if j + 1 < |links[i].kids| { assert HasParent(links, links[i].kids[j + 1], i); }
    }
  }

  lemma NoChildNoKids(nodes: seq<Node>, cells: seq<Cell>, links: seq<Link>, p: nat)
    requires Coupled(nodes, cells, links) && p < |links|
    ensures cells[p].child == null <==> links[p].kids == []
  {
    assert Mirrors(nodes, cells, links, p) && InOrder(links, p);
    if links[p].kids != [] { assert HasParent(links, links[p].kids[0], p); }
  }

  /** The fields of all nodes, after those of one have been set. */
  lemma OneSet(nodes: seq<Node>, cells: seq<Cell>, k: nat, c: Cell)
    requires |cells| == |nodes| && k < |nodes| && CellOf(nodes[k]) == c
    requires forall i :: 0 <= i < |nodes| && i != k ==> CellOf(nodes[i]) == cells[i]
    ensures Cells(nodes) == cells[k := c]
  {
  }

  lemma CellsSnoc(nodes: seq<Node>, n: Node)
    ensures Cells(nodes + [n]) == Cells(nodes) + [CellOf(n)]
  {
  }

  // ---------------------------------------------------------------- building

  class Document {
    var root: Node?
    const size: nat  // the length of the buffer that scalars are copied to
    var remain: int
    var end: nat
    ghost var nodes: seq<Node>  // every node, in the order of creation
    ghost var table: Builder

    /** The pointers and the table say the same; `parent` is the parser's cursor. */
    ghost predicate Tracks(parent: Node?)
      reads this, nodes
    {
      && table.Building? && Coupled(nodes, Cells(nodes), table.links)
      && root == Ref(nodes, table.root) && (table.root.Some? ==> table.root.value < |nodes|)
      && table.store == Room(remain, end, size)
      && parent == Ref(nodes, table.cur) && (table.cur.Some? ==> table.cur.value < |nodes|)
    }

    constructor (size: nat)
      ensures Tracks(null) && this.size == size && table == Start(size) && nodes == []
    {
      this.size := size;
      root, remain, end, nodes, table := null, size, 0, [], Start(size);
    }

    /** The last child of node `p`, from its first. */
    method LastOf(head: Node, ghost p: nat) returns (last: Node)
      requires table.Building? && Coupled(nodes, Cells(nodes), table.links) && p < |nodes|
      requires head == nodes[p].child
      ensures var kids := table.links[p].kids;
              kids != [] && kids[|kids| - 1] < |nodes| && last == nodes[kids[|kids| - 1]]
    {
      ghost var links := table.links;
      assert Mirrors(nodes, Cells(nodes), links, p);
      KidInRange(nodes, Cells(nodes), links, p, 0);
      KidsChained(nodes, links, links[p].kids, p);
      last := LastFrom(head, nodes, links[p].kids);
    }

    /** A new node goes below its parent, after the children already there. */
    method Hang(node: Node, parent: Node?, ghost l: Link)
      requires table.Building? && Coupled(nodes, Cells(nodes), table.links) && node !in nodes
      requires l.kids == [] && parent == Ref(nodes, l.parent) && (l.parent.Some? ==> l.parent.value < |nodes|)
      requires CellOf(node) == NewCell(l, parent)
      modifies nodes
      ensures Coupled(nodes + [node], Cells(nodes + [node]), Add(table.links, l))
    {
      ghost var cells, links := Cells(nodes), table.links;
      if parent == null {
        RootCoupled(nodes, cells, links, l, node);
        assert Cells(nodes + [node]) == cells + [NewCell(l, null)];
        return;
      }
      ghost var p := l.parent.value;
      HungCoupled(nodes, cells, links, l, p, node);
      NoChildNoKids(nodes, cells, links, p);
      if parent.child == null {
        parent.child := node;
        OneSet(nodes, cells, p, cells[p].(child := node));
      } else {
        var last := LastOf(parent.child, p);
        last.next := node;
        ghost var k := links[p].kids[|links[p].kids| - 1];
        OneSet(nodes, cells, k, cells[k].(next := node));
      }
      CellsSnoc(nodes, node);
    }

    /** Up past scalars. */
    method ClimbUp(from: Node?, ghost i: Option<nat>) returns (up: Node?)
      requires table.Building? && Coupled(nodes, Cells(nodes), table.links)
      requires from == Ref(nodes, i) && (i.Some? ==> i.value < |nodes|)
      ensures var at := if i.None? then None else Climb(table.links, i.value);
              up == Ref(nodes, at) && (at.Some? ==> at.value < |nodes|)
    {
      up := from;
      ghost var at: Option<nat> := i;
      while up != null && up.kind == SCALAR
        invariant up == Ref(nodes, at) && (at.Some? ==> at.value < |nodes|)
        invariant (if i.None? then None else Climb(table.links, i.value)) ==
            (if at.None? then None else Climb(table.links, at.value))
        decreases if at.None? then -1 else at.value
      {
        assert Mirrors(nodes, Cells(nodes), table.links, at.value) && InOrder(table.links, at.value);
        at := table.links[at.value].parent;
        up := up.parent;
      }
      if up != null {
        assert Mirrors(nodes, Cells(nodes), table.links, at.value);
      }
    }

    /** A node that has been made joins the tree, and `r` becomes the cursor. */
    method Join(node: Node, parent: Node?, r: Node, ghost l: Link, ghost cur: nat)
      requires Tracks(parent) && node !in nodes && CellOf(node) == NewCell(l, parent)
      requires l.kids == [] && l.parent == table.cur && cur <= |nodes| && r == (nodes + [node])[cur]
      modifies this`root, this`nodes, this`table, nodes
      ensures nodes == old(nodes) + [node]
      ensures table == Building(Add(old(table).links, l), Some(cur), Rooted(old(table).root, Some(cur)),
          old(table).store)
      ensures Tracks(r)
    {
      Hang(node, parent, l);
      nodes := nodes + [node];
      if root == null {
        root := r;
      }
      table := Building(Add(table.links, l), Some(cur), Rooted(table.root, Some(cur)), table.store);
    }

    /** ymo_yaml_node_create for a scalar that is not written beyond the end of the buffer; null goes with
        the error in `errno`. */
    method CreateScalar(parent: Node?, text: Str) returns (r: Node?, errno: Status)
      requires Tracks(parent) && !YamlSpec.CreateScalar(table, text).Lost?
      modifies this, nodes
      ensures table == YamlSpec.CreateScalar(old(table), text)
      ensures r != null ==> Tracks(r) && |nodes| == |old(nodes)| + 1
      ensures r != null ==> nodes[|nodes| - 1].kind == SCALAR && HeldAs(nodes[|nodes| - 1].value, text)
      ensures r == null <==> table.Stopped?
      ensures r == null ==> table == Stopped(errno)
      ensures forall k :: 0 <= k < |nodes| ==> nodes[k] in old(nodes) || fresh(nodes[k])
    {
      ghost var was := table;
      CStrMeaning(text);
      r, errno := null, OKAY;
      if parent == null {
        errno := EINVAL;
      } else if |text| + 1 >= remain {
        errno := EFBIG;
      } else {
        var node := new Node(SCALAR, CStr(text), parent);
        r := ScalarCursor(node, parent);
        if r != null {
          remain, end := remain - (|text| + 1), end + |text| + 2;
          table := table.(store := Put(table.store, text));
          Join(node, parent, r, Link(SCALAR, CStr(text), was.cur, []), CursorAfter(was.links, was.cur.value).value);
        }
      }
      table := YamlSpec.CreateScalar(was, text);
    }

    /** Where the cursor goes after a scalar: past a key's value to the mapping, past an item to its
        sequence, and into a key. */
    method ScalarCursor(node: Node, parent: Node) returns (r: Node?)
      requires Tracks(parent) && node !in nodes
      ensures var at := CursorAfter(table.links, table.cur.value);
              && (r == null <==> at.None?)
              && (at.Some? ==> at.value <= |nodes| && r == (nodes + [node])[at.value])
    {
      assert Mirrors(nodes, Cells(nodes), table.links, table.cur.value);
      match parent.kind
      case SCALAR => r := ClimbUp(parent, table.cur);
      case SEQUENCE => r := parent;
      case OBJECT => r := node;
    }

    /** ymo_yaml_node_create for a mapping or a sequence. */
    method CreateCollection(parent: Node?, kind: Kind, value: Str) returns (r: Node)
      requires Tracks(parent)
      modifies this, nodes
      ensures table == YamlSpec.CreateCollection(old(table), kind, value) && Tracks(r)
      ensures forall k :: 0 <= k < |nodes| ==> nodes[k] in old(nodes) || fresh(nodes[k])
    {
      r := new Node(kind, value, parent);
      Join(r, parent, r, Link(kind, value, table.cur, []), |nodes|);
    }

    /** pop_parent. */
    method PopParent(parent: Node) returns (r: Node?)
      requires Tracks(parent) && YamlSpec.Pop(table).Building?
      modifies this`table
      ensures table == YamlSpec.Pop(old(table)) && Tracks(r)
    {
      ghost var was, i := table, table.cur.value;
      assert Mirrors(nodes, Cells(nodes), was.links, i) && InOrder(was.links, i);
      r := ClimbUp(parent.parent, was.links[i].parent);
      table := YamlSpec.Pop(was);
    }

    /** One data event; null means that building has stopped. */
    method Handle(parent: Node?, e: Event) returns (r: Node?, stopped: bool, errno: Status)
      requires Tracks(parent) && !Astray(Step(table, e))
      modifies this, nodes
      ensures table == Step(old(table), e) && (stopped <==> table.Stopped?)
      ensures if stopped then table == Stopped(errno) else Tracks(r)
      ensures forall k :: 0 <= k < |nodes| ==> nodes[k] in old(nodes) || fresh(nodes[k])
    {
      r, stopped, errno := parent, false, OKAY;
      match e
      case ScalarEvent(text) =>
        r, errno := CreateScalar(parent, text);
        stopped := r == null;
      case SequenceStart => r := CreateCollection(parent, SEQUENCE, BRACKET);
      case MappingStart => r := CreateCollection(parent, OBJECT, BRACE);
      case CollectionEnd => r := PopParent(parent);
      case Ignored =>
      case StreamEnd =>
    }

    /** The event loop of ymo_yaml_parse. A YAML parser closes only collections that it has opened. */
    method Parse(events: seq<Event>) returns (status: Status, ghost cursor: Node?)
      requires Tracks(null) && !Astray(ParseAll(table, events).1)
      modifies this, nodes
      ensures (status, table) == ParseAll(old(table), events)
      ensures table.Building? ==> Tracks(cursor)
    {
      var parent: Node? := null;
      var i := 0;
      assert events[0..] == events;
      while i < |events|
        invariant 0 <= i <= |events| && Tracks(parent)
        invariant ParseAll(old(table), events) == ParseAll(table, events[i..])
        invariant forall k :: 0 <= k < |nodes| ==> nodes[k] in old(nodes) || fresh(nodes[k])
      {
        assert events[i..][1..] == events[i + 1..];
        if events[i] == StreamEnd {
          return OKAY, parent;
        }
        StepFaults(table, events[i..]);
        var stopped, errno;
        parent, stopped, errno := Handle(parent, events[i]);
        if stopped {
          return errno, null;
        }
        i := i + 1;
      }
      status, cursor := EINVAL, parent;
    }

    // -------------------------------------------------------------- lookup

    /** ymo_yaml_object_get. */
    method ObjectGet(node: Node?, key: Str, ghost i: Option<nat>) returns (v: Node?)
      requires table.Building? && Coupled(nodes, Cells(nodes), table.links)
      requires node == Ref(nodes, i) && (i.Some? ==> i.value < |nodes|)
      ensures var at := if i.None? then None else Get(table.links, i.value, key);
              v == Ref(nodes, at) && (at.Some? ==> at.value < |nodes|)
      ensures i.Some? && table.links[i.value].kind == OBJECT && Keys(table.links, table.links[i.value].kids) ==>
                FoundAt(v, nodes, table.links, table.links[i.value].kids, key)
    {
      FoundInTable(nodes, table.links, i, key);
      v := null;
      if node == null {
        return;
      }
      assert Mirrors(nodes, Cells(nodes), table.links, i.value);
      if node.kind == OBJECT {
        v := ChildGet(node, key, i.value);
      }
    }

    /** The child of a mapping's first key that is the same. */
    method ChildGet(node: Node, key: Str, ghost i: nat) returns (v: Node?)
      requires table.Building? && Coupled(nodes, Cells(nodes), table.links)
      requires i < |nodes| && node == nodes[i] && node.kind == OBJECT
      ensures var at := Get(table.links, i, key);
              v == Ref(nodes, at) && (at.Some? ==> at.value < |nodes|)
    {
      ghost var links := table.links;
      assert Mirrors(nodes, Cells(nodes), links, i) && InOrder(links, i);
      KidsChained(nodes, links, links[i].kids, i);
      v := KeyLoop(node.child, key, nodes, links, links[i].kids);
    }

    /** ymo_yaml_doc_vget: from the root, one key after another. */
    method Vget(path: seq<Str>) returns (v: Node?)
      requires table.Building? && Coupled(nodes, Cells(nodes), table.links)
      requires root == Ref(nodes, table.root) && (table.root.Some? ==> table.root.value < |nodes|)
      ensures v == Ref(nodes, if table.root.None? then None else Walk(table.links, table.root.value, path))
    {
      v := root;
      ghost var at: Option<nat> := table.root;
      var i := 0;
      assert path[0..] == path;
      while i < |path| && v != null
        invariant 0 <= i <= |path| && v == Ref(nodes, at) && (at.Some? ==> at.value < |nodes|)
        invariant (if table.root.None? then None else Walk(table.links, table.root.value, path))
                  == (if at.None? then None else Walk(table.links, at.value, path[i..]))
      {
        assert path[i..][1..] == path[i + 1..];
        v := ObjectGet(v, path[i], at);
        at := Get(table.links, at.value, path[i]);
        i := i + 1;
      }
    }
  }

  /** `v` is the child of the first key that matches, and null if none does. */
  ghost predicate FoundAt(v: Node?, nodes: seq<Node>, links: seq<Link>, ids: seq<nat>, key: Str)
    requires Keys(links, ids)
  {
    && (forall j: nat :: FirstKey(links, ids, j, key) ==> v == Ref(nodes, Some(links[ids[j]].kids[0])))
    && ((forall j: nat :: !FirstKey(links, ids, j, key)) ==> v == null)
  }

  lemma FoundInTable(nodes: seq<Node>, links: seq<Link>, i: Option<nat>, key: Str)
    ensures i.Some? && i.value < |links| && links[i.value].kind == OBJECT && Keys(links, links[i.value].kids) ==>
              FoundAt(Ref(nodes, Get(links, i.value, key)), nodes, links, links[i.value].kids, key)
  {
    if i.Some? && i.value < |links| && Keys(links, links[i.value].kids) {
      KeyExactly(links, links[i.value].kids, key);
    }
  }

  lemma KidInRange(nodes: seq<Node>, cells: seq<Cell>, links: seq<Link>, p: nat, j: nat)
    requires Coupled(nodes, cells, links) && p < |links|
    ensures j < |links[p].kids| ==> links[p].kids[j] < |nodes|
  {
    assert InOrder(links, p);
    if j < |links[p].kids| { assert HasParent(links, links[p].kids[j], p); }
  }

  /** A child `k` of node `p`, and the child after it, in the heap and in the table. */
  lemma KidInHeap(nodes: seq<Node>, links: seq<Link>, kids: seq<nat>, p: nat, j: nat, k: Node)
    requires Coupled(nodes, Cells(nodes), links) && p < |links| && kids == links[p].kids && j < |kids|
    requires kids[j] < |nodes| && k == nodes[kids[j]]
    ensures kids[j] < |links| && k.kind == links[kids[j]].kind && k.value == links[kids[j]].value
    ensures k.child == Ref(nodes, KidAt(links[kids[j]].kids, 0))
    ensures links[kids[j]].kids != [] ==> links[kids[j]].kids[0] < |nodes|
    ensures k.next == Ref(nodes, KidAt(kids, j + 1)) && (j + 1 < |kids| ==> kids[j + 1] < |nodes|)
  {
    var cells := Cells(nodes);
    KidInRange(nodes, cells, links, p, j + 1);
    KidInRange(nodes, cells, links, kids[j], 0);
    assert Mirrors(nodes, cells, links, kids[j]) && Siblings(nodes, cells, kids);
    assert LeadsTo(cells, kids[j], Ref(nodes, KidAt(kids, j + 1)));
  }

  /** The children lead from one to the next. */
  ghost predicate Chained(nodes: seq<Node>, kids: seq<nat>)
    reads nodes
  {
    && (forall j :: 0 <= j < |kids| ==> kids[j] < |nodes|)
    && forall j :: 0 <= j < |kids| ==> nodes[kids[j]].next == Ref(nodes, KidAt(kids, j + 1))
  }

  lemma KidsChained(nodes: seq<Node>, links: seq<Link>, kids: seq<nat>, p: nat)
    requires Coupled(nodes, Cells(nodes), links) && p < |links| && kids == links[p].kids
    ensures Chained(nodes, kids) && KidsMirror(nodes, links, kids)
  {
    forall j | 0 <= j < |kids|
      ensures kids[j] < |nodes| == |links| && nodes[kids[j]].next == Ref(nodes, KidAt(kids, j + 1))
      ensures nodes[kids[j]].kind == links[kids[j]].kind && nodes[kids[j]].value == links[kids[j]].value
      ensures nodes[kids[j]].child == Ref(nodes, KidAt(links[kids[j]].kids, 0))
      ensures links[kids[j]].kids != [] ==> links[kids[j]].kids[0] < |nodes|
    {
      KidInRange(nodes, Cells(nodes), links, p, j);
      KidInHeap(nodes, links, kids, p, j, nodes[kids[j]]);
    }
  }

  /** The children's nodes are those of the table. */
  ghost predicate KidsMirror(nodes: seq<Node>, links: seq<Link>, kids: seq<nat>)
    requires Chained(nodes, kids)
    reads nodes
  {
    && (forall j :: 0 <= j < |kids| ==> kids[j] < |links|)
    && (forall j :: 0 <= j < |kids| ==>
          nodes[kids[j]].kind == links[kids[j]].kind && nodes[kids[j]].value == links[kids[j]].value)
    && (forall j :: 0 <= j < |kids| ==> nodes[kids[j]].child == Ref(nodes, KidAt(links[kids[j]].kids, 0)))
    && (forall j :: 0 <= j < |kids| ==> links[kids[j]].kids != [] ==> links[kids[j]].kids[0] < |nodes|)
  }

  /** The loop over a mapping's keys. */
  method KeyLoop(child: Node?, key: Str, ghost nodes: seq<Node>, ghost links: seq<Link>, ghost kids: seq<nat>)
    returns (v: Node?)
    requires Chained(nodes, kids) && KidsMirror(nodes, links, kids) && child == Ref(nodes, KidAt(kids, 0))
    ensures var at := FindKey(links, kids, key);
            v == Ref(nodes, at) && (at.Some? ==> at.value < |nodes|)
  {
    v := null;
    var k := child;
    ghost var j := 0;
    assert kids[0..] == kids;
    while k != null
      invariant 0 <= j <= |kids| && k == Ref(nodes, KidAt(kids, j))
      invariant FindKey(links, kids, key) == FindKey(links, kids[j..], key)
      decreases |kids| - j
    {
      FindKeyFrom(links, kids, j, key);
      if k.kind != SCALAR {
        return;
      }
      if SameText(k.value, key) {
        v := k.child;
        return;
      }
      k := k.next;
      j := j + 1;
    }
  }

  /** The end of a chain of children. */
  method LastFrom(head: Node, ghost nodes: seq<Node>, ghost kids: seq<nat>) returns (last: Node)
    requires Chained(nodes, kids) && kids != [] && head == nodes[kids[0]]
    ensures last == nodes[kids[|kids| - 1]]
  {
    last := head;
    ghost var j := 0;
    while last.next != null
      invariant 0 <= j < |kids| && last == nodes[kids[j]]
      decreases |kids| - j
    {
      last := last.next;
      j := j + 1;
    }
  }

  lemma FindKeyFrom(links: seq<Link>, kids: seq<nat>, j: nat, key: Str)
    requires j < |kids| && kids[j] < |links|
    ensures FindKey(links, kids[j..], key) ==
              if links[kids[j]].kind != SCALAR then None
              else if SameText(links[kids[j]].value, key) then KidAt(links[kids[j]].kids, 0)
              else FindKey(links, kids[j + 1..], key)
  {
    assert kids[j..][1..] == kids[j + 1..];
  }

  /** A builder this model says nothing more about. */
  predicate Astray(b: Builder) {
    b.Fault? || b.Lost?
  }

  lemma StepFaults(b: Builder, es: seq<Event>)
    requires es != [] && es[0] != StreamEnd && !Astray(ParseAll(b, es).1)
    ensures !Astray(Step(b, es[0]))
  {
    if Astray(Step(b, es[0])) { AstrayStays(Step(b, es[0]), es[1..]); }
  }

  lemma {:induction false} AstrayStays(b: Builder, es: seq<Event>)
    requires Astray(b)
    ensures ParseAll(b, es).1 == b
    decreases |es|
  {
    if es != [] && es[0] != StreamEnd { AstrayStays(b, es[1..]); }
  }

  // ---------------------------------------------------------------- a whole document

  /** Loading a one-document stream from a file of `size` bytes and looking up a path: the answer is the
      node of what the document has there, and nothing if it has nothing. The buffer is one byte longer than
      the file; what is asked of the document is that none of its scalars that are taken goes beyond it. */
  method LoadAndGet(d: Doc, size: nat, path: seq<Str>)
    returns (status: Status, v: Node?, ghost nodes: seq<Node>, ghost links: seq<Link>)
    requires d.Scalar? || !Spills(Texts(d), size + 1)
    ensures status == if d.Scalar? then EINVAL else if Total(Texts(d)) <= size then OKAY else EFBIG
    ensures status == OKAY ==> Coupled(nodes, Cells(nodes), links) && Represents(links, 0, d)
    ensures status == OKAY ==>
              var at := Walk(links, 0, path);
              v == Ref(nodes, at) && Found(links, at, DocWalk(d, path))
    ensures status == OKAY && NulFree(d) ==>
              forall w :: Leads(d, path, w) ==> v != null && (w.Scalar? ==> v.kind == SCALAR && v.value == w.text)
    ensures status == OKAY && v != null && NulFree(d) ==> exists w :: Leads(d, path, w)
  {
    var doc := new Document(size + 1);
    StreamParsed(d, size + 1);
    StoredOrFull(Texts(d), size + 1);
    ghost var cursor;
    status, cursor := doc.Parse(Stream(d));
    nodes, links, v := doc.nodes, [], null;
    if status == OKAY {
      links := doc.table.links;
      RootBuilt(d, size + 1);
      BuiltAnswers(d, size + 1, path);
      v := doc.Vget(path);
      if NulFree(d) { AnswerIsText(d, path, nodes, links, v); }
    }
  }

  /** The node found for a path is that of the value the path leads to, with all of its text if it is a scalar. */
  lemma AnswerIsText(d: Doc, path: seq<Str>, nodes: seq<Node>, links: seq<Link>, v: Node?)
    requires Coupled(nodes, Cells(nodes), links) && Represents(links, 0, d) && NulFree(d)
    requires v == Ref(nodes, Walk(links, 0, path)) && Found(links, Walk(links, 0, path), DocWalk(d, path))
    ensures forall w :: Leads(d, path, w) ==> v != null && (w.Scalar? ==> v.kind == SCALAR && v.value == w.text)
    ensures v != null ==> exists w :: Leads(d, path, w)
  {
    forall w | Leads(d, path, w)
      ensures v != null && (w.Scalar? ==> v.kind == SCALAR && v.value == w.text)
    {
      WalkExactly(d, path, w);
      LeadsNulFree(d, path, w);
      var at := Walk(links, 0, path).value;
      assert Mirrors(nodes, Cells(nodes), links, at);
      if w.Scalar? { CStrMeaning(w.text); }
    }
    if v != null {
      WalkExactly(d, path, DocWalk(d, path).value);
    }
  }

  /** Unless a scalar is written beyond the buffer, only `remain` decides. */
  lemma StoredOrFull(texts: seq<Str>, size: nat)
    requires size > 0
    ensures !Spills(texts, size) ==>
              PutAll(Room(size, 0, size), texts).Room? == (Total(texts) < size)
              && PutAll(Room(size, 0, size), texts).Full? == (Total(texts) >= size)
  {
    StoredExactly(texts, size);
    if Total(texts) < size && !AllFit(texts, size) {
      var k :| 0 <= k < |texts| && !FitsAt(texts, k, size);
      TotalGrows(texts, k + 1);
      assert SpillsAt(texts, k, size);
    }
  }
}
