/** The flattened trie: how a forest is laid out in an array, and what a walk over that array finds. */
module TrieFlat {
  import opened Bytes
  import opened Common
  import opened TrieSpec

  /** One array cell; `offset` is relative, and zero when there is no next sibling. */
  datatype Cell = Cell(hasChild: bool, terminal: bool, hdrId: Byte, offset: Byte, value: Byte)

  const Blank := Cell(false, false, 0, 0, 0)

  const MAX_OFFSET := 0xff

  // ---------------------------------------------------------------- preorder numbering

  predicate HasNode(f: Forest, p: Str) {
    p != [] && f.Cons? && (if p[0] == f.ch then p[1..] == [] || HasNode(f.sub, p[1..]) else HasNode(f.rest, p))
  }

  function NodeIndex(f: Forest, p: Str): (k: nat)
    requires HasNode(f, p)
    ensures k < Size(f)
  {
    if p[0] != f.ch then 1 + Size(f.sub) + NodeIndex(f.rest, p)
    else if p[1..] == [] then 0
    else 1 + NodeIndex(f.sub, p[1..])
  }

  function NodePath(f: Forest, k: nat): (p: Str)
    requires k < Size(f)
    ensures p != []
  {
    if k == 0 then [f.ch]
    else if k <= Size(f.sub) then [f.ch] + NodePath(f.sub, k - 1)
    else NodePath(f.rest, k - 1 - Size(f.sub))
  }

  lemma {:induction false} NodeStart(f: Forest, p: Str, lo: nat)
    requires Sorted(f, lo) && HasNode(f, p)
    ensures lo <= p[0]
  {
    if p[0] != f.ch { NodeStart(f.rest, p, f.ch + 1); }
  }

  /** Numbering is a bijection between the nodes and 0..Size-1: the two functions are inverse. */
  lemma {:induction false} PathOfIndex(f: Forest, p: Str)
    requires HasNode(f, p)
    ensures NodePath(f, NodeIndex(f, p)) == p
  {
    if p[0] != f.ch {
      PathOfIndex(f.rest, p);
    } else if p[1..] != [] {
      PathOfIndex(f.sub, p[1..]);
    }
  }

  lemma {:induction false} IndexOfPath(f: Forest, k: nat, lo: nat)
    requires Sorted(f, lo) && k < Size(f)
    ensures HasNode(f, NodePath(f, k)) && NodeIndex(f, NodePath(f, k)) == k
  {
    if 0 < k <= Size(f.sub) {
      IndexOfPath(f.sub, k - 1, 0);
    } else if k > 0 {
      IndexOfPath(f.rest, k - 1 - Size(f.sub), f.ch + 1);
      NodeStart(f.rest, NodePath(f, k), f.ch + 1);
    }
  }

  /** The children of a tree are the first nodes of its forest, and their nodes are the forest's. */
  lemma {:induction false} TreeHasNode(t: Tree, i: nat, w: Str)
    requires i <= 256 && w != [] && i <= w[0] && w[0] in t.kids
    requires w[1..] == [] || HasNode(Siblings(t.kids[w[0]], 0), w[1..])
    ensures HasNode(Siblings(t, i), w)
    decreases 256 - i
  {
    if i < w[0] { TreeHasNode(t, i + 1, w); }
  }

  // ---------------------------------------------------------------- layout

  /** `cells` holds forest `f` from index `base` on, value ids counted up from `vbase`. */
  ghost predicate Encodes(cells: seq<Cell>, f: Forest, base: nat, vbase: nat) {
    match f
    case Nil => true
    case Cons(c, v, sub, rest) =>
      && base + Size(f) <= |cells|
      && cells[base].value == c
      && cells[base].hasChild == sub.Cons?
      && cells[base].terminal == v
      && (v ==> cells[base].hdrId == vbase % 256)
      && cells[base].offset == (if rest.Cons? then 1 + Size(sub) else 0)
      && Encodes(cells, sub, base + 1, vbase + (if v then 1 else 0))
      && Encodes(cells, rest, base + 1 + Size(sub), vbase + (if v then 1 else 0) + Ends(sub))
  }

  /** Every jump to a next sibling fits the eight-bit offset. */
  predicate Fits(f: Forest) {
    f.Cons? ==> (f.rest.Cons? ==> 1 + Size(f.sub) <= MAX_OFFSET) && Fits(f.sub) && Fits(f.rest)
  }

  lemma {:induction false} EncodesFrame(cells: seq<Cell>, cells': seq<Cell>, f: Forest, base: nat, vbase: nat)
    requires Encodes(cells, f, base, vbase)
    requires |cells| == |cells'|
    requires forall k :: base <= k < base + Size(f) && k < |cells| ==> cells[k] == cells'[k]
    ensures Encodes(cells', f, base, vbase)
  {
    if f.Cons? {
      var v := if f.value then 1 else 0;
      EncodesFrame(cells, cells', f.sub, base + 1, vbase + v);
      EncodesFrame(cells, cells', f.rest, base + 1 + Size(f.sub), vbase + v + Ends(f.sub));
    }
  }

  /** Nodes, and keys ended, below the children of `t` in slots before `i`. */
  function NodesBefore(t: Tree, i: nat): (n: int)
    requires i <= 256
  {
    Size(Siblings(t, 0)) - Size(Siblings(t, i))
  }

  function EndsBefore(t: Tree, i: nat): (n: int)
    requires i <= 256
  {
    Ends(Siblings(t, 0)) - Ends(Siblings(t, i))
  }

  lemma {:induction false} CountsBefore(t: Tree, i: nat)
    requires i <= 256
    ensures 0 <= NodesBefore(t, i) && 0 <= EndsBefore(t, i)
  {
    if i > 0 {
      CountsBefore(t, i - 1);
    }
  }

  lemma {:induction false} SkipTo(t: Tree, i: nat, r: nat)
    requires i <= r <= 256 && forall c: Byte :: i <= c < r ==> c !in t.kids
    ensures Siblings(t, i) == Siblings(t, r)
    decreases r - i
  {
    if i < r { SkipTo(t, i + 1, r); }
  }

  /** The jump past the child in slot `c`, and every jump below it, fits eight bits. */
  predicate SlotFits(t: Tree, c: Byte)
    requires c in t.kids
  {
    !TooFar(t, c) && Fits(Siblings(t, c).sub)
  }

  predicate TooFar(t: Tree, c: Byte)
    requires c in t.kids
  {
    var f := Siblings(t, c);
    f.rest.Cons? && 1 + Size(f.sub) > MAX_OFFSET
  }

  /** The cell of the child in slot `c`, when its value id counts from `vbase`. */
  function SlotCell(t: Tree, c: Byte, vbase: nat): (cell: Cell)
    requires c in t.kids && !TooFar(t, c)
  {
    var f := Siblings(t, c);
    CountsBefore(t, c);
    Cell(f.sub.Cons?, f.value, if f.value then (vbase + EndsBefore(t, c)) % 256 else 0,
         if f.rest.Cons? then 1 + Size(f.sub) else 0, c)
  }

  /** The cell of the child in slot `c`, and the cells of its subtree, are as the layout wants them. */
  ghost predicate SlotEncoded(cells: seq<Cell>, t: Tree, c: Byte, base: nat, vbase: nat)
    requires c in t.kids
  {
    var pos, vpos, f := base + NodesBefore(t, c), vbase + EndsBefore(t, c), Siblings(t, c);
    && 0 <= pos && pos + 1 + Size(f.sub) <= |cells| && 0 <= vpos
    && SlotFits(t, c) && cells[pos] == SlotCell(t, c, vbase)
    && Encodes(cells, f.sub, pos + 1, vpos + (if f.value then 1 else 0))
  }

  /** A child's place in its parent's list of siblings. */
  lemma SlotIs(t: Tree, c: Byte)
    requires c in t.kids
    ensures Siblings(t, c).Cons? && Siblings(t, c).sub == Siblings(t.kids[c], 0)
    ensures Siblings(t, c).value == t.kids[c].value
    ensures NodesBefore(t, c + 1) == NodesBefore(t, c) + 1 + Size(Siblings(t.kids[c], 0))
    ensures SlotFits(t, c) <==> !TooFar(t, c) && Fits(Siblings(t.kids[c], 0))
  {
  }

  /** The child's own cell is right, and its subtree has been filled in after it. */
  lemma SlotFilled(mid: seq<Cell>, cells: seq<Cell>, t: Tree, c: Byte, pos: nat, base: nat, vbase: nat,
                   sub: Forest, first: nat, vfirst: nat)
    requires c in t.kids && SlotFits(t, c) && pos == base + NodesBefore(t, c) && first == pos + 1
    requires sub == Siblings(t.kids[c], 0) && vfirst == vbase + EndsBefore(t, c) + (if t.kids[c].value then 1 else 0)
    requires 0 <= vbase + EndsBefore(t, c) && first + Size(sub) <= |mid| && mid[pos] == SlotCell(t, c, vbase)
    requires SameOutside(mid, cells, first, first + Size(sub)) && Encodes(cells, sub, first, vfirst)
    ensures SlotEncoded(cells, t, c, base, vbase)
  {
    SlotIs(t, c);
  }

  ghost predicate SlotsEncoded(cells: seq<Cell>, t: Tree, i: nat, base: nat, vbase: nat) {
    forall c: Byte :: c < i && c in t.kids ==> SlotEncoded(cells, t, c, base, vbase)
  }

  /** Writing cells only from the current child on keeps the slots before it encoded. */
  lemma SlotsEncodedFrame(cells: seq<Cell>, cells': seq<Cell>, t: Tree, i: nat, base: nat, vbase: nat)
    requires i <= 256 && SlotsEncoded(cells, t, i, base, vbase) && |cells| == |cells'|
    requires forall k :: 0 <= k < base + NodesBefore(t, i) && k < |cells| ==> cells'[k] == cells[k]
    ensures SlotsEncoded(cells', t, i, base, vbase)
  {
    forall c: Byte | c < i && c in t.kids ensures SlotEncoded(cells', t, c, base, vbase) {
      assert SlotEncoded(cells, t, c, base, vbase);
      var pos, f := base + NodesBefore(t, c), Siblings(t, c);
      assert NodesBefore(t, c) + 1 + Size(f.sub) == NodesBefore(t, c + 1);
      NodesBeforeMonotone(t, c + 1, i);
      EncodesFrame(cells, cells', f.sub, pos + 1, vbase + EndsBefore(t, c) + (if f.value then 1 else 0));
    }
  }

  lemma {:induction false} NodesBeforeMonotone(t: Tree, i: nat, j: nat)
    requires i <= j <= 256
    ensures NodesBefore(t, i) <= NodesBefore(t, j)
    decreases j - i
  {
    if i < j { NodesBeforeMonotone(t, i + 1, j); }
  }

  /** When every slot is encoded, the array holds the whole list of siblings. */
  lemma {:induction false} SlotsAreForest(cells: seq<Cell>, t: Tree, i: nat, base: nat, vbase: nat)
    requires i <= 256 && SlotsEncoded(cells, t, 256, base, vbase)
    requires base + Size(Siblings(t, 0)) <= |cells|
    ensures base + NodesBefore(t, i) >= 0 && vbase + EndsBefore(t, i) >= 0
    ensures Encodes(cells, Siblings(t, i), base + NodesBefore(t, i), vbase + EndsBefore(t, i))
    decreases 256 - i
  {
    CountsBefore(t, i);
    if i < 256 {
      SlotsAreForest(cells, t, i + 1, base, vbase);
      if i in t.kids {
        assert SlotEncoded(cells, t, i, base, vbase);
      }
    }
  }

  ghost predicate BlankFrom(cells: seq<Cell>, lo: int) {
    forall k :: lo <= k < |cells| && 0 <= k ==> cells[k] == Blank
  }

  ghost predicate SameOutside(cells: seq<Cell>, cells': seq<Cell>, lo: int, hi: int) {
    |cells| == |cells'| && forall k :: 0 <= k < |cells| && !(lo <= k < hi) ==> cells'[k] == cells[k]
  }

  /** The slots before `i` are filled in, and only their cells differ from `was`. */
  ghost predicate FilledTo(was: seq<Cell>, cells: seq<Cell>, t: Tree, i: nat, base: nat, vbase: nat)
    requires i <= 256
  {
    && SlotsEncoded(cells, t, i, base, vbase) && BlankFrom(was, base)
    && SameOutside(was, cells, base, base + NodesBefore(t, i))
  }

  lemma FilledSkip(was: seq<Cell>, cells: seq<Cell>, t: Tree, c: Byte, base: nat, vbase: nat)
    requires FilledTo(was, cells, t, c, base, vbase) && c !in t.kids
    ensures FilledTo(was, cells, t, c + 1, base, vbase) && Siblings(t, c) == Siblings(t, c + 1)
  {
    assert NodesBefore(t, c + 1) == NodesBefore(t, c);
  }

  /** With all slots filled in, the cells hold the node's forest. */
  lemma FilledAll(was: seq<Cell>, cells: seq<Cell>, t: Tree, base: nat, vbase: nat)
    requires FilledTo(was, cells, t, 256, base, vbase) && base + Size(Siblings(t, 0)) <= |cells|
    ensures Encodes(cells, Siblings(t, 0), base, vbase)
    ensures SameOutside(was, cells, base, base + Size(Siblings(t, 0)))
  {
    SlotsAreForest(cells, t, 0, base, vbase);
  }

  /** The cells still to come are blank, and filling in one more slot stays within the node's own cells. */
  lemma FilledFrame(was: seq<Cell>, cells: seq<Cell>, t: Tree, c: Byte, base: nat, vbase: nat)
    requires FilledTo(was, cells, t, c, base, vbase)
    ensures BlankFrom(cells, base + NodesBefore(t, c))
    ensures 0 <= NodesBefore(t, c) <= NodesBefore(t, c + 1) <= Size(Siblings(t, 0))
  {
    CountsBefore(t, c);
    NodesBeforeMonotone(t, c, c + 1);
    NodesBeforeMonotone(t, c + 1, 256);
  }

  lemma FilledStep(was: seq<Cell>, cells: seq<Cell>, cells': seq<Cell>, t: Tree, c: Byte, i: nat, base: nat, vbase: nat)
    requires c < i <= 256 && c in t.kids && (forall d: Byte :: c < d < i ==> d !in t.kids)
    requires FilledTo(was, cells, t, c, base, vbase)
    requires SlotEncoded(cells', t, c, base, vbase)
    requires SameOutside(cells, cells', base + NodesBefore(t, c), base + NodesBefore(t, c + 1))
    ensures FilledTo(was, cells', t, i, base, vbase)
  {
    CountsBefore(t, c);
    NodesBeforeMonotone(t, c, c + 1);
    SkipTo(t, c + 1, i);
    SlotsEncodedFrame(cells, cells', t, c, base, vbase);
  }

  /** Where the flattening loop goes on after slot `c`: the next taken slot, or 255. */
  function NextCounter(t: Tree, i: nat): (r: nat)
    requires i <= 256
    decreases 256 - i
  {
    if i == 256 then 255 else if i in t.kids then i else NextCounter(t, i + 1)
  }

  /** The loop moves past every taken slot exactly when slot 255 is free. */
  lemma {:induction false} LoopAdvances(t: Tree)
    ensures (forall c: Byte :: c in t.kids ==> NextCounter(t, c + 1) > c) <==> 255 !in t.kids
  {
    assert 255 in t.kids ==> NextCounter(t, 255 + 1) == 255;
    if 255 !in t.kids {
      forall c: Byte | c in t.kids ensures NextCounter(t, c + 1) > c {
        NextCounterAbove(t, c + 1);
      }
    }
  }

  lemma {:induction false} NextCounterAbove(t: Tree, i: nat)
    requires i <= 255
    ensures NextCounter(t, i) >= i
    decreases 256 - i
  {
    if i < 255 { NextCounterAbove(t, i + 1); }
  }

  // ---------------------------------------------------------------- lookup

  /** The value id a walk over the forest reaches for `w`. */
  function Find(f: Forest, w: Str, vbase: nat): (r: Option<nat>) {
    if w == [] || f.Nil? then None
    else if w[0] != f.ch then Find(f.rest, w, vbase + (if f.value then 1 else 0) + Ends(f.sub))
    else if w[1..] == [] && f.value then Some(vbase)
    else Find(f.sub, w[1..], vbase + (if f.value then 1 else 0))
  }

  /** Cell `cur` starts the nonempty forest `f`. */
  ghost predicate At(cells: seq<Cell>, f: Forest, cur: nat, vbase: nat) {
    f.Cons? && Sorted(f, 0) && Encodes(cells, f, cur, vbase)
  }

  lemma FindStep(f: Forest, w: Str, vbase: nat)
    requires f.Cons?
    ensures var hit, v := w != [] && w[0] == f.ch, if f.value then 1 else 0;
            && (hit && w[1..] == [] && f.value ==> Find(f, w, vbase) == Some(vbase))
            && (hit && !(w[1..] == [] && f.value) ==> Find(f, w, vbase) == Find(f.sub, w[1..], vbase + v))
            && (!hit ==> Find(f, w, vbase) == Find(f.rest, w, vbase + v + Ends(f.sub)))
  {
  }

  lemma CellDown(cells: seq<Cell>, f: Forest, cur: nat, vbase: nat)
    requires At(cells, f, cur, vbase) && f.sub.Cons?
    ensures At(cells, f.sub, cur + 1, vbase + if f.value then 1 else 0)
  {
  }

  lemma CellNext(cells: seq<Cell>, f: Forest, cur: nat, vbase: nat)
    requires At(cells, f, cur, vbase) && f.rest.Cons?
    ensures At(cells, f.rest, cur + 1 + Size(f.sub), vbase + (if f.value then 1 else 0) + Ends(f.sub))
  {
    SortedLower(f.rest, f.ch + 1, 0);
  }

  /** What one comparison in the array tells about the walk over the forest. */
  lemma CellStep(cells: seq<Cell>, f: Forest, cur: nat, vbase: nat, w: Str)
    requires At(cells, f, cur, vbase)
    ensures cur < |cells| && cells[cur].value != 0
    ensures var hit, v := w != [] && w[0] == cells[cur].value, if f.value then 1 else 0;
            && (hit && w[1..] == [] && cells[cur].terminal ==>
                  Find(f, w, vbase) == Some(vbase) && cells[cur].hdrId == vbase % 256)
            && (hit && !(w[1..] == [] && cells[cur].terminal) ==>
                  Find(f, w, vbase) == Find(f.sub, w[1..], vbase + v))
            && (cells[cur].hasChild ==> At(cells, f.sub, cur + 1, vbase + v))
            && (!cells[cur].hasChild ==> f.sub == Nil)
            && (!hit ==> Find(f, w, vbase) == Find(f.rest, w, vbase + v + Ends(f.sub)))
            && (cells[cur].offset != 0 ==> At(cells, f.rest, cur + cells[cur].offset, vbase + v + Ends(f.sub)))
            && (cells[cur].offset == 0 ==> f.rest == Nil)
  {
    FindStep(f, w, vbase);
    if f.sub.Cons? { CellDown(cells, f, cur, vbase); }
    if f.rest.Cons? { CellNext(cells, f, cur, vbase); }
  }

  /** The place of `w` in a listing, counted from `vbase`. */
  function PlaceOf(ws: seq<Str>, w: Str, vbase: nat): (r: Option<nat>)
    decreases |ws|
  {
    if ws == [] then None else if ws[0] == w then Some(vbase) else PlaceOf(ws[1..], w, vbase + 1)
  }

  lemma {:induction false} PlaceOfMeaning(ws: seq<Str>, w: Str, vbase: nat)
    ensures PlaceOf(ws, w, vbase).Some? <==> w in ws
    ensures w in ws ==>
              var k := PlaceOf(ws, w, vbase).value;
              vbase <= k < vbase + |ws| && ws[k - vbase] == w
    decreases |ws|
  {
    if ws != [] {
      PlaceOfMeaning(ws[1..], w, vbase + 1);
      assert ws == [ws[0]] + ws[1..];
    }
  }

  lemma {:induction false} PlaceOfConcat(a: seq<Str>, b: seq<Str>, w: Str, vbase: nat)
    ensures PlaceOf(a + b, w, vbase) == if w in a then PlaceOf(a, w, vbase) else PlaceOf(b, w, vbase + |a|)
    decreases |a|
  {
    if a == [] {
      assert a + b == b;
    } else {
      assert (a + b)[0] == a[0] && (a + b)[1..] == a[1..] + b;
      PlaceOfConcat(a[1..], b, w, vbase + 1);
    }
  }

  lemma {:induction false} PlaceOfPrefixed(c: Byte, ws: seq<Str>, w: Str, vbase: nat)
    requires w != [] && w[0] == c
    ensures PlaceOf(PrefixAll(c, ws), w, vbase) == PlaceOf(ws, w[1..], vbase)
    decreases |ws|
  {
    if ws != [] {
      assert PrefixAll(c, ws)[1..] == PrefixAll(c, ws[1..]);
      assert [c] + ws[0] == w <==> ws[0] == w[1..];
      PlaceOfPrefixed(c, ws[1..], w, vbase + 1);
    }
  }

  lemma PlaceOfNone(ws: seq<Str>, w: Str, vbase: nat)
    requires w !in ws
    ensures PlaceOf(ws, w, vbase) == None
  {
    PlaceOfMeaning(ws, w, vbase);
  }

  /** The word of a forest's first node, if there is one, and the words that go on from it. */
  function Own(f: Forest): (ws: seq<Str>)
    requires f.Cons?
    ensures |ws| == if f.value then 1 else 0
  {
    if f.value then [[f.ch]] else []
  }

  function Below(f: Forest): (ws: seq<Str>)
    requires f.Cons?
    ensures |ws| == Ends(f.sub)
  {
    PrefixAll(f.ch, Words(f.sub))
  }

  lemma WordsParts(f: Forest, w: Str)
    requires f.Cons?
    ensures Words(f) == (Own(f) + Below(f)) + Words(f.rest)
    ensures w in Own(f) <==> f.value && w == [f.ch]
    ensures w in Below(f) <==> w != [] && w[0] == f.ch && w[1..] in Words(f.sub)
  {
    InPrefixAll(f.ch, Words(f.sub), w);
  }

  lemma PlaceInParts(f: Forest, w: Str, vbase: nat)
    requires f.Cons?
    ensures PlaceOf(Words(f), w, vbase) ==
              if w in Own(f) then Some(vbase)
              else if w in Below(f) then PlaceOf(Below(f), w, vbase + |Own(f)|)
              else PlaceOf(Words(f.rest), w, vbase + |Own(f)| + Ends(f.sub))
  {
    WordsParts(f, w);
    PlaceOfConcat(Own(f) + Below(f), Words(f.rest), w, vbase);
    PlaceOfConcat(Own(f), Below(f), w, vbase);
  }

  lemma NotOwn(f: Forest, w: Str)
    requires f.Cons? && w != [] && !(f.value && w[1..] == [])
    ensures w !in Own(f)
  {
    assert f.value ==> |w| > 1 && Own(f)[0] != w;
  }

  lemma NotInRest(f: Forest, w: Str, lo: nat)
    requires f.Cons? && Sorted(f, lo) && w != [] && w[0] == f.ch
    ensures w !in Words(f.rest)
  {
    WordsStart(f.rest, f.ch + 1);
  }

  /** The place among the words below, in the whole listing and in their own. */
  lemma PlaceAmongBelow(f: Forest, w: Str, v: nat)
    requires f.Cons? && w != [] && w[0] == f.ch
    ensures PlaceOf(Below(f), w, v) == PlaceOf(Words(f.sub), w[1..], v)
    ensures w !in Below(f) ==> PlaceOf(Words(f.sub), w[1..], v) == None
  {
    PlaceOfPrefixed(f.ch, Words(f.sub), w, v);
    if w !in Below(f) { PlaceOfNone(Below(f), w, v); }
  }

  lemma PlaceBelow(f: Forest, w: Str, vbase: nat, lo: nat)
    requires f.Cons? && Sorted(f, lo) && w != [] && w[0] == f.ch && !(f.value && w[1..] == [])
    ensures PlaceOf(Words(f), w, vbase) == PlaceOf(Words(f.sub), w[1..], vbase + |Own(f)|)
  {
    NotOwn(f, w);
    NotInRest(f, w, lo);
    PlaceOfNone(Words(f.rest), w, vbase + |Own(f)| + Ends(f.sub));
    PlaceAmongBelow(f, w, vbase + |Own(f)|);
    PlaceInParts(f, w, vbase);
  }

  /** A walk finds exactly the forest's words, and the id is the word's place in their listing. */
  lemma {:induction false} FindIsPosition(f: Forest, w: Str, vbase: nat, lo: nat)
    requires Sorted(f, lo)
    ensures Find(f, w, vbase) == PlaceOf(Words(f), w, vbase)
  {
    if f.Nil? || w == [] {
      PlaceOfNone(Words(f), w, vbase);
    } else if w[0] != f.ch {
      FindIsPosition(f.rest, w, vbase + |Own(f)| + Ends(f.sub), f.ch + 1);
      WordsParts(f, w);
      PlaceInParts(f, w, vbase);
    } else if w[1..] == [] && f.value {
      assert w == [f.ch];
      WordsParts(f, w);
      PlaceInParts(f, w, vbase);
    } else {
      FindIsPosition(f.sub, w[1..], vbase + |Own(f)|, 0);
      PlaceBelow(f, w, vbase, lo);
    }
  }

  // ---------------------------------------------------------------- walks over the array alone

  /** Every jump stays in the array, and only blank cells have the value zero. */
  ghost predicate InBounds(cells: seq<Cell>) {
    forall k :: 0 <= k < |cells| ==> CellInBounds(cells, k)
  }

  predicate CellInBounds(cells: seq<Cell>, k: nat)
    requires k < |cells|
  {
    && (cells[k].hasChild ==> k + 1 < |cells|) && k + cells[k].offset < |cells|
    && (cells[k].value == 0 ==> cells[k] == Blank)
  }

  /** Only one cell is new. */
  lemma NewCellInBounds(was: seq<Cell>, cells: seq<Cell>, k: nat)
    requires InBounds(was) && SameOutside(was, cells, k, k + 1) && k < |cells| && CellInBounds(cells, k)
    ensures InBounds(cells)
  {
    forall i | 0 <= i < |cells|
      ensures CellInBounds(cells, i)
    {
      assert CellInBounds(was, i);
    }
  }

  /** The id a walk over the cells finds for `w`, from cell `cur` on. */
  ghost function Look(cells: seq<Cell>, cur: nat, w: Str): (r: Option<Byte>)
    requires InBounds(cells) && cur < |cells|
    decreases |cells| - cur
  {
    assert CellInBounds(cells, cur);
    var cell := cells[cur];
    if w != [] && w[0] == cell.value then
      if w[1..] == [] && cell.terminal then Some(cell.hdrId)
      else if cell.hasChild then Look(cells, cur + 1, w[1..])
      else None
    else if cell.offset != 0 then Look(cells, cur + cell.offset, w)
    else None
  }

  lemma LookHit(cells: seq<Cell>, cur: nat, w: Str, below: Str)
    requires InBounds(cells) && cur + 1 < |cells| && w == [cells[cur].value] + below && below != []
    requires cells[cur].hasChild
    ensures Look(cells, cur, w) == Look(cells, cur + 1, below)
  {
    assert w[1..] == below;
  }

  lemma LookMiss(cells: seq<Cell>, cur: nat, w: Str)
    requires InBounds(cells) && cur < |cells| && CellInBounds(cells, cur) && (w == [] || w[0] != cells[cur].value)
    ensures Look(cells, cur, w) == if cells[cur].offset != 0 then Look(cells, cur + cells[cur].offset, w) else None
  {
  }

  function CutId(v: Option<nat>): (r: Option<Byte>) {
    if v.Some? then Some(v.value % 256) else None
  }

  /** Where the cells hold a forest, the walk over them is the walk over the forest. */
  lemma {:induction false} LookIsFind(cells: seq<Cell>, f: Forest, cur: nat, vbase: nat, w: Str)
    requires At(cells, f, cur, vbase) && InBounds(cells)
    ensures cur < |cells| && Look(cells, cur, w) == CutId(Find(f, w, vbase))
    decreases f
  {
    CellStep(cells, f, cur, vbase, w);
    assert CellInBounds(cells, cur);
    var v := if f.value then 1 else 0;
    if w != [] && w[0] == cells[cur].value {
      if !(w[1..] == [] && cells[cur].terminal) && cells[cur].hasChild {
        LookIsFind(cells, f.sub, cur + 1, vbase + v, w[1..]);
      }
    } else if cells[cur].offset != 0 {
      LookIsFind(cells, f.rest, cur + cells[cur].offset, vbase + v + Ends(f.sub), w);
    }
  }

  // ---------------------------------------------------------------- where flattening fails

  /** A walk over the cells of forest `f`, from `base` on, can come to a cell that has a next sibling and no
      jump to it. */
  ghost predicate Broken(cells: seq<Cell>, f: Forest, base: nat)
    decreases f
  {
    && f.Cons? && base < |cells| && cells[base].value == f.ch
    && ((f.rest.Cons? && cells[base].offset == 0)
        || (f.sub.Cons? && cells[base].hasChild && Broken(cells, f.sub, base + 1))
        || (cells[base].offset == 1 + Size(f.sub) && Broken(cells, f.rest, base + 1 + Size(f.sub))))
  }

  /** Every path leads to the end of a key. */
  predicate Ripe(f: Forest) {
    f.Cons? ==> (f.value || f.sub.Cons?) && Ripe(f.sub) && Ripe(f.rest)
  }

  lemma {:induction false} RipeHasWord(f: Forest) returns (w: Str)
    requires Ripe(f) && f.Cons?
    ensures w in Words(f)
  {
    if f.value {
      w := [f.ch];
    } else {
      var below := RipeHasWord(f.sub);
      w := [f.ch] + below;
      assert w[1..] == below;
    }
    WordsParts(f, w);
  }

  /** A key among the siblings to come is looked for there. */
  lemma BehindNode(cells: seq<Cell>, f: Forest, base: nat, lo: nat, w: Str)
    requires InBounds(cells) && base < |cells| && f.Cons? && cells[base].value == f.ch && Sorted(f, lo)
    requires w in Words(f.rest)
    ensures w in Words(f) && base + cells[base].offset < |cells|
    ensures Look(cells, base, w) ==
              if cells[base].offset != 0 then Look(cells, base + cells[base].offset, w) else None
  {
    assert CellInBounds(cells, base);
    WordsStart(f.rest, f.ch + 1);
    WordsParts(f, w);
    LookMiss(cells, base, w);
  }

  /** A key below the node is looked for there. */
  lemma BelowNode(cells: seq<Cell>, f: Forest, base: nat, w: Str, below: Str)
    requires InBounds(cells) && base + 1 < |cells| && f.Cons? && cells[base].value == f.ch && cells[base].hasChild
    requires below in Words(f.sub) && w == [f.ch] + below
    ensures w in Words(f) && Look(cells, base, w) == Look(cells, base + 1, below)
  {
    assert w[1..] == below;
    WordsParts(f, w);
    LookHit(cells, base, w, below);
  }

  /** What comes after such a cell is hidden: some key of the forest is not found. */
  lemma {:induction false} BrokenHides(cells: seq<Cell>, f: Forest, base: nat, lo: nat) returns (w: Str)
    requires InBounds(cells) && Broken(cells, f, base) && Ripe(f) && Sorted(f, lo)
    ensures base < |cells| && w in Words(f) && Look(cells, base, w) == None
    decreases f
  {
    if f.rest.Cons? && cells[base].offset == 0 {
      w := RipeHasWord(f.rest);
      BehindNode(cells, f, base, lo, w);
    } else if f.sub.Cons? && cells[base].hasChild && Broken(cells, f.sub, base + 1) {
      var below := BrokenHides(cells, f.sub, base + 1, 0);
      w := [f.ch] + below;
      BelowNode(cells, f, base, w, below);
    } else {
      w := BrokenHides(cells, f.rest, base + 1 + Size(f.sub), f.ch + 1);
      BehindNode(cells, f, base, lo, w);
    }
  }

  /** A child's cell is there, but not the jump to its next sibling, or a walk can break off below it. */
  lemma SlotBreaks(cells: seq<Cell>, t: Tree, c: Byte, pos: nat)
    requires c in t.kids && pos < |cells| && cells[pos].value == c
    requires if TooFar(t, c) then cells[pos].offset == 0
             else cells[pos].hasChild == Siblings(t, c).sub.Cons? && Broken(cells, Siblings(t.kids[c], 0), pos + 1)
    ensures Broken(cells, Siblings(t, c), pos)
  {
    SlotIs(t, c);
  }

  /** If the slots before `c` are filled in and a walk from slot `c` on can break off, one from the start can. */
  lemma {:induction false} BrokenFromStart(cells: seq<Cell>, t: Tree, i: nat, c: Byte, base: nat, vbase: nat)
    requires i <= c && SlotsEncoded(cells, t, c, base, vbase) && 0 <= NodesBefore(t, c)
    requires Broken(cells, Siblings(t, c), base + NodesBefore(t, c))
    ensures 0 <= NodesBefore(t, i) && Broken(cells, Siblings(t, i), base + NodesBefore(t, i))
    decreases c - i
  {
    CountsBefore(t, i);
    if i < c {
      BrokenFromStart(cells, t, i + 1, c, base, vbase);
      if i in t.kids {
        SlotIs(t, i);
        assert SlotEncoded(cells, t, i, base, vbase);
      }
    }
  }

  /** The key set of a trie, as the flattened walk sees it: id found is dictionary rank. */
  lemma FindIsRank(t: Tree, keys: set<Str>, w: Str)
    requires Walkable(t)
    requires forall k :: k in keys <==> k != [] && HasTree(t, k)
    ensures Find(Siblings(t, 0), w, 0) == if w in keys then Some(Rank(keys, w)) else None
  {
    var f := Siblings(t, 0);
    SiblingsSorted(t, 0);
    WordsAscend(f, 0);
    forall k ensures k in keys <==> k in Words(f) {
      WordsAreKeys(t, 0, k);
    }
    FindIsPosition(f, w, 0, 0);
    PlaceIsRank(Words(f), keys, w);
  }

  lemma PlaceIsRank(ws: seq<Str>, keys: set<Str>, w: Str)
    requires Ascending(ws) && forall k :: k in keys <==> k in ws
    ensures PlaceOf(ws, w, 0) == if w in keys then Some(Rank(keys, w)) else None
  {
    PlaceOfMeaning(ws, w, 0);
    if w in keys {
      PositionIsRank(ws, keys, PlaceOf(ws, w, 0).value);
    }
  }

  /** With at most 256 keys no id is cut off by its eight-bit field. */
  lemma RankFits(keys: set<Str>, w: Str)
    requires w in keys && |keys| <= 256
    ensures Rank(keys, w) % 256 == Rank(keys, w)
  {
    LexIrreflexive(w);
    var below := set k | k in keys && LexLess(k, w);
    assert below <= keys - {w};
    SubsetSize(below, keys - {w});
  }

  lemma {:induction false} SubsetSize(a: set<Str>, b: set<Str>)
    requires a <= b
    ensures |a| <= |b|
  {
    if a != {} {
      var x :| x in a;
      SubsetSize(a - {x}, b - {x});
    }
  }
}
