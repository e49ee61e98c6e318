/** The string sets, trees and flattened arrays behind src/core/ymo_trie.c, as values. */
module TrieSpec {
  import opened Bytes

  type Str = seq<Byte>

  // ---------------------------------------------------------------- case folding

  /** Bit 7 of the eight-bit difference `hi - c`. */
  function TopBit(hi: Byte, c: Byte): (r: nat) {
    (hi - c) % 256 / 128
  }

  /** The branch-free fold: bit 5 of the byte is flipped when the two top bits differ. */
  function ToLower(c: Byte): (r: Byte) {
    if TopBit(0x40, c) == TopBit(0x5a, c) then c
    else if c / 32 % 2 == 1 then c - 32 else c + 32
  }

  lemma TopBits(c: Byte)
    ensures TopBit(0x40, c) == if 0x41 <= c <= 0xc0 then 1 else 0
    ensures TopBit(0x5a, c) == if 0x5b <= c <= 0xda then 1 else 0
  {
  }

  lemma ToLowerValue(c: Byte)
    ensures ToLower(c) == if 0x41 <= c <= 0x5a || 0xc1 <= c <= 0xda then c + 32 else c
  {
    TopBits(c);
  }

  /** What the fold means: ASCII capitals move down, and so do the bytes 0xC1 to 0xDA. */
  lemma ToLowerMeaning(c: Byte)
    ensures ToLower(c) == if 0x41 <= c <= 0x5a || 0xc1 <= c <= 0xda then c + 32 else c
    ensures ToLower(ToLower(c)) == ToLower(c)
    ensures ToLower(c) == 0 <==> c == 0
    ensures ToLower(c) == 0xff <==> c == 0xff
  {
    ToLowerValue(c);
    ToLowerValue(ToLower(c));
  }

  function Fold(s: Str): (r: Str)
    ensures |r| == |s|
    ensures forall i :: 0 <= i < |s| ==> r[i] == ToLower(s[i])
  {
    seq(|s|, i requires 0 <= i < |s| => ToLower(s[i]))
  }

  // ---------------------------------------------------------------- trees

  /** The path of a node's child in slot `c`, and the path of its parent. */
  function Down(p: Str, c: Byte): (r: Str)
    ensures r != [] && Up(r) == p && r[|p|] == c && |r| == |p| + 1
  {
    p + [c]
  }

  function Up(p: Str): (r: Str)
    requires p != []
  {
    p[..|p| - 1]
  }

  /** A trie node and everything below it; `value` marks the end of a key. */
  datatype Tree = Tree(value: bool, kids: map<Byte, Tree>)

  const Leaf := Tree(false, map[])

  function Kid(t: Tree, c: Byte): (r: Tree) {
    if c in t.kids then t.kids[c] else Leaf
  }

  predicate HasTree(t: Tree, w: Str) {
    if w == [] then t.value else w[0] in t.kids && HasTree(t.kids[w[0]], w[1..])
  }

  function Insert(t: Tree, s: Str): (r: Tree)
    decreases |s|
  {
    if s == [] then t.(value := true)
    else t.(kids := t.kids[s[0] := Insert(Kid(t, s[0]), s[1..])])
  }

  lemma {:induction false} InsertAdds(t: Tree, s: Str, w: Str)
    ensures HasTree(Insert(t, s), w) <==> w == s || HasTree(t, w)
    decreases |s|
  {
    if s != [] && w != [] {
      if w[0] == s[0] {
        InsertAdds(Kid(t, s[0]), s[1..], w[1..]);
        assert w == s <==> w[1..] == s[1..] by { assert s == [s[0]] + s[1..] && w == [w[0]] + w[1..]; }
        assert s[0] !in t.kids ==> !HasTree(Leaf, w[1..]);
      }
    }
  }

  /** No node hangs off slot 0xFF, nor off slot 0, which ends every C string. */
  predicate Walkable(t: Tree) {
    forall c :: c in t.kids ==> 0 < c < 255 && Walkable(t.kids[c])
  }

  predicate WalkableKey(s: Str) {
    0 !in s && 255 !in s
  }

  lemma {:induction false} InsertWalkable(t: Tree, s: Str)
    requires Walkable(t) && WalkableKey(s)
    ensures Walkable(Insert(t, s))
    decreases |s|
  {
    if s != [] {
      InsertWalkable(Kid(t, s[0]), s[1..]);
    }
  }

  // ---------------------------------------------------------------- forests

  /** The children of a node from some slot on: first child, its subtree, its next siblings. */
  datatype Forest = Nil | Cons(ch: Byte, value: bool, sub: Forest, rest: Forest)

  function Siblings(t: Tree, i: nat): (f: Forest)
    requires i <= 256
    decreases t, 256 - i
  {
    if i == 256 then Nil
    else if i in t.kids then Cons(i, t.kids[i].value, Siblings(t.kids[i], 0), Siblings(t, i + 1))
    else Siblings(t, i + 1)
  }

  function Size(f: Forest): (n: nat) {
    match f
    case Nil => 0
    case Cons(_, _, sub, rest) => 1 + Size(sub) + Size(rest)
  }

  function Ends(f: Forest): (n: nat) {
    match f
    case Nil => 0
    case Cons(_, v, sub, rest) => (if v then 1 else 0) + Ends(sub) + Ends(rest)
  }

  predicate Sorted(f: Forest, lo: nat) {
    f.Cons? ==> lo <= f.ch && 0 < f.ch && Sorted(f.sub, 0) && Sorted(f.rest, f.ch + 1)
  }

  lemma {:induction false} SiblingsSorted(t: Tree, i: nat)
    requires i <= 256 && Walkable(t)
    ensures Sorted(Siblings(t, i), i)
    decreases t, 256 - i
  {
    if i < 256 {
      SiblingsSorted(t, i + 1);
      SortedLower(Siblings(t, i + 1), i + 1, i);
      if i in t.kids {
        SiblingsSorted(t.kids[i], 0);
      }
    }
  }

  lemma SortedLower(f: Forest, lo: nat, lo': nat)
    requires Sorted(f, lo) && lo' <= lo
    ensures Sorted(f, lo')
  {
  }

  /** Replacing one child changes the node count by that child alone. */
  lemma {:induction false} SiblingsUpdate(t: Tree, c: Byte, k: Tree, i: nat)
    requires i <= 256
    ensures i <= c ==> (Size(Siblings(t.(kids := t.kids[c := k]), i)) == Size(Siblings(t, i)) + 1 + Size(Siblings(k, 0))
                        - (if c in t.kids then 1 + Size(Siblings(t.kids[c], 0)) else 0))
    ensures i > c ==> Siblings(t.(kids := t.kids[c := k]), i) == Siblings(t, i)
    decreases 256 - i
  {
    if i < 256 {
      SiblingsUpdate(t, c, k, i + 1);
    }
  }

  lemma {:induction false} SiblingsIgnoreValue(t: Tree, i: nat)
    requires i <= 256
    ensures Siblings(t.(value := true), i) == Siblings(t, i)
    decreases 256 - i
  {
    if i < 256 { SiblingsIgnoreValue(t, i + 1); }
  }

  // ---------------------------------------------------------------- words in order

  predicate LexLess(a: Str, b: Str) {
    b != [] && (a == [] || a[0] < b[0] || (a[0] == b[0] && LexLess(a[1..], b[1..])))
  }

  function PrefixAll(c: Byte, ws: seq<Str>): (r: seq<Str>)
    ensures |r| == |ws|
    ensures forall i :: 0 <= i < |ws| ==> r[i] == [c] + ws[i]
  {
    seq(|ws|, i requires 0 <= i < |ws| => [c] + ws[i])
  }

  /** The keys of a forest, in the order in which their last nodes are numbered. */
  function Words(f: Forest): (ws: seq<Str>)
    ensures |ws| == Ends(f)
    ensures forall w :: w in ws ==> w != []
  {
    match f
    case Nil => []
    case Cons(c, v, sub, rest) =>
      (if v then [[c]] else []) + PrefixAll(c, Words(sub)) + Words(rest)
  }

  ghost predicate Ascending(ws: seq<Str>) {
    forall i, j :: 0 <= i < j < |ws| ==> LexLess(ws[i], ws[j])
  }

  lemma {:induction false} WordsStart(f: Forest, lo: nat)
    requires Sorted(f, lo)
    ensures forall w :: w in Words(f) ==> w != [] && lo <= w[0]
  {
    if f.Cons? {
      WordsStart(f.rest, f.ch + 1);
    }
  }

  lemma AscendingConcat(a: seq<Str>, b: seq<Str>)
    requires Ascending(a) && Ascending(b)
    requires forall x, y :: x in a && y in b ==> LexLess(x, y)
    ensures Ascending(a + b)
  {
    forall i, j | 0 <= i < j < |a + b| ensures LexLess((a + b)[i], (a + b)[j]) {
      if i < |a| <= j {
        assert a[i] in a && b[j - |a|] in b;
      } else if |a| <= i {
        assert LexLess(b[i - |a|], b[j - |a|]);
      }
    }
  }

  lemma InPrefixAll(c: Byte, ws: seq<Str>, w: Str)
    ensures w in PrefixAll(c, ws) <==> w != [] && w[0] == c && w[1..] in ws
  {
    var ps := PrefixAll(c, ws);
    if w in ps {
      var j :| 0 <= j < |ps| && ps[j] == w;
      assert w[1..] == ws[j];
    }
    if w != [] && w[0] == c && w[1..] in ws {
      var j :| 0 <= j < |ws| && ws[j] == w[1..];
      assert ps[j] == w;
    }
  }

  lemma AscendingPrefix(c: Byte, ws: seq<Str>)
    requires Ascending(ws)
    ensures Ascending(PrefixAll(c, ws))
    ensures forall y :: y in PrefixAll(c, ws) ==> y != [] && y[0] == c
  {
    var ps := PrefixAll(c, ws);
    forall i, j | 0 <= i < j < |ps| ensures LexLess(ps[i], ps[j]) {
      assert LexLess(ws[i], ws[j]);
      assert ps[i][1..] == ws[i] && ps[j][1..] == ws[j];
    }
    forall y | y in ps ensures y != [] && y[0] == c {
      InPrefixAll(c, ws, y);
    }
  }

  lemma {:induction false} WordsAscend(f: Forest, lo: nat)
    requires Sorted(f, lo)
    ensures Ascending(Words(f))
  {
    if f.Cons? {
      WordsAscend(f.sub, 0);
      WordsAscend(f.rest, f.ch + 1);
      WordsStart(f.rest, f.ch + 1);
      AscendingPrefix(f.ch, Words(f.sub));
      var own, below := if f.value then [[f.ch]] else [], PrefixAll(f.ch, Words(f.sub));
      forall y | y in below ensures LexLess([f.ch], y) {
        InPrefixAll(f.ch, Words(f.sub), y);
      }
      AscendingConcat(own, below);
      AscendingConcat(own + below, Words(f.rest));
    }
  }

  lemma {:induction false} LexIrreflexive(a: Str)
    ensures !LexLess(a, a)
  {
    if a != [] { LexIrreflexive(a[1..]); }
  }

  lemma {:induction false} LexAsymmetric(a: Str, b: Str)
    requires LexLess(a, b)
    ensures !LexLess(b, a)
  {
    if a != [] && a[0] == b[0] { LexAsymmetric(a[1..], b[1..]); }
  }

  /** How many members of `keys` come before `w` in dictionary order. */
  ghost function Rank(keys: set<Str>, w: Str): (r: nat) {
    |set k | k in keys && LexLess(k, w)|
  }

  ghost function Elements(ws: seq<Str>): (r: set<Str>)
    ensures forall w :: w in r <==> w in ws
  {
    set w | w in ws
  }

  /** In a strictly ascending listing of a set, position is rank. */
  lemma {:induction false} PositionIsRank(ws: seq<Str>, keys: set<Str>, i: nat)
    requires Ascending(ws) && i < |ws|
    requires forall w :: w in keys <==> w in ws
    ensures Rank(keys, ws[i]) == i
  {
    var below := set k | k in keys && LexLess(k, ws[i]);
    forall k | k in ws ensures LexLess(k, ws[i]) <==> k in ws[..i] {
      var j :| 0 <= j < |ws| && ws[j] == k;
      if j < i {
        assert ws[..i][j] == k;
      } else {
        LexIrreflexive(k);
        assert i < j ==> LexLess(ws[i], ws[j]);
        if LexLess(k, ws[i]) { LexAsymmetric(k, ws[i]); }
      }
    }
    assert forall k :: k in ws[..i] ==> k in ws;
    assert below == Elements(ws[..i]);
    HeadCount(ws[..i]);
  }

  lemma {:induction false} HeadCount(ws: seq<Str>)
    requires Ascending(ws)
    ensures |Elements(ws)| == |ws|
  {
    if ws != [] {
      var n := |ws| - 1;
      HeadCount(ws[..n]);
      assert ws == ws[..n] + [ws[n]];
      assert Elements(ws) == Elements(ws[..n]) + {ws[n]};
      LexIrreflexive(ws[n]);
    }
  }

  lemma {:induction false} WordsAreKeys(t: Tree, i: nat, w: Str)
    requires i <= 256
    ensures w in Words(Siblings(t, i)) <==> w != [] && i <= w[0] && HasTree(t, w)
    decreases t, 256 - i
  {
    if i < 256 {
      WordsAreKeys(t, i + 1, w);
      if i in t.kids {
        InPrefixAll(i, Words(Siblings(t.kids[i], 0)), w);
        if w != [] {
          WordsAreKeys(t.kids[i], 0, w[1..]);
          assert w == [i] <==> w[0] == i && w[1..] == [];
        }
      }
    }
  }
}
