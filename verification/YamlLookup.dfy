/** What a node table says about a document, and key-path lookup in either. */
module YamlLookup {
  import opened Bytes
  import opened Common
  import opened YamlSpec

  // ---------------------------------------------------------------- what a table stands for

  /** Node `i` and the nodes below it are the document `d`. */
  predicate Represents(links: seq<Link>, i: nat, d: Doc)
    decreases d
  {
    && i < |links|
    && match d
       case Scalar(text) => links[i].kind == SCALAR && links[i].value == CStr(text) && links[i].kids == []
       case Sequence(items) => links[i].kind == SEQUENCE && RepresentsItems(links, links[i].kids, items)
       case Mapping(pairs) => links[i].kind == OBJECT && RepresentsPairs(links, links[i].kids, pairs)
  }

  predicate RepresentsItems(links: seq<Link>, ids: seq<nat>, ds: Docs)
    decreases ds
  {
    match ds
    case NoDocs => ids == []
    case Docs(d, rest) => ids != [] && Represents(links, ids[0], d) && RepresentsItems(links, ids[1..], rest)
  }

  /** Each key is a scalar node with one child, its value. */
  predicate RepresentsPairs(links: seq<Link>, ids: seq<nat>, ps: Pairs)
    decreases ps
  {
    match ps
    case NoPairs => ids == []
    case Pairs(key, value, rest) =>
      && ids != [] && ids[0] < |links|
      && links[ids[0]].kind == SCALAR && links[ids[0]].value == CStr(key) && |links[ids[0]].kids| == 1
      && Represents(links, links[ids[0]].kids[0], value)
      && RepresentsPairs(links, ids[1..], rest)
  }

  /** The part of the table that starts at `base`. */
  ghost predicate Holds(links: seq<Link>, base: nat, part: seq<Link>) {
    base + |part| <= |links| && links[base..base + |part|] == part
  }

  lemma HoldsParts(links: seq<Link>, base: nat, part: seq<Link>, xs: seq<Link>, at: nat, ys: seq<Link>)
    requires part == xs + ys && Holds(links, base, part) && at == base + |xs|
    ensures Holds(links, base, xs) && Holds(links, at, ys)
  {
    var s := links[base..base + |part|];
    assert s[..|xs|] == xs && s[|xs|..] == ys;
    assert links[base..base + |xs|] == s[..|xs|];
    assert links[base + |xs|..base + |xs| + |ys|] == s[|xs|..];
  }

  lemma HoldsFirst(links: seq<Link>, base: nat, part: seq<Link>, l: Link, ys: seq<Link>)
    requires part == [l] + ys && Holds(links, base, part)
    ensures links[base] == l && Holds(links, base + 1, ys)
  {
    HoldsParts(links, base, part, [l], base + 1, ys);
    assert links[base..base + 1][0] == l;
  }

  /** A document's own layout, anywhere in a table, represents it. */
  lemma {:induction false} LayoutRepresents(links: seq<Link>, base: nat, d: Doc, parent: Option<nat>)
    requires Holds(links, base, Layout(d, base, parent))
    ensures Represents(links, base, d)
    decreases d
  {
    match d
    case Scalar(text) =>
      assert links[base..base + 1][0] == Link(SCALAR, CStr(text), parent, []);
    case Sequence(items) =>
      HoldsFirst(links, base, Layout(d, base, parent), Link(SEQUENCE, BRACKET, parent, Ids(items, base + 1)),
          LayoutItems(items, base + 1, base));
      ItemsRepresent(links, base + 1, items, base);
    case Mapping(pairs) =>
      HoldsFirst(links, base, Layout(d, base, parent), Link(OBJECT, BRACE, parent, KeyIds(pairs, base + 1)),
          LayoutPairs(pairs, base + 1, base));
      PairsRepresent(links, base + 1, pairs, base);
  }

  lemma {:induction false} ItemsRepresent(links: seq<Link>, base: nat, ds: Docs, parent: nat)
    requires Holds(links, base, LayoutItems(ds, base, parent))
    ensures RepresentsItems(links, Ids(ds, base), ds)
    decreases ds
  {
    match ds
    case NoDocs =>
    case Docs(d, rest) =>
      HoldsParts(links, base, LayoutItems(ds, base, parent), Layout(d, base, Some(parent)), base + Count(d),
          LayoutItems(rest, base + Count(d), parent));
      LayoutRepresents(links, base, d, Some(parent));
      ItemsRepresent(links, base + Count(d), rest, parent);
      assert Ids(ds, base)[1..] == Ids(rest, base + Count(d));
  }

  lemma PairRepresents(links: seq<Link>, k: nat, ids: seq<nat>, key: Str, value: Doc, rest: Pairs)
    requires k < |links| && links[k].kind == SCALAR && links[k].value == CStr(key) && links[k].kids == [k + 1]
    requires Represents(links, k + 1, value) && RepresentsPairs(links, ids, rest)
    ensures RepresentsPairs(links, [k] + ids, Pairs(key, value, rest))
  {
    assert ([k] + ids)[1..] == ids;
  }

  lemma PairParts(links: seq<Link>, base: nat, ps: Pairs, parent: nat)
    requires ps.Pairs? && Holds(links, base, LayoutPairs(ps, base, parent))
    ensures links[base] == Link(SCALAR, CStr(ps.key), Some(parent), [base + 1])
    ensures Holds(links, base + 1, Layout(ps.value, base + 1, Some(base)))
    ensures Holds(links, base + 1 + Count(ps.value), LayoutPairs(ps.others, base + 1 + Count(ps.value), parent))
  {
    var pair, more := PairLayout(ps.key, ps.value, base, parent),
        LayoutPairs(ps.others, base + 1 + Count(ps.value), parent);
    assert LayoutPairs(ps, base, parent) == pair + more;
    HoldsParts(links, base, LayoutPairs(ps, base, parent), pair, base + 1 + Count(ps.value), more);
    PairHolds(links, base, ps.key, ps.value, parent);
  }

  lemma PairHolds(links: seq<Link>, base: nat, key: Str, value: Doc, parent: nat)
    requires Holds(links, base, PairLayout(key, value, base, parent))
    ensures links[base] == Link(SCALAR, CStr(key), Some(parent), [base + 1])
    ensures Holds(links, base + 1, Layout(value, base + 1, Some(base)))
  {
    HoldsFirst(links, base, PairLayout(key, value, base, parent), Link(SCALAR, CStr(key), Some(parent), [base + 1]),
               Layout(value, base + 1, Some(base)));
  }

  lemma {:induction false} PairsRepresent(links: seq<Link>, base: nat, ps: Pairs, parent: nat)
    requires Holds(links, base, LayoutPairs(ps, base, parent))
    ensures RepresentsPairs(links, KeyIds(ps, base), ps)
    decreases ps
  {
    match ps
    case NoPairs =>
    case Pairs(key, value, rest) =>
      PairParts(links, base, ps, parent);
      LayoutRepresents(links, base + 1, value, Some(base));
      PairsRepresent(links, base + 1 + Count(value), rest, parent);
      PairRepresents(links, base, KeyIds(rest, base + 1 + Count(value)), key, value, rest);
  }

  /** A document as far as C strings can hold it. */
  function Plain(d: Doc): (r: Doc) {
    match d
    case Scalar(text) => Scalar(CStr(text))
    case Sequence(items) => Sequence(PlainItems(items))
    case Mapping(pairs) => Mapping(PlainPairs(pairs))
  }

  function PlainItems(ds: Docs): (r: Docs) {
    match ds
    case NoDocs => NoDocs
    case Docs(d, rest) => Docs(Plain(d), PlainItems(rest))
  }

  function PlainPairs(ps: Pairs): (r: Pairs) {
    match ps
    case NoPairs => NoPairs
    case Pairs(key, value, rest) => Pairs(CStr(key), Plain(value), PlainPairs(rest))
  }

  /** A table stands for one document only. */
  lemma {:induction false} RepresentsOne(links: seq<Link>, i: nat, d: Doc, e: Doc)
    requires Represents(links, i, d) && Represents(links, i, e)
    ensures Plain(d) == Plain(e)
    decreases d
  {
    match d
    case Scalar(_) =>
    case Sequence(items) => ItemsOne(links, links[i].kids, items, e.items);
    case Mapping(pairs) => PairsOne(links, links[i].kids, pairs, e.pairs);
  }

  lemma {:induction false} ItemsOne(links: seq<Link>, ids: seq<nat>, ds: Docs, es: Docs)
    requires RepresentsItems(links, ids, ds) && RepresentsItems(links, ids, es)
    ensures PlainItems(ds) == PlainItems(es)
    decreases ds
  {
    if ds.Docs? {
      RepresentsOne(links, ids[0], ds.first, es.first);
      ItemsOne(links, ids[1..], ds.others, es.others);
    }
  }

  lemma {:induction false} PairsOne(links: seq<Link>, ids: seq<nat>, ps: Pairs, qs: Pairs)
    requires RepresentsPairs(links, ids, ps) && RepresentsPairs(links, ids, qs)
    ensures PlainPairs(ps) == PlainPairs(qs)
    decreases ps
  {
    if ps.Pairs? {
      RepresentsOne(links, links[ids[0]].kids[0], ps.value, qs.value);
      PairsOne(links, ids[1..], ps.others, qs.others);
    }
  }

  lemma {:induction false} PlainIsSame(d: Doc)
    requires NulFree(d)
    ensures Plain(d) == d
    decreases d
  {
    match d
    case Scalar(text) => CStrMeaning(text);
    case Sequence(items) => PlainItemsSame(items);
    case Mapping(pairs) => PlainPairsSame(pairs);
  }

  lemma {:induction false} PlainItemsSame(ds: Docs)
    requires NulFreeItems(ds)
    ensures PlainItems(ds) == ds
    decreases ds
  {
    if ds.Docs? {
      PlainIsSame(ds.first);
      PlainItemsSame(ds.others);
    }
  }

  lemma {:induction false} PlainPairsSame(ps: Pairs)
    requires NulFreePairs(ps)
    ensures PlainPairs(ps) == ps
    decreases ps
  {
    if ps.Pairs? {
      CStrMeaning(ps.key);
      PlainIsSame(ps.value);
      PlainPairsSame(ps.others);
    }
  }

  /** Of documents without NUL bytes, a table stands for one only. */
  lemma RepresentsOnly(links: seq<Link>, i: nat, d: Doc, e: Doc)
    requires Represents(links, i, d) && Represents(links, i, e) && NulFree(d) && NulFree(e)
    ensures d == e
  {
    RepresentsOne(links, i, d, e);
    PlainIsSame(d);
    PlainIsSame(e);
  }

  // ---------------------------------------------------------------- lookup

  function Lower(c: Byte): (r: Byte) {
    if 0x41 <= c <= 0x5A then c + 32 else c
  }

  /** strcasecmp: equal but for the case of ASCII letters. */
  predicate SameText(a: Str, b: Str) {
    |a| == |b| && forall i :: 0 <= i < |a| ==> Lower(a[i]) == Lower(b[i])
  }

  /** In a document: the value of the first key that is the same text. */
  function DocGet(d: Doc, key: Str): (v: Option<Doc>) {
    if d.Mapping? then PairGet(d.pairs, key) else None
  }

  function PairGet(ps: Pairs, key: Str): (v: Option<Doc>) {
    match ps
    case NoPairs => None
    case Pairs(k, value, rest) => if SameText(CStr(k), key) then Some(value) else PairGet(rest, key)
  }

  function DocWalk(d: Doc, path: seq<Str>): (v: Option<Doc>)
    decreases |path|
  {
    if path == [] then Some(d)
    else match DocGet(d, path[0])
      case None => None
      case Some(v) => DocWalk(v, path[1..])
  }

  /** In a table: ymo_yaml_object_get over the children `ids`. */
  function FindKey(links: seq<Link>, ids: seq<nat>, key: Str): (v: Option<nat>)
    decreases |ids|
  {
    if ids == [] then None
    else if ids[0] >= |links| || links[ids[0]].kind != SCALAR then None
    else if SameText(links[ids[0]].value, key) then
      if links[ids[0]].kids == [] then None else Some(links[ids[0]].kids[0])
    else FindKey(links, ids[1..], key)
  }

  function Get(links: seq<Link>, i: nat, key: Str): (v: Option<nat>) {
    if i >= |links| || links[i].kind != OBJECT then None else FindKey(links, links[i].kids, key)
  }

  function Walk(links: seq<Link>, i: nat, path: seq<Str>): (v: Option<nat>)
    decreases |path|
  {
    if path == [] then Some(i)
    else match Get(links, i, path[0])
      case None => None
      case Some(j) => Walk(links, j, path[1..])
  }

  /** A node found is the node of the value found, and one is found exactly if the other is. */
  ghost predicate Found(links: seq<Link>, at: Option<nat>, v: Option<Doc>) {
    (at.Some? <==> v.Some?) && (at.Some? ==> Represents(links, at.value, v.value))
  }

  lemma {:induction false} FindKeyAgrees(links: seq<Link>, ids: seq<nat>, ps: Pairs, key: Str)
    requires RepresentsPairs(links, ids, ps)
    ensures Found(links, FindKey(links, ids, key), PairGet(ps, key))
    decreases ps
  {
    if ps.Pairs? && !SameText(CStr(ps.key), key) {
      FindKeyAgrees(links, ids[1..], ps.others, key);
    }
  }

  /** Looking up a path in the tree gives what looking it up in the document gives. */
  lemma {:induction false} WalkAgrees(links: seq<Link>, i: nat, d: Doc, path: seq<Str>)
    requires Represents(links, i, d)
    ensures Found(links, Walk(links, i, path), DocWalk(d, path))
    decreases |path|
  {
    if path != [] {
      if d.Mapping? {
        FindKeyAgrees(links, links[i].kids, d.pairs, path[0]);
        var at, v := Get(links, i, path[0]), DocGet(d, path[0]);
        if at.Some? {
          WalkAgrees(links, at.value, v.value, path[1..]);
        }
      }
    }
  }

  // ---------------------------------------------------------------- what a lookup finds

  /** The same byte, or an ASCII letter in its two cases. */
  predicate SameLetter(x: Byte, y: Byte) {
    x == y || (0x41 <= x <= 0x5A && y == x + 32) || (0x41 <= y <= 0x5A && x == y + 32)
  }

  /** A key of the length of the term, each byte of it the same but for case. */
  predicate Matches(key: Str, term: Str) {
    |key| == |term| && forall i :: 0 <= i < |key| ==> SameLetter(key[i], term[i])
  }

  function Listed(ps: Pairs): (kvs: seq<(Str, Doc)>) {
    if ps.NoPairs? then [] else [(ps.key, ps.value)] + Listed(ps.others)
  }

  /** Pair `i` is the first whose key matches. */
  predicate FirstMatch(kvs: seq<(Str, Doc)>, i: nat, term: Str) {
    i < |kvs| && Matches(kvs[i].0, term) && forall j :: 0 <= j < i ==> !Matches(kvs[j].0, term)
  }

  ghost predicate NoMatch(kvs: seq<(Str, Doc)>, term: Str) {
    forall i :: 0 <= i < |kvs| ==> !Matches(kvs[i].0, term)
  }

  lemma SameTextMatches(key: Str, term: Str)
    ensures SameText(key, term) <==> Matches(key, term)
  {
    if |key| == |term| {
      forall i | 0 <= i < |key| ensures Lower(key[i]) == Lower(term[i]) <==> SameLetter(key[i], term[i]) {
      }
    }
  }

  lemma FirstMatchCons(kv: (Str, Doc), rest: seq<(Str, Doc)>, term: Str, i: nat)
    ensures FirstMatch([kv] + rest, i, term) <==>
              if i == 0 then Matches(kv.0, term) else !Matches(kv.0, term) && FirstMatch(rest, i - 1, term)
  {
    var all := [kv] + rest;
    assert forall j :: 0 < j < |all| ==> all[j] == rest[j - 1];
    if i > 0 && !Matches(kv.0, term) && FirstMatch(rest, i - 1, term) {
      forall j | 0 <= j < i ensures !Matches(all[j].0, term) {
        if j > 0 { assert !Matches(rest[j - 1].0, term); }
      }
    }
    if i > 0 && FirstMatch(all, i, term) {
      assert all[0] == kv && !Matches(all[0].0, term);
      forall j | 0 <= j < i - 1 ensures !Matches(rest[j].0, term) {
        assert all[j + 1] == rest[j];
      }
    }
  }

  /** Among pairs: the value of pair `i` exactly if it is the first to match, and nothing exactly if none does. */
  lemma {:induction false} PairFound(ps: Pairs, term: Str) returns (i: nat)
    requires NulFreePairs(ps)
    ensures PairGet(ps, term).Some? ==> FirstMatch(Listed(ps), i, term) && PairGet(ps, term).value == Listed(ps)[i].1
    ensures PairGet(ps, term).None? ==> NoMatch(Listed(ps), term) && forall j: nat :: !FirstMatch(Listed(ps), j, term)
    decreases ps
  {
    i := 0;
    if ps.Pairs? {
      var kv, rest := (ps.key, ps.value), Listed(ps.others);
      CStrMeaning(ps.key);
      SameTextMatches(ps.key, term);
      if SameText(ps.key, term) {
        FirstMatchCons(kv, rest, term, 0);
      } else {
        var k := PairFound(ps.others, term);
        i := k + 1;
        FirstMatchCons(kv, rest, term, i);
        assert forall j :: 0 < j < |[kv] + rest| ==> ([kv] + rest)[j] == rest[j - 1];
      }
    }
  }

  lemma OneFirstMatch(kvs: seq<(Str, Doc)>, i: nat, j: nat, term: Str)
    requires FirstMatch(kvs, i, term) && FirstMatch(kvs, j, term)
    ensures i == j
  {
    assert forall k :: 0 <= k < j ==> !Matches(kvs[k].0, term);
  }

  /** One step of a lookup, for keys without NUL bytes: the value of pair `i` is found exactly if its key is the
      first to match, and nothing is found exactly if no key matches. */
  lemma LookupExactly(d: Doc, term: Str)
    requires d.Mapping? && NulFreePairs(d.pairs)
    ensures forall i: nat :: FirstMatch(Listed(d.pairs), i, term) ==> DocGet(d, term) == Some(Listed(d.pairs)[i].1)
    ensures DocGet(d, term).Some? <==> exists i: nat :: FirstMatch(Listed(d.pairs), i, term)
    ensures DocGet(d, term).None? <==> NoMatch(Listed(d.pairs), term)
  {
    var kvs := Listed(d.pairs);
    var k := PairFound(d.pairs, term);
    forall i: nat | FirstMatch(kvs, i, term)
      ensures DocGet(d, term) == Some(kvs[i].1)
    {
      if DocGet(d, term).Some? {
        OneFirstMatch(kvs, i, k, term);
      }
    }
  }

  /** The children of a mapping's node: scalars with one child each. */
  predicate Keys(links: seq<Link>, ids: seq<nat>) {
    forall j :: 0 <= j < |ids| ==> ids[j] < |links| && links[ids[j]].kind == SCALAR && |links[ids[j]].kids| == 1
  }

  lemma {:induction false} PairsAreKeys(links: seq<Link>, ids: seq<nat>, ps: Pairs)
    requires RepresentsPairs(links, ids, ps)
    ensures Keys(links, ids)
    decreases ps
  {
    if ps.Pairs? {
      PairsAreKeys(links, ids[1..], ps.others);
      assert forall j :: 0 < j < |ids| ==> ids[j] == ids[1..][j - 1];
    }
  }

  /** Key `j` is the first that matches. */
  predicate FirstKey(links: seq<Link>, ids: seq<nat>, j: nat, term: Str)
    requires Keys(links, ids)
  {
    && j < |ids| && Matches(links[ids[j]].value, term)
    && forall k :: 0 <= k < j ==> !Matches(links[ids[k]].value, term)
  }

  /** In a table: the child of the first key that matches is found, and nothing exactly if none does. */
  lemma {:induction false} KeyExactly(links: seq<Link>, ids: seq<nat>, term: Str)
    requires Keys(links, ids)
    ensures forall j: nat :: FirstKey(links, ids, j, term) ==> FindKey(links, ids, term) == Some(links[ids[j]].kids[0])
    ensures FindKey(links, ids, term).None? <==> forall j: nat :: !FirstKey(links, ids, j, term)
    decreases |ids|
  {
    if ids != [] {
      var rest := ids[1..];
      assert forall j :: 0 <= j < |rest| ==> rest[j] == ids[j + 1];
      SameTextMatches(links[ids[0]].value, term);
      if SameText(links[ids[0]].value, term) {
        assert FirstKey(links, ids, 0, term);
      } else {
        KeyExactly(links, rest, term);
        forall j: nat ensures FirstKey(links, ids, j, term) <==> j > 0 && FirstKey(links, rest, j - 1, term) {
          FirstKeyLater(links, ids, rest, j, term);
        }
        if FindKey(links, rest, term).Some? {
          var j: nat :| FirstKey(links, rest, j, term);
          assert FirstKey(links, ids, j + 1, term);
        }
      }
    }
  }

  lemma FirstKeyLater(links: seq<Link>, ids: seq<nat>, rest: seq<nat>, j: nat, term: Str)
    requires ids != [] && rest == ids[1..] && Keys(links, ids) && !Matches(links[ids[0]].value, term)
    ensures Keys(links, rest)
    ensures FirstKey(links, ids, j, term) <==> j > 0 && FirstKey(links, rest, j - 1, term)
  {
    assert forall k :: 0 <= k < |rest| ==> rest[k] == ids[k + 1];
    if j > 0 && FirstKey(links, rest, j - 1, term) {
      forall k | 0 <= k < j ensures !Matches(links[ids[k]].value, term) {
        if k > 0 { assert !Matches(links[rest[k - 1]].value, term); }
      }
    }
    if FirstKey(links, ids, j, term) {
      forall k | 0 <= k < j - 1 ensures !Matches(links[rest[k]].value, term) {
        assert !Matches(links[ids[k + 1]].value, term);
      }
    }
  }

  /** A path leads from a document to what is under its terms, one after another. */
  ghost predicate Leads(d: Doc, path: seq<Str>, v: Doc)
    decreases |path|
  {
    if path == [] then v == d
    else
      && d.Mapping?
      && exists i: nat :: FirstMatch(Listed(d.pairs), i, path[0]) && Leads(Listed(d.pairs)[i].1, path[1..], v)
  }

  lemma {:induction false} NulFreeListed(ps: Pairs, i: nat)
    requires NulFreePairs(ps) && i < |Listed(ps)|
    ensures NulFree(Listed(ps)[i].1)
    decreases ps
  {
    if i > 0 { NulFreeListed(ps.others, i - 1); }
  }

  lemma {:induction false} LeadsNulFree(d: Doc, path: seq<Str>, v: Doc)
    requires NulFree(d) && Leads(d, path, v)
    ensures NulFree(v)
    decreases |path|
  {
    if path != [] {
      var i: nat :| FirstMatch(Listed(d.pairs), i, path[0]) && Leads(Listed(d.pairs)[i].1, path[1..], v);
      NulFreeListed(d.pairs, i);
      LeadsNulFree(Listed(d.pairs)[i].1, path[1..], v);
    }
  }

  /** In a document without NUL bytes, what a path finds is what it leads to. */
  lemma {:induction false} WalkExactly(d: Doc, path: seq<Str>, v: Doc)
    requires NulFree(d)
    ensures DocWalk(d, path) == Some(v) <==> Leads(d, path, v)
    decreases |path|
  {
    if path != [] && d.Mapping? {
      var kvs := Listed(d.pairs);
      LookupExactly(d, path[0]);
      forall i: nat | FirstMatch(kvs, i, path[0])
        ensures DocWalk(kvs[i].1, path[1..]) == Some(v) <==> Leads(kvs[i].1, path[1..], v)
      {
        NulFreeListed(d.pairs, i);
        WalkExactly(kvs[i].1, path[1..], v);
      }
    }
  }

  /** From events to answers: the table built from a document's events answers every path as the document
      does. */
  lemma BuiltAnswers(d: Doc, size: nat, path: seq<Str>)
    requires !d.Scalar? && PutAll(Room(size, 0, size), Texts(d)).Room?
    ensures var b := Feed(Start(size), Events(d));
            && b.Building? && b.root == Some(0) && Represents(b.links, 0, d)
            && Found(b.links, Walk(b.links, 0, path), DocWalk(d, path))
  {
    RootBuilt(d, size);
    var links := Layout(d, 0, None);
    assert links[0..0 + |links|] == links;
    LayoutRepresents(links, 0, d, None);
    WalkAgrees(links, 0, d, path);
  }
}
