/** YAML documents, their event streams, and the node tables that src/core/ymo_yaml.c builds from them, as
    values. */
module YamlSpec {
  import opened Bytes
  import opened Common

  type Str = seq<Byte>

  // ---------------------------------------------------------------- documents and events

  /** Documents whose mapping keys are scalars. */
  datatype Doc =
    | Scalar(text: Str)
    | Sequence(items: Docs)
    | Mapping(pairs: Pairs)

  datatype Docs = NoDocs | Docs(first: Doc, others: Docs)

  datatype Pairs = NoPairs | Pairs(key: Str, value: Doc, others: Pairs)

  datatype Event =
    | Ignored
    | ScalarEvent(text: Str)
    | SequenceStart
    | MappingStart
    | CollectionEnd
    | StreamEnd

  function Events(d: Doc): (es: seq<Event>) {
    match d
    case Scalar(text) => [ScalarEvent(text)]
    case Sequence(items) => [SequenceStart] + (ItemEvents(items) + [CollectionEnd])
    case Mapping(pairs) => [MappingStart] + (PairEvents(pairs) + [CollectionEnd])
  }

  function ItemEvents(ds: Docs): (es: seq<Event>) {
    match ds
    case NoDocs => []
    case Docs(d, rest) => Events(d) + ItemEvents(rest)
  }

  function PairEvents(ps: Pairs): (es: seq<Event>) {
    match ps
    case NoPairs => []
    case Pairs(key, value, rest) => [ScalarEvent(key)] + (Events(value) + PairEvents(rest))
  }

  /** The scalars of a document, in document order. */
  function Texts(d: Doc): (r: seq<Str>) {
    match d
    case Scalar(text) => [text]
    case Sequence(items) => ItemTexts(items)
    case Mapping(pairs) => PairTexts(pairs)
  }

  function ItemTexts(ds: Docs): (r: seq<Str>) {
    match ds
    case NoDocs => []
    case Docs(d, rest) => Texts(d) + ItemTexts(rest)
  }

  function PairTexts(ps: Pairs): (r: seq<Str>) {
    match ps
    case NoPairs => []
    case Pairs(key, value, rest) => ([key] + Texts(value)) + PairTexts(rest)
  }

  // ---------------------------------------------------------------- node tables

  datatype Kind = SCALAR | SEQUENCE | OBJECT

  /** A node, with other nodes named by the order they were made in. */
  datatype Link = Link(kind: Kind, value: Str, parent: Option<nat>, kids: seq<nat>)

  /** A C string ends at its first NUL. */
  function CStr(s: Str): (r: Str) {
    if s == [] || s[0] == 0 then [] else [s[0]] + CStr(s[1..])
  }

  /** `value` is the longest beginning of `text` that has no NUL. */
  predicate HeldAs(value: Str, text: Str) {
    value <= text && 0 !in value && (value == text || text[|value|] == 0)
  }

  /** What a C string holds of a text: all of it, if the text has no NUL. */
  lemma {:induction false} CStrMeaning(text: Str)
    ensures HeldAs(CStr(text), text)
    ensures 0 !in text ==> CStr(text) == text
  {
    if text != [] && text[0] != 0 {
      CStrMeaning(text[1..]);
      assert text == [text[0]] + text[1..];
    }
  }

  /** No scalar of the document has a NUL. */
  predicate NulFree(d: Doc) {
    match d
    case Scalar(text) => 0 !in text
    case Sequence(items) => NulFreeItems(items)
    case Mapping(pairs) => NulFreePairs(pairs)
  }

  predicate NulFreeItems(ds: Docs) {
    ds.Docs? ==> NulFree(ds.first) && NulFreeItems(ds.others)
  }

  predicate NulFreePairs(ps: Pairs) {
    ps.Pairs? ==> 0 !in ps.key && NulFree(ps.value) && NulFreePairs(ps.others)
  }

  /** The buffer that scalars are copied to: what `remain` says is left, where the next one goes, and how
      big the buffer is. Or an event has been turned down for lack of room, or has been written beyond the
      end of the buffer. */
  datatype Store = Room(remain: int, end: nat, size: nat) | Full | Beyond

  /** A scalar takes its length and one byte off `remain`, moves `end` by one byte more than that, and is
      written as a C string. */
  function Put(s: Store, text: Str): (r: Store) {
    if !s.Room? then s
    else if |text| + 1 >= s.remain then Full
    else if s.end + |CStr(text)| + 1 > s.size then Beyond
    else Room(s.remain - (|text| + 1), s.end + |text| + 2, s.size)
  }

  function PutAll(s: Store, texts: seq<Str>): (r: Store) {
    if texts == [] then s else Put(PutAll(s, texts[..|texts| - 1]), texts[|texts| - 1])
  }

  lemma {:induction false} PutAllSplit(s: Store, xs: seq<Str>, ys: seq<Str>)
    ensures PutAll(s, xs + ys) == PutAll(PutAll(s, xs), ys)
    decreases |ys|
  {
    if ys == [] {
      assert xs + ys == xs;
    } else {
      assert (xs + ys)[..|xs + ys| - 1] == xs + ys[..|ys| - 1];
      PutAllSplit(s, xs, ys[..|ys| - 1]);
    }
  }

  lemma {:induction false} PutAllStays(s: Store, texts: seq<Str>)
    requires !s.Room?
    ensures PutAll(s, texts) == s
  {
    if texts != [] { PutAllStays(s, texts[..|texts| - 1]); }
  }

  lemma PutOne(s: Store, text: Str)
    ensures PutAll(s, [text]) == Put(s, text)
  {
    assert [text][..0] == [];
  }

  /** What scalars take off `remain`: the length and a byte, each. */
  function Total(texts: seq<Str>): (n: nat) {
    if texts == [] then 0 else Total(texts[..|texts| - 1]) + (|texts[|texts| - 1]| + 1)
  }

  /** Scalar `k` is written within a buffer of this size: those before it have moved `end` by their
      lengths and two bytes each. */
  predicate FitsAt(texts: seq<Str>, k: nat, size: nat)
    requires k < |texts|
  {
    Total(texts[..k]) + k + |CStr(texts[k])| + 1 <= size
  }

  predicate AllFit(texts: seq<Str>, size: nat) {
    forall k :: 0 <= k < |texts| ==> FitsAt(texts, k, size)
  }

  /** Scalar `k` is not turned down, and its bytes do not stay in the buffer. */
  predicate SpillsAt(texts: seq<Str>, k: nat, size: nat)
    requires k < |texts|
  {
    Total(texts[..k + 1]) < size && !FitsAt(texts, k, size)
  }

  predicate Spills(texts: seq<Str>, size: nat) {
    exists k :: 0 <= k < |texts| && SpillsAt(texts, k, size)
  }

  /** Scalars are all stored exactly if `remain` allows for them and each fits where it goes; one is written
      beyond the buffer exactly if one that does not fit is not turned down. */
  lemma {:induction false} StoredExactly(texts: seq<Str>, size: nat)
    requires size > 0
    ensures PutAll(Room(size, 0, size), texts).Room? <==> Total(texts) < size && AllFit(texts, size)
    ensures PutAll(Room(size, 0, size), texts).Beyond? <==> Spills(texts, size)
    ensures PutAll(Room(size, 0, size), texts).Room? ==>
              PutAll(Room(size, 0, size), texts) == Room(size - Total(texts), Total(texts) + |texts|, size)
  {
    if texts != [] {
      var init, k := texts[..|texts| - 1], |texts| - 1;
      StoredExactly(init, size);
      assert texts[..k + 1] == texts;
      FitsSnoc(init, texts[k], texts, size);
      TotalGrows(texts, k);
      assert PutAll(Room(size, 0, size), texts) == Put(PutAll(Room(size, 0, size), init), texts[k]);
    }
  }

  lemma FitsSnoc(init: seq<Str>, text: Str, texts: seq<Str>, size: nat)
    requires texts == init + [text]
    ensures AllFit(texts, size) <==> AllFit(init, size) && FitsAt(texts, |init|, size)
    ensures Spills(texts, size) <==> Spills(init, size) || SpillsAt(texts, |init|, size)
    ensures !AllFit(init, size) && Total(init) < size ==> Spills(init, size)
  {
    forall k | 0 <= k < |init|
      ensures FitsAt(texts, k, size) == FitsAt(init, k, size) && SpillsAt(texts, k, size) == SpillsAt(init, k, size)
    {
      assert texts[..k] == init[..k] && texts[..k + 1] == init[..k + 1];
    }
    if !AllFit(init, size) && Total(init) < size {
      var k :| 0 <= k < |init| && !FitsAt(init, k, size);
      TotalGrows(init, k + 1);
      assert SpillsAt(init, k, size);
    }
  }

  lemma {:induction false} TotalGrows(texts: seq<Str>, k: nat)
    requires k <= |texts|
    ensures Total(texts[..k]) <= Total(texts)
  {
    if k < |texts| {
      TotalGrows(texts[..|texts| - 1], k);
      assert texts[..|texts| - 1][..k] == texts[..k];
    } else {
      assert texts[..k] == texts;
    }
  }

  const BRACE: Str := [0x7B]
  const BRACKET: Str := [0x5B]

  /** Up from a node past scalars, the nearest collection. */
  function Climb(links: seq<Link>, i: nat): (r: Option<nat>)
    requires i < |links|
  {
    if links[i].kind != SCALAR then Some(i)
    else match links[i].parent
      case None => None
      case Some(p) => if p < i then Climb(links, p) else None
  }

  function Grow(links: seq<Link>, c: nat, ids: seq<nat>): (r: seq<Link>)
    requires c < |links|
    ensures |r| == |links|
  {
    links[c := links[c].(kids := links[c].kids + ids)]
  }

  /** A new node, the last of its parent's children. */
  function Add(links: seq<Link>, l: Link): (r: seq<Link>)
    requires l.parent.Some? ==> l.parent.value < |links|
    ensures |r| == |links| + 1
  {
    (if l.parent.None? then links else Grow(links, l.parent.value, [|links|])) + [l]
  }

  /** The parser between events: the nodes made, the one new nodes go under, the root, the storage. `Fault`
      stands for a collection closed that was never opened, and `Lost` for a scalar written beyond the end of
      the buffer: this model says nothing about what comes after that. */
  datatype Builder =
    | Building(links: seq<Link>, cur: Option<nat>, root: Option<nat>, store: Store)
    | Stopped(status: Status)
    | Fault
    | Lost

  predicate Placed(b: Builder) {
    b.Building? && (b.cur.Some? ==> b.cur.value < |b.links|)
  }

  function Failed(s: Store): (r: Builder) {
    if s.Full? then Stopped(EFBIG) else Lost
  }

  /** ymo_yaml_node_create for a scalar. */
  function CreateScalar(b: Builder, text: Str): (r: Builder)
    requires Placed(b)
  {
    if b.cur.None? then Stopped(EINVAL)
    else
      var store := Put(b.store, text);
      if !store.Room? then Failed(store)
      else
        var cur := CursorAfter(b.links, b.cur.value);
        if cur.None? then Stopped(OKAY)
        else Building(Add(b.links, Link(SCALAR, CStr(text), b.cur, [])), cur, Rooted(b.root, cur), store)
  }

  /** Where the cursor goes after a scalar: past a key's value to the mapping, past an item to its sequence,
      and into a key. */
  function CursorAfter(links: seq<Link>, p: nat): (cur: Option<nat>)
    requires p < |links|
  {
    match links[p].kind
    case SCALAR => Climb(links, p)
    case SEQUENCE => Some(p)
    case OBJECT => Some(|links|)
  }

  function Rooted(root: Option<nat>, cur: Option<nat>): (r: Option<nat>) {
    if root.None? then cur else root
  }

  /** ymo_yaml_node_create for a collection. */
  function CreateCollection(b: Builder, kind: Kind, value: Str): (r: Builder)
    requires Placed(b)
  {
    var n := Some(|b.links|);
    Building(Add(b.links, Link(kind, value, b.cur, [])), n, Rooted(b.root, n), b.store)
  }

  /** The end of a collection: up to its parent, and past scalars. */
  function Pop(b: Builder): (r: Builder)
    requires Placed(b)
  {
    if b.cur.None? then Fault
    else match b.links[b.cur.value].parent
      case None => b.(cur := None)
      case Some(p) => if p < b.cur.value then b.(cur := Climb(b.links, p)) else Fault
  }

  function Step(b: Builder, e: Event): (r: Builder) {
    if !Placed(b) then b
    else match e
      case ScalarEvent(text) => CreateScalar(b, text)
      case SequenceStart => CreateCollection(b, SEQUENCE, BRACKET)
      case MappingStart => CreateCollection(b, OBJECT, BRACE)
      case CollectionEnd => Pop(b)
      case Ignored => b
      case StreamEnd => b
  }

  function Feed(b: Builder, es: seq<Event>): (r: Builder)
    decreases |es|
  {
    if es == [] then b else Feed(Step(b, es[0]), es[1..])
  }

  lemma {:induction false} FeedSplit(b: Builder, xs: seq<Event>, ys: seq<Event>)
    ensures Feed(b, xs + ys) == Feed(Feed(b, xs), ys)
    decreases |xs|
  {
    if xs == [] {
      assert xs + ys == ys;
    } else {
      assert (xs + ys)[0] == xs[0] && (xs + ys)[1..] == xs[1..] + ys;
      FeedSplit(Step(b, xs[0]), xs[1..], ys);
    }
  }

  lemma {:induction false} FeedStopped(b: Builder, es: seq<Event>)
    requires b.Stopped? || b.Lost?
    ensures Feed(b, es) == b
    decreases |es|
  {
    if es != [] { FeedStopped(b, es[1..]); }
  }

  lemma FeedOne(b: Builder, e: Event)
    ensures Feed(b, [e]) == Step(b, e)
  {
    assert [e][1..] == [];
    assert Feed(Step(b, e), []) == Step(b, e);
  }

  // ---------------------------------------------------------------- where a document's nodes go

  function Count(d: Doc): (n: nat)
    ensures n > 0
  {
    match d
    case Scalar(_) => 1
    case Sequence(items) => 1 + CountItems(items)
    case Mapping(pairs) => 1 + CountPairs(pairs)
  }

  function CountItems(ds: Docs): (n: nat) {
    match ds
    case NoDocs => 0
    case Docs(d, rest) => Count(d) + CountItems(rest)
  }

  function CountPairs(ps: Pairs): (n: nat) {
    match ps
    case NoPairs => 0
    case Pairs(_, value, rest) => 1 + (Count(value) + CountPairs(rest))
  }

  /** The first nodes of consecutive items, and the key nodes of consecutive pairs. */
  function Ids(ds: Docs, base: nat): (r: seq<nat>) {
    match ds
    case NoDocs => []
    case Docs(d, rest) => [base] + Ids(rest, base + Count(d))
  }

  function KeyIds(ps: Pairs, base: nat): (r: seq<nat>) {
    match ps
    case NoPairs => []
    case Pairs(_, value, rest) => [base] + KeyIds(rest, base + 1 + Count(value))
  }

  /** The nodes of a document in document order, the first of them numbered `base`. */
  function Layout(d: Doc, base: nat, parent: Option<nat>): (r: seq<Link>)
    ensures |r| == Count(d)
    decreases d, 0
  {
    match d
    case Scalar(text) => [Link(SCALAR, CStr(text), parent, [])]
    case Sequence(items) => [Link(SEQUENCE, BRACKET, parent, Ids(items, base + 1))] + LayoutItems(items, base + 1, base)
    case Mapping(pairs) => [Link(OBJECT, BRACE, parent, KeyIds(pairs, base + 1))] + LayoutPairs(pairs, base + 1, base)
  }

  function LayoutItems(ds: Docs, base: nat, parent: nat): (r: seq<Link>)
    ensures |r| == CountItems(ds)
    decreases ds, 0
  {
    match ds
    case NoDocs => []
    case Docs(d, rest) => Layout(d, base, Some(parent)) + LayoutItems(rest, base + Count(d), parent)
  }

  function LayoutPairs(ps: Pairs, base: nat, parent: nat): (r: seq<Link>)
    ensures |r| == CountPairs(ps)
    decreases ps, 0
  {
    match ps
    case NoPairs => []
    case Pairs(key, value, rest) =>
      PairLayout(key, value, base, parent) + LayoutPairs(rest, base + 1 + Count(value), parent)
  }

  function PairLayout(key: Str, value: Doc, base: nat, parent: nat): (r: seq<Link>)
    ensures |r| == 1 + Count(value)
    decreases value, 1
  {
    [Link(SCALAR, CStr(key), Some(parent), [base + 1])] + Layout(value, base + 1, Some(base))
  }

  // ---------------------------------------------------------------- building a document

  /** Climbing sees only the kinds and parents of nodes up to where it starts. */
  lemma {:induction false} ClimbFrame(links: seq<Link>, links': seq<Link>, i: nat)
    requires i < |links| && i < |links'|
    requires forall k :: 0 <= k <= i ==> links'[k].kind == links[k].kind && links'[k].parent == links[k].parent
    ensures Climb(links', i) == Climb(links, i)
    decreases i
  {
    if links[i].kind == SCALAR && links[i].parent.Some? && links[i].parent.value < i {
      ClimbFrame(links, links', links[i].parent.value);
    }
  }

  lemma ClimbGrown(links: seq<Link>, c: nat, ids: seq<nat>, more: seq<Link>, i: nat)
    requires c < |links| && i < |links|
    ensures Climb(Grow(links, c, ids) + more, i) == Climb(links, i)
  {
    ClimbFrame(links, Grow(links, c, ids) + more, i);
  }

  /** New nodes are about to go under node `c`. */
  ghost predicate Open(b: Builder, c: nat) {
    b.Building? && b.cur == Some(c) && c < |b.links| && b.root.Some? && b.store.Room?
  }

  /** What a part of a document with these scalars does to the parser: its nodes are added and node `c`
      gets its children, or storage runs out. */
  function Built(b: Builder, c: nat, ids: seq<nat>, more: seq<Link>, texts: seq<Str>, cur: Option<nat>): (r: Builder)
    requires b.Building? && c < |b.links|
  {
    var store := PutAll(b.store, texts);
    if store.Room? then Building(Grow(b.links, c, ids) + more, cur, b.root, store) else Failed(store)
  }

  /** First one part, then another: both together. */
  lemma BuiltTwice(b: Builder, c: nat, ids1: seq<nat>, more1: seq<Link>, texts1: seq<Str>, cur1: Option<nat>,
                   ids2: seq<nat>, more2: seq<Link>, texts2: seq<Str>, cur2: Option<nat>)
    requires b.Building? && c < |b.links| && b.store.Room?
    ensures PutAll(b.store, texts1).Room? ==>
              Built(Built(b, c, ids1, more1, texts1, cur1), c, ids2, more2, texts2, cur2)
              == Built(b, c, ids1 + ids2, more1 + more2, texts1 + texts2, cur2)
    ensures !PutAll(b.store, texts1).Room? ==>
              Built(b, c, ids1 + ids2, more1 + more2, texts1 + texts2, cur2) == Failed(PutAll(b.store, texts1))
  {
    PutAllSplit(b.store, texts1, texts2);
    if PutAll(b.store, texts1).Room? {
      GrowTwice(b.links, c, ids1, more1, ids2, more2);
    } else {
      PutAllStays(PutAll(b.store, texts1), texts2);
    }
  }

  lemma GrowTwice(links: seq<Link>, c: nat, ids1: seq<nat>, more1: seq<Link>, ids2: seq<nat>, more2: seq<Link>)
    requires c < |links|
    ensures Grow(Grow(links, c, ids1) + more1, c, ids2) + more2 == Grow(links, c, ids1 + ids2) + (more1 + more2)
  {
    var links1 := Grow(links, c, ids1) + more1;
    assert links1[c].kids + ids2 == links[c].kids + (ids1 + ids2);
  }

  /** Events fed in two parts, each of which builds what it should. */
  lemma FedTwice(b: Builder, b1: Builder, c: nat, xs: seq<Event>, ids1: seq<nat>, more1: seq<Link>, texts1: seq<Str>,
                 cur1: Option<nat>, ys: seq<Event>, ids2: seq<nat>, more2: seq<Link>, texts2: seq<Str>,
                 cur2: Option<nat>)
    requires b.Building? && c < |b.links| && b.store.Room?
    requires b1 == Feed(b, xs) && b1 == Built(b, c, ids1, more1, texts1, cur1)
    requires PutAll(b.store, texts1).Room? ==> Feed(b1, ys) == Built(b1, c, ids2, more2, texts2, cur2)
    requires !PutAll(b.store, texts1).Room? ==> Feed(b1, ys) == b1
    ensures Feed(b, xs + ys) == Built(b, c, ids1 + ids2, more1 + more2, texts1 + texts2, cur2)
  {
    FeedSplit(b, xs, ys);
    BuiltTwice(b, c, ids1, more1, texts1, cur1, ids2, more2, texts2, cur2);
  }

  /** A whole document, under a sequence or under a key. */
  lemma {:induction false} FeedDoc(b: Builder, d: Doc, c: nat, o: nat)
    requires Open(b, c) && b.links[c].kind != OBJECT && Climb(b.links, c) == Some(o)
    ensures Feed(b, Events(d)) == Built(b, c, [|b.links|], Layout(d, |b.links|, Some(c)), Texts(d), Some(o))
    decreases d, 1
  {
    match d
    case Scalar(text) =>
      FeedOne(b, ScalarEvent(text));
      PutOne(b.store, text);
    case Sequence(items) => FeedSequence(b, items, c, o);
    case Mapping(pairs) => FeedMapping(b, pairs, c, o);
  }

  lemma {:induction false} FeedSequence(b: Builder, items: Docs, c: nat, o: nat)
    requires Open(b, c) && Climb(b.links, c) == Some(o)
    ensures Feed(b, Events(Sequence(items))) ==
              Built(b, c, [|b.links|], Layout(Sequence(items), |b.links|, Some(c)), ItemTexts(items), Some(o))
    decreases items, 1
  {
    var n := |b.links|;
    FeedCollection(b, SequenceStart, ItemEvents(items));
    FeedItems(CreateCollection(b, SEQUENCE, BRACKET), items, n, n + 1);
    CloseCollection(b, c, o, Link(SEQUENCE, BRACKET, Some(c), []), Ids(items, n + 1), LayoutItems(items, n + 1, n),
        ItemTexts(items));
  }

  lemma {:induction false} FeedMapping(b: Builder, pairs: Pairs, c: nat, o: nat)
    requires Open(b, c) && Climb(b.links, c) == Some(o)
    ensures Feed(b, Events(Mapping(pairs))) ==
              Built(b, c, [|b.links|], Layout(Mapping(pairs), |b.links|, Some(c)), PairTexts(pairs), Some(o))
    decreases pairs, 1
  {
    var n := |b.links|;
    FeedCollection(b, MappingStart, PairEvents(pairs));
    FeedPairs(CreateCollection(b, OBJECT, BRACE), pairs, n);
    CloseCollection(b, c, o, Link(OBJECT, BRACE, Some(c), []), KeyIds(pairs, n + 1), LayoutPairs(pairs, n + 1, n),
        PairTexts(pairs));
  }

  lemma FeedCollection(b: Builder, start: Event, es: seq<Event>)
    ensures Feed(b, [start] + (es + [CollectionEnd])) == Feed(Feed(Step(b, start), es), [CollectionEnd])
  {
    assert ([start] + (es + [CollectionEnd]))[1..] == es + [CollectionEnd];
    FeedSplit(Step(b, start), es, [CollectionEnd]);
  }

  /** The end of a collection that was opened under `c`. */
  lemma CloseCollection(b: Builder, c: nat, o: nat, l: Link, ids: seq<nat>, more: seq<Link>, texts: seq<Str>)
    requires Open(b, c) && Climb(b.links, c) == Some(o) && l.parent == Some(c) && l.kids == []
    ensures var b1 := Building(Add(b.links, l), Some(|b.links|), b.root, b.store);
            Feed(Built(b1, |b.links|, ids, more, texts, Some(|b.links|)), [CollectionEnd])
            == Built(b, c, [|b.links|], [l.(kids := ids)] + more, texts, Some(o))
  {
    var n := |b.links|;
    var b1 := Building(Add(b.links, l), Some(n), b.root, b.store);
    var b2 := Built(b1, n, ids, more, texts, Some(n));
    FeedOne(b2, CollectionEnd);
    if PutAll(b.store, texts).Room? {
      assert [] + ids == ids;
      assert b2.links == Grow(b.links, c, [n]) + ([l.(kids := ids)] + more);
      ClimbGrown(b.links, c, [n], [l.(kids := ids)] + more, c);
    }
  }

  lemma BuiltNothing(b: Builder, c: nat)
    requires Open(b, c)
    ensures Built(b, c, [], [], [], Some(c)) == b
  {
    assert b.links[c].kids + [] == b.links[c].kids;
    assert Grow(b.links, c, []) + [] == b.links;
  }

  /** After an item, the sequence is open for the next. */
  lemma {:induction false} FeedItem(b: Builder, d: Doc, c: nat)
    requires Open(b, c) && b.links[c].kind == SEQUENCE
    ensures Feed(b, Events(d)) == Built(b, c, [|b.links|], Layout(d, |b.links|, Some(c)), Texts(d), Some(c))
    ensures var b1 := Feed(b, Events(d));
            if PutAll(b.store, Texts(d)).Room?
            then Open(b1, c) && b1.links[c].kind == SEQUENCE && |b1.links| == |b.links| + Count(d)
            else b1 == Failed(PutAll(b.store, Texts(d)))
    decreases d, 2
  {
    FeedDoc(b, d, c, c);
  }

  lemma {:induction false} FeedItems(b: Builder, ds: Docs, c: nat, n: nat)
    requires Open(b, c) && b.links[c].kind == SEQUENCE && n == |b.links|
    ensures Feed(b, ItemEvents(ds)) == Built(b, c, Ids(ds, n), LayoutItems(ds, n, c), ItemTexts(ds), Some(c))
    decreases ds, 0
  {
    match ds
    case NoDocs => BuiltNothing(b, c);
    case Docs(d, rest) =>
      FeedItem(b, d, c);
      var b1 := Feed(b, Events(d));
      if PutAll(b.store, Texts(d)).Room? {
        FeedItems(b1, rest, c, n + Count(d));
      } else {
        FeedStopped(b1, ItemEvents(rest));
      }
      ItemsTwice(b, b1, d, rest, c, n, n + Count(d));
  }

  lemma ItemsTwice(b: Builder, b1: Builder, d: Doc, rest: Docs, c: nat, o: nat, n: nat)
    requires b.Building? && c < |b.links| && b.store.Room? && n == o + Count(d)
    requires b1 == Feed(b, Events(d)) && b1 == Built(b, c, [o], Layout(d, o, Some(c)), Texts(d), Some(c))
    requires if PutAll(b.store, Texts(d)).Room?
             then Feed(b1, ItemEvents(rest))
                  == Built(b1, c, Ids(rest, n), LayoutItems(rest, n, c), ItemTexts(rest), Some(c))
             else Feed(b1, ItemEvents(rest)) == b1
    ensures var ds := Docs(d, rest);
            Feed(b, ItemEvents(ds)) == Built(b, c, Ids(ds, o), LayoutItems(ds, o, c), ItemTexts(ds), Some(c))
  {
    FedTwice(b, b1, c, Events(d), [o], Layout(d, o, Some(c)), Texts(d), Some(c),
             ItemEvents(rest), Ids(rest, n), LayoutItems(rest, n, c), ItemTexts(rest), Some(c));
  }

  lemma {:induction false} FeedPairs(b: Builder, ps: Pairs, c: nat)
    requires Open(b, c) && b.links[c].kind == OBJECT
    ensures Feed(b, PairEvents(ps)) ==
              Built(b, c, KeyIds(ps, |b.links|), LayoutPairs(ps, |b.links|, c), PairTexts(ps), Some(c))
    decreases ps, 0
  {
    var n := |b.links|;
    match ps
    case NoPairs => BuiltNothing(b, c);
    case Pairs(key, value, rest) =>
      PairsJoin(key, value, rest);
      FeedSplit(b, [ScalarEvent(key)] + Events(value), PairEvents(rest));
      FeedPair(b, key, value, c);
      var b1 := Feed(b, [ScalarEvent(key)] + Events(value));
      BuiltTwice(b, c, [n], PairLayout(key, value, n, c), [key] + Texts(value), Some(c),
                 KeyIds(rest, n + 1 + Count(value)), LayoutPairs(rest, n + 1 + Count(value), c), PairTexts(rest),
                     Some(c));
      if PutAll(b.store, [key] + Texts(value)).Room? {
        FeedPairs(b1, rest, c);
      } else {
        FeedStopped(b1, PairEvents(rest));
      }
  }

  /** A mapping's events are those of its first pair and of the others. */
  lemma PairsJoin(key: Str, value: Doc, rest: Pairs)
    ensures PairEvents(Pairs(key, value, rest)) == ([ScalarEvent(key)] + Events(value)) + PairEvents(rest)
  {
  }

  /** A key and its value: the value goes under the key, and then it is the mapping's turn again. */
  lemma {:induction false} FeedPair(b: Builder, key: Str, value: Doc, c: nat)
    requires Open(b, c) && b.links[c].kind == OBJECT
    ensures Feed(b, [ScalarEvent(key)] + Events(value)) ==
              Built(b, c, [|b.links|], PairLayout(key, value, |b.links|, c), [key] + Texts(value), Some(c))
    decreases value, 2
  {
    var n := |b.links|;
    FeedSplit(b, [ScalarEvent(key)], Events(value));
    FeedOne(b, ScalarEvent(key));
    var b1 := CreateScalar(b, key);
    PutAllSplit(b.store, [key], Texts(value));
    PutOne(b.store, key);
    if !b1.Building? {
      PutAllStays(Put(b.store, key), Texts(value));
      FeedStopped(b1, Events(value));
    } else {
      ClimbGrown(b.links, c, [n], [Link(SCALAR, CStr(key), Some(c), [])], c);
      FeedDoc(b1, value, n, c);
      KeyThenValue(b, key, c, Layout(value, n + 1, Some(n)), Texts(value));
    }
  }

  lemma KeyThenValue(b: Builder, key: Str, c: nat, more: seq<Link>, texts: seq<Str>)
    requires Open(b, c) && b.links[c].kind == OBJECT && CreateScalar(b, key).Building?
    ensures var n := |b.links|;
            Built(CreateScalar(b, key), n, [n + 1], more, texts, Some(c))
            == Built(b, c, [n], [Link(SCALAR, CStr(key), Some(c), [n + 1])] + more, [key] + texts, Some(c))
  {
    var n := |b.links|;
    PutAllSplit(b.store, [key], texts);
    PutOne(b.store, key);
    GrowLast(Grow(b.links, c, [n]), Link(SCALAR, CStr(key), Some(c), []), [n + 1], more);
    assert [] + [n + 1] == [n + 1];
  }

  /** Children given to the last node, with more nodes after it. */
  lemma GrowLast(links: seq<Link>, l: Link, ids: seq<nat>, more: seq<Link>)
    ensures Grow(links + [l], |links|, ids) + more == links + ([l.(kids := l.kids + ids)] + more)
  {
  }

  /** The parse loop: up to the end of the stream, an error, or the end of what the YAML parser gives. */
  function ParseAll(b: Builder, es: seq<Event>): (r: (Status, Builder))
    decreases |es|
  {
    if es == [] then (EINVAL, b)
    else if es[0] == StreamEnd then (OKAY, b)
    else
      var b1 := Step(b, es[0]);
      if b1.Stopped? then (b1.status, b1) else ParseAll(b1, es[1..])
  }

  lemma {:induction false} ParseAllFeeds(b: Builder, es: seq<Event>)
    requires b.Building? && StreamEnd !in es
    ensures var r := Feed(b, es);
            ParseAll(b, es + [StreamEnd]) == (if r.Stopped? then (r.status, r) else (OKAY, r))
    decreases |es|
  {
    if es == [] {
      assert es + [StreamEnd] == [StreamEnd];
    } else {
      assert (es + [StreamEnd])[0] == es[0] && (es + [StreamEnd])[1..] == es[1..] + [StreamEnd];
      var b1 := Step(b, es[0]);
      match b1
      case Stopped(_) => FeedStopped(b1, es[1..]);
      case Fault => FaultFeeds(b1, es[1..]);
      case Lost => FaultFeeds(b1, es[1..]);
      case Building(_, _, _, _) => ParseAllFeeds(b1, es[1..]);
    }
  }

  lemma {:induction false} FaultFeeds(b: Builder, es: seq<Event>)
    requires (b.Fault? || b.Lost?) && StreamEnd !in es
    ensures Feed(b, es) == b && ParseAll(b, es + [StreamEnd]) == (OKAY, b)
    decreases |es|
  {
    if es == [] {
      assert es + [StreamEnd] == [StreamEnd];
    } else {
      assert (es + [StreamEnd])[0] == es[0] && (es + [StreamEnd])[1..] == es[1..] + [StreamEnd];
      FaultFeeds(b, es[1..]);
    }
  }

  function Start(size: nat): (b: Builder) {
    Building([], None, None, Room(size, 0, size))
  }

  /** A document with a collection at its root is laid out whole, if storage takes all its scalars. */
  lemma RootBuilt(d: Doc, size: nat)
    ensures var store := PutAll(Room(size, 0, size), Texts(d));
            Feed(Start(size), Events(d)) ==
              if d.Scalar? then Stopped(EINVAL)
              else if store.Room? then Building(Layout(d, 0, None), None, Some(0), store)
              else Failed(store)
  {
    var b := Start(size);
    match d
    case Scalar(text) =>
      FeedOne(b, ScalarEvent(text));
    case Sequence(items) =>
      var b1 := CreateCollection(b, SEQUENCE, BRACKET);
      FeedCollection(b, SequenceStart, ItemEvents(items));
      FeedItems(b1, items, 0, 1);
      CloseRoot(b1, Ids(items, 1), LayoutItems(items, 1, 0), ItemTexts(items));
    case Mapping(pairs) =>
      var b1 := CreateCollection(b, OBJECT, BRACE);
      FeedCollection(b, MappingStart, PairEvents(pairs));
      FeedPairs(b1, pairs, 0);
      CloseRoot(b1, KeyIds(pairs, 1), LayoutPairs(pairs, 1, 0), PairTexts(pairs));
  }

  lemma CloseRoot(b1: Builder, ids: seq<nat>, more: seq<Link>, texts: seq<Str>)
    requires b1.Building? && |b1.links| == 1 && b1.cur == Some(0) && b1.root == Some(0)
    requires b1.links[0].parent == None && b1.links[0].kids == []
    ensures var store := PutAll(b1.store, texts);
            Feed(Built(b1, 0, ids, more, texts, Some(0)), [CollectionEnd]) ==
              if store.Room? then Building([b1.links[0].(kids := ids)] + more, None, Some(0), store)
              else Failed(store)
  {
    FeedOne(Built(b1, 0, ids, more, texts, Some(0)), CollectionEnd);
    assert [] + ids == ids;
  }

  // ---------------------------------------------------------------- streams

  /** The events of a stream of one document. */
  function Stream(d: Doc): (es: seq<Event>) {
    ([Ignored, Ignored] + (Events(d) + [Ignored])) + [StreamEnd]
  }

  lemma {:induction false} NoStreamEnd(d: Doc)
    ensures StreamEnd !in Events(d)
    decreases d
  {
    match d
    case Scalar(_) =>
    case Sequence(items) => NoStreamEndItems(items);
    case Mapping(pairs) => NoStreamEndPairs(pairs);
  }

  lemma {:induction false} NoStreamEndItems(ds: Docs)
    ensures StreamEnd !in ItemEvents(ds)
    decreases ds
  {
    if ds.Docs? {
      NoStreamEnd(ds.first);
      NoStreamEndItems(ds.others);
    }
  }

  lemma {:induction false} NoStreamEndPairs(ps: Pairs)
    ensures StreamEnd !in PairEvents(ps)
    decreases ps
  {
    if ps.Pairs? {
      NoStreamEnd(ps.value);
      NoStreamEndPairs(ps.others);
    }
  }

  /** Parsing a stream of one document succeeds exactly if its root is a collection and storage takes all
      its scalars, and then the table is the document's own layout. */
  lemma StreamParsed(d: Doc, size: nat)
    ensures var store := PutAll(Room(size, 0, size), Texts(d));
            ParseAll(Start(size), Stream(d)) ==
              if d.Scalar? then (EINVAL, Stopped(EINVAL))
              else if store.Room? then (OKAY, Building(Layout(d, 0, None), None, Some(0), store))
              else if store.Full? then (EFBIG, Stopped(EFBIG))
              else (OKAY, Lost)
  {
    var b, r := Start(size), Feed(Start(size), Events(d));
    var es := [Ignored, Ignored] + (Events(d) + [Ignored]);
    NoStreamEnd(d);
    ParseAllFeeds(b, es);
    RootBuilt(d, size);
    FeedSplit(b, [Ignored, Ignored], Events(d) + [Ignored]);
    FeedSplit(b, Events(d), [Ignored]);
    FeedOne(r, Ignored);
    assert [Ignored, Ignored][1..] == [Ignored];
    FeedOne(b, Ignored);
  }

  /** Four scalars of one byte, in the storage for a file of nine bytes: what `remain` allows for is not
      what the buffer holds. */
  lemma FourLettersSpill(a: Byte, b: Byte, c: Byte, d: Byte)
    requires d != 0
    ensures Total([[a], [b], [c], [d]]) == 8 && Spills([[a], [b], [c], [d]], 10)
  {
    var one: seq<Str>, two, three, texts := [[a]], [[a], [b]], [[a], [b], [c]], [[a], [b], [c], [d]];
    TotalSnoc([], [a], one);
    TotalSnoc(one, [b], two);
    TotalSnoc(two, [c], three);
    TotalSnoc(three, [d], texts);
    CStrMeaning([d]);
    LastSpills(texts, three, d);
  }

  lemma LastSpills(texts: seq<Str>, before: seq<Str>, d: Byte)
    requires |texts| == 4 && texts == before + [[d]] && Total(before) == 6 && Total(texts) == 8
    requires CStr([d]) == [d]
    ensures Spills(texts, 10)
  {
    assert texts[..3] == before && texts[..4] == texts && texts[3] == [d];
    assert SpillsAt(texts, 3, 10);
  }

  lemma TotalSnoc(texts: seq<Str>, text: Str, more: seq<Str>)
    requires more == texts + [text]
    ensures Total(more) == Total(texts) + |text| + 1
  {
    assert more[..|texts|] == texts;
  }
}
