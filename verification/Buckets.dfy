/** Chains of buckets: src/core/ymo_bucket.c. */
module Buckets {
  import opened Bytes

  class Bucket {
    const data: seq<Byte>
    var bytesSent: nat
    var next: Bucket?

    constructor (data: seq<Byte>, next: Bucket?)
      ensures this.data == data && bytesSent == 0 && this.next == next
    {
      this.data, this.bytesSent, this.next := data, 0, next;
    }
  }

  function Last(bs: seq<Bucket>): (b: Bucket?) {
    if bs == [] then null else bs[|bs| - 1]
  }

  function First(bs: seq<Bucket>): (b: Bucket?) {
    if bs == [] then null else bs[0]
  }

  /** What follows bucket `i` of a run of buckets that leads to `target`. */
  function At(bs: seq<Bucket>, i: nat, target: Bucket?): (b: Bucket?) {
    if i < |bs| then bs[i] else target
  }

  ghost predicate Distinct(bs: seq<Bucket>) {
    forall i, j :: 0 <= i < j < |bs| ==> bs[i] != bs[j]
  }

  /** Following `next` goes through `bs`, one after the other, and then to `target`. */
  ghost predicate Links(bs: seq<Bucket>, target: Bucket?)
    reads bs
  {
    forall i {:trigger bs[i].next} :: 0 <= i < |bs| ==> bs[i].next == At(bs, i + 1, target)
  }

  /** `bs` are the buckets found by following `next` from `head` to the end. */
  ghost predicate Chain(head: Bucket?, bs: seq<Bucket>)
    reads bs
  {
    Run(head, bs, null)
  }

  /** Following `next` from `head` goes through `bs`, all different, and then reaches `target`. */
  ghost predicate Run(head: Bucket?, bs: seq<Bucket>, target: Bucket?)
    reads bs
  {
    head == (if bs == [] then target else bs[0]) && Distinct(bs) && Links(bs, target)
  }

  lemma Follow(head: Bucket?, bs: seq<Bucket>, k: nat)
    requires Chain(head, bs) && k < |bs|
    ensures bs[k].next == At(bs, k + 1, null)
  {
  }

  ghost predicate Apart(ps: seq<Bucket>, qs: seq<Bucket>) {
    forall b :: b in ps ==> b !in qs
  }

  lemma LinksJoin(ps: seq<Bucket>, qs: seq<Bucket>, target: Bucket?)
    requires Links(ps, At(qs, 0, target)) && Links(qs, target)
    ensures Links(ps + qs, target)
  {
    var bs := ps + qs;
    forall i | 0 <= i < |bs|
      ensures bs[i].next == At(bs, i + 1, target)
    {
      if i < |ps| {
        assert ps[i].next == At(ps, i + 1, At(qs, 0, target));
      } else {
        assert qs[i - |ps|].next == At(qs, i - |ps| + 1, target);
      }
    }
  }

  lemma LinksSplit(bs: seq<Bucket>, k: nat, target: Bucket?)
    requires Links(bs, target) && k <= |bs|
    ensures Links(bs[..k], At(bs, k, target)) && Links(bs[k..], target)
  {
    var ps, qs := bs[..k], bs[k..];
    forall i | 0 <= i < k
      ensures ps[i].next == At(ps, i + 1, At(bs, k, target))
    {
      assert bs[i].next == At(bs, i + 1, target);
    }
    forall i | 0 <= i < |qs|
      ensures qs[i].next == At(qs, i + 1, target)
    {
      assert bs[k + i].next == At(bs, k + i + 1, target);
    }
  }

  lemma DistinctJoin(ps: seq<Bucket>, qs: seq<Bucket>)
    requires Distinct(ps) && Distinct(qs) && Apart(ps, qs)
    ensures Distinct(ps + qs)
  {
    forall i, j | 0 <= i < j < |ps + qs|
      ensures (ps + qs)[i] != (ps + qs)[j]
    {
      if i < |ps| <= j { assert ps[i] in ps && qs[j - |ps|] in qs; }
    }
  }

  lemma DistinctSplit(bs: seq<Bucket>, k: nat)
    requires Distinct(bs) && k <= |bs|
    ensures Distinct(bs[..k]) && Distinct(bs[k..]) && Apart(bs[..k], bs[k..])
  {
    forall i, j | 0 <= i < k && 0 <= j < |bs| - k
      ensures bs[..k][i] != bs[k..][j]
    {
      assert bs[i] != bs[k + j];
    }
  }

  /** Buckets before and after `e`: whatever `e` leads to, they are two runs apart from it. */
  ghost predicate Around(front: seq<Bucket>, e: Bucket, rest: seq<Bucket>)
    reads front, rest
  {
    Links(front, e) && Links(rest, null) && Unmixed(front, e, rest)
  }

  ghost predicate Unmixed(front: seq<Bucket>, e: Bucket, rest: seq<Bucket>) {
    Distinct(front) && Distinct(rest) && e !in front && e !in rest && Apart(front, rest)
  }

  lemma Detach(head: Bucket?, bs: seq<Bucket>, k: nat)
    requires Chain(head, bs) && k < |bs|
    ensures Around(bs[..k], bs[k], bs[k + 1..]) && bs[k].next == First(bs[k + 1..])
    ensures Chain(First(bs[k + 1..]), bs[k + 1..])
  {
    LinksSplit(bs, k, null);
    LinksSplit(bs, k + 1, null);
    DistinctSplit(bs, k);
    DistinctSplit(bs, k + 1);
    assert bs[k] in bs[k..] && bs[k] in bs[..k + 1];
    assert forall b :: b in bs[..k] ==> b in bs[..k + 1];
    assert bs[k].next == At(bs, k + 1, null);
  }

  lemma Attach(front: seq<Bucket>, e: Bucket, rest: seq<Bucket>)
    requires Around(front, e, rest) && e.next == First(rest)
    ensures Chain(First(front + ([e] + rest)), front + ([e] + rest))
  {
    assert [e][0] == e;
    LinksJoin([e], rest, null);
    LinksJoin(front, [e] + rest, null);
    DistinctJoin([e], rest);
    DistinctJoin(front, [e] + rest);
  }

  lemma AroundOther(front: seq<Bucket>, e: Bucket, rest: seq<Bucket>, bs: seq<Bucket>, other: Bucket?, os: seq<Bucket>)
    requires Around(front, e, rest) && Chain(other, os) && Apart(bs, os) && bs == front + [e]
    ensures Around(front, e, os)
  {
    assert e in bs;
    assert forall b :: b in front ==> b in bs;
  }

  lemma AroundMore(front: seq<Bucket>, e: Bucket, b: Bucket, rest: seq<Bucket>)
    requires Around(front, e, rest) && Chain(b, [b] + rest) && b != e && b !in front
    ensures Around(front, e, [b] + rest)
  {
    assert forall x :: x in [b] + rest ==> x == b || x in rest;
  }

  // ---------------------------------------------------------------- contents

  /** A bucket's bytes and how many of them have been sent, as a value. */
  datatype Slot = Slot(data: seq<Byte>, sent: nat)

  function Left(s: Slot): (r: seq<Byte>) {
    if s.sent <= |s.data| then s.data[s.sent..] else []
  }

  ghost function Slots(bs: seq<Bucket>): (ss: seq<Slot>)
    reads bs
    ensures |ss| == |bs|
  {
    seq(|bs|, i requires 0 <= i < |bs| reads bs => Slot(bs[i].data, bs[i].bytesSent))
  }

  lemma SlotsJoin(xs: seq<Bucket>, ys: seq<Bucket>)
    ensures Slots(xs + ys) == Slots(xs) + Slots(ys)
  {
  }

  lemma SlotsCons(b: Bucket, bs: seq<Bucket>)
    ensures Slots([b] + bs) == [Slot(b.data, b.bytesSent)] + Slots(bs)
  {
  }

  /** The unsent bytes of a chain. */
  function Unsent(ss: seq<Slot>): (r: seq<Byte>) {
    if ss == [] then [] else Left(ss[0]) + Unsent(ss[1..])
  }

  /** All the bytes of a chain. */
  function Datas(ss: seq<Slot>): (r: seq<seq<Byte>>)
    ensures |r| == |ss|
  {
    seq(|ss|, i requires 0 <= i < |ss| => ss[i].data)
  }

  ghost predicate Sane(ss: seq<Slot>) {
    forall i :: 0 <= i < |ss| ==> ss[i].sent <= |ss[i].data|
  }

  ghost predicate NoneEmpty(ss: seq<Slot>) {
    forall i :: 0 <= i < |ss| ==> ss[i].data != []
  }

  /** Every bucket has bytes left to send. */
  ghost predicate Pending(ss: seq<Slot>) {
    forall i :: 0 <= i < |ss| ==> ss[i].sent < |ss[i].data|
  }

  ghost predicate Untouched(ss: seq<Slot>) {
    forall i :: 0 <= i < |ss| ==> ss[i].sent == 0
  }

  lemma {:induction false} UnsentSplit(xs: seq<Slot>, ys: seq<Slot>)
    ensures Unsent(xs + ys) == Unsent(xs) + Unsent(ys)
    decreases |xs|
  {
    if xs == [] {
      assert xs + ys == ys;
    } else {
      assert (xs + ys)[0] == xs[0] && (xs + ys)[1..] == xs[1..] + ys;
      UnsentSplit(xs[1..], ys);
    }
  }

  lemma UnsentCons(s: Slot, ss: seq<Slot>)
    ensures Unsent([s] + ss) == Left(s) + Unsent(ss)
  {
    assert ([s] + ss)[1..] == ss;
  }

  /** One more bucket at the end of a run of buckets. */
  lemma UnsentSnoc(ss: seq<Slot>, k: nat)
    requires k < |ss|
    ensures Unsent(ss[..k + 1]) == Unsent(ss[..k]) + Left(ss[k])
  {
    assert ss[..k + 1] == ss[..k] + [ss[k]];
    UnsentSplit(ss[..k], [ss[k]]);
    assert [ss[k]][1..] == [];
  }

  lemma {:induction false} UntouchedUnsent(ss: seq<Slot>, k: nat)
    requires Untouched(ss) && k <= |ss|
    ensures Unsent(ss[..k]) == Concat(Datas(ss)[..k])
  {
    if k > 0 {
      UntouchedUnsent(ss, k - 1);
      UnsentSnoc(ss, k - 1);
      assert Datas(ss)[..k][..k - 1] == Datas(ss)[..k - 1];
    }
  }

  // ---------------------------------------------------------------- operations

  /** What follows position `at` of a chain, or another chain if there is nothing. */
  function Rest(ps: seq<Bucket>, at: nat, ns: seq<Bucket>): (r: seq<Bucket>)
    requires at <= |ps|
  {
    if at < |ps| then ps[at..] else ns
  }

  /** Makes `e` lead on to `target`. */
  method Link(e: Bucket, target: Bucket?, ghost front: seq<Bucket>, ghost rest: seq<Bucket>)
    requires Around(front, e, rest) && target == First(rest)
    modifies e`next
    ensures Chain(First(front + ([e] + rest)), front + ([e] + rest))
  {
    e.next := target;
    Attach(front, e, rest);
  }

  /** The bucket `k` of a chain, with what may come after it instead of the rest. */
  lemma AroundRest(head: Bucket?, ps: seq<Bucket>, k: nat, next: Bucket?, ns: seq<Bucket>)
    requires Chain(head, ps) && Chain(next, ns) && k < |ps| && Apart(ps, ns)
    ensures Around(ps[..k], ps[k], Rest(ps, k + 1, ns)) && Chain(First(Rest(ps, k + 1, ns)), Rest(ps, k + 1, ns))
    ensures ps[k].next == At(ps, k + 1, null)
  {
    Detach(head, ps, k);
    if k + 1 == |ps| {
      assert ps == ps[..k] + [ps[k]];
      AroundOther(ps[..k], ps[k], ps[k + 1..], ps, next, ns);
    }
  }

  method NewBucket(data: seq<Byte>, after: Bucket?, ghost rest: seq<Bucket>) returns (bucket: Bucket)
    requires Chain(after, rest)
    ensures fresh(bucket) && bucket.data == data && bucket.bytesSent == 0
    ensures Chain(bucket, [bucket] + rest)
  {
    bucket := new Bucket(data, after);
    Attach([], bucket, rest);
    assert [] + ([bucket] + rest) == [bucket] + rest;
  }

  /** ymo_bucket_create: the new bucket goes after `prev`. If `prev` already has a successor, that is what
      follows the new bucket, and `next` is dropped. */
  method Create(prev: Bucket?, next: Bucket?, data: seq<Byte>,
                ghost head: Bucket?, ghost ps: seq<Bucket>, ghost at: nat, ghost ns: seq<Bucket>)
    returns (bucket: Bucket)
    requires Chain(next, ns) && Chain(head, ps) && at <= |ps| && Apart(ps, ns)
    requires if prev == null then at == |ps| == 0 else 0 < at && prev == ps[at - 1]
    modifies if prev == null then {} else {prev}
    ensures fresh(bucket) && bucket.data == data && bucket.bytesSent == 0
    ensures prev != null ==> prev.bytesSent == old(prev.bytesSent)
    ensures Chain(if head == null then bucket else head, ps[..at] + ([bucket] + Rest(ps, at, ns)))
  {
    ghost var rest := Rest(ps, at, ns);
    if prev == null {
      bucket := NewBucket(data, next, ns);
      assert ps[..at] + ([bucket] + rest) == [bucket] + ns;
      return;
    }
    AroundRest(head, ps, at - 1, next, ns);
    var after := if prev.next != null then prev.next else next;
    bucket := NewBucket(data, after, rest);
    AroundMore(ps[..at - 1], prev, bucket, rest);
    Link(prev, bucket, ps[..at - 1], [bucket] + rest);
    assert ps[..at - 1] + ([prev] + ([bucket] + rest)) == ps[..at] + ([bucket] + rest);
  }

  /** ymo_bucket_len_all: every byte of every bucket, sent or not. */
  method LenAll(p: Bucket?, ghost bs: seq<Bucket>) returns (len: nat)
    requires Chain(p, bs)
    ensures len == |Concat(Datas(Slots(bs)))|
  {
    len := 0;
    var q := p;
    ghost var k := 0;
    ghost var ds := Datas(Slots(bs));
    while q != null
      invariant 0 <= k <= |bs| && q == At(bs, k, null)
      invariant len == |Concat(ds[..k])|
      decreases |bs| - k
    {
      assert ds[..k + 1][..k] == ds[..k];
      len := len + |q.data|;
      q := q.next;
      k := k + 1;
    }
    assert ds[..k] == ds;
  }

  /** ymo_bucket_tail. */
  method Tail(p: Bucket?, ghost bs: seq<Bucket>) returns (tail: Bucket?)
    requires Chain(p, bs)
    ensures tail == Last(bs)
  {
    tail := p;
    ghost var k := 0;
    while tail != null && tail.next != null
      invariant 0 <= k && (bs == [] ==> tail == null) && (bs != [] ==> k < |bs| && tail == bs[k])
      decreases |bs| - k
    {
      tail := tail.next;
      k := k + 1;
    }
  }

  lemma SuffixChain(bs: seq<Bucket>, k: nat)
    requires Chain(First(bs), bs) && k <= |bs|
    ensures Chain(At(bs, k, null), bs[k..])
  {
    LinksSplit(bs, k, null);
    DistinctSplit(bs, k);
  }

  /** ymo_bucket_append: `src` goes after the last bucket of the chain that `dst` is in; the result is the
      last bucket of `src`, which is null when there is none, even if there is a chain already. */
  method Append(dst: Bucket?, src: Bucket?, ghost head: Bucket?, ghost ds: seq<Bucket>, ghost t: nat,
      ghost ss: seq<Bucket>)
    returns (tail: Bucket?)
    requires Chain(head, ds) && Chain(src, ss) && Apart(ds, ss) && (dst != null ==> t < |ds| && dst == ds[t])
    modifies if dst == null then {} else {ds[|ds| - 1]}
    ensures Slots(ds) == old(Slots(ds)) && Chain(src, ss) && (dst != null ==> Chain(head, ds + ss))
    ensures tail == Last(ss)
  {
    if dst != null {
      SuffixChain(ds, t);
      var end := Tail(dst, ds[t..]);
      assert end == Last(ds);
      AroundRest(head, ds, |ds| - 1, src, ss);
      assert end !in ss;
      Link(end, src, ds[..|ds| - 1], ss);
      assert ds[..|ds| - 1] + ([end] + ss) == ds + ss;
    }
    tail := Tail(src, ss);
  }

  /** The buckets a caller makes for a payload. */
  method BuildChain(parts: seq<seq<Byte>>) returns (head: Bucket?, ghost bs: seq<Bucket>)
    ensures Chain(head, bs) && Made(Slots(bs), parts)
    ensures fresh(set b | b in bs)
  {
    head, bs := null, [];
    var i := |parts|;
    assert Made([], parts[i..]);
    while i > 0
      invariant 0 <= i <= |parts| && Chain(head, bs) && Made(Slots(bs), parts[i..])
      invariant fresh(set b | b in bs)
    {
      i := i - 1;
      ghost var was := bs;
      head := NewBucket(parts[i], head, bs);
      bs := [head] + bs;
      SlotsCons(head, was);
      assert parts[i..] == [parts[i]] + parts[i + 1..];
    }
    assert parts[0..] == parts;
  }

  /** Buckets with these contents, none of them sent. */
  ghost predicate Made(ss: seq<Slot>, parts: seq<seq<Byte>>) {
    |ss| == |parts| && forall i :: 0 <= i < |ss| ==> ss[i] == Slot(parts[i], 0)
  }

  lemma MadeMeans(ss: seq<Slot>, parts: seq<seq<Byte>>)
    requires Made(ss, parts)
    ensures Untouched(ss) && Datas(ss) == parts && (NoEmptyPart(parts) ==> NoneEmpty(ss))
  {
  }
}
