/** One HTTP response: body, chunking and length, in src/protocol/http/ymo_http_response.c; and the send
    buffer of its session. */
module HttpResponse {
  import opened Bytes
  import opened Buckets
  import opened Common
  import Net
  import opened ChunkSpec

  /** No bucket is too big for its size line to fit the buffer that is printed into. */
  ghost predicate Sized(ss: seq<Slot>) {
    forall i :: 0 <= i < |ss| ==> |ss[i].data| <= 65535
  }

  // ---------------------------------------------------------------- framing a chain

  /** A bucket with its size line before it and an end of line after it. */
  function Wrapped(data: seq<Byte>): (ss: seq<Slot>) {
    [Slot(SizeLine(|data|), 0), Slot(data, 0), Slot(CRLF, 0)]
  }

  function Framed(parts: seq<seq<Byte>>): (r: seq<Slot>) {
    if parts == [] then [] else Framed(parts[..|parts| - 1]) + Wrapped(parts[|parts| - 1])
  }

  lemma WrappedUnsent(data: seq<Byte>)
    ensures Unsent(Wrapped(data)) == Chunk(data)
  {
    var a, b, c := Slot(SizeLine(|data|), 0), Slot(data, 0), Slot(CRLF, 0);
    UnsentCons(a, [b, c]);
    UnsentCons(b, [c]);
    UnsentCons(c, []);
    assert [a] + [b, c] == Wrapped(data) && [b] + [c] == [b, c] && [c] + [] == [c];
    assert SizeLine(|data|)[0..] == SizeLine(|data|) && data[0..] == data && CRLF[0..] == CRLF;
    assert CRLF + [] == CRLF;
  }

  lemma UnsentJoin(xs: seq<Slot>, ys: seq<Slot>, a: seq<Byte>, b: seq<Byte>)
    requires Unsent(xs) == a && Unsent(ys) == b
    ensures Unsent(xs + ys) == a + b
  {
    UnsentSplit(xs, ys);
  }

  /** The bytes of a framed chain are the chunks of its buckets. */
  lemma {:induction false} FramedUnsent(parts: seq<seq<Byte>>)
    ensures Unsent(Framed(parts)) == Chunks(parts)
  {
    if parts != [] {
      var init, data := parts[..|parts| - 1], parts[|parts| - 1];
      FramedUnsent(init);
      WrappedUnsent(data);
      UnsentJoin(Framed(init), Wrapped(data), Chunks(init), Chunk(data));
      ChunksSnoc(init, data);
      assert init + [data] == parts;
    }
  }

  lemma {:induction false} FramedPending(parts: seq<seq<Byte>>)
    ensures Untouched(Framed(parts)) && (NoEmptyPart(parts) ==> Pending(Framed(parts)))
  {
    if parts != [] { FramedPending(parts[..|parts| - 1]); }
  }

  lemma FramedSnoc(parts: seq<seq<Byte>>, k: nat)
    requires k < |parts|
    ensures Framed(parts[..k + 1]) == Framed(parts[..k]) + Wrapped(parts[k])
  {
    assert parts[..k + 1][..k] == parts[..k];
  }

  /** Wraps one bucket. The size line is printed into seven bytes, enough for a bucket of up to 65535. */
  method Wrap(b: Bucket) returns (hdr: Bucket, ghost ts: seq<Bucket>)
    requires |b.data| <= 65535 && b.bytesSent == 0
    modifies b`next
    ensures Chain(hdr, ts) && |ts| == 3 && ts[0] == hdr && fresh(hdr) && ts[1] == b && fresh(ts[2])
    ensures Slots(ts) == Wrapped(b.data)
  {
    SizeLineFits(|b.data|);
    var term := NewBucket(CRLF, null, []);
    ghost var tail := [term];
    assert [term] + [] == tail;
    assert Links([], b);
    Link(b, term, [], tail);
    assert [] + ([b] + tail) == [b] + tail && First([b] + tail) == b;
    hdr := NewBucket(SizeLine(|b.data|), b, [b] + tail);
    ts := [hdr] + ([b] + tail);
    SlotsCons(hdr, [b] + tail);
    SlotsCons(b, tail);
  }

  /** A chain of the given contents, made of owned and of new buckets. */
  ghost predicate Carries(head: Bucket?, bs: seq<Bucket>, ss: seq<Slot>)
    reads bs
  {
    Chain(head, bs) && Slots(bs) == ss
  }

  /** The framed chain so far, and the body still to be framed. */
  ghost predicate Framing(out: Bucket?, built: seq<Bucket>, current: Bucket?, body: seq<Bucket>, k: nat, ss: seq<Slot>)
    requires k <= |body| == |ss|
    reads built, body
  {
    && Carries(out, built, Framed(Datas(ss)[..k])) && Carries(current, body[k..], ss[k..]) && Apart(built, body[k..])
  }

  /** Frames the next bucket of the body. */
  method FrameNext(out: Bucket?, current: Bucket, ghost built: seq<Bucket>, ghost body: seq<Bucket>, ghost k: nat,
      ghost ss: seq<Slot>)
    returns (out': Bucket?, next: Bucket?, ghost ts: seq<Bucket>)
    requires k < |body| == |ss| && Framing(out, built, current, body, k, ss) && Sized(ss) && Untouched(ss)
    modifies current, if built == [] then {} else {built[|built| - 1]}
    ensures Framing(out', built + ts, next, body, k + 1, ss) && out' != null
    ensures |ts| == 3 && fresh(ts[0]) && ts[1] == current && fresh(ts[2])
  {
    FramingNext(out, current, built, body, k, ss);
    next := current.next;
    var hdr;
    hdr, ts := Wrap(current);
    ghost var rest := body[k + 1..];
    ThreeApart(built, ts, rest);
    assert Carries(out, built, Framed(Datas(ss)[..k])) && Carries(next, rest, ss[k + 1..]);
    assert built != [] ==> built[|built| - 1] in built && built[|built| - 1] !in rest;
    FramedSnoc(Datas(ss), k);
    out' := Onto(out, hdr, built, ts);
  }

  /** What framing needs to know about the next bucket. */
  lemma FramingNext(out: Bucket?, current: Bucket, built: seq<Bucket>, body: seq<Bucket>, k: nat, ss: seq<Slot>)
    requires k < |body| == |ss| && Framing(out, built, current, body, k, ss) && Sized(ss) && Untouched(ss)
    ensures current == body[k] && ss[k] == Slot(current.data, 0) && current.bytesSent == 0 && |current.data| <= 65535
    ensures current !in built && current !in body[k + 1..]
    ensures Carries(current.next, body[k + 1..], ss[k + 1..]) && Apart(built, body[k + 1..])
  {
    TailSlice(body, k);
    TailSlice(ss, k);
    FirstOff(current, body[k..], ss[k..], built);
  }

  lemma TailSlice<T>(s: seq<T>, k: nat)
    requires k < |s|
    ensures s[k..] != [] && s[k..][0] == s[k] && s[k..][1..] == s[k + 1..]
  {
  }

  lemma FirstOff(head: Bucket, bs: seq<Bucket>, ss: seq<Slot>, others: seq<Bucket>)
    requires bs != [] && Carries(head, bs, ss) && Apart(others, bs)
    ensures head == bs[0] && ss[0] == Slot(head.data, head.bytesSent) && head !in others && head !in bs[1..]
    ensures Carries(head.next, bs[1..], ss[1..]) && Apart(others, bs[1..])
  {
    Detach(head, bs, 0);
    assert bs[0] in bs && forall b :: b in bs[1..] ==> b in bs;
    assert Slots(bs[1..]) == Slots(bs)[1..];
  }

  lemma ThreeApart(built: seq<Bucket>, ts: seq<Bucket>, rest: seq<Bucket>)
    requires |ts| == 3 && Apart(built, rest)
    requires ts[0] !in built && ts[0] !in rest && ts[1] !in built && ts[1] !in rest && ts[2] !in built && ts[2] !in rest
    ensures Apart(built, ts) && Apart(built + ts, rest)
  {
    assert forall b :: b in ts ==> b == ts[0] || b == ts[1] || b == ts[2];
  }

  /** Buckets after those already to be sent, if there are any. */
  method Onto(out: Bucket?, more: Bucket?, ghost bs: seq<Bucket>, ghost ms: seq<Bucket>) returns (head: Bucket?)
    requires Chain(out, bs) && Chain(more, ms) && Apart(bs, ms)
    modifies if bs == [] then {} else {bs[|bs| - 1]}
    ensures Carries(head, bs + ms, old(Slots(bs)) + old(Slots(ms))) && (head != null <==> bs + ms != [])
  {
    assert bs != [] ==> bs[|bs| - 1] in bs && bs[|bs| - 1] !in ms;
    if out != null {
      var _ := Append(out, more, out, bs, 0, ms);
      head := out;
    } else {
      head := more;
      assert bs + ms == ms;
    }
    SlotsJoin(bs, ms);
  }

  /** The buckets of a framed chain are owned or new. */
  ghost predicate Known(built: seq<Bucket>, known: set<Bucket>) {
    forall i :: 0 <= i < |built| ==> built[i] in known
  }

  lemma LastKnown(built: seq<Bucket>, known: set<Bucket>, ts: seq<Bucket>)
    requires Known(built, known)
    ensures built != [] ==> built[|built| - 1] in known
    ensures Known(built + ts, known + set b | b in ts)
  {
    assert forall i :: 0 <= i < |ts| ==> ts[i] in ts;
  }

  method FrameKnown(out: Bucket?, current: Bucket, ghost built: seq<Bucket>, ghost body: seq<Bucket>, ghost k: nat,
                    ghost ss: seq<Slot>, ghost known: set<Bucket>)
    returns (out': Bucket?, next: Bucket?, ghost built': seq<Bucket>, ghost known': set<Bucket>)
    requires k < |body| == |ss| && Framing(out, built, current, body, k, ss) && Sized(ss) && Untouched(ss)
    requires Known(built, known) && body[k] in known
    modifies known
    ensures Framing(out', built', next, body, k + 1, ss) && out' != null
    ensures Known(built', known') && known <= known' && fresh(known' - known)
  {
    FramingNext(out, current, built, body, k, ss);
    LastKnown(built, known, []);
    ghost var ts;
    out', next, ts := FrameNext(out, current, built, body, k, ss);
    LastKnown(built, known, ts);
    built', known' := built + ts, known + set b | b in ts;
    assert forall b :: b in ts ==> b == ts[0] || b == ts[1] || b == ts[2];
  }

  /** The loop of ymo_http_response_body_get that frames a body bucket by bucket. */
  method FrameAll(bodyHead: Bucket?, ghost body: seq<Bucket>, ghost own: set<Bucket>)
    returns (out: Bucket?, ghost built: seq<Bucket>, ghost known: set<Bucket>)
    requires Chain(bodyHead, body) && Sized(Slots(body)) && Untouched(Slots(body)) && Net.Owned(body, own)
    modifies own
    ensures Carries(out, built, Framed(old(Datas(Slots(body))))) && (out != null <==> body != [])
    ensures Known(built, known) && fresh(known - own)
  {
    out, built, known := null, [], own;
    var current := bodyHead;
    ghost var ss, k := Slots(body), 0;
    FramingStarts(bodyHead, body, ss);
    while current != null
      invariant 0 <= k <= |body| && Framing(out, built, current, body, k, ss) && (out != null <==> k > 0)
      invariant Known(built, known) && own <= known && fresh(known - own)
      decreases |body| - k
    {
      assert body[k] in own;
      out, current, built, known := FrameKnown(out, current, built, body, k, ss, known);
      k := k + 1;
    }
    assert Datas(ss)[..k] == Datas(ss);
  }

  lemma FramingStarts(head: Bucket?, body: seq<Bucket>, ss: seq<Slot>)
    requires Chain(head, body) && ss == Slots(body)
    ensures Framing(null, [], head, body, 0, ss)
  {
    assert ss[0..] == ss && body[0..] == body && Datas(ss)[..0] == [];
  }

  // ---------------------------------------------------------------- the response as a value

  /** What does not change: the request's and the application's choices, and the serialized headers. */
  datatype Config = Config(supportsChunked: bool, ownLength: bool, ownEncoding: bool, head: seq<Byte>)

  /** The flags of a response, its Content-Length as set by the server, and its body data, part by part:
      what is already on the send buffer and what is not yet. */
  datatype Progress = Progress(ready: bool, started: bool, complete: bool, chunked: bool, chunkTerm: bool,
                               contentLen: nat, contentLength: Option<nat>,
                               taken: seq<seq<Byte>>, parts: seq<seq<Byte>>)

  /** Body data as it goes onto the send buffer. */
  function Payload(chunked: bool, parts: seq<seq<Byte>>): (s: seq<Byte>) {
    if chunked then Chunks(parts) else Concat(parts)
  }

  const Nothing := Progress(false, false, false, false, false, 0, None, [], [])

  function AllParts(p: Progress): (r: seq<seq<Byte>>) {
    p.taken + p.parts
  }

  predicate Auto(c: Config) {
    !c.ownLength && !c.ownEncoding
  }

  /** The body waits until it is complete: nothing says how long it is, and it may not be chunked. */
  predicate Waits(c: Config, p: Progress) {
    Auto(c) && !p.complete && !c.supportsChunked
  }

  /** The bytes put on the send buffer so far. */
  function Message(c: Config, p: Progress): (s: seq<Byte>) {
    if !p.started then []
    else if p.chunked then c.head + (Chunks(p.taken) + if p.chunkTerm then LAST_CHUNK else [])
    else c.head + Concat(p.taken)
  }

  /** What holds of a response between events. */
  ghost predicate Coherent(c: Config, p: Progress) {
    && (!p.started ==> p.taken == [] && !p.chunked && !p.chunkTerm && p.contentLength == None && p.contentLen == 0)
    && (p.chunked ==> c.supportsChunked && Auto(c) && p.contentLength == None)
    && (p.chunkTerm ==> p.chunked && p.complete && p.parts == [])
    && (p.started || p.complete ==> p.ready)
    && (p.started && !p.chunked && Auto(c) ==> p.complete && p.contentLength.Some?)
    && (p.contentLength.Some? ==> p.complete && p.contentLength.value == |Concat(AllParts(p))|)
    && c.head != []
  }

  function Appended(c: Config, p: Progress, more: seq<seq<Byte>>): (r: Progress) {
    p.(parts := p.parts + more, ready := p.ready || c.supportsChunked)
  }

  function Marked(p: Progress): (r: Progress) {
    p.(ready := true)
  }

  function Finished(p: Progress): (r: Progress) {
    p.(ready := true, complete := true)
  }

  /** The framing headers settled. */
  function Settled(c: Config, p: Progress): (r: Progress) {
    if !Auto(c) then p
    else if p.complete then Measured(p, p.contentLen + |Concat(p.parts)|)
    else p.(chunked := true)
  }

  function Measured(p: Progress, n: nat): (r: Progress) {
    p.(contentLen := n, contentLength := Some(n))
  }

  function Begun(c: Config, p: Progress): (r: Progress) {
    Settled(c, p).(started := true)
  }

  function Took(p: Progress): (r: Progress) {
    p.(taken := AllParts(p), parts := [])
  }

  predicate Ends(p: Progress) {
    p.complete && p.chunked && !p.chunkTerm
  }

  function Termed(p: Progress): (r: Progress) {
    if Ends(p) then p.(chunkTerm := true) else p
  }

  lemma AppendedCoherent(c: Config, p: Progress, more: seq<seq<Byte>>)
    requires Coherent(c, p) && !p.complete
    ensures Coherent(c, Appended(c, p, more)) && Message(c, Appended(c, p, more)) == Message(c, p)
    ensures AllParts(Appended(c, p, more)) == AllParts(p) + more
  {
  }

  lemma MarkedCoherent(c: Config, p: Progress)
    requires Coherent(c, p)
    ensures Coherent(c, Marked(p)) && Message(c, Marked(p)) == Message(c, p)
  {
  }

  lemma FinishedCoherent(c: Config, p: Progress)
    requires Coherent(c, p)
    ensures Coherent(c, Finished(p)) && Message(c, Finished(p)) == Message(c, p)
  {
  }

  lemma BegunCoherent(c: Config, p: Progress)
    requires Coherent(c, p) && p.ready && !p.started && !Waits(c, p)
    ensures Coherent(c, Begun(c, p)) && Message(c, Begun(c, p)) == c.head
    ensures AllParts(Begun(c, p)) == AllParts(p)
  {
    assert AllParts(p) == p.parts;
    assert c.head + [] == c.head && c.head + ([] + []) == c.head;
  }

  /** Body data, framed or not, goes after what is there. */
  lemma TookCoherent(c: Config, p: Progress)
    requires Coherent(c, p) && p.started
    ensures Coherent(c, Took(p)) && AllParts(Took(p)) == AllParts(p)
    ensures p.parts != [] ==> Message(c, Took(p)) == Message(c, p) + Payload(p.chunked, p.parts)
    ensures p.parts == [] ==> Took(p) == p
  {
    assert AllParts(p) + [] == AllParts(p);
    if p.parts == [] {
      assert AllParts(p) == p.taken;
    } else {
      ChunksSplit(p.taken, p.parts);
      ConcatSplit(p.taken, p.parts);
      Associative(c.head, Chunks(p.taken), Chunks(p.parts));
      Associative(c.head, Concat(p.taken), Concat(p.parts));
      assert Chunks(p.taken) + [] == Chunks(p.taken) && Chunks(AllParts(p)) + [] == Chunks(AllParts(p));
    }
  }

  lemma TermedCoherent(c: Config, p: Progress)
    requires Coherent(c, p) && p.parts == []
    ensures Coherent(c, Termed(p)) && AllParts(Termed(p)) == AllParts(p)
    ensures Message(c, Termed(p)) == Message(c, p) + (if Ends(p) then LAST_CHUNK else [])
  {
    if Ends(p) {
      Associative(c.head, Chunks(p.taken), LAST_CHUNK);
      assert Chunks(p.taken) + [] == Chunks(p.taken);
    }
  }

  lemma LengthSnoc(ds: seq<seq<Byte>>, k: nat)
    requires k < |ds|
    ensures |Concat(ds[..k + 1])| == |Concat(ds[..k])| + |ds[k]|
  {
    assert ds[..k + 1][..k] == ds[..k];
  }

  /** A body: a chain of untouched buckets, `tail` one of them. */
  ghost predicate BodyIs(head: Bucket?, tail: Bucket?, bs: seq<Bucket>, tailAt: nat, own: set<Bucket>)
    reads bs
  {
    && Chain(head, bs) && Untouched(Slots(bs)) && Net.Owned(bs, own)
    && (bs == [] ==> tail == null) && (bs != [] ==> tailAt < |bs| && tail == bs[tailAt])
  }

  /** More buckets after the last of a body. */
  method Longer(head: Bucket?, tail: Bucket?, data: Bucket, ghost bs: seq<Bucket>, ghost tailAt: nat,
      ghost own: set<Bucket>, ghost ds: seq<Bucket>, ghost others: set<Bucket>)
    returns (head': Bucket, tail': Bucket?, ghost bs': seq<Bucket>, ghost tailAt': nat)
    requires BodyIs(head, tail, bs, tailAt, own)
    requires Chain(data, ds) && Untouched(Slots(ds)) && Net.Owned(ds, others) && own !! others
    modifies own
    ensures BodyIs(head', tail', bs', tailAt', own + others)
    ensures Datas(Slots(bs')) == old(Datas(Slots(bs))) + old(Datas(Slots(ds)))
  {
    BodyJoin(Slots(bs), Slots(ds));
    BodyApart(bs, ds, own, others);
    if head == null {
      head', tail', bs', tailAt' := data, data, ds, 0;
      assert Slots(bs) + Slots(ds) == Slots(ds);
    } else {
      assert bs[|bs| - 1] in bs && bs[|bs| - 1] !in ds;
      ghost var was := Slots(ds);
      head' := head;
      tail' := Append(tail, data, head, bs, tailAt, ds);
      assert Slots(ds) == was;
      SlotsJoin(bs, ds);
      tailAt', bs' := |bs| + |ds| - 1, bs + ds;
    }
  }

  /** What is handed over for these parts: their bytes, none of them sent, and no bucket without any if no part is
      empty. */
  ghost predicate Hands(bss: seq<Slot>, chunked: bool, parts: seq<seq<Byte>>) {
    Sane(bss) && Unsent(bss) == Payload(chunked, parts) && (NoEmptyPart(parts) ==> Pending(bss))
  }

  /** ymo_http_response_body_get: the body as it is, or framed in chunks. */
  method BodyGet(bodyHead: Bucket, chunked: bool, ghost body: seq<Bucket>, ghost own: set<Bucket>)
    returns (out: Bucket, ghost built: seq<Bucket>, ghost bss: seq<Slot>)
    requires Chain(bodyHead, body) && Untouched(Slots(body)) && Net.Owned(body, own)
    requires chunked ==> Sized(Slots(body))
    modifies own
    ensures Carries(out, built, bss) && Hands(bss, chunked, old(Datas(Slots(body))))
    ensures forall i :: 0 <= i < |built| ==> built[i] in own || fresh(built[i])
  {
    ghost var ss := Slots(body);
    if chunked {
      var first;
      ghost var known;
      first, built, known := FrameAll(bodyHead, body, own);
      out, bss := first, Framed(Datas(ss));
      FramedPending(Datas(ss));
      FramedUnsent(Datas(ss));
    } else {
      out, built, bss := bodyHead, body, ss;
      PlainHands(ss);
    }
  }

  lemma PlainHands(ss: seq<Slot>)
    requires Untouched(ss)
    ensures Hands(ss, false, Datas(ss))
  {
    UntouchedUnsent(ss, |ss|);
    assert ss[..|ss|] == ss && Datas(ss)[..|ss|] == Datas(ss);
    forall i | 0 <= i < |ss| && NoEmptyPart(Datas(ss))
      ensures ss[i].sent < |ss[i].data|
    {
      assert Datas(ss)[i] != [];
    }
  }

  /** The chain handed over for these parts, if there are any. */
  ghost predicate Ready(out: Bucket?, built: seq<Bucket>, bss: seq<Slot>, chunked: bool, parts: seq<seq<Byte>>)
    reads built
  {
    (out == null <==> parts == []) && Carries(out, built, bss) && Hands(bss, chunked, parts)
  }

  method BodyOrNone(bodyHead: Bucket?, chunked: bool, ghost body: seq<Bucket>, ghost own: set<Bucket>)
    returns (out: Bucket?, ghost built: seq<Bucket>, ghost bss: seq<Slot>)
    requires Chain(bodyHead, body) && Untouched(Slots(body)) && Net.Owned(body, own)
    requires chunked ==> Sized(Slots(body))
    modifies own
    ensures Ready(out, built, bss, chunked, old(Datas(Slots(body))))
    ensures forall i :: 0 <= i < |built| ==> built[i] in own || fresh(built[i])
  {
    out, built, bss := null, [], [];
    if bodyHead != null {
      out, built, bss := BodyGet(bodyHead, chunked, body, own);
    }
  }

  // ---------------------------------------------------------------- ymo_http_response_t

  class Response {
    const config: Config
    var bodyHead: Bucket?
    var bodyTail: Bucket?
    var ready: bool
    var started: bool
    var complete: bool
    var chunked: bool
    var chunkTerm: bool
    var contentLen: nat
    var contentLength: Option<nat>  // the Content-Length header set by the server
    ghost var body: seq<Bucket>
    ghost var tailAt: nat
    ghost var own: set<Bucket>
    ghost var taken: seq<seq<Byte>>

    ghost predicate Valid()
      reads this`bodyHead, this`bodyTail, this`body, this`tailAt, this`own, body
    {
      BodyIs(bodyHead, bodyTail, body, tailAt, own)
    }

    ghost function Now(): (p: Progress)
      reads this, body
    {
      Progress(ready, started, complete, chunked, chunkTerm, contentLen, contentLength, taken, Datas(Slots(body)))
    }

    constructor (config: Config)
      ensures Valid() && Now() == Nothing && own == {} && this.config == config
    {
      this.config := config;
      bodyHead, bodyTail := null, null;
      ready, started, complete, chunked, chunkTerm := false, false, false, false, false;
      contentLen, contentLength := 0, None;
      body, tailAt, own, taken := [], 0, {}, [];
    }

    /** ymo_http_response_body_append. The tail pointer goes to the first bucket of a new body; appending
        looks for the end from there. */
    method BodyAppend(data: Bucket, ghost ds: seq<Bucket>, ghost others: set<Bucket>)
      requires Valid() && Chain(data, ds) && Untouched(Slots(ds))
      requires Net.Owned(ds, others) && others !! own
      modifies this`bodyHead, this`bodyTail, this`ready, this`body, this`tailAt, this`own, own
      ensures Valid() && own == old(own) + others
      ensures Now() == Appended(config, old(Now()), old(Datas(Slots(ds))))
    {
      var first, last;
      ghost var bs, at;
      first, last, bs, at := Longer(bodyHead, bodyTail, data, body, tailAt, own, ds, others);
      SetBody(first, last, bs, at, own + others);
      if config.supportsChunked {
        ready := true;
      }
    }

    method SetBody(first: Bucket?, last: Bucket?, ghost bs: seq<Bucket>, ghost at: nat, ghost owned: set<Bucket>)
      requires BodyIs(first, last, bs, at, owned)
      modifies this`bodyHead, this`bodyTail, this`body, this`tailAt, this`own
      ensures Valid() && body == bs && own == owned && Slots(bs) == old(Slots(bs))
    {
      bodyHead, bodyTail := first, last;
      body, tailAt, own := bs, at, owned;
    }

    /** ymo_http_response_ready. */
    method MarkReady()
      requires Valid()
      modifies this`ready
      ensures Valid() && Now() == Marked(old(Now()))
    {
      ready := true;
    }

    /** ymo_http_response_finish. */
    method Finish()
      requires Valid()
      modifies this`ready, this`complete
      ensures Valid() && Now() == Finished(old(Now()))
    {
      ready, complete := true, true;
    }

    /** should_buffer_body: whether the body must wait; otherwise the framing headers are settled. */
    method ShouldBufferBody() returns (buffer: bool)
      requires Valid()
      modifies this`contentLen, this`contentLength, this`chunked
      ensures Valid() && buffer == Waits(config, old(Now()))
      ensures buffer <==> !config.ownLength && !config.ownEncoding && !complete && !config.supportsChunked
      ensures chunked <==> old(chunked) || (!config.ownLength && !config.ownEncoding && !complete && !buffer)
      ensures Now() == if buffer then old(Now()) else Settled(config, old(Now()))
    {
      if config.ownLength || config.ownEncoding {
        return false;
      }
      if complete {
        SetLength();
        return false;
      } else if config.supportsChunked {
        chunked := true;
        return false;
      }
      buffer := true;
    }

    /** The Content-Length header, from the lengths of the body buckets. */
    method SetLength()
      requires Valid()
      modifies this`contentLen, this`contentLength
      ensures Valid() && Now() == Measured(old(Now()), old(contentLen) + |Concat(old(Now()).parts)|)
    {
      var sum := SumBody();
      contentLen := contentLen + sum;
      contentLength := Some(contentLen);
    }

    /** The sum of the body buckets' lengths. */
    method SumBody() returns (sum: nat)
      requires Valid()
      ensures sum == |Concat(Datas(Slots(body)))|
    {
      sum := 0;
      var bodyData := bodyHead;
      ghost var ds, k := Datas(Slots(body)), 0;
      assert ds[..0] == [];
      while bodyData != null
        invariant 0 <= k <= |body| && bodyData == At(body, k, null) && sum == |Concat(ds[..k])|
        decreases |body| - k
      {
        LengthSnoc(ds, k);
        Follow(bodyHead, body, k);
        sum := sum + |bodyData.data|;
        bodyData := bodyData.next;
        k := k + 1;
      }
      assert ds[..k] == ds;
    }

    /** ymo_http_response_body_get. */
    method TakeBody() returns (out: Bucket?, ghost built: seq<Bucket>, ghost bss: seq<Slot>)
      requires Valid() && (chunked ==> Sized(Slots(body)))
      modifies this`bodyHead, this`bodyTail, this`body, this`tailAt, this`own, this`taken, own
      ensures Valid() && own == {} && Now() == Took(old(Now()))
      ensures Ready(out, built, bss, chunked, old(Now()).parts)
      ensures forall i :: 0 <= i < |built| ==> built[i] in old(own) || fresh(built[i])
    {
      ghost var parts := Datas(Slots(body));
      out, built, bss := BodyOrNone(bodyHead, chunked, body, own);
      SetBody(null, null, [], 0, {});
      taken := taken + parts;
      assert Datas(Slots([])) == [];
    }
  }

  // ---------------------------------------------------------------- the session's send buffer

  lemma BooksMore(wire: seq<Byte>, ss: seq<Slot>, more: seq<Slot>, queued: seq<Byte>)
    requires Net.Books(wire, ss, queued) && Sane(more)
    ensures Net.Books(wire, ss + more, queued + Unsent(more))
  {
    UnsentSplit(ss, more);
    Associative(wire, Unsent(ss), Unsent(more));
  }

  lemma OwnedMore(bs: seq<Bucket>, ms: seq<Bucket>, own: set<Bucket>)
    requires Net.Owned(bs, own)
    ensures Net.Owned(bs + ms, own + set b | b in ms)
  {
    assert forall i :: 0 <= i < |ms| ==> ms[i] in ms;
  }

  lemma PendingJoin(xs: seq<Slot>, ys: seq<Slot>)
    requires Pending(xs) && Pending(ys)
    ensures Pending(xs + ys)
  {
  }

  lemma BytesUnsent(data: seq<Byte>)
    ensures Unsent([Slot(data, 0)]) == data
  {
    UnsentCons(Slot(data, 0), []);
    assert [Slot(data, 0)] + [] == [Slot(data, 0)];
  }

  lemma BodyJoin(xs: seq<Slot>, ys: seq<Slot>)
    requires Untouched(xs) && Untouched(ys)
    ensures Untouched(xs + ys) && Datas(xs + ys) == Datas(xs) + Datas(ys)
  {
  }

  lemma BodyApart(bs: seq<Bucket>, ds: seq<Bucket>, own: set<Bucket>, others: set<Bucket>)
    requires Net.Owned(bs, own) && Net.Owned(ds, others) && own !! others
    ensures Apart(bs, ds) && Net.Owned(bs + ds, own + others)
  {
    forall b | b in bs
      ensures b !in ds
    {
      assert b in own;
    }
  }

  /** ymo_http_session_t, as far as sending goes. */
  class Session {
    var sendBuffer: Bucket?
    const sock: Net.Socket
    ghost var chain: seq<Bucket>
    ghost var own: set<Bucket>
    ghost var queued: seq<Byte>

    ghost predicate Valid()
      reads this, sock, chain
    {
      Sending(sendBuffer, chain, own, sock, queued)
    }

    constructor ()
      ensures Valid() && fresh(sock) && own == {} && queued == [] && chain == []
    {
      sendBuffer := null;
      sock := new Net.Socket();
      chain, own, queued := [], {}, [];
    }

    /** Buckets go onto the end of the send buffer. */
    method Push(more: Bucket, ghost ms: seq<Bucket>, ghost mss: seq<Slot>)
      requires Valid() && Carries(more, ms, mss) && Apart(chain, ms) && Pending(mss)
      modifies this, own
      ensures Valid() && chain == old(chain) + ms && own == old(own) + (set b | b in ms)
      ensures queued == old(queued) + Unsent(mss)
    {
      ghost var now, owned, all := chain + ms, own + (set b | b in ms), queued + Unsent(mss);
      var first := OntoBooks(sendBuffer, more, chain, ms, mss, own, sock, queued, now, owned, all);
      sendBuffer := first;
      chain, own, queued := now, owned, all;
    }

    /** A bucket of these bytes goes onto the end of the send buffer. */
    method PushBytes(data: seq<Byte>)
      requires Valid() && data != []
      modifies this, own
      ensures Valid() && chain != [] && queued == old(queued) + data && fresh(own - old(own)) && old(own) <= own
    {
      var b := NewBucket(data, null, []);
      assert [b] + [] == [b];
      BytesUnsent(data);
      Push(b, [b], [Slot(data, 0)]);
    }

    /** ymo_conn_send_buckets on the send buffer. With nothing to send it fails with EBADMSG, and otherwise only
        if the socket does. */
    method Flush() returns (status: Status)
      requires Valid()
      modifies this`sendBuffer, this`chain, sock, own
      ensures Valid() && (status == OKAY ==> chain == [] && sock.wire == queued)
      ensures if old(chain) == [] then status == EBADMSG && chain == []
              else (status == OKAY <==> chain == []) && (status == OKAY || status == sock.errno)
    {
      var first;
      ghost var rest;
      first, status, rest := Net.ConnSendBuckets(sock, sendBuffer, chain, own, queued);
      sendBuffer, chain := first, rest;
      assert rest == [] ==> Slots(rest) == [] && sock.wire + [] == sock.wire;
    }
  }

  ghost predicate Sending(head: Bucket?, bs: seq<Bucket>, own: set<Bucket>, sock: Net.Socket, queued: seq<Byte>)
    reads sock, bs
  {
    Net.Holds(head, bs, own, sock, queued) && Pending(Slots(bs))
  }

  method OntoBooks(out: Bucket?, more: Bucket, ghost bs: seq<Bucket>, ghost ms: seq<Bucket>, ghost mss: seq<Slot>,
                   ghost own: set<Bucket>, ghost sock: Net.Socket, ghost queued: seq<Byte>,
                   ghost now: seq<Bucket>, ghost owned: set<Bucket>, ghost all: seq<Byte>)
    returns (head: Bucket?)
    requires now == bs + ms && owned == own + (set b | b in ms) && all == queued + Unsent(mss)
    requires Sending(out, bs, own, sock, queued) && Carries(more, ms, mss) && Apart(bs, ms) && Pending(mss)
    modifies own
    ensures Sending(head, now, owned, sock, all)
  {
    BooksMore(sock.wire, Slots(bs), mss, queued);
    OwnedMore(bs, ms, own);
    PendingJoin(Slots(bs), mss);
    assert bs != [] ==> bs[|bs| - 1] in own;
    head := Onto(out, more, bs, ms);
  }
}
