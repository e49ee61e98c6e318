/** Sending one HTTP response: the header, body, terminal chunk and send steps of the write callback of
    src/protocol/http/ymo_proto_http.c, and whole runs of a response. */
module HttpWrite {
  import opened Bytes
  import opened Buckets
  import opened Common
  import opened ChunkSpec
  import opened HttpResponse

  // ---------------------------------------------------------------- the write callback

  /** A write event gets as far as sending: the response is ready, and has been started or need not wait. */
  predicate Proceeds(c: Config, p: Progress) {
    p.ready && (p.started || !Waits(c, p))
  }

  function Opened(c: Config, p: Progress): (r: Progress) {
    if p.started then p else Begun(c, p)
  }

  /** What a write callback does to a response, whatever the socket takes. */
  function Wrote(c: Config, p: Progress): (r: Progress) {
    if Proceeds(c, p) then Termed(Took(Opened(c, p))) else p
  }

  predicate Short(parts: seq<seq<Byte>>) {
    forall i :: 0 <= i < |parts| ==> |parts[i]| <= 65535
  }

  /** Parts that a write event would frame have size lines that fit. */
  predicate Fits(c: Config, p: Progress) {
    Proceeds(c, p) && Opened(c, p).chunked ==> Short(p.parts)
  }

  /** A started response with nothing new to queue: no body data, and no terminal chunk due. */
  predicate Idle(p: Progress) {
    p.started && p.parts == [] && !Ends(p)
  }

  /** Between events: what has been queued is the message so far, nothing has been before the start, and no
      part that waits is empty. */
  ghost predicate Kept(c: Config, p: Progress, queued: seq<Byte>, none: bool) {
    Coherent(c, p) && queued == Message(c, p) && (!p.started ==> none) && NoEmptyPart(p.parts)
  }

  /** A response and the session that sends it. */
  ghost predicate Paired(r: Response, s: Session)
    reads r, r.body, s, s.sock, s.chain
  {
    Together(r, s) && Kept(r.config, r.Now(), s.queued, s.chain == [])
  }

  ghost predicate Together(r: Response, s: Session)
    reads r, r.body, s, s.sock, s.chain
  {
    r.Valid() && s.Valid() && r.own !! s.own
  }

  /** There is nothing to queue and nothing to send. */
  ghost predicate Spent(r: Response, s: Session)
    reads r, r.body, s
  {
    Idle(r.Now()) && s.chain == []
  }

  /** The serialized headers, once the framing is settled. */
  method SendHead(r: Response, s: Session, ghost p: Progress)
    requires Together(r, s) && Kept(r.config, p, s.queued, s.chain == []) && r.Now() == Settled(r.config, p)
    requires p.ready && !p.started && !Waits(r.config, p)
    modifies r`started, s, s.own
    ensures Paired(r, s) && r.own == old(r.own) && fresh(s.own - old(s.own))
    ensures r.Now() == Begun(r.config, p) && s.chain != []
  {
    BegunCoherent(r.config, p);
    s.PushBytes(r.config.head);
    r.started := true;
  }

  /** The headers, unless they have been queued before or the body must wait. */
  method Start(r: Response, s: Session) returns (waits: bool)
    requires Paired(r, s) && r.ready
    modifies r`contentLen, r`contentLength, r`chunked, r`started, s, s.own
    ensures Paired(r, s) && r.own == old(r.own) && fresh(s.own - old(s.own))
    ensures waits == (!old(r.started) && Waits(r.config, old(r.Now())))
    ensures r.Now() == if waits then old(r.Now()) else Opened(r.config, old(r.Now()))
    ensures if waits || old(r.started) then s.chain == old(s.chain) && unchanged(s) else s.chain != []
  {
    waits := false;
    if !r.started {
      ghost var p := r.Now();
      waits := r.ShouldBufferBody();
      if !waits {
        SendHead(r, s, p);
      }
    }
  }

  lemma ShortSized(ss: seq<Slot>)
    requires Short(Datas(ss))
    ensures Sized(ss)
  {
    forall i | 0 <= i < |ss|
      ensures |ss[i].data| <= 65535
    {
      assert |Datas(ss)[i]| <= 65535;
    }
  }

  /** The body data there is. */
  method AddBody(r: Response, s: Session)
    requires Paired(r, s) && r.started && (r.chunked ==> Short(r.Now().parts))
    modifies r`bodyHead, r`bodyTail, r`body, r`tailAt, r`own, r`taken, r.own, s, s.own
    ensures Paired(r, s) && r.own == {} && fresh(s.own - old(s.own) - old(r.own))
    ensures r.Now() == Took(old(r.Now())) && (s.chain == [] <==> old(s.chain) == [] && old(r.Now()).parts == [])
  {
    TookCoherent(r.config, r.Now());
    ghost var was, mine := s.own, r.own;
    if r.chunked { ShortSized(Slots(r.body)); }
    var out;
    ghost var built, bss;
    out, built, bss := r.TakeBody();
    if out != null {
      s.Push(out, built, bss);
    }
  }

  /** The terminal chunk, once the body is complete. */
  method AddLastChunk(r: Response, s: Session)
    requires Paired(r, s) && r.started && r.Now().parts == []
    modifies r`chunkTerm, s, s.own
    ensures Paired(r, s) && r.own == old(r.own) && fresh(s.own - old(s.own))
    ensures r.Now() == Termed(old(r.Now())) && (s.chain == [] <==> old(s.chain) == [] && !Ends(old(r.Now())))
  {
    TermedCoherent(r.config, r.Now());
    if r.complete && r.chunked && !r.chunkTerm {
      s.PushBytes(LAST_CHUNK);
      r.chunkTerm := true;
    }
  }

  method AddRest(r: Response, s: Session)
    requires Paired(r, s) && r.started && (r.chunked ==> Short(r.Now().parts))
    modifies r, r.own, s, s.own
    ensures Paired(r, s) && fresh(s.own - old(s.own) - old(r.own)) && r.own == {}
    ensures r.Now() == Termed(Took(old(r.Now()))) && (s.chain == [] <==> old(Spent(r, s)))
  {
    AddBody(r, s);
    AddLastChunk(r, s);
  }

  /** Body data and terminal chunk, and all of it to the socket as far as it takes it. */
  method SendOn(r: Response, s: Session) returns (status: Status, ghost offered: seq<Slot>)
    requires Paired(r, s) && r.started && (r.chunked ==> Short(r.Now().parts))
    modifies r, r.own, s, s.own, s.sock
    ensures Paired(r, s) && fresh(s.own - old(s.own) - old(r.own)) && r.own == {}
    ensures r.Now() == Termed(Took(old(r.Now())))
    ensures status == OKAY ==> s.sock.wire == s.queued
    ensures s.queued == old(s.sock.wire) + Unsent(offered) && (Net.CanSend(offered) <==> !old(Spent(r, s)))
    ensures if old(Spent(r, s)) then status == EBADMSG && s.chain == []
            else (status == OKAY <==> s.chain == []) && (status == OKAY || status == s.sock.errno)
  {
    AddRest(r, s);
    offered := Slots(s.chain);
    Net.SendableExactly(offered);
    status := s.Flush();
  }

  /** ymo_proto_http_write, for one response; `offered` is what it tries to send. `done` says that the response
      has been sent completely. With nothing to queue or send a write fails with EBADMSG, whatever the socket
      does; otherwise all can be sent, and it fails only if the socket does. */
  method Write(r: Response, s: Session) returns (status: Status, done: bool, ghost offered: seq<Slot>)
    requires Paired(r, s) && Fits(r.config, r.Now())
    modifies r, r.own, s, s.own, s.sock
    ensures Paired(r, s) && fresh(s.own - old(s.own) - old(r.own)) && r.own <= old(r.own)
    ensures r.Now() == Wrote(r.config, old(r.Now()))
    ensures done <==> Proceeds(r.config, old(r.Now())) && status == OKAY && r.complete
    ensures done ==> AllSent(r.Now()) && s.sock.wire == s.queued
    ensures !Proceeds(r.config, old(r.Now())) ==> status == OKAY && s.chain == old(s.chain) && unchanged(s.sock)
    ensures Proceeds(r.config, old(r.Now())) ==>
              && s.queued == old(s.sock.wire) + Unsent(offered) && (Net.CanSend(offered) <==> !old(Spent(r, s)))
              && (status == OKAY ==> s.sock.wire == s.queued)
              && if old(Spent(r, s)) then status == EBADMSG && s.chain == [] && r.Now() == old(r.Now())
                 else (status == OKAY <==> s.chain == []) && (status == OKAY || status == s.sock.errno)
  {
    status, done, offered := OKAY, false, [];
    ghost var p := r.Now();
    WroteCoherent(r.config, p);
    if r.ready {
      var waits := Start(r, s);
      if !waits {
        status, offered := SendOn(r, s);
        done := status == OKAY && r.complete;
      }
    }
  }

  /** Nothing of the response is left to be queued. */
  predicate AllSent(p: Progress) {
    p.started && p.complete && p.parts == [] && (p.chunked ==> p.chunkTerm)
  }

  // ---------------------------------------------------------------- whole runs

  /** What can happen to a response: the application adds body data, marks it as ready or ends it, or the socket
      is writable. */
  datatype Event = AddData(parts: seq<seq<Byte>>) | MarkReady | Finish | Writable

  predicate Ended(events: seq<Event>) {
    exists i :: 0 <= i < |events| && events[i] == Finish
  }

  /** All the body data of a run, in order. */
  function AppendedBy(events: seq<Event>): (parts: seq<seq<Byte>>) {
    if events == [] then []
    else AppendedBy(events[..|events| - 1])
         + (var e := events[|events| - 1]; if e.AddData? then e.parts else [])
  }

  function Next(c: Config, p: Progress, e: Event): (r: Progress) {
    match e
    case AddData(parts) => Appended(c, p, parts)
    case MarkReady => Marked(p)
    case Finish => Finished(p)
    case Writable => Wrote(c, p)
  }

  function After(c: Config, events: seq<Event>): (p: Progress) {
    if events == [] then Nothing else Next(c, After(c, events[..|events| - 1]), events[|events| - 1])
  }

  /** Body buckets are not empty, those that are framed have size lines that fit, and the application adds and
      ends nothing once it has finished. */
  predicate Allowed(c: Config, before: seq<Event>, e: Event) {
    && (e.AddData? ==> e.parts != [] && NoEmptyPart(e.parts))
    && (e.AddData? || e.Finish? ==> !Ended(before))
    && (e.Writable? ==> Fits(c, After(c, before)))
  }

  predicate Proper(c: Config, events: seq<Event>) {
    forall i {:trigger Allowed(c, events[..i], events[i])} ::
      0 <= i < |events| ==> Allowed(c, events[..i], events[i])
  }

  lemma ProperSnoc(c: Config, before: seq<Event>, e: Event)
    ensures Proper(c, before + [e]) <==> Proper(c, before) && Allowed(c, before, e)
    ensures After(c, before + [e]) == Next(c, After(c, before), e)
  {
    var events := before + [e];
    assert events[..|before|] == before;
    assert forall i :: 0 <= i < |before| ==> events[..i] == before[..i] && events[i] == before[i];
    if Proper(c, events) {
      assert Allowed(c, events[..|before|], events[|before|]);
      forall i | 0 <= i < |before|
        ensures Allowed(c, before[..i], before[i])
      {
        assert Allowed(c, events[..i], events[i]);
      }
    }
  }

  lemma {:induction false} ProperPrefix(c: Config, events: seq<Event>, more: seq<Event>)
    requires Proper(c, events + more)
    ensures Proper(c, events)
    decreases |more|
  {
    if more == [] {
      assert events + more == events;
    } else {
      var init := more[..|more| - 1];
      assert events + more == (events + init) + [more[|more| - 1]];
      ProperSnoc(c, events + init, more[|more| - 1]);
      ProperPrefix(c, events, init);
    }
  }

  lemma WroteCoherent(c: Config, p: Progress)
    requires Coherent(c, p)
    ensures Coherent(c, Wrote(c, p)) && AllParts(Wrote(c, p)) == AllParts(p) && Wrote(c, p).complete == p.complete
    ensures p.complete ==> AllSent(Wrote(c, p))
    ensures Idle(p) ==> Wrote(c, p) == p
  {
    if Proceeds(c, p) {
      if !p.started { BegunCoherent(c, p); }
      var b := Opened(c, p);
      TookCoherent(c, b);
      TermedCoherent(c, Took(b));
    }
  }

  /** In every run the response is coherent and holds exactly the data that was added, taken or not. */
  lemma {:induction false} RunKept(c: Config, events: seq<Event>)
    requires Proper(c, events) && c.head != []
    ensures Coherent(c, After(c, events)) && AllParts(After(c, events)) == AppendedBy(events)
    ensures NoEmptyPart(AppendedBy(events)) && (After(c, events).complete <==> Ended(events))
  {
    if events != [] {
      var before, e := events[..|events| - 1], events[|events| - 1];
      assert events == before + [e];
      ProperSnoc(c, before, e);
      RunKept(c, before);
      EndedSnoc(before, e, events);
      NextCoherent(c, After(c, before), e);
    }
  }

  lemma NextCoherent(c: Config, p: Progress, e: Event)
    requires Coherent(c, p) && (e.AddData? ==> !p.complete)
    ensures Coherent(c, Next(c, p, e)) && (Next(c, p, e).complete <==> p.complete || e == Finish)
    ensures AllParts(Next(c, p, e)) == AllParts(p) + if e.AddData? then e.parts else []
  {
    assert AllParts(p) + [] == AllParts(p);
    match e
    case AddData(parts) => AppendedCoherent(c, p, parts);
    case MarkReady => MarkedCoherent(c, p);
    case Finish => FinishedCoherent(c, p);
    case Writable => WroteCoherent(c, p);
  }

  lemma EndedSnoc(before: seq<Event>, e: Event, events: seq<Event>)
    requires events == before + [e]
    ensures Ended(events) <==> Ended(before) || e == Finish
  {
    assert events[|before|] == e;
    assert Ended(before) ==> Ended(events) by {
      if Ended(before) {
        var i :| 0 <= i < |before| && before[i] == Finish;
        assert events[i] == Finish;
      }
    }
  }

  /** Once the response is complete, one write queues all that is missing. */
  lemma WrittenWhole(c: Config, events: seq<Event>)
    requires Proper(c, events) && c.head != [] && Ended(events)
    ensures AllSent(After(c, events + [Writable]))
  {
    RunKept(c, events);
    WroteCoherent(c, After(c, events));
    ProperSnoc(c, events, Writable);
  }

  /** What a client gets from the bytes of a whole response: the headers, and a body. If it is chunked,
      section 4.1 of RFC 7230 gives the data back, with one terminal chunk, at the end; if not, the body is the
      data, and if the application has not set a length or an encoding, Content-Length is its length. */
  predicate Delivers(c: Config, p: Progress, data: seq<Byte>, wire: seq<Byte>) {
    |c.head| <= |wire| && wire[..|c.head|] == c.head &&
    (var body := wire[|c.head|..];
     && (p.chunked ==> Decode(body, []) == Whole(data, []))
     && (!p.chunked ==> body == data)
     && (!p.chunked && Auto(c) ==> p.contentLength == Some(|body|)))
  }

  /** The message of a whole response delivers all the data added, in order. */
  lemma WholeMessage(c: Config, events: seq<Event>)
    requires Proper(c, events) && c.head != [] && AllSent(After(c, events))
    ensures Delivers(c, After(c, events), Concat(AppendedBy(events)), Message(c, After(c, events)))
  {
    RunKept(c, events);
    var p := After(c, events);
    assert AllParts(p) == p.taken;
    var body := if p.chunked then Chunks(p.taken) + LAST_CHUNK else Concat(p.taken);
    assert (c.head + body)[..|c.head|] == c.head && (c.head + body)[|c.head|..] == body;
    FramedDecodes(p.taken);
  }

  lemma SameTail(head: seq<Byte>, xs: seq<Byte>, ys: seq<Byte>)
    requires head + xs == head + ys
    ensures xs == ys
  {
    assert (head + xs)[|head|..] == xs && (head + ys)[|head|..] == ys;
  }

  /** Before that, what has been queued of a chunked body decodes to a beginning of the added data, unended. */
  lemma PartialMessage(c: Config, events: seq<Event>, body: seq<Byte>)
    requires Proper(c, events) && c.head != []
    requires After(c, events).chunked && !After(c, events).chunkTerm
    requires Message(c, After(c, events)) == c.head + body
    ensures Decode(body, []) == Part(Concat(After(c, events).taken))
    ensures After(c, events).taken <= AppendedBy(events)
  {
    RunKept(c, events);
    var p := After(c, events);
    assert Chunks(p.taken) + [] == Chunks(p.taken);
    SameTail(c.head, body, Chunks(p.taken));
    assert forall i :: 0 <= i < |p.taken| ==> p.taken[i] == AllParts(p)[i];
    FramedDecodes(p.taken);
  }

  /** Only what starts before it ends is chunked. */
  lemma {:induction false} NotChunkedLater(c: Config, ended: seq<Event>, ys: seq<Event>)
    requires Proper(c, ended + ys) && c.head != [] && Ended(ended) && !After(c, ended).chunked
    ensures !After(c, ended + ys).chunked
    decreases |ys|
  {
    if ys == [] {
      assert ended + ys == ended;
    } else {
      var before, e := ended + ys[..|ys| - 1], ys[|ys| - 1];
      assert ended + ys == before + [e];
      ProperSnoc(c, before, e);
      EndedMore(ended, ys[..|ys| - 1]);
      NotChunkedLater(c, ended, ys[..|ys| - 1]);
      RunKept(c, before);
    }
  }

  lemma EndedMore(events: seq<Event>, more: seq<Event>)
    requires Ended(events)
    ensures Ended(events + more)
  {
    var i :| 0 <= i < |events| && events[i] == Finish;
    assert (events + more)[i] == Finish;
  }

  /** A response that ends before it starts is not chunked; once started it has the length of all its data. */
  lemma EndedBeforeStart(c: Config, xs: seq<Event>, ys: seq<Event>)
    requires Proper(c, (xs + [Finish]) + ys) && c.head != [] && Auto(c) && !After(c, xs).started
    ensures var p := After(c, (xs + [Finish]) + ys);
            !p.chunked && (p.started ==> p.contentLength == Some(|Concat(AppendedBy((xs + [Finish]) + ys))|))
  {
    var ended := xs + [Finish];
    ProperPrefix(c, ended, ys);
    ProperSnoc(c, xs, Finish);
    RunKept(c, xs);
    EndedSnoc(xs, Finish, ended);
    NotChunkedLater(c, ended, ys);
    RunKept(c, ended + ys);
  }

  // ---------------------------------------------------------------- when a response goes out

  /** Something has made the response ready: a call to that effect, its end, or data for a client that supports
      chunking. */
  ghost predicate MadeReady(c: Config, events: seq<Event>) {
    exists i :: 0 <= i < |events| && MakesReady(c, events[i])
  }

  predicate MakesReady(c: Config, e: Event) {
    e.MarkReady? || e.Finish? || (e.AddData? && c.supportsChunked)
  }

  /** A write may send something: the response is ready, and its framing can be settled. */
  ghost predicate MayGoOut(c: Config, events: seq<Event>) {
    MadeReady(c, events) && (c.supportsChunked || c.ownLength || c.ownEncoding || Ended(events))
  }

  lemma MadeReadySnoc(c: Config, before: seq<Event>, e: Event, events: seq<Event>)
    requires events == before + [e]
    ensures MadeReady(c, events) <==> MadeReady(c, before) || MakesReady(c, e)
  {
    assert events[|before|] == e;
    if MadeReady(c, before) {
      var i :| 0 <= i < |before| && MakesReady(c, before[i]);
      assert events[i] == before[i];
    }
  }

  /** The ready flag is what the events have made it. */
  lemma {:induction false} ReadyExactly(c: Config, events: seq<Event>)
    ensures After(c, events).ready <==> MadeReady(c, events)
    ensures After(c, events).complete <==> Ended(events)
  {
    if events != [] {
      var before, e := events[..|events| - 1], events[|events| - 1];
      assert events == before + [e];
      ReadyExactly(c, before);
      MadeReadySnoc(c, before, e, events);
      EndedSnoc(before, e, events);
      WroteKeepsReady(c, After(c, before));
    }
  }

  lemma WroteKeepsReady(c: Config, p: Progress)
    ensures Wrote(c, p).ready == p.ready && Wrote(c, p).complete == p.complete
  {
  }

  /** A write event with some events before it, after which a write may send something. */
  ghost predicate Sends(c: Config, events: seq<Event>, i: nat) {
    i < |events| && events[i] == Writable && MayGoOut(c, events[..i])
  }

  lemma SendsSnoc(c: Config, before: seq<Event>, e: Event, events: seq<Event>, i: nat)
    requires events == before + [e]
    ensures Sends(c, events, i) <==> Sends(c, before, i) || (i == |before| && e == Writable && MayGoOut(c, before))
  {
    if i < |before| {
      assert events[..i] == before[..i];
    } else if i == |before| {
      assert events[..i] == before;
    }
  }

  /** A response is started exactly if a write has come when something may go out: as long as it has no length
      or encoding of its own, its client supports no chunking and it has not ended, it waits. */
  lemma {:induction false} StartedExactly(c: Config, events: seq<Event>)
    ensures After(c, events).started <==> exists i: nat :: Sends(c, events, i)
  {
    if events != [] {
      var before, e := events[..|events| - 1], events[|events| - 1];
      assert events == before + [e];
      StartedExactly(c, before);
      ReadyExactly(c, before);
      forall i: nat
        ensures Sends(c, events, i) <==> Sends(c, before, i) || (i == |before| && e == Writable && MayGoOut(c, before))
      {
        SendsSnoc(c, before, e, events, i);
      }
      if e == Writable && MayGoOut(c, before) {
        assert Sends(c, events, |before|);
      }
    }
  }

  lemma {:induction false} MayGoOutLater(c: Config, events: seq<Event>, i: nat)
    requires i <= |events| && MayGoOut(c, events[..i])
    ensures MayGoOut(c, events)
  {
    var j :| 0 <= j < i && MakesReady(c, events[..i][j]);
    assert MakesReady(c, events[j]);
    if Ended(events[..i]) {
      var k :| 0 <= k < i && events[..i][k] == Finish;
      assert events[k] == Finish;
    }
  }

  /** A write hands over all the data there is if something may go out, and changes nothing if not. */
  lemma GoesOut(c: Config, events: seq<Event>)
    requires Proper(c, events + [Writable]) && c.head != []
    ensures var p := After(c, events + [Writable]);
            if MayGoOut(c, events) then p.started && p.taken == AppendedBy(events) && p.parts == []
            else p == After(c, events) && !p.started
  {
    ProperSnoc(c, events, Writable);
    RunKept(c, events);
    RunKept(c, events + [Writable]);
    ReadyExactly(c, events);
    StartedExactly(c, events);
    var p := After(c, events);
    if p.started {
      var i: nat :| Sends(c, events, i);
      MayGoOutLater(c, events, i);
    }
    WroteCoherent(c, p);
    assert AllParts(Wrote(c, p)) == AppendedBy(events);
    assert AppendedBy(events + [Writable]) == AppendedBy(events) + [] by {
      assert (events + [Writable])[..|events|] == events;
    }
    assert MayGoOut(c, events) ==> Wrote(c, p).parts == [] && AllParts(Wrote(c, p)) == Wrote(c, p).taken;
  }

  lemma {:induction false} DataMakesReady(c: Config, events: seq<Event>)
    requires c.supportsChunked && AppendedBy(events) != []
    ensures MadeReady(c, events)
  {
    var before, e := events[..|events| - 1], events[|events| - 1];
    assert events == before + [e];
    MadeReadySnoc(c, before, e, events);
    if !e.AddData? {
      assert AppendedBy(events) == AppendedBy(before) + [];
      DataMakesReady(c, before);
    }
  }

  /** Data added before the end for a client that supports chunking, with no length or encoding set, goes out
      chunked with the next write. */
  lemma StreamsAsAdded(c: Config, events: seq<Event>)
    requires Proper(c, events + [Writable]) && c.head != []
    requires c.supportsChunked && !c.ownLength && !c.ownEncoding && AppendedBy(events) != [] && !Ended(events)
    ensures var p := After(c, events + [Writable]);
            p.started && p.chunked && p.taken == AppendedBy(events)
            && Message(c, p) == c.head + Chunks(AppendedBy(events))
  {
    DataMakesReady(c, events);
    GoesOut(c, events);
    ReadyExactly(c, events + [Writable]);
    EndedSnoc(events, Writable, events + [Writable]);
    RunKept(c, events + [Writable]);
    assert Chunks(AppendedBy(events)) + [] == Chunks(AppendedBy(events));
  }

  /** A response is chunked exactly if its client supports that, the application has set neither length nor
      encoding, and a write has come while it was ready and had not ended. */
  lemma {:induction false} ChunkedExactly(c: Config, events: seq<Event>)
    requires Proper(c, events) && c.head != []
    ensures After(c, events).chunked <==>
              && c.supportsChunked && !c.ownLength && !c.ownEncoding
              && exists i: nat :: Sends(c, events, i) && !Ended(events[..i])
  {
    if events != [] {
      var before, e := events[..|events| - 1], events[|events| - 1];
      assert events == before + [e];
      ProperSnoc(c, before, e);
      ChunkedExactly(c, before);
      ReadyExactly(c, before);
      RunKept(c, before);
      forall i: nat
        ensures Sends(c, events, i) && !Ended(events[..i]) <==>
                  (Sends(c, before, i) && !Ended(before[..i]))
                  || (i == |before| && e == Writable && MayGoOut(c, before) && !Ended(before))
      {
        SendsSnoc(c, before, e, events, i);
        assert i <= |before| ==> events[..i] == before[..i];
        assert before[..|before|] == before;
      }
      if e == Writable && MayGoOut(c, before) && !Ended(before) {
        assert Sends(c, events, |before|) && !Ended(events[..|before|]);
      }
    }
  }

  // ---------------------------------------------------------------- responses that end too late

  /** Ending a response leaves a write with nothing to queue exactly if the application has set its length or
      encoding, and everything added has been handed over. */
  lemma FinishIdle(c: Config, events: seq<Event>)
    requires Proper(c, events + [Finish]) && c.head != []
    ensures Idle(After(c, events + [Finish]))
        <==> After(c, events).started && After(c, events).parts == [] && !Auto(c)
  {
    ProperSnoc(c, events, Finish);
    RunKept(c, events);
  }

  /** Before its end a response has nothing to queue exactly if everything added has been handed over. */
  lemma IdleBeforeEnd(c: Config, events: seq<Event>)
    requires Proper(c, events) && c.head != [] && !Ended(events)
    ensures Idle(After(c, events)) <==> After(c, events).started && After(c, events).taken == AppendedBy(events)
  {
    RunKept(c, events);
    var p := After(c, events);
    assert p.parts == [] ==> AllParts(p) == p.taken;
    assert |AllParts(p)| == |p.taken| + |p.parts|;
  }

  /** A response that has ended with nothing to queue stays as it is. */
  lemma {:induction false} IdleStays(c: Config, events: seq<Event>, more: seq<Event>)
    requires Proper(c, events) && c.head != [] && Idle(After(c, events)) && Ended(events)
    requires Proper(c, events + more)
    ensures After(c, events + more) == After(c, events)
    decreases |more|
  {
    if more == [] {
      assert events + more == events;
    } else {
      var init, e := more[..|more| - 1], more[|more| - 1];
      assert events + more == (events + init) + [e];
      ProperSnoc(c, events + init, e);
      IdleStays(c, events, init);
      EndedMore(events, init);
      RunKept(c, events);
      WroteCoherent(c, After(c, events));
    }
  }

  /** The failing input: a response with a length of its own, whose body has gone out before it ends. */
  function OwnLengthRun(part: seq<Byte>): (events: seq<Event>) {
    ((([] + [AddData([part])]) + [Writable]) + [Finish])
  }

  /** The response once its data has been added, written and not, and ended and not. */
  function OwnLengthAt(part: seq<Byte>, written: bool, ended: bool): (p: Progress) {
    var taken, parts := if written then [part] else [], if written then [] else [part];
    Progress(true, written, ended, false, false, 0, None, taken, parts)
  }

  ghost predicate Reaches(c: Config, events: seq<Event>, p: Progress) {
    Proper(c, events) && (Ended(events) <==> p.complete) && After(c, events) == p
  }

  lemma OwnLengthAdded(c: Config, part: seq<Byte>, events: seq<Event>)
    requires c.supportsChunked && part != [] && events == [] + [AddData([part])]
    ensures Reaches(c, events, OwnLengthAt(part, false, false))
  {
    ProperSnoc(c, [], AddData([part]));
    EndedSnoc([], AddData([part]), events);
    assert [] + [part] == [part];
  }

  lemma OwnLengthWritten(c: Config, part: seq<Byte>, before: seq<Event>, events: seq<Event>)
    requires c.ownLength && Reaches(c, before, OwnLengthAt(part, false, false)) && events == before + [Writable]
    ensures Reaches(c, events, OwnLengthAt(part, true, false))
  {
    ProperSnoc(c, before, Writable);
    EndedSnoc(before, Writable, events);
    assert [] + [part] == [part];
  }

  lemma OwnLengthFinished(c: Config, part: seq<Byte>, before: seq<Event>, events: seq<Event>)
    requires Reaches(c, before, OwnLengthAt(part, true, false)) && events == before + [Finish]
    ensures Reaches(c, events, OwnLengthAt(part, true, true))
  {
    ProperSnoc(c, before, Finish);
    EndedSnoc(before, Finish, events);
  }

  /** They may happen, and leave nothing to queue, the whole message having been. */
  lemma OwnLengthIdle(c: Config, part: seq<Byte>)
    requires c.ownLength && c.supportsChunked && part != []
    ensures Proper(c, OwnLengthRun(part)) && Ended(OwnLengthRun(part))
    ensures var p := After(c, OwnLengthRun(part));
            Idle(p) && AllSent(p) && Message(c, p) == c.head + part
  {
    var added := [] + [AddData([part])];
    var written := added + [Writable];
    OwnLengthAdded(c, part, added);
    OwnLengthWritten(c, part, added, written);
    OwnLengthFinished(c, part, written, OwnLengthRun(part));
    ConcatSnoc([], part);
    assert [] + [part] == [part] && [] + part == part;
  }

  /** Whatever comes next. */
  lemma OwnLengthStays(c: Config, part: seq<Byte>, events: seq<Event>, n: nat, told: seq<Event>)
    requires c.ownLength && c.supportsChunked && c.head != [] && part != []
    requires Proper(c, events) && OwnLengthRun(part) <= events && |OwnLengthRun(part)| <= n <= |events|
    requires told == events[..n]
    ensures After(c, told) == After(c, OwnLengthRun(part)) && Message(c, After(c, told)) == c.head + part
  {
    var run := OwnLengthRun(part);
    OwnLengthIdle(c, part);
    assert events == told + events[n..] && told == run + events[|run|..n];
    ProperPrefix(c, told, events[n..]);
    IdleStays(c, run, events[|run|..n]);
  }

  // ---------------------------------------------------------------- runs in place

  /** The application adds buckets with this data. */
  method AppendParts(r: Response, s: Session, parts: seq<seq<Byte>>)
    requires Paired(r, s) && parts != [] && NoEmptyPart(parts) && !r.complete
    modifies r`bodyHead, r`bodyTail, r`ready, r`body, r`tailAt, r`own, r.own
    ensures Paired(r, s) && fresh(r.own - old(r.own))
    ensures r.Now() == Appended(r.config, old(r.Now()), parts)
  {
    var data, ds := BuildChain(parts);
    MadeMeans(Slots(ds), parts);
    AppendedCoherent(r.config, r.Now(), parts);
    ghost var others := set b | b in ds;
    r.BodyAppend(data, ds, others);
  }

  /** What has become of a response: it is under way, or has been sent, or its connection has been closed. */
  datatype Fate = Going | Done | Closed

  /** The state after some events. */
  ghost predicate Driven(r: Response, s: Session, fate: Fate, events: seq<Event>)
    reads r, r.body, s, s.sock, s.chain
  {
    Paired(r, s) && r.Now() == After(r.config, events) && (fate.Done? ==> AllSent(r.Now()) && s.sock.wire == s.queued)
  }

  /** The server's write callback: a failure other than a full socket closes the connection. With nothing to
      queue or send the write fails, so that closes it; otherwise only an error of the socket does. */
  method WriteEvent(r: Response, s: Session) returns (fate: Fate)
    requires Paired(r, s) && Fits(r.config, r.Now())
    modifies r, r.own, s, s.own, s.sock
    ensures Paired(r, s) && fresh(s.own - old(s.own) - old(r.own)) && r.own <= old(r.own)
    ensures r.Now() == Wrote(r.config, old(r.Now())) && (fate.Done? ==> AllSent(r.Now()) && s.sock.wire == s.queued)
    ensures old(Spent(r, s)) ==> fate.Closed? && s.chain == []
    ensures !old(Spent(r, s)) && fate.Closed? ==> s.sock.errno != EAGAIN
    ensures !old(Spent(r, s)) && Proceeds(r.config, old(r.Now())) && r.complete ==> (fate.Done? <==> s.chain == [])
  {
    ghost var offered;
    var status, done;
    status, done, offered := Write(r, s);
    fate := if done then Done else if status == OKAY || status == EAGAIN then Going else Closed;
  }

  /** What the application does. */
  method Tell(r: Response, s: Session, e: Event)
    requires Paired(r, s) && !e.Writable?
    requires e.AddData? ==> e.parts != [] && NoEmptyPart(e.parts) && !r.complete
    modifies r`bodyHead, r`bodyTail, r`ready, r`complete, r`body, r`tailAt, r`own, r.own
    ensures Paired(r, s) && fresh(r.own - old(r.own))
    ensures r.Now() == Next(r.config, old(r.Now()), e)
  {
    match e
    case AddData(parts) =>
      AppendParts(r, s, parts);
    case MarkReady =>
      MarkedCoherent(r.config, r.Now());
      r.MarkReady();
    case Finish =>
      FinishedCoherent(r.config, r.Now());
      r.Finish();
  }

  /** An event that may happen: the state it leads to, and that nothing changes for a response that is all sent. */
  lemma StepKept(c: Config, before: seq<Event>, e: Event)
    requires Proper(c, before + [e]) && c.head != []
    ensures After(c, before + [e]) == Next(c, After(c, before), e)
    ensures e.AddData? ==> e.parts != [] && NoEmptyPart(e.parts) && !After(c, before).complete
    ensures e.Writable? ==> Fits(c, After(c, before))
    ensures Ended(before) <==> After(c, before).complete
    ensures AllSent(After(c, before)) ==> After(c, before + [e]) == After(c, before)
  {
    ProperSnoc(c, before, e);
    RunKept(c, before);
    WroteCoherent(c, After(c, before));
  }

  /** One event, on a connection that is open; nothing is written for a response that has been sent. */
  method Perform(r: Response, s: Session, e: Event, fate: Fate, ghost before: seq<Event>) returns (fate': Fate)
    requires Driven(r, s, fate, before) && Proper(r.config, before + [e]) && r.config.head != [] && !fate.Closed?
    modifies r, r.own, s, s.own, s.sock
    ensures Driven(r, s, fate', before + [e])
    ensures fresh(s.own - old(s.own) - old(r.own)) && fresh(r.own - old(r.own))
    ensures fate.Going? && old(Spent(r, s)) && e.Writable? ==> fate'.Closed? && s.chain == []
    ensures fate'.Closed? && !old(Spent(r, s)) ==> e.Writable? && s.sock.errno != EAGAIN
    ensures !e.Writable? ==> fate' == fate && s.chain == old(s.chain)
  {
    StepKept(r.config, before, e);
    fate' := fate;
    if !e.Writable? {
      Tell(r, s, e);
    } else if fate.Going? {
      fate' := WriteEvent(r, s);
    }
  }

  lemma OneMore(c: Config, events: seq<Event>, k: nat, n: nat, told: seq<Event>, more: seq<Event>)
    requires k <= n < |events| && Proper(c, events) && told == events[..n] && more == events[..n + 1]
    ensures more == told + [events[n]] && Proper(c, more) && (Ended(events[..k]) ==> Ended(told))
  {
    assert events == more + events[n + 1..] && told == events[..k] + events[k..n];
    ProperPrefix(c, more, events[n + 1..]);
    if Ended(events[..k]) { EndedMore(events[..k], events[k..n]); }
  }

  /** Once a response has ended with nothing to queue or send, it is never done, and a write closes the
      connection. */
  ghost predicate Late(r: Response, s: Session, fate: Fate, events: seq<Event>, k: nat, n: nat)
    requires n <= |events|
    reads r, r.body, s
  {
    Spent(r, s) && (fate.Closed? || (fate.Going? && forall i :: k <= i < n ==> !events[i].Writable?))
  }

  method Advance(r: Response, s: Session, fate: Fate, events: seq<Event>, n: nat, ghost k: nat, ghost told: seq<Event>)
    returns (fate': Fate)
    requires k <= n < |events| && Driven(r, s, fate, told) && Proper(r.config, told + [events[n]]) && !fate.Closed?
    requires r.config.head != []
    modifies r, r.own, s, s.own, s.sock
    ensures Driven(r, s, fate', told + [events[n]])
    ensures fresh(s.own - old(s.own) - old(r.own)) && fresh(r.own - old(r.own))
    ensures Ended(told) && old(Late(r, s, fate, events, k, n)) ==> Late(r, s, fate', events, k, n + 1)
  {
    StepKept(r.config, told, events[n]);
    fate' := Perform(r, s, events[n], fate, told);
  }

  /** Events from the k-th on, one after the other, until the connection is closed. */
  method Continue(r: Response, s: Session, fate: Fate, events: seq<Event>, k: nat) returns (fate': Fate, n: nat)
    requires k <= |events| && Driven(r, s, fate, events[..k])
    requires Proper(r.config, events) && r.config.head != [] && !fate.Closed?
    modifies r, r.own, s, s.own, s.sock
    ensures k <= n <= |events| && Driven(r, s, fate', events[..n]) && (n == |events| || fate'.Closed?)
    ensures fate.Going? && old(Spent(r, s)) && Ended(events[..k]) ==> Late(r, s, fate', events, k, n)
  {
    fate', n := fate, k;
    ghost var told := events[..k];
    ghost var late := fate.Going? && Spent(r, s) && Ended(told);
    while n < |events| && !fate'.Closed?
      invariant k <= n <= |events| && told == events[..n] && Driven(r, s, fate', told)
      invariant fresh(r.own - old(r.own)) && fresh(s.own - old(s.own) - old(r.own))
      invariant late ==> Late(r, s, fate', events, k, n)
    {
      ghost var more := events[..n + 1];
      OneMore(r.config, events, k, n, told, more);
      fate' := Advance(r, s, fate', events, n, k, told);
      told, n := more, n + 1;
    }
  }

  lemma Meaning(r: Response, s: Session, fate: Fate, events: seq<Event>)
    requires Driven(r, s, fate, events)
    ensures s.sock.wire + Unsent(Slots(s.chain)) == Message(r.config, After(r.config, events))
    ensures fate.Done? ==> AllSent(After(r.config, events)) && s.sock.wire == Message(r.config, After(r.config, events))
  {
  }

  /** A new response on a new session. */
  method Open(config: Config) returns (r: Response, s: Session)
    requires config.head != []
    ensures r.config == config && Driven(r, s, Going, [])
    ensures fresh(r) && fresh(s) && fresh(s.sock) && r.own == s.own == {}
  {
    r := new Response(config);
    s := new Session();
  }

  /** Over every run, whatever the socket takes: what is on the wire and what is in the chain make up the
      message so far, and a response said to be done is on the wire as a whole. */
  method Drive(config: Config, events: seq<Event>) returns (r: Response, s: Session, fate: Fate, n: nat)
    requires Proper(config, events) && config.head != []
    ensures n <= |events| && (n == |events| || fate.Closed?)
    ensures r.config == config && Driven(r, s, fate, events[..n])
    ensures s.sock.wire + Unsent(Slots(s.chain)) == Message(config, After(config, events[..n]))
    ensures fate.Done? ==> n == |events| && AllSent(After(config, events))
    ensures fate.Done? ==> Delivers(config, After(config, events), Concat(AppendedBy(events)), s.sock.wire)
  {
    r, s := Open(config);
    assert events[..0] == [];
    fate, n := Continue(r, s, Going, events, 0);
    Meaning(r, s, fate, events[..n]);
    if fate.Done? {
      assert events[..n] == events;
      WholeMessage(config, events);
    }
  }

  /** The failing runs: a response with a length of its own ends after all of it is on the wire. Then it is
      never done, whatever happens; the next write event closes the connection. */
  method EndsTooLate(r: Response, s: Session, part: seq<Byte>, events: seq<Event>) returns (fate: Fate, n: nat)
    requires r.config.ownLength && r.config.supportsChunked && r.config.head != [] && part != []
    requires Driven(r, s, Going, OwnLengthRun(part)) && s.chain == []
    requires OwnLengthRun(part) <= events && Proper(r.config, events)
    modifies r, r.own, s, s.own, s.sock
    ensures |OwnLengthRun(part)| <= n <= |events| && !fate.Done?
    ensures forall i :: |OwnLengthRun(part)| <= i < |events| && events[i].Writable? ==> fate.Closed?
    ensures s.sock.wire == r.config.head + part
  {
    OwnLengthIdle(r.config, part);
    ghost var run := OwnLengthRun(part);
    assert events[..|run|] == run;
    fate, n := Continue(r, s, Going, events, |OwnLengthRun(part)|);
    Meaning(r, s, fate, events[..n]);
    OwnLengthStays(r.config, part, events, n, events[..n]);
  }
}
