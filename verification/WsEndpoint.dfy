/** Both sides of a WebSocket session together: what it queues while it reads, and the bytes that go out. */
module WsEndpoint {
  import opened Bytes
  import Buckets
  import opened Common
  import opened WsHeader
  import opened WsMachine
  import opened WsDecoder
  import opened WsSession
  import opened WsSend
  import opened WsUnmask

  /** What can happen to a session: bytes from the socket, a frame from the application, or the socket is
      writable. */
  datatype Happening = Heard(turn: Turn) | CanWrite

  predicate IsSend(e: Event) {
    e.Queue? || e.AppQueue?
  }

  /** The bytes of the frames a log says were queued, in order. */
  function LogBytes(log: seq<Event>): (s: seq<Byte>) {
    if log == [] then []
    else
      var e := log[|log| - 1];
      LogBytes(log[..|log| - 1]) + if IsSend(e) then FrameBytes(e.flags, e.payload) else []
  }

  /** Frames with payload, whose length a size_t holds. */
  predicate Full(e: Event) {
    IsSend(e) ==> 0 < |e.payload| <= SIZE_MAX
  }

  ghost predicate AllFull(log: seq<Event>) {
    forall i :: 0 <= i < |log| ==> Full(log[i])
  }

  /** The queue has been given all the frames of the log, unless one of them has no payload. */
  ghost predicate Fed(q: SendQueue, log: seq<Event>, fed: bool)
    reads q, q.sock, q.chain
  {
    q.Valid() && (if fed then q.queued == LogBytes(log) else !AllFull(log))
  }

  lemma LogSnoc(before: seq<Event>, e: Event, log: seq<Event>)
    requires log == before + [e]
    ensures LogBytes(log) == LogBytes(before) + if IsSend(e) then FrameBytes(e.flags, e.payload) else []
    ensures AllFull(log) <==> AllFull(before) && Full(e)
  {
    assert log[..|before|] == before && log[|before|] == e;
    assert forall i :: 0 <= i < |before| ==> log[i] == before[i];
  }

  /** One more event of the log goes into the queue, if it is a frame. */
  method FeedOne(q: SendQueue, e: Event, fed: bool, ghost before: seq<Event>, ghost log: seq<Event>)
    returns (fed': bool)
    requires Fed(q, before, fed) && log == before + [e]
    modifies q`sendHead, q`sendTail, q`txEnabled, q`chain, q`own, q`queued, q.own
    ensures Fed(q, log, fed') && fresh(q.own - old(q.own))
  {
    LogSnoc(before, e, log);
    fed' := fed && Full(e);
    if fed' && IsSend(e) {
      ConcatSnoc([], e.payload);
      assert [] + [e.payload] == [e.payload] && [] + e.payload == e.payload;
      q.SendParts(e.flags, [e.payload], false);
    }
  }

  /** What the session has queued since its log was `told` goes into the queue. */
  method Feed(q: SendQueue, log: seq<Event>, n: nat, fed: bool, ghost told: seq<Event>) returns (fed': bool)
    requires n <= |log| && told == log[..n] && Fed(q, told, fed)
    modifies q`sendHead, q`sendTail, q`txEnabled, q`chain, q`own, q`queued, q.own
    ensures Fed(q, log, fed') && fresh(q.own - old(q.own))
    decreases |log| - n
  {
    if n < |log| {
      fed' := FeedOne(q, log[n], fed, told, log[..n + 1]);
      fed' := Feed(q, log, n + 1, fed', log[..n + 1]);
    } else {
      assert told == log;
      fed' := fed;
    }
  }

  /** The bytes read in a run. */
  function BytesRead(acts: seq<Happening>): (s: seq<Byte>) {
    if acts == [] then []
    else
      var a := acts[|acts| - 1];
      BytesRead(acts[..|acts| - 1]) + if a.Heard? && a.turn.Received? then a.turn.bytes else []
  }

  /** The application sends only from its callback. */
  ghost predicate OnlyReads(acts: seq<Happening>) {
    forall i :: 0 <= i < |acts| ==> acts[i].Heard? ==> acts[i].turn.Received?
  }

  /** A turn of the session, and what it has queued meanwhile. */
  method Hear(s: Session, q: SendQueue, turn: Turn, addr: nat, fed: bool) returns (fed': bool)
    requires s.Valid() && Fed(q, s.log, fed) && Readable(turn, addr)
    modifies s, s.utf8, s.buffer, q`sendHead, q`sendTail, q`txEnabled, q`chain, q`own, q`queued, q.own
    ensures s.Valid() && Fed(q, s.log, fed')
    ensures (s.buffer == old(s.buffer) || fresh(s.buffer)) && fresh(q.own - old(q.own))
    ensures turn.Received? ==> Run(s.app, old(s.Abs()), turn.bytes) in {Lost, s.Abs()}
  {
    var n := |s.log|;
    ghost var was := s.log;
    s.TakeTurn(turn, addr);
    assert s.log[..n] == was;
    fed' := Feed(q, s.log, n, fed, was);
  }

  /** A writable socket, in this state of the session. */
  method WriteOut(q: SendQueue, state: Life, fed: bool, ghost log: seq<Event>)
    requires Fed(q, log, fed)
    modifies q, q.sock, q.own
    ensures Fed(q, log, fed) && q.own == old(q.own)
  {
    q.state := state;
    var _, _ := q.Write();
  }

  /** One act: what the session logs meanwhile is queued in order, and a writable socket is written to. */
  method Happen(s: Session, q: SendQueue, a: Happening, addr: nat, fed: bool) returns (fed': bool)
    requires s.Valid() && Fed(q, s.log, fed) && (a.Heard? ==> Readable(a.turn, addr))
    modifies s, s.utf8, s.buffer, q, q.sock, q.own
    ensures s.Valid() && Fed(q, s.log, fed')
    ensures (s.buffer == old(s.buffer) || fresh(s.buffer)) && fresh(q.own - old(q.own))
    ensures a.Heard? && a.turn.Received? ==> Run(s.app, old(s.Abs()), a.turn.bytes) in {Lost, s.Abs()}
    ensures a.CanWrite? ==> s.Abs() == old(s.Abs())
  {
    fed' := fed;
    if a.Heard? {
      fed' := Hear(s, q, a.turn, addr, fed);
    } else {
      WriteOut(q, s.state, fed, s.log);
    }
  }

  /** Where a session that has only read is, if the machine says. */
  ghost predicate Follows(s: Session, acts: seq<Happening>)
    reads s, s.buffer, s.utf8
    requires |s.maskingKey| == 4
  {
    OnlyReads(acts) ==> Run(s.app, Fresh, BytesRead(acts)) in {Lost, s.Abs()}
  }

  lemma ReadMore(app: App, acts: seq<Happening>, i: nat, was: State, now: State)
    requires i < |acts| && (OnlyReads(acts[..i]) ==> Run(app, Fresh, BytesRead(acts[..i])) in {Lost, was})
    requires acts[i].Heard? && acts[i].turn.Received? ==> Run(app, was, acts[i].turn.bytes) in {Lost, now}
    requires acts[i].CanWrite? ==> was == now
    ensures OnlyReads(acts[..i + 1]) ==> Run(app, Fresh, BytesRead(acts[..i + 1])) in {Lost, now}
  {
    var before, a := acts[..i], acts[i];
    assert acts[..i + 1][..i] == before;
    assert acts[..i + 1][i] == a;
    assert forall j :: 0 <= j < i ==> acts[..i + 1][j] == before[j];
    if a.Heard? && a.turn.Received? {
      RunSplit(app, Fresh, BytesRead(before), a.turn.bytes);
      RunAbsorbed(app, Lost, a.turn.bytes);
    } else {
      assert BytesRead(before) + [] == BytesRead(before);
    }
  }

  /** The acts from number `i` on. */
  method HappenAll(s: Session, q: SendQueue, acts: seq<Happening>, i: nat, addr: nat, fed: bool) returns (fed': bool)
    requires forall j :: 0 <= j < |acts| && acts[j].Heard? ==> Readable(acts[j].turn, addr)
    requires i <= |acts| && s.Valid() && Fed(q, s.log, fed) && Follows(s, acts[..i])
    modifies s, s.utf8, s.buffer, q, q.sock, q.own
    ensures s.Valid() && Fed(q, s.log, fed') && Follows(s, acts)
    decreases |acts| - i
  {
    if i == |acts| {
      assert acts[..i] == acts;
      return fed;
    }
    ghost var was := s.Abs();
    fed' := Happen(s, q, acts[i], addr, fed);
    ReadMore(s.app, acts, i, was, s.Abs());
    fed' := HappenAll(s, q, acts, i + 1, addr, fed');
  }

  method Open(app: App) returns (s: Session, q: SendQueue)
    ensures s.app == app && s.Valid() && s.log == [] && s.Abs() == Fresh && Fed(q, [], true)
    ensures fresh(s) && fresh(s.utf8) && s.buffer == null && fresh(q) && fresh(q.sock) && q.own == {}
  {
    q := new SendQueue();
    s := new Session(app);
  }

  /** Over every run of reads, frames from the application and writable events, whatever the socket takes: if
      no frame is without payload, the bytes on the wire and those in the send queue are the frames that the
      session has queued, in order. */
  method Exchange(app: App, acts: seq<Happening>, addr: nat) returns (s: Session, q: SendQueue)
    requires forall i :: 0 <= i < |acts| && acts[i].Heard? ==> Readable(acts[i].turn, addr)
    ensures s.app == app && s.Valid() && q.Valid() && Follows(s, acts)
    ensures AllFull(s.log) ==> q.sock.wire + Buckets.Unsent(Buckets.Slots(q.chain)) == LogBytes(s.log)
  {
    s, q := Open(app);
    assert acts[..0] == [];
    var _ := HappenAll(s, q, acts, 0, addr, true);
  }

  /** From bytes in to bytes out: on a clean stream, however it is read and however much the socket takes, what
      goes out are the frames that decoding the stream at once says are sent. */
  method Answer(app: App, acts: seq<Happening>, addr: nat) returns (s: Session, q: SendQueue)
    requires forall i :: 0 <= i < |acts| && acts[i].Heard? ==> Readable(acts[i].turn, addr)
    requires OnlyReads(acts) && Clean(app, BytesRead(acts), Start)
    ensures s.log == Decode(app, BytesRead(acts), Start).log
    ensures AllFull(s.log) ==> q.sock.wire + Buckets.Unsent(Buckets.Slots(q.chain)) == LogBytes(s.log)
  {
    s, q := Exchange(app, acts, addr);
    Agrees(app, BytesRead(acts), Start, []);
  }
}
