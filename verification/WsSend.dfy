/** The send side of a WebSocket session: queueing frames as buckets (ymo_ws_session.c) and the write
    callback (ymo_proto_ws.c). */
module WsSend {
  import opened Bytes
  import opened Buckets
  import opened Common
  import opened Net
  import opened WsHeader
  import opened WsMachine

  /** YMO_WS_SHOULD_CLOSE_ON_WRITE. */
  predicate ShouldCloseOnWrite(state: Life) {
    state == CLOSED || state == CLOSE_RECEIVED || state == ERROR
  }

  /** The bytes of a frame: its header, then its payload. */
  function FrameBytes(flags: Byte, payload: seq<Byte>): (s: seq<Byte>) {
    Header(flags, |payload|) + payload
  }

  class SendQueue {
    var sendHead: Bucket?
    var sendTail: Bucket?
    var state: Life
    var txEnabled: bool
    var shut: bool
    const sock: Socket
    ghost var chain: seq<Bucket>
    ghost var own: set<Bucket>  // every bucket ever in the chain
    ghost var queued: seq<Byte>  // the bytes of every frame ever queued

    ghost predicate Tailed()
      reads this`chain, this`sendTail
    {
      sendTail == Last(chain)
    }

    ghost predicate Sound()
      reads this`sendHead, this`chain, this`own, this`queued, this`txEnabled, sock, chain
    {
      Holds(sendHead, chain, own, sock, queued) && (chain != [] ==> txEnabled)
    }

    ghost predicate Valid()
      reads this, sock, chain
    {
      Sound() && Tailed() && NoneEmpty(Slots(chain))
    }

    constructor ()
      ensures Valid() && fresh(sock) && queued == [] && own == {} && state == CONNECTED && !shut
    {
      sock := new Socket();
      sendHead, sendTail, state, txEnabled, shut := null, null, CONNECTED, false, false;
      chain, own, queued := [], {}, [];
    }

    /** The header bucket goes after the tail, and the payload's after it. */
    method PushHeader(hdrData: seq<Byte>, payload: Bucket?, ghost ps: seq<Bucket>)
      requires Chain(sendHead, chain) && Owned(chain, own) && Tailed() && Chain(payload, ps) && Apart(chain, ps)
      modifies this`sendHead, this`chain, this`own
      modifies if sendTail == null then {} else {sendTail}
      ensures Extends(old(chain), chain, ps) && fresh(chain[|old(chain)|]) && Owns(old(own), own, chain, |old(chain)|)
      ensures Chain(sendHead, chain) && Owned(chain, own) && Chain(payload, ps)
      ensures Slots(chain) == old(Slots(chain)) + ([Slot(hdrData, 0)] + old(Slots(ps)))
    {
      ghost var now;
      var hdrOut;
      hdrOut, now := After(sendTail, payload, hdrData, sendHead, chain, ps, own);
      chain, own := now, own + set b | b in [hdrOut] + ps;
      if sendHead == null {
        sendHead := hdrOut;
      }
    }

    /** A header and its payload join the queue, and the books are kept. */
    method PushFrame(hdr: seq<Byte>, payload: Bucket?, ghost ps: seq<Bucket>)
      requires Valid() && Chain(payload, ps) && Apart(chain, ps) && Untouched(Slots(ps)) && hdr != []
      modifies this`sendHead, this`txEnabled, this`chain, this`own, this`queued
      modifies if sendTail == null then {} else {sendTail}
      ensures Sound() && Chain(payload, ps)
      ensures queued == old(queued) + (hdr + old(Concat(Datas(Slots(ps)))))
      ensures Extends(old(chain), chain, ps) && fresh(chain[|old(chain)|]) && Owns(old(own), own, chain, |old(chain)|)
      ensures old(NoneEmpty(Slots(ps))) ==> NoneEmpty(Slots(chain))
    {
      FrameQueued(sock.wire, Slots(chain), hdr, Slots(ps), queued);
      FrameSane(Slots(chain), hdr, Slots(ps));
      queued := queued + (hdr + Concat(Datas(Slots(ps))));
      txEnabled := true;
      PushHeader(hdr, payload, ps);
    }

    method Enqueue(hdr: seq<Byte>, payload: Bucket?, ghost ps: seq<Bucket>)
      requires Valid() && Chain(payload, ps) && Apart(chain, ps) && Untouched(Slots(ps)) && hdr != []
      modifies this`sendHead, this`sendTail, this`txEnabled, this`chain, this`own, this`queued
      modifies if sendTail == null then {} else {sendTail}
      ensures Sound() && (Tailed() <==> payload != null)
      ensures queued == old(queued) + (hdr + old(Concat(Datas(Slots(ps)))))
      ensures Extends(old(chain), chain, ps) && fresh(chain[|old(chain)|]) && Owns(old(own), own, chain, |old(chain)|)
      ensures old(NoneEmpty(Slots(ps))) && payload != null ==> Valid()
    {
      PushFrame(hdr, payload, ps);
      LastExtended(old(chain), chain, ps);
      sendTail := Tail(payload, ps);
    }

    /** ymo_ws_session_send_no_check. The tail is left null by a frame without a payload bucket. */
    method SendNoCheck(flags: Byte, payload: Bucket?, ghost ps: seq<Bucket>) returns (status: Status)
      requires Valid() && Chain(payload, ps) && Apart(chain, ps) && Untouched(Slots(ps))
      requires |Concat(Datas(Slots(ps)))| <= SIZE_MAX
      modifies this`sendHead, this`sendTail, this`txEnabled, this`chain, this`own, this`queued
      modifies if sendTail == null then {} else {sendTail}
      ensures status == OKAY && Sound() && (Tailed() <==> payload != null)
      ensures queued == old(queued) + FrameBytes(flags, old(Concat(Datas(Slots(ps)))))
      ensures Extends(old(chain), chain, ps) && fresh(chain[|old(chain)|]) && Owns(old(own), own, chain, |old(chain)|)
      ensures old(NoneEmpty(Slots(ps))) && payload != null ==> Valid()
    {
      var msgLen := LenAll(payload, ps);
      var hdrData := GenMsgHdr(flags, msgLen);
      Enqueue(hdrData[..], payload, ps);
      status := OKAY;
    }

    /** ymo_ws_session_send: only a connected session queues what the application sends. */
    method Send(flags: Byte, payload: Bucket?, ghost ps: seq<Bucket>) returns (status: Status)
      requires Valid() && Chain(payload, ps) && Apart(chain, ps) && Untouched(Slots(ps))
      requires |Concat(Datas(Slots(ps)))| <= SIZE_MAX
      modifies this`sendHead, this`sendTail, this`txEnabled, this`chain, this`own, this`queued
      modifies if sendTail == null then {} else {sendTail}
      ensures status == SendStatus(state, flags)
      ensures status == OKAY <==> state == CONNECTED && flags % 16 in {0, 1, 2, 8, 9, 10}
      ensures status == OKAY ==> Sound() && (Tailed() <==> payload != null)
      ensures status == OKAY ==> queued == old(queued) + FrameBytes(flags, old(Concat(Datas(Slots(ps)))))
      ensures status == OKAY ==>
                && Extends(old(chain), chain, ps) && fresh(chain[|old(chain)|])
                && Owns(old(own), own, chain, |old(chain)|)
      ensures status != OKAY ==> queued == old(queued) && chain == old(chain) && own == old(own) && Valid()
      ensures old(NoneEmpty(Slots(ps))) && payload != null ==> Valid()
    {
      if !ValidSendOp(flags) {
        return EINVAL;
      }
      if state == CONNECTED {
        status := SendNoCheck(flags, payload, ps);
        return;
      }
      match state
      case CLOSE_RECEIVED => status := EADDRNOTAVAIL;
      case EXPECT_CLOSE => status := EADDRNOTAVAIL;
      case CLOSED => status := EPIPE;
      case ERROR => status := ECONNABORTED;
    }

    /** ymo_conn_send_buckets on the queue. */
    method Flush() returns (status: Status)
      requires Sound() && Tailed() && chain != []
      modifies this`sendHead, this`chain, sock, own
      ensures Sound() && (status != OKAY ==> Tailed())
      ensures old(NoneEmpty(Slots(chain))) ==> NoneEmpty(Slots(chain)) && (status == OKAY ==> chain == [])
    {
      var head;
      ghost var rest;
      head, status, rest := ConnSendBuckets(sock, sendHead, chain, own, queued);
      sendHead, chain := head, rest;
    }

    /** ymo_proto_ws_write. On success the whole queue is let go of; `lost` are the bytes in it that were
        not sent, of which there are none unless a bucket is empty. */
    method Write() returns (status: Status, ghost lost: seq<Byte>)
      requires Sound() && Tailed()
      modifies this`sendHead, this`sendTail, this`txEnabled, this`shut, this`chain, sock, own
      ensures Tailed()
      ensures status != OKAY ==> lost == [] && Sound()
      ensures status == OKAY ==> chain == [] && sock.wire + lost == queued
      ensures shut == (old(shut) || (status == OKAY && old(chain) != []
                                     && (state == CLOSED || state == CLOSE_RECEIVED || state == ERROR)))
      ensures old(NoneEmpty(Slots(chain))) ==> lost == [] && Valid() && (status == OKAY ==> sock.wire == queued)
    {
      lost := [];
      if sendHead == null {
        assert Slots(chain) == [];
        txEnabled := false;
        return OKAY, lost;
      }
      status := Flush();
      if status == OKAY {
        lost := Unsent(Slots(chain));
        sendHead, sendTail, chain := null, null, [];
        assert Slots(chain) == [];
        if ShouldCloseOnWrite(state) {
          shut := true;
        }
      }
    }

    /** One act of a run. */
    method Perform(a: Act)
      requires Valid() && Proper(a)
      modifies this, sock, own
      ensures Valid() && fresh(own - old(own))
      ensures state == if a.Become? then a.state else old(state)
      ensures queued == if a.ProtoSend? || (a.AppSend? && SendStatus(old(state), a.flags) == OKAY)
                        then old(queued) + FrameBytes(a.flags, Concat(a.parts)) else old(queued)
    {
      match a
      case AppSend(flags, parts) => SendParts(flags, parts, true);
      case ProtoSend(flags, parts) => SendParts(flags, parts, false);
      case Writable => var _, _ := Write();
      case Become(life) => state := life;
    }

    /** A frame from the application, or from the protocol itself. */
    method SendParts(flags: Byte, parts: seq<seq<Byte>>, app: bool)
      requires Valid() && parts != [] && NoEmptyPart(parts) && |Concat(parts)| <= SIZE_MAX
      modifies this`sendHead, this`sendTail, this`txEnabled, this`chain, this`own, this`queued, own
      ensures Valid() && fresh(own - old(own))
      ensures queued == if !app || SendStatus(state, flags) == OKAY
                        then old(queued) + FrameBytes(flags, Concat(parts)) else old(queued)
    {
      assert sendTail != null ==> sendTail in own;
      var payload, ps := BuildChain(parts);
      MadeMeans(Slots(ps), parts);
      assert Apart(chain, ps) by { NewApart(chain, ps, own, set b | b in ps); }
      SendBuilt(flags, payload, ps, app);
      assert forall b :: b in set x | x in ps <==> b in ps;
    }

    method SendBuilt(flags: Byte, payload: Bucket?, ghost ps: seq<Bucket>, app: bool)
      requires Valid() && Chain(payload, ps) && Apart(chain, ps) && Untouched(Slots(ps)) && NoneEmpty(Slots(ps))
      requires payload != null && |Concat(Datas(Slots(ps)))| <= SIZE_MAX
      modifies this`sendHead, this`sendTail, this`txEnabled, this`chain, this`own, this`queued
      modifies if sendTail == null then {} else {sendTail}
      ensures Valid() && fresh(own - old(own) - set b | b in ps)
      ensures queued == if !app || SendStatus(state, flags) == OKAY
                        then old(queued) + FrameBytes(flags, old(Concat(Datas(Slots(ps))))) else old(queued)
    {
      ghost var was, before := own, chain;
      if app {
        var status := Send(flags, payload, ps);
        if status != OKAY {
          return;
        }
      } else {
        var _ := SendNoCheck(flags, payload, ps);
      }
      OwnedAfter(was, own, before, chain, ps);
    }
  }

  /** A new bucket after the last of a chain, with more buckets after it. */
  method After(tail: Bucket?, payload: Bucket?, data: seq<Byte>, ghost head: Bucket?, ghost bs: seq<Bucket>,
               ghost ps: seq<Bucket>, ghost own: set<Bucket>)
    returns (hdrOut: Bucket, ghost now: seq<Bucket>)
    requires Chain(head, bs) && Owned(bs, own) && tail == Last(bs) && Chain(payload, ps) && Apart(bs, ps)
    modifies if tail == null then {} else {tail}
    ensures fresh(hdrOut) && Extends(bs, now, ps) && now[|bs|] == hdrOut
    ensures Owns(own, own + (set b | b in [hdrOut] + ps), now, |bs|)
    ensures Chain(if head == null then hdrOut else head, now) && Chain(payload, ps)
    ensures Owned(now, own + set b | b in [hdrOut] + ps)
    ensures Slots(now) == old(Slots(bs)) + ([Slot(data, 0)] + old(Slots(ps)))
  {
    assert bs[..|bs|] == bs;
    assert tail != null ==> tail in bs && tail !in ps;
    hdrOut := Create(tail, payload, data, head, bs, |bs|, ps);
    now := bs + ([hdrOut] + ps);
    assert Slots(bs) == old(Slots(bs)) && Slots(ps) == old(Slots(ps));
    SlotsCons(hdrOut, ps);
    SlotsJoin(bs, [hdrOut] + ps);
    OwnedMore(bs, [hdrOut] + ps, own);
  }

  /** The buckets from `k` on have been added to those owned. */
  ghost predicate Owns(was: set<Bucket>, now: set<Bucket>, bs: seq<Bucket>, k: nat) {
    k <= |bs| && now == was + set b | b in bs[k..]
  }

  lemma OwnedMore(bs: seq<Bucket>, more: seq<Bucket>, was: set<Bucket>)
    requires Owned(bs, was)
    ensures Owned(bs + more, was + set b | b in more) && (bs + more)[|bs|..] == more
  {
  }

  lemma NewApart(bs: seq<Bucket>, ps: seq<Bucket>, own: set<Bucket>, others: set<Bucket>)
    requires Owned(bs, own) && own !! others && (forall b :: b in ps ==> b in others)
    ensures Apart(bs, ps)
  {
  }

  lemma OwnedAfter(was: set<Bucket>, own: set<Bucket>, before: seq<Bucket>, now: seq<Bucket>, ps: seq<Bucket>)
    requires Extends(before, now, ps) && Owns(was, own, now, |before|)
    ensures own == was + {now[|before|]} + set b | b in ps
  {
    var hdr := now[|before|];
    assert now[|before|..] == [hdr] + ps;
    assert forall b :: b in [hdr] + ps <==> b == hdr || b in ps;
  }

  /** A header bucket and the payload's buckets have been added to a chain. */
  ghost predicate Extends(was: seq<Bucket>, now: seq<Bucket>, ps: seq<Bucket>) {
    |was| < |now| && now == was + ([now[|was|]] + ps)
  }

  lemma LastExtended(was: seq<Bucket>, now: seq<Bucket>, ps: seq<Bucket>)
    requires Extends(was, now, ps)
    ensures Last(now) == if ps == [] then now[|was|] else Last(ps)
  {
  }

  lemma FrameUnsent(was: seq<Slot>, hdr: seq<Byte>, ps: seq<Slot>)
    requires Untouched(ps)
    ensures Unsent(was + ([Slot(hdr, 0)] + ps)) == Unsent(was) + (hdr + Concat(Datas(ps)))
  {
    UnsentSplit(was, [Slot(hdr, 0)] + ps);
    UnsentCons(Slot(hdr, 0), ps);
    UntouchedUnsent(ps, |ps|);
    assert ps[..|ps|] == ps && Datas(ps)[..|ps|] == Datas(ps);
  }

  lemma FrameSane(was: seq<Slot>, hdr: seq<Byte>, ps: seq<Slot>)
    requires Untouched(ps) && hdr != []
    ensures Sane(was) ==> Sane(was + ([Slot(hdr, 0)] + ps))
    ensures NoneEmpty(was) && NoneEmpty(ps) ==> NoneEmpty(was + ([Slot(hdr, 0)] + ps))
  {
  }

  lemma FrameQueued(wire: seq<Byte>, was: seq<Slot>, hdr: seq<Byte>, ps: seq<Slot>, queued: seq<Byte>)
    requires Untouched(ps) && hdr != [] && Books(wire, was, queued)
    ensures Books(wire, was + ([Slot(hdr, 0)] + ps), queued + (hdr + Concat(Datas(ps))))
  {
    FrameUnsent(was, hdr, ps);
    FrameSane(was, hdr, ps);
    Associative(wire, Unsent(was), hdr + Concat(Datas(ps)));
  }

  // ---------------------------------------------------------------- whole runs

  /** What can happen to a session's send side. */
  datatype Act =
    | AppSend(flags: Byte, parts: seq<seq<Byte>>)
    | ProtoSend(flags: Byte, parts: seq<seq<Byte>>)
    | Writable
    | Become(state: Life)

  predicate Sending(a: Act) {
    a.AppSend? || a.ProtoSend?
  }

  /** Payloads are made of at least one bucket, none of them empty. */
  ghost predicate Proper(a: Act) {
    Sending(a) ==> a.parts != [] && NoEmptyPart(a.parts) && |Concat(a.parts)| <= SIZE_MAX
  }

  /** The state after some acts, and the bytes of the frames queued meanwhile, in order. */
  function QueuedBy(acts: seq<Act>): (r: (Life, seq<Byte>)) {
    if acts == [] then (CONNECTED, [])
    else
      var (state, bytes) := QueuedBy(acts[..|acts| - 1]);
      match acts[|acts| - 1]
      case AppSend(flags, parts) => (state,
          if SendStatus(state, flags) == OKAY then bytes + FrameBytes(flags, Concat(parts)) else bytes)
      case ProtoSend(flags, parts) => (state, bytes + FrameBytes(flags, Concat(parts)))
      case Writable => (state, bytes)
      case Become(state') => (state', bytes)
  }

  /** Over every run, whatever the socket does: the bytes on the wire and those in the chain are the
      queued frames in order, and the tail is the chain's last bucket, or null as the head is. */
  method Drive(acts: seq<Act>) returns (q: SendQueue)
    requires forall i :: 0 <= i < |acts| ==> Proper(acts[i])
    ensures q.Valid() && (q.state, q.queued) == QueuedBy(acts)
  {
    q := new SendQueue();
    var i := 0;
    while i < |acts|
      invariant 0 <= i <= |acts| && q.Valid() && (q.state, q.queued) == QueuedBy(acts[..i])
      invariant fresh(q) && fresh(q.sock) && fresh(q.own)
    {
      assert acts[..i + 1][..i] == acts[..i];
      q.Perform(acts[i]);
      i := i + 1;
    }
    assert acts[..i] == acts;
  }

  /** An empty payload bucket with a frame behind it, as for a Ping without data, can cost that frame: if
      the socket takes just the first header, the write callback lets go of the whole queue. */
  lemma EmptyPayloadCanStrand(flags: Byte, behind: seq<Slot>)
    requires Untouched(behind) && Unsent(behind) != []
    ensures CanStrand([Slot(Header(flags, 0), 0), Slot([], 0)] + behind)
  {
    var h := Header(flags, 0);
    var ss := [Slot(h, 0), Slot([], 0)] + behind;
    assert ss[..1] == [Slot(h, 0)] && ss[1..] == [Slot([], 0)] + behind;
    UnsentCons(Slot(h, 0), []);
    UnsentCons(Slot([], 0), behind);
    assert [Slot(h, 0)] + [] == [Slot(h, 0)];
    assert GapAt(ss, 1);
    StrandsExactlyAtGaps(ss);
  }
}
