/** A whole session against the whole-stream decoder, and what the decoder promises the application. */
module WsService {
  import opened Bytes
  import opened Common
  import opened WsMachine
  import opened WsDecoder
  import opened WsUnmask
  import opened WsSession
  import Utf8

  /** However a clean stream is cut into reads, what the session delivers and queues, and whether and
      how it has stopped, is what decoding the stream at once gives. */
  method Serve(app: App, chunks: seq<seq<Byte>>, addr: nat) returns (outcome: Outcome)
    requires forall c :: c in chunks ==> c != [] && addr + |c| + 3 < SIZE_LIMIT
    requires Clean(app, Concat(chunks), Start)
    ensures outcome == Decode(app, Concat(chunks), Start)
  {
    var session := new Session(app);
    session.ReceiveAll(chunks, addr);
    Agrees(app, Concat(chunks), Start, []);
    outcome := if session.state == CLOSE_RECEIVED || session.state == ERROR || session.parseState == COMPLETE
      then Ended(session.state, session.log) else Open(session.log);
  }

  // ---------------------------------------------------------------- messages

  /** Data deliveries put back together into messages, each with its type. */
  datatype Assembly = Assembly(msgType: Byte, open: seq<Byte>, finished: seq<(Byte, seq<Byte>)>)

  function Assemble(log: seq<Event>): (a: Assembly) {
    if log == [] then Assembly(0, [], [])
    else
      var a, e := Assemble(log[..|log| - 1]), log[|log| - 1];
      if !e.Deliver? then a
      else
        var kind := if Op(e.flags) == OP_CONTINUATION then a.msgType else Op(e.flags);
        if Fin(e.flags) then Assembly(0, [], a.finished + [(kind, a.open + e.data)])
        else Assembly(kind, a.open + e.data, a.finished)
  }

  /** Finished text messages are UTF-8, and the unfinished one is a prefix of UTF-8. */
  ghost predicate TextSound(a: Assembly) {
    && (forall m :: m in a.finished && m.0 == OP_TEXT ==> Utf8.IsText(m.1))
    && (a.msgType == OP_TEXT ==> Utf8.IsTextPrefix(a.open))
  }

  lemma AssembleQuiet(log: seq<Event>, more: seq<Event>)
    requires NoDelivery(more)
    ensures Assemble(log + more) == Assemble(log)
    decreases |more|
  {
    if more == [] {
      assert log + more == log;
    } else {
      var n := |more| - 1;
      assert (log + more)[..|log + more| - 1] == log + more[..n];
      assert more[n] in more;
      AssembleQuiet(log, more[..n]);
    }
  }

  /** A context whose message is the one its log leaves open. */
  ghost predicate Told(c: Context) {
    Assemble(c.log).msgType == c.msgType && Assemble(c.log).open == c.message && TextSound(Assemble(c.log))
  }

  /** Delivering an accepted payload keeps every text message valid. */
  lemma CompleteTold(app: App, c: Context, h: Head, payload: seq<Byte>)
    requires Told(c) && h.Head? && |payload| == h.len && PlainOkay(c, h, payload)
    requires IsData(h.flags) ==> Op(h.flags) <= OP_BINARY
    requires IsData(h.flags) && Op(h.flags) != OP_CONTINUATION ==> c.message == []
    ensures match Complete(app, c, h.flags, payload)
            case Stop(o) => TextSound(Assemble(o.log))
            case More(c') => Told(c')
  {
    var flags := h.flags;
    if IsData(flags) {
      var log1 := c.log + [Deliver(flags, payload)];
      var reply := app(log1, flags, payload);
      assert log1[..|log1| - 1] == c.log;
      Utf8.RunMeaning(c.message + payload);
      AcceptedKeeps(reply.sends);
      AssembleQuiet(log1, Accepted(reply.sends));
      AssembleQuiet(log1 + Accepted(reply.sends), [CloseFrame(1002)]);
    } else {
      AssembleQuiet(c.log, [CloseFrame(1002)]);
      AssembleQuiet(c.log, [Queue(flags, payload)]);
      AssembleQuiet(c.log, [Queue(EchoFlags(flags), payload)]);
    }
  }

  lemma FailTold(c: Context, reason: nat)
    requires Told(c) && reason < 65536
    ensures TextSound(Assemble(Fail(c.log, reason).log))
  {
    AssembleQuiet(c.log, [CloseFrame(reason)]);
  }

  /** Section 8.1 of RFC 6455: no text reaches the application that is not UTF-8, or a beginning of it. */
  lemma {:induction false} DeliveredTextIsUtf8(app: App, s: seq<Byte>, c: Context)
    requires Told(c) && (c.msgType == 0 ==> c.message == [])
    ensures TextSound(Assemble(Decode(app, s, c).log))
    decreases |s|, 1
  {
    var h := ParseHead(s, c.msgType);
    if h.Bad? {
      FailTold(c, ReasonFromErrno(h.status));
    } else if h.Head? {
      if !PlainOkay(c, h, Payload(s, h)) {
        FailTold(c, 1007);
      } else if |Payload(s, h)| == h.len {
        DeliveredFrame(app, s, c, h);
      }
    }
  }

  /** The same for a stream that starts with a whole frame. */
  lemma {:induction false} DeliveredFrame(app: App, s: seq<Byte>, c: Context, h: Head)
    requires Told(c) && (c.msgType == 0 ==> c.message == [])
    requires h == ParseHead(s, c.msgType) && h.Head? && |Payload(s, h)| == h.len && PlainOkay(c, h, Payload(s, h))
    ensures TextSound(Assemble(Decode(app, s, c).log))
    decreases |s|, 0
  {
    CompleteTold(app, c, h, Payload(s, h));
    match Complete(app, c, h.flags, Payload(s, h))
    case Stop(_) =>
    case More(c') => DeliveredTextIsUtf8(app, s[h.size + h.len..], c');
  }

  // ---------------------------------------------------------------- closing

  lemma LastIsClose(log: seq<Event>, e: Event, life: Life)
    requires NoClose(log) && Stopped(life)
    ensures CloseIsLast(log + [e], life)
  {
    assert (log + [e])[..|log|] == log;
  }

  lemma CompleteClosing(app: App, c: Context, flags: Byte, payload: seq<Byte>)
    requires NoClose(c.log)
    ensures match Complete(app, c, flags, payload)
            case Stop(o) => CloseIsLast(o.log, if o.Open? then CONNECTED else o.life)
            case More(c') => NoClose(c'.log)
  {
    var log1 := c.log + [Deliver(flags, payload)];
    var reply := app(log1, flags, payload);
    AcceptedKeeps(reply.sends);
    var log2 := log1 + Accepted(reply.sends);
    assert NoClose(log2);
    LastIsClose(log2, CloseFrame(1002), ERROR);
    LastIsClose(c.log, CloseFrame(1002), ERROR);
    LastIsClose(c.log, Queue(flags, payload), CLOSE_RECEIVED);
  }

  /** The protocol sends one Close at most, and nothing after it. */
  lemma {:induction false} DecodedCloseIsLast(app: App, s: seq<Byte>, c: Context)
    requires NoClose(c.log)
    ensures var o := Decode(app, s, c);
            CloseIsLast(o.log, if o.Open? then CONNECTED else o.life)
    decreases |s|
  {
    var h := ParseHead(s, c.msgType);
    if h.Bad? {
      LastIsClose(c.log, CloseFrame(ReasonFromErrno(h.status)), ERROR);
    } else if h.Head? {
      var payload := Payload(s, h);
      if !PlainOkay(c, h, payload) {
        LastIsClose(c.log, CloseFrame(1007), ERROR);
      } else if |payload| == h.len {
        CompleteClosing(app, c, h.flags, payload);
        match Complete(app, c, h.flags, payload)
        case Stop(_) =>
        case More(c') =>
          DecodedCloseIsLast(app, s[h.size + h.len..], c');
      }
    }
  }
}
