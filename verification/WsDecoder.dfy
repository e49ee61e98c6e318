/** A whole-stream decoder after RFC 6455 section 5.2, frame by frame, and the proof that the
    byte-at-a-time machine agrees with it on clean streams. */
module WsDecoder {
  import opened Bytes
  import opened Common
  import opened WsMachine
  import Utf8

  // ---------------------------------------------------------------- the decoder

  datatype Head =
    | Short
    | Bad(status: Status)
    | Head(flags: Byte, len: nat, key: seq<Byte>, size: nat)

  function BigEndian(s: seq<Byte>): (v: nat) {
    if s == [] then 0 else Weight(s[0], |s| - 1) + BigEndian(s[1..])
  }

  /** How many length bytes follow byte 1. */
  function ExtBytes(b: Byte): (n: nat)
    ensures n <= 8
  {
    if b % 128 == 126 then 2 else if b % 128 == 127 then 8 else 0
  }

  function FrameLen(s: seq<Byte>): (len: nat)
    requires |s| >= 2 && |s| >= 2 + ExtBytes(s[1])
  {
    if ExtBytes(s[1]) == 0 then s[1] % 128 else BigEndian(s[2..2 + ExtBytes(s[1])])
  }

  /** The frame header at the start of `s`: base framing, extended length, masking key. */
  function ParseHead(s: seq<Byte>, msgType: Byte): (h: Head)
    ensures h.Head? ==> h.size <= |s| && |h.key| == 4 && h.size >= 6
  {
    if s == [] then Short
    else if CheckOp(msgType, s[0]) != OKAY then Bad(CheckOp(msgType, s[0]))
    else if |s| < 2 then Short
    else if CheckLen(s[0], s[1]) != OKAY then Bad(CheckLen(s[0], s[1]))
    else
      var n := 2 + ExtBytes(s[1]);
      if |s| < n then Short
      else if n > 2 && CheckExtended(FrameLen(s)) != OKAY then Bad(CheckExtended(FrameLen(s)))
      else if |s| < n + 4 then Short
      else Head(s[0], FrameLen(s), s[n..n + 4], n + 4)
  }

  /** What is known between frames: the unfinished message's type and payload so far, and the log. */
  datatype Context = Context(msgType: Byte, message: seq<Byte>, log: seq<Event>)

  datatype Outcome =
    | Open(log: seq<Event>)
    | Ended(life: Life, log: seq<Event>)

  const Start := Context(0, [], [])

  function Fail(log: seq<Event>, reason: nat): (o: Outcome)
    requires reason < 65536
  {
    Ended(ERROR, log + [CloseFrame(reason)])
  }

  /** The bytes of the frame's payload that are there. */
  function Payload(s: seq<Byte>, h: Head): (p: seq<Byte>)
    requires h.Head? && h.size <= |s| && |h.key| == 4
    ensures |p| <= h.len
  {
    var end := if |s| < h.size + h.len then |s| else h.size + h.len;
    Unmask(h.key, 0, s[h.size..end])
  }

  /** Section 8.1: a text message so far must be a prefix of UTF-8 text, and all of one at its end. */
  predicate TextOkay(message: seq<Byte>, finished: bool) {
    Utf8.Run([], message).Some? && (finished ==> Utf8.Run([], message).value == [])
  }

  /** A complete Close: answered in kind, unless its status code is not one a peer may send. */
  function CloseOutcome(log: seq<Event>, flags: Byte, payload: seq<Byte>): (o: Outcome) {
    if |payload| >= 2 && !IsReasonValid(Word16(payload[0], payload[1])) then Fail(log, 1002)
    else Ended(CLOSE_RECEIVED, log + [Queue(flags, payload)])
  }

  /** Whether decoding stops at a complete frame, or goes on, and with what. */
  datatype Next = Stop(outcome: Outcome) | More(context: Context)

  /** The type of the message a data frame belongs to. */
  function Kind(c: Context, flags: Byte): (t: Byte) {
    if Op(flags) == OP_CONTINUATION then c.msgType else Op(flags)
  }

  function Complete(app: App, c: Context, flags: Byte, payload: seq<Byte>): (n: Next) {
    if IsData(flags) then
      var log1 := c.log + [Deliver(flags, payload)];
      var reply := app(log1, flags, payload);
      var log2 := log1 + Accepted(reply.sends);
      if reply.status != OKAY then Stop(Fail(log2, 1002))
      else if Fin(flags) then More(Context(0, [], log2))
      else More(Context(Kind(c, flags), c.message + payload, log2))
    else if Op(flags) == OP_CLOSE then Stop(CloseOutcome(c.log, flags, payload))
    else if Op(flags) == OP_PING then More(c.(log := c.log + [Queue(flags + 1, payload)]))
    else More(c)
  }

  /** Whether the decoder accepts the payload bytes `plain` of frame `h`. */
  predicate PlainOkay(c: Context, h: Head, plain: seq<Byte>)
    requires h.Head?
  {
    IsData(h.flags) && Kind(c, h.flags) == OP_TEXT ==> TextOkay(c.message + plain, |plain| == h.len && Fin(h.flags))
  }

  function Decode(app: App, s: seq<Byte>, c: Context): (o: Outcome)
    decreases |s|
  {
    match ParseHead(s, c.msgType)
    case Short => Open(c.log)
    case Bad(status) => Fail(c.log, ReasonFromErrno(status))
    case Head(flags, len, key, size) =>
      var h := Head(flags, len, key, size);
      var payload := Payload(s, h);
      if !PlainOkay(c, h, payload) then Fail(c.log, 1007)
      else if |payload| < len then Open(c.log)
      else match Complete(app, c, flags, payload)
        case Stop(outcome) => outcome
        case More(c') => Decode(app, s[size + len..], c')
  }

  function TypeAfterFrame(msgType: Byte, flags: Byte): (t: Byte) {
    if IsData(flags) && Fin(flags) then 0 else TypeAfterOp(msgType, flags)
  }

  /** Not an empty Pong, an empty final continuation, or a control frame with payload inside an unfinished
      text message. */
  predicate CleanHead(h: Head, msgType: Byte)
    requires h.Head?
  {
    && !(Op(h.flags) == OP_PONG && h.len == 0)
    && !(Op(h.flags) == OP_CONTINUATION && Fin(h.flags) && h.len == 0)
    && !Tangled(h.flags, msgType, h.len)
  }

  /** The frame is all there and lets decoding go on. */
  predicate GoesOn(app: App, s: seq<Byte>, c: Context, h: Head)
    requires h.Head? && h.size <= |s| && |h.key| == 4
  {
    |s| >= h.size + h.len && PlainOkay(c, h, Payload(s, h)) && Complete(app, c, h.flags, Payload(s, h)).More?
  }

  /** Every frame of the stream is clean, up to the first error or Close. */
  predicate Clean(app: App, s: seq<Byte>, c: Context)
    decreases |s|
  {
    var h := ParseHead(s, c.msgType);
    h.Head? ==>
      && CleanHead(h, c.msgType)
      && (GoesOn(app, s, c, h) ==> Clean(app, s[h.size + h.len..], Complete(app, c, h.flags, Payload(s, h)).context))
  }

  // ---------------------------------------------------------------- headers, byte by byte

  /** The machine between two frames. */
  function Between(c: Context, pend: seq<Byte>): (s: State) {
    Live(CONNECTED, NoFrame, c.msgType, pend, 0, c.log)
  }

  function Observe(s: State): (o: Option<Outcome>) {
    match s
    case Live(life, _, _, _, _, log) => Some(Open(log))
    case Quiet(life, log) => Some(Ended(life, log))
    case Lost => None
  }

  /** Length bytes, some or all of those to come, accumulate into the length. */
  lemma {:induction false} ExtendedSteps(app: App, s: State, bs: seq<Byte>)
    requires s.Live? && s.frame.phase == LEN_EXTENDED && 0 < |bs| <= s.frame.idx
    ensures |bs| < s.frame.idx ==> Run(app, s, bs).Live? && Run(app, s, bs).log == s.log
    ensures |bs| == s.frame.idx ==>
              Run(app, s, bs) == EndExtended(s.(frame := s.frame.(idx := 0, len := s.frame.len + BigEndian(bs))))
    decreases |bs|
  {
    var next := Step(app, s, bs[0]);
    if |bs| > 1 {
      ExtendedSteps(app, next, bs[1..]);
    } else {
      assert Run(app, s, bs) == Run(app, next, []);
      assert bs[1..] == [];
    }
  }

  lemma {:induction false} MaskSteps(app: App, s: State, bs: seq<Byte>)
    requires s.Live? && s.frame.phase == MASKING_KEY && 0 < |bs| <= 4 - |s.frame.key|
    ensures Run(app, s, bs) == EndMask(app, s.(frame := s.frame.(key := s.frame.key + bs)))
    decreases |bs|
  {
    var next := Step(app, s, bs[0]);
    if |bs| > 1 {
      MaskSteps(app, next, bs[1..]);
      assert s.frame.key + bs == (s.frame.key + [bs[0]]) + bs[1..];
    } else {
      assert bs == [bs[0]] && bs[1..] == [];
    }
  }

  /** The machine with a header's fields in, about to take payload. */
  function InPayload(c: Context, pend: seq<Byte>, h: Head): (s: State)
    requires h.Head?
  {
    Live(CONNECTED, Frame(MASKING_KEY, h.flags, h.len, 0, h.key, 0, []), TypeAfterOp(c.msgType, h.flags), pend, 0,
        c.log)
  }

  ghost predicate HeadAgrees(app: App, s: seq<Byte>, c: Context, pend: seq<Byte>) {
    var h, m := ParseHead(s, c.msgType), Between(c, pend);
    && (h.Short? ==> Run(app, m, s).Live? && Run(app, m, s).log == c.log)
    && (h.Bad? ==> Run(app, m, s) == Abort(CONNECTED, c.log, ReasonFromErrno(h.status)))
    && (h.Head? ==> Run(app, m, s[..h.size]) == EndMask(app, InPayload(c, pend, h)))
  }

  /** Header bytes take the machine to the verdict the decoder reaches on them. */
  lemma HeadSteps(app: App, s: seq<Byte>, c: Context, pend: seq<Byte>)
    ensures HeadAgrees(app, s, c, pend)
  {
    var m := Between(c, pend);
    if s != [] {
      var m1 := Step(app, m, s[0]);
      if CheckOp(c.msgType, s[0]) != OKAY {
        RunAbsorbed(app, m1, s[1..]);
      } else if |s| == 1 {
        assert s[1..] == [];
      } else {
        LenSteps(app, s, c, pend);
      }
    }
  }

  lemma LenSteps(app: App, s: seq<Byte>, c: Context, pend: seq<Byte>)
    requires |s| >= 2 && CheckOp(c.msgType, s[0]) == OKAY
    ensures HeadAgrees(app, s, c, pend)
  {
    var m := Between(c, pend);
    var m2 := Step(app, Step(app, m, s[0]), s[1]);
    assert s[..2] == [s[0], s[1]];
    RunTwo(app, m, s[0], s[1]);
    var n := 2 + ExtBytes(s[1]);
    RunAppend(app, m, s, 2, |s|);
    if CheckLen(s[0], s[1]) != OKAY {
      RunAbsorbed(app, m2, s[2..]);
    } else if n == 2 {
      MaskBytes(app, m, m2, s, 2);
    } else if |s| < n {
      if |s| > 2 { ExtendedSteps(app, m2, s[2..]); }
    } else {
      ExtendedSteps(app, m2, s[2..n]);
      RunAppend(app, m, s, 2, n);
      var m3 := Run(app, m, s[..n]);
      if CheckExtended(FrameLen(s)) != OKAY {
        RunAppend(app, m, s, n, |s|);
        RunAbsorbed(app, m3, s[n..]);
      } else {
        MaskBytes(app, m, m3, s, n);
      }
    }
  }

  lemma RunAppend(app: App, m: State, s: seq<Byte>, i: nat, j: nat)
    requires i <= j <= |s|
    ensures Run(app, m, s[..j]) == Run(app, Run(app, m, s[..i]), s[i..j])
    ensures j == |s| ==> s[..j] == s && s[i..j] == s[i..]
  {
    assert s[..j] == s[..i] + s[i..j];
    RunSplit(app, m, s[..i], s[i..j]);
  }

  lemma RunTwo(app: App, m: State, a: Byte, b: Byte)
    ensures Run(app, m, [a, b]) == Step(app, Step(app, m, a), b)
  {
    assert [a, b][1..] == [b] && [b][1..] == [];
    assert Run(app, Step(app, m, a), [b]) == Run(app, Step(app, Step(app, m, a), b), []);
  }

  /** From the masking key on: either too few bytes, or the whole key. */
  lemma MaskBytes(app: App, m: State, m3: State, s: seq<Byte>, n: nat)
    requires n <= |s| && m3 == Run(app, m, s[..n])
    requires m3.Live? && m3.frame.phase == MASKING_KEY && m3.frame.key == []
    ensures |s| < n + 4 ==> Run(app, m, s).Live? && Run(app, m, s).log == m3.log
    ensures |s| >= n + 4 ==> Run(app, m, s[..n + 4]) == EndMask(app, m3.(frame := m3.frame.(key := s[n..n + 4])))
  {
    var j := if |s| < n + 4 then |s| else n + 4;
    RunAppend(app, m, s, n, j);
    if n < j {
      MaskSteps(app, m3, s[n..j]);
      assert [] + s[n..j] == s[n..j];
    }
  }

  // ---------------------------------------------------------------- whole frames

  /** The pending bytes are those of the unfinished text message. */
  ghost predicate Coherent(c: Context, pend: seq<Byte>) {
    && (c.msgType == 0 || c.msgType == OP_TEXT || c.msgType == OP_BINARY)
    && (c.msgType == OP_TEXT ==> Utf8.Run([], c.message) == Some(pend))
    && (c.msgType != OP_TEXT ==> pend == [])
    && (c.msgType == 0 ==> c.message == [])
  }

  lemma OneBucket(app: App, log: seq<Event>, flags: Byte, data: seq<Byte>)
    ensures Blanks(0) + [data] == [data] && Concat([data]) == data
    ensures EchoAll(log, flags, [data]) == log + [Queue(EchoFlags(flags), data)]
    ensures DeliverAll(app, log, flags, [data]) ==
              (var log1 := log + [Deliver(flags, data)];
               (app(log1, flags, data).status, log1 + Accepted(app(log1, flags, data).sends)))
  {
    assert [data][1..] == [] && [data][..0] == [] && [] + data == data;
    var log1 := log + [Queue(EchoFlags(flags), data)];
    assert EchoAll(log, flags, [data]) == EchoAll(log1, flags, []) == log1;
    assert Concat([data]) == Concat([]) + data;
  }

  /** Dispatching a complete frame stops the machine, or leaves it between frames, as decoding does. */
  lemma DispatchAgrees(app: App, c: Context, s: State, flags: Byte, payload: seq<Byte>)
    requires s.Live? && s.life == CONNECTED && s.spare == 0 && s.log == c.log && CheckOp(c.msgType, flags) == OKAY
    requires s.msgType == TypeAfterFrame(c.msgType, flags)
    requires Op(flags) == OP_PONG ==> s.frame.len > 0
    ensures match Complete(app, c, flags, payload)
            case Stop(outcome) => Observe(Dispatch(app, s, flags, payload)) == Some(outcome)
                && !Dispatch(app, s, flags, payload).Live?
            case More(c') =>
              Dispatch(app, s, flags, payload) ==
                  Live(CONNECTED, NoFrame, TypeAfterFrame(c.msgType, flags), s.pend, 0, c'.log)
  {
    OneBucket(app, c.log, flags, payload);
  }

  /** A complete frame that text checking lets through keeps the pending bytes coherent. */
  lemma CompleteCoherent(app: App, c: Context, pend: seq<Byte>, flags: Byte, payload: seq<Byte>, pend': seq<Byte>)
    requires Coherent(c, pend) && CheckOp(c.msgType, flags) == OKAY
    requires Complete(app, c, flags, payload).More?
    requires IsData(flags) && Kind(c, flags) == OP_TEXT ==> Utf8.Run([], c.message + payload) == Some(pend')
    requires IsData(flags) && Kind(c, flags) == OP_TEXT && Fin(flags) ==> pend' == []
    requires !(IsData(flags) && Kind(c, flags) == OP_TEXT) ==> pend' == pend
    ensures Coherent(Complete(app, c, flags, payload).context, pend')
    ensures Complete(app, c, flags, payload).context.msgType == TypeAfterFrame(c.msgType, flags)
  {
  }

  /** The pending bytes after some of a frame's payload follow the message's text. */
  lemma TextFollows(c: Context, pend: seq<Byte>, s: State, plain: seq<Byte>)
    requires Coherent(c, pend) && s.Live? && s.pend == pend && CheckOp(c.msgType, s.frame.flags) == OKAY
    requires s.msgType == TypeAfterOp(c.msgType, s.frame.flags) && !Tangled(s.frame.flags, c.msgType, s.frame.len)
    requires plain != [] ==> s.frame.len > 0
    ensures var text := IsData(s.frame.flags) && Kind(c, s.frame.flags) == OP_TEXT;
            && (text ==> TextAfter(s, plain) == Utf8.Run([], c.message + plain))
            && (!text ==> TextAfter(s, plain) == Some(pend))
            && (s.frame.len > 0 ==> (text <==> NeedsUtf8(s.frame.flags, s.msgType)))
  {
    Utf8.RunSplit([], c.message, plain);
    assert c.message == [] ==> c.message + plain == plain;
  }

  /** `t` is the machine with the payload bytes `plain` of frame `h` in, ready for dispatch if these
      are all of them. */
  ghost predicate Holding(c: Context, pend: seq<Byte>, h: Head, plain: seq<Byte>, t: State)
    requires h.Head?
  {
    && t.Live? && t.life == CONNECTED && t.spare == 0 && t.log == c.log && t.frame.len == h.len
    && (|plain| == h.len ==> t.msgType == TypeAfterFrame(c.msgType, h.flags))
    && (Op(h.flags) != OP_PONG ==> t.frame.payload == plain)
    && var text := IsData(h.flags) && Kind(c, h.flags) == OP_TEXT;
    && (text ==> Utf8.Run([], c.message + plain) == Some(t.pend) && (|plain| == h.len && Fin(h.flags) ==> t.pend == []))
    && (!text ==> t.pend == pend)
  }

  /** What taking payload bytes does, judged by the decoder's verdict on them. */
  lemma PayloadVerdict(app: App, c: Context, pend: seq<Byte>, h: Head, plain: seq<Byte>) returns (t: State)
    requires h.Head? && Coherent(c, pend) && CheckOp(c.msgType, h.flags) == OKAY && !Tangled(h.flags, c.msgType, h.len)
    requires 0 < h.len && |plain| <= h.len
    ensures var m2 := Enter(InPayload(c, pend, h), PAYLOAD);
            TakePayload(app, m2, plain) ==
              if !PlainOkay(c, h, plain) then Abort(CONNECTED, c.log, 1007)
              else if |plain| < h.len || !t.Live? then t
              else Dispatch(app, t, h.flags, t.frame.payload)
    ensures PlainOkay(c, h, plain) ==> Holding(c, pend, h, plain, t)
  {
    var m2 := Enter(InPayload(c, pend, h), PAYLOAD);
    TextFollows(c, pend, m2, plain);
    if TextAfter(m2, plain).None? {
      t := m2;
    } else {
      t := Soak(m2, plain);
      assert [] + plain == plain;
      if |plain| == h.len {
        t := t.(msgType := TypeAfterFrame(c.msgType, h.flags));
      }
    }
  }

  /** The same for a frame without payload, which is dispatched from its header. */
  lemma EmptyVerdict(app: App, c: Context, pend: seq<Byte>, h: Head)
    requires h.Head? && Coherent(c, pend) && CheckOp(c.msgType, h.flags) == OKAY && h.len == 0 && |h.key| == 4
    requires !(Op(h.flags) == OP_CONTINUATION && Fin(h.flags))
    ensures EndMask(app, InPayload(c, pend, h)) == Dispatch(app, InPayload(c, pend, h), h.flags, [])
    ensures PlainOkay(c, h, []) && Holding(c, pend, h, [], InPayload(c, pend, h))
  {
    assert c.message + [] == c.message;
  }

  /** How much of the stream the frame `h` at its start takes. */
  function FrameEnd(s: seq<Byte>, h: Head): (end: nat)
    requires h.Head? && h.size <= |s|
    ensures h.size <= end <= |s|
  {
    if |s| < h.size + h.len then |s| else h.size + h.len
  }

  /** The machine after frame `h` and as much of its payload as there is; `t` is the state its verdict
      is given in. */
  ghost predicate FrameAgrees(app: App, s: seq<Byte>, c: Context, pend: seq<Byte>, h: Head, t: State)
    requires h.Head? && h.size <= |s| && |h.key| == 4
  {
    && Run(app, Between(c, pend), s[..FrameEnd(s, h)]) ==
         (if !PlainOkay(c, h, Payload(s, h)) then Abort(CONNECTED, c.log, 1007)
          else if |s| < h.size + h.len || !t.Live? then t
          else Dispatch(app, t, h.flags, t.frame.payload))
    && (PlainOkay(c, h, Payload(s, h)) ==> Holding(c, pend, h, Payload(s, h), t))
  }

  lemma EmptyFrameSteps(app: App, s: seq<Byte>, c: Context, pend: seq<Byte>, h: Head) returns (t: State)
    requires Coherent(c, pend) && h == ParseHead(s, c.msgType) && h.Head? && CleanHead(h, c.msgType) && h.len == 0
    requires Run(app, Between(c, pend), s[..h.size]) == EndMask(app, InPayload(c, pend, h))
    ensures FrameAgrees(app, s, c, pend, h, t)
  {
    EmptyVerdict(app, c, pend, h);
    t := InPayload(c, pend, h);
    assert Payload(s, h) == [];
  }

  lemma BareHeadSteps(app: App, s: seq<Byte>, c: Context, pend: seq<Byte>, h: Head) returns (t: State)
    requires Coherent(c, pend) && h == ParseHead(s, c.msgType) && h.Head? && CleanHead(h, c.msgType) && h.len > 0
    requires Run(app, Between(c, pend), s[..h.size]) == EndMask(app, InPayload(c, pend, h)) && |s| == h.size
    ensures FrameAgrees(app, s, c, pend, h, t)
  {
    t := Enter(InPayload(c, pend, h), PAYLOAD);
    assert Payload(s, h) == [] && c.message + [] == c.message;
  }

  lemma PayloadFrameSteps(app: App, s: seq<Byte>, c: Context, pend: seq<Byte>, h: Head) returns (t: State)
    requires Coherent(c, pend) && h == ParseHead(s, c.msgType) && h.Head? && CleanHead(h, c.msgType) && h.len > 0
    requires Run(app, Between(c, pend), s[..h.size]) == EndMask(app, InPayload(c, pend, h)) && |s| > h.size
    ensures FrameAgrees(app, s, c, pend, h, t)
  {
    var m, end := Enter(InPayload(c, pend, h), PAYLOAD), FrameEnd(s, h);
    assert EndMask(app, InPayload(c, pend, h)) == m;
    RunAppend(app, Between(c, pend), s, h.size, end);
    PayloadSteps(app, m, s[h.size..end]);
    t := PayloadVerdict(app, c, pend, h, Payload(s, h));
  }

  /** One frame whose header is in: where the machine is after the payload bytes there are. */
  lemma FrameSteps(app: App, s: seq<Byte>, c: Context, pend: seq<Byte>, h: Head) returns (t: State)
    requires Coherent(c, pend) && h == ParseHead(s, c.msgType) && h.Head? && CleanHead(h, c.msgType)
    ensures FrameAgrees(app, s, c, pend, h, t)
  {
    HeadSteps(app, s, c, pend);
    if h.len == 0 {
      t := EmptyFrameSteps(app, s, c, pend, h);
    } else if |s| == h.size {
      t := BareHeadSteps(app, s, c, pend, h);
    } else {
      t := PayloadFrameSteps(app, s, c, pend, h);
    }
  }

  /** The pending bytes after a complete frame go with the context after it. */
  lemma GoesOnCoherent(app: App, s: seq<Byte>, c: Context, pend: seq<Byte>, h: Head, t: State)
    requires Coherent(c, pend) && h == ParseHead(s, c.msgType) && h.Head? && |s| >= h.size + h.len
    requires PlainOkay(c, h, Payload(s, h)) && Holding(c, pend, h, Payload(s, h), t)
    requires Complete(app, c, h.flags, Payload(s, h)).More?
    ensures var c' := Complete(app, c, h.flags, Payload(s, h)).context;
            Coherent(c', t.pend) && c'.msgType == TypeAfterFrame(c.msgType, h.flags)
  {
    CompleteCoherent(app, c, pend, h.flags, Payload(s, h), t.pend);
  }

  /** The machine is about to dispatch the complete frame `h`. */
  ghost predicate Ready(c: Context, h: Head, payload: seq<Byte>, t: State) {
    && h.Head? && t.Live? && t.life == CONNECTED && t.spare == 0 && t.log == c.log
    && CheckOp(c.msgType, h.flags) == OKAY && t.msgType == TypeAfterFrame(c.msgType, h.flags)
    && (Op(h.flags) == OP_PONG ==> t.frame.len > 0) && (Op(h.flags) != OP_PONG ==> t.frame.payload == payload)
  }

  lemma GoesOnBetween(app: App, c: Context, h: Head, payload: seq<Byte>, t: State)
    requires Ready(c, h, payload, t) && Complete(app, c, h.flags, payload).More?
    ensures Dispatch(app, t, h.flags, t.frame.payload) == Between(Complete(app, c, h.flags, payload).context, t.pend)
  {
    DispatchAgrees(app, c, t, h.flags, t.frame.payload);
  }

  lemma StopsWith(app: App, c: Context, h: Head, payload: seq<Byte>, t: State)
    requires Ready(c, h, payload, t) && Complete(app, c, h.flags, payload).Stop?
    ensures !Dispatch(app, t, h.flags, t.frame.payload).Live?
    ensures Observe(Dispatch(app, t, h.flags, t.frame.payload)) == Some(Complete(app, c, h.flags, payload).outcome)
  {
    DispatchAgrees(app, c, t, h.flags, t.frame.payload);
  }

  /** A frame that is all there is dispatched. */
  lemma AllThere(app: App, s: seq<Byte>, c: Context, pend: seq<Byte>, h: Head, t: State)
    requires h == ParseHead(s, c.msgType) && h.Head? && CleanHead(h, c.msgType) && |s| >= h.size + h.len
    requires PlainOkay(c, h, Payload(s, h)) && FrameAgrees(app, s, c, pend, h, t)
    ensures Ready(c, h, Payload(s, h), t)
    ensures Run(app, Between(c, pend), s) ==
              Run(app, Dispatch(app, t, h.flags, t.frame.payload), s[h.size + h.len..])
  {
    HeadIsOkay(s, c.msgType, h);
    RunAppend(app, Between(c, pend), s, FrameEnd(s, h), |s|);
  }

  lemma HeadIsOkay(s: seq<Byte>, msgType: Byte, h: Head)
    requires h == ParseHead(s, msgType) && h.Head? && CleanHead(h, msgType) && |s| >= h.size + h.len
    ensures CheckOp(msgType, h.flags) == OKAY && (Op(h.flags) == OP_PONG ==> h.len > 0)
    ensures |Payload(s, h)| == h.len && FrameEnd(s, h) == h.size + h.len
  {
  }

  /** A frame that is all there and lets decoding go on: the machine is between frames again. */
  lemma FrameGoesOn(app: App, s: seq<Byte>, c: Context, pend: seq<Byte>, h: Head, t: State)
    requires Coherent(c, pend) && h == ParseHead(s, c.msgType) && h.Head? && CleanHead(h, c.msgType)
        && |s| >= h.size + h.len
    requires PlainOkay(c, h, Payload(s, h)) && FrameAgrees(app, s, c, pend, h, t)
    requires Complete(app, c, h.flags, Payload(s, h)).More?
    ensures var c' := Complete(app, c, h.flags, Payload(s, h)).context;
            && Coherent(c', t.pend)
            && Run(app, Between(c, pend), s) == Run(app, Between(c', t.pend), s[h.size + h.len..])
            && c'.msgType == TypeAfterFrame(c.msgType, h.flags)
  {
    GoesOnCoherent(app, s, c, pend, h, t);
    AllThere(app, s, c, pend, h, t);
    GoesOnBetween(app, c, h, Payload(s, h), t);
  }

  /** A frame that is all there and stops decoding stops the machine in the same way. */
  lemma FrameStops(app: App, s: seq<Byte>, c: Context, pend: seq<Byte>, h: Head, t: State)
    requires h == ParseHead(s, c.msgType) && h.Head? && CleanHead(h, c.msgType) && |s| >= h.size + h.len
    requires PlainOkay(c, h, Payload(s, h)) && FrameAgrees(app, s, c, pend, h, t)
    requires Complete(app, c, h.flags, Payload(s, h)).Stop?
    ensures !Run(app, Between(c, pend), s).Live?
    ensures Observe(Run(app, Between(c, pend), s)) == Some(Complete(app, c, h.flags, Payload(s, h)).outcome)
  {
    AllThere(app, s, c, pend, h, t);
    StopsWith(app, c, h, Payload(s, h), t);
    RunAbsorbed(app, Dispatch(app, t, h.flags, t.frame.payload), s[h.size + h.len..]);
  }

  /** A frame with bytes no text can have. */
  lemma FrameRefused(app: App, s: seq<Byte>, c: Context, pend: seq<Byte>, h: Head, t: State)
    requires h == ParseHead(s, c.msgType) && h.Head? && FrameAgrees(app, s, c, pend, h, t)
    requires !PlainOkay(c, h, Payload(s, h))
    ensures Run(app, Between(c, pend), s) == Abort(CONNECTED, c.log, 1007)
  {
    RunAppend(app, Between(c, pend), s, FrameEnd(s, h), |s|);
    RunAbsorbed(app, Abort(CONNECTED, c.log, 1007), s[FrameEnd(s, h)..]);
  }

  /** A frame cut short. */
  lemma FrameShort(app: App, s: seq<Byte>, c: Context, pend: seq<Byte>, h: Head, t: State)
    requires h == ParseHead(s, c.msgType) && h.Head? && FrameAgrees(app, s, c, pend, h, t)
    requires PlainOkay(c, h, Payload(s, h)) && |s| < h.size + h.len
    ensures Run(app, Between(c, pend), s) == t && t.Live? && t.log == c.log
  {
    assert s[..FrameEnd(s, h)] == s;
  }

  lemma UndoneObserved(log: seq<Event>, okay: bool, r: State)
    requires if okay then r.Live? && r.log == log else r == Abort(CONNECTED, log, 1007)
    ensures Observe(r) == Some(if okay then Open(log) else Fail(log, 1007))
  {
  }

  /** A frame cut short, or with bytes no text can have. */
  lemma FrameUndone(app: App, s: seq<Byte>, c: Context, pend: seq<Byte>, h: Head, t: State)
    requires h == ParseHead(s, c.msgType) && h.Head? && FrameAgrees(app, s, c, pend, h, t)
    requires !PlainOkay(c, h, Payload(s, h)) || |s| < h.size + h.len
    ensures Observe(Run(app, Between(c, pend), s)) ==
              Some(if PlainOkay(c, h, Payload(s, h)) then Open(c.log) else Fail(c.log, 1007))
  {
    if PlainOkay(c, h, Payload(s, h)) {
      FrameShort(app, s, c, pend, h, t);
    } else {
      FrameRefused(app, s, c, pend, h, t);
    }
    UndoneObserved(c.log, PlainOkay(c, h, Payload(s, h)), Run(app, Between(c, pend), s));
  }

  lemma DecodingGoesOn(app: App, s: seq<Byte>, c: Context, h: Head)
    requires Clean(app, s, c) && h == ParseHead(s, c.msgType) && h.Head? && GoesOn(app, s, c, h)
    ensures var c', rest := Complete(app, c, h.flags, Payload(s, h)).context, s[h.size + h.len..];
            Clean(app, rest, c') && Decode(app, s, c) == Decode(app, rest, c')
  {
  }

  /** On a clean stream, the machine and the decoder come to the same events and the same end. */
  lemma {:induction false} Agrees(app: App, s: seq<Byte>, c: Context, pend: seq<Byte>)
    requires Clean(app, s, c) && Coherent(c, pend)
    ensures Observe(Run(app, Between(c, pend), s)) == Some(Decode(app, s, c))
    decreases |s|
  {
    var h := ParseHead(s, c.msgType);
    if !h.Head? {
      HeadSteps(app, s, c, pend);
    } else {
      var t := FrameSteps(app, s, c, pend, h);
      if !PlainOkay(c, h, Payload(s, h)) || |s| < h.size + h.len {
        FrameUndone(app, s, c, pend, h, t);
      } else if Complete(app, c, h.flags, Payload(s, h)).Stop? {
        FrameStops(app, s, c, pend, h, t);
      } else {
        FrameGoesOn(app, s, c, pend, h, t);
        DecodingGoesOn(app, s, c, h);
        Agrees(app, s[h.size + h.len..], Complete(app, c, h.flags, Payload(s, h)).context, t.pend);
      }
    }
  }
}
