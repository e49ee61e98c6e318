/** The WebSocket receive side one byte at a time: the fields of ymo_ws_frame_t and ymo_ws_session_t
    that src/protocol/ws/ymo_ws_parse.c and ymo_proto_ws.c read and write, as a value. */
module WsMachine {
  import opened Bytes
  import opened Common
  import Utf8

  const OP_CONTINUATION := 0x0
  const OP_TEXT := 0x1
  const OP_BINARY := 0x2
  const OP_CLOSE := 0x8
  const OP_PING := 0x9
  const OP_PONG := 0xA

  const FRAME_MAX := 4096

  /** Byte 0 of a frame: FIN, three reserved bits, four bits of opcode. */
  function Op(flags: Byte): (op: Byte) { flags % 16 }

  predicate Fin(flags: Byte) { flags / 128 == 1 }

  predicate Reserved(flags: Byte) { flags / 16 % 8 != 0 }

  predicate IsData(flags: Byte) { Op(flags) < 8 }

  datatype Life = CONNECTED | CLOSE_RECEIVED | EXPECT_CLOSE | CLOSED | ERROR

  datatype Phase = OP | LEN | LEN_EXTENDED | MASKING_KEY | PAYLOAD | COMPLETE

  datatype Event =
    | Deliver(flags: Byte, data: seq<Byte>)
    | Queue(flags: Byte, payload: seq<Byte>)
    | AppQueue(flags: Byte, payload: seq<Byte>)

  /** What the user's callback answers: a status, and the frames it sends meanwhile. */
  datatype Reply = Reply(status: Status, sends: seq<(Byte, seq<Byte>)>)

  /** Any callback: its answer may depend on everything that has happened so far. */
  type App = (seq<Event>, Byte, seq<Byte>) -> Reply

  datatype Frame = Frame(phase: Phase, flags: Byte, len: nat, idx: nat, key: seq<Byte>, parsed: nat, payload: seq<Byte>)

  const NoFrame := Frame(OP, 0, 0, 0, [], 0, [])

  /** `spare` counts the empty buckets left on the receive list. `Quiet` swallows all input; `Lost`
      stands for states this model says nothing about. */
  datatype State =
    | Live(life: Life, frame: Frame, msgType: Byte, pend: seq<Byte>, spare: nat, log: seq<Event>)
    | Quiet(life: Life, log: seq<Event>)
    | Lost

  const Fresh := Live(CONNECTED, NoFrame, 0, [], 0, [])

  // ---------------------------------------------------------------- closing

  function ReasonFromErrno(status: Status): (reason: nat)
    ensures reason < 65536
  {
    match status
    case OKAY => 1000
    case EPIPE => 1001
    case EADDRNOTAVAIL => 1001
    case EINVAL => 1002
    case EBADMSG => 1002
    case EILSEQ => 1007
    case EFBIG => 1009
    case EOVERFLOW => 1009
    case _ => 1011
  }

  function CloseFrame(reason: nat): (e: Event)
    requires reason < 65536
  {
    Queue(OP_CLOSE + 0x80, [reason / 256, reason % 256])
  }

  /** ws_err_close: from any state but ERROR, a Close frame goes out and the state is ERROR. */
  function Abort(life: Life, log: seq<Event>, reason: nat): (s: State)
    requires reason < 65536
  {
    Quiet(ERROR, if life == ERROR then log else log + [CloseFrame(reason)])
  }

  function Word16(hi: int, lo: int): (w: int) { hi * 256 + lo }

  predicate IsReasonValid(reason: int) {
    if 1000 <= reason < 3000 then reason in {1000, 1001, 1002, 1003, 1007, 1008, 1009, 1010, 1011}
    else reason >= 3000
  }

  /** The status codes of section 7.4 that a peer may send. */
  predicate MaySend(code: int) {
    1000 <= code <= 1003 || 1007 <= code <= 1011 || 3000 <= code
  }

  lemma CodesExactly(code: int)
    ensures IsReasonValid(code) <==> MaySend(code)
  {
  }

  // ---------------------------------------------------------------- one byte of header

  /** The verdict on byte 0, given the type of the unfinished message (0 when there is none). */
  function CheckOp(msgType: Byte, flags: Byte): (status: Status) {
    if Reserved(flags) then EBADMSG
    else if Op(flags) == OP_CONTINUATION then (if msgType == 0 then EINVAL else OKAY)
    else if Op(flags) == OP_TEXT || Op(flags) == OP_BINARY then (if msgType != 0 then EINVAL else OKAY)
    else if Op(flags) == OP_CLOSE || Op(flags) == OP_PING || Op(flags) == OP_PONG then
      (if Fin(flags) then OKAY else EBADMSG)
    else EBADMSG
  }

  /** The message type once byte 0 is accepted. */
  function TypeAfterOp(msgType: Byte, flags: Byte): (t: Byte) {
    if (Op(flags) == OP_TEXT || Op(flags) == OP_BINARY) && !Fin(flags) then Op(flags) else msgType
  }

  function CheckLen(flags: Byte, b: Byte): (status: Status) {
    if b < 128 then EBADMSG
    else if b % 128 >= 126 && !IsData(flags) then EBADMSG
    else OKAY
  }

  /** Byte `b` of an extended length, with `idx` bytes to its right. */
  function Weight(b: nat, idx: nat): (w: nat) {
    if idx == 0 then b else 256 * Weight(b, idx - 1)
  }

  /** The verdict on a complete extended length. */
  function CheckExtended(len: nat): (status: Status) {
    if len >= 0x8000_0000_0000_0000 then EBADMSG else if len > FRAME_MAX then ENOBUFS else OKAY
  }

  // ---------------------------------------------------------------- payload

  predicate NeedsUtf8(flags: Byte, msgType: Byte) {
    Op(flags) == OP_TEXT || msgType == OP_TEXT
  }

  /** A control frame with payload inside an unfinished text message. */
  predicate Tangled(flags: Byte, msgType: Byte, len: nat) {
    !IsData(flags) && msgType == OP_TEXT && len > 0
  }

  function Unmask(key: seq<Byte>, from: nat, s: seq<Byte>): (r: seq<Byte>)
    requires |key| == 4
    ensures |r| == |s|
    decreases |s|
  {
    if s == [] then [] else [Xor(s[0], key[from % 4])] + Unmask(key, from + 1, s[1..])
  }

  // ---------------------------------------------------------------- a complete frame

  predicate ValidSendOp(flags: Byte) {
    Op(flags) in {OP_TEXT, OP_BINARY, OP_CONTINUATION, OP_CLOSE, OP_PING, OP_PONG}
  }

  /** What ymo_ws_session_send answers. */
  function SendStatus(state: Life, flags: Byte): (status: Status) {
    if !ValidSendOp(flags) then EINVAL
    else match state
      case CONNECTED => OKAY
      case CLOSE_RECEIVED => EADDRNOTAVAIL
      case EXPECT_CLOSE => EADDRNOTAVAIL
      case CLOSED => EPIPE
      case ERROR => ECONNABORTED
  }

  /** The frames a connected session lets the application queue. */
  function Accepted(sends: seq<(Byte, seq<Byte>)>): (es: seq<Event>) {
    if sends == [] then []
    else Accepted(sends[..|sends| - 1])
         + (var x := sends[|sends| - 1]; if ValidSendOp(x.0) then [AppQueue(x.0, x.1)] else [])
  }

  /** invoke_recv_callback with the user's callback: bucket after bucket, until one is refused. */
  function DeliverAll(app: App, log: seq<Event>, flags: Byte, buckets: seq<seq<Byte>>): (r: (Status, seq<Event>))
    decreases |buckets|
  {
    if buckets == [] then (ENOENT, log)
    else
      var log1 := log + [Deliver(flags, buckets[0])];
      var reply := app(log1, flags, buckets[0]);
      var log2 := log1 + Accepted(reply.sends);
      if reply.status != OKAY || |buckets| == 1 then (reply.status, log2)
      else DeliverAll(app, log2, flags, buckets[1..])
  }

  /** invoke_recv_callback with the echo callback: a Ping goes back as a Pong, a Close as it is. */
  function EchoFlags(flags: Byte): (f: Byte) {
    if Op(flags) == OP_PING then flags + 1 else flags
  }

  function EchoAll(log: seq<Event>, flags: Byte, buckets: seq<seq<Byte>>): (r: seq<Event>)
    decreases |buckets|
  {
    if buckets == [] then log else EchoAll(log + [Queue(EchoFlags(flags), buckets[0])], flags, buckets[1..])
  }

  /** handle_client_close. */
  function ClientClose(life: Life, log: seq<Event>, flags: Byte, buckets: seq<seq<Byte>>): (s: State) {
    var data := Concat(buckets);
    if life == EXPECT_CLOSE then Quiet(CLOSE_RECEIVED, log)
    else if |data| >= 2 && !IsReasonValid(Word16(data[0], data[1])) then Abort(CLOSE_RECEIVED, log, 1002)
    else Quiet(CLOSE_RECEIVED, EchoAll(log, flags, buckets))
  }

  /** A Close is taken as the answer to our own, or echoed bucket by bucket; or, if its first two bytes are a status
      code that no peer may send, answered with a Close of status 1002. */
  lemma CloseAnswered(life: Life, log: seq<Event>, flags: Byte, buckets: seq<seq<Byte>>)
    requires flags % 16 == 8
    ensures var s, data := ClientClose(life, log, flags, buckets), Concat(buckets);
            if life == EXPECT_CLOSE then s == Quiet(CLOSE_RECEIVED, log)
            else if |data| < 2 || MaySend(256 * data[0] as int + data[1] as int)
            then s == Quiet(CLOSE_RECEIVED, EchoAll(log, flags, buckets))
            else s == Quiet(ERROR, log + [Queue(0x88, [3, 234])])
    ensures |buckets| == 1 ==> EchoAll(log, flags, buckets) == log + [Queue(flags, buckets[0])]
  {
    var data := Concat(buckets);
    if |data| >= 2 { CodesExactly(256 * data[0] as int + data[1] as int); }
    if |buckets| == 1 {
      var echoed := log + [Queue(flags, buckets[0])];
      assert EchoAll(echoed, flags, buckets[1..]) == echoed;
    }
  }

  function Blanks(n: nat): (r: seq<seq<Byte>>)
    ensures |r| == n && forall b :: b in r ==> b == []
  {
    seq(n, _ => [])
  }

  /** What happens to a complete frame whose payload is `data`. */
  function Dispatch(app: App, s: State, flags: Byte, data: seq<Byte>): (r: State)
    requires s.Live?
  {
    if Op(flags) == OP_CONTINUATION || Op(flags) == OP_TEXT || Op(flags) == OP_BINARY then
      if s.life != CONNECTED then Quiet(s.life, s.log)
      else
        var (status, log) := DeliverAll(app, s.log, flags, Blanks(s.spare) + [data]);
        if status == OKAY then s.(frame := NoFrame, spare := 0, log := log) else Abort(s.life, log, 1002)
    else if Op(flags) == OP_CLOSE then ClientClose(s.life, s.log, flags, Blanks(s.spare) + [data])
    else if Op(flags) == OP_PING then
      s.(frame := NoFrame, spare := 0, log := EchoAll(s.log, flags, Blanks(s.spare) + [data]))
    else if Op(flags) == OP_PONG then s.(frame := NoFrame, spare := s.spare + (if s.frame.len == 0 then 1 else 0))
    else Abort(s.life, s.log, 1002)
  }

  // ---------------------------------------------------------------- the machine

  function Enter(s: State, phase: Phase): (r: State)
    requires s.Live?
  {
    s.(frame := s.frame.(phase := phase))
  }

  function StepOp(s: State, b: Byte): (r: State)
    requires s.Live?
  {
    var status := CheckOp(s.msgType, b);
    if status != OKAY then Abort(s.life, s.log, ReasonFromErrno(status))
    else s.(frame := s.frame.(flags := b, phase := LEN), msgType := TypeAfterOp(s.msgType, b))
  }

  function StepLen(s: State, b: Byte): (r: State)
    requires s.Live?
  {
    var status := CheckLen(s.frame.flags, b);
    if status != OKAY then Abort(s.life, s.log, ReasonFromErrno(status))
    else if b % 128 <= 125 then s.(frame := s.frame.(len := b % 128, phase := MASKING_KEY))
    else s.(frame := s.frame.(idx := if b % 128 == 126 then 2 else 8, phase := LEN_EXTENDED))
  }

  function ExtendLen(s: State, b: Byte): (r: State)
    requires s.Live? && s.frame.idx > 0
    ensures r.Live?
  {
    s.(frame := s.frame.(idx := s.frame.idx - 1, len := s.frame.len + Weight(b, s.frame.idx - 1)))
  }

  /** The end of the extended length, once its last byte is in. */
  function EndExtended(s: State): (r: State)
    requires s.Live?
  {
    if s.frame.idx > 0 then s
    else
      var status := CheckExtended(s.frame.len);
      if status != OKAY then Abort(s.life, s.log, ReasonFromErrno(status)) else Enter(s, MASKING_KEY)
  }

  /** The end of the masking key, once its fourth byte is in. */
  function EndMask(app: App, s: State): (r: State)
    requires s.Live?
  {
    if |s.frame.key| < 4 then s
    else if s.frame.len == 0 then Dispatch(app, s, s.frame.flags, [])
    else if Tangled(s.frame.flags, s.msgType, s.frame.len) then Lost
    else Enter(s, PAYLOAD)
  }

  /** The next payload bytes, unmasked. */
  function Plain(s: State, bs: seq<Byte>): (p: seq<Byte>)
    requires s.Live? && |s.frame.key| == 4
    ensures |p| == |bs|
  {
    Unmask(s.frame.key, s.frame.parsed, bs)
  }

  /** The pending bytes after some payload, or `None` if no UTF-8 text could go on this way. */
  function TextAfter(s: State, plain: seq<Byte>): (p: Option<seq<Byte>>)
    requires s.Live?
  {
    if NeedsUtf8(s.frame.flags, s.msgType) then Utf8.Run(s.pend, plain) else Some(s.pend)
  }

  /** Payload taken into the frame; a Pong's is only counted. */
  function Soak(s: State, plain: seq<Byte>): (r: State)
    requires s.Live? && TextAfter(s, plain).Some?
    ensures r.Live? && r.frame.key == s.frame.key && r.frame.parsed == s.frame.parsed + |plain|
  {
    var f := s.frame;
    s.(frame := f.(parsed := f.parsed + |plain|,
                   payload := if Op(f.flags) == OP_PONG then f.payload else f.payload + plain),
       pend := TextAfter(s, plain).value)
  }

  /** The end of the payload, once its last byte is in. */
  function EndPayload(app: App, s: State): (r: State)
    requires s.Live?
  {
    var f := s.frame;
    if f.parsed < f.len then s
    else if Unfinished(s) then
      Abort(s.life, s.log, ReasonFromErrno(EILSEQ))
    else Dispatch(app, EndType(s), f.flags, f.payload)
  }

  /** A final data frame ends its message. */
  function EndType(s: State): (r: State)
    requires s.Live?
    ensures r.Live? && r.frame == s.frame && r.log == s.log
  {
    s.(msgType := if IsData(s.frame.flags) && Fin(s.frame.flags) then 0 else s.msgType)
  }

  /** Some of the payload bytes still missing, all at once. */
  function TakePayload(app: App, s: State, plain: seq<Byte>): (r: State)
    requires s.Live?
  {
    if TextAfter(s, plain).None? then Abort(s.life, s.log, ReasonFromErrno(EILSEQ)) else EndPayload(app, Soak(s, plain))
  }

  function Step(app: App, s: State, b: Byte): (r: State) {
    if !s.Live? then s
    else match s.frame.phase
      case OP => StepOp(s, b)
      case LEN => StepLen(s, b)
      case LEN_EXTENDED => if s.frame.idx == 0 then Lost else EndExtended(ExtendLen(s, b))
      case MASKING_KEY => EndMask(app, s.(frame := s.frame.(key := s.frame.key + [b])))
      case PAYLOAD =>
        if |s.frame.key| == 4 && s.frame.parsed < s.frame.len && !Tangled(s.frame.flags, s.msgType, s.frame.len) then
          TakePayload(app, s, Plain(s, [b]))
        else Lost
      case COMPLETE => Lost
  }

  function Run(app: App, s: State, bs: seq<Byte>): (r: State)
    decreases |bs|
  {
    if bs == [] then s else Run(app, Step(app, s, bs[0]), bs[1..])
  }

  lemma {:induction false} RunSplit(app: App, s: State, a: seq<Byte>, b: seq<Byte>)
    ensures Run(app, s, a + b) == Run(app, Run(app, s, a), b)
    decreases |a|
  {
    if a == [] {
      assert a + b == b;
    } else {
      assert (a + b)[0] == a[0] && (a + b)[1..] == a[1..] + b;
      RunSplit(app, Step(app, s, a[0]), a[1..], b);
    }
  }

  lemma {:induction false} RunAbsorbed(app: App, s: State, bs: seq<Byte>)
    requires !s.Live?
    ensures Run(app, s, bs) == s
    decreases |bs|
  {
    if bs != [] { RunAbsorbed(app, s, bs[1..]); }
  }

  // ---------------------------------------------------------------- payload

  /** Section 5.3: byte j of the payload with byte j mod 4 of the key. */
  lemma {:induction false} UnmaskAt(key: seq<Byte>, from: nat, s: seq<Byte>, j: nat)
    requires |key| == 4 && j < |s|
    ensures Unmask(key, from, s)[j] == Xor(s[j], key[(from + j) % 4])
    decreases j
  {
    if j > 0 { UnmaskAt(key, from + 1, s[1..], j - 1); }
  }

  /** The same bit by bit. */
  lemma UnmaskBits(key: seq<Byte>, from: nat, s: seq<Byte>, j: nat)
    requires |key| == 4 && j < |s|
    ensures IsXor(Unmask(key, from, s)[j], s[j], key[(from + j) % 4])
  {
    UnmaskAt(key, from, s, j);
    XorMeaning(s[j], key[(from + j) % 4]);
  }

  lemma {:induction false} UnmaskSplit(key: seq<Byte>, from: nat, a: seq<Byte>, b: seq<Byte>)
    requires |key| == 4
    ensures Unmask(key, from, a + b) == Unmask(key, from, a) + Unmask(key, from + |a|, b)
    decreases |a|
  {
    if a == [] {
      assert a + b == b;
    } else {
      var r, x := Unmask(key, from + 1, a[1..]), Xor(a[0], key[from % 4]);
      assert (a + b)[0] == a[0] && (a + b)[1..] == a[1..] + b;
      UnmaskSplit(key, from + 1, a[1..], b);
      assert ([x] + r) + Unmask(key, from + |a|, b) == [x] + (r + Unmask(key, from + |a|, b));
    }
  }

  lemma {:induction false} UnmaskTwice(key: seq<Byte>, from: nat, s: seq<Byte>)
    requires |key| == 4
    ensures Unmask(key, from, Unmask(key, from, s)) == s
    decreases |s|
  {
    if s != [] {
      var r := Unmask(key, from, s);
      assert r[1..] == Unmask(key, from + 1, s[1..]);
      XorInvolution(s[0], key[from % 4]);
      UnmaskTwice(key, from + 1, s[1..]);
    }
  }

  lemma SoakSplit(s: State, p: seq<Byte>, q: seq<Byte>)
    requires s.Live?
    ensures TextAfter(s, p + q).None? <==> TextAfter(s, p).None? || TextAfter(Soak(s, p), q).None?
    ensures TextAfter(s, p + q).Some? ==> Soak(s, p + q) == Soak(Soak(s, p), q)
  {
    Utf8.RunSplit(s.pend, p, q);
    assert s.frame.payload + (p + q) == (s.frame.payload + p) + q;
  }

  /** A payload byte with more to come. */
  lemma StepMore(app: App, s: State, b: Byte)
    requires s.Live? && s.frame.phase == PAYLOAD && |s.frame.key| == 4
    requires s.frame.parsed + 1 < s.frame.len && !Tangled(s.frame.flags, s.msgType, s.frame.len)
    ensures Step(app, s, b) == if TextAfter(s, Plain(s, [b])).None? then Abort(s.life, s.log, 1007)
        else Soak(s, Plain(s, [b]))
  {
  }

  lemma TakeSplit(app: App, s: State, p: seq<Byte>, q: seq<Byte>)
    requires s.Live?
    ensures TextAfter(s, p).None? ==> TakePayload(app, s, p + q) == Abort(s.life, s.log, 1007)
    ensures TextAfter(s, p).Some? ==> TakePayload(app, s, p + q) == TakePayload(app, Soak(s, p), q)
  {
    SoakSplit(s, p, q);
  }

  /** Payload bytes taken one at a time amount to the same bytes taken at once. */
  lemma {:induction false} PayloadSteps(app: App, s: State, bs: seq<Byte>)
    requires s.Live? && s.frame.phase == PAYLOAD && |s.frame.key| == 4
    requires 0 < |bs| && s.frame.parsed + |bs| <= s.frame.len && !Tangled(s.frame.flags, s.msgType, s.frame.len)
    ensures Run(app, s, bs) == TakePayload(app, s, Plain(s, bs))
    decreases |bs|, 1
  {
    if |bs| == 1 {
      assert bs == [bs[0]];
      assert Run(app, s, bs) == Run(app, Step(app, s, bs[0]), []);
    } else {
      PayloadStepsMore(app, s, bs);
    }
  }

  lemma PlainCons(s: State, bs: seq<Byte>)
    requires s.Live? && |s.frame.key| == 4 && bs != []
    ensures Plain(s, bs) == Plain(s, [bs[0]]) + Unmask(s.frame.key, s.frame.parsed + 1, bs[1..])
  {
    assert [bs[0]][1..] == [];
    assert Unmask(s.frame.key, s.frame.parsed + 1, []) == [];
  }

  lemma {:induction false} PayloadStepsMore(app: App, s: State, bs: seq<Byte>)
    requires s.Live? && s.frame.phase == PAYLOAD && |s.frame.key| == 4
    requires 1 < |bs| && s.frame.parsed + |bs| <= s.frame.len && !Tangled(s.frame.flags, s.msgType, s.frame.len)
    ensures Run(app, s, bs) == TakePayload(app, s, Plain(s, bs))
    decreases |bs|, 0
  {
    var p := Plain(s, [bs[0]]);
    StepMore(app, s, bs[0]);
    if TextAfter(s, p).Some? {
      PayloadSteps(app, Soak(s, p), bs[1..]);
      SoakedThenMore(app, s, bs);
    } else {
      RunAbsorbed(app, Step(app, s, bs[0]), bs[1..]);
      PlainCons(s, bs);
      TakeSplit(app, s, p, Unmask(s.frame.key, s.frame.parsed + 1, bs[1..]));
    }
  }

  /** Taking the first byte and then the others amounts to taking them all. */
  lemma SoakedThenMore(app: App, s: State, bs: seq<Byte>)
    requires s.Live? && |s.frame.key| == 4 && bs != [] && TextAfter(s, Plain(s, [bs[0]])).Some?
    ensures var t := Soak(s, Plain(s, [bs[0]]));
            TakePayload(app, t, Plain(t, bs[1..])) == TakePayload(app, s, Plain(s, bs))
  {
    var p := Plain(s, [bs[0]]);
    PlainCons(s, bs);
    PlainAfter(s, p, bs[1..]);
    TakeSplit(app, s, p, Plain(Soak(s, p), bs[1..]));
  }

  lemma PlainAfter(s: State, p: seq<Byte>, bs: seq<Byte>)
    requires s.Live? && |s.frame.key| == 4 && TextAfter(s, p).Some?
    ensures Plain(Soak(s, p), bs) == Unmask(s.frame.key, s.frame.parsed + |p|, bs)
  {
  }

  /** The same, case by case: refused, still going, or complete and dispatched. */
  lemma PayloadCases(app: App, s: State, bs: seq<Byte>)
    requires s.Live? && s.frame.phase == PAYLOAD && |s.frame.key| == 4
    requires 0 < |bs| && s.frame.parsed + |bs| <= s.frame.len
    ensures Tangled(s.frame.flags, s.msgType, s.frame.len) ==> Run(app, s, bs) == Lost
    ensures !Tangled(s.frame.flags, s.msgType, s.frame.len) && TextAfter(s, Plain(s, bs)).Some? ==>
              var r := Soak(s, Plain(s, bs));
              && (r.frame.parsed < s.frame.len ==> Run(app, s, bs) == r)
              && (r.frame.parsed == s.frame.len && Unfinished(r) ==> Run(app, s, bs) == Abort(s.life, s.log, 1007))
              && (r.frame.parsed == s.frame.len && !Unfinished(r) ==>
                    Run(app, s, bs) == Dispatch(app, EndType(r), s.frame.flags, r.frame.payload))
    ensures !Tangled(s.frame.flags, s.msgType, s.frame.len) && TextAfter(s, Plain(s, bs)).None? ==>
              Run(app, s, bs) == Abort(s.life, s.log, 1007)
  {
    if Tangled(s.frame.flags, s.msgType, s.frame.len) {
      RunAbsorbed(app, Lost, bs[1..]);
    } else {
      PayloadSteps(app, s, bs);
    }
  }

  /** A final frame that leaves a text character incomplete. */
  predicate Unfinished(s: State)
    requires s.Live?
  {
    Fin(s.frame.flags) && NeedsUtf8(s.frame.flags, s.msgType) && s.pend != []
  }
}
