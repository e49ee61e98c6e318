/** The receive side of a WebSocket session: ymo_ws_parse.c, the read callback of ymo_proto_ws.c and
    the frame buffer of ymo_ws_session.c. */
module WsSession {
  import opened Bytes
  import opened Common
  import opened WsMachine
  import opened WsUnmask
  import Utf8

  const FRAME_MIN := 256

  ghost predicate Zeros(lens: seq<nat>) {
    forall i :: 0 <= i < |lens| ==> lens[i] == 0
  }

  predicate Stopped(life: Life) {
    life == CLOSE_RECEIVED || life == ERROR
  }

  ghost predicate IsClose(e: Event) {
    e.Queue? && Op(e.flags) == OP_CLOSE
  }

  ghost predicate NoClose(log: seq<Event>) {
    forall e :: e in log ==> !IsClose(e)
  }

  /** The protocol's own Close frame, if any, is the last event, and the session has stopped by then. */
  ghost predicate CloseIsLast(log: seq<Event>, life: Life) {
    (!Stopped(life) ==> NoClose(log)) && (log != [] ==> NoClose(log[..|log| - 1]))
  }

  class Session {
    // ymo_ws_frame_t
    var len: nat
    var parsed: nat
    var maskingKey: seq<Byte>
    var parseState: Phase
    var masked: bool
    var flags: Byte
    var buffer: array?<Byte>
    var bufLen: nat
    var modOrIdx: Byte  // mask_mod and len_idx share their storage

    // ymo_ws_session_t; the receive list holds bucket lengths, a nonempty bucket being the frame buffer
    var recv: seq<nat>
    var state: Life
    var msgType: Byte
    const utf8: Utf8.Utf8State
    const app: App

    var log: seq<Event>  // everything delivered and queued so far
    ghost var emptyPong: bool  // an empty Pong has been received

    ghost predicate HasRoom(n: nat)
      reads this`buffer
    {
      buffer != null && n <= buffer.Length && n <= FRAME_MAX
    }

    ghost predicate Steady()
      reads this, utf8
    {
      Sound() && (!Stopped(state) ==> utf8.Valid())
    }

    ghost predicate Sound()
      reads this
    {
      && |maskingKey| == 4
      && (buffer == null ==> bufLen == 0) && (buffer != null ==> bufLen == buffer.Length >= FRAME_MIN)
      && (!emptyPong ==> CloseIsLast(log, state))
    }

    /** What holds while a frame is being parsed, phase by phase. */
    ghost predicate Parsing()
      reads this
    {
      && !Stopped(state) && Zeros(recv) && (!emptyPong ==> recv == [])
      && ((parseState == MASKING_KEY || parseState == PAYLOAD) && !IsData(flags) ==> len <= 125)
      && (parseState == LEN_EXTENDED ==> IsData(flags))
      && (parseState == OP ==> len == 0 && parsed == 0 && modOrIdx == 0)
      && (parseState == LEN ==> len == 0 && parsed == 0 && modOrIdx == 0)
      && (parseState == LEN_EXTENDED ==> masked && parsed == 0 && 1 <= modOrIdx <= 8)
      && (parseState == MASKING_KEY ==> masked && parsed == 0 && modOrIdx < 4 && HasRoom(len))
      && (parseState == PAYLOAD ==>
            && masked && parsed < len && HasRoom(len)
            && (Op(flags) != OP_PONG ==> modOrIdx % 4 == parsed % 4))
      && parseState != COMPLETE
    }

    /** A data frame that completed after the session left CONNECTED is never let go of. */
    ghost predicate Stuck()
      reads this
    {
      Finished() && !Stopped(state) && state != CONNECTED && Op(flags) <= OP_BINARY
    }

    ghost predicate Valid()
      reads this, utf8
    {
      Steady() && (Stopped(state) || Stuck() || Parsing())
    }

    ghost function FrameNow(): (f: Frame)
      requires |maskingKey| == 4
      reads this, buffer
    {
      match parseState
      case OP => NoFrame
      case LEN => Frame(LEN, flags, 0, 0, [], 0, [])
      case LEN_EXTENDED => Frame(LEN_EXTENDED, flags, len, modOrIdx, [], 0, [])
      case MASKING_KEY => Frame(MASKING_KEY, flags, len, 0, maskingKey[..if modOrIdx <= 4 then modOrIdx else 4], 0, [])
      case _ =>
        Frame(PAYLOAD, flags, len, 0, maskingKey, parsed,
              if Op(flags) != OP_PONG && buffer != null && parsed <= buffer.Length then buffer[..parsed] else [])
    }

    ghost function Abs(): (s: State)
      requires |maskingKey| == 4
      reads this, buffer, utf8
    {
      if Stopped(state) || parseState == COMPLETE then Quiet(state, log)
      else Live(state, FrameNow(), msgType, utf8.pend, |recv|, log)
    }

    constructor (app: App)
      ensures Valid() && fresh(utf8) && buffer == null && !emptyPong && log == [] && state == CONNECTED
      ensures this.app == app && Abs() == Fresh
    {
      len, parsed, maskingKey, parseState, masked, flags := 0, 0, [0, 0, 0, 0], OP, false, 0;
      buffer, bufLen, modOrIdx, recv, state, msgType := null, 0, 0, [], CONNECTED, 0;
      utf8 := new Utf8.Utf8State();
      this.app := app;
      log, emptyPong := [], false;
    }

    /** ymo_ws_session_alloc_frame. */
    method AllocFrame(n: nat) returns (status: Status)
      requires Steady()
      modifies this`buffer, this`bufLen
      ensures Steady() && status == if n > FRAME_MAX then ENOBUFS else OKAY
      ensures status == OKAY ==> HasRoom(n)
      ensures buffer == old(buffer) || fresh(buffer)
    {
      if n > FRAME_MAX {
        return ENOBUFS;
      }
      if buffer != null {
        if bufLen >= n {
          return OKAY;
        }
        buffer, bufLen := null, 0;
      }
      var size := if n > FRAME_MIN then n else FRAME_MIN;
      buffer := new Byte[size](_ => 0);
      bufLen := size;
      status := OKAY;
    }

    /** ymo_ws_parse_op. */
    method ParseOp(b: Byte) returns (errno: Status)
      requires Steady() && Parsing() && parseState == OP
      modifies this`flags, this`msgType, this`parseState
      ensures errno == CheckOp(old(msgType), b)
      ensures errno == OKAY ==> Parsing() && Abs() == StepOp(old(Abs()), b)
    {
      flags := b;
      if Reserved(flags) {
        return EBADMSG;
      }
      var finRequired := false;
      if Op(flags) == OP_CLOSE {
        finRequired := true;
      } else if Op(flags) == OP_CONTINUATION {
        if msgType == 0 {
          return EINVAL;
        }
      } else if Op(flags) == OP_TEXT || Op(flags) == OP_BINARY {
        if msgType != 0 {
          return EINVAL;
        }
        if !Fin(flags) {
          msgType := Op(flags);
        }
      } else if Op(flags) == OP_PING || Op(flags) == OP_PONG {
        finRequired := true;
      } else {
        return EBADMSG;
      }
      if finRequired && !Fin(flags) {
        return EBADMSG;
      }
      parseState := LEN;
      errno := OKAY;
    }

    /** ymo_ws_parse_len. */
    method ParseLen(b: Byte) returns (errno: Status)
      requires Steady() && Parsing() && parseState == LEN
      modifies this`masked, this`len, this`modOrIdx, this`parseState, this`buffer, this`bufLen
      ensures Steady() && (buffer == old(buffer) || fresh(buffer))
      ensures errno == CheckLen(flags, b)
      ensures errno == OKAY ==> Parsing() && Abs() == StepLen(old(Abs()), b)
    {
      masked := b / 128 == 1;
      var msgLen := b % 128;
      if !masked {
        errno := EBADMSG;
      } else {
        errno := MaskedLen(msgLen);
      }
    }

    /** The length of a masked frame, in byte 1 or after it. */
    method MaskedLen(msgLen: Byte) returns (errno: Status)
      requires Steady() && Parsing() && parseState == LEN && masked && msgLen < 128
      modifies this`len, this`modOrIdx, this`parseState, this`buffer, this`bufLen
      ensures Steady() && (buffer == old(buffer) || fresh(buffer))
      ensures errno == CheckLen(flags, 128 + msgLen)
      ensures errno == OKAY ==> Parsing() && Abs() == StepLen(old(Abs()), 128 + msgLen)
    {
      if msgLen <= 125 {
        errno := ShortLen(msgLen);
      } else {
        errno := LongLen(if msgLen == 126 then 2 else 8);
      }
    }

    /** The length is in byte 1 itself. */
    method ShortLen(msgLen: nat) returns (errno: Status)
      requires Steady() && Parsing() && parseState == LEN && masked && msgLen <= 125
      modifies this`len, this`parseState, this`buffer, this`bufLen
      ensures Steady() && (buffer == old(buffer) || fresh(buffer)) && errno == OKAY && Parsing()
      ensures Abs() == Live(state, Frame(MASKING_KEY, flags, msgLen, 0, [], 0, []), msgType, utf8.pend, |recv|, log)
    {
      len, parseState := msgLen, MASKING_KEY;
      errno := AllocFrame(msgLen);
    }

    /** The length follows in `n` bytes, which only a data frame may have. */
    method LongLen(n: Byte) returns (errno: Status)
      requires Steady() && Parsing() && parseState == LEN && masked && 1 <= n <= 8
      modifies this`modOrIdx, this`parseState
      ensures Steady() && errno == if IsData(flags) then OKAY else EBADMSG
      ensures IsData(flags) ==> Parsing()
      ensures Abs() == Live(state, Frame(LEN_EXTENDED, flags, 0, n, [], 0, []), msgType, utf8.pend, |recv|, log)
    {
      modOrIdx, parseState := n, LEN_EXTENDED;
      if flags / 8 % 2 == 1 {
        return EBADMSG;
      }
      errno := OKAY;
    }

    /** The frame just completed is `t` to the machine: its buckets are the spare ones and its own. */
    ghost predicate Completed(t: State)
      reads this, buffer, utf8
    {
      && parseState == COMPLETE && t.Live? && t.life == state && t.log == log && t.msgType == msgType
      && t.pend == utf8.pend && t.frame.flags == flags && t.frame.len == len
      && |recv| == t.spare + (if Op(flags) == OP_PONG && len > 0 then 0 else 1)
      && (Op(flags) == OP_PONG || (|t.frame.payload| == len && HasRoom(len) && buffer[..len] == t.frame.payload))
    }

    /** A frame is complete and its bucket is on the receive list, after empty ones only. */
    ghost predicate Finished()
      reads this`parseState, this`buffer, this`len, this`recv, this`flags, this`emptyPong
    {
      && parseState == COMPLETE && HasRoom(len) && (Op(flags) == OP_PONG && len == 0 ==> emptyPong)
      && (recv != [] ==> Zeros(recv[..|recv| - 1]))
      && (Op(flags) == OP_PONG ==> Zeros(recv))
      && (Op(flags) != OP_PONG ==> recv != [] && recv[|recv| - 1] == len)
      && (!emptyPong ==> |recv| == if Op(flags) == OP_PONG && len > 0 then 0 else 1)
    }

    /** Parsing is under way at machine state `r`, or the completed frame `t` is dispatched to reach it. */
    ghost predicate Reaches(r: State, t: State)
      reads this, buffer, utf8
    {
      Underway() && Matches(r, t)
    }

    ghost predicate Underway()
      reads this, utf8
    {
      Steady() && !Stopped(state) && (Parsing() || Finished())
    }

    ghost predicate Matches(r: State, t: State)
      reads this, buffer, utf8
      requires |maskingKey| == 4
    {
      || r == Lost
      || if parseState == COMPLETE then Completed(t) && r == Dispatch(app, t, flags, t.frame.payload) else r == Abs()
    }

    /** ymo_ws_parse_len_ext. */
    method ParseLenExt(bs: seq<Byte>) returns (n: nat, errno: Status)
      requires Steady() && Parsing() && parseState == LEN_EXTENDED && bs != []
      modifies this`len, this`modOrIdx, this`parseState, this`buffer, this`bufLen
      ensures Steady() && (buffer == old(buffer) || fresh(buffer)) && 0 < n <= |bs|
      ensures errno == OKAY ==> Parsing() && Run(app, old(Abs()), bs[..n]) == Abs()
      ensures errno != OKAY ==> Run(app, old(Abs()), bs[..n]) == Abort(state, log, ReasonFromErrno(errno))
    {
      n := LenBytes(bs);
      errno := OKAY;
      if modOrIdx == 0 {
        errno := EndLen();
      }
    }

    /** The loop over the bytes of the extended length. */
    method LenBytes(bs: seq<Byte>) returns (n: nat)
      requires Steady() && !Stopped(state) && parseState == LEN_EXTENDED && 1 <= modOrIdx <= 8 && bs != []
      modifies this`len, this`modOrIdx
      ensures Steady() && modOrIdx <= 8 && 0 < n <= |bs|
      ensures Abs().Live? && Run(app, old(Abs()), bs[..n]) == EndExtended(Abs())
    {
      n := 0;
      ghost var was := Abs();
      while n < |bs| && modOrIdx > 0
        invariant n <= |bs| && modOrIdx <= 8 && (n == 0 ==> modOrIdx > 0) && Steady()
        invariant Run(app, was, bs[..n]) == EndExtended(Abs())
      {
        RunSnoc(app, was, bs, n);
        LenByte(bs[n]);
        n := n + 1;
      }
    }

    /** One byte of the extended length. */
    method LenByte(b: Byte)
      requires Steady() && !Stopped(state) && parseState == LEN_EXTENDED && 0 < modOrIdx <= 8
      modifies this`len, this`modOrIdx
      ensures Steady() && modOrIdx == old(modOrIdx) - 1
      ensures old(Abs()).Live? && old(Abs()).frame.idx > 0 && EndExtended(old(Abs())) == old(Abs())
      ensures Abs() == ExtendLen(old(Abs()), b) && EndExtended(Abs()) == Step(app, old(Abs()), b)
    {
      modOrIdx := modOrIdx - 1;
      len := len + Weight(b, modOrIdx);
    }

    /** The extended length is complete. */
    method EndLen() returns (errno: Status)
      requires Steady() && !Stopped(state) && Zeros(recv) && (!emptyPong ==> recv == [])
      requires parseState == LEN_EXTENDED && masked && parsed == 0 && modOrIdx == 0 && IsData(flags)
      modifies this`parseState, this`buffer, this`bufLen
      ensures Steady() && (buffer == old(buffer) || fresh(buffer))
      ensures errno == OKAY ==> Parsing() && EndExtended(old(Abs())) == Abs()
      ensures errno != OKAY ==> EndExtended(old(Abs())) == Abort(state, log, ReasonFromErrno(errno))
    {
      if len >= 0x8000_0000_0000_0000 {
        return EBADMSG;
      }
      errno := AllocFrame(len);
      if errno != OKAY {
        return;
      }
      parseState := MASKING_KEY;
      assert maskingKey[..0] == [];
    }

    /** ymo_ws_parse_masking_key. */
    method ParseMaskingKey(bs: seq<Byte>) returns (n: nat, ghost t: State)
      requires Steady() && Parsing() && parseState == MASKING_KEY && bs != []
      modifies this`maskingKey, this`modOrIdx, this`parseState, this`recv, this`emptyPong
      ensures 0 < n <= |bs| && Reaches(Run(app, old(Abs()), bs[..n]), t) && (old(emptyPong) ==> emptyPong)
    {
      n := KeyBytes(bs);
      t := Lost;
      if modOrIdx == 4 {
        t := EndKey();
      }
    }

    /** The loop over the bytes of the masking key. */
    method KeyBytes(bs: seq<Byte>) returns (n: nat)
      requires Steady() && !Stopped(state) && parseState == MASKING_KEY && modOrIdx < 4 && bs != []
      modifies this`maskingKey, this`modOrIdx
      ensures Steady() && modOrIdx <= 4 && 0 < n <= |bs|
      ensures Abs().Live? && Run(app, old(Abs()), bs[..n]) == EndMask(app, Abs())
    {
      n := 0;
      ghost var was := Abs();
      while n < |bs| && modOrIdx < 4
        invariant n <= |bs| && modOrIdx <= 4 && (n == 0 ==> modOrIdx < 4) && Steady()
        invariant Run(app, was, bs[..n]) == EndMask(app, Abs())
      {
        RunSnoc(app, was, bs, n);
        KeyByte(bs[n]);
        n := n + 1;
      }
    }

    /** One byte of the masking key. */
    method KeyByte(b: Byte)
      requires Steady() && !Stopped(state) && parseState == MASKING_KEY && modOrIdx < 4
      modifies this`maskingKey, this`modOrIdx
      ensures Steady() && modOrIdx == old(modOrIdx) + 1
      ensures Abs().Live? && old(Abs()).Live? && EndMask(app, old(Abs())) == old(Abs())
      ensures EndMask(app, Abs()) == Step(app, old(Abs()), b)
    {
      KeySnoc(maskingKey, modOrIdx, b);
      maskingKey := maskingKey[modOrIdx := b];
      modOrIdx := modOrIdx + 1;
    }

    /** The masking key is complete: on to the payload, or to an empty bucket if there is none. */
    method EndKey() returns (ghost t: State)
      requires Steady() && !Stopped(state) && Zeros(recv) && (!emptyPong ==> recv == [])
      requires parseState == MASKING_KEY && masked && parsed == 0 && modOrIdx == 4 && HasRoom(len)
      requires !IsData(flags) ==> len <= 125
      modifies this`parseState, this`recv, this`emptyPong
      ensures Reaches(EndMask(app, old(Abs())), t) && (old(emptyPong) ==> emptyPong)
    {
      t := Abs();
      assert t.frame.key == maskingKey by { assert maskingKey[..4] == maskingKey; }
      if len != 0 {
        assert buffer[..0] == [];
        parseState := PAYLOAD;
      } else {
        EndEmpty(t);
      }
    }

    /** A frame without payload is complete at once. */
    method EndEmpty(ghost t: State)
      requires Steady() && !Stopped(state) && Zeros(recv) && (!emptyPong ==> recv == [])
      requires parseState == MASKING_KEY && len == 0 && HasRoom(0) && t == Abs() && t.frame.payload == []
      modifies this`parseState, this`recv, this`emptyPong
      ensures Steady() && Finished() && Completed(t) && (old(emptyPong) ==> emptyPong)
    {
      assert buffer[..0] == [];
      recv := recv + [0];
      parseState := COMPLETE;
      emptyPong := emptyPong || Op(flags) == OP_PONG;
    }

    /** The call of unmask_payload: a Pong is left masked in the read buffer. */
    method UnmaskPayload(rd: seq<Byte>, addr: nat)
      requires Steady() && Parsing() && parseState == PAYLOAD && parsed + |rd| <= len && addr + |rd| + 3 < SIZE_LIMIT
      modifies this`modOrIdx, buffer
      ensures buffer != null && buffer == old(buffer)
      ensures Op(flags) != OP_PONG ==>
                && modOrIdx % 4 == (parsed + |rd|) % 4
                && buffer[..parsed + |rd|] == old(buffer[..parsed]) + Unmask(maskingKey, parsed, rd)
                && buffer[parsed..parsed + |rd|] == Unmask(maskingKey, parsed, rd)
      ensures Op(flags) == OP_PONG ==> modOrIdx == old(modOrIdx)
    {
      if Op(flags) != OP_PONG {
        ghost var was := buffer[..];
        ghost var mod := modOrIdx;
        modOrIdx := UnmaskInto(rd, addr, buffer, parsed, maskingKey, modOrIdx);
        CongruentSum(modOrIdx, mod, |rd|, parsed);
        UnmaskedAppends(buffer[..], was, parsed, maskingKey, mod, rd);
        assert buffer[..][..parsed + |rd|] == buffer[..parsed + |rd|] && was[..parsed] == old(buffer[..parsed]);
        assert buffer[..][parsed..parsed + |rd|] == buffer[parsed..parsed + |rd|];
      }
    }

    /** ymo_ws_parse_payload. */
    method ParsePayload(bs: seq<Byte>, addr: nat) returns (n: nat, errno: Status, ghost t: State)
      requires Steady() && Parsing() && parseState == PAYLOAD && bs != [] && addr + |bs| + 3 < SIZE_LIMIT
      modifies this`parsed, this`modOrIdx, this`parseState, this`msgType, this`recv, utf8, buffer
      ensures 0 < n <= |bs|
      ensures errno == OKAY ==> Reaches(Run(app, old(Abs()), bs[..n]), t)
      ensures errno != OKAY ==> Sound()
      ensures errno != OKAY ==> Run(app, old(Abs()), bs[..n]) in {Lost, Abort(state, log, ReasonFromErrno(errno))}
    {
      n := if |bs| < len - parsed then |bs| else len - parsed;
      ghost var r;
      errno, r := TakeJudged(bs[..n], addr);
      t := Lost;
      if errno == OKAY {
        t := AfterPayload(r);
      }
    }

    /** Payload bytes taken in, and where that leads the machine. */
    method TakeJudged(rd: seq<Byte>, addr: nat) returns (errno: Status, ghost r: State)
      requires Steady() && Parsing() && parseState == PAYLOAD && 0 < |rd| <= len - parsed
          && addr + |rd| + 3 < SIZE_LIMIT
      modifies this`parsed, this`modOrIdx, utf8, buffer
      ensures Sound() && buffer == old(buffer) && parsed == old(parsed) + |rd|
      ensures Op(flags) != OP_PONG ==> modOrIdx % 4 == parsed % 4
      ensures r == Run(app, old(Abs()), rd) && (errno == OKAY ==> Steady() && LeadsTo(app, r, Abs()))
      ensures errno != OKAY ==> r in {Lost, Abort(state, log, ReasonFromErrno(errno))}
    {
      ghost var was := Abs();
      errno := TakeIn(rd, addr);
      r := Run(app, was, rd);
      JudgePayload(app, was, rd, errno, Abs());
    }

    /** The frame ends, if these were its last bytes; `r` is where the machine is. */
    method AfterPayload(ghost r: State) returns (ghost t: State)
      requires Steady() && !Stopped(state) && Zeros(recv) && (!emptyPong ==> recv == [])
      requires parseState == PAYLOAD && masked && parsed <= len && len > 0 && HasRoom(len)
      requires (!IsData(flags) ==> len <= 125) && (Op(flags) != OP_PONG ==> modOrIdx % 4 == parsed % 4)
      requires LeadsTo(app, r, Abs())
      modifies this`parseState, this`msgType, this`recv
      ensures Reaches(r, t)
    {
      t := Lost;
      if parsed == len {
        t := EndFrame();
      }
    }

    /** Payload bytes into the frame buffer. */
    method TakeBytes(rd: seq<Byte>, addr: nat)
      requires Steady() && Parsing() && parseState == PAYLOAD && 0 < |rd| <= len - parsed
          && addr + |rd| + 3 < SIZE_LIMIT
      modifies this`parsed, this`modOrIdx, buffer
      ensures Steady() && buffer == old(buffer) && parsed == old(parsed) + |rd|
      ensures Op(flags) != OP_PONG ==> modOrIdx % 4 == parsed % 4
      ensures old(Abs()).Live? && |old(Abs()).frame.key| == 4
          && Abs() == Taken(old(Abs()), Plain(old(Abs()), rd), utf8.pend)
      ensures Op(flags) != OP_PONG ==> buffer[old(parsed)..old(parsed) + |rd|] == Plain(old(Abs()), rd)
    {
      ghost var was := Abs();
      UnmaskPayload(rd, addr);
      parsed := parsed + |rd|;
      assert Op(flags) != OP_PONG ==> FrameNow().payload == was.frame.payload + Plain(was, rd);
    }

    /** Payload bytes into the frame buffer, and through the validator. */
    method TakeIn(rd: seq<Byte>, addr: nat) returns (errno: Status)
      requires Steady() && Parsing() && parseState == PAYLOAD && 0 < |rd| <= len - parsed
          && addr + |rd| + 3 < SIZE_LIMIT
      modifies this`parsed, this`modOrIdx, utf8, buffer
      ensures Sound() && buffer == old(buffer) && parsed == old(parsed) + |rd|
      ensures Op(flags) != OP_PONG ==> modOrIdx % 4 == parsed % 4
      ensures errno == OKAY ==> Steady()
      ensures Judged(old(Abs()), rd, errno, Abs())
    {
      var wr, frameDone := parsed, parsed + |rd| == len;
      ghost var was := Abs();
      ghost var text := Plain(was, rd);
      TakeBytes(rd, addr);
      errno := JudgeText(wr, |rd|, frameDone, was, text);
    }

    /** Validation, and what the machine makes of the same bytes. */
    method JudgeText(wr: nat, n: nat, frameDone: bool, ghost was: State, ghost text: seq<Byte>) returns (errno: Status)
      requires Steady() && parseState == PAYLOAD && HasRoom(len) && wr + n <= len && (!IsData(flags) ==> len <= 125)
      requires !Stopped(state) && len > 0 && (IsData(flags) ==> buffer[wr..wr + n] == text)
      requires Feeds(was, text, frameDone)
      modifies utf8
      ensures Sound() && (errno == OKAY ==> Steady())
      ensures !Tangled(flags, msgType, len) ==> SoakedIn(was, text, errno, Taken(was, text, utf8.pend))
    {
      errno := CheckText(wr, n, frameDone, text);
      if !Tangled(flags, msgType, len) {
        SoakedFrom(was, text, errno, utf8.pend);
      }
    }

    /** The machine at `was` is at the frame being parsed, and `text` comes next. */
    ghost predicate Feeds(was: State, text: seq<Byte>, frameDone: bool)
      reads this, utf8
    {
      && was.Live? && was.frame.flags == flags && was.msgType == msgType && was.pend == utf8.pend
      && was.frame.len == len && (frameDone <==> was.frame.parsed + |text| == len)
    }

    /** Streaming validation of what was just written, skipping the status code of a Close. */
    method CheckText(wr: nat, n: nat, frameDone: bool, ghost text: seq<Byte>) returns (errno: Status)
      requires Steady() && parseState == PAYLOAD && HasRoom(len) && wr + n <= len && (!IsData(flags) ==> len <= 125)
      requires !Stopped(state) && (IsData(flags) ==> buffer[wr..wr + n] == text)
      modifies utf8
      ensures Sound() && (errno == OKAY ==> Steady())
      ensures NeedsUtf8(flags, msgType) && len > 0 && IsData(flags) ==>
                Checked(old(utf8.pend), text, frameDone && Fin(flags), errno, utf8.pend)
      ensures !NeedsUtf8(flags, msgType) ==> errno == OKAY && utf8.pend == old(utf8.pend)
    {
      errno := OKAY;
      if NeedsUtf8(flags, msgType) && len != 0 {
        var at := if Op(flags) == OP_CLOSE && wr == 0 then 2 else wr;
        errno := utf8.Check(buffer[at..at + n], frameDone && Fin(flags));
      }
    }

    /** The last byte of a payload is in. */
    method EndFrame() returns (ghost t: State)
      requires Steady() && !Stopped(state) && Zeros(recv) && (!emptyPong ==> recv == []) && HasRoom(len)
      requires parseState == PAYLOAD && parsed == len && len > 0 && masked
      modifies this`parseState, this`msgType, this`recv
      ensures Steady() && Finished()
      ensures t == EndType(old(Abs())) && Completed(t)
    {
      t := EndType(Abs());
      parseState := COMPLETE;
      if IsData(flags) && Fin(flags) {
        msgType := 0;
      }
      if Op(flags) != OP_PONG {
        recv := recv + [len];
      }
    }

    // -------------------------------------------------------------- complete frames

    ghost function Buckets(): (bs: seq<seq<Byte>>)
      reads this`buffer, this`recv, buffer
    {
      BucketsOf(recv, if buffer == null then [] else buffer[..])
    }

    method BucketAt(i: nat) returns (data: seq<Byte>)
      requires Finished() && Op(flags) != OP_PONG && i < |recv|
      ensures data == Buckets()[i]
    {
      data := if recv[i] == 0 then [] else buffer[..recv[i]];
    }

    /** ymo_ws_session_send: only a connected session queues what the application sends; a status says why not. */
    method Send(flags: Byte, payload: seq<Byte>) returns (status: Status)
      modifies this`log
      ensures status == SendStatus(state, flags)
      ensures status == OKAY <==> state == CONNECTED && flags % 16 in {0, 1, 2, 8, 9, 10}
      ensures log == old(log) + (if status == OKAY then [AppQueue(flags, payload)] else [])
    {
      if !ValidSendOp(flags) {
        return EINVAL;
      }
      if state == CONNECTED {
        log := log + [AppQueue(flags, payload)];
        return OKAY;
      }
      match state
      case CLOSE_RECEIVED => status := EADDRNOTAVAIL;
      case EXPECT_CLOSE => status := EADDRNOTAVAIL;
      case CLOSED => status := EPIPE;
      case ERROR => status := ECONNABORTED;
    }

    /** One call of the user's callback, with the frames it sends. */
    method CallBack(data: seq<Byte>) returns (status: Status)
      requires state == CONNECTED
      modifies this`log
      ensures var log1 := old(log) + [Deliver(flags, data)];
              log == log1 + Accepted(app(log1, flags, data).sends) && status == app(log1, flags, data).status
    {
      log := log + [Deliver(flags, data)];
      ghost var log1 := log;
      var reply := app(log, flags, data);
      var k := 0;
      while k < |reply.sends|
        invariant k <= |reply.sends| && log == log1 + Accepted(reply.sends[..k])
      {
        assert reply.sends[..k + 1][..k] == reply.sends[..k];
        var _ := Send(reply.sends[k].0, reply.sends[k].1);
        k := k + 1;
      }
      assert reply.sends[..k] == reply.sends;
      status := reply.status;
    }

    /** invoke_recv_callback with the user's callback. */
    method DeliverRecv() returns (status: Status)
      requires Finished() && Op(flags) != OP_PONG && state == CONNECTED
      modifies this`log, this`recv
      ensures (status, log) == DeliverAll(app, old(log), flags, old(Buckets())) && recv == []
    {
      status := ENOENT;
      ghost var bs := Buckets();
      ghost var all := DeliverAll(app, log, flags, bs);
      assert bs[0..] == bs;
      var i := 0;
      while i < |recv|
        invariant i <= |bs| == |recv| && Finished() && recv == old(recv) && bs == Buckets()
        invariant if i == |bs| then all == (status, log) else all == DeliverAll(app, log, flags, bs[i..])
      {
        status := DeliverNext(i, bs, all);
        if status != OKAY {
          break;
        }
        i := i + 1;
      }
      recv := [];
    }

    /** The callback for one bucket. */
    method DeliverNext(i: nat, ghost bs: seq<seq<Byte>>, ghost all: (Status, seq<Event>)) returns (status: Status)
      requires Finished() && Op(flags) != OP_PONG && state == CONNECTED && bs == Buckets() && i < |bs|
      requires all == DeliverAll(app, log, flags, bs[i..])
      modifies this`log
      ensures all == if status != OKAY || i + 1 == |bs| then (status, log) else DeliverAll(app, log, flags, bs[i + 1..])
    {
      DeliverOne(app, log, flags, bs, i);
      var data := BucketAt(i);
      status := CallBack(data);
    }

    /** invoke_recv_callback with ws_echo_cb. */
    method EchoRecv()
      requires Finished() && Op(flags) != OP_PONG
      modifies this`log, this`recv
      ensures log == EchoAll(old(log), flags, old(Buckets())) && recv == []
    {
      ghost var bs := Buckets();
      var i := 0;
      while i < |recv|
        invariant i <= |recv| && Finished() && recv == old(recv) && bs == Buckets()
        invariant EchoAll(old(log), flags, bs) == EchoAll(log, flags, bs[i..])
      {
        var data := BucketAt(i);
        log := log + [Queue(EchoFlags(flags), data)];
        assert bs[i..][1..] == bs[i + 1..];
        i := i + 1;
      }
      recv := [];
    }

    /** ws_err_close. */
    method ErrClose(reason: nat)
      requires reason < 65536
      modifies this`state, this`log
      ensures Quiet(state, log) == Abort(old(state), old(log), reason)
      ensures state == ERROR
      ensures log == old(log) + if old(state) == ERROR then [] else [Queue(0x88, [reason / 256, reason % 256])]
    {
      if state != ERROR {
        state := ERROR;
        log := log + [CloseFrame(reason)];
      }
    }

    /** get_close_reason: the first two bytes on the receive list. */
    method GetCloseReason() returns (reason: Option<int>)
      requires Finished() && Op(flags) != OP_PONG
      ensures reason == ReasonIn(Concat(Buckets()))
    {
      var vals: seq<Byte> := [];
      ghost var bs := Buckets();
      var i := 0;
      while i < |recv| && |vals| < 2
        invariant i <= |bs| && vals == FirstTwo(Concat(bs[..i]))
      {
        FirstTwoStep(bs, i);
        var data := BucketAt(i);
        vals := TakeTwo(vals, data);
        i := i + 1;
      }
      FirstTwoLast(bs, i);
      FirstTwoReason(Concat(bs));
      reason := ReasonIn(vals);
    }

    /** handle_client_close; `again` asks the server for another read. */
    method HandleClientClose() returns (again: bool)
      requires Finished() && Op(flags) == OP_CLOSE
      modifies this`state, this`log, this`recv
      ensures Quiet(state, log) == ClientClose(old(state), old(log), flags, old(Buckets()))
      ensures var data := Concat(old(Buckets()));
              if old(state) == EXPECT_CLOSE then state == CLOSE_RECEIVED && log == old(log) && !again
              else if |data| < 2 || MaySend(256 * data[0] as int + data[1] as int)
              then state == CLOSE_RECEIVED && again && (|old(recv)| == 1 ==> log == old(log) + [Queue(flags, data)])
              else state == ERROR && !again && log == old(log) + [Queue(0x88, [3, 234])]
    {
      CloseAnswered(state, log, flags, Buckets());
      ConcatOne(Buckets());
      var expected := state == EXPECT_CLOSE;
      state := CLOSE_RECEIVED;
      if expected {
        return false;
      }
      var reason := GetCloseReason();
      if reason.Some? && !IsReasonValid(reason.value) {
        ErrClose(1002);
        return false;
      }
      EchoRecv();
      again := true;
    }

    /** Frame fields back to zero; the frame buffer is kept. */
    method ResetFrame()
      modifies this`len, this`parsed, this`masked, this`flags, this`maskingKey, this`modOrIdx, this`parseState
      ensures parseState == OP && len == 0 && parsed == 0 && modOrIdx == 0 && |maskingKey| == 4
    {
      len, parsed, masked, flags, maskingKey, modOrIdx, parseState := 0, 0, false, 0, [0, 0, 0, 0], 0, OP;
    }

    lemma BucketsOfFrame(t: State)
      requires Finished() && Completed(t) && Op(flags) != OP_PONG
      ensures Buckets() == Blanks(t.spare) + [t.frame.payload]
    {
      var content := buffer[..];
      forall i | 0 <= i < |recv| ensures Buckets()[i] == (Blanks(t.spare) + [t.frame.payload])[i] {
        if i < |recv| - 1 {
          assert recv[..|recv| - 1][i] == 0;
          assert Blanks(t.spare)[i] in Blanks(t.spare);
        } else {
          assert content[..len] == buffer[..len];
        }
      }
    }

    /** What the log and the state keep, whatever the frame. */
    ghost predicate Orderly(log0: seq<Event>, life0: Life)
      reads this`log, this`state, this`emptyPong
    {
      && (!emptyPong ==> CloseIsLast(log, state))
      && log0 <= log && (life0 != CONNECTED ==> state != CONNECTED && NoDelivery(log[|log0|..]))
    }

    /** The session has dealt with a complete frame as the machine does. */
    ghost predicate DealtWith(r: Option<State>, log0: seq<Event>, life0: Life)
      reads this, buffer, utf8
    {
      Valid() && Orderly(log0, life0) && (r.Some? ==> Abs() == r.value)
    }

    ghost function Due(t: State): (r: Option<State>)
      reads this, buffer, utf8
    {
      if Completed(t) then Some(Dispatch(app, t, flags, t.frame.payload)) else None
    }

    /** A complete data frame: the user's callback, while connected. */
    method CompleteData(ghost t: State) returns (done: bool)
      requires Steady() && Finished() && !Stopped(state) && Op(flags) <= OP_BINARY
      modifies this
      ensures buffer == old(buffer) && emptyPong == old(emptyPong)
      ensures DealtWith(old(Due(t)), old(log), old(state)) && (done ==> Stopped(state) || Stuck())
      ensures old(state) != CONNECTED ==> done && Abs() == old(Abs())
    {
      if state != CONNECTED {
        return true;
      }
      if Completed(t) { BucketsOfFrame(t); }
      DeliverKeeps(app, log, flags, Buckets());
      ghost var r, log0 := Due(t), log;
      var status := DeliverRecv();
      done := AfterCallback(status, r, log0);
    }

    /** The frame is let go of, and the session is between frames. */
    method LetGo(ghost r: Option<State>, ghost log0: seq<Event>, ghost life0: Life)
      requires Steady() && !Stopped(state) && recv == [] && Orderly(log0, life0)
      requires r.Some? ==> r.value == Live(state, NoFrame, msgType, utf8.pend, 0, log)
      modifies this`len, this`parsed, this`masked, this`flags, this`maskingKey, this`modOrIdx, this`parseState
      ensures DealtWith(r, log0, life0)
    {
      ResetFrame();
    }

    /** The frame is let go of, or its callback's error closes the session. */
    method AfterCallback(status: Status, ghost r: Option<State>, ghost log0: seq<Event>) returns (done: bool)
      requires Steady() && state == CONNECTED && recv == [] && log0 <= log && (!emptyPong ==> NoClose(log))
      requires r.Some? ==> r.value == if status == OKAY then Live(state, NoFrame, msgType, utf8.pend, 0, log)
                                      else Abort(state, log, 1002)
      modifies this
      ensures buffer == old(buffer) && emptyPong == old(emptyPong)
      ensures DealtWith(r, log0, CONNECTED) && (done ==> Stopped(state))
    {
      if status == OKAY {
        LetGo(r, log0, CONNECTED);
        done := false;
      } else {
        ErrClose(1002);
        done := true;
      }
    }

    method CompletePing(ghost t: State)
      requires Steady() && Finished() && !Stopped(state) && Op(flags) == OP_PING
      modifies this
      ensures buffer == old(buffer) && emptyPong == old(emptyPong)
      ensures DealtWith(old(Due(t)), old(log), old(state))
    {
      if Completed(t) { BucketsOfFrame(t); }
      EchoKeeps(log, flags, Buckets());
      ghost var r, log0 := Due(t), log;
      EchoRecv();
      LetGo(r, log0, state);
    }

    method CompletePong(ghost t: State)
      requires Steady() && Finished() && !Stopped(state) && Op(flags) == OP_PONG
      modifies this
      ensures buffer == old(buffer) && emptyPong == old(emptyPong)
      ensures DealtWith(old(Due(t)), old(log), old(state))
    {
      ResetFrame();
    }

    method CompleteClose(ghost t: State) returns (again: bool)
      requires Steady() && Finished() && !Stopped(state) && Op(flags) == OP_CLOSE
      modifies this
      ensures buffer == old(buffer) && emptyPong == old(emptyPong)
      ensures DealtWith(old(Due(t)), old(log), old(state)) && Stopped(state)
    {
      if Completed(t) { BucketsOfFrame(t); }
      CloseKeeps(state, log, flags, Buckets());
      again := HandleClientClose();
    }

    /** The block at ws_parse_complete; `done` when the read callback returns from inside it. */
    method CompleteFrame(ghost t: State) returns (done: bool, again: bool)
      requires Steady() && Finished() && !Stopped(state)
      modifies this
      ensures buffer == old(buffer) && emptyPong == old(emptyPong)
      ensures DealtWith(old(Due(t)), old(log), old(state)) && (done ==> Stopped(state) || Stuck())
      ensures old(state) != CONNECTED && old(Op(flags)) <= OP_BINARY ==> done && Abs() == old(Abs())
      ensures again ==> done && Stopped(state)
    {
      done, again := false, false;
      if Op(flags) == OP_CONTINUATION || Op(flags) == OP_TEXT || Op(flags) == OP_BINARY {
        done := CompleteData(t);
      } else if Op(flags) == OP_CLOSE {
        again := CompleteClose(t);
        done := true;
      } else if Op(flags) == OP_PING {
        CompletePing(t);
      } else if Op(flags) == OP_PONG {
        CompletePong(t);
      } else {
        ErrClose(1002);
        done := true;
      }
    }

    // -------------------------------------------------------------- the read callback

    /** One of the first two bytes of a frame. */
    method ParseFirst(bs: seq<Byte>) returns (n: nat, errno: Status)
      requires Steady() && Parsing() && (parseState == OP || parseState == LEN) && bs != []
      modifies this`len, this`parseState, this`masked, this`flags, this`buffer, this`bufLen, this`modOrIdx, this`msgType
      ensures n == 1 && Steady() && (buffer == old(buffer) || fresh(buffer))
      ensures errno == OKAY ==> Parsing() && Run(app, old(Abs()), bs[..n]) == Abs()
      ensures errno != OKAY ==> Run(app, old(Abs()), bs[..n]) == Abort(state, log, ReasonFromErrno(errno))
    {
      n := 1;
      RunOne(app, Abs(), bs);
      if parseState == OP {
        errno := ParseOp(bs[0]);
      } else {
        errno := ParseLen(bs[0]);
      }
    }

    /** One turn of the parse loop. */
    method ParseStep(bs: seq<Byte>, addr: nat) returns (n: nat, errno: Status, ghost t: State)
      requires Steady() && Parsing() && bs != [] && addr + |bs| + 3 < SIZE_LIMIT
      modifies this`len, this`parsed, this`maskingKey, this`parseState, this`masked, this`flags, this`buffer,
          this`bufLen
      modifies this`modOrIdx, this`recv, this`msgType, this`emptyPong, utf8, buffer
      ensures 0 < n <= |bs| && (buffer == old(buffer) || fresh(buffer)) && (old(emptyPong) ==> emptyPong)
      ensures errno == OKAY ==> Reaches(Run(app, old(Abs()), bs[..n]), t)
      ensures errno != OKAY ==>
                Sound() && Run(app, old(Abs()), bs[..n]) in {Lost, Abort(state, log, ReasonFromErrno(errno))}
    {
      t := Lost;
      match parseState
      case OP | LEN => n, errno := ParseFirst(bs);
      case LEN_EXTENDED => n, errno := ParseLenExt(bs);
      case MASKING_KEY => n, t := ParseMaskingKey(bs); errno := OKAY;
      case PAYLOAD => n, errno, t := ParsePayload(bs, addr);
    }

    /** After `n` bytes of `bs`: where the machine got to, unless the session was stuck to begin with. */
    ghost predicate Reading(was: State, bs: seq<Byte>, n: nat, t: State)
      requires n <= |bs|
      reads this, buffer, utf8
    {
      || Reaches(Run(app, was, bs[..n]), t)
      || (Steady() && Stuck() && n == 0 && was == Abs() && t == Lost)
    }

    /** ymo_proto_ws_read, on bytes received at address `addr`: `n` are consumed. `again` stands for
        the result -1, which asks the server for another read. */
    method Read(bs: seq<Byte>, addr: nat) returns (n: nat, again: bool)
      requires Valid() && bs != [] && addr + |bs| + 3 < SIZE_LIMIT
      modifies this, utf8, buffer
      ensures Valid() && (buffer == old(buffer) || fresh(buffer)) && (old(emptyPong) ==> emptyPong)
      ensures Orderly(old(log), old(state)) && (old(Stopped(state)) ==> log == old(log) && state == old(state))
      ensures 0 < n <= |bs| && (again ==> Stopped(state) && n == |bs|)
      ensures Run(app, old(Abs()), bs[..n]) in {Lost, Abs()}
    {
      again := false;
      assert bs[..|bs|] == bs;
      if state == CLOSE_RECEIVED || state == ERROR {
        RunAbsorbed(app, Abs(), bs);
        return |bs|, false;
      }
      var failed;
      ghost var t;
      n, failed, t := ParseLoop(bs, addr);
      if failed {
        return |bs|, false;
      }
      if parseState == COMPLETE {
        ghost var was := old(Abs());
        var done;
        done, again := CompleteFrame(t);
        if done {
          RunRest(app, was, bs, n);
          return |bs|, again;
        }
      }
    }

    /** The parse loop, up to the end of a frame or of the bytes, or to an error, which closes. */
    method ParseLoop(bs: seq<Byte>, addr: nat) returns (n: nat, failed: bool, ghost t: State)
      requires Valid() && !Stopped(state) && bs != [] && addr + |bs| + 3 < SIZE_LIMIT
      modifies this, utf8, buffer
      ensures n <= |bs| && (buffer == old(buffer) || fresh(buffer)) && (old(emptyPong) ==> emptyPong)
      ensures Orderly(old(log), old(state))
      ensures failed ==> Valid() && Stopped(state) && Run(app, old(Abs()), bs) in {Lost, Abs()}
      ensures !failed ==> state == old(state) && log == old(log) && Reading(old(Abs()), bs, n, t)
      ensures !failed && parseState != COMPLETE ==> n == |bs|
      ensures !failed && n == 0 ==> Stuck()
    {
      ghost var was := Abs();
      t := Lost;
      n, failed := 0, false;
      while parseState != COMPLETE && n < |bs|
        invariant n <= |bs| && !Stopped(state) && Reading(was, bs, n, t)
            && (n == 0 ==> parseState != COMPLETE || Stuck())
        invariant log == old(log) && state == old(state) && (old(emptyPong) ==> emptyPong)
        invariant buffer == old(buffer) || fresh(buffer)
        decreases |bs| - n
      {
        ReadingOn(was, bs, n, t);
        n, failed, t := ParseMore(was, bs, n, addr);
        if failed {
          return;
        }
      }
    }

    /** The session has closed on an error, as the machine has, which is at `r`. */
    ghost predicate FailedTo(r: State, log0: seq<Event>, life0: Life)
      reads this, buffer, utf8
    {
      Halted() && r in {Lost, Abs()} && Orderly(log0, life0)
    }

    ghost predicate Halted()
      reads this, utf8
    {
      Valid() && Stopped(state)
    }

    lemma ReadingOn(was: State, bs: seq<Byte>, n: nat, t: State)
      requires n <= |bs| && Reading(was, bs, n, t) && parseState != COMPLETE
      ensures Steady() && Parsing() && Run(app, was, bs[..n]) in {Lost, Abs()}
    {
    }

    lemma ReachesOrLost(r: State, r': State, t: State)
      requires Reaches(r', t) && (r == Lost || r == r')
      ensures Reaches(r, t)
    {
    }

    /** One more turn of the loop, from byte `i` on. */
    method ParseMore(ghost was: State, bs: seq<Byte>, i: nat, addr: nat)
      returns (n: nat, failed: bool, ghost t: State)
      requires i < |bs| && Steady() && Parsing() && addr + |bs| + 3 < SIZE_LIMIT
      requires Run(app, was, bs[..i]) in {Lost, Abs()}
      modifies this, utf8, buffer
      ensures i < n <= |bs| && (buffer == old(buffer) || fresh(buffer)) && (old(emptyPong) ==> emptyPong)
      ensures !failed ==> state == old(state) && log == old(log) && Reaches(Run(app, was, bs[..n]), t)
      ensures failed ==> FailedTo(Run(app, was, bs), old(log), old(state))
    {
      var k, errno;
      ghost var now := Abs();
      k, errno, t := ParseStep(bs[i..], addr + i);
      ghost var r := Run(app, now, bs[i..][..k]);
      n, failed := i + k, errno != OKAY;
      RunFrom(app, was, now, bs, i, k, n, r);
      if failed {
        ParseFailed(was, bs, n, errno, r);
      } else {
        ReachesOrLost(Run(app, was, bs[..n]), r, t);
      }
    }

    method ParseFailed(ghost was: State, ghost bs: seq<Byte>, ghost n: nat, errno: Status, ghost r: State)
      requires n <= |bs| && Sound() && !Stopped(state)
      requires Run(app, was, bs[..n]) in {Lost, r} && r in {Lost, Abort(state, log, ReasonFromErrno(errno))}
      modifies this`state, this`log
      ensures FailedTo(Run(app, was, bs), old(log), old(state))
    {
      RunRest(app, was, bs, n);
      ErrClose(ReasonFromErrno(errno));
    }

    /** The loop in ymo_read_cb around the read callback: what is left after one call goes into the next. */
    method ServerRead(bs: seq<Byte>, addr: nat)
      requires Valid() && bs != [] && addr + |bs| + 3 < SIZE_LIMIT
      modifies this, utf8, buffer
      ensures Valid() && (buffer == old(buffer) || fresh(buffer)) && (old(emptyPong) ==> emptyPong)
      ensures Orderly(old(log), old(state)) && (old(Stopped(state)) ==> log == old(log) && state == old(state))
      ensures Run(app, old(Abs()), bs) in {Lost, Abs()}
    {
      ghost var was := Abs();
      var done := 0;
      while done < |bs|
        invariant done <= |bs| && Valid() && Run(app, was, bs[..done]) in {Lost, Abs()}
        invariant (buffer == old(buffer) || fresh(buffer)) && (old(emptyPong) ==> emptyPong)
        invariant Orderly(old(log), old(state)) && (old(Stopped(state)) ==> log == old(log) && state == old(state))
        decreases |bs| - done
      {
        ghost var log1, state1 := log, state;
        var n, again := Read(bs[done..], addr + done);
        RunChunk(app, was, bs, done, n);
        OrderlyThen(old(log), log1, log, old(state), state1);
        done := done + n;
        if again {
          break;
        }
      }
      assert bs[..done] == bs;
    }

    /** Any number of reads from the socket, each of at least one byte. */
    method ReceiveAll(chunks: seq<seq<Byte>>, addr: nat)
      requires Valid() && forall c :: c in chunks ==> c != [] && addr + |c| + 3 < SIZE_LIMIT
      modifies this, utf8, buffer
      ensures Valid() && Orderly(old(log), old(state))
          && (old(Stopped(state)) ==> log == old(log) && state == old(state))
      ensures Run(app, old(Abs()), Concat(chunks)) in {Lost, Abs()}
    {
      ghost var was := Abs();
      var i := 0;
      while i < |chunks|
        invariant i <= |chunks| && Valid() && Run(app, was, Concat(chunks[..i])) in {Lost, Abs()}
        invariant buffer == old(buffer) || fresh(buffer)
        invariant Orderly(old(log), old(state)) && (old(Stopped(state)) ==> log == old(log) && state == old(state))
      {
        ghost var log1, state1 := log, state;
        RunChunks(app, was, chunks, i);
        ServerRead(chunks[i], addr);
        OrderlyThen(old(log), log1, log, old(state), state1);
        i := i + 1;
      }
      assert chunks[..i] == chunks;
    }

    /** A frame from the application. */
    method AppSend(flags: Byte, payload: seq<Byte>)
      requires Valid()
      modifies this`log
      ensures Valid() && Orderly(old(log), old(state)) && (old(Stopped(state)) ==> log == old(log))
    {
      if !emptyPong && state == CONNECTED { SendKeepsClose(log, state, AppQueue(flags, payload)); }
      var _ := Send(flags, payload);
    }

    /** Bytes received, or a frame sent from outside the session's own callbacks. */
    method TakeTurn(turn: Turn, addr: nat)
      requires Valid() && Readable(turn, addr)
      modifies this, utf8, buffer
      ensures Valid() && (buffer == old(buffer) || fresh(buffer)) && (old(emptyPong) ==> emptyPong)
      ensures Orderly(old(log), old(state)) && (old(Stopped(state)) ==> log == old(log) && state == old(state))
      ensures turn.Received? ==> Run(app, old(Abs()), turn.bytes) in {Lost, Abs()}
    {
      match turn
      case Received(bytes) => ServerRead(bytes, addr);
      case Sends(flags, payload) => AppSend(flags, payload);
    }

    /** Over every run of reads and of frames from the application: the protocol's own Close, if there is
        one, is the last frame queued, and nothing is delivered once the session has left CONNECTED. */
    method Converse(turns: seq<Turn>, addr: nat)
      requires Valid() && forall i :: 0 <= i < |turns| ==> Readable(turns[i], addr)
      modifies this, utf8, buffer
      ensures Valid() && Orderly(old(log), old(state)) && (!emptyPong ==> CloseIsLast(log, state))
      ensures old(Stopped(state)) ==> log == old(log) && state == old(state)
    {
      var i := 0;
      while i < |turns|
        invariant i <= |turns| && Valid() && (buffer == old(buffer) || fresh(buffer))
        invariant Orderly(old(log), old(state)) && (old(Stopped(state)) ==> log == old(log) && state == old(state))
      {
        ghost var log1, state1 := log, state;
        TakeTurn(turns[i], addr);
        OrderlyThen(old(log), log1, log, old(state), state1);
        i := i + 1;
      }
    }
  }

  /** What can happen to a session: bytes from the socket, or a frame from the application. */
  datatype Turn = Received(bytes: seq<Byte>) | Sends(flags: Byte, payload: seq<Byte>)

  ghost predicate Readable(turn: Turn, addr: nat) {
    turn.Received? ==> turn.bytes != [] && addr + |turn.bytes| + 3 < SIZE_LIMIT
  }

  lemma SendKeepsClose(log: seq<Event>, life: Life, e: Event)
    requires CloseIsLast(log, life) && life == CONNECTED && e.AppQueue?
    ensures CloseIsLast(log + [e], life)
  {
    assert (log + [e])[..|log|] == log;
  }

  lemma CloseKeeps(life: Life, log: seq<Event>, flags: Byte, bs: seq<seq<Byte>>)
    requires life != ERROR
    ensures var s := ClientClose(life, log, flags, bs);
            && s.Quiet? && Stopped(s.life) && log <= s.log && NoDelivery(s.log[|log|..])
            && (|bs| == 1 && NoClose(log) ==> CloseIsLast(s.log, s.life))
  {
    EchoKeeps(log, flags, bs);
    var s := ClientClose(life, log, flags, bs);
    assert |bs| == 1 && s.log != log ==> s.log[..|s.log| - 1] == log;
  }

  /** Growth of the log in two steps is growth in one. */
  lemma OrderlyThen(log0: seq<Event>, log1: seq<Event>, log2: seq<Event>, life0: Life, life1: Life)
    requires log0 <= log1 <= log2
    requires life0 != CONNECTED ==> life1 != CONNECTED && NoDelivery(log1[|log0|..])
    requires life1 != CONNECTED ==> NoDelivery(log2[|log1|..])
    ensures log0 <= log2 && (life0 != CONNECTED ==> NoDelivery(log2[|log0|..]))
  {
    assert log2[|log0|..] == log1[|log0|..] + log2[|log1|..];
  }

  ghost predicate NoDelivery(log: seq<Event>) {
    forall e :: e in log ==> !e.Deliver?
  }

  lemma {:induction false} AcceptedKeeps(sends: seq<(Byte, seq<Byte>)>)
    ensures forall e :: e in Accepted(sends) ==> e.AppQueue?
  {
    if sends != [] { AcceptedKeeps(sends[..|sends| - 1]); }
  }

  lemma DeliverOne(app: App, log: seq<Event>, flags: Byte, bs: seq<seq<Byte>>, i: nat)
    requires i < |bs|
    ensures var log1 := log + [Deliver(flags, bs[i])];
            var reply := app(log1, flags, bs[i]);
            var log2 := log1 + Accepted(reply.sends);
            DeliverAll(app, log, flags, bs[i..]) ==
              if reply.status != OKAY || i + 1 == |bs| then (reply.status, log2)
                  else DeliverAll(app, log2, flags, bs[i + 1..])
  {
    assert bs[i..][1..] == bs[i + 1..];
  }

  lemma {:induction false} DeliverKeeps(app: App, log: seq<Event>, flags: Byte, bs: seq<seq<Byte>>)
    ensures log <= DeliverAll(app, log, flags, bs).1
    ensures NoClose(log) ==> NoClose(DeliverAll(app, log, flags, bs).1)
    decreases |bs|
  {
    if bs != [] {
      var log1 := log + [Deliver(flags, bs[0])];
      var reply := app(log1, flags, bs[0]);
      AcceptedKeeps(reply.sends);
      DeliverKeeps(app, log1 + Accepted(reply.sends), flags, bs[1..]);
    }
  }

  lemma {:induction false} EchoKeeps(log: seq<Event>, flags: Byte, bs: seq<seq<Byte>>)
    ensures log <= EchoAll(log, flags, bs) && NoDelivery(EchoAll(log, flags, bs)[|log|..])
    ensures Op(flags) == OP_PING && NoClose(log) ==> NoClose(EchoAll(log, flags, bs))
    ensures |bs| == 1 ==> EchoAll(log, flags, bs) == log + [Queue(EchoFlags(flags), bs[0])]
    decreases |bs|
  {
    if bs != [] {
      var log1 := log + [Queue(EchoFlags(flags), bs[0])];
      EchoKeeps(log1, flags, bs[1..]);
      assert log1[|log|..] == [Queue(EchoFlags(flags), bs[0])];
      var all := EchoAll(log, flags, bs);
      assert all[|log|..] == [Queue(EchoFlags(flags), bs[0])] + all[|log1|..];
    }
  }

  lemma ConcatOne(bs: seq<seq<Byte>>)
    ensures |bs| == 1 ==> Concat(bs) == bs[0]
  {
    if |bs| == 1 { assert bs[..0] == [] && [] + bs[0] == bs[0]; }
  }

  /** The status code a Close payload starts with. */
  function ReasonIn(data: seq<Byte>): (reason: Option<int>) {
    if |data| >= 2 then Some(Word16(data[0], data[1])) else None
  }

  lemma FirstTwoReason(data: seq<Byte>)
    ensures ReasonIn(FirstTwo(data)) == ReasonIn(data)
  {
  }

  function FirstTwo(s: seq<Byte>): (r: seq<Byte>) {
    if |s| <= 2 then s else s[..2]
  }

  /** Bytes of one more bucket, up to two in all. */
  function TakeTwo(vals: seq<Byte>, data: seq<Byte>): (r: seq<Byte>)
    requires |vals| < 2
    ensures |r| <= 2
  {
    var end := if 2 - |vals| < |data| then 2 - |vals| else |data|;
    vals + data[..end]
  }

  lemma FirstTwoStep(bs: seq<seq<Byte>>, i: nat)
    requires i < |bs|
    ensures |FirstTwo(Concat(bs[..i]))| < 2 ==>
              FirstTwo(Concat(bs[..i + 1])) == TakeTwo(FirstTwo(Concat(bs[..i])), bs[i])
  {
    assert bs[..i + 1][..i] == bs[..i];
    var c, data := Concat(bs[..i]), bs[i];
    assert Concat(bs[..i + 1]) == c + data;
    if |FirstTwo(c)| < 2 {
      assert FirstTwo(c) == c;
      var end := if 2 - |c| < |data| then 2 - |c| else |data|;
      assert |c + data| > 2 ==> (c + data)[..2] == c + data[..end];
      assert |c + data| <= 2 ==> data[..end] == data;
    }
  }

  /** The buckets of a receive list: an empty one, or the start of the frame buffer. */
  function BucketsOf(lens: seq<nat>, content: seq<Byte>): (bs: seq<seq<Byte>>)
    ensures |bs| == |lens|
    ensures forall i :: 0 <= i < |lens| ==> bs[i] == if lens[i] <= |content| then content[..lens[i]] else []
  {
    seq(|lens|, i requires 0 <= i < |lens| => if lens[i] <= |content| then content[..lens[i]] else [])
  }

  /** Two bytes found early are the first two of all. */
  lemma {:induction false} FirstTwoLast(bs: seq<seq<Byte>>, i: nat)
    requires i <= |bs| && (i == |bs| || |Concat(bs[..i])| >= 2)
    ensures FirstTwo(Concat(bs[..i])) == FirstTwo(Concat(bs))
    decreases |bs|
  {
    if i == |bs| {
      assert bs[..i] == bs;
    } else {
      assert bs[..|bs| - 1][..i] == bs[..i];
      FirstTwoLast(bs[..|bs| - 1], i);
      var c := Concat(bs[..|bs| - 1]);
      assert |c| >= 2;
      assert (c + bs[|bs| - 1])[..2] == c[..2];
    }
  }

  /** Payload bytes in the frame, whatever the validator has pending. */
  function Taken(s: State, plain: seq<Byte>, pend: seq<Byte>): (r: State)
    requires s.Live?
  {
    var f := s.frame;
    s.(pend := pend,
       frame := f.(parsed := f.parsed + |plain|, payload := if Op(f.flags) == OP_PONG then f.payload
           else f.payload + plain))
  }

  /** What the validator makes of some text: a verdict, and the bytes it has pending. */
  ghost predicate Checked(pend: seq<Byte>, text: seq<Byte>, end: bool, errno: Status, pend': seq<Byte>) {
    match Utf8.Run(pend, text)
    case None => errno == EILSEQ
    case Some(p) => (errno == if end && p != [] then EILSEQ else OKAY) && pend' == p
  }

  /** What the machine makes of the same bytes. */
  ghost predicate SoakedIn(was: State, plain: seq<Byte>, errno: Status, now: State)
    requires was.Live?
  {
    && (errno == OKAY ==> TextAfter(was, plain).Some? && now == Soak(was, plain))
    && (errno == OKAY && was.frame.parsed + |plain| == was.frame.len ==> !Unfinished(now))
    && (errno != OKAY ==> errno == EILSEQ && now.Live? && now.life == was.life && now.log == was.log)
    && (errno != OKAY && TextAfter(was, plain).Some? ==>
          was.frame.parsed + |plain| == was.frame.len && Unfinished(Soak(was, plain)))
  }

  ghost predicate Judged(was: State, rd: seq<Byte>, errno: Status, now: State) {
    && was.Live? && |was.frame.key| == 4
    && (!Tangled(was.frame.flags, was.msgType, was.frame.len) ==> SoakedIn(was, Plain(was, rd), errno, now))
  }

  /** From `now`, in the payload of a frame, the machine is at `r`: there, or past the dispatch of the frame. */
  ghost predicate LeadsTo(app: App, r: State, now: State) {
    || r == Lost
    || (now.Live? && now.frame.parsed < now.frame.len && r == now)
    || (now.Live? && now.frame.parsed == now.frame.len
        && r == Dispatch(app, EndType(now), now.frame.flags, now.frame.payload))
  }

  /** Where the machine is after these payload bytes, by the verdict on them. */
  lemma JudgePayload(app: App, was: State, rd: seq<Byte>, errno: Status, now: State)
    requires Judged(was, rd, errno, now) && was.frame.phase == PAYLOAD
    requires 0 < |rd| && was.frame.parsed + |rd| <= was.frame.len
    ensures errno != OKAY ==> Run(app, was, rd) in {Lost, Abort(was.life, was.log, ReasonFromErrno(errno))}
    ensures errno == OKAY && now.Live? && now.frame.parsed == was.frame.parsed + |rd|
            && now.frame.len == was.frame.len && now.frame.flags == was.frame.flags ==>
              LeadsTo(app, Run(app, was, rd), now)
  {
    PayloadCases(app, was, rd);
  }

  lemma SoakedFrom(was: State, plain: seq<Byte>, errno: Status, pend: seq<Byte>)
    requires was.Live?
    requires if NeedsUtf8(was.frame.flags, was.msgType)
             then Checked(was.pend, plain, was.frame.parsed + |plain| == was.frame.len
                 && Fin(was.frame.flags), errno, pend)
             else errno == OKAY && pend == was.pend
    ensures SoakedIn(was, plain, errno, Taken(was, plain, pend))
  {
  }

  lemma SliceIs(now: seq<Byte>, k: nat, u: seq<Byte>)
    requires k + |u| <= |now| && forall j :: 0 <= j < |u| ==> now[k + j] == u[j]
    ensures now[k..k + |u|] == u && now[..k + |u|] == now[..k] + u
  {
  }

  lemma UnmaskedByte(now: seq<Byte>, was: seq<Byte>, k: nat, key: seq<Byte>, mod: Byte, rd: seq<Byte>, j: nat)
    requires |key| == 4 && Congruent(mod, k) && Unmasked(now, was, k, key, mod, rd, |rd|) && j < |rd|
    ensures now[k + j] == Unmask(key, k, rd)[j]
  {
    CongruentSum(mod + j, mod, j, k);
    CongruentKey(key, mod + j, k + j);
    UnmaskAt(key, k, rd, j);
  }

  /** The bytes `rd` of a payload are in the buffer after the `k` bytes already there. */
  lemma UnmaskedAppends(now: seq<Byte>, was: seq<Byte>, k: nat, key: seq<Byte>, mod: Byte, rd: seq<Byte>)
    requires |key| == 4 && Congruent(mod, k) && Unmasked(now, was, k, key, mod, rd, |rd|)
    ensures now[..k + |rd|] == was[..k] + Unmask(key, k, rd) && now[k..k + |rd|] == Unmask(key, k, rd)
  {
    var u := Unmask(key, k, rd);
    forall j | 0 <= j < |u|
      ensures now[k + j] == u[j]
    {
      UnmaskedByte(now, was, k, key, mod, rd, j);
    }
    SliceIs(now, k, u);
    assert now[..k] == was[..k];
  }

  lemma KeySnoc(key: seq<Byte>, k: nat, b: Byte)
    requires k < |key|
    ensures key[k := b][..k + 1] == key[..k] + [b]
  {
  }

  lemma RunChunk(app: App, s: State, bs: seq<Byte>, n: nat, k: nat)
    requires n + k <= |bs|
    ensures Run(app, s, bs[..n + k]) == Run(app, Run(app, s, bs[..n]), bs[n..][..k])
    ensures !Run(app, s, bs[..n + k]).Live? ==> Run(app, s, bs) == Run(app, s, bs[..n + k])
    ensures Run(app, s, bs[..n]) == Lost ==> Run(app, s, bs[..n + k]) == Lost
  {
    RunAbsorbed(app, Lost, bs[n..][..k]);
    assert bs[..n + k] == bs[..n] + bs[n..][..k];
    RunSplit(app, s, bs[..n], bs[n..][..k]);
    RunRest(app, s, bs, n + k);
  }

  lemma RunChunks(app: App, was: State, chunks: seq<seq<Byte>>, i: nat)
    requires i < |chunks|
    ensures Run(app, was, Concat(chunks[..i + 1])) == Run(app, Run(app, was, Concat(chunks[..i])), chunks[i])
    ensures Run(app, Lost, chunks[i]) == Lost
  {
    assert chunks[..i + 1][..i] == chunks[..i];
    RunSplit(app, was, Concat(chunks[..i]), chunks[i]);
    RunAbsorbed(app, Lost, chunks[i]);
  }

  lemma RunFrom(app: App, was: State, now: State, bs: seq<Byte>, i: nat, k: nat, n: nat, r: State)
    requires n == i + k <= |bs| && Run(app, was, bs[..i]) in {Lost, now} && r == Run(app, now, bs[i..][..k])
    ensures Run(app, was, bs[..n]) in {Lost, r}
  {
    RunChunk(app, was, bs, i, k);
  }

  /** Once the machine has stopped, the rest of the input changes nothing. */
  lemma RunRest(app: App, s: State, bs: seq<Byte>, n: nat)
    requires n <= |bs|
    ensures !Run(app, s, bs[..n]).Live? ==> Run(app, s, bs) == Run(app, s, bs[..n])
  {
    assert bs == bs[..n] + bs[n..];
    RunSplit(app, s, bs[..n], bs[n..]);
    if !Run(app, s, bs[..n]).Live? { RunAbsorbed(app, Run(app, s, bs[..n]), bs[n..]); }
  }

  lemma RunOne(app: App, s: State, bs: seq<Byte>)
    requires bs != []
    ensures Run(app, s, bs[..1]) == Step(app, s, bs[0])
  {
    assert bs[..1][1..] == [];
    assert Run(app, s, bs[..1]) == Run(app, Step(app, s, bs[0]), []);
  }

  lemma RunSnoc(app: App, s: State, bs: seq<Byte>, n: nat)
    requires n < |bs|
    ensures Run(app, s, bs[..n + 1]) == Step(app, Run(app, s, bs[..n]), bs[n])
  {
    assert bs[..n + 1] == bs[..n] + [bs[n]];
    RunSplit(app, s, bs[..n], [bs[n]]);
    assert [bs[n]][1..] == [];
    var m := Run(app, s, bs[..n]);
    assert Run(app, m, [bs[n]]) == Run(app, Step(app, m, bs[n]), []);
  }
}
