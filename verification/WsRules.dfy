/** What the decoder makes of each frame, in the numbers of sections 5.2 to 5.5, 7.4 and 8.1 of RFC 6455. */
module WsRules {
  import opened Bytes
  import opened Common
  import opened WsMachine
  import opened WsDecoder
  import Utf8

  // ---------------------------------------------------------------- the header

  /** Byte 0: no reserved bit, and an opcode that is due; a control frame is final. */
  predicate FirstDue(b: Byte, msgType: Byte) {
    && b % 128 < 16
    && ((b % 16 == 0 && msgType != 0) || ((b % 16 == 1 || b % 16 == 2) && msgType == 0)
        || b == 0x88 || b == 0x89 || b == 0x8A)
  }

  /** Byte 1: masked, and 125 at most in a control frame. */
  predicate SecondDue(b0: Byte, b1: Byte) {
    b1 >= 128 && (b0 % 16 < 8 || b1 < 254)
  }

  /** How long the header is, and the length it states, in seven, sixteen or sixty-four bits. */
  function HeaderSize(b1: Byte): (n: nat) {
    if b1 % 128 == 126 then 8 else if b1 % 128 == 127 then 14 else 6
  }

  function StatedLength(s: seq<Byte>): (len: nat)
    requires |s| >= 2 && |s| + 4 >= HeaderSize(s[1])
  {
    if s[1] % 128 == 126 then 256 * s[2] as int + s[3] as int
    else if s[1] % 128 == 127 then
      0x1_00_00_00_00 * Word32(s[2], s[3], s[4], s[5]) + Word32(s[6], s[7], s[8], s[9])
    else s[1] % 128
  }

  function Word32(a: int, b: int, c: int, d: int): (w: int) {
    0x1_00_00_00 * a + 0x1_00_00 * b + 0x1_00 * c + d
  }

  lemma FirstExactly(b: Byte, msgType: Byte)
    ensures CheckOp(msgType, b) == OKAY <==> FirstDue(b, msgType)
    ensures CheckOp(msgType, b) in {OKAY, EINVAL, EBADMSG}
  {
    assert Reserved(b) <==> b % 128 >= 16;
  }

  lemma SecondExactly(b0: Byte, b1: Byte)
    ensures CheckLen(b0, b1) == if SecondDue(b0, b1) then OKAY else EBADMSG
  {
  }

  lemma TwoBytes(a: Byte, b: Byte, s: seq<Byte>)
    requires s == [a, b]
    ensures BigEndian(s) == 256 * a + b
  {
    assert s[1..] == [b] && [b][1..] == [];
    assert Weight(a, 1) == 256 * Weight(a, 0);
    assert BigEndian([b]) == Weight(b, 0) + BigEndian([]);
  }

  lemma {:induction false} WeightShift(b: nat, k: nat, n: nat)
    ensures Weight(b, k + n) == Weight(Weight(b, k), n)
    decreases n
  {
    if n > 0 { WeightShift(b, k, n - 1); }
  }

  lemma BigEndianCons(b: Byte, rest: seq<Byte>, n: nat)
    requires n == |rest|
    ensures BigEndian([b] + rest) == Weight(b, n) + BigEndian(rest)
  {
    assert ([b] + rest)[1..] == rest;
  }

  lemma Weights(b: Byte)
    ensures Weight(b, 0) == b && Weight(b, 1) == 0x1_00 * b && Weight(b, 2) == 0x1_00_00 * b
    ensures Weight(b, 3) == 0x1_00_00_00 * b
  {
    assert Weight(b, 1) == 256 * Weight(b, 0) && Weight(b, 2) == 256 * Weight(b, 1);
    assert Weight(b, 3) == 256 * Weight(b, 2);
  }

  lemma FourBytes(a: Byte, b: Byte, c: Byte, d: Byte)
    ensures BigEndian([a, b, c, d]) == Word32(a, b, c, d)
  {
    Weights(a);
    Weights(b);
    Weights(c);
    Weights(d);
    assert [a] + [b, c, d] == [a, b, c, d] && [b] + [c, d] == [b, c, d] && [c] + [d] == [c, d] && [d] + [] == [d];
    BigEndianCons(a, [b, c, d], 3);
    BigEndianCons(b, [c, d], 2);
    BigEndianCons(c, [d], 1);
    BigEndianCons(d, [], 0);
  }

  /** Bytes before four others count for 2^32 times as much. */
  lemma {:induction false} BigEndianHigh(xs: seq<Byte>, ys: seq<Byte>)
    requires |ys| == 4
    ensures BigEndian(xs + ys) == 0x1_00_00_00_00 * BigEndian(xs) + BigEndian(ys)
    decreases |xs|
  {
    if xs == [] {
      assert xs + ys == ys;
    } else {
      var n := |xs| - 1;
      assert xs + ys == [xs[0]] + (xs[1..] + ys) && xs == [xs[0]] + xs[1..];
      BigEndianCons(xs[0], xs[1..] + ys, n + 4);
      BigEndianCons(xs[0], xs[1..], n);
      BigEndianHigh(xs[1..], ys);
      WeightShift(xs[0], n, 4);
      FourTimes(Weight(xs[0], n));
    }
  }

  lemma FourTimes(w: nat)
    ensures Weight(w, 4) == 0x1_00_00_00_00 * w
  {
    assert Weight(w, 1) == 256 * Weight(w, 0) && Weight(w, 2) == 256 * Weight(w, 1);
    assert Weight(w, 3) == 256 * Weight(w, 2) && Weight(w, 4) == 256 * Weight(w, 3);
  }

  lemma LengthExactly(s: seq<Byte>)
    requires |s| >= 2 && |s| + 4 >= HeaderSize(s[1])
    ensures |s| >= 2 + ExtBytes(s[1]) && HeaderSize(s[1]) == 6 + ExtBytes(s[1])
    ensures FrameLen(s) == StatedLength(s)
  {
    if s[1] % 128 == 126 {
      assert s[2..4] == [s[2], s[3]];
      TwoBytes(s[2], s[3], s[2..4]);
    } else if s[1] % 128 == 127 {
      assert s[2..10] == [s[2], s[3], s[4], s[5]] + [s[6], s[7], s[8], s[9]];
      BigEndianHigh([s[2], s[3], s[4], s[5]], [s[6], s[7], s[8], s[9]]);
      FourBytes(s[2], s[3], s[4], s[5]);
      FourBytes(s[6], s[7], s[8], s[9]);
    }
  }

  /** The header at the start of a stream: refused, not all there, or its fields. */
  lemma HeadExactly(s: seq<Byte>, msgType: Byte)
    ensures var h := ParseHead(s, msgType);
            if s == [] then h == Short
            else if !FirstDue(s[0], msgType) then h.Bad? && h.status in {EINVAL, EBADMSG}
            else if |s| == 1 then h == Short
            else if !SecondDue(s[0], s[1]) then h == Bad(EBADMSG)
            else if |s| + 4 < HeaderSize(s[1]) then h == Short
            else if StatedLength(s) >= 0x8000_0000_0000_0000 then h == Bad(EBADMSG)
            else if StatedLength(s) > 4096 then h == Bad(ENOBUFS)
            else if |s| < HeaderSize(s[1]) then h == Short
            else h == Head(s[0], StatedLength(s), s[HeaderSize(s[1]) - 4..HeaderSize(s[1])], HeaderSize(s[1]))
  {
    if s != [] {
      FirstExactly(s[0], msgType);
      if |s| >= 2 {
        SecondExactly(s[0], s[1]);
        if |s| + 4 >= HeaderSize(s[1]) { LengthExactly(s); }
      }
    }
  }

  // ---------------------------------------------------------------- refusals

  /** A refused header ends the session with status 1002, or 1011 if the frame is too long for the buffer. */
  lemma RefusalExactly(app: App, s: seq<Byte>, c: Context)
    requires ParseHead(s, c.msgType).Bad?
    ensures Decode(app, s, c) ==
              Ended(ERROR, c.log + [Queue(0x88, [3, if ParseHead(s, c.msgType) == Bad(ENOBUFS) then 243 else 234])])
  {
    HeadExactly(s, c.msgType);
  }

  // ---------------------------------------------------------------- payload

  /** Each payload byte is the exclusive-or of the byte sent and its key byte. */
  lemma PayloadBits(s: seq<Byte>, h: Head, j: nat)
    requires h.Head? && h.size <= |s| && |h.key| == 4 && j < |Payload(s, h)|
    ensures h.size + j < |s| && IsXor(Payload(s, h)[j], s[h.size + j], h.key[j % 4])
  {
    var end := if |s| < h.size + h.len then |s| else h.size + h.len;
    UnmaskBits(h.key, 0, s[h.size..end], j);
  }

  /** The example of section 5.7: the masked text frame "Hello". */
  lemma HelloUnmasked(key: seq<Byte>, sent: seq<Byte>, text: seq<Byte>)
    requires key == [0x37, 0xfa, 0x21, 0x3d] && sent == [0x7f, 0x9f, 0x4d, 0x51, 0x58]
    requires text == [0x48, 0x65, 0x6c, 0x6c, 0x6f]
    ensures Unmask(key, 0, sent) == text
  {
    assert IsXor(text[0], sent[0], key[0]) && IsXor(text[1], sent[1], key[1]) && IsXor(text[2], sent[2], key[2]);
    assert IsXor(text[3], sent[3], key[3]) && IsXor(text[4], sent[4], key[0]);
    UnmaskedIs(key, sent, text);
  }

  /** Unmasking is fixed by what it does to bits. */
  lemma UnmaskedIs(key: seq<Byte>, sent: seq<Byte>, text: seq<Byte>)
    requires |key| == 4 && |sent| == |text| && forall j :: 0 <= j < |sent| ==> IsXor(text[j], sent[j], key[j % 4])
    ensures Unmask(key, 0, sent) == text
  {
    forall j | 0 <= j < |sent| ensures Unmask(key, 0, sent)[j] == text[j] {
      UnmaskBits(key, 0, sent, j);
      IsXorOnce(Unmask(key, 0, sent)[j], text[j], sent[j], key[j % 4]);
    }
  }

  // ---------------------------------------------------------------- whole frames

  /** The payload of the frame at the start of `s` is all there, and `rest` comes after it. */
  ghost predicate WholeFrame(s: seq<Byte>, h: Head, payload: seq<Byte>, rest: seq<Byte>, msgType: Byte) {
    && h == ParseHead(s, msgType) && h.Head? && h.size + h.len <= |s|
    && payload == Payload(s, h) && |payload| == h.len && rest == s[h.size + h.len..]
  }

  lemma PingExactly(app: App, s: seq<Byte>, c: Context, h: Head, payload: seq<Byte>, rest: seq<Byte>)
    requires WholeFrame(s, h, payload, rest, c.msgType) && h.flags == 0x89
    ensures Decode(app, s, c) == Decode(app, rest, c.(log := c.log + [Queue(0x8A, payload)]))
  {
  }

  lemma PongExactly(app: App, s: seq<Byte>, c: Context, h: Head, payload: seq<Byte>, rest: seq<Byte>)
    requires WholeFrame(s, h, payload, rest, c.msgType) && h.flags == 0x8A
    ensures Decode(app, s, c) == Decode(app, rest, c)
  {
  }

  /** A Close is answered in kind, unless it has a status code that no peer may send; that is answered with 1002. */
  lemma CloseExactly(app: App, s: seq<Byte>, c: Context, h: Head, payload: seq<Byte>, rest: seq<Byte>)
    requires WholeFrame(s, h, payload, rest, c.msgType) && h.flags == 0x88
    ensures Decode(app, s, c) ==
              if |payload| < 2 || MaySend(256 * payload[0] as int + payload[1] as int)
              then Ended(CLOSE_RECEIVED, c.log + [Queue(0x88, payload)])
              else Ended(ERROR, c.log + [Queue(0x88, [3, 234])])
  {
    if |payload| >= 2 { CodesExactly(256 * payload[0] as int + payload[1] as int); }
  }

  /** The type of the message that a data frame is of: its own, or that of the message it continues. */
  function MessageType(c: Context, flags: Byte): (t: Byte) {
    if flags % 16 == 0 then c.msgType else flags % 16
  }

  /** No text could go on like this, or end like this. */
  ghost predicate NotText(c: Context, flags: Byte, payload: seq<Byte>, last: bool) {
    && MessageType(c, flags) == 1
    && if flags >= 128 && last then !Utf8.IsText(c.message + payload) else !Utf8.IsTextPrefix(c.message + payload)
  }

  lemma TextExactly(c: Context, h: Head, payload: seq<Byte>)
    requires h.Head? && h.flags % 16 < 8
    ensures PlainOkay(c, h, payload) <==> !NotText(c, h.flags, payload, |payload| == h.len)
  {
    Utf8.RunMeaning(c.message + payload);
  }

  lemma DataRefused(app: App, s: seq<Byte>, c: Context, h: Head, payload: seq<Byte>, rest: seq<Byte>)
    requires WholeFrame(s, h, payload, rest, c.msgType) && h.flags % 16 < 8 && NotText(c, h.flags, payload, true)
    ensures Decode(app, s, c) == Ended(ERROR, c.log + [Queue(0x88, [3, 239])])
  {
    TextExactly(c, h, payload);
  }

  lemma CompleteData(app: App, c: Context, flags: Byte, payload: seq<Byte>)
    requires flags % 16 < 8
    ensures var log1 := c.log + [Deliver(flags, payload)];
            var reply := app(log1, flags, payload);
            var log2 := log1 + Accepted(reply.sends);
            Complete(app, c, flags, payload) ==
              if reply.status != OKAY then Stop(Ended(ERROR, log2 + [Queue(0x88, [3, 234])]))
              else if flags >= 128 then More(Context(0, [], log2))
              else More(Context(MessageType(c, flags), c.message + payload, log2))
  {
  }

  /** A whole frame that is no bad text is handled, and decoding goes on if that lets it. */
  lemma WholeTaken(app: App, s: seq<Byte>, c: Context, h: Head, payload: seq<Byte>, rest: seq<Byte>)
    requires WholeFrame(s, h, payload, rest, c.msgType) && PlainOkay(c, h, payload)
    ensures var done := Complete(app, c, h.flags, payload);
            Decode(app, s, c) == if done.Stop? then done.outcome else Decode(app, rest, done.context)
  {
  }

  /** A data frame: what is not text ends the session with 1007; the rest is delivered, the frames sent meanwhile
      are queued, a callback that fails ends the session with 1002, and a final frame ends its message. */
  lemma DataExactly(app: App, s: seq<Byte>, c: Context, h: Head, payload: seq<Byte>, rest: seq<Byte>)
    requires WholeFrame(s, h, payload, rest, c.msgType) && h.flags % 16 < 8
    ensures var log1 := c.log + [Deliver(h.flags, payload)];
            var reply := app(log1, h.flags, payload);
            var log2 := log1 + Accepted(reply.sends);
            Decode(app, s, c) ==
              if NotText(c, h.flags, payload, true) then Ended(ERROR, c.log + [Queue(0x88, [3, 239])])
              else if reply.status != OKAY then Ended(ERROR, log2 + [Queue(0x88, [3, 234])])
              else if h.flags >= 128 then Decode(app, rest, Context(0, [], log2))
              else Decode(app, rest, Context(MessageType(c, h.flags), c.message + payload, log2))
  {
    if NotText(c, h.flags, payload, true) {
      DataRefused(app, s, c, h, payload, rest);
    } else {
      TextExactly(c, h, payload);
      CompleteData(app, c, h.flags, payload);
      WholeTaken(app, s, c, h, payload, rest);
    }
  }

  /** A frame whose payload is cut short: nothing, unless what is there can be no text. */
  lemma CutExactly(app: App, s: seq<Byte>, c: Context, h: Head, payload: seq<Byte>)
    requires h == ParseHead(s, c.msgType) && h.Head? && payload == Payload(s, h) && |payload| < h.len
    ensures Decode(app, s, c) ==
              if h.flags % 16 < 8 && NotText(c, h.flags, payload, false)
              then Ended(ERROR, c.log + [Queue(0x88, [3, 239])])
              else Open(c.log)
  {
    if h.flags % 16 < 8 { TextExactly(c, h, payload); }
  }

  // ---------------------------------------------------------------- what the application sends

  /** Of the frames sent while a session is connected, those with one of the six opcodes are queued. */
  lemma AcceptedExactly(sends: seq<(Byte, seq<Byte>)>, flags: Byte, payload: seq<Byte>)
    ensures Accepted([]) == []
    ensures Accepted(sends + [(flags, payload)]) ==
              Accepted(sends) + if flags % 16 in {0, 1, 2, 8, 9, 10} then [AppQueue(flags, payload)] else []
  {
    assert (sends + [(flags, payload)])[..|sends|] == sends;
  }

  lemma SendExactly(state: Life, flags: Byte)
    ensures SendStatus(state, flags) ==
              if flags % 16 !in {0, 1, 2, 8, 9, 10} then EINVAL
              else if state == CONNECTED then OKAY
              else if state == CLOSED then EPIPE
              else if state == ERROR then ECONNABORTED
              else EADDRNOTAVAIL
  {
  }
}
