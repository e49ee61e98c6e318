/** Frame headers as src/protocol/ws/ymo_ws_session.c writes them, and the proof that the receiving side
    reads back what was sent. */
module WsHeader {
  import opened Bytes
  import opened Common
  import opened WsMachine
  import opened WsDecoder

  const SIZE_MAX := 0xffff_ffff_ffff_ffff

  /** How many length bytes follow byte 1 of the header, and what byte 1 is. */
  function ExtLen(len: nat): (n: nat) {
    if len <= 125 then 0 else if len <= 0xffff then 2 else 8
  }

  function Len0(len: nat): (b: Byte) {
    if len <= 125 then len else if len <= 0xffff then 126 else 127
  }

  /** The low `n` bytes of a number, most significant first. */
  function BytesOf(n: nat, v: nat): (s: seq<Byte>)
    ensures |s| == n
  {
    if n == 0 then [] else BytesOf(n - 1, v / 256) + [v % 256]
  }

  function Header(flags: Byte, len: nat): (hdr: seq<Byte>)
    ensures |hdr| == 2 + ExtLen(len)
  {
    [flags, Len0(len)] + BytesOf(ExtLen(len), len)
  }

  /** gen_ws_msg_hdr. */
  method GenMsgHdr(flag: Byte, len: nat) returns (hdr: array<Byte>)
    requires len <= SIZE_MAX
    ensures fresh(hdr) && hdr[..] == Header(flag, len)
  {
    var len0, extLen;
    if len <= 125 {
      len0, extLen := len, 0;
    } else if len <= 0xffff {
      len0, extLen := 126, 2;
    } else {
      len0, extLen := 127, 8;
    }
    hdr := new Byte[2 + extLen];
    hdr[0] := flag;
    hdr[1] := len0;
    if extLen == 2 {
      PutLen2(hdr, len);
    } else if extLen == 8 {
      PutLen8(hdr, len);
    }
    assert hdr[..] == [flag, len0] + hdr[2..];
  }

  method PutLen2(hdr: array<Byte>, len: nat)
    requires hdr.Length == 4
    modifies hdr
    ensures hdr[0] == old(hdr[0]) && hdr[1] == old(hdr[1]) && hdr[2..] == BytesOf(2, len)
  {
    hdr[2] := len / 0x100 % 256;
    hdr[3] := len % 256;
    TwoBytes(len);
  }

  method PutLen8(hdr: array<Byte>, len: nat)
    requires hdr.Length == 10
    modifies hdr
    ensures hdr[0] == old(hdr[0]) && hdr[1] == old(hdr[1]) && hdr[2..] == BytesOf(8, len)
  {
    hdr[2] := len / 0x100_0000_0000_0000 % 256;
    hdr[3] := len / 0x1_0000_0000_0000 % 256;
    hdr[4] := len / 0x100_0000_0000 % 256;
    hdr[5] := len / 0x1_0000_0000 % 256;
    hdr[6] := len / 0x100_0000 % 256;
    hdr[7] := len / 0x1_0000 % 256;
    hdr[8] := len / 0x100 % 256;
    hdr[9] := len % 256;
    EightBytes(len);
  }

  lemma TwoBytes(v: nat)
    ensures BytesOf(2, v) == [v / 0x100 % 256, v % 256]
  {
    assert BytesOf(1, v / 256) == BytesOf(0, v / 256 / 256) + [v / 256 % 256];
  }

  lemma FourBytes(v: nat)
    ensures BytesOf(4, v) == [v / 0x100_0000 % 256, v / 0x1_0000 % 256, v / 0x100 % 256, v % 256]
  {
    TwoBytes(v / 0x1_0000);
    assert v / 256 / 256 == v / 0x1_0000;
    assert v / 0x1_0000 / 0x100 == v / 0x100_0000;
    assert BytesOf(3, v / 256) == BytesOf(2, v / 0x1_0000) + [v / 256 % 256];
  }

  /** The last four bytes of a number are those of the number, and the rest those of its higher part. */
  lemma LastFour(n: nat, v: nat)
    ensures BytesOf(n + 4, v) == BytesOf(n, v / 0x1_0000_0000) + BytesOf(4, v)
  {
    FourBytes(v);
    var a, b, c := v / 256, v / 0x1_0000, v / 0x100_0000;
    assert a / 256 == b && b / 256 == c && c / 256 == v / 0x1_0000_0000;
    assert BytesOf(n + 1, c) == BytesOf(n, c / 256) + [c % 256];
    assert BytesOf(n + 2, b) == BytesOf(n + 1, c) + [b % 256];
    assert BytesOf(n + 3, a) == BytesOf(n + 2, b) + [a % 256];
    assert BytesOf(n + 4, v) == BytesOf(n + 3, a) + [v % 256];
  }

  lemma EightBytes(v: nat)
    ensures BytesOf(8, v) ==
              [v / 0x100_0000_0000_0000 % 256, v / 0x1_0000_0000_0000 % 256, v / 0x100_0000_0000 % 256,
               v / 0x1_0000_0000 % 256, v / 0x100_0000 % 256, v / 0x1_0000 % 256, v / 0x100 % 256, v % 256]
  {
    var w := v / 0x1_0000_0000;
    LastFour(4, v);
    FourBytes(v);
    FourBytes(w);
    assert w / 0x100_0000 == v / 0x100_0000_0000_0000;
    assert w / 0x1_0000 == v / 0x1_0000_0000_0000;
    assert w / 0x100 == v / 0x100_0000_0000;
  }

  // ---------------------------------------------------------------- reading it back

  /** The number fits in `n` bytes. */
  predicate FitsIn(n: nat, v: nat) {
    if n == 0 then v == 0 else FitsIn(n - 1, v / 256)
  }

  lemma {:induction false} BigEndianSnoc(s: seq<Byte>, b: Byte)
    ensures BigEndian(s + [b]) == 256 * BigEndian(s) + b
  {
    if s == [] {
      assert [b][1..] == [];
    } else {
      assert (s + [b])[1..] == s[1..] + [b];
      BigEndianSnoc(s[1..], b);
    }
  }

  lemma {:induction false} BytesOfInverse(n: nat, v: nat)
    requires FitsIn(n, v)
    ensures BigEndian(BytesOf(n, v)) == v
  {
    if n > 0 {
      BytesOfInverse(n - 1, v / 256);
      BigEndianSnoc(BytesOf(n - 1, v / 256), v % 256);
    }
  }

  lemma LenFits(len: nat)
    requires len <= SIZE_MAX
    ensures ExtLen(len) > 0 ==> FitsIn(ExtLen(len), len)
  {
    if 0xffff < len {
      var a, b, c, d := len / 256, len / 0x1_0000, len / 0x100_0000, len / 0x1_0000_0000;
      assert d <= 0xffff_ffff;
      assert a / 256 == b && b / 256 == c && c / 256 == d;
      FourFit(d);
      assert FitsIn(5, c) && FitsIn(6, b) && FitsIn(7, a);
    } else if 125 < len {
      assert FitsIn(0, len / 256 / 256);
      assert FitsIn(1, len / 256);
    }
  }

  lemma FourFit(v: nat)
    requires v <= 0xffff_ffff
    ensures FitsIn(4, v)
  {
    var a, b, c := v / 256, v / 0x1_0000, v / 0x100_0000;
    assert a / 256 == b && b / 256 == c && c / 256 == 0;
    assert FitsIn(0, c / 256);
    assert FitsIn(1, c);
    assert FitsIn(2, b);
    assert FitsIn(3, a);
  }

  /** The frame as a client would send it: the generated header with the mask bit set, a key, and the
      payload under that key. */
  function MaskedFrame(flags: Byte, key: seq<Byte>, payload: seq<Byte>): (s: seq<Byte>)
    requires |key| == 4
  {
    Header(flags, |payload|)[1 := Len0(|payload|) + 128] + key + Unmask(key, 0, payload)
  }

  lemma MaskedParts(flags: Byte, key: seq<Byte>, payload: seq<Byte>)
    requires |key| == 4 && |payload| <= SIZE_MAX
    ensures var len := |payload|;
            MaskedFrame(flags, key, payload) ==
              [flags, Len0(len) + 128] + BytesOf(ExtLen(len), len) + key + Unmask(key, 0, payload)
  {
    var len := |payload|;
    SetSecond(flags, Len0(len), Len0(len) + 128, BytesOf(ExtLen(len), len));
  }

  lemma SetSecond(a: Byte, b: Byte, x: Byte, rest: seq<Byte>)
    ensures ([a, b] + rest)[1 := x] == [a, x] + rest
  {
  }

  /** Where the parts of a frame are. */
  lemma PartsAt(a: seq<Byte>, b: seq<Byte>, c: seq<Byte>, d: seq<Byte>, e: seq<Byte>)
    ensures var s, i, j, k := a + b + c + d + e, |a| + |b|, |a| + |b| + |c|, |a| + |b| + |c| + |d|;
            && |s| == k + |e| && s[..|a|] == a && s[|a|..i] == b && s[i..j] == c && s[j..k] == d && s[k..] == e
  {
  }

  /** The header's length bytes give the length back, in every one of the three forms. */
  lemma LengthReadsBack(flags: Byte, key: seq<Byte>, payload: seq<Byte>, rest: seq<Byte>)
    requires |key| == 4 && |payload| <= SIZE_MAX
    ensures var s := MaskedFrame(flags, key, payload) + rest;
            && |s| >= 2 + ExtLen(|payload|) + 4 && s[0] == flags && s[1] == Len0(|payload|) + 128
            && ExtBytes(s[1]) == ExtLen(|payload|) && FrameLen(s) == |payload|
  {
    var len := |payload|;
    var n := ExtLen(len);
    var s, head := MaskedFrame(flags, key, payload) + rest, [flags, Len0(len) + 128];
    MaskedParts(flags, key, payload);
    PartsAt(head, BytesOf(n, len), key, Unmask(key, 0, payload), rest);
    assert s[..2][0] == head[0] && s[..2][1] == head[1];
    if n > 0 {
      LenFits(len);
      BytesOfInverse(n, len);
    }
  }

  /** A frame the sender makes is, once masked, the frame the receiver reads; one over the frame limit is
      refused for its length. */
  lemma FrameReadsBack(flags: Byte, key: seq<Byte>, payload: seq<Byte>, rest: seq<Byte>, msgType: Byte)
    requires |key| == 4 && |payload| <= SIZE_MAX
    requires CheckOp(msgType, flags) == OKAY && (!IsData(flags) ==> |payload| <= 125)
    ensures var s := MaskedFrame(flags, key, payload) + rest;
            var h := ParseHead(s, msgType);
            if |payload| > FRAME_MAX then h == Bad(if |payload| < 0x8000_0000_0000_0000 then ENOBUFS else EBADMSG)
            else
              && h == Head(flags, |payload|, key, 2 + ExtLen(|payload|) + 4)
              && Payload(s, h) == payload && s[h.size + h.len..] == rest
  {
    var n := ExtLen(|payload|);
    var s := MaskedFrame(flags, key, payload) + rest;
    LengthReadsBack(flags, key, payload, rest);
    assert CheckLen(s[0], s[1]) == OKAY;
    if |payload| <= FRAME_MAX {
      MaskedParts(flags, key, payload);
      PartsAt([flags, Len0(|payload|) + 128], BytesOf(n, |payload|), key, Unmask(key, 0, payload), rest);
      UnmaskTwice(key, 0, payload);
    }
  }

  /** No header that gives the same length is shorter. */
  lemma HeaderIsShortest(flags: Byte, s: seq<Byte>)
    requires |s| >= 2 && |s| >= 2 + ExtBytes(s[1])
    ensures |Header(flags, FrameLen(s))| <= 2 + ExtBytes(s[1])
  {
    if ExtBytes(s[1]) == 2 {
      var t := s[2..4];
      assert Weight(t[0], 1) == 256 * Weight(t[0], 0);
      assert t[1..] == [t[1]] && [t[1]][1..] == [];
      assert BigEndian([t[1]]) == t[1];
    }
  }

  /** Decoding goes on with what the application is told, or stops, as for a frame received alone. */
  lemma SentFrameIsDecoded(app: App, c: Context, flags: Byte, key: seq<Byte>, payload: seq<Byte>, rest: seq<Byte>)
    requires |key| == 4 && |payload| <= FRAME_MAX
    requires CheckOp(c.msgType, flags) == OKAY && (!IsData(flags) ==> |payload| <= 125)
    requires PlainOkay(c, Head(flags, |payload|, key, 2 + ExtLen(|payload|) + 4), payload)
    ensures var next := Complete(app, c, flags, payload);
            Decode(app, MaskedFrame(flags, key, payload) + rest, c) ==
              if next.Stop? then next.outcome else Decode(app, rest, next.context)
  {
    FrameReadsBack(flags, key, payload, rest, c.msgType);
  }
}
