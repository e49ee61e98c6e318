/** Section 5.4 of RFC 6455: which sequences of opcodes and FIN bits make up messages, stated over the
    whole sequence, and the proof that the type kept between frames accepts exactly those. */
module WsFraming {
  import opened Bytes
  import opened Common
  import opened WsMachine
  import opened WsDecoder

  // ---------------------------------------------------------------- the grammar

  function DataFrames(fs: seq<Byte>): (ds: seq<Byte>) {
    if fs == [] then []
    else DataFrames(fs[..|fs| - 1]) + (if IsData(fs[|fs| - 1]) then [fs[|fs| - 1]] else [])
  }

  predicate IsControl(f: Byte) {
    Op(f) == OP_CLOSE || Op(f) == OP_PING || Op(f) == OP_PONG
  }

  predicate FrameOkay(f: Byte) {
    !Reserved(f) && (IsData(f) || (IsControl(f) && Fin(f)))
  }

  predicate Follows(ds: seq<Byte>, i: nat)
    requires i < |ds|
  {
    Op(ds[i]) <= OP_BINARY && (Op(ds[i]) == OP_CONTINUATION <==> i > 0 && !Fin(ds[i - 1]))
  }

  /** A data frame continues a message exactly when the data frame before it was not its final one;
      control frames, themselves never fragmented, may come anywhere. */
  ghost predicate WellFramed(fs: seq<Byte>) {
    && (forall f :: f in fs ==> FrameOkay(f))
    && var ds := DataFrames(fs);
    && (forall i :: 0 <= i < |ds| ==> Follows(ds, i))
  }

  /** A message has begun and its final frame has not come. */
  predicate Unfinished(fs: seq<Byte>) {
    var ds := DataFrames(fs);
    ds != [] && !Fin(ds[|ds| - 1])
  }

  // ---------------------------------------------------------------- the code

  /** A frame as far as framing goes: its first byte and the length of its payload. */
  datatype Shape = Shape(flags: Byte, len: nat)

  /** What the code leaves in msg_type: it clears it only where it handles payload. */
  function TypeAfter(msgType: Byte, f: Shape): (t: Byte) {
    if IsData(f.flags) && Fin(f.flags) && f.len > 0 then 0 else TypeAfterOp(msgType, f.flags)
  }

  /** The message type after some frames, or `None` if one of them is refused. */
  function TypeOf(fs: seq<Shape>): (t: Option<Byte>) {
    if fs == [] then Some(0)
    else
      var before, f := TypeOf(fs[..|fs| - 1]), fs[|fs| - 1];
      if before.None? || CheckOp(before.value, f.flags) != OKAY then None else Some(TypeAfter(before.value, f))
  }

  predicate EmptyEnd(f: Shape) {
    Op(f.flags) == OP_CONTINUATION && Fin(f.flags) && f.len == 0
  }

  function Flags(fs: seq<Shape>): (r: seq<Byte>)
    ensures |r| == |fs|
    ensures forall i :: 0 <= i < |fs| ==> r[i] == fs[i].flags
  {
    seq(|fs|, i requires 0 <= i < |fs| => fs[i].flags)
  }

  /** The code ends messages where it should, except at an empty final continuation. */
  lemma EndsUnlessEmpty(msgType: Byte, f: Shape)
    requires CheckOp(msgType, f.flags) == OKAY
    ensures TypeAfter(msgType, f) == TypeAfterFrame(msgType, f.flags) <==> !EmptyEnd(f)
  {
  }

  lemma DataFramesSnoc(fs: seq<Byte>, f: Byte)
    ensures DataFrames(fs + [f]) == DataFrames(fs) + (if IsData(f) then [f] else [])
  {
    assert (fs + [f])[..|fs|] == fs;
  }

  /** One more frame keeps the sequence well framed exactly when the code lets it through. */
  lemma WellFramedSnoc(fs: seq<Byte>, f: Byte, t: Byte)
    requires WellFramed(fs) && (t != 0 <==> Unfinished(fs))
    ensures WellFramed(fs + [f]) <==> CheckOp(t, f) == OKAY
  {
    DataFramesSnoc(fs, f);
    var ds := DataFrames(fs);
    var ds' := DataFrames(fs + [f]);
    assert f in fs + [f];
    assert forall i :: 0 <= i < |ds| && Follows(ds, i) ==> Follows(ds', i);
    assert FrameOkay(f) && (IsData(f) ==> Follows(ds', |ds|)) <==> CheckOp(t, f) == OKAY;
    if CheckOp(t, f) == OKAY {
      assert forall g :: g in fs + [f] ==> g in fs || g == f;
      assert WellFramed(fs + [f]);
    }
  }

  lemma WellFramedPrefix(fs: seq<Byte>, f: Byte)
    requires WellFramed(fs + [f])
    ensures WellFramed(fs)
  {
    DataFramesSnoc(fs, f);
    var ds := DataFrames(fs);
    assert forall g :: g in fs ==> g in fs + [f];
    assert forall i :: 0 <= i < |ds| && Follows(DataFrames(fs + [f]), i) ==> Follows(ds, i);
  }

  /** If no final continuation is empty, the frame sequences the code accepts are the well framed ones,
      and between frames msg_type is nonzero exactly while a message is unfinished. */
  lemma {:induction false} AcceptsMessages(fs: seq<Shape>)
    requires forall f :: f in fs ==> !EmptyEnd(f)
    ensures TypeOf(fs).Some? <==> WellFramed(Flags(fs))
    ensures TypeOf(fs).Some? ==> (TypeOf(fs).value != 0 <==> Unfinished(Flags(fs)))
    ensures TypeOf(fs).Some? ==> TypeOf(fs).value in {0, OP_TEXT, OP_BINARY}
  {
    if fs != [] {
      var init, f := fs[..|fs| - 1], fs[|fs| - 1];
      AcceptsMessages(init);
      assert Flags(fs) == Flags(init) + [f.flags];
      assert f in fs;
      DataFramesSnoc(Flags(init), f.flags);
      if TypeOf(init).Some? {
        WellFramedSnoc(Flags(init), f.flags, TypeOf(init).value);
      } else if WellFramed(Flags(fs)) {
        WellFramedPrefix(Flags(init), f.flags);
        assert false;
      }
    }
  }

  lemma TypeOfSnoc(fs: seq<Shape>, f: Shape)
    ensures TypeOf(fs + [f]) ==
              if TypeOf(fs).None? || CheckOp(TypeOf(fs).value, f.flags) != OKAY then None
              else Some(TypeAfter(TypeOf(fs).value, f))
  {
    assert (fs + [f])[..|fs|] == fs;
  }

  /** After these frames msg_type says what section 5.4 says. */
  ghost predicate InStep(fs: seq<Shape>) {
    TypeOf(fs).Some? && WellFramed(Flags(fs)) && (TypeOf(fs).value != 0 <==> Unfinished(Flags(fs)))
  }

  ghost predicate AlwaysInStep(fs: seq<Shape>) {
    forall k {:trigger fs[..k]} :: 0 <= k <= |fs| ==> InStep(fs[..k])
  }

  /** For frames the code accepts, msg_type keeps in step with section 5.4 throughout exactly if no final
      continuation is empty. */
  lemma InStepUnlessEmpty(fs: seq<Shape>)
    requires TypeOf(fs).Some?
    ensures AlwaysInStep(fs) <==> forall f :: f in fs ==> !EmptyEnd(f)
  {
    if forall f :: f in fs ==> !EmptyEnd(f) {
      forall k | 0 <= k <= |fs|
        ensures InStep(fs[..k])
      {
        AcceptedPrefix(fs, k);
        AcceptsMessages(fs[..k]);
      }
    } else {
      var i :| 0 <= i < |fs| && EmptyEnd(fs[i]);
      EmptyEndOutOfStep(fs, i);
    }
  }

  lemma {:induction false} AcceptedPrefix(fs: seq<Shape>, k: nat)
    requires TypeOf(fs).Some? && k <= |fs|
    ensures TypeOf(fs[..k]).Some?
  {
    if k < |fs| {
      AcceptedPrefix(fs[..|fs| - 1], k);
      assert fs[..|fs| - 1][..k] == fs[..k];
    } else {
      assert fs[..k] == fs;
    }
  }

  lemma EmptyEndOutOfStep(fs: seq<Shape>, i: nat)
    requires i < |fs| && EmptyEnd(fs[i])
    ensures !AlwaysInStep(fs)
  {
    var p, f := fs[..i], fs[i];
    assert fs[..i + 1] == p + [f];
    TypeOfSnoc(p, f);
    assert Flags(p + [f]) == Flags(p) + [f.flags];
    DataFramesSnoc(Flags(p), f.flags);
    assert AlwaysInStep(fs) ==> InStep(fs[..i]) && InStep(fs[..i + 1]);
  }

  /** A message that ends with an empty frame, and a frame after it: well framed, and refused. */
  lemma EmptyEndBlocks()
    ensures var fs := [Shape(1, 0), Shape(128, 0), Shape(129, 0)];
            TypeOf(fs).None? && WellFramed(Flags(fs))
  {
    var a, b, d := Shape(1, 0), Shape(128, 0), Shape(129, 0);
    TypeOfSnoc([], a);
    TypeOfSnoc([a], b);
    TypeOfSnoc([a, b], d);
    assert [] + [a] == [a] && [a] + [b] == [a, b] && [a, b] + [d] == [a, b, d];
    assert Flags([a, b, d]) == [1, 128, 129];
    ThreeFramed(1, 128, 129);
  }

  lemma ThreeFramed(x: Byte, y: Byte, z: Byte)
    requires CheckOp(0, x) == OKAY && IsData(x) && !Fin(x)
    requires CheckOp(1, y) == OKAY && IsData(y) && Fin(y)
    requires CheckOp(0, z) == OKAY
    ensures WellFramed([x, y, z])
  {
    DataFramesSnoc([], x);
    DataFramesSnoc([x], y);
    assert [] + [x] == [x] && [x] + [y] == [x, y] && [x, y] + [z] == [x, y, z];
    WellFramedSnoc([], x, 0);
    WellFramedSnoc([x], y, 1);
    WellFramedSnoc([x, y], z, 0);
  }

  // ---------------------------------------------------------------- the same in bytes

  lemma EmptyHead(flags: Byte, key: seq<Byte>, msgType: Byte)
    requires |key| == 4 && CheckOp(msgType, flags) == OKAY
    ensures ParseHead([flags, 128] + key, msgType) == Head(flags, 0, key, 6)
  {
    var s := [flags, 128] + key;
    assert s[0] == flags && s[1] == 128 && s[2..6] == key;
  }

  lemma EmptyDispatch(app: App, c: Context, flags: Byte, key: seq<Byte>)
    requires |key| == 4 && CheckOp(c.msgType, flags) == OKAY && IsData(flags)
    requires app(c.log + [Deliver(flags, [])], flags, []) == Reply(OKAY, [])
    ensures EndMask(app, InPayload(c, [], Head(flags, 0, key, 6))) ==
              Between(Context(TypeAfterOp(c.msgType, flags), c.message, c.log + [Deliver(flags, [])]), [])
  {
    OneBucket(app, c.log, flags, []);
    assert (c.log + [Deliver(flags, [])]) + [] == c.log + [Deliver(flags, [])];
  }

  /** A data frame without payload, its bytes read one by one: it is delivered, and msg_type stays as byte 0
      has left it. */
  lemma EmptyFrameRuns(app: App, c: Context, flags: Byte, key: seq<Byte>)
    requires |key| == 4 && CheckOp(c.msgType, flags) == OKAY && IsData(flags)
    requires app(c.log + [Deliver(flags, [])], flags, []) == Reply(OKAY, [])
    ensures Run(app, Between(c, []), [flags, 128] + key) ==
              Between(Context(TypeAfterOp(c.msgType, flags), c.message, c.log + [Deliver(flags, [])]), [])
  {
    var s := [flags, 128] + key;
    EmptyHead(flags, key, c.msgType);
    HeadSteps(app, s, c, []);
    assert s[..6] == s;
    EmptyDispatch(app, c, flags, key);
  }

  /** The failing input as bytes: a text message of two empty frames, and the first byte of the next. */
  function TwoEmptyAndNext(k1: seq<Byte>, k2: seq<Byte>): (s: seq<Byte>) {
    ([1, 128] + k1) + (([128, 128] + k2) + [129])
  }

  /** Whatever the masking keys, the session fails with status 1002 at the third frame's first byte. */
  lemma EmptyEndFails(app: App, k1: seq<Byte>, k2: seq<Byte>)
    requires |k1| == |k2| == 4 && forall log, flags, data :: app(log, flags, data) == Reply(OKAY, [])
    ensures Run(app, Fresh, TwoEmptyAndNext(k1, k2)) ==
              Abort(CONNECTED, [Deliver(1, []), Deliver(128, [])], 1002)
  {
    var c1 := Context(1, [], [Deliver(1, [])]);
    var c2 := Context(1, [], [Deliver(1, []), Deliver(128, [])]);
    assert [] + [Deliver(1, [])] == [Deliver(1, [])];
    assert c1.log + [Deliver(128, [])] == c2.log;
    EmptyFrameRuns(app, Start, 1, k1);
    EmptyFrameRuns(app, c1, 128, k2);
    RunSplit(app, Fresh, [1, 128] + k1, ([128, 128] + k2) + [129]);
    RunSplit(app, Between(c1, []), [128, 128] + k2, [129]);
    OneStep(app, Between(c2, []), 129);
  }

  lemma OneStep(app: App, s: State, b: Byte)
    ensures Run(app, s, [b]) == Step(app, s, b)
  {
    assert [b][1..] == [];
    assert Run(app, Step(app, s, b), []) == Step(app, s, b);
  }

  // ---------------------------------------------------------------- streams

  /** The frames of a stream that is nothing but whole frames the code accepts. */
  function ShapesFrom(s: seq<Byte>, msgType: Byte): (fs: Option<seq<Shape>>)
    decreases |s|
  {
    if s == [] then Some([])
    else match ParseHead(s, msgType)
      case Short => None
      case Bad(_) => None
      case Head(flags, len, _, size) =>
        if |s| < size + len then None
        else
          var rest := ShapesFrom(s[size + len..], TypeAfterFrame(msgType, flags));
          if rest.None? then None else Some([Shape(flags, len)] + rest.value)
  }

  function TypeFrom(t: Byte, fs: seq<Shape>): (r: Option<Byte>)
    decreases |fs|
  {
    if fs == [] then Some(t)
    else if CheckOp(t, fs[0].flags) != OKAY then None
    else TypeFrom(TypeAfter(t, fs[0]), fs[1..])
  }

  lemma {:induction false} TypeFromSplit(t: Byte, xs: seq<Shape>, ys: seq<Shape>)
    ensures TypeFrom(t, xs + ys) ==
              if TypeFrom(t, xs).None? then None else TypeFrom(TypeFrom(t, xs).value, ys)
    decreases |xs|
  {
    if xs == [] {
      assert xs + ys == ys;
    } else {
      assert (xs + ys)[0] == xs[0] && (xs + ys)[1..] == xs[1..] + ys;
      TypeFromSplit(TypeAfter(t, xs[0]), xs[1..], ys);
    }
  }

  lemma {:induction false} TypeFromStart(fs: seq<Shape>)
    ensures TypeFrom(0, fs) == TypeOf(fs)
  {
    if fs != [] {
      var init, f := fs[..|fs| - 1], fs[|fs| - 1];
      assert fs == init + [f];
      TypeFromStart(init);
      TypeFromSplit(0, init, [f]);
      assert [f][1..] == [];
    }
  }

  /** Reading whole frames of a clean stream leaves the machine between frames with the type that the
      frames' opcodes and FIN bits give, and no bytes of a character pending when a message is to start. */
  lemma {:induction false} FramesLeaveType(app: App, s: seq<Byte>, c: Context, pend: seq<Byte>)
    requires Clean(app, s, c) && Coherent(c, pend)
    requires ShapesFrom(s, c.msgType).Some? && Run(app, Between(c, pend), s).Live?
    ensures var fs := ShapesFrom(s, c.msgType).value;
            && (forall f :: f in fs ==> !EmptyEnd(f))
            && Run(app, Between(c, pend), s).frame == NoFrame
            && TypeFrom(c.msgType, fs) == Some(Run(app, Between(c, pend), s).msgType)
            && (Run(app, Between(c, pend), s).msgType == 0 ==> Run(app, Between(c, pend), s).pend == [])
    decreases |s|
  {
    if s != [] {
      var h := ParseHead(s, c.msgType);
      var t := FrameSteps(app, s, c, pend, h);
      LiveGoesOn(app, s, c, pend, h, t);
      var c' := Complete(app, c, h.flags, Payload(s, h)).context;
      FrameGoesOn(app, s, c, pend, h, t);
      ShapesCons(s, c.msgType, h);
      FramesLeaveType(app, s[h.size + h.len..], c', t.pend);
      TypeFromCons(c.msgType, Shape(h.flags, h.len), ShapesFrom(s[h.size + h.len..], c'.msgType).value);
    }
  }

  lemma ShapesCons(s: seq<Byte>, msgType: Byte, h: Head)
    requires ShapesFrom(s, msgType).Some? && s != [] && h == ParseHead(s, msgType)
    requires h.Head? ==> CleanHead(h, msgType)
    ensures h.Head? && |s| >= h.size + h.len && CheckOp(msgType, h.flags) == OKAY && !EmptyEnd(Shape(h.flags, h.len))
    ensures var rest := ShapesFrom(s[h.size + h.len..], TypeAfterFrame(msgType, h.flags));
            rest.Some? && ShapesFrom(s, msgType).value == [Shape(h.flags, h.len)] + rest.value
  {
  }

  lemma TypeFromCons(t: Byte, f: Shape, fs: seq<Shape>)
    requires CheckOp(t, f.flags) == OKAY && !EmptyEnd(f)
    ensures TypeFrom(t, [f] + fs) == TypeFrom(TypeAfterFrame(t, f.flags), fs)
  {
    EndsUnlessEmpty(t, f);
    assert ([f] + fs)[1..] == fs;
  }

  /** A machine that is still going after a whole frame has not been stopped by it. */
  lemma LiveGoesOn(app: App, s: seq<Byte>, c: Context, pend: seq<Byte>, h: Head, t: State)
    requires h == ParseHead(s, c.msgType) && h.Head? && CleanHead(h, c.msgType) && |s| >= h.size + h.len
    requires FrameAgrees(app, s, c, pend, h, t) && Run(app, Between(c, pend), s).Live?
    ensures PlainOkay(c, h, Payload(s, h)) && Complete(app, c, h.flags, Payload(s, h)).More?
  {
    if !PlainOkay(c, h, Payload(s, h)) {
      FrameUndone(app, s, c, pend, h, t);
    } else if Complete(app, c, h.flags, Payload(s, h)).Stop? {
      FrameStops(app, s, c, pend, h, t);
    }
  }

  /** A session that has read a clean stream of whole frames and is still open has read well framed
      messages, its msg_type is nonzero exactly if the last of them is unfinished, and if it is finished the
      UTF-8 check has no bytes pending. */
  lemma OpenSessionIsFramed(app: App, s: seq<Byte>)
    requires Clean(app, s, Start) && ShapesFrom(s, 0).Some? && Run(app, Fresh, s).Live?
    ensures WellFramed(Flags(ShapesFrom(s, 0).value))
    ensures Run(app, Fresh, s).msgType != 0 <==> Unfinished(Flags(ShapesFrom(s, 0).value))
    ensures Run(app, Fresh, s).msgType == 0 ==> Run(app, Fresh, s).pend == []
  {
    FramesLeaveType(app, s, Start, []);
    TypeFromStart(ShapesFrom(s, 0).value);
    AcceptsMessages(ShapesFrom(s, 0).value);
  }
}
