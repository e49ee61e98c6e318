/** UTF-8 as a grammar (RFC 3629 section 4), as encodings of scalar values (section 3), and as the
    streaming validator of src/core/ymo_util.c. */
module Utf8 {
  import opened Bytes
  import opened Common

  // ---------------------------------------------------------------- grammar

  predicate Tail(b: Byte) {
    0x80 <= b <= 0xBF
  }

  /** UTF8-1 to UTF8-4 of the grammar. */
  predicate IsChar(s: seq<Byte>) {
    || (|s| == 1 && s[0] <= 0x7F)
    || (|s| == 2 && 0xC2 <= s[0] <= 0xDF && Tail(s[1]))
    || (|s| == 3 && Second3(s[0], s[1]) && Tail(s[2]))
    || (|s| == 4 && Second4(s[0], s[1]) && Tail(s[2]) && Tail(s[3]))
  }

  predicate Second3(a: Byte, b: Byte) {
    || (a == 0xE0 && 0xA0 <= b <= 0xBF)
    || (0xE1 <= a <= 0xEC && Tail(b))
    || (a == 0xED && 0x80 <= b <= 0x9F)
    || (0xEE <= a <= 0xEF && Tail(b))
  }

  predicate Second4(a: Byte, b: Byte) {
    || (a == 0xF0 && 0x90 <= b <= 0xBF)
    || (0xF1 <= a <= 0xF3 && Tail(b))
    || (a == 0xF4 && 0x80 <= b <= 0x8F)
  }

  /** How many bytes the character starting with `b` has; 0 when nothing starts with `b`. */
  function Width(b: Byte): (n: nat)
    ensures n <= 4
  {
    if b <= 0x7F then 1
    else if 0xC2 <= b <= 0xDF then 2
    else if 0xE0 <= b <= 0xEF then 3
    else if 0xF0 <= b <= 0xF4 then 4
    else 0
  }

  /** A string of UTF-8 characters. */
  predicate IsText(s: seq<Byte>) {
    s == [] || (0 < Width(s[0]) <= |s| && IsChar(s[..Width(s[0])]) && IsText(s[Width(s[0])..]))
  }

  ghost predicate IsTextPrefix(s: seq<Byte>) {
    exists t :: IsText(s + t)
  }

  // ---------------------------------------------------------------- scalar values

  predicate IsScalar(v: int) {
    0 <= v <= 0x10FFFF && !(0xD800 <= v <= 0xDFFF)
  }

  /** Section 3: the value's bits, six to a trailing byte, after a lead byte that tells the length. */
  function Encode(v: int): (s: seq<Byte>)
    requires IsScalar(v)
  {
    if v < 0x80 then [v]
    else if v < 0x800 then [0xC0 + v / 64, Low6(v)]
    else if v < 0x10000 then [0xE0 + v / 64 / 64, Low6(v / 64), Low6(v)]
    else [0xF0 + v / 64 / 64 / 64, Low6(v / 64 / 64), Low6(v / 64), Low6(v)]
  }

  function Low6(v: nat): (b: Byte) {
    0x80 + v % 64
  }

  /** Six more bits onto a value. */
  function Put(v: int, b: Byte): (r: int) {
    var low: int := b;
    v * 64 + (low - 0x80)
  }

  function Decode(s: seq<Byte>): (v: int)
    requires IsChar(s)
  {
    var lead: int := s[0];
    if |s| == 1 then lead
    else if |s| == 2 then Put(lead - 0xC0, s[1])
    else if |s| == 3 then Put(Put(lead - 0xE0, s[1]), s[2])
    else Put(Put(Put(lead - 0xF0, s[1]), s[2]), s[3])
  }

  function EncodeAll(vs: seq<int>): (s: seq<Byte>)
    requires forall v :: v in vs ==> IsScalar(v)
  {
    if vs == [] then [] else Encode(vs[0]) + EncodeAll(vs[1..])
  }

  lemma EncodeIsChar(v: int)
    requires IsScalar(v)
    ensures IsChar(Encode(v)) && Width(Encode(v)[0]) == |Encode(v)|
  {
  }

  lemma PutIsInverse(v: int, b: Byte)
    requires 0 <= v && Tail(b)
    ensures Put(v, b) / 64 == v && Low6(Put(v, b)) == b && 64 * v <= Put(v, b) < 64 * v + 64
  {
  }

  lemma DecodeIsInverse(s: seq<Byte>)
    requires IsChar(s)
    ensures IsScalar(Decode(s)) && Encode(Decode(s)) == s && Width(s[0]) == |s|
  {
    if |s| == 2 {
      PutIsInverse(s[0] - 0xC0, s[1]);
    } else if |s| == 3 {
      DecodeThree(s);
    } else if |s| == 4 {
      DecodeFour(s);
    }
  }

  lemma DecodeThree(s: seq<Byte>)
    requires IsChar(s) && |s| == 3
    ensures IsScalar(Decode(s)) && Encode(Decode(s)) == s && Width(s[0]) == |s|
  {
    var lead: int := s[0];
    var a := Put(lead - 0xE0, s[1]);
    PutIsInverse(lead - 0xE0, s[1]);
    PutIsInverse(a, s[2]);
    assert Decode(s) == Put(a, s[2]);
  }

  lemma DecodeFour(s: seq<Byte>)
    requires IsChar(s) && |s| == 4
    ensures IsScalar(Decode(s)) && Encode(Decode(s)) == s && Width(s[0]) == |s|
  {
    var lead: int := s[0];
    var a := Put(lead - 0xF0, s[1]);
    var b := Put(a, s[2]);
    PutIsInverse(lead - 0xF0, s[1]);
    PutIsInverse(a, s[2]);
    PutIsInverse(b, s[3]);
    assert Decode(s) == Put(b, s[3]);
  }

  /** The grammar generates exactly the encodings of scalar-value sequences. */
  lemma {:induction false} TextOfScalars(vs: seq<int>)
    requires forall v :: v in vs ==> IsScalar(v)
    ensures IsText(EncodeAll(vs))
  {
    if vs != [] {
      var c, rest := Encode(vs[0]), EncodeAll(vs[1..]);
      EncodeIsChar(vs[0]);
      TextOfScalars(vs[1..]);
      assert (c + rest)[..|c|] == c && (c + rest)[|c|..] == rest;
    }
  }

  lemma {:induction false} ScalarsOfText(s: seq<Byte>) returns (vs: seq<int>)
    requires IsText(s)
    ensures (forall v :: v in vs ==> IsScalar(v)) && EncodeAll(vs) == s
  {
    if s == [] {
      vs := [];
    } else {
      var n := Width(s[0]);
      var rest := ScalarsOfText(s[n..]);
      DecodeIsInverse(s[..n]);
      vs := [Decode(s[..n])] + rest;
      assert s == s[..n] + s[n..];
    }
  }

  ghost predicate Spells(vs: seq<int>, s: seq<Byte>) {
    (forall v :: v in vs ==> IsScalar(v)) && EncodeAll(vs) == s
  }

  lemma TextIsScalars(s: seq<Byte>)
    ensures IsText(s) <==> exists vs :: Spells(vs, s)
  {
    if IsText(s) {
      var vs := ScalarsOfText(s);
      assert Spells(vs, s);
    }
    if exists vs :: Spells(vs, s) {
      var vs :| Spells(vs, s);
      TextOfScalars(vs);
    }
  }

  // ---------------------------------------------------------------- the validator, one byte at a time

  /** A character with at least one byte missing at the end. */
  predicate IsPartial(s: seq<Byte>) {
    || (|s| == 1 && 0xC2 <= s[0] <= 0xF4)
    || (|s| == 2 && (Second3(s[0], s[1]) || Second4(s[0], s[1])))
    || (|s| == 3 && Second4(s[0], s[1]) && Tail(s[2]))
  }

  /** The shortest completion of a partial character. */
  function Completion(s: seq<Byte>): (t: seq<Byte>)
    requires IsPartial(s)
    ensures t != [] && IsChar(s + t)
  {
    if |s| == 1 then
      (if s[0] <= 0xDF then [0x80] else if s[0] == 0xE0 then [0xA0, 0x80] else if s[0] <= 0xEF then [0x80, 0x80]
       else if s[0] == 0xF0 then [0x90, 0x80, 0x80] else [0x80, 0x80, 0x80])
    else if |s| == 2 then (if Second3(s[0], s[1]) then [0x80] else [0x80, 0x80])
    else [0x80]
  }

  lemma PartialIsProperPrefix(s: seq<Byte>, t: seq<Byte>)
    requires s != [] && t != [] && IsChar(s + t)
    ensures IsPartial(s)
  {
    var c := s + t;
    assert s[0] == c[0] && (|s| > 1 ==> s[1] == c[1]) && (|s| > 2 ==> s[2] == c[2]);
  }

  /** The pending bytes after one more byte, or `None` when no text continues this way. */
  function Step(pend: seq<Byte>, b: Byte): (r: Option<seq<Byte>>) {
    var p := pend + [b];
    if IsChar(p) then Some([]) else if IsPartial(p) then Some(p) else None
  }

  function Run(pend: seq<Byte>, s: seq<Byte>): (r: Option<seq<Byte>>)
    decreases |s|
  {
    if s == [] then Some(pend)
    else match Step(pend, s[0]) case None => None case Some(p) => Run(p, s[1..])
  }

  lemma {:induction false} RunSplit(pend: seq<Byte>, a: seq<Byte>, b: seq<Byte>)
    ensures Run(pend, a + b) == (match Run(pend, a) case None => None case Some(p) => Run(p, b))
    decreases |a|
  {
    if a == [] {
      assert a + b == b;
    } else {
      assert (a + b)[0] == a[0] && (a + b)[1..] == a[1..] + b;
      if Step(pend, a[0]).Some? { RunSplit(Step(pend, a[0]).value, a[1..], b); }
    }
  }

  lemma {:induction false} RunKeepsPartial(pend: seq<Byte>, s: seq<Byte>)
    requires (pend == [] || IsPartial(pend)) && Run(pend, s).Some?
    ensures Run(pend, s).value == [] || IsPartial(Run(pend, s).value)
    decreases |s|
  {
    if s != [] { RunKeepsPartial(Step(pend, s[0]).value, s[1..]); }
  }

  /** The bytes seen since the last complete character, put back in front, decide acceptance. */
  lemma {:induction false} RunAccepts(pend: seq<Byte>, s: seq<Byte>)
    requires pend == [] || IsPartial(pend)
    ensures Run(pend, s) == Some([]) <==> IsText(pend + s)
    decreases |s|
  {
    if s == [] {
      assert pend + s == pend;
      if pend != [] { PartialIsNotText(pend); }
    } else {
      var p, w := pend + [s[0]], pend + s;
      assert w == p + s[1..];
      if IsChar(p) {
        DecodeIsInverse(p);
        RunAccepts([], s[1..]);
        assert [] + s[1..] == s[1..];
        assert w[..|p|] == p && w[|p|..] == s[1..] && w[0] == p[0];
      } else if IsPartial(p) {
        RunAccepts(p, s[1..]);
      } else if IsText(w) {
        FirstCharExtends(p, s[1..]);
      }
    }
  }

  lemma PartialIsNotText(p: seq<Byte>)
    requires IsPartial(p)
    ensures !IsText(p) && Width(p[0]) > |p|
  {
  }

  /** If text starts with `p`, and all of `p` but its last byte is one incomplete character, then
      `p` is a character or an incomplete one. */
  lemma FirstCharExtends(p: seq<Byte>, rest: seq<Byte>)
    requires p != [] && (|p| == 1 || IsPartial(p[..|p| - 1])) && IsText(p + rest)
    ensures IsChar(p) || IsPartial(p)
  {
    var w := p + rest;
    var n := Width(w[0]);
    if |p| > 1 { PartialIsNotText(p[..|p| - 1]); }
    assert n >= |p|;
    if n == |p| {
      assert w[..n] == p;
    } else {
      assert w[..n] == p + w[|p|..n];
      PartialIsProperPrefix(p, w[|p|..n]);
    }
  }

  /** The validator's verdict from a fresh state: complete text, or a prefix of text. */
  lemma RunMeaning(s: seq<Byte>)
    ensures Run([], s) == Some([]) <==> IsText(s)
    ensures Run([], s).Some? <==> IsTextPrefix(s)
  {
    assert [] + s == s;
    RunAccepts([], s);
    if Run([], s).Some? {
      var p := Run([], s).value;
      RunKeepsPartial([], s);
      var t := if p == [] then [] else Completion(p);
      RunAccepts(p, t);
      RunSplit([], s, t);
      RunAccepts([], s + t);
      if p != [] { CharIsText(p + t); }
      assert p == [] ==> p + t == [];
      assert IsText(s + t) by { assert [] + (s + t) == s + t; }
    }
    if IsTextPrefix(s) {
      var t :| IsText(s + t);
      RunAccepts([], s + t);
      assert [] + (s + t) == s + t;
      RunSplit([], s, t);
    }
  }

  lemma CharIsText(c: seq<Byte>)
    requires IsChar(c)
    ensures IsText(c)
  {
    DecodeIsInverse(c);
    assert c[..|c|] == c && c[|c|..] == [];
  }

  lemma RunAscii(s: seq<Byte>)
    requires |s| >= 4 && forall k :: 0 <= k < 4 ==> s[k] < 0x80
    ensures Run([], s) == Run([], s[4..])
  {
    assert Run([], s) == Run([], s[1..]);
    assert Run([], s[1..]) == Run([], s[1..][1..]) && s[1..][1..] == s[2..];
    assert Run([], s[2..]) == Run([], s[2..][1..]) && s[2..][1..] == s[3..];
    assert Run([], s[3..]) == Run([], s[3..][1..]) && s[3..][1..] == s[4..];
  }

  // ---------------------------------------------------------------- the bit-packed state machine

  const WIDTH_1 := 0
  const WIDTH_2 := 1
  const WIDTH_3 := 2
  const WIDTH_4 := 3

  const C3_MIN: seq<Byte> := [0x00, 0x80, 0xA0, 0xE0]
  const C4_MIN: seq<Byte> := [0x00, 0x80, 0x80, 0x90, 0xF0]
  const C4_MAX: seq<Byte> := [0x00, 0xBF, 0xBF, 0x8F, 0xF4]

  /** The fields of `ymo_utf8_state_t`, and what they say about the bytes still pending. */
  class Utf8State {
    var pointRemain: int
    var codeWidth: int
    var checkSurrogate: bool
    var checkOverlong: bool
    var checkMax: bool
    ghost var pend: seq<Byte>

    /** Flags matter only while a character is incomplete: they may be stale between characters. */
    ghost predicate Valid()
      reads this
    {
      && 0 <= pointRemain <= 3
      && (pend == [] <==> pointRemain == 0)
      && (pend != [] ==>
            && IsPartial(pend) && codeWidth == Width(pend[0]) - 1 && pointRemain == Width(pend[0]) - |pend|
            && (codeWidth == WIDTH_3 ==>
                  checkOverlong == (pend == [0xE0]) && checkSurrogate == (pend == [0xED]))
            && (codeWidth == WIDTH_4 ==>
                  checkOverlong == (pend == [0xF0]) && checkMax == (pend[0] == 0xF4)))
    }

    constructor ()
      ensures Valid() && pend == []
    {
      pointRemain, codeWidth, checkSurrogate, checkOverlong, checkMax := 0, 0, false, false, false;
      pend := [];
    }

    /** A byte read while no character is pending. */
    method StartByte(c: Byte) returns (status: Status)
      requires Valid() && pend == [] && c <= 0xF4 && c != 0xC0 && c != 0xC1
      modifies this
      ensures status == if Step([], c).Some? then OKAY else EILSEQ
      ensures Step([], c).Some? ==> Valid() && pend == Step([], c).value
    {
      checkSurrogate, checkOverlong, checkMax := false, false, false;
      pointRemain, codeWidth := 0, 0;
      if c / 0x80 == 0 {
        pointRemain, codeWidth := 0, WIDTH_1;
      } else if c / 0x20 == 0xC0 / 0x20 {
        pointRemain, codeWidth := 1, WIDTH_2;
      } else if c / 0x10 == 0xE0 / 0x10 {
        pointRemain, codeWidth := 2, WIDTH_3;
        checkSurrogate, checkOverlong := c == 0xED, c == 0xE0;
      } else if c / 0x08 == 0xF0 / 0x08 {
        pointRemain, codeWidth := 3, WIDTH_4;
        checkOverlong, checkMax := c == 0xF0, c == 0xF4;
      } else {
        return EILSEQ;
      }
      pend := if pointRemain == 0 then [] else [c];
      status := OKAY;
    }

    /** A continuation byte read while a character is pending. */
    method ContinueByte(c: Byte) returns (status: Status)
      requires Valid() && pend != [] && Tail(c)
      modifies this
      ensures status == if Step(old(pend), c).Some? then OKAY else EILSEQ
      ensures Step(old(pend), c).Some? ==> Valid() && pend == Step(old(pend), c).value
    {
      if codeWidth == WIDTH_3 {
        if checkOverlong && c < C3_MIN[pointRemain] {
          return EILSEQ;
        }
        checkOverlong := false;
        if checkSurrogate && c >= 0xA0 {
          return EILSEQ;
        }
        checkSurrogate := false;
      } else if codeWidth == WIDTH_4 {
        if checkOverlong && c < C4_MIN[pointRemain] {
          return EILSEQ;
        }
        checkOverlong := false;
        if checkMax && c > C4_MAX[pointRemain] {
          return EILSEQ;
        }
      }
      pointRemain := pointRemain - 1;
      pend := if pointRemain == 0 then [] else pend + [c];
      status := OKAY;
    }

    /** ymo_check_utf8, with its four-byte ASCII step. */
    method Check(buffer: seq<Byte>, done: bool) returns (status: Status)
      requires Valid()
      modifies this
      ensures status == match Run(old(pend), buffer)
                        case None => EILSEQ
                        case Some(p) => if done && p != [] then EILSEQ else OKAY
      ensures Run(old(pend), buffer).Some? ==> Valid() && pend == Run(old(pend), buffer).value
    {
      var p, len := 0, |buffer|;
      while len > 0
        invariant 0 <= p <= |buffer| && p + len == |buffer| && Valid()
        invariant Run(old(pend), buffer) == Run(pend, buffer[p..])
        decreases len
      {
        len := len - 1;
        var c := buffer[p];
        ghost var rest := buffer[p..];
        p := p + 1;
        assert buffer[p..] == rest[1..];
        if c > 0xF4 || c == 0xC0 || c == 0xC1 {
          return EILSEQ;
        }
        if pointRemain == 0 {
          if len >= 3 && c < 0x80 && buffer[p] < 0x80 && buffer[p + 1] < 0x80 && buffer[p + 2] < 0x80 {
            RunAscii(rest);
            len := len - 3;
            p := p + 3;
            assert buffer[p..] == rest[4..];
            continue;
          }
          status := StartByte(c);
        } else if c / 0x40 == 0x80 / 0x40 {
          status := ContinueByte(c);
        } else {
          return EILSEQ;
        }
        if status != OKAY {
          return;
        }
      }
      if pointRemain != 0 && done {
        return EILSEQ;
      }
      status := OKAY;
    }
  }

  /** However a byte stream is cut into calls, the verdict on it is that of its whole text. */
  method CheckChunks(chunks: seq<seq<Byte>>, done: bool) returns (status: Status)
    requires chunks != []
    ensures status == OKAY || status == EILSEQ
    ensures status == OKAY <==> if done then IsText(Concat(chunks)) else IsTextPrefix(Concat(chunks))
  {
    var state := new Utf8State();
    var n := 0;
    status := OKAY;
    while n < |chunks| && status == OKAY
      invariant n <= |chunks| && (status == OKAY || status == EILSEQ)
      invariant status == EILSEQ ==> n > 0
      invariant n < |chunks| ==> (status == OKAY <==> Run([], Concat(chunks[..n])).Some?)
      invariant n == |chunks| ==> (status == OKAY <==> Accepted(Concat(chunks), done))
      invariant status == OKAY && n < |chunks| ==> state.Valid() && Run([], Concat(chunks[..n])) == Some(state.pend)
    {
      assert chunks[..n + 1][..n] == chunks[..n];
      RunSplit([], Concat(chunks[..n]), chunks[n]);
      status := state.Check(chunks[n], done && n + 1 == |chunks|);
      n := n + 1;
      assert n == |chunks| ==> chunks[..n] == chunks;
    }
    if n < |chunks| {
      FailureLasts(chunks, n);
    }
    RunMeaning(Concat(chunks));
  }

  predicate Accepted(s: seq<Byte>, done: bool) {
    Run([], s).Some? && (done ==> Run([], s).value == [])
  }

  lemma {:induction false} FailureLasts(chunks: seq<seq<Byte>>, n: nat)
    requires n <= |chunks| && Run([], Concat(chunks[..n])).None?
    ensures Run([], Concat(chunks)).None?
  {
    if n == |chunks| {
      assert chunks[..n] == chunks;
    } else {
      var m := |chunks| - 1;
      assert chunks[..m][..n] == chunks[..n];
      FailureLasts(chunks[..m], n);
      RunSplit([], Concat(chunks[..m]), chunks[m]);
    }
  }
}
