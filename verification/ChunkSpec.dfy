/** The chunked transfer coding of section 4.1 of RFC 7230: the framing the code writes, and a decoder. */
module ChunkSpec {
  import opened Bytes

  const CRLF: seq<Byte> := [0x0D, 0x0A]
  const LAST_CHUNK: seq<Byte> := [0x30, 0x0D, 0x0A, 0x0D, 0x0A]

  // ---------------------------------------------------------------- hexadecimal

  function Digit(d: nat): (b: Byte)
    requires d < 16
  {
    if d < 10 then 0x30 + d else 0x61 + (d - 10)
  }

  /** A number in hexadecimal, as "%zx" prints it. */
  function Hex(n: nat): (s: seq<Byte>)
    ensures s != []
    decreases n
  {
    if n < 16 then [Digit(n)] else Hex(n / 16) + [Digit(n % 16)]
  }

  predicate IsHexDigit(b: Byte) {
    0x30 <= b <= 0x39 || 0x41 <= b <= 0x46 || 0x61 <= b <= 0x66
  }

  function DigitValue(b: Byte): (d: nat)
    requires IsHexDigit(b)
    ensures d < 16
  {
    if b <= 0x39 then b - 0x30 else if b <= 0x46 then b - 0x41 + 10 else b - 0x61 + 10
  }

  /** How many hexadecimal digits `s` starts with. */
  function DigitCount(s: seq<Byte>): (n: nat)
    ensures n <= |s|
    ensures forall i :: 0 <= i < n ==> IsHexDigit(s[i])
    ensures n < |s| ==> !IsHexDigit(s[n])
  {
    if s == [] || !IsHexDigit(s[0]) then 0 else 1 + DigitCount(s[1..])
  }

  function HexValue(s: seq<Byte>): (v: nat)
    requires forall i :: 0 <= i < |s| ==> IsHexDigit(s[i])
  {
    if s == [] then 0 else 16 * HexValue(s[..|s| - 1]) + DigitValue(s[|s| - 1])
  }

  lemma {:induction false} HexReadsBack(n: nat)
    ensures forall i :: 0 <= i < |Hex(n)| ==> IsHexDigit(Hex(n)[i])
    ensures HexValue(Hex(n)) == n
    decreases n
  {
    if n < 16 {
      assert [Digit(n)][..0] == [];
      assert HexValue([Digit(n)]) == 16 * HexValue([]) + DigitValue(Digit(n));
    } else {
      HexReadsBack(n / 16);
      var s := Hex(n);
      assert s[..|s| - 1] == Hex(n / 16) && s[|s| - 1] == Digit(n % 16);
    }
  }

  lemma {:induction false} CountDigits(xs: seq<Byte>, ys: seq<Byte>)
    requires forall i :: 0 <= i < |xs| ==> IsHexDigit(xs[i])
    requires ys != [] && !IsHexDigit(ys[0])
    ensures DigitCount(xs + ys) == |xs|
    decreases |xs|
  {
    if xs == [] {
      assert xs + ys == ys;
    } else {
      assert (xs + ys)[0] == xs[0] && (xs + ys)[1..] == xs[1..] + ys;
      CountDigits(xs[1..], ys);
    }
  }

  // ---------------------------------------------------------------- framing

  function SizeLine(n: nat): (s: seq<Byte>) {
    Hex(n) + CRLF
  }

  function Chunk(data: seq<Byte>): (s: seq<Byte>) {
    SizeLine(|data|) + (data + CRLF)
  }

  function Chunks(parts: seq<seq<Byte>>): (s: seq<Byte>) {
    if parts == [] then [] else Chunk(parts[0]) + Chunks(parts[1..])
  }

  lemma {:induction false} ChunksSplit(xs: seq<seq<Byte>>, ys: seq<seq<Byte>>)
    ensures Chunks(xs + ys) == Chunks(xs) + Chunks(ys)
    decreases |xs|
  {
    if xs == [] {
      assert xs + ys == ys;
    } else {
      assert (xs + ys)[0] == xs[0] && (xs + ys)[1..] == xs[1..] + ys;
      ChunksSplit(xs[1..], ys);
    }
  }

  lemma ChunksSnoc(xs: seq<seq<Byte>>, data: seq<Byte>)
    ensures Chunks(xs + [data]) == Chunks(xs) + Chunk(data)
  {
    ChunksSplit(xs, [data]);
    assert [data][1..] == [] && Chunk(data) + [] == Chunk(data);
  }

  /** A chunk of twenty-six bytes, in characters: "1a", the data, and a CRLF after each. */
  lemma ChunkOf26(data: seq<Byte>)
    requires |data| == 26
    ensures Chunk(data) == [0x31, 0x61, 0x0D, 0x0A] + data + [0x0D, 0x0A]
  {
    assert Hex(1) == [0x31];
    assert Hex(26) == Hex(1) + [0x61];
  }

  // ---------------------------------------------------------------- decoding

  /** What a decoder makes of some bytes: a whole body and what comes after it, a body so far, or an error. */
  datatype Decoded =
    | Whole(body: seq<Byte>, rest: seq<Byte>)
    | Part(body: seq<Byte>)
    | Malformed

  predicate HasPrefix(s: seq<Byte>, at: nat, p: seq<Byte>) {
    at + |p| <= |s| && s[at..at + |p|] == p
  }

  /** The next chunk: its data, and what comes after it; or too few bytes; or none. */
  datatype Next =
    | Wait
    | Bad
    | Next(data: seq<Byte>, rest: seq<Byte>)

  function NextChunk(s: seq<Byte>): (c: Next)
    ensures c.Next? ==> |c.rest| < |s|
  {
    var n := DigitCount(s);
    if n + 2 > |s| then Wait
    else if n == 0 || !HasPrefix(s, n, CRLF) then Bad
    else
      var size, at := HexValue(s[..n]), n + 2;
      if at + size + 2 > |s| then Wait
      else if !HasPrefix(s, at + size, CRLF) then Bad
      else Next(s[at..at + size], s[at + size + 2..])
  }

  /** chunked-body = *chunk last-chunk trailer-part CRLF, without chunk extensions and trailers: the CRLF
      after a chunk of size zero is the one that ends the body. */
  function Decode(s: seq<Byte>, body: seq<Byte>): (d: Decoded)
    decreases |s|
  {
    match NextChunk(s)
    case Wait => Part(body)
    case Bad => Malformed
    case Next(data, rest) => if data == [] then Whole(body, rest) else Decode(rest, body + data)
  }

  lemma ChunkIsNext(data: seq<Byte>, rest: seq<Byte>)
    ensures NextChunk(Chunk(data) + rest) == Next(data, rest)
  {
    var hex := Hex(|data|);
    HexReadsBack(|data|);
    CountDigits(hex, CRLF + (data + (CRLF + rest)));
    ChunkJoin(hex, data, rest);
    JoinedIsNext(Chunk(data) + rest, hex, data, rest);
  }

  lemma JoinedIsNext(s: seq<Byte>, hex: seq<Byte>, data: seq<Byte>, rest: seq<Byte>)
    requires s == hex + (CRLF + (data + (CRLF + rest))) && DigitCount(s) == |hex| > 0
    requires (forall i :: 0 <= i < |hex| ==> IsHexDigit(hex[i])) && HexValue(hex) == |data|
    ensures NextChunk(s) == Next(data, rest)
  {
    ChunkPieces(hex, data, rest);
    assert s[..|hex|] == hex;
  }

  /** The decoder reads one chunk. */
  lemma ChunkDecodes(data: seq<Byte>, rest: seq<Byte>, body: seq<Byte>)
    ensures Decode(Chunk(data) + rest, body) == if data == [] then Whole(body, rest) else Decode(rest, body + data)
  {
    ChunkIsNext(data, rest);
  }

  lemma ChunkJoin(hex: seq<Byte>, data: seq<Byte>, rest: seq<Byte>)
    ensures ((hex + CRLF) + (data + CRLF)) + rest == hex + (CRLF + (data + (CRLF + rest)))
  {
  }

  /** Where the pieces of a chunk are. */
  lemma ChunkPieces(hex: seq<Byte>, data: seq<Byte>, rest: seq<Byte>)
    ensures var s, n := hex + (CRLF + (data + (CRLF + rest))), |hex|;
            && |s| == n + 2 + |data| + 2 + |rest|
            && s[..n] == hex && HasPrefix(s, n, CRLF) && s[n + 2..n + 2 + |data|] == data
            && HasPrefix(s, n + 2 + |data|, CRLF) && s[n + 2 + |data| + 2..] == rest
  {
    var s, n := hex + (CRLF + (data + (CRLF + rest))), |hex|;
    assert s[n..n + 2] == CRLF;
    assert s[n + 2 + |data|..n + 2 + |data| + 2] == CRLF;
  }

  /** Chunks without data end the body; until one comes, the data is what was put in. */
  lemma {:induction false} ChunksDecode(parts: seq<seq<Byte>>, rest: seq<Byte>, body: seq<Byte>)
    requires NoEmptyPart(parts)
    ensures Decode(Chunks(parts) + rest, body) == Decode(rest, body + Concat(parts))
    decreases |parts|
  {
    if parts == [] {
      assert Chunks(parts) + rest == rest && body + Concat(parts) == body;
    } else {
      assert Chunks(parts) + rest == Chunk(parts[0]) + (Chunks(parts[1..]) + rest);
      ChunkDecodes(parts[0], Chunks(parts[1..]) + rest, body);
      ChunksDecode(parts[1..], rest, body + parts[0]);
      ConcatCons(parts);
      Associative(body, parts[0], Concat(parts[1..]));
    }
  }

  lemma LastChunk()
    ensures LAST_CHUNK == Chunk([])
  {
    assert Hex(0) == [0x30];
    assert [] + CRLF == CRLF;
  }

  /** Framed parts with a terminal chunk decode to the parts' data, with nothing left over, exactly if no
      part is empty: an empty one is a terminal chunk itself. */
  lemma FramedDecodes(parts: seq<seq<Byte>>)
    ensures Decode(Chunks(parts) + LAST_CHUNK, []) == Whole(Concat(parts), []) <==> NoEmptyPart(parts)
    ensures NoEmptyPart(parts) ==> Decode(Chunks(parts), []) == Part(Concat(parts))
  {
    LastChunk();
    if NoEmptyPart(parts) {
      ChunksDecode(parts, LAST_CHUNK, []);
      ChunkDecodes([], [], Concat(parts));
      ChunksDecode(parts, [], []);
      assert Chunk([]) + [] == Chunk([]) && Chunks(parts) + [] == Chunks(parts) && [] + Concat(parts) == Concat(parts);
    } else {
      var xs, e, ys := FirstEmpty(parts);
      EmptyEnds(xs, e, ys, LAST_CHUNK);
    }
  }

  lemma {:induction false} FirstEmpty(parts: seq<seq<Byte>>)
    returns (xs: seq<seq<Byte>>, e: seq<Byte>, ys: seq<seq<Byte>>)
    requires !NoEmptyPart(parts)
    ensures parts == xs + ([e] + ys) && e == [] && NoEmptyPart(xs)
    decreases |parts|
  {
    if parts[0] == [] {
      xs, e, ys := [], parts[0], parts[1..];
    } else {
      xs, e, ys := FirstEmpty(parts[1..]);
      xs := [parts[0]] + xs;
    }
  }

  /** The body ends at the first part that is empty, and what follows is left over. */
  lemma EmptyEnds(xs: seq<seq<Byte>>, e: seq<Byte>, ys: seq<seq<Byte>>, end: seq<Byte>)
    requires NoEmptyPart(xs) && e == []
    ensures Decode(Chunks(xs + ([e] + ys)) + end, []) == Whole(Concat(xs), Chunks(ys) + end)
  {
    ChunksAround(xs, e, ys, end);
    ChunksDecode(xs, Chunk(e) + (Chunks(ys) + end), e);
    assert e + Concat(xs) == Concat(xs);
    ChunkDecodes(e, Chunks(ys) + end, Concat(xs));
  }

  lemma ChunksAround(xs: seq<seq<Byte>>, data: seq<Byte>, ys: seq<seq<Byte>>, end: seq<Byte>)
    ensures Chunks(xs + ([data] + ys)) + end == Chunks(xs) + (Chunk(data) + (Chunks(ys) + end))
  {
    ChunksSplit(xs, [data] + ys);
    assert ([data] + ys)[1..] == ys;
    Associative(Chunks(xs), Chunk(data) + Chunks(ys), end);
    Associative(Chunk(data), Chunks(ys), end);
  }

  /** A size line for up to 65535 bytes fits the buffer it is printed into. */
  lemma SizeLineFits(n: nat)
    ensures |SizeLine(n)| <= 6 <==> n <= 65535
  {
    var a, b, c := n / 16, n / 256, n / 4096;
    assert a / 16 == b && b / 16 == c;
    assert |Hex(n)| == 1 || |Hex(n)| == 1 + |Hex(a)|;
    assert |Hex(a)| == 1 || |Hex(a)| == 1 + |Hex(b)|;
    assert |Hex(b)| == 1 || |Hex(b)| == 1 + |Hex(c)|;
    assert c >= 16 ==> |Hex(c)| == 1 + |Hex(c / 16)|;
  }
}
