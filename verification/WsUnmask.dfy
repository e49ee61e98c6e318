/** unmask_payload of src/protocol/ws/ymo_ws_parse.c: leading bytes up to a word boundary of the read
    buffer, whole words, trailing bytes. */
module WsUnmask {
  import opened Bytes

  /** Sizes and addresses wrap at 2^64. */
  const SIZE_LIMIT := 0x1_0000_0000_0000_0000

  function Floor4(p: nat): (r: nat) { p - p % 4 }

  function Ceil4(p: nat): (r: nat) { Floor4(p + 3) }

  /** Four bytes as a 32-bit word, and a word's byte `k`, lowest byte first. */
  function Load32(a: Byte, b: Byte, c: Byte, d: Byte): (w: nat) {
    a + 256 * (b + 256 * (c + 256 * d))
  }

  function ByteOf(w: nat, k: nat): (b: Byte) {
    if k == 0 then w % 256 else ByteOf(w / 256, k - 1)
  }

  lemma LoadBytes(a: Byte, b: Byte, c: Byte, d: Byte)
    ensures ByteOf(Load32(a, b, c, d), 0) == a && ByteOf(Load32(a, b, c, d), 1) == b
    ensures ByteOf(Load32(a, b, c, d), 2) == c && ByteOf(Load32(a, b, c, d), 3) == d
  {
    var w := Load32(a, b, c, d);
    assert w / 256 == b + 256 * (c + 256 * d);
    assert w / 256 / 256 == c + 256 * d;
    assert ByteOf(w, 1) == ByteOf(w / 256, 0);
    assert ByteOf(w, 2) == ByteOf(w / 256, 1) == ByteOf(w / 256 / 256, 0);
    assert ByteOf(w, 3) == ByteOf(w / 256, 2) == ByteOf(w / 256 / 256, 1) == ByteOf(w / 256 / 256 / 256, 0);
  }

  lemma XorAbove(n: nat, a: Byte, a1: nat, b: Byte, b1: nat)
    ensures XorBits(8 + n, a + 256 * a1, b + 256 * b1) == Xor(a, b) + 256 * XorBits(n, a1, b1)
  {
    assert Pow2(8) == 256;
    JoinIsSum(8, a, a1);
    JoinIsSum(8, b, b1);
    JoinIsSum(8, Xor(a, b), XorBits(n, a1, b1));
    XorBitsJoin(8, n, a, a1, b, b1);
  }

  /** The same with a sum of the widths, and whatever the words are called. */
  lemma XorOnTop(n: nat, w: nat, a: Byte, b: Byte, x: nat, y: nat, u: nat, v: nat, r: nat)
    requires w == 8 + n && x == a + 256 * u && y == b + 256 * v && r == XorBits(n, u, v)
    ensures XorBits(w, x, y) == Xor(a, b) + 256 * r
  {
    XorAbove(n, a, u, b, v);
  }

  /** One 32-bit exclusive-or is four byte-wide ones. */
  lemma WordXor(a: Byte, b: Byte, c: Byte, d: Byte, k: Byte, l: Byte, m: Byte, n: Byte)
    ensures XorBits(32, Load32(a, b, c, d), Load32(k, l, m, n)) == Load32(Xor(a, k), Xor(b, l), Xor(c, m), Xor(d, n))
  {
    var x1, y1 := c + 256 * d, m + 256 * n;
    var x2, y2 := b + 256 * x1, l + 256 * y1;
    XorOnTop(BYTE_BITS, 16, c, m, x1, y1, d, n, Xor(d, n));
    XorOnTop(16, 24, b, l, x2, y2, x1, y1, XorBits(16, x1, y1));
    XorOnTop(24, 32, a, k, Load32(a, b, c, d), Load32(k, l, m, n), x2, y2, XorBits(24, x2, y2));
  }

  /** The key byte for payload byte `n`. */
  function KeyAt(key: seq<Byte>, n: nat): (k: Byte)
    requires |key| == 4
  {
    key[n % 4]
  }

  /** The first `i` bytes of `rd` are in the buffer from `wr` on, unmasked; nothing else has changed. */
  ghost predicate Unmasked(now: seq<Byte>, was: seq<Byte>, wr: nat, key: seq<Byte>, from: nat, rd: seq<Byte>, i: nat)
    requires |key| == 4
  {
    && i <= |rd| && wr + |rd| <= |now| == |was|
    && (forall j :: 0 <= j < i ==> now[wr + j] == Xor(rd[j], KeyAt(key, from + j)))
    && (forall k :: 0 <= k < |now| && !(wr <= k < wr + i) ==> now[k] == was[k])
  }

  lemma UnmaskedStep(now: seq<Byte>, was: seq<Byte>, wr: nat, key: seq<Byte>, from: nat, rd: seq<Byte>, i: nat, b: Byte)
    requires |key| == 4 && Unmasked(now, was, wr, key, from, rd, i) && i < |rd|
    requires b == Xor(rd[i], KeyAt(key, from + i))
    ensures Unmasked(now[wr + i := b], was, wr, key, from, rd, i + 1)
  {
  }

  /** Numbers that may stand for one another as indices into the key. */
  ghost predicate Congruent(m: nat, n: nat) {
    m % 4 == n % 4
  }

  lemma CongruentNext(m: nat, n: nat)
    requires Congruent(m, n)
    ensures Congruent((m + 1) % 256, n + 1) && Congruent(m + 1, n + 1)
  {
  }

  lemma CongruentSum(m': nat, m: nat, n: nat, k: nat)
    requires Congruent(m', m + n) && Congruent(m, k)
    ensures Congruent(m', k + n)
  {
  }

  lemma CongruentKey(key: seq<Byte>, m: nat, n: nat)
    requires |key| == 4 && Congruent(m, n)
    ensures KeyAt(key, m) == KeyAt(key, n)
  {
  }

  /** Unmasks `rd`, read at address `addr`, into `buffer` at `wr`, with the eight-bit counter at `mod`. */
  method UnmaskInto(rd: seq<Byte>, addr: nat, buffer: array<Byte>, wr: nat, key: seq<Byte>, mod: Byte)
      returns (mod': Byte)
    requires |key| == 4 && wr + |rd| <= buffer.Length && addr + |rd| + 3 < SIZE_LIMIT
    modifies buffer
    ensures Unmasked(buffer[..], old(buffer[..]), wr, key, mod, rd, |rd|)
    ensures forall j :: 0 <= j < |rd| ==> IsXor(buffer[wr + j], rd[j], key[(mod + j) % 4])
    ensures Congruent(mod', mod + |rd|)
  {
    ghost var was := buffer[..];
    var lead := if |rd| < Ceil4(addr) - addr then |rd| else Ceil4(addr) - addr;
    mod' := ByteLoop(buffer, was, wr, key, mod, rd, 0, lead, mod);
    var i: nat;
    mod', i := WordLoop(buffer, was, wr, key, mod, rd, lead, addr, mod');
    mod' := ByteLoop(buffer, was, wr, key, mod, rd, i, |rd| - i, mod');
    UnmaskedBits(buffer[..], was, wr, key, mod, rd);
  }

  /** Each byte is the exclusive-or, bit by bit, of a payload byte and its key byte. */
  lemma UnmaskedBits(now: seq<Byte>, was: seq<Byte>, wr: nat, key: seq<Byte>, from: nat, rd: seq<Byte>)
    requires |key| == 4 && Unmasked(now, was, wr, key, from, rd, |rd|)
    ensures forall j :: 0 <= j < |rd| ==> IsXor(now[wr + j], rd[j], key[(from + j) % 4])
  {
    forall j | 0 <= j < |rd|
      ensures IsXor(now[wr + j], rd[j], key[(from + j) % 4])
    {
      XorMeaning(rd[j], KeyAt(key, from + j));
    }
  }

  /** `count` bytes from index `at` on, one by one: used before and after the whole words. */
  method ByteLoop(buffer: array<Byte>, ghost was: seq<Byte>, wr: nat, key: seq<Byte>, ghost from: Byte, rd: seq<Byte>,
                  at: nat, count: nat, mod: Byte) returns (mod': Byte)
    requires |key| == 4 && at + count <= |rd| && Congruent(mod, from + at)
    requires Unmasked(buffer[..], was, wr, key, from, rd, at)
    modifies buffer
    ensures Unmasked(buffer[..], was, wr, key, from, rd, at + count) && Congruent(mod', from + at + count)
  {
    mod' := mod;
    var i, end := at, count;
    while end > 0
      invariant 0 <= end && i + end == at + count && i <= |rd|
      invariant Unmasked(buffer[..], was, wr, key, from, rd, i) && Congruent(mod', from + i)
      decreases end
    {
      CongruentKey(key, mod', from + i);
      CongruentNext(mod', from + i);
      ghost var now := buffer[..];
      buffer[wr + i] := Xor(rd[i], key[mod' % 4]);
      UnmaskedStep(now, was, wr, key, from, rd, i, Xor(rd[i], key[mod' % 4]));
      assert buffer[..] == now[wr + i := Xor(rd[i], key[mod' % 4])];
      mod', i, end := (mod' + 1) % 256, i + 1, end - 1;
    }
  }

  /** The whole words from index `at` on. The counter moves four on even when there are none; the
      byte count wraps when the data ends short of a boundary, but then no data remains. */
  method WordLoop(buffer: array<Byte>, ghost was: seq<Byte>, wr: nat, key: seq<Byte>, ghost from: Byte, rd: seq<Byte>,
                  at: nat, addr: nat, mod: Byte) returns (mod': Byte, i: nat)
    requires |key| == 4 && at <= |rd| && Congruent(mod, from + at) && addr + |rd| + 3 < SIZE_LIMIT
    requires at == |rd| || (addr + at) % 4 == 0
    requires Unmasked(buffer[..], was, wr, key, from, rd, at)
    modifies buffer
    ensures i <= |rd| && Unmasked(buffer[..], was, wr, key, from, rd, i) && Congruent(mod', from + i)
  {
    i := at;
    var end := (Floor4(addr + |rd|) - (addr + i)) % SIZE_LIMIT;
    var mask := Load32(KeyAt(key, mod), KeyAt(key, mod + 1), KeyAt(key, mod + 2), KeyAt(key, mod + 3));
    mod' := (mod + 4) % 256;
    WholeWords(addr, |rd|, at);
    MaskAt(key, mod, from + at);
    FourMore(mod, from + at);
    while end > 0 && i < |rd|
      invariant i <= |rd| && Congruent(mod', from + i) && mask == MaskFrom(key, from + i)
      invariant WordsTo(at, |rd|, i, end)
      invariant Unmasked(buffer[..], was, wr, key, from, rd, i)
      decreases |rd| - i
    {
      WordsToNext(at, |rd|, i, end);
      WordStep(buffer, was, wr, key, from, rd, i, mask);
      FourOn(key, mod', from + i);
      end, i := end - 4, i + 4;
    }
  }

  /** Unless there is no data, `end` bytes of whole words are left from index `i` on. */
  ghost predicate WordsTo(at: nat, n: nat, i: nat, end: int) {
    if at < n then 0 <= end && i + end <= n && end % 4 == 0 else i == at
  }

  lemma WholeWords(addr: nat, n: nat, at: nat)
    requires at == n || (at < n && (addr + at) % 4 == 0 && addr + n < SIZE_LIMIT)
    ensures WordsTo(at, n, at, (Floor4(addr + n) - (addr + at)) % SIZE_LIMIT)
  {
    if at < n {
      var words := (Floor4(addr + n) - (addr + at)) / 4;
      assert Floor4(addr + n) - (addr + at) == 4 * words;
    }
  }

  lemma WordsToNext(at: nat, n: nat, i: nat, end: int)
    requires WordsTo(at, n, i, end) && end > 0 && at <= i < n
    ensures at < n && i + 4 <= n && WordsTo(at, n, i + 4, end - 4)
  {
  }

  lemma FourMore(m: nat, n: nat)
    requires Congruent(m, n)
    ensures Congruent((m + 4) % 256, n)
  {
    var q, r := (m + 4) / 256, (m + 4) % 256;
    assert m + 4 == 4 * (64 * q) + r;
  }

  /** The 32-bit mask for payload bytes `n` to `n + 3`. */
  ghost function MaskFrom(key: seq<Byte>, n: nat): (w: nat)
    requires |key| == 4
  {
    Load32(KeyAt(key, n), KeyAt(key, n + 1), KeyAt(key, n + 2), KeyAt(key, n + 3))
  }

  lemma MaskAt(key: seq<Byte>, m: nat, n: nat)
    requires |key| == 4 && Congruent(m, n)
    ensures MaskFrom(key, m) == MaskFrom(key, n)
  {
    CongruentNext(m, n);
    CongruentNext(m + 1, n + 1);
    CongruentNext(m + 2, n + 2);
  }

  lemma FourOn(key: seq<Byte>, m: nat, n: nat)
    requires |key| == 4 && Congruent(m, n)
    ensures Congruent(m, n + 4) && MaskFrom(key, n + 4) == MaskFrom(key, n)
  {
    assert forall k: nat :: (k + 4) % 4 == k % 4;
    MaskAt(key, n, n + 4);
  }

  /** One word read, masked and written. */
  method WordStep(buffer: array<Byte>, ghost was: seq<Byte>, wr: nat, key: seq<Byte>, ghost from: Byte, rd: seq<Byte>,
      i: nat,
                  mask: nat)
    requires |key| == 4 && i + 4 <= |rd| && Unmasked(buffer[..], was, wr, key, from, rd, i)
    requires mask == MaskFrom(key, from + i)
    modifies buffer
    ensures Unmasked(buffer[..], was, wr, key, from, rd, i + 4)
  {
    var w := MaskedWord(key, from, rd, i, mask);
    Put(buffer, was, wr, key, from, rd, i, ByteOf(w, 0));
    Put(buffer, was, wr, key, from, rd, i + 1, ByteOf(w, 1));
    Put(buffer, was, wr, key, from, rd, i + 2, ByteOf(w, 2));
    Put(buffer, was, wr, key, from, rd, i + 3, ByteOf(w, 3));
  }

  /** The word of `rd` at index `i`, unmasked. */
  method MaskedWord(ghost key: seq<Byte>, ghost from: nat, rd: seq<Byte>, i: nat, mask: nat) returns (w: nat)
    requires |key| == 4 && i + 4 <= |rd| && mask == MaskFrom(key, from + i)
    ensures ByteOf(w, 0) == Xor(rd[i], KeyAt(key, from + i))
    ensures ByteOf(w, 1) == Xor(rd[i + 1], KeyAt(key, from + (i + 1)))
    ensures ByteOf(w, 2) == Xor(rd[i + 2], KeyAt(key, from + (i + 2)))
    ensures ByteOf(w, 3) == Xor(rd[i + 3], KeyAt(key, from + (i + 3)))
  {
    w := XorBits(32, Load32(rd[i], rd[i + 1], rd[i + 2], rd[i + 3]), mask);
    WordBytes(key, from, rd, i);
  }

  /** Writes the next unmasked byte. */
  method Put(buffer: array<Byte>, ghost was: seq<Byte>, wr: nat, ghost key: seq<Byte>, ghost from: Byte,
             ghost rd: seq<Byte>, i: nat, b: Byte)
    requires |key| == 4 && i < |rd| && Unmasked(buffer[..], was, wr, key, from, rd, i)
    requires b == Xor(rd[i], KeyAt(key, from + i))
    modifies buffer
    ensures Unmasked(buffer[..], was, wr, key, from, rd, i + 1)
  {
    UnmaskedStep(buffer[..], was, wr, key, from, rd, i, b);
    ghost var now := buffer[..];
    buffer[wr + i] := b;
    assert buffer[..] == now[wr + i := b];
  }

  /** The bytes of a masked word are the masked bytes. */
  lemma WordBytes(key: seq<Byte>, from: nat, rd: seq<Byte>, i: nat)
    requires |key| == 4 && i + 4 <= |rd|
    ensures var w := XorBits(32, Load32(rd[i], rd[i + 1], rd[i + 2], rd[i + 3]), MaskFrom(key, from + i));
            && ByteOf(w, 0) == Xor(rd[i], KeyAt(key, from + i))
            && ByteOf(w, 1) == Xor(rd[i + 1], KeyAt(key, from + (i + 1)))
            && ByteOf(w, 2) == Xor(rd[i + 2], KeyAt(key, from + (i + 2)))
            && ByteOf(w, 3) == Xor(rd[i + 3], KeyAt(key, from + (i + 3)))
  {
    var n := from + i;
    var a, b, c, d := KeyAt(key, n), KeyAt(key, n + 1), KeyAt(key, n + 2), KeyAt(key, n + 3);
    WordXor(rd[i], rd[i + 1], rd[i + 2], rd[i + 3], a, b, c, d);
    LoadBytes(Xor(rd[i], a), Xor(rd[i + 1], b), Xor(rd[i + 2], c), Xor(rd[i + 3], d));
  }
}
