/** Bytes, and exclusive-or on unsigned words of any width, as plain integers. */
module Bytes {
  type Byte = x: int | 0 <= x < 256

  function Pow2(n: nat): (r: nat)
    ensures r >= 1
  {
    if n == 0 then 1 else 2 * Pow2(n - 1)
  }

  /** Exclusive-or of the lowest bit of two words. */
  function XorBit(a: nat, b: nat): (r: nat)
    ensures r < 2
  {
    if a % 2 == b % 2 then 0 else 1
  }

  /** Bitwise exclusive-or of the low `n` bits of two words. */
  function XorBits(n: nat, a: nat, b: nat): (r: nat)
    ensures r < Pow2(n)
  {
    if n == 0 then 0 else XorBit(a, b) + 2 * XorBits(n - 1, a / 2, b / 2)
  }

  const BYTE_BITS: nat := 8

  function Xor(a: Byte, b: Byte): (r: Byte)
  {
    assert Pow2(8) == 256;
    XorBits(BYTE_BITS, a, b)
  }

  lemma LowBit(x: nat, y: nat)
    requires x < 2
    ensures (x + 2 * y) % 2 == x && (x + 2 * y) / 2 == y
  {
  }

  /** Masking twice with the same key is the identity. */
  lemma {:induction false} XorBitsInvolution(n: nat, a: nat, b: nat)
    requires a < Pow2(n)
    ensures XorBits(n, XorBits(n, a, b), b) == a
  {
    if n > 0 {
      var r := XorBits(n - 1, a / 2, b / 2);
      LowBit(XorBit(a, b), r);
      assert XorBits(n, XorBit(a, b) + 2 * r, b)
          == XorBit(XorBit(a, b) + 2 * r, b) + 2 * XorBits(n - 1, r, b / 2);
      XorBitsInvolution(n - 1, a / 2, b / 2);
    }
  }

  lemma XorInvolution(a: Byte, k: Byte)
    ensures Xor(Xor(a, k), k) == a
  {
    assert Pow2(8) == 256;
    XorBitsInvolution(BYTE_BITS, a, k);
  }

  /** Bit `k` of a word, the lowest being bit 0. */
  function Bit(x: nat, k: nat): (b: nat)
    ensures b < 2
  {
    if k == 0 then x % 2 else Bit(x / 2, k - 1)
  }

  lemma {:induction false} BitOfXor(n: nat, a: nat, b: nat, k: nat)
    requires k < n
    ensures Bit(XorBits(n, a, b), k) == 1 <==> Bit(a, k) != Bit(b, k)
    decreases n
  {
    var rest := XorBits(n - 1, a / 2, b / 2);
    LowBit(XorBit(a, b), rest);
    if k > 0 { BitOfXor(n - 1, a / 2, b / 2, k - 1); }
  }

  /** A byte halved again and again. */
  lemma Halves(x: Byte)
    ensures x / 4 == x / 2 / 2 && x / 8 == x / 4 / 2 && x / 16 == x / 8 / 2
    ensures x / 32 == x / 16 / 2 && x / 64 == x / 32 / 2 && x / 128 == x / 64 / 2 < 2
  {
  }

  function Halved(x: nat, k: nat): (h: nat) {
    if k == 0 then x else Halved(x / 2, k - 1)
  }

  lemma {:induction false} HalvedOnce(x: nat, k: nat, j: nat)
    requires j == k + 1
    ensures Bit(x, k) == Halved(x, k) % 2 && Halved(x, j) == Halved(x, k) / 2
  {
    if k > 0 { HalvedOnce(x / 2, k - 1, k); }
  }

  lemma BitsByDivision(x: Byte)
    ensures Bit(x, 0) == x % 2 && Bit(x, 1) == x / 2 % 2 && Bit(x, 2) == x / 4 % 2 && Bit(x, 3) == x / 8 % 2
    ensures Bit(x, 4) == x / 16 % 2 && Bit(x, 5) == x / 32 % 2 && Bit(x, 6) == x / 64 % 2 && Bit(x, 7) == x / 128
  {
    Halves(x);
    HalvedOnce(x, 0, 1);
    HalvedOnce(x, 1, 2);
    HalvedOnce(x, 2, 3);
    HalvedOnce(x, 3, 4);
    HalvedOnce(x, 4, 5);
    HalvedOnce(x, 5, 6);
    HalvedOnce(x, 6, 7);
    HalvedOnce(x, 7, 8);
  }

  /** Each bit of `r` is 1 exactly if those of `a` and `b` differ, the bits being read by division. */
  predicate IsXor(r: Byte, a: Byte, b: Byte) {
    && (r % 2 == 1 <==> a % 2 != b % 2) && (r / 2 % 2 == 1 <==> a / 2 % 2 != b / 2 % 2)
    && (r / 4 % 2 == 1 <==> a / 4 % 2 != b / 4 % 2) && (r / 8 % 2 == 1 <==> a / 8 % 2 != b / 8 % 2)
    && (r / 16 % 2 == 1 <==> a / 16 % 2 != b / 16 % 2) && (r / 32 % 2 == 1 <==> a / 32 % 2 != b / 32 % 2)
    && (r / 64 % 2 == 1 <==> a / 64 % 2 != b / 64 % 2) && (r / 128 == 1 <==> a / 128 != b / 128)
  }

  /** What exclusive-or is, bit by bit. */
  lemma XorMeaning(a: Byte, b: Byte)
    ensures IsXor(Xor(a, b), a, b)
  {
    BitsByDivision(a);
    BitsByDivision(b);
    BitsByDivision(Xor(a, b));
    assert Pow2(8) == 256;
    var k := 0;
    while k < BYTE_BITS
      invariant k <= BYTE_BITS
      invariant forall i :: 0 <= i < k ==> (Bit(Xor(a, b), i) == 1 <==> Bit(a, i) != Bit(b, i))
    {
      BitOfXor(BYTE_BITS, a, b, k);
      k := k + 1;
    }
  }

  /** A byte is fixed by its bits, so that only exclusive-or has this property. */
  lemma IsXorOnce(r: Byte, s: Byte, a: Byte, b: Byte)
    requires IsXor(r, a, b) && IsXor(s, a, b)
    ensures r == s
  {
    EightBits(r);
    EightBits(s);
    SameBits(r, s, a, b);
  }

  lemma SameBits(r: Byte, s: Byte, a: Byte, b: Byte)
    requires IsXor(r, a, b) && IsXor(s, a, b)
    ensures r % 2 == s % 2 && r / 2 % 2 == s / 2 % 2 && r / 4 % 2 == s / 4 % 2 && r / 8 % 2 == s / 8 % 2
    ensures r / 16 % 2 == s / 16 % 2 && r / 32 % 2 == s / 32 % 2 && r / 64 % 2 == s / 64 % 2 && r / 128 == s / 128
  {
    Halves(r);
    Halves(s);
  }

  lemma EightBits(x: Byte)
    ensures x == x % 2 + 2 * (x / 2 % 2) + 4 * (x / 4 % 2) + 8 * (x / 8 % 2) + 16 * (x / 16 % 2) + 32 * (x / 32 % 2)
                 + 64 * (x / 64 % 2) + 128 * (x / 128)
  {
    Halves(x);
    var a, b, c, d, e, f, g := x / 2, x / 4, x / 8, x / 16, x / 32, x / 64, x / 128;
    assert x == x % 2 + 2 * a && a == a % 2 + 2 * b && b == b % 2 + 2 * c && c == c % 2 + 2 * d;
    assert d == d % 2 + 2 * e && e == e % 2 + 2 * f && f == f % 2 + 2 * g;
  }

  /** The word whose low `k` bits are those of `lo` and whose other bits are `hi`. */
  function Join(k: nat, lo: nat, hi: nat): (r: nat) {
    if k == 0 then hi else lo % 2 + 2 * Join(k - 1, lo / 2, hi)
  }

  lemma {:induction false} JoinIsSum(k: nat, lo: nat, hi: nat)
    requires lo < Pow2(k)
    ensures Join(k, lo, hi) == lo + Pow2(k) * hi
  {
    if k > 0 {
      JoinIsSum(k - 1, lo / 2, hi);
      assert Pow2(k) * hi == 2 * (Pow2(k - 1) * hi);
    }
  }

  /** Exclusive-or works separately on a word's low `k` bits and on the rest. */
  lemma {:induction false} XorBitsJoin(k: nat, n: nat, a0: nat, a1: nat, b0: nat, b1: nat)
    ensures XorBits(k + n, Join(k, a0, a1), Join(k, b0, b1))
         == Join(k, XorBits(k, a0, b0), XorBits(n, a1, b1))
  {
    if k > 0 {
      var lo, hi := XorBits(k - 1, a0 / 2, b0 / 2), XorBits(n, a1, b1);
      XorBitsJoin(k - 1, n, a0 / 2, a1, b0 / 2, b1);
      LowBit(a0 % 2, Join(k - 1, a0 / 2, a1));
      LowBit(b0 % 2, Join(k - 1, b0 / 2, b1));
      LowBit(XorBit(a0, b0), lo);
      assert XorBits(k + n, Join(k, a0, a1), Join(k, b0, b1))
          == XorBit(Join(k, a0, a1), Join(k, b0, b1))
             + 2 * XorBits(k - 1 + n, Join(k, a0, a1) / 2, Join(k, b0, b1) / 2);
    }
  }

  /** The bytes of consecutive chunks, joined. */
  function Concat(chunks: seq<seq<Byte>>): (r: seq<Byte>) {
    if chunks == [] then [] else Concat(chunks[..|chunks| - 1]) + chunks[|chunks| - 1]
  }

  lemma ConcatSnoc(chunks: seq<seq<Byte>>, chunk: seq<Byte>)
    ensures Concat(chunks + [chunk]) == Concat(chunks) + chunk
  {
    assert (chunks + [chunk])[..|chunks|] == chunks;
  }

  lemma {:induction false} ConcatSplit(xs: seq<seq<Byte>>, ys: seq<seq<Byte>>)
    ensures Concat(xs + ys) == Concat(xs) + Concat(ys)
    decreases |ys|
  {
    if ys == [] {
      assert xs + ys == xs;
    } else {
      var init, last := ys[..|ys| - 1], ys[|ys| - 1];
      ConcatSplit(xs, init);
      assert (xs + ys)[..|xs + ys| - 1] == xs + init;
      Associative(Concat(xs), Concat(init), last);
    }
  }

  lemma ConcatCons(chunks: seq<seq<Byte>>)
    requires chunks != []
    ensures Concat(chunks) == chunks[0] + Concat(chunks[1..])
  {
    assert chunks == [chunks[0]] + chunks[1..];
    ConcatSplit([chunks[0]], chunks[1..]);
    ConcatSnoc([], chunks[0]);
    assert [] + [chunks[0]] == [chunks[0]];
  }

  lemma Associative(xs: seq<Byte>, ys: seq<Byte>, zs: seq<Byte>)
    ensures (xs + ys) + zs == xs + (ys + zs)
  {
  }

  predicate NoEmptyPart(parts: seq<seq<Byte>>) {
    forall i :: 0 <= i < |parts| ==> parts[i] != []
  }
}
