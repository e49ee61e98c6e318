/** ymo_base64_encode of src/core/ymo_util.c, against a decoder after RFC 4648 section 4. */
module Base64 {
  import opened Bytes
  import opened Common

  const PAD: Byte := 0x3D

  /** The encoding table: A to Z, a to z, 0 to 9, plus and slash, in ASCII. */
  function Letter(v: nat): (c: Byte)
    requires v < 64
  {
    if v < 26 then 0x41 + v
    else if v < 52 then 0x61 + (v - 26)
    else if v < 62 then 0x30 + (v - 52)
    else if v == 62 then 0x2B
    else 0x2F
  }

  // ---------------------------------------------------------------- the decoder

  /** The six-bit value of an alphabet character. */
  function Sextet(c: Byte): (v: Option<nat>)
    ensures v.Some? ==> v.value < 64
  {
    if 0x41 <= c <= 0x5A then Some(c - 0x41)
    else if 0x61 <= c <= 0x7A then Some(c - 0x61 + 26)
    else if 0x30 <= c <= 0x39 then Some(c - 0x30 + 52)
    else if c == 0x2B then Some(62)
    else if c == 0x2F then Some(63)
    else None
  }

  /** The first `n` bytes of four sextets' 24 bits: eight from the first and second, and so on. */
  function GroupBytes(a: nat, b: nat, c: nat, d: nat, n: nat): (r: seq<Byte>)
    requires a < 64 && b < 64 && c < 64 && d < 64 && n <= 3
  {
    [a * 4 + b / 16, b % 16 * 16 + c / 4, c % 4 * 64 + d][..n]
  }

  /** One group of four characters; `last` permits padding. */
  function DecodeGroup(s: seq<Byte>, last: bool): (r: Option<seq<Byte>>)
    requires |s| == 4
  {
    var pads := if last && s[3] == PAD then (if s[2] == PAD then 2 else 1) else 0;
    var a, b := Sextet(s[0]), Sextet(s[1]);
    var c := if pads == 2 then Some(0) else Sextet(s[2]);
    var d := if pads >= 1 then Some(0) else Sextet(s[3]);
    if a.None? || b.None? || c.None? || d.None? then None
    else Some(GroupBytes(a.value, b.value, c.value, d.value, 3 - pads))
  }

  function Decode(s: seq<Byte>): (r: Option<seq<Byte>>)
    decreases |s|
  {
    if s == [] then Some([])
    else if |s| < 4 then None
    else match (DecodeGroup(s[..4], |s| == 4), Decode(s[4..]))
      case (Some(g), Some(rest)) => Some(g + rest)
      case _ => None
  }

  // ---------------------------------------------------------------- the encoder's output

  function EncodeGroup(x: Byte, y: Byte, z: Byte): (r: seq<Byte>)
    ensures |r| == 4
  {
    Letters(x / 4, x % 4 * 16 + y / 16, y % 16 * 4 + z / 64, z % 64)
  }

  function Encoded(s: seq<Byte>): (r: seq<Byte>) {
    if s == [] then []
    else if |s| == 1 then EncodeGroup(s[0], 0, 0)[..2] + [PAD, PAD]
    else if |s| == 2 then EncodeGroup(s[0], s[1], 0)[..3] + [PAD]
    else EncodeGroup(s[0], s[1], s[2]) + Encoded(s[3..])
  }

  /** Four characters for every three bytes begun. */
  lemma {:induction false} EncodedLength(s: seq<Byte>)
    ensures |Encoded(s)| == 4 * ((|s| + 2) / 3)
    decreases |s|
  {
    if |s| > 2 { EncodedLength(s[3..]); }
  }

  lemma LetterIsSextet(v: nat)
    requires v < 64
    ensures Sextet(Letter(v)) == Some(v) && Letter(v) != PAD
  {
  }

  lemma GroupIsInverse(x: Byte, y: Byte, z: Byte)
    ensures GroupBytes(x / 4, x % 4 * 16 + y / 16, y % 16 * 4 + z / 64, z % 64, 3) == [x, y, z]
  {
    assert (x % 4 * 16 + y / 16) / 16 == x % 4 && (x % 4 * 16 + y / 16) % 16 == y / 16;
    assert (y % 16 * 4 + z / 64) / 4 == y % 16 && (y % 16 * 4 + z / 64) % 4 == z / 64;
  }

  function Letters(a: nat, b: nat, c: nat, d: nat): (r: seq<Byte>)
    requires a < 64 && b < 64 && c < 64 && d < 64
    ensures |r| == 4
  {
    [Letter(a), Letter(b), Letter(c), Letter(d)]
  }

  lemma DecodeLetters(a: nat, b: nat, c: nat, d: nat, last: bool)
    requires a < 64 && b < 64 && c < 64 && d < 64
    ensures DecodeGroup(Letters(a, b, c, d), last) == Some(GroupBytes(a, b, c, d, 3))
    ensures DecodeGroup(Letters(a, b, c, d)[..3] + [PAD], true) == Some(GroupBytes(a, b, c, 0, 2))
    ensures DecodeGroup(Letters(a, b, c, d)[..2] + [PAD, PAD], true) == Some(GroupBytes(a, b, 0, 0, 1))
  {
    LetterIsSextet(a);
    LetterIsSextet(b);
    LetterIsSextet(c);
    LetterIsSextet(d);
  }

  lemma DecodeEncodedGroup(x: Byte, y: Byte, z: Byte, last: bool)
    ensures DecodeGroup(EncodeGroup(x, y, z), last) == Some([x, y, z])
    ensures z == 0 ==> DecodeGroup(EncodeGroup(x, y, z)[..3] + [PAD], true) == Some([x, y])
    ensures y == 0 && z == 0 ==> DecodeGroup(EncodeGroup(x, y, z)[..2] + [PAD, PAD], true) == Some([x])
  {
    var a, b, c, d := x / 4, x % 4 * 16 + y / 16, y % 16 * 4 + z / 64, z % 64;
    DecodeLetters(a, b, c, d, last);
    GroupIsInverse(x, y, z);
    assert GroupBytes(a, b, c, 0, 2) == GroupBytes(a, b, c, d, 3)[..2] == [x, y];
    assert GroupBytes(a, b, 0, 0, 1) == GroupBytes(a, b, c, d, 3)[..1] == [x];
  }

  /** Decoding gives the input back. */
  lemma {:induction false} DecodeEncoded(s: seq<Byte>)
    ensures Decode(Encoded(s)) == Some(s)
    decreases |s|
  {
    if |s| == 1 {
      DecodeEncodedGroup(s[0], 0, 0, true);
      assert [s[0]] + [] == s;
      assert Encoded(s)[..4] == Encoded(s) && Encoded(s)[4..] == [];
    } else if |s| == 2 {
      DecodeEncodedGroup(s[0], s[1], 0, true);
      assert [s[0], s[1]] + [] == s;
      assert Encoded(s)[..4] == Encoded(s) && Encoded(s)[4..] == [];
    } else if |s| > 2 {
      DecodeEncodedGroup(s[0], s[1], s[2], |Encoded(s)| == 4);
      DecodeEncoded(s[3..]);
      var g := EncodeGroup(s[0], s[1], s[2]);
      assert (g + Encoded(s[3..]))[..4] == g && (g + Encoded(s[3..]))[4..] == Encoded(s[3..]);
      assert [s[0], s[1], s[2]] + s[3..] == s;
    }
  }

  /** Three test vectors of section 10: "f", "fo" and "foo" give "Zg==", "Zm8=" and "Zm9v"; and three bytes that
      give "++//". */
  lemma TestVectors(f: Byte, o: Byte)
    requires f == 0x66 && o == 0x6F
    ensures Encoded([f]) == [0x5A, 0x67, 0x3D, 0x3D]
    ensures Encoded([f, o]) == [0x5A, 0x6D, 0x38, 0x3D]
    ensures Encoded([f, o, o]) == [0x5A, 0x6D, 0x39, 0x76]
    ensures EncodeGroup(0xFB, 0xEF, 0xFF) == [0x2B, 0x2B, 0x2F, 0x2F]
  {
    assert [f, o, o][3..] == [];
    assert Encoded([f, o, o]) == EncodeGroup(f, o, o) + [];
  }

  /** `done` followed by the encoding of `rest` is `total`. */
  ghost predicate Splits(total: seq<Byte>, done: seq<Byte>, rest: seq<Byte>) {
    total == done + Encoded(rest)
  }

  lemma SplitsStep(total: seq<Byte>, done: seq<Byte>, rest: seq<Byte>)
    requires Splits(total, done, rest) && |rest| > 2
    ensures |done| + 4 <= |total|
    ensures Splits(total, done + EncodeGroup(rest[0], rest[1], rest[2]), rest[3..])
  {
  }

  lemma SplitsEnd(total: seq<Byte>, done: seq<Byte>, rest: seq<Byte>)
    requires Splits(total, done, rest)
    ensures rest == [] ==> total == done
    ensures |rest| == 1 ==> total == done + (EncodeGroup(rest[0], 0, 0)[..2] + [PAD, PAD])
    ensures |rest| == 2 ==> total == done + (EncodeGroup(rest[0], rest[1], 0)[..3] + [PAD])
  {
  }

  /** `dst` is `done`, followed by what was in `dst` from there on. */
  ghost predicate Written(dst: array<Byte>, was: seq<Byte>, done: seq<Byte>)
    reads dst
  {
    |done| <= |was| && dst[..] == done + was[|done|..]
  }

  /** Writes the encoding and a closing NUL at the start of `dst`. */
  method Encode(dst: array<Byte>, src: seq<Byte>) returns (status: Status)
    requires dst.Length >= |Encoded(src)| + 1
    modifies dst
    ensures status == OKAY && Written(dst, old(dst[..]), Encoded(src) + [0])
  {
    var u, d, len := 0, 0, |src|;
    ghost var done: seq<Byte> := [];
    while len > 2
      invariant 0 <= u <= |src| && len == |src| - u && |done| == d
      invariant Splits(Encoded(src), done, src[u..]) && Written(dst, old(dst[..]), done)
      decreases len
    {
      SplitsStep(Encoded(src), done, src[u..]);
      assert src[u..][3..] == src[u + 3..];
      done := Put4(dst, d, EncodeGroup(src[u], src[u + 1], src[u + 2]), done, old(dst[..]));
      u, d, len := u + 3, d + 4, len - 3;
    }
    EncodeTail(dst, src[u..], d, done, old(dst[..]), Encoded(src));
    status := OKAY;
  }

  /** The last one or two bytes, padded, and the NUL. */
  method EncodeTail(dst: array<Byte>, rest: seq<Byte>, d: nat, ghost done: seq<Byte>, ghost was: seq<Byte>,
      ghost total: seq<Byte>)
    requires |rest| <= 2 && |done| == d && dst.Length >= |total| + 1
    requires Splits(total, done, rest) && Written(dst, was, done)
    modifies dst
    ensures Written(dst, was, total + [0])
  {
    SplitsEnd(total, done, rest);
    var d := d;
    ghost var done := done;
    if |rest| == 1 {
      done := Put4(dst, d, EncodeGroup(rest[0], 0, 0)[..2] + [PAD, PAD], done, was);
      d := d + 4;
    } else if |rest| == 2 {
      done := Put4(dst, d, EncodeGroup(rest[0], rest[1], 0)[..3] + [PAD], done, was);
      d := d + 4;
    }
    PutNul(dst, d, done, was);
  }

  method PutNul(dst: array<Byte>, d: nat, ghost done: seq<Byte>, ghost was: seq<Byte>)
    requires d < dst.Length && |done| == d && Written(dst, was, done)
    modifies dst
    ensures Written(dst, was, done + [0])
  {
    dst[d] := 0;
  }

  /** Four characters stored one after another. */
  method Put4(dst: array<Byte>, d: nat, g: seq<Byte>, ghost done: seq<Byte>, ghost was: seq<Byte>)
      returns (ghost done': seq<Byte>)
    requires |g| == 4 && d + 4 <= dst.Length && |done| == d && Written(dst, was, done)
    modifies dst
    ensures done' == done + g && Written(dst, was, done')
  {
    dst[d] := g[0];
    dst[d + 1] := g[1];
    dst[d + 2] := g[2];
    dst[d + 3] := g[3];
    done' := done + g;
  }
}
