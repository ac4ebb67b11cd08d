/** The digest of a whole message: padding and length of sections 3.1 and 3.2 of RFC 1321, folded
    over an arbitrary compression function. */
module Md5Spec {
  import opened Chunks
  import opened RtmpInts

  type Word = x: int | 0 <= x < WORD
  datatype Words = Words(a: Word, b: Word, c: Word, d: Word)

  type Process = (Words, seq<byte>) -> Words

  const INIT := Words(0x67452301, 0xefcdab89, 0x98badcfe, 0x10325476)

  /** The message digest buffer after the whole blocks of a message. */
  function Fold(process: Process, w: Words, blocks: seq<byte>): Words
    decreases |blocks|
  {
    if |blocks| < 64 then w else Fold(process, process(w, blocks[..64]), blocks[64..])
  }

  function Zeros(n: nat): (z: seq<byte>)
    ensures |z| == n
  {
    seq(n, _ => 0)
  }

  /** A 1 bit and then 0 bits up to 56 bytes modulo 64. */
  function Padding(n: nat): (p: seq<byte>)
    ensures 1 <= |p| <= 64 && (n + |p|) % 64 == 56
  {
    [0x80] + Zeros((55 - n) % 64)
  }

  /** The bytes of a 64-bit number given by two words, least significant first. */
  function Le64(low: Word, high: Word): (b: seq<byte>)
    ensures |b| == 8
  {
    Le32(low) + Le32(high)
  }

  function LowBits(n: nat): Word {
    8 * n % WORD
  }

  function HighBits(n: nat): Word {
    8 * n / WORD % WORD
  }

  /** The message with its padding and its length in bits. */
  function Padded(message: seq<byte>): (p: seq<byte>) {
    var n := |message|;
    message + Padding(n) + Le64(LowBits(n), HighBits(n))
  }

  lemma PaddedLength(message: seq<byte>)
    ensures |Padded(message)| % 64 == 0
    ensures |Padded(message)| == |message| + |Padding(|message|)| + 8
  {
    hide Padding, Le64, LowBits, HighBits;
  }

  function Output(w: Words): seq<byte> {
    Le32(w.a) + Le32(w.b) + Le32(w.c) + Le32(w.d)
  }

  /** The padded message byte by byte, as sections 3.1 and 3.2 of RFC 1321 describe it: the message, one 1
      bit, 0 bits, and the length in bits modulo 2^64 with the least significant byte first. */
  lemma PaddedExact(m: seq<byte>, i: nat)
    requires i < |Padded(m)|
    ensures i < |m| ==> Padded(m)[i] == m[i]
    ensures i == |m| ==> Padded(m)[i] == 0x80
    ensures |m| < i < |Padded(m)| - 8 ==> Padded(m)[i] == 0
    ensures var l := Padded(m)[|Padded(m)| - 8..];
      Positional([l[7], l[6], l[5], l[4], l[3], l[2], l[1], l[0]]) == 8 * |m| % 0x1_0000_0000_0000_0000
  {
    hide Positional, Le32, LowBits, HighBits;
    PaddedLength(m);
    var low, high := LowBits(|m|), HighBits(|m|);
    var l := Padded(m)[|Padded(m)| - 8..];
    assert l == Le32(low) + Le32(high);
    EightBytes(low, high);
    BitCount(|m|);
  }

  lemma EightBytes(low: Word, high: Word)
    ensures |Le32(low)| == |Le32(high)| == 4
    ensures var l := Le32(low) + Le32(high);
      Positional([l[7], l[6], l[5], l[4], l[3], l[2], l[1], l[0]]) == high * WORD + low
  {
    hide Positional;
    LittleEndian(low);
    LittleEndian(high);
    var a, b := Le32(low), Le32(high);
    LengthsOfLe32(low, high);
    var hi, lo := [b[3], b[2], b[1], b[0]], [a[3], a[2], a[1], a[0]];
    PositionalAppend(hi, lo);
    var l := a + b;
    assert [l[7], l[6], l[5], l[4], l[3], l[2], l[1], l[0]] == hi + lo;
  }

  lemma PositionalAppend(a: seq<byte>, b: seq<byte>)
    requires |b| == 4
    ensures Positional(a + b) == Positional(a) * WORD + Positional(b)
  {
    hide Positional;
    var c1, c2, c3, c4 := a + b[..1], a + b[..2], a + b[..3], a + b;
    assert c4[..|c4| - 1] == c3 && c3[..|c3| - 1] == c2 && c2[..|c2| - 1] == c1 && c1[..|c1| - 1] == a;
    PositionalStep(c1);
    PositionalStep(c2);
    PositionalStep(c3);
    PositionalStep(c4);
    PositionalIs(b[0], b[1], b[2], b[3]);
    assert b == [b[0], b[1], b[2], b[3]];
  }

  lemma BitCount(n: nat)
    ensures HighBits(n) * WORD + LowBits(n) == 8 * n % 0x1_0000_0000_0000_0000
  {
    var q := 8 * n / WORD;
    var h := q / WORD;
    assert 8 * n == q * WORD + LowBits(n) && q == h * WORD + HighBits(n);
    assert 8 * n == h * 0x1_0000_0000_0000_0000 + (HighBits(n) * WORD + LowBits(n));
    SplitUnique(8 * n, h, HighBits(n) * WORD + LowBits(n));
  }

  lemma SplitUnique(a: int, q: int, r: int)
    requires a == q * 0x1_0000_0000_0000_0000 + r && 0 <= r < 0x1_0000_0000_0000_0000
    ensures a % 0x1_0000_0000_0000_0000 == r
  {
  }

  /** The digest of an empty fold: the four words of section 3.3 of RFC 1321, which lists their bytes with
      the least significant first. */
  lemma OutputExample()
    ensures Output(INIT) ==
      [0x01, 0x23, 0x45, 0x67, 0x89, 0xab, 0xcd, 0xef, 0xfe, 0xdc, 0xba, 0x98, 0x76, 0x54, 0x32, 0x10]
  {
  }

  function Md5(process: Process, message: seq<byte>): seq<byte> {
    Output(Fold(process, INIT, Padded(message)))
  }

  predicate Aligned(n: int) {
    n % 64 == 0
  }

  /** How many of n bytes lie in whole blocks. */
  function Whole(n: nat): (w: nat)
    ensures Aligned(w) && w <= n < w + 64
  {
    n - n % 64
  }

  lemma WholeIs(n: nat, w: nat)
    requires Aligned(w) && w <= n < w + 64
    ensures Whole(n) == w
  {
  }

  lemma {:induction false} FoldAppend(process: Process, w: Words, a: seq<byte>, b: seq<byte>)
    requires Aligned(|a|)
    ensures Fold(process, w, a + b) == Fold(process, Fold(process, w, a), b)
    decreases |a|
  {
    if |a| == 0 {
      assert a + b == b;
    } else {
      assert (a + b)[..64] == a[..64] && (a + b)[64..] == a[64..] + b;
      FoldAppend(process, process(w, a[..64]), a[64..], b);
    }
  }

  lemma FoldOne(process: Process, w: Words, block: seq<byte>)
    requires |block| == 64
    ensures Fold(process, w, block) == process(w, block)
  {
    assert block[..64] == block && block[64..] == [];
  }

  /** No shorter row of zeros reaches 56 bytes modulo 64, and what is appended identifies the
      message: two messages with equal padded forms are equal, if their lengths fit 64 bits. */
  lemma PaddingIsLeast(n: nat, k: nat)
    requires (n + 1 + k) % 64 == 56
    ensures |Padding(n)| <= 1 + k
  {
  }

  lemma PaddedInjective(m: seq<byte>, m': seq<byte>)
    requires |m| < 0x2000_0000_0000_0000 && |m'| < 0x2000_0000_0000_0000
    requires Padded(m) == Padded(m')
    ensures m == m'
  {
    hide Padding, Le64, Le32, LowBits, HighBits;
    var p, p' := Padded(m), Padded(m');
    PaddedLength(m);
    PaddedLength(m');
    var l, l' := Le64(LowBits(|m|), HighBits(|m|)), Le64(LowBits(|m'|), HighBits(|m'|));
    assert p[|p| - 8..] == l && p'[|p'| - 8..] == l';
    LengthInjective(|m|, |m'|);
    assert p[..|m|] == m && p'[..|m'|] == m';
  }

  lemma LengthInjective(n: nat, k: nat)
    requires n < 0x2000_0000_0000_0000 && k < 0x2000_0000_0000_0000
    requires Le64(LowBits(n), HighBits(n)) == Le64(LowBits(k), HighBits(k))
    ensures n == k
  {
    hide Le64, LowBits, HighBits;
    Le32Injective(LowBits(n), LowBits(k), HighBits(n), HighBits(k));
    HighAndLow(n);
    HighAndLow(k);
  }

  lemma HighAndLow(n: nat)
    requires n < 0x2000_0000_0000_0000
    ensures 8 * n == HighBits(n) * WORD + LowBits(n)
  {
    assert 0 <= 8 * n / WORD < WORD;
  }

  lemma Le32Injective(a: Word, b: Word, c: Word, d: Word)
    requires Le64(a, c) == Le64(b, d)
    ensures a == b && c == d
  {
    hide Le32;
    var x, y := Le64(a, c), Le64(b, d);
    LengthsOfLe32(a, b);
    LengthsOfLe32(c, d);
    assert x[..4] == Le32(a) && y[..4] == Le32(b) && x[4..] == Le32(c) && y[4..] == Le32(d);
    WordOfBytes(a);
    WordOfBytes(b);
    WordOfBytes(c);
    WordOfBytes(d);
  }

  lemma LengthsOfLe32(a: int, b: int)
    ensures |Le32(a)| == |Le32(b)| == 4
  {
  }

  lemma WordOfBytes(a: Word)
    ensures |Le32(a)| == 4
    ensures var b := Le32(a); a == ((b[3] as int * 256 + b[2] as int) * 256 + b[1] as int) * 256 + b[0] as int
  {
    Digits(a);
    assert a / 65536 == a / 256 / 256 && a / 16777216 == a / 256 / 256 / 256;
  }
}
