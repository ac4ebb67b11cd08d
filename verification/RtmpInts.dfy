/** Fixed-width integers in byte strings, as the RTMP and AMF coders write them. */
module RtmpInts {
  import opened Chunks

  const WORD := 0x1_0000_0000

  /** The big-endian bytes of the low 16, 24 or 32 bits. */
  function Be16(v: int): seq<byte> {
    [v / 256 % 256, v % 256]
  }

  function Be24(v: int): seq<byte> {
    [v / 65536 % 256, v / 256 % 256, v % 256]
  }

  function Be32(v: int): seq<byte> {
    [v / 16777216 % 256, v / 65536 % 256, v / 256 % 256, v % 256]
  }

  /** The little-endian bytes of a 32-bit word, by repeated arithmetic shifts. */
  function Le32(v: int): seq<byte> {
    [v % 256, v / 256 % 256, v / 256 / 256 % 256, v / 256 / 256 / 256 % 256]
  }

  function Un16(b: seq<byte>): (v: int)
    requires |b| >= 2
  {
    b[0] as int * 256 + b[1] as int
  }

  function Un24(b: seq<byte>): (v: int)
    requires |b| >= 3
  {
    b[0] as int * 65536 + b[1] as int * 256 + b[2]
  }

  function Un32(b: seq<byte>): (v: int)
    requires |b| >= 4
  {
    b[0] as int * 16777216 + b[1] as int * 65536 + b[2] as int * 256 + b[3]
  }

  /** The signed 32-bit word with these little-endian bytes. */
  function UnLe32(b: seq<byte>): (v: int)
    requires |b| >= 4
  {
    var u := b[3] as int * 16777216 + b[2] as int * 65536 + b[1] as int * 256 + b[0];
    if u >= WORD / 2 then u - WORD else u
  }

  lemma Digits(v: int)
    requires 0 <= v < WORD
    ensures v == (((v / 16777216) * 256 + v / 65536 % 256) * 256 + v / 256 % 256) * 256 + v % 256
    ensures 0 <= v / 16777216 < 256
  {
    var a := v / 256;
    var b := a / 256;
    assert v == a * 256 + v % 256;
    assert a == b * 256 + a % 256;
    assert b == b / 256 * 256 + b % 256;
    assert v / 65536 == b && v / 16777216 == b / 256;
  }

  lemma Un16Be16(v: int, rest: seq<byte>)
    requires 0 <= v < 65536
    ensures Un16(Be16(v) + rest) == v
  {
  }

  lemma Un24Be24(v: int, rest: seq<byte>)
    requires 0 <= v < 16777216
    ensures Un24(Be24(v) + rest) == v
  {
  }

  lemma Un32Be32(v: int, rest: seq<byte>)
    requires 0 <= v < WORD
    ensures Un32(Be32(v) + rest) == v
  {
    Digits(v);
  }

  /** Shifting a negative word arithmetically gives the bytes of its two's complement. */
  lemma LeWord(v: int)
    requires -WORD / 2 <= v < 0
    ensures var u := v + WORD;
      && v % 256 == u % 256 && v / 256 % 256 == u / 256 % 256
      && v / 256 / 256 % 256 == u / 65536 % 256 && v / 256 / 256 / 256 % 256 == u / 16777216
  {
    var u := v + WORD;
    var a, b, c := v / 256, v / 256 / 256, v / 256 / 256 / 256;
    assert u / 256 == a + 0x100_0000;
    assert (a + 0x100_0000) / 256 == b + 0x1_0000 && (b + 0x1_0000) / 256 == c + 256;
    Digits(u);
    assert u / 65536 == u / 256 / 256 && u / 16777216 == u / 256 / 256 / 256;
  }

  lemma UnLe32Le32(v: int, rest: seq<byte>)
    requires -WORD / 2 <= v < WORD / 2
    ensures UnLe32(Le32(v) + rest) == v
  {
    if v < 0 {
      LeWord(v);
      Digits(v + WORD);
    } else {
      Digits(v);
      assert v / 65536 == v / 256 / 256 && v / 16777216 == v / 256 / 256 / 256;
    }
  }

  // ---------- The order of the bytes ----------

  /** The number with these digits to base 256, the most significant first. */
  function Positional(b: seq<byte>): nat {
    if |b| == 0 then 0 else 256 * Positional(b[..|b| - 1]) + b[|b| - 1]
  }

  lemma PositionalStep(b: seq<byte>)
    requires |b| > 0
    ensures Positional(b) == 256 * Positional(b[..|b| - 1]) + b[|b| - 1]
    ensures Positional([]) == 0
  {
  }

  lemma PositionalIs(a: byte, b: byte, c: byte, d: byte)
    ensures Positional([a, b]) == 256 * a + b
    ensures Positional([a, b, c]) == 65536 * a + 256 * b + c
    ensures Positional([a, b, c, d]) == 16777216 * a + 65536 * b + 256 * c + d
  {
    hide Positional;
    assert [a, b, c, d][..3] == [a, b, c] && [a, b, c][..2] == [a, b] && [a, b][..1] == [a] && [a][..0] == [];
    PositionalStep([a]);
    PositionalStep([a, b]);
    PositionalStep([a, b, c]);
    PositionalStep([a, b, c, d]);
  }

  /** Big-endian numbers have the most significant byte first. */
  lemma BigEndian(v: int)
    ensures 0 <= v < 65536 ==> Positional(Be16(v)) == v
    ensures 0 <= v < 16777216 ==> Positional(Be24(v)) == v
    ensures 0 <= v < WORD ==> Positional(Be32(v)) == v
  {
    hide Positional;
    PositionalIs(v / 16777216 % 256, v / 65536 % 256, v / 256 % 256, v % 256);
    PositionalIs(v / 65536 % 256, v / 256 % 256, v % 256, 0);
    PositionalIs(v / 256 % 256, v % 256, 0, 0);
    if 0 <= v < WORD {
      Digits(v);
    }
  }

  /** Little-endian words have it last, and are those of the two's complement. */
  lemma LittleEndian(v: int)
    requires -WORD / 2 <= v < WORD
    ensures var b := Le32(v); Positional([b[3], b[2], b[1], b[0]]) == if v < 0 then v + WORD else v
  {
    hide Positional;
    var b := Le32(v);
    PositionalIs(b[3], b[2], b[1], b[0]);
    if v < 0 {
      LeWord(v);
      Digits(v + WORD);
    } else {
      Digits(v);
      assert v / 65536 == v / 256 / 256 && v / 16777216 == v / 256 / 256 / 256;
    }
  }
}
