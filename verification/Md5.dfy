/** Incremental hashing: a bit count in two words, a partial block and the digest so far. */
module Md5 {
  import opened Chunks
  import opened RtmpInts
  import opened Buffers
  import opened Md5Spec

  class CMd5State {
    var count0: Word       // message length in bits, low word
    var count1: Word
    var abcd: Words
    const buf: array<byte>
    const process: Process // md5_process

    ghost var fed: seq<byte>   // everything appended so far

    ghost predicate Valid()
      reads this, buf
    {
      && buf.Length == 64
      && count0 == LowBits(|fed|) && count1 == HighBits(|fed|)
      && Digested()
    }

    /** Whole blocks are in the digest, the rest is in the buffer. */
    ghost predicate Digested()
      reads this`abcd, this`fed, buf
    {
      var n := |fed|;
      var w := Whole(n);
      buf.Length == 64 && buf[..n - w] == fed[w..] && abcd == Fold(process, INIT, fed[..w])
    }

    /** md5_init. */
    constructor (process: Process)
      ensures Valid() && fed == [] && this.process == process && fresh(buf)
    {
      hide Fold, LowBits, HighBits, Whole, Aligned;
      NothingFed(process);
      this.process := process;
      count0, count1 := 0, 0;
      abcd := INIT;
      buf := new byte[64](_ => 0);
      fed := [];
      new;
      assert fed[..0] == fed[0..] == buf[..0] == [];
    }

    /** The bytes in the partial block. */
    function Offset(): int
      reads this`count0
    {
      count0 / 8 % 64
    }

    /** md5_append.  The byte count is an int that can be shifted left by 3. */
    method Append(data: seq<byte>)
      requires Valid() && |data| < 0x1000_0000
      modifies this, buf
      ensures Valid() && fed == old(fed) + data
    {
      hide Fold, LowBits, HighBits, Whole, Aligned;
      var nbytes := |data|;
      OffsetIs(|fed|);
      var offset := Offset();
      if nbytes <= 0 {
        assert fed + data == fed;
        return;
      }
      ghost var was := fed;
      AddLength(nbytes);
      fed := was + data;
      Digest(was, data, offset);
    }

    /** The part of md5_append that counts bits. */
    method AddLength(nbytes: int)
      requires 0 <= nbytes < 0x1000_0000 && count0 == LowBits(|fed|) && count1 == HighBits(|fed|)
      modifies this`count0, this`count1
      ensures count0 == LowBits(|fed| + nbytes) && count1 == HighBits(|fed| + nbytes)
    {
      hide LowBits, HighBits;
      var nbits := nbytes * 8 % WORD;
      CountGrows(|fed|, nbytes);
      count1 := (count1 + nbytes / 0x2000_0000) % WORD;
      count0 := (count0 + nbits) % WORD;
      if count0 < nbits {
        count1 := (count1 + 1) % WORD;
      }
    }

    /** The part of md5_append that moves bytes. */
    method Digest(ghost was: seq<byte>, data: seq<byte>, offset: int)
      requires buf.Length == 64 && |data| > 0 && fed == was + data && offset == |was| - Whole(|was|)
      requires buf[..offset] == was[Whole(|was|)..] && abcd == Fold(process, INIT, was[..Whole(|was|)])
      modifies this`abcd, buf
      ensures Digested()
    {
      hide Fold, Whole, Aligned;
      var p := 0;
      ghost var w := Whole(|was|);
      AppendTake(was, data, w);
      if offset != 0 {
        var copy := if offset + |data| > 64 then 64 - offset else |data|;
        p := copy;
        FillBlock(was, data, offset, copy, w);
        if offset + copy < 64 {
          WholeIs(|fed|, w);
          return;
        }
        NextAligned(w);
      } else {
        TakeAll(was);
      }
      Blocks(data, p, |data| - p, |was|);
    }

    /** The first copy bytes of data complete the partial block, or at least extend it. */
    method FillBlock(ghost was: seq<byte>, data: seq<byte>, offset: int, copy: int, ghost w: nat)
      requires buf.Length == 64 && w <= |was| && Aligned(w) && offset == |was| - w > 0
      requires 0 < copy <= |data| && offset + copy <= 64
      requires buf[..offset] == was[w..] && abcd == Fold(process, INIT, (was + data)[..w])
      modifies this`abcd, buf
      ensures buf[..offset + copy] == (was + data)[w..|was| + copy]
      ensures abcd == if offset + copy < 64 then old(abcd) else Fold(process, INIT, (was + data)[..|was| + copy])
    {
      hide Fold, Aligned;
      ghost var before := buf[..];
      Copy(buf, offset, data[..copy]);
      PatchedFront(before, offset, data[..copy]);
      assert (was + data)[w..|was| + copy] == was[w..] + data[..copy];
      if offset + copy == 64 {
        assert buf[..64] == buf[..];
        FoldNext(process, (was + data)[..w], buf[..]);
        TakeSplit(was + data, w, |was| + copy);
        abcd := process(abcd, buf[..]);
      }
    }

    /** The whole blocks of data from p on, and then the rest into the partial block. */
    method Blocks(data: seq<byte>, p0: int, left0: int, ghost n: int)
      requires buf.Length == 64 && 0 <= p0 <= |data| && left0 == |data| - p0 && 0 <= n == |fed| - |data|
      requires fed[n..] == data && Aligned(n + p0) && abcd == Fold(process, INIT, fed[..n + p0])
      modifies this`abcd, buf
      ensures Digested()
    {
      hide Fold, Aligned, Whole;
      var p, left := p0, left0;
      while left >= 64
        invariant 0 <= p <= |data| && left == |data| - p && Aligned(n + p)
        invariant abcd == Fold(process, INIT, fed[..n + p])
        decreases left
      {
        ghost var block := data[p..p + 64];
        NextBlock(fed, n, p);
        NextAligned(n + p);
        FoldNext(process, fed[..n + p], block);
        abcd := process(abcd, data[p..p + 64]);
        p, left := p + 64, left - 64;
      }
      WholeIs(|fed|, n + p);
      DropDrop(fed, n, p);
      if left != 0 {
        ghost var before := buf[..];
        Copy(buf, 0, data[p..]);
        PatchedFront(before, 0, data[p..]);
        assert before[..0] + data[p..] == data[p..];
      }
    }

    /** md5_finish: the digest of everything appended, however it was cut. */
    method Finish() returns (digest: seq<byte>)
      requires Valid()
      modifies this, buf
      ensures digest == Md5(process, old(fed))
    {
      hide Fold, LowBits, HighBits, Padding, Le64, Output, Le32, Whole, Aligned;
      ghost var message := fed;
      OffsetIs(|fed|);
      PadCount(|fed|);
      var data := LengthBytes();
      var padding := [0x80] + Zeros((55 - count0 / 8) % 64);
      PaddedLength(message);
      Append(padding);
      Append(data);
      assert fed == Padded(message);
      WholeOfPadded(message);
      TakeAll(fed);
      digest := DigestBytes();
    }

    /** The length before padding, byte by byte. */
    method LengthBytes() returns (data: seq<byte>)
      ensures data == Le64(count0, count1)
    {
      hide Le32;
      data := [];
      var i := 0;
      while i < 8
        invariant 0 <= i <= 8 && data == Le64(count0, count1)[..i]
      {
        var word := if i < 4 then count0 else count1;
        ByteOfIs(count0, i % 4);
        ByteOfIs(word, i % 4);
        data := data + [ByteOf(word, i % 4)];
        i := i + 1;
      }
    }

    method DigestBytes() returns (digest: seq<byte>)
      ensures digest == Output(abcd)
    {
      hide Le32;
      digest := [];
      var i := 0;
      OutputLength(abcd);
      while i < 16
        invariant 0 <= i <= 16 && digest == Output(abcd)[..i]
      {
        var word := if i < 4 then abcd.a else if i < 8 then abcd.b else if i < 12 then abcd.c else abcd.d;
        ByteOfIs(word, i % 4);
        digest := digest + [ByteOf(word, i % 4)];
        i := i + 1;
      }
    }
  }

  /** A word shifted right by so many bytes, cut to a byte. */
  function ByteOf(word: Word, k: nat): byte
    requires k < 4
  {
    (if k == 0 then word else if k == 1 then word / 256 else if k == 2 then word / 65536 else word / 16777216) % 256
  }

  lemma ByteOfIs(word: Word, k: nat)
    requires k < 4
    ensures |Le32(word)| == 4 && ByteOf(word, k) == Le32(word)[k]
  {
    assert word / 65536 == word / 256 / 256 && word / 16777216 == word / 256 / 256 / 256;
  }

  lemma OutputLength(w: Words)
    ensures |Output(w)| == 16
    ensures |Le32(w.a)| == |Le32(w.b)| == |Le32(w.c)| == |Le32(w.d)| == 4
  {
  }

  /** CMD5::compute. */
  method Compute(process: Process, input: seq<byte>) returns (result: seq<byte>)
    requires |input| < 0x1000_0000
    ensures result == Md5(process, input)
  {
    var state := new CMd5State(process);
    state.Append(input);
    assert [] + input == input;
    result := state.Finish();
  }

  // ---------- Arithmetic of the two count words ----------

  lemma OffsetIs(n: nat)
    ensures LowBits(n) / 8 % 64 == n - Whole(n)
  {
    LowInBytes(n);
    SameRemainder(n, 8 * n / WORD * 0x80_0000);
  }

  lemma LowInBytes(n: nat)
    ensures LowBits(n) / 8 == n - 64 * (8 * n / WORD * 0x80_0000)
  {
    var q := 8 * n / WORD;
    assert 8 * n % WORD == 8 * n - q * WORD;
  }

  lemma SameRemainder(n: int, k: int)
    ensures (n - 64 * k) % 64 == n % 64
  {
    assert n - 64 * k == 64 * (n / 64 - k) + n % 64;
    RemainderIs(n - 64 * k, n / 64 - k, n % 64);
  }

  lemma RemainderIs(a: int, q: int, r: int)
    requires a == 64 * q + r && 0 <= r < 64
    ensures a % 64 == r
  {
  }

  lemma NothingFed(process: Process)
    ensures LowBits(0) == 0 && HighBits(0) == 0 && Whole(0) == 0 && Fold(process, INIT, []) == INIT
  {
  }

  lemma CountGrows(n: nat, k: nat)
    requires k < 0x1000_0000
    ensures var low := (LowBits(n) + 8 * k) % WORD;
      && k / 0x2000_0000 == 0 && 8 * k % WORD == 8 * k
      && low == LowBits(n + k)
      && HighBits(n + k) == if low < 8 * k then (HighBits(n) + 1) % WORD else HighBits(n)
  {
    var q, r := 8 * n / WORD, 8 * n % WORD;
    assert 8 * n == q * WORD + r;
    if r + 8 * k < WORD {
      QuotientIs(8 * (n + k), q, r + 8 * k);
    } else {
      QuotientIs(8 * (n + k), q + 1, r + 8 * k - WORD);
    }
  }

  lemma QuotientIs(a: nat, q: nat, r: nat)
    requires a == q * WORD + r && r < WORD
    ensures a / WORD == q && a % WORD == r
  {
  }

  lemma PadCount(n: nat)
    ensures (55 - LowBits(n) / 8) % 64 == (55 - n) % 64
    ensures [0x80] + Zeros((55 - LowBits(n) / 8) % 64) == Padding(n)
  {
    LowInBytes(n);
    SameRemainder(55 - n, -(8 * n / WORD * 0x80_0000));
  }

  lemma WholeOfPadded(message: seq<byte>)
    ensures Whole(|Padded(message)|) == |Padded(message)|
  {
    PaddedLength(message);
  }

  // ---------- Blocks ----------

  lemma FoldNext(process: Process, done: seq<byte>, block: seq<byte>)
    requires Aligned(|done|) && |block| == 64
    ensures Fold(process, INIT, done + block) == process(Fold(process, INIT, done), block)
  {
    FoldAppend(process, INIT, done, block);
    FoldOne(process, Fold(process, INIT, done), block);
  }

  lemma NextAligned(n: int)
    requires Aligned(n)
    ensures Aligned(n + 64)
  {
  }

  lemma PatchedFront(was: seq<byte>, at: nat, s: seq<byte>)
    requires at + |s| <= |was|
    ensures Patch(was, at, s)[..at + |s|] == was[..at] + s
  {
  }

  lemma NextBlock(fed: seq<byte>, n: nat, p: nat)
    requires n + p + 64 <= |fed|
    ensures fed[..n + p + 64] == fed[..n + p] + fed[n..][p..p + 64]
  {
    TakeSplit(fed, n + p, n + p + 64);
    assert fed[n + p..n + p + 64] == fed[n..][p..p + 64];
  }
}
