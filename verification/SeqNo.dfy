/** 31-bit wrapping sequence numbers, as computed by CSeqNo.

    Every protocol counter also has an unwrapped value, an ordinary integer that never wraps.
    Wrap maps it to the number the program stores.  Only the counters "last sent" and "last
    received" may be one below an initial sequence number of 0; the program stores -1 then.
  */
module SeqNo {

  const SEQ_NO_TH := 0x3FFF_FFFF
  const MAX_SEQ_NO := 0x7FFF_FFFF
  const MODULUS := 0x8000_0000

  function Abs(x: int): int {
    if x < 0 then -x else x
  }

  function SeqCmp(seq1: int, seq2: int): int {
    if Abs(seq1 - seq2) < SEQ_NO_TH then seq1 - seq2 else seq2 - seq1
  }

  function SeqLen(seq1: int, seq2: int): int {
    if seq1 <= seq2 then seq2 - seq1 + 1 else seq2 - seq1 + MAX_SEQ_NO + 2
  }

  function SeqOff(seq1: int, seq2: int): int {
    if Abs(seq1 - seq2) < SEQ_NO_TH then seq2 - seq1
    else if seq1 < seq2 then seq2 - seq1 - MAX_SEQ_NO - 1
    else seq2 - seq1 + MAX_SEQ_NO + 1
  }

  function IncSeq(seqno: int): int {
    if seqno == MAX_SEQ_NO then 0 else seqno + 1
  }

  function DecSeq(seqno: int): int {
    if seqno == 0 then MAX_SEQ_NO else seqno - 1
  }

  /** The stored form of an unwrapped counter. */
  function Wrap(x: int): int {
    if x < 0 then x else x % MODULUS
  }

  /** Two counters close enough for the wrapped comparison to be meaningful. */
  predicate Near(x: int, y: int) {
    -SEQ_NO_TH < x - y < SEQ_NO_TH
  }

  predicate SameSign(a: int, b: int) {
    (a > 0 <==> b > 0) && (a == 0 <==> b == 0)
  }

  predicate FitsInt32(x: int) {
    -0x8000_0000 <= x <= 0x7FFF_FFFF
  }

  lemma WrapRange(x: int)
    requires x >= -1
    ensures -1 <= Wrap(x) <= MAX_SEQ_NO
    ensures x >= 0 ==> Wrap(x) >= 0
  {
  }

  lemma WrapInjective(x: int, y: int)
    requires x >= 0 && y >= 0 && Near(x, y)
    ensures Wrap(x) == Wrap(y) ==> x == y
  {
    var qx, qy := x / MODULUS, y / MODULUS;
    if qx < qy {
      assert y >= qy * MODULUS;
    }
  }

  /** seqcmp orders near counters as the unwrapped integers are ordered. */
  lemma SeqCmpOrder(x: int, y: int)
    requires x >= -1 && y >= -1 && Near(x, y)
    ensures SameSign(SeqCmp(Wrap(x), Wrap(y)), x - y)
  {
  }

  lemma SeqOffExact(x: int, y: int)
    requires x >= -1 && y >= -1 && Near(x, y)
    ensures SeqOff(Wrap(x), Wrap(y)) == y - x
  {
  }

  lemma SeqLenExact(x: int, y: int)
    requires -1 <= x <= y && Near(x, y)
    ensures SeqLen(Wrap(x), Wrap(y)) == y - x + 1
  {
  }

  lemma IncSeqExact(x: int)
    requires x >= -1
    ensures IncSeq(Wrap(x)) == Wrap(x + 1)
  {
  }

  lemma DecSeqExact(x: int)
    requires x >= 1
    ensures DecSeq(Wrap(x)) == Wrap(x - 1)
  {
  }

  /** incseq by an offset. */
  function IncSeqBy(seqno: int, inc: int): int {
    if MAX_SEQ_NO - seqno >= inc then seqno + inc else seqno - MAX_SEQ_NO + inc - 1
  }

  lemma IncSeqByExact(x: int, inc: int)
    requires x >= 0 && 0 <= inc <= MAX_SEQ_NO
    ensures IncSeqBy(Wrap(x), inc) == Wrap(x + inc)
  {
    var q, r := x / MODULUS, x % MODULUS;
    if r + inc < MODULUS {
      RemainderIs(x + inc, q, r + inc);
    } else {
      RemainderIs(x + inc, q + 1, r + inc - MODULUS);
    }
  }

  lemma RemainderIs(a: int, q: int, r: int)
    requires a == q * MODULUS + r && 0 <= r < MODULUS
    ensures a % MODULUS == r
  {
  }

  /** seqcmp is a total order on any set of pairwise near counters. */
  lemma SeqCmpTotalOrder(x: int, y: int, z: int)
    requires x >= 0 && y >= 0 && z >= 0 && Near(x, y) && Near(y, z) && Near(x, z)
    ensures SeqCmp(Wrap(x), Wrap(y)) == 0 <==> Wrap(x) == Wrap(y)
    ensures SeqCmp(Wrap(x), Wrap(y)) < 0 <==> SeqCmp(Wrap(y), Wrap(x)) > 0
    ensures SeqCmp(Wrap(x), Wrap(y)) <= 0 && SeqCmp(Wrap(y), Wrap(z)) <= 0 ==> SeqCmp(Wrap(x), Wrap(z)) <= 0
  {
    hide Wrap, SeqCmp;
    SeqCmpOrder(x, y);
    SeqCmpOrder(y, x);
    SeqCmpOrder(y, z);
    SeqCmpOrder(x, z);
    WrapInjective(x, y);
  }

  /** A distance is ordered correctly wherever it lies exactly when it is below the threshold. */
  lemma ThresholdExact(d: int)
    requires 0 < d < MODULUS
    ensures (forall y :: y >= 0 ==> SeqCmp(Wrap(y + d), Wrap(y)) > 0) <==> d < SEQ_NO_TH
  {
    if d < SEQ_NO_TH {
      forall y | y >= 0
        ensures SeqCmp(Wrap(y + d), Wrap(y)) > 0
      {
        SeqCmpOrder(y + d, y);
      }
    } else {
      assert SeqCmp(Wrap(0 + d), Wrap(0)) == -d;
    }
  }

  /** No step of the arithmetic leaves 32 bits, but for the length of the whole circle. */
  lemma FitsInt32Exact(seq1: int, seq2: int)
    requires 0 <= seq1 <= MAX_SEQ_NO && 0 <= seq2 <= MAX_SEQ_NO
    ensures FitsInt32(seq1 - seq2) && FitsInt32(Abs(seq1 - seq2)) && FitsInt32(SeqCmp(seq1, seq2))
    ensures FitsInt32(SeqOff(seq1, seq2))
    ensures Abs(seq1 - seq2) >= SEQ_NO_TH ==>
      if seq1 < seq2 then FitsInt32(seq2 - seq1 - MAX_SEQ_NO) else FitsInt32(seq2 - seq1 + MAX_SEQ_NO)
    ensures seq1 > seq2 ==> FitsInt32(seq2 - seq1 + MAX_SEQ_NO)
    ensures FitsInt32(SeqLen(seq1, seq2)) <==> seq1 != seq2 + 1 && !(seq1 == 0 && seq2 == MAX_SEQ_NO)
    ensures FitsInt32(IncSeq(seq1)) && FitsInt32(DecSeq(seq1)) && FitsInt32(IncSeqBy(seq1, seq2))
    ensures FitsInt32(MAX_SEQ_NO - seq1)
    ensures MAX_SEQ_NO - seq1 >= seq2 ==> FitsInt32(seq1 + seq2)
    ensures MAX_SEQ_NO - seq1 < seq2 ==> FitsInt32(seq1 - MAX_SEQ_NO) && FitsInt32(seq1 - MAX_SEQ_NO + seq2)
  {
  }
}
