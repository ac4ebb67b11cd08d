/** The coding of loss reports: a range is two words, the first with its top bit set. */
module NakCodec {
  import opened Chunks
  import opened SeqNo
  import opened SenderSpec
  import opened LossNodes

  /** A 31-bit number with the top bit of its 32-bit word set, read as a signed integer. */
  function Mark(seqno: int): int {
    seqno - MODULUS
  }

  function Unmark(word: int): int {
    word + MODULUS
  }

  function EncodeLoss(l: Loss): seq<int> {
    match l
    case Single(x) => [Wrap(x)]
    case Pair(lo, hi) => [Mark(Wrap(lo)), Wrap(hi)]
  }

  function Encode(losses: seq<Loss>): seq<int> {
    if |losses| == 0 then [] else EncodeLoss(losses[0]) + Encode(losses[1..])
  }

  /** A report as the sender reads it: wrapped numbers.  A marked last word has no partner and is
      not a report; the decoder drops it. */
  function Decode(words: seq<int>): seq<Loss> {
    if |words| == 0 then []
    else if words[0] >= 0 then [Single(words[0])] + Decode(words[1..])
    else if |words| == 1 then []
    else [Pair(Unmark(words[0]), words[1])] + Decode(words[2..])
  }

  function WrapLoss(l: Loss): Loss {
    match l
    case Single(x) => Single(Wrap(x))
    case Pair(lo, hi) => Pair(Wrap(lo), Wrap(hi))
  }

  function WrapAll(losses: seq<Loss>): seq<Loss> {
    if |losses| == 0 then [] else [WrapLoss(losses[0])] + WrapAll(losses[1..])
  }

  ghost predicate NonNegative(losses: seq<Loss>) {
    forall i | 0 <= i < |losses| :: 0 <= LossLo(losses[i]) && 0 <= LossHi(losses[i])
  }

  /** A worked example: the first number of a pair has the sign bit set, the second follows it, and a
      single number stands for itself. */
  lemma CodeExample()
    ensures Encode([Pair(5, 9), Single(12)]) == [5 - 0x8000_0000, 9, 12]
  {
    assert Encode([Single(12)][1..]) == [];
    assert [Pair(5, 9), Single(12)][1..] == [Single(12)];
  }

  /** Decoding a coded report gives back exactly its entries. */
  lemma {:induction false} RoundTrip(losses: seq<Loss>)
    requires NonNegative(losses)
    ensures Decode(Encode(losses)) == WrapAll(losses)
    decreases |losses|
  {
    if |losses| != 0 {
      var words, rest := EncodeLoss(losses[0]), Encode(losses[1..]);
      assert NonNegative(losses[1..]);
      RoundTrip(losses[1..]);
      WrapRange(LossLo(losses[0]));
      WrapRange(LossHi(losses[0]));
      assert (words + rest)[|words|..] == rest;
    }
  }

  lemma EncodeNone()
    ensures Encode([]) == []
  {
  }

  lemma EncodeOne(l: Loss)
    ensures Encode([l]) == EncodeLoss(l)
  {
    assert [l][1..] == [];
  }

  lemma {:induction false} EncodeAppend(a: seq<Loss>, l: Loss)
    ensures Encode(a + [l]) == Encode(a) + EncodeLoss(l)
    decreases |a|
  {
    if |a| == 0 {
      assert a + [l] == [l];
      assert Encode([l]) == EncodeLoss(l) + Encode([]);
    } else {
      assert (a + [l])[1..] == a[1..] + [l];
      EncodeAppend(a[1..], l);
      AppendAssoc(EncodeLoss(a[0]), Encode(a[1..]), EncodeLoss(l));
    }
  }

  // ---------- The entries of a list, in order ----------

  function NodeLoss(first: int, last: int): Loss {
    if first == last then Single(first) else Pair(first, last)
  }

  lemma {:induction false} HasFirst(m: Nodes) returns (x: int)
    requires m != map[]
    ensures IsFirst(m, x)
    decreases |m.Keys|
  {
    x := Pick(m.Keys);
    var rest := m - {x};
    if rest != map[] {
      assert x !in rest.Keys && rest.Keys < m.Keys;
      var y := HasFirst(rest);
      assert forall z :: z in m ==> z == x || z in rest;
      x := if y < x then y else x;
    } else {
      assert forall z :: z in m ==> z == x || z in rest;
    }
  }

  lemma FirstExists(m: Nodes)
    requires m != map[]
    ensures exists x :: IsFirst(m, x)
  {
    var x := HasFirst(m);
  }

  /** All entries of a list, smallest first. */
  ghost function Ordered(m: Nodes): seq<Loss>
    decreases |m.Keys|
  {
    if m == map[] then []
    else
      FirstExists(m);
      var x :| IsFirst(m, x);
      assert x in m.Keys && (m - {x}).Keys == m.Keys - {x};
      [NodeLoss(x, m[x])] + Ordered(m - {x})
  }

  lemma OrderedNone(m: Nodes)
    ensures m == map[] ==> Ordered(m) == []
  {
  }

  lemma OrderedStep(m: Nodes, x: int)
    requires IsFirst(m, x)
    ensures Ordered(m) == [NodeLoss(x, m[x])] + Ordered(m - {x})
  {
    FirstExists(m);
    assert m != map[];
  }

  /** Every entry of the list is a node. */
  lemma {:induction false} OrderedAreNodes(m: Nodes)
    ensures forall i | 0 <= i < |Ordered(m)| ::
      LossLo(Ordered(m)[i]) in m && Ordered(m)[i] == NodeLoss(LossLo(Ordered(m)[i]), m[LossLo(Ordered(m)[i])])
    decreases |m.Keys|
  {
    if m != map[] {
      var x := HasFirst(m);
      OrderedStep(m, x);
      assert x in m.Keys && (m - {x}).Keys == m.Keys - {x};
      OrderedAreNodes(m - {x});
    }
  }
}
