/** Payloads: the MSS-sized chunks an application buffer is cut into, and their bytes. */
module Chunks {

  type byte = x: int | 0 <= x < 256

  /** The message-number word of a data packet: boundary bits, order bit and number. */
  datatype MsgNo = MsgNo(first: bool, last: bool, inOrder: bool, number: nat)

  /** What one data packet carries. */
  datatype Chunk = Chunk(msgNo: MsgNo, data: seq<byte>)

  function Min(a: int, b: int): int {
    if a < b then a else b
  }

  function Max(a: int, b: int): int {
    if a < b then b else a
  }

  /** All integers from lo to hi. */
  function Interval(lo: int, hi: int): (r: set<int>)
    ensures forall x :: x in r <==> lo <= x <= hi
    ensures |r| == if lo <= hi then hi - lo + 1 else 0
    decreases hi - lo
  {
    if hi < lo then {} else Interval(lo, hi - 1) + {hi}
  }

  ghost predicate IsLeast(x: int, xs: set<int>) {
    x in xs && forall y :: y in xs ==> x <= y
  }

  lemma Pick<T>(s: set<T>) returns (x: T)
    requires s != {}
    ensures x in s
  {
    x :| x in s;
  }

  /** The chunks of one application buffer, as numbered by one call of addBuffer. */
  function Split(data: seq<byte>, mss: nat, first: bool, inOrder: bool, number: nat): seq<Chunk>
    requires mss > 0
    decreases |data|
  {
    if |data| == 0 then []
    else if |data| <= mss then [Chunk(MsgNo(first, true, inOrder, number), data)]
    else [Chunk(MsgNo(first, false, inOrder, number), data[..mss])]
         + Split(data[mss..], mss, false, inOrder, number)
  }

  /** The bytes of a chunk sequence, in order. */
  function Flatten(chunks: seq<Chunk>): seq<byte> {
    if |chunks| == 0 then [] else chunks[0].data + Flatten(chunks[1..])
  }

  lemma {:induction false} FlattenAppend(a: seq<Chunk>, b: seq<Chunk>)
    ensures Flatten(a + b) == Flatten(a) + Flatten(b)
  {
    if |a| == 0 {
      assert a + b == b;
    } else {
      assert (a + b)[1..] == a[1..] + b;
      FlattenAppend(a[1..], b);
    }
  }

  lemma NoBytes()
    ensures Flatten([]) == []
  {
  }

  lemma FlattenStep(chunks: seq<Chunk>)
    requires |chunks| > 0
    ensures Flatten(chunks) == chunks[0].data + Flatten(chunks[1..])
  {
  }

  lemma FlattenSingle(c: Chunk)
    ensures Flatten([c]) == c.data
  {
    assert Flatten([c]) == c.data + Flatten([]);
  }

  /** What a read of up to len bytes does to a row of chunks whose first is read up to notch. */
  datatype Taken = Taken(freed: nat, notch: nat, bytes: seq<byte>)

  function Consume(held: seq<Chunk>, notch: nat, len: int): Taken
    requires |held| > 0 ==> notch <= |held[0].data|
    decreases |held|
  {
    if |held| == 0 || len <= 0 then Taken(0, notch, [])
    else
      var unit := held[0].data[notch..];
      if len < |unit| then Taken(0, notch + len, unit[..len])
      else
        var rest := Consume(held[1..], 0, len - |unit|);
        Taken(1 + rest.freed, rest.notch, unit + rest.bytes)
  }

  /** The bytes of a row of chunks that are not read yet. */
  function Unread(held: seq<Chunk>, notch: nat): seq<byte>
    requires |held| > 0 ==> notch <= |held[0].data|
  {
    if |held| == 0 then [] else held[0].data[notch..] + Flatten(held[1..])
  }

  lemma UnreadWhole(held: seq<Chunk>)
    ensures Unread(held, 0) == Flatten(held)
  {
  }

  /** A read never frees more than it was given and never stops at the end of a chunk. */
  lemma {:induction false} ConsumeBounds(held: seq<Chunk>, notch: nat, len: int)
    requires |held| > 0 ==> notch <= |held[0].data|
    requires notch > 0 ==> |held| > 0 && notch < |held[0].data|
    ensures var t := Consume(held, notch, len);
      t.freed <= |held| && (t.notch > 0 ==> t.freed < |held| && t.notch < |held[t.freed].data|)
    decreases |held|
  {
    if |held| != 0 && len > 0 && len >= |held[0].data[notch..]| {
      ConsumeBounds(held[1..], 0, len - |held[0].data[notch..]|);
    }
  }

  lemma SliceAppend<T>(s: seq<T>, from: nat, more: nat, tail: seq<T>)
    requires from + more <= |s|
    ensures s[from..][..more] + (s[from + more..] + tail) == s[from..] + tail
  {
  }

  lemma DropNone<T>(s: seq<T>)
    ensures s[0..] == s
  {
  }

  lemma DropDrop<T>(s: seq<T>, a: nat, b: nat)
    requires a + b <= |s|
    ensures s[a..][b..] == s[a + b..]
  {
  }

  lemma AppendDrop<T>(a: seq<T>, b: seq<T>, n: nat)
    requires n <= |a|
    ensures (a + b)[n..] == a[n..] + b
  {
  }

  lemma AppendTake<T>(a: seq<T>, b: seq<T>, n: nat)
    requires n <= |a|
    ensures (a + b)[..n] == a[..n]
  {
  }

  lemma AppendSlice<T>(a: seq<T>, b: seq<T>, lo: nat, hi: nat)
    requires lo <= hi <= |a|
    ensures (a + b)[lo..hi] == a[lo..hi]
  {
  }

  lemma SameItems<T>(a: seq<T>, b: seq<T>)
    requires |a| == |b| && forall i :: 0 <= i < |a| ==> a[i] == b[i]
    ensures a == b
  {
  }

  lemma TakeAll<T>(s: seq<T>)
    ensures s[..|s|] == s
  {
  }

  lemma PrefixOfAppend<T>(a: seq<T>, b: seq<T>, c: seq<T>)
    ensures a <= a + b + c
  {
  }

  lemma TakeSplit<T>(s: seq<T>, mid: nat, hi: nat)
    requires mid <= hi <= |s|
    ensures s[..hi] == s[..mid] + s[mid..hi]
  {
  }

  lemma SliceSplit<T>(s: seq<T>, lo: nat, mid: nat, hi: nat)
    requires lo <= mid <= hi <= |s|
    ensures s[lo..hi] == s[lo..mid] + s[mid..hi]
  {
  }

  lemma TailOfAppend<T>(a: seq<T>, b: seq<T>)
    requires |a| > 0
    ensures (a + b)[1..] == a[1..] + b
  {
  }

  lemma AppendAssoc<T>(a: seq<T>, b: seq<T>, c: seq<T>)
    ensures a + (b + c) == (a + b) + c
  {
  }

  lemma UnreadStep(held: seq<Chunk>, notch: nat)
    requires |held| > 0 && notch <= |held[0].data|
    ensures Unread(held, notch) == held[0].data[notch..] + Unread(held[1..], 0)
  {
  }

  lemma UnreadSplit(held: seq<Chunk>, notch: nat, more: nat)
    requires |held| > 0 && notch + more <= |held[0].data|
    ensures held[0].data[notch..][..more] + Unread(held, notch + more) == Unread(held, notch)
  {
    hide Unread;
    UnreadStep(held, notch);
    UnreadStep(held, notch + more);
    SliceAppend(held[0].data, notch, more, Unread(held[1..], 0));
  }

  /** One unfolding of a read. */
  lemma ConsumeStep(held: seq<Chunk>, notch: nat, len: int)
    requires |held| > 0 ==> notch <= |held[0].data|
    ensures |held| == 0 || len <= 0 ==> Consume(held, notch, len) == Taken(0, notch, [])
    ensures |held| > 0 && 0 < len < |held[0].data| - notch ==>
      Consume(held, notch, len) == Taken(0, notch + len, held[0].data[notch..][..len])
    ensures |held| > 0 && len > 0 && len >= |held[0].data| - notch ==>
      var unit := held[0].data[notch..];
      var rest := Consume(held[1..], 0, len - |unit|);
      Consume(held, notch, len) == Taken(1 + rest.freed, rest.notch, unit + rest.bytes)
  {
  }

  /** What a read hands out and what it leaves make up what was there. */
  ghost predicate TakesFront(held: seq<Chunk>, notch: nat, len: int, t: Taken)
    requires |held| > 0 ==> notch <= |held[0].data|
  {
    && t.freed <= |held| && (t.freed < |held| ==> t.notch <= |held[t.freed].data|)
    && t.bytes + Unread(held[t.freed..], t.notch) == Unread(held, notch)
    && |t.bytes| == Min(Max(len, 0), |Unread(held, notch)|)
  }

  /** A read returns the front of the unread bytes and leaves exactly the rest. */
  lemma {:induction false} ConsumeBytes(held: seq<Chunk>, notch: nat, len: int)
    requires |held| > 0 ==> notch <= |held[0].data|
    requires notch > 0 ==> |held| > 0 && notch < |held[0].data|
    ensures TakesFront(held, notch, len, Consume(held, notch, len))
    decreases |held|
  {
    hide Consume, TakesFront;
    ConsumeStep(held, notch, len);
    if |held| == 0 || len <= 0 {
      TakesNone(held, notch, len);
    } else if len < |held[0].data| - notch {
      TakesPart(held, notch, len);
    } else {
      var unit := held[0].data[notch..];
      ConsumeBytes(held[1..], 0, len - |unit|);
      TakesWhole(held, notch, len, Consume(held[1..], 0, len - |unit|));
    }
  }

  lemma TakesNone(held: seq<Chunk>, notch: nat, len: int)
    requires |held| > 0 ==> notch <= |held[0].data|
    requires |held| == 0 || len <= 0
    ensures TakesFront(held, notch, len, Taken(0, notch, []))
  {
    DropNone(held);
  }

  lemma TakesPart(held: seq<Chunk>, notch: nat, len: int)
    requires |held| > 0 && notch <= |held[0].data| && 0 < len < |held[0].data| - notch
    ensures TakesFront(held, notch, len, Taken(0, notch + len, held[0].data[notch..][..len]))
  {
    hide Unread;
    DropNone(held);
    UnreadSplit(held, notch, len);
    UnreadStep(held, notch);
  }

  lemma TakesWhole(held: seq<Chunk>, notch: nat, len: int, rest: Taken)
    requires |held| > 0 && notch <= |held[0].data| && len > 0 && len >= |held[0].data| - notch
    requires TakesFront(held[1..], 0, len - |held[0].data[notch..]|, rest)
    ensures TakesFront(held, notch, len, Taken(1 + rest.freed, rest.notch, held[0].data[notch..] + rest.bytes))
  {
    hide Unread;
    var unit := held[0].data[notch..];
    DropDrop(held, 1, rest.freed);
    UnreadStep(held, notch);
    AppendAssoc(unit, rest.bytes, Unread(held[1 + rest.freed..], rest.notch));
  }

  /** Cutting a buffer loses and reorders nothing, and no chunk is empty or longer than the MSS. */
  lemma {:induction false} SplitKeepsBytes(data: seq<byte>, mss: nat, first: bool, inOrder: bool, number: nat)
    requires mss > 0
    ensures var chunks := Split(data, mss, first, inOrder, number);
      && Flatten(chunks) == data
      && (forall i | 0 <= i < |chunks| :: 0 < |chunks[i].data| <= mss)
      && |chunks| == CeilDiv(|data|, mss)
    decreases |data|
  {
    hide CeilDiv, Flatten;
    if |data| == 0 {
      CeilStep(0, mss);
      NoBytes();
    } else if |data| <= mss {
      FlattenSingle(Chunk(MsgNo(first, true, inOrder, number), data));
      CeilStep(|data|, mss);
    } else {
      var rest := Split(data[mss..], mss, false, inOrder, number);
      var head := Chunk(MsgNo(first, false, inOrder, number), data[..mss]);
      SplitKeepsBytes(data[mss..], mss, false, inOrder, number);
      assert ([head] + rest)[1..] == rest;
      FlattenStep([head] + rest);
      CeilStep(|data|, mss);
    }
  }

  /** How many pieces of at most m make n. */
  function CeilDiv(n: nat, m: nat): nat
    requires m > 0
  {
    (n + m - 1) / m
  }

  lemma CeilStep(n: nat, mss: nat)
    requires mss > 0
    ensures CeilDiv(n, mss) == if n == 0 then 0 else if n <= mss then 1 else 1 + CeilDiv(n - mss, mss)
  {
    if n == 0 {
      DivUnique(mss - 1, mss, 0);
    } else if n <= mss {
      assert mss <= n + mss - 1 < 2 * mss;
      DivUnique(n + mss - 1, mss, 1);
    } else {
      var q := (n - 1) / mss;
      assert n - 1 == q * mss + (n - 1) % mss;
      assert n + mss - 1 == (q + 1) * mss + (n - 1) % mss;
      DivUnique(n + mss - 1, mss, q + 1);
    }
  }

  /** n fits into k pieces exactly if it is at most k times as long. */
  lemma CeilFits(n: nat, m: nat, k: nat)
    requires m > 0
    ensures CeilDiv(n, m) <= k <==> n <= k * m
  {
    var q := (n + m - 1) / m;
    assert q * m <= n + m - 1 < (q + 1) * m;
    assert q <= k ==> q * m <= k * m;
    assert q > k ==> q * m >= (k + 1) * m;
  }

  /** Chunk i holds the i-th stretch of mss bytes; only the first begins the message and only the last
      ends it. */
  lemma SplitExact(data: seq<byte>, mss: nat, first: bool, inOrder: bool, number: nat, i: nat)
    requires mss > 0 && i < |Split(data, mss, first, inOrder, number)|
    ensures 0 <= i * mss < |data|
    ensures var s := Split(data, mss, first, inOrder, number);
      s[i] == Chunk(MsgNo(first && i == 0, i == |s| - 1, inOrder, number), data[i * mss..Min(i * mss + mss, |data|)])
  {
    hide Split;
    SplitAt(data, mss, first, inOrder, number, i, i * mss);
  }

  lemma {:induction false} SplitAt(data: seq<byte>, mss: nat, first: bool, inOrder: bool, number: nat, i: nat, at: int)
    requires mss > 0 && i < |Split(data, mss, first, inOrder, number)| && at == i * mss
    ensures 0 <= at < |data|
    ensures var s := Split(data, mss, first, inOrder, number);
      s[i] == Chunk(MsgNo(first && i == 0, i == |s| - 1, inOrder, number), data[at..Min(at + mss, |data|)])
    decreases |data|
  {
    TimesStep(i, mss);
    if |data| > mss {
      var rest := data[mss..];
      if i > 0 {
        SplitAt(rest, mss, false, inOrder, number, i - 1, at - mss);
        SliceOfRest(data, mss, at - mss, Min(at, |rest|));
      }
      assert |Split(rest, mss, false, inOrder, number)| > 0;
    }
  }

  lemma TimesStep(i: nat, mss: nat)
    ensures i == 0 ==> i * mss == 0
    ensures i > 0 ==> i * mss == (i - 1) * mss + mss
  {
  }

  lemma SliceOfRest<T>(s: seq<T>, off: nat, lo: nat, hi: nat)
    requires off <= |s| && lo <= hi <= |s| - off
    ensures s[off..][lo..hi] == s[off + lo..off + hi]
  {
  }

  lemma DivUnique(a: int, m: int, q: int)
    requires m > 0 && q * m <= a < (q + 1) * m
    ensures a / m == q
  {
    var k := a / m;
    assert k * m <= a < (k + 1) * m;
    assert k < q ==> (k + 1) * m <= q * m;
    assert k > q ==> (q + 1) * m <= k * m;
  }
}
