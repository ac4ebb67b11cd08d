/** The sender's buffer: a ring of blocks that grows when it is about to fill. */
module SndBuffer {
  import opened Options
  import opened Chunks

  class Block {
    var data: seq<byte>      // m_pcData and m_iLength
    var msgNo: MsgNo
    var next: Block?

    constructor ()
      ensures data == [] && next == null
    {
      data := [];
      msgNo := MsgNo(false, false, false, 0);
      next := null;
    }
  }

  /** The blocks form one cycle, in the order of the sequence. */
  ghost predicate Ring(ring: seq<Block>)
    reads ring
  {
    && |ring| > 0
    && (forall i, j :: 0 <= i < j < |ring| ==> ring[i] != ring[j])
    && (forall i {:trigger ring[i].next} :: 0 <= i < |ring| ==>
          ring[i].next == if i + 1 < |ring| then ring[i + 1] else ring[0])
  }

  /** What the first n blocks carry. */
  ghost function Loaded(ring: seq<Block>, n: nat): (s: seq<Chunk>)
    requires n <= |ring|
    reads ring
    ensures |s| == n
    ensures forall i :: 0 <= i < n ==> s[i] == Chunk(ring[i].msgNo, ring[i].data)
  {
    if n == 0 then [] else Loaded(ring, n - 1) + [Chunk(ring[n - 1].msgNo, ring[n - 1].data)]
  }

  /** The first n blocks carry what they carried before and what has been filled in. */
  ghost predicate LoadedAs(ring: seq<Block>, n: nat, was: seq<Chunk>, done: seq<Chunk>)
    reads ring
  {
    n <= |ring| && Loaded(ring, n) == was + done
  }

  lemma LoadedStart(ring: seq<Block>, n: nat)
    requires n <= |ring|
    ensures LoadedAs(ring, n, Loaded(ring, n), [])
  {
    hide Loaded;
  }

  function Rotate<T>(s: seq<T>, k: nat): seq<T>
    requires k <= |s|
  {
    s[k..] + s[..k]
  }

  lemma RotateRing(ring: seq<Block>, k: nat)
    requires Ring(ring) && k <= |ring|
    ensures Ring(Rotate(ring, k))
  {
    var n, r := |ring|, Rotate(ring, k);
    forall i | 0 <= i < n
      ensures r[i] == ring[if i + k < n then i + k else i + k - n]
    {
    }
    forall i, j | 0 <= i < j < n
      ensures r[i] != r[j]
    {
      var a, b := if i + k < n then i + k else i + k - n, if j + k < n then j + k else j + k - n;
      assert a != b;
      if a < b {
        assert ring[a] != ring[b];
      } else {
        assert ring[b] != ring[a];
      }
    }
    forall i {:trigger r[i].next} | 0 <= i < n
      ensures r[i].next == if i + 1 < n then r[i + 1] else r[0]
    {
      var a := if i + k < n then i + k else i + k - n;
      assert ring[a].next == if a + 1 < n then ring[a + 1] else ring[0];
    }
  }

  lemma RotateLoaded(ring: seq<Block>, k: nat, n: nat)
    requires k <= n <= |ring|
    ensures Loaded(Rotate(ring, k), n - k) == Loaded(ring, n)[k..]
  {
    var a, b := Loaded(Rotate(ring, k), n - k), Loaded(ring, n)[k..];
    assert forall i | 0 <= i < n - k :: a[i] == b[i];
  }

  /** A row of blocks, each pointing at the next; where the last points is open. */
  ghost predicate Chain(row: seq<Block>)
    reads row
  {
    && |row| > 0
    && (forall i, j :: 0 <= i < j < |row| ==> row[i] != row[j])
    && (forall i {:trigger row[i].next} :: 0 <= i < |row| - 1 ==> row[i].next == row[i + 1])
  }

  method NewBlocks(n: int) returns (first: Block, last: Block, ghost row: seq<Block>)
    requires n >= 1
    ensures Chain(row) && |row| == n && row[0] == first && row[n - 1] == last && fresh(row)
  {
    first := new Block();
    last := first;
    row := [first];
    var i := 1;
    while i < n
      invariant 1 <= i <= n && |row| == i && Chain(row) && row[0] == first && row[i - 1] == last
      invariant fresh(row)
    {
      var pb := new Block();
      last.next := pb;
      last := pb;
      row := row + [pb];
      i := i + 1;
    }
  }

  /** Where a row spliced in after position at ends up. */
  function Spliced<T>(ring: seq<T>, at: nat, row: seq<T>): seq<T>
    requires at < |ring|
  {
    ring[..at + 1] + row + ring[at + 1..]
  }

  lemma SplicedAt<T>(ring: seq<T>, at: nat, row: seq<T>, i: nat)
    requires at < |ring| && i < |ring| + |row|
    ensures |Spliced(ring, at, row)| == |ring| + |row|
    ensures Spliced(ring, at, row)[i] ==
      if i <= at then ring[i] else if i <= at + |row| then row[i - at - 1] else ring[i - |row|]
  {
  }

  lemma SplicedDistinct<T>(ring: seq<T>, at: nat, row: seq<T>)
    requires at < |ring|
    requires forall i, j :: 0 <= i < j < |ring| ==> ring[i] != ring[j]
    requires forall i, j :: 0 <= i < j < |row| ==> row[i] != row[j]
    requires forall i, j :: 0 <= i < |ring| && 0 <= j < |row| ==> ring[i] != row[j]
    ensures var s := Spliced(ring, at, row); forall i, j :: 0 <= i < j < |s| ==> s[i] != s[j]
  {
  }

  lemma SplicedMembers<T>(ring: seq<T>, at: nat, row: seq<T>)
    requires at < |ring|
    ensures var s := Spliced(ring, at, row); forall i :: 0 <= i < |s| ==> s[i] in ring || s[i] in row
  {
  }

  /** A cycle opened after position at and closed again around a row of new blocks. */
  lemma SplicedRing(ring: seq<Block>, at: nat, row: seq<Block>)
    requires at < |ring| && Chain(row)
    requires forall i, j :: 0 <= i < j < |ring| ==> ring[i] != ring[j]
    requires forall i, j :: 0 <= i < |ring| && 0 <= j < |row| ==> ring[i] != row[j]
    requires forall i {:trigger ring[i].next} :: 0 <= i < |ring| && i != at ==>
      ring[i].next == if i + 1 < |ring| then ring[i + 1] else ring[0]
    requires ring[at].next == row[0]
    requires row[|row| - 1].next == if at + 1 < |ring| then ring[at + 1] else ring[0]
    ensures Ring(Spliced(ring, at, row)) && |Spliced(ring, at, row)| == |ring| + |row|
  {
    hide Spliced;
    var s := Spliced(ring, at, row);
    SplicedAt(ring, at, row, 0);
    SplicedDistinct(ring, at, row);
    forall i {:trigger s[i].next} | 0 <= i < |s|
      ensures s[i].next == if i + 1 < |s| then s[i + 1] else s[0]
    {
      SplicedAt(ring, at, row, i);
      if i + 1 < |s| {
        SplicedAt(ring, at, row, i + 1);
      }
    }
  }

  lemma SplicedFront<T>(ring: seq<T>, at: nat, row: seq<T>)
    requires at < |ring|
    ensures |Spliced(ring, at, row)| == |ring| + |row|
    ensures forall i :: 0 <= i <= at ==> Spliced(ring, at, row)[i] == ring[i]
  {
  }

  lemma ChainParts(row: seq<Block>)
    requires Chain(row)
    ensures |row| > 0
  {
  }

  lemma SplicedLoaded(ring: seq<Block>, at: nat, row: seq<Block>)
    requires at < |ring|
    ensures |Spliced(ring, at, row)| == |ring| + |row|
    ensures Loaded(Spliced(ring, at, row), at) == Loaded(ring, at)
  {
    hide Loaded, Spliced;
    SplicedFront(ring, at, row);
    var a, b := Loaded(Spliced(ring, at, row), at), Loaded(ring, at);
    assert forall i | 0 <= i < at :: a[i] == b[i];
  }

  lemma LoadedIs(ring: seq<Block>, count: nat, n: nat, was: seq<Chunk>, added: seq<Chunk>)
    requires count + n <= |ring| && |was| == count && |added| == n
    requires forall j :: 0 <= j < count ==> Chunk(ring[j].msgNo, ring[j].data) == was[j]
    requires forall j :: count <= j < count + n ==> Chunk(ring[j].msgNo, ring[j].data) == added[j - count]
    ensures Loaded(ring, count + n) == was + added
  {
    hide Loaded;
    var a, b := Loaded(ring, count + n), was + added;
    assert forall j | 0 <= j < count + n :: a[j] == b[j];
  }

  lemma NextInRing(ring: seq<Block>, k: nat)
    requires Ring(ring) && k + 1 < |ring|
    ensures ring[k].next == ring[k + 1]
  {
  }

  lemma TakeFrom<S, T>(data: seq<S>, all: seq<T>)
    ensures data[0..] == data && [] + all == all && all + [] == all
  {
  }

  lemma RotateMembers<T>(s: seq<T>, k: nat)
    requires k <= |s|
    ensures |Rotate(s, k)| == |s|
    ensures forall i :: 0 <= i < |s| ==> Rotate(s, k)[i] == s[if i + k < |s| then i + k else i + k - |s|]
  {
  }

  lemma RoundedUp(n: nat, m: int)
    requires m >= 1
    ensures (n + m - 1) / m == n / m + if n % m != 0 then 1 else 0
  {
    var q, r := n / m, n % m;
    assert n == q * m + r;
    DivUnique(n + m - 1, m, if r == 0 then q else q + 1);
  }

  /** The number of blocks a buffer takes. */
  lemma BlockCount(data: seq<byte>, mss: int, first: bool, inOrder: bool, number: nat)
    requires mss >= 1
    ensures |Split(data, mss, first, inOrder, number)| == |data| / mss + if |data| % mss != 0 then 1 else 0
  {
    hide Split;
    SplitKeepsBytes(data, mss, first, inOrder, number);
    RoundedUp(|data|, mss);
  }

  lemma SplitNotEmpty(data: seq<byte>, mss: int, first: bool, inOrder: bool, number: nat)
    requires mss >= 1
    ensures |Split(data, mss, first, inOrder, number)| == 0 <==> |data| == 0
  {
  }

  lemma SliceOfDrop<T>(s: seq<T>, off: nat, len: nat)
    requires off + len <= |s|
    ensures s[off..][..len] == s[off..off + len]
  {
  }

  /** One round of the loop that fills the blocks. */
  lemma SplitStep(data: seq<byte>, off: nat, mss: int, inOrder: bool, number: nat, first: bool, done: seq<Chunk>)
    requires mss >= 1 && off < |data|
    ensures var len := if |data| - off > mss then mss else |data| - off;
      var tail := if off + len < |data| then Split(data[off + len..], mss, false, inOrder, number) else [];
      var c := Chunk(MsgNo(first, tail == [], inOrder, number), data[off..off + len]);
      && done + Split(data[off..], mss, first, inOrder, number) == (done + [c]) + tail
      && (off + len < |data| <==> tail != [])
  {
    var len := if |data| - off > mss then mss else |data| - off;
    SliceOfDrop(data, off, len);
    DropDrop(data, off, len);
    var rest := Split(data[off..], mss, first, inOrder, number);
    if off + len < |data| {
      SplitNotEmpty(data[off + len..], mss, false, inOrder, number);
      AppendAssoc(done, [rest[0]], Split(data[off + len..], mss, false, inOrder, number));
    } else {
      TakeAll(data[off..]);
      AppendAssoc(done, [rest[0]], []);
    }
  }

  /** Opens the cycle after position at and closes it again around the new row. */
  method SpliceIn(ghost ring: seq<Block>, ghost at: nat, last: Block, nfirst: Block, nlast: Block, ghost row: seq<Block>)
    requires Ring(ring) && at < |ring| && ring[at] == last
    requires Chain(row) && row[0] == nfirst && row[|row| - 1] == nlast
    requires forall i, j :: 0 <= i < |ring| && 0 <= j < |row| ==> ring[i] != row[j]
    modifies last`next, nlast`next
    ensures Ring(Spliced(ring, at, row)) && Loaded(Spliced(ring, at, row), at) == old(Loaded(ring, at))
  {
    hide Spliced, Loaded;
    ghost var was := Loaded(ring, at);
    nlast.next := last.next;
    last.next := nfirst;
    SplicedRing(ring, at, row);
    SplicedLoaded(ring, at, row);
    LoadedIs(ring, at, 0, was, []);
    TakeFrom(was, was);
  }

  /** Loads block k of the ring. */
  method LoadBlock(ghost ring: seq<Block>, ghost k: nat, s: Block, data: seq<byte>, msgNo: MsgNo)
    requires Ring(ring) && k < |ring| && s == ring[k]
    modifies s`data, s`msgNo
    ensures Ring(ring) && Loaded(ring, k + 1) == old(Loaded(ring, k)) + [Chunk(msgNo, data)]
  {
    hide Loaded;
    ghost var was := Loaded(ring, k);
    s.data := data;
    s.msgNo := msgNo;
    LoadedIs(ring, k, 1, was, [Chunk(msgNo, data)]);
  }

  /** Where block i of a buffer starts. */
  function Start(i: int, mss: int): int {
    i * mss
  }

  lemma StartStep(i: int, mss: int)
    ensures Start(0, mss) == 0 && Start(i + 1, mss) == Start(i, mss) + mss
  {
  }

  /** What goes into block i: mss bytes, or what is left. */
  function Part(data: seq<byte>, i: int, mss: int): seq<byte>
    requires mss >= 1 && 0 <= Start(i, mss) < |data|
  {
    var pktlen := |data| - Start(i, mss);
    data[Start(i, mss)..Start(i, mss) + if pktlen > mss then mss else pktlen]
  }

  /** The first i of the n chunks of a buffer are done. */
  ghost predicate Filling(data: seq<byte>, mss: int, inOrder: bool, number: nat, i: int, n: int, done: seq<Chunk>) {
    && mss >= 1 && 0 <= i <= n && |done| == i
    && |Split(data, mss, true, inOrder, number)| == n
    && if i == n then Split(data, mss, true, inOrder, number) == done
       else 0 <= Start(i, mss) < |data| &&
            Split(data, mss, true, inOrder, number) ==
            done + Split(data[Start(i, mss)..], mss, i == 0, inOrder, number)
  }

  lemma FillStart(data: seq<byte>, mss: int, inOrder: bool, number: nat)
    requires mss >= 1
    ensures Filling(data, mss, inOrder, number, 0, |Split(data, mss, true, inOrder, number)|, [])
  {
    hide Split;
    SplitNotEmpty(data, mss, true, inOrder, number);
    TakeFrom(data, Split(data, mss, true, inOrder, number));
    StartStep(0, mss);
  }

  lemma FillStep(data: seq<byte>, mss: int, inOrder: bool, number: nat, i: int, n: int, done: seq<Chunk>)
    requires Filling(data, mss, inOrder, number, i, n, done) && i < n
    ensures 0 <= Start(i, mss) < |data|
    ensures var c := Chunk(MsgNo(i == 0, i == n - 1, inOrder, number), Part(data, i, mss));
      Filling(data, mss, inOrder, number, i + 1, n, done + [c])
  {
    hide Split, Start;
    SplitStep(data, Start(i, mss), mss, inOrder, number, i == 0, done);
    StartStep(i, mss);
    var off := Start(i, mss) + if |data| - Start(i, mss) > mss then mss else |data| - Start(i, mss);
    if off < |data| {
      SplitNotEmpty(data[off..], mss, false, inOrder, number);
    }
    var len := if |data| - Start(i, mss) > mss then mss else |data| - Start(i, mss);
    var tail := if off < |data| then Split(data[off..], mss, false, inOrder, number) else [];
    var c := Chunk(MsgNo(i == 0, tail == [], inOrder, number), data[Start(i, mss)..Start(i, mss) + len]);
    LastOrNot(done + [c], tail, n);
  }

  lemma LastOrNot<T>(done: seq<T>, tail: seq<T>, n: int)
    requires |done + tail| == n
    ensures tail == [] <==> |done| == n
    ensures tail == [] ==> done + tail == done
  {
  }

  lemma FillEnd(data: seq<byte>, mss: int, inOrder: bool, number: nat, n: int, done: seq<Chunk>)
    requires Filling(data, mss, inOrder, number, n, n, done)
    ensures done == Split(data, mss, true, inOrder, number)
  {
  }

  class CSndBuffer {
    var first: Block
    var curr: Block
    var last: Block
    const unitSize: int      // the size of one physical buffer
    const mss: int
    var nextMsgNo: nat
    var size: int
    var count: int

    ghost var ring: seq<Block>   // from the first block on
    ghost var read: nat          // how far curr is from first
    ghost var repr: set<Block>   // the blocks

    ghost predicate Valid()
      reads this, repr
    {
      && (forall i :: 0 <= i < |ring| ==> ring[i] in repr)
      && unitSize >= 1 && mss >= 1
      && Ring(ring) && |ring| == size && 0 <= read <= count < size
      && ring[0] == first && ring[read] == curr && ring[count] == last
    }

    /** The chunks not yet acknowledged, oldest first. */
    ghost function Contents(): (s: seq<Chunk>)
      requires Valid()
      reads this, repr
      ensures |s| == count
    {
      Loaded(ring, count)
    }

    constructor (size: int, mss: int)
      requires size >= 1 && mss >= 1
      ensures Valid() && fresh(repr) && Contents() == [] && read == 0 && nextMsgNo == 1 && this.mss == mss
    {
      var f, l;
      ghost var row;
      f, l, row := NewBlocks(size);
      first, curr, last := f, f, f;
      unitSize := size;
      this.mss := mss;
      nextMsgNo := 1;
      this.size := size;
      count := 0;
      ring := row;
      repr := set b | b in row;
      read := 0;
      new;
      l.next := f;
    }

    /** Another physical buffer's worth of blocks enters the ring after the last one. */
    method Increase()
      requires Valid()
      modifies this`ring, this`repr, this`size, repr
      ensures Valid() && size == old(size) + unitSize
      ensures Contents() == old(Contents())
      ensures fresh(repr - old(repr))
    {
      hide Spliced, Ring, Loaded, Chain;
      var nfirst, nlast;
      ghost var row;
      nfirst, nlast, row := NewBlocks(unitSize);
      ChainParts(row);
      SplicedMembers(ring, count, row);
      SplicedFront(ring, count, row);
      SpliceIn(ring, count, last, nfirst, nlast, row);
      repr := repr + set b | b in row;
      ring := Spliced(ring, count, row);
      size := size + unitSize;
    }

    /** Cuts a buffer into blocks of at most mss bytes and appends them. */
    method AddBuffer(data: seq<byte>, inOrder: bool)
      requires Valid()
      modifies this`ring, this`repr, this`size, this`last, this`count, this`nextMsgNo, repr
      ensures Valid() && nextMsgNo == old(nextMsgNo) + 1
      ensures Contents() == old(Contents()) + Split(data, mss, true, inOrder, old(nextMsgNo))
      ensures fresh(repr - old(repr))
    {
      hide Ring, Loaded, Split;
      var n := |data| / mss;
      if |data| % mss != 0 {
        n := n + 1;
      }
      BlockCount(data, mss, true, inOrder, nextMsgNo);
      EnsureRoom(n);
      FillBlocks(data, inOrder, n);
      count := count + n;
      nextMsgNo := nextMsgNo + 1;
    }

    method EnsureRoom(n: int)
      requires Valid()
      modifies this`ring, this`repr, this`size, repr
      ensures Valid() && n + count < size && Contents() == old(Contents())
      ensures fresh(repr - old(repr))
    {
      while n + count >= size
        invariant Valid() && Contents() == old(Contents())
        invariant fresh(repr - old(repr))
        decreases n + count - size
      {
        Increase();
      }
    }

    method FillOne(data: seq<byte>, inOrder: bool, i: int, n: int, s: Block, ghost was: seq<Chunk>, ghost done: seq<Chunk>)
      returns (s': Block, ghost done': seq<Chunk>)
      requires Valid() && 0 <= i < n && n + count < size && s == ring[count + i]
      requires Filling(data, mss, inOrder, nextMsgNo, i, n, done) && LoadedAs(ring, count + i, was, done)
      modifies s`data, s`msgNo
      ensures Ring(ring) && s' == ring[count + i + 1]
      ensures Filling(data, mss, inOrder, nextMsgNo, i + 1, n, done') && LoadedAs(ring, count + i + 1, was, done')
    {
      hide Split, Ring, Loaded, Start, Filling, Part;
      FillStep(data, mss, inOrder, nextMsgNo, i, n, done);
      var payload := Part(data, i, mss);
      var msgNo := MsgNo(i == 0, i == n - 1, inOrder, nextMsgNo);
      LoadBlock(ring, count + i, s, payload, msgNo);
      AppendAssoc(was, done, [Chunk(msgNo, payload)]);
      done' := done + [Chunk(msgNo, payload)];
      NextInRing(ring, count + i);
      s' := s.next;
    }

    /** Loads the n blocks after the last one and moves last past them. */
    method FillBlocks(data: seq<byte>, inOrder: bool, n: int)
      requires Valid() && 0 <= n && n + count < size
      requires n == |Split(data, mss, true, inOrder, nextMsgNo)|
      modifies this`last, repr
      ensures Ring(ring) && ring[count + n] == last
      ensures LoadedAs(ring, count + n, old(Contents()), Split(data, mss, true, inOrder, nextMsgNo))
    {
      hide Split, Ring, Loaded, Start, Filling, Part, LoadedAs;
      ghost var was := Contents();
      ghost var done: seq<Chunk> := [];
      FillStart(data, mss, inOrder, nextMsgNo);
      LoadedStart(ring, count);
      var s := last;
      var i := 0;
      while i < n
        invariant 0 <= i <= n && Ring(ring) && s == ring[count + i]
        invariant Filling(data, mss, inOrder, nextMsgNo, i, n, done)
        invariant LoadedAs(ring, count + i, was, done)
        modifies repr
      {
        s, done := FillOne(data, inOrder, i, n, s, was, done);
        i := i + 1;
      }
      last := s;
      FillEnd(data, mss, inOrder, nextMsgNo, n, done);
    }

    /** Hands out the next block that was never sent, if there is one. */
    method ReadData() returns (r: Option<Chunk>)
      requires Valid()
      modifies this`curr, this`read
      ensures Valid() && Contents() == old(Contents())
      ensures old(read) == count ==> r == None && read == old(read)
      ensures old(read) < count ==> r == Some(Contents()[old(read)]) && read == old(read) + 1
    {
      if curr == last {
        return None;
      }
      r := Some(Chunk(curr.msgNo, curr.data));
      curr := curr.next;
      read := read + 1;
    }

    /** Hands out the block at an offset from the oldest, for another transmission. */
    method ReadAt(offset: int) returns (r: Chunk)
      requires Valid() && 0 <= offset < count
      ensures r == Contents()[offset]
    {
      var p := first;
      var i := 0;
      while i < offset
        invariant 0 <= i <= offset && p == ring[i]
      {
        p := p.next;
        i := i + 1;
      }
      r := Chunk(p.msgNo, p.data);
    }

    method StepFirst(offset: int)
      requires Valid() && 0 <= offset < |ring|
      modifies this`first
      ensures first == ring[offset]
    {
      var i := 0;
      while i < offset
        invariant 0 <= i <= offset && first == ring[i]
      {
        first := first.next;
        i := i + 1;
      }
    }

    /** The oldest blocks are acknowledged and may be used again. */
    method AckData(offset: int)
      requires Valid() && 0 <= offset <= read
      modifies this`first, this`count, this`ring, this`read
      ensures Valid() && Contents() == old(Contents())[offset..] && read == old(read) - offset
    {
      hide Rotate, Loaded, Ring;
      StepFirst(offset);
      RotateRing(ring, offset);
      RotateLoaded(ring, offset, count);
      RotateMembers(ring, offset);
      ring := Rotate(ring, offset);
      read := read - offset;
      count := count - offset;
    }

    method GetCurrBufSize() returns (r: int)
      requires Valid()
      ensures r == |Contents()|
    {
      r := count;
    }
  }
}
