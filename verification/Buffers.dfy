/** Writing into a byte buffer: the state after a write as a function of the state before, and the
    integer encoders of the AMF coder. */
module Buffers {
  import opened Options
  import opened Chunks
  import opened RtmpInts

  /** s with the bytes b written over it from position at on. */
  function Patch(s: seq<byte>, at: int, b: seq<byte>): (r: seq<byte>)
    requires 0 <= at && at + |b| <= |s|
    ensures |r| == |s|
  {
    s[..at] + b + s[at + |b|..]
  }

  lemma PatchNothing(s: seq<byte>, at: int)
    requires 0 <= at <= |s|
    ensures Patch(s, at, []) == s
  {
  }

  lemma PatchByte(s: seq<byte>, at: int, b: seq<byte>, x: byte)
    requires 0 <= at && at + |b| + 1 <= |s|
    ensures Patch(s, at, b)[at + |b| := x] == Patch(s, at, b + [x])
  {
  }

  lemma PatchMore(s: seq<byte>, at: int, a: seq<byte>, b: seq<byte>)
    requires 0 <= at && at + |a| + |b| <= |s|
    ensures Patch(Patch(s, at, a), at + |a|, b) == Patch(s, at, a + b)
  {
  }

  lemma PatchRead(s: seq<byte>, at: int, b: seq<byte>, hi: int)
    requires 0 <= at && at + |b| <= hi <= |s|
    ensures Patch(s, at, b)[at..hi] == b + s[at + |b|..hi]
  {
  }

  lemma PatchAfter(s: seq<byte>, at: int, b: seq<byte>, lo: int, hi: int)
    requires 0 <= at && at + |b| <= lo <= hi <= |s|
    ensures Patch(s, at, b)[lo..hi] == s[lo..hi]
  {
  }

  /** AMF_EncodeInt24 and AMF_EncodeInt32: -1 stands for NULL, when there is no room. */
  method EncodeInt24(mem: array<byte>, output: int, outend: int, v: int) returns (next: int)
    requires 0 <= output && outend <= mem.Length
    modifies mem
    ensures output + 3 > outend ==> next == -1 && mem[..] == old(mem[..])
    ensures output + 3 <= outend ==> next == output + 3 && mem[..] == Patch(old(mem[..]), output, Be24(v))
  {
    if output + 3 > outend {
      return -1;
    }
    mem[output + 2] := v % 256;
    mem[output + 1] := v / 256 % 256;
    mem[output] := v / 65536 % 256;
    return output + 3;
  }

  method EncodeInt32(mem: array<byte>, output: int, outend: int, v: int) returns (next: int)
    requires 0 <= output && outend <= mem.Length
    modifies mem
    ensures output + 4 > outend ==> next == -1 && mem[..] == old(mem[..])
    ensures output + 4 <= outend ==> next == output + 4 && mem[..] == Patch(old(mem[..]), output, Be32(v))
  {
    if output + 4 > outend {
      return -1;
    }
    mem[output + 3] := v % 256;
    mem[output + 2] := v / 256 % 256;
    mem[output + 1] := v / 65536 % 256;
    mem[output] := v / 16777216 % 256;
    return output + 4;
  }

  /** Writes one byte after those written from output on. */
  method Put(mem: array<byte>, ghost output: int, pos: int, ghost was: seq<byte>, ghost done: seq<byte>, x: byte)
    requires 0 <= output && pos == output + |done| < mem.Length == |was| && mem[..] == Patch(was, output, done)
    modifies mem
    ensures mem[..] == Patch(was, output, done + [x])
  {
    hide Patch;
    PatchByte(was, output, done, x);
    mem[pos] := x;
  }

  method EncodeInt16(mem: array<byte>, output: int, outend: int, v: int) returns (next: int)
    requires 0 <= output && outend <= mem.Length
    modifies mem
    ensures output + 2 > outend ==> next == -1 && mem[..] == old(mem[..])
    ensures output + 2 <= outend ==> next == output + 2 && mem[..] == Patch(old(mem[..]), output, Be16(v))
  {
    if output + 2 > outend {
      return -1;
    }
    mem[output + 1] := v % 256;
    mem[output] := v / 256 % 256;
    return output + 2;
  }

  /** memcpy. */
  method Copy(mem: array<byte>, output: int, s: seq<byte>)
    requires 0 <= output && output + |s| <= mem.Length
    modifies mem
    ensures mem[..] == Patch(old(mem[..]), output, s)
  {
    hide Patch;
    ghost var was := mem[..];
    PatchNothing(was, output);
    assert s[..0] == [];
    var i := 0;
    while i < |s|
      invariant 0 <= i <= |s| && mem[..] == Patch(was, output, s[..i])
    {
      Put(mem, output, output + i, was, s[..i], s[i]);
      assert s[..i] + [s[i]] == s[..i + 1];
      i := i + 1;
    }
    assert s[..i] == s;
  }

  /** What an encoder does that may write anything between output and outend: it fails, or the
      result starts at output. */
  ghost predicate Wrote(was: seq<byte>, now: seq<byte>, output: int, outend: int, res: Option<seq<byte>>, next: int) {
    && 0 <= output <= outend <= |was| == |now|
    && now[..output] == was[..output] && now[outend..] == was[outend..]
    && match res
       case None => next == -1
       case Some(b) => next == output + |b| <= outend && now[output..next] == b
  }

  lemma PatchWrote(was: seq<byte>, output: int, outend: int, b: seq<byte>)
    requires 0 <= output && output + |b| <= outend <= |was|
    ensures Wrote(was, Patch(was, output, b), output, outend, Some(b), output + |b|)
  {
  }

  lemma NothingWrote(was: seq<byte>, output: int, outend: int)
    requires 0 <= output <= outend <= |was|
    ensures Wrote(was, was, output, outend, None, -1)
  {
  }

  /** An encoder that goes on after front has been written. */
  lemma WroteMore(was: seq<byte>, now: seq<byte>, output: int, outend: int, front: seq<byte>, res: Option<seq<byte>>, next: int)
    requires 0 <= output && output + |front| <= outend <= |was|
    requires Wrote(Patch(was, output, front), now, output + |front|, outend, res, next)
    ensures Wrote(was, now, output, outend, if res.None? then None else Some(front + res.value), next)
  {
    var mid := Patch(was, output, front);
    var at := output + |front|;
    assert now[..output] == now[..at][..output] && mid[..at][..output] == was[..output];
    assert mid[outend..] == was[outend..];
    if res.Some? {
      assert now[output..at] == now[..at][output..] == mid[..at][output..] == front;
      SliceSplit(now, output, at, next);
    }
  }
}
