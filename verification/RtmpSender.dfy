/** RTMP_SendPacket: headers are built in the free bytes before the body, and every later chunk
    header overwrites body bytes that are already on the wire. */
module RtmpSender {
  import opened Options
  import opened Chunks
  import opened RtmpInts
  import opened Buffers
  import opened RtmpSpec

  const MAX_HEADER_SIZE := 18

  method EncodeInt32LE(mem: array<byte>, output: int, v: int) returns (size: int)
    requires 0 <= output && output + 4 <= mem.Length
    modifies mem
    ensures size == 4 && mem[..] == Patch(old(mem[..]), output, Le32(v))
  {
    var nVal := v;
    mem[output] := nVal % 256;
    nVal := nVal / 256;
    mem[output + 1] := nVal % 256;
    nVal := nVal / 256;
    mem[output + 2] := nVal % 256;
    nVal := nVal / 256;
    mem[output + 3] := nVal % 256;
    return 4;
  }

  /** The bytes of the basic header after its first. */
  function ChannelBytes(channel: int): int {
    if channel > 319 then 2 else if channel > 63 then 1 else 0
  }

  method PutBasic(mem: array<byte>, output: int, c: byte, channel: int) returns (next: int)
    requires 2 <= channel < CHANNELS && 0 <= output && output + 1 + ChannelBytes(channel) <= mem.Length
    requires c % 64 == if channel > 319 then 1 else if channel > 63 then 0 else channel
    modifies mem
    ensures next == output + 1 + ChannelBytes(channel)
    ensures |Basic(c / 64, channel)| == 1 + ChannelBytes(channel)
    ensures mem[..] == Patch(old(mem[..]), output, Basic(c / 64, channel))
  {
    hide Patch, Basic;
    ghost var was := mem[..];
    BasicBytes(c, channel);
    PatchNothing(was, output);
    assert [] + [c] == [c];
    Put(mem, output, output, was, [], c);
    next := output + 1;
    var cSize := ChannelBytes(channel);
    if cSize > 0 {
      var tmp := channel - 64;
      assert [c] + [tmp % 256] == [c, tmp % 256];
      Put(mem, output, next, was, [c], tmp % 256);
      next := next + 1;
      if cSize == 2 {
        Put(mem, output, next, was, [c, tmp % 256], tmp / 256);
        next := next + 1;
      }
    }
  }

  lemma BasicBytes(c: byte, channel: int)
    requires 2 <= channel < CHANNELS
    requires c % 64 == if channel > 319 then 1 else if channel > 63 then 0 else channel
    ensures Basic(c / 64, channel) ==
            if ChannelBytes(channel) == 0 then [] + [c]
            else if ChannelBytes(channel) == 1 then [c] + [(channel - 64) % 256]
            else [c, (channel - 64) % 256] + [(channel - 64) / 256]
    ensures |Basic(c / 64, channel)| == 1 + ChannelBytes(channel)
  {
  }

  /** RTMPPacket on the sending side; the body starts MAX_HEADER_SIZE bytes into its block. */
  class CPacket {
    var headerType: int
    var packetType: byte
    var channel: int
    var timestamp: int
    var info: int
    var bodySize: int
    var block: array?<byte>

    ghost predicate Valid()
      reads this, block
    {
      && 0 <= headerType < 256 && 2 <= channel < CHANNELS && 0 <= timestamp < WORD && -WORD / 2 <= info < WORD / 2
      && 0 <= bodySize < 0x100_0000
      && (if block == null then bodySize == 0 else MAX_HEADER_SIZE + bodySize <= block.Length)
    }

    ghost function Body(): seq<byte>
      requires Valid()
      reads this, block
    {
      if block == null then [] else block[MAX_HEADER_SIZE..MAX_HEADER_SIZE + bodySize]
    }

    lemma SizeIsBody()
      requires Valid()
      ensures |Body()| == bodySize
    {
    }

    ghost function Abs(): Message
      requires Valid()
      reads this, block
    {
      Message(headerType, packetType, channel, timestamp, info, Body())
    }
  }

  lemma FieldsBytes(headerType: int, t: int, m: Message)
    requires 0 <= headerType <= 3
    ensures Fields(headerType, t, m) ==
            (((([] + if headerType < 3 then Be24(Min(t, MARKER)) else [])
               + if headerType < 2 then Be24(|m.body|) else [])
              + if headerType < 2 then [m.packetType] else [])
             + if headerType < 1 then Le32(m.info) else [])
            + if headerType < 3 && t >= MARKER then Be32(t) else []
    ensures |Fields(headerType, t, m)| == HeaderSize(headerType) - 1 + if headerType < 3 && t >= MARKER then 4 else 0
  {
  }

  /** Writes the fields of a header from output on; none of the encoders runs out of room. */
  method PutFields(mem: array<byte>, output: int, outend: int, nSize: int, t: int, bodySize: int, packetType: byte,
                   info: int, ghost headerType: int, ghost m: Message)
    requires 0 <= headerType <= 3 && nSize == HeaderSize(headerType) && 0 <= t < WORD
    requires bodySize == |m.body| && packetType == m.packetType && info == m.info
    requires 0 <= output && output + |Fields(headerType, t, m)| <= outend <= mem.Length
    modifies mem
    ensures mem[..] == Patch(old(mem[..]), output, Fields(headerType, t, m))
  {
    hide Patch, Fields, Be24, Be32, Le32;
    ghost var was := mem[..];
    ghost var done: seq<byte> := [];
    FieldsBytes(headerType, t, m);
    Widths(bodySize, t, info);
    PatchNothing(was, output);
    var hptr := output;
    if nSize > 1 {
      var field := if t > MARKER then MARKER else t;
      PatchMore(was, output, done, Be24(field));
      done := done + Be24(field);
      hptr := EncodeInt24(mem, hptr, outend, field);
    }
    NothingAdded(done);
    if nSize > 4 {
      PatchMore(was, output, done, Be24(bodySize));
      done := done + Be24(bodySize);
      hptr := EncodeInt24(mem, hptr, outend, bodySize);
      Put(mem, output, hptr, was, done, packetType);
      done := done + [packetType];
      hptr := hptr + 1;
    }
    NothingAdded(done);
    if nSize > 8 {
      PatchMore(was, output, done, Le32(info));
      done := done + Le32(info);
      var size := EncodeInt32LE(mem, hptr, info);
      hptr := hptr + size;
    }
    NothingAdded(done);
    if nSize > 1 && t >= MARKER {
      PatchMore(was, output, done, Be32(t));
      hptr := EncodeInt32(mem, hptr, outend, t);
    }
  }

  lemma Widths(a: int, b: int, c: int)
    ensures |Be24(a)| == |Be24(Min(b, MARKER))| == 3 && |Be32(b)| == 4 && |Le32(c)| == 4
  {
  }

  lemma NothingAdded(s: seq<byte>)
    ensures s + [] == s && [] + s == s && s + [] + [] == s
  {
  }

  /** A body cut into chunks, without the header of the first. */
  function Chunked(channel: int, body: seq<byte>, size: nat): seq<byte>
    requires size > 0 && 2 <= channel < CHANNELS
  {
    var n := Min(size, |body|);
    body[..n] + Tail(channel, body[n..], size)
  }

  lemma WireIsChunked(prev: Option<Prev>, m: Message, size: nat)
    requires MessageOk(m) && size > 0
    ensures Wire(prev, m, size) == Header(Compress(prev, m), Delta(prev, m), m) + Chunked(m.channel, m.body, size)
  {
    hide Header, Tail, Delta;
    var n := Min(size, |m.body|);
    AppendAssoc(Header(Compress(prev, m), Delta(prev, m), m), m.body[..n], Tail(m.channel, m.body[n..], size));
  }

  /** What is on the wire, the header that waits to be written and the rest of the body make up
      what there is to send. */
  ghost predicate Pending(wire: seq<byte>, header: seq<byte>, channel: int, body: seq<byte>, size: nat, all: seq<byte>)
    requires size > 0 && 2 <= channel < CHANNELS
  {
    wire + (header + Chunked(channel, body, size)) == all
  }

  /** Header and n bytes of the body go out; the next header, if any, is a minimal one. */
  lemma PendingStep(wire: seq<byte>, header: seq<byte>, channel: int, body: seq<byte>, size: nat, all: seq<byte>)
    requires size > 0 && 2 <= channel < CHANNELS && Pending(wire, header, channel, body, size, all)
    ensures var n := Min(size, |body|);
      Pending(wire + (header + body[..n]), if n < |body| then Basic(3, channel) else [], channel, body[n..], size, all)
  {
    hide Basic;
    var n := Min(size, |body|);
    var tail := Tail(channel, body[n..], size);
    AppendAssoc(header, body[..n], tail);
    AppendAssoc(wire, header + body[..n], tail);
    if n < |body| {
      var k := Min(size, |body[n..]|);
      AppendAssoc(Basic(3, channel), body[n..][..k], Tail(channel, body[n..][k..], size));
    } else {
      assert body[n..] == [];
    }
  }

  lemma PendingEnd(wire: seq<byte>, channel: int, size: nat, all: seq<byte>)
    requires size > 0 && 2 <= channel < CHANNELS && Pending(wire, [], channel, [], size, all)
    ensures wire == all
  {
  }

  class CRtmp {
    var wire: seq<byte>                          // what was written to the socket
    const outChunkSize: int
    const vecChannelsOut: array<Option<Prev>>    // what later messages use of the last packet

    ghost predicate Valid() {
      vecChannelsOut.Length == CHANNELS && outChunkSize > 0
    }

    constructor (chunkSize: int)
      requires chunkSize > 0
      ensures Valid() && wire == [] && outChunkSize == chunkSize && fresh(vecChannelsOut)
      ensures vecChannelsOut[..] == seq(CHANNELS, _ => None)
    {
      wire := [];
      outChunkSize := chunkSize;
      vecChannelsOut := new Option<Prev>[CHANNELS](_ => None);
    }

    method WriteN(buffer: array<byte>, from: int, n: int)
      requires 0 <= from && 0 <= n && from + n <= buffer.Length
      modifies this`wire
      ensures wire == old(wire) + buffer[from..from + n]
    {
      wire := wire + buffer[from..from + n];
    }

    /** Sends the header that is ready at header and the body after it, chunk by chunk. */
    method SendChunks(mem: array<byte>, header0: int, hSize0: int, c: byte, cSize: int, channel: int, bodySize: int,
                      ghost body: seq<byte>)
      requires Valid() && 2 <= channel < CHANNELS && cSize == ChannelBytes(channel)
      requires c % 64 == if channel > 319 then 1 else if channel > 63 then 0 else channel
      requires 0 <= header0 && 0 < hSize0 && header0 + hSize0 <= mem.Length && bodySize == |body|
      requires bodySize > 0 ==>
        header0 + hSize0 == MAX_HEADER_SIZE && MAX_HEADER_SIZE + bodySize <= mem.Length
        && mem[MAX_HEADER_SIZE..MAX_HEADER_SIZE + bodySize] == body
      modifies this`wire, mem
      ensures wire == old(wire) + (old(mem[header0..header0 + hSize0]) + Chunked(channel, body, outChunkSize))
    {
      hide Chunked, Pending, Ready, Min;
      var header, hSize, nSize, buffer, nChunkSize := header0, hSize0, bodySize, MAX_HEADER_SIZE, outChunkSize;
      ghost var rest, pend := body, mem[header..header + hSize];
      ghost var all := wire + (pend + Chunked(channel, body, outChunkSize));
      PendingStart(wire, pend, channel, body, outChunkSize);
      ReadyStart(mem[..], header, hSize, pend, rest);
      while nSize + hSize != 0
        invariant 0 <= nSize == |rest| && 0 <= hSize && 0 <= nChunkSize <= outChunkSize
        invariant nSize > 0 ==> nChunkSize == outChunkSize && hSize > 0
        invariant Ready(mem[..], header, hSize, buffer, pend, rest)
        invariant Pending(wire, pend, channel, rest, outChunkSize, all)
        decreases nSize, hSize
      {
        if nSize < nChunkSize {
          nChunkSize := nSize;
        }
        MinIs(nChunkSize, outChunkSize, |rest|);
        header, hSize, pend := SendChunk(mem, header, hSize, nSize, buffer, nChunkSize, c, cSize, channel, pend, rest, all);
        rest := rest[nChunkSize..];
        nSize := nSize - nChunkSize;
        buffer := buffer + nChunkSize;
      }
      ReadyEnd(mem[..], header, hSize, buffer, pend, rest);
      PendingEnd(wire, channel, outChunkSize, all);
    }

    /** One round: the pending header and n bytes of the body are written, and the header of the
        next chunk, if there is one, is put before the rest. */
    method SendChunk(mem: array<byte>, header: int, hSize: int, nSize: int, buffer: int, n: int, c: byte, cSize: int,
                     channel: int, ghost pend: seq<byte>, ghost rest: seq<byte>, ghost all: seq<byte>)
      returns (header': int, hSize': int, ghost pend': seq<byte>)
      requires Valid() && 2 <= channel < CHANNELS && cSize == ChannelBytes(channel)
      requires c % 64 == if channel > 319 then 1 else if channel > 63 then 0 else channel
      requires Ready(mem[..], header, hSize, buffer, pend, rest) && nSize == |rest|
      requires Pending(wire, pend, channel, rest, outChunkSize, all) && n == Min(outChunkSize, |rest|)
      modifies this`wire, mem
      ensures Ready(mem[..], header', hSize', buffer + n, pend', rest[n..])
      ensures Pending(wire, pend', channel, rest[n..], outChunkSize, all)
      ensures if n < |rest| then hSize' > 0 else hSize' == 0
    {
      hide Chunked, Pending, Basic, Ready;
      PendingStep(wire, pend, channel, rest, outChunkSize, all);
      ReadyAdjoin(mem[..], header, hSize, buffer, n, pend, rest);
      ghost var after := rest[n..];
      WriteN(mem, header, n + hSize);
      header', hSize', pend' := header, 0, [];
      if nSize - n > 0 {
        header', hSize' := NextHeader(mem, buffer + n, c, cSize, channel, after);
        pend' := Basic(3, channel);
        ReadyNext(mem[..], header', hSize', buffer + n, pend', after);
      } else {
        ReadyNone(mem[..], header, buffer + n, after);
      }
    }

    /** Chooses the header type from what the last packet of the channel had in common. */
    method CompressHeader(p: CPacket) returns (last: int)
      requires Valid() && p.Valid()
      modifies p`headerType
      ensures p.Valid() && p.headerType == Compress(vecChannelsOut[p.channel], old(p.Abs()))
      ensures (p.timestamp - last) % WORD == Delta(vecChannelsOut[p.channel], old(p.Abs()))
    {
      var prevPacket := vecChannelsOut[p.channel];
      last := 0;
      p.SizeIsBody();
      if prevPacket.Some? && p.headerType != 0 {
        if prevPacket.value.bodySize == p.bodySize && prevPacket.value.packetType == p.packetType && p.headerType == 1 {
          p.headerType := 2;
        }
        if prevPacket.value.timestamp == p.timestamp && p.headerType == 2 {
          p.headerType := 3;
        }
        last := prevPacket.value.timestamp;
      }
    }

    /** Writes the header so that it ends right before the body, or anywhere if there is none. */
    method PutHeader(p: CPacket, mem: array<byte>, nSize: int, t: int, cSize: int, c: byte, ghost m: Message)
      returns (header: int, hSize: int)
      requires p.Valid() && MessageOk(m) && 0 <= t < WORD && p.headerType <= 3 && nSize == HeaderSize(p.headerType)
      requires m.channel == p.channel && m.packetType == p.packetType && m.info == p.info && m.body == p.Body()
      requires cSize == ChannelBytes(p.channel)
      requires c == p.headerType * 64 + if p.channel > 319 then 1 else if p.channel > 63 then 0 else p.channel
      requires if p.block == null then mem.Length == MAX_HEADER_SIZE else mem == p.block
      modifies mem
      ensures 0 <= header && 0 < hSize && header + hSize <= mem.Length
      ensures mem[header..header + hSize] == Header(p.headerType, t, m)
      ensures p.block != null ==> p.Valid() && header + hSize == MAX_HEADER_SIZE && p.Body() == old(p.Body())
    {
      hide Patch, Header;
      var hend := MAX_HEADER_SIZE;
      if p.block != null {
        header := MAX_HEADER_SIZE - nSize;
      } else {
        header := 6;
      }
      hSize := nSize;
      if cSize != 0 {
        header := header - cSize;
        hSize := hSize + cSize;
      }
      if nSize > 1 && t >= MARKER {
        header := header - 4;
        hSize := hSize + 4;
      }
      ghost var was, bytes := mem[..], Header(p.headerType, t, m);
      p.SizeIsBody();
      HeaderBytes(p.headerType, t, m);
      WriteHeader(mem, header, hend, nSize, t, c, p.channel, p.bodySize, p.packetType, p.info, p.headerType, m);
      PatchRead(was, header, bytes, header + hSize);
      NothingAdded(bytes);
      if p.block != null {
        PatchAfter(was, header, bytes, MAX_HEADER_SIZE, MAX_HEADER_SIZE + p.bodySize);
        assert p.block[MAX_HEADER_SIZE..MAX_HEADER_SIZE + p.bodySize] == mem[..][MAX_HEADER_SIZE..MAX_HEADER_SIZE + p.bodySize];
      }
    }

    /** RTMP_SendPacket: the whole message goes out, exactly as its chunks are defined, and the
        channel remembers it. */
    method SendPacket(p: CPacket) returns (ok: bool)
      requires Valid() && p.Valid()
      modifies this`wire, vecChannelsOut, p`headerType, p.block
      ensures ok <==> old(p.headerType) <= 3
      ensures !ok ==> wire == old(wire) && vecChannelsOut[..] == old(vecChannelsOut[..])
      ensures ok ==>
        && wire == old(wire) + Wire(old(vecChannelsOut[p.channel]), old(p.Abs()), outChunkSize)
        && vecChannelsOut[..] == old(vecChannelsOut[..])[p.channel := Some(Remember(old(p.Abs())))]
    {
      hide Header, Chunked, Compress, Delta, Wire;
      ghost var m := p.Abs();
      ghost var prev := vecChannelsOut[p.channel];
      CompressRange(prev, m);
      var last := CompressHeader(p);
      if p.headerType > 3 {
        return false;
      }
      WireIsChunked(prev, m, outChunkSize);
      p.SizeIsBody();
      var nSize, cSize := HeaderSize(p.headerType), ChannelBytes(p.channel);
      var t := (p.timestamp - last) % WORD;
      var c := p.headerType * 64;
      if cSize == 0 {
        c := c + p.channel;
      } else if cSize == 2 {
        c := c + 1;
      }
      var mem := p.block;
      if mem == null {
        mem := new byte[MAX_HEADER_SIZE];
      }
      var header, hSize := PutHeader(p, mem, nSize, t, cSize, c, m);
      SendChunks(mem, header, hSize, c, cSize, p.channel, p.bodySize, m.body);
      vecChannelsOut[p.channel] := Some(Prev(p.packetType, p.timestamp, p.bodySize));
      return true;
    }
  }

  method WriteHeader(mem: array<byte>, header: int, hend: int, nSize: int, t: int, c: byte, channel: int, bodySize: int,
                     packetType: byte, info: int, ghost headerType: int, ghost m: Message)
    requires 0 <= headerType <= 3 && nSize == HeaderSize(headerType) && 0 <= t < WORD && MessageOk(m)
    requires channel == m.channel && bodySize == |m.body| && packetType == m.packetType && info == m.info
    requires c == headerType * 64 + if channel > 319 then 1 else if channel > 63 then 0 else channel
    requires 0 <= header && header + |Header(headerType, t, m)| <= hend <= mem.Length
    modifies mem
    ensures mem[..] == Patch(old(mem[..]), header, Header(headerType, t, m))
  {
    hide Patch, Basic, Fields;
    BasicBytes(c, channel);
    PatchMore(mem[..], header, Basic(headerType, channel), Fields(headerType, t, m));
    var hptr := PutBasic(mem, header, c, channel);
    PutFields(mem, hptr, hend, nSize, t, bodySize, packetType, info, headerType, m);
  }

  lemma HeaderBytes(headerType: int, t: int, m: Message)
    requires 0 <= headerType <= 3 && 2 <= m.channel < CHANNELS
    ensures |Header(headerType, t, m)| ==
            ChannelBytes(m.channel) + HeaderSize(headerType) + if headerType < 3 && t >= MARKER then 4 else 0
  {
    FieldsBytes(headerType, t, m);
  }

  lemma CompressRange(prev: Option<Prev>, m: Message)
    requires 0 <= m.headerType < 256
    ensures 0 <= Compress(prev, m) < 256 && (Compress(prev, m) <= 3 <==> m.headerType <= 3)
  {
  }

  /** A header waits in memory, right before the rest of the body. */
  ghost predicate Ready(mem: seq<byte>, header: int, hSize: int, buffer: int, pend: seq<byte>, rest: seq<byte>) {
    && 0 <= header && hSize == |pend| && header + hSize <= |mem| && mem[header..header + hSize] == pend
    && (|rest| > 0 ==>
          && MAX_HEADER_SIZE <= header + hSize == buffer && buffer + |rest| <= |mem|
          && mem[buffer..buffer + |rest|] == rest)
  }

  lemma ReadyStart(mem: seq<byte>, header: int, hSize: int, pend: seq<byte>, rest: seq<byte>)
    requires 0 <= header && 0 <= hSize && header + hSize <= |mem| && mem[header..header + hSize] == pend
    requires |rest| > 0 ==>
      && header + hSize == MAX_HEADER_SIZE && MAX_HEADER_SIZE + |rest| <= |mem|
      && mem[MAX_HEADER_SIZE..MAX_HEADER_SIZE + |rest|] == rest
    ensures Ready(mem, header, hSize, MAX_HEADER_SIZE, pend, rest)
  {
  }

  lemma ReadyEnd(mem: seq<byte>, header: int, hSize: int, buffer: int, pend: seq<byte>, rest: seq<byte>)
    requires Ready(mem, header, hSize, buffer, pend, rest) && |rest| + hSize == 0
    ensures pend == [] && rest == []
  {
  }

  lemma MinIs(n: int, size: int, left: int)
    requires n == if left < size then left else size
    ensures Min(size, left) == n
  {
  }

  /** Puts a minimal header right before the rest of the body, over bytes that are already sent. */
  method NextHeader(mem: array<byte>, buffer: int, c: byte, cSize: int, channel: int, ghost rest: seq<byte>)
    returns (header: int, hSize: int)
    requires 2 <= channel < CHANNELS && cSize == ChannelBytes(channel)
    requires c % 64 == if channel > 319 then 1 else if channel > 63 then 0 else channel
    requires MAX_HEADER_SIZE <= buffer && buffer + |rest| <= mem.Length && mem[buffer..buffer + |rest|] == rest
    modifies mem
    ensures 0 <= header && 0 < hSize && MAX_HEADER_SIZE <= header + hSize == buffer
    ensures mem[header..buffer] == Basic(3, channel) && mem[buffer..buffer + |rest|] == rest
  {
    hide Basic, Patch;
    hSize := 1;
    header := buffer - 1;
    if cSize != 0 {
      header := header - cSize;
      hSize := hSize + cSize;
    }
    BasicBytes(192 + c % 64, channel);
    PatchEnds(mem[..], header, channel, rest);
    var next := PutBasic(mem, header, 192 + c % 64, channel);
  }

  lemma PendingStart(wire: seq<byte>, header: seq<byte>, channel: int, body: seq<byte>, size: nat)
    requires size > 0 && 2 <= channel < CHANNELS
    ensures Pending(wire, header, channel, body, size, wire + (header + Chunked(channel, body, size)))
  {
  }

  /** The header and the body bytes that follow it in memory. */
  lemma ReadyAdjoin(mem: seq<byte>, header: int, hSize: int, buffer: int, n: int, pend: seq<byte>, rest: seq<byte>)
    requires Ready(mem, header, hSize, buffer, pend, rest) && 0 <= n <= |rest|
    ensures 0 <= header && 0 <= hSize && header + hSize + n <= |mem| && mem[header..header + hSize + n] == pend + rest[..n]
    ensures n < |rest| ==>
      MAX_HEADER_SIZE <= buffer + n && buffer + |rest| <= |mem| && mem[buffer + n..buffer + |rest|] == rest[n..]
  {
    Adjoin(mem, header, hSize, n, rest);
  }

  lemma ReadyNext(mem: seq<byte>, header: int, hSize: int, buffer: int, pend: seq<byte>, rest: seq<byte>)
    requires 0 <= header && 0 < hSize && MAX_HEADER_SIZE <= header + hSize == buffer && buffer + |rest| <= |mem|
    requires mem[header..buffer] == pend && mem[buffer..buffer + |rest|] == rest
    ensures Ready(mem, header, hSize, buffer, pend, rest)
  {
  }

  lemma ReadyNone(mem: seq<byte>, header: int, buffer: int, rest: seq<byte>)
    requires 0 <= header <= |mem| && rest == []
    ensures Ready(mem, header, 0, buffer, [], rest)
  {
  }

  lemma Adjoin(mem: seq<byte>, header: int, hSize: int, n: int, rest: seq<byte>)
    requires 0 <= header && 0 <= hSize && 0 <= n <= |rest| && header + hSize <= |mem|
    requires |rest| > 0 ==> header + hSize + |rest| <= |mem| && mem[header + hSize..header + hSize + |rest|] == rest
    ensures header + hSize + n <= |mem| && mem[header..header + hSize + n] == mem[header..header + hSize] + rest[..n]
    ensures n < |rest| ==> mem[header + hSize + n..header + hSize + |rest|] == rest[n..]
  {
    SliceSplit(mem, header, header + hSize, header + hSize + n);
    if |rest| > 0 {
      assert mem[header + hSize..header + hSize + n] == mem[header + hSize..header + hSize + |rest|][..n];
    }
  }

  /** Writing a minimal header right before rest leaves rest alone. */
  lemma PatchEnds(mem: seq<byte>, header: int, channel: int, rest: seq<byte>)
    requires 2 <= channel < CHANNELS && 0 <= header
    requires header + |Basic(3, channel)| + |rest| <= |mem|
    requires mem[header + |Basic(3, channel)|..header + |Basic(3, channel)| + |rest|] == rest
    ensures var n := |Basic(3, channel)|;
      var mem' := Patch(mem, header, Basic(3, channel));
      mem'[header..header + n] == Basic(3, channel) && mem'[header + n..header + n + |rest|] == rest
  {
  }
}
