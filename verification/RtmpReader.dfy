/** RTMP_ReadPacket: one chunk is read, its header completed from the last message of its channel,
    and its part of the body put where it belongs. */
module RtmpReader {
  import opened Options
  import opened Chunks
  import opened RtmpInts
  import opened RtmpSpec

  class CRtmp {
    var input: seq<byte>                          // what the socket still has to deliver
    const inChunkSize: nat
    const vecChannelsIn: array<Option<Packet>>
    const channelTimestamp: array<int>

    ghost function Abs(): Reader
      reads vecChannelsIn, channelTimestamp
    {
      Reader(vecChannelsIn[..], channelTimestamp[..])
    }

    ghost predicate Valid()
      reads vecChannelsIn, channelTimestamp
    {
      ReaderOk(Abs())
    }

    constructor (chunkSize: nat, input: seq<byte>)
      ensures Valid() && this.input == input && inChunkSize == chunkSize
      ensures Abs() == Reader(seq(CHANNELS, _ => None), seq(CHANNELS, _ => 0))
      ensures fresh(vecChannelsIn) && fresh(channelTimestamp)
    {
      this.input := input;
      inChunkSize := chunkSize;
      vecChannelsIn := new Option<Packet>[CHANNELS](_ => None);
      channelTimestamp := new int[CHANNELS](_ => 0);
      new;
      assert Abs().channels == seq(CHANNELS, _ => None) && Abs().stamps == seq(CHANNELS, _ => 0);
    }

    /** Up to n bytes; fewer only if the connection has no more. */
    method ReadN(n: nat) returns (got: seq<byte>)
      modifies this`input
      ensures got == old(input)[..Min(n, |old(input)|)] && input == old(input)[|got|..]
    {
      var k := if n < |input| then n else |input|;
      got := input[..k];
      input := input[k..];
    }

    method ReadBasic() returns (ok: bool, headerType: int, channel: int, ghost length: nat)
      modifies this`input
      ensures ParseBasic(old(input)).None? ==> !ok
      ensures ParseBasic(old(input)).Some? ==>
        ok && ParseBasic(old(input)).value == Start(headerType, channel, length) && input == old(input)[length..]
    {
      headerType, channel, length := 0, 0, 0;
      ghost var was := input;
      var hbuf := ReadN(1);
      if |hbuf| == 0 {
        return false, 0, 0, 0;
      }
      headerType, channel, length := hbuf[0] / 64, hbuf[0] % 64, 1;
      if channel == 0 {
        var more := ReadN(1);
        if |more| != 1 {
          return false, 0, 0, 0;
        }
        assert more[0] == was[1];
        channel := more[0] as int + 64;
        length := 2;
      } else if channel == 1 {
        var more := ReadN(2);
        if |more| != 2 {
          return false, 0, 0, 0;
        }
        assert more[0] == was[1] && more[1] == was[2];
        var tmp := more[1] as int * 256 + more[0] as int;
        channel := tmp + 64;
        length := 3;
      }
      ok := true;
    }

    /** The header of a chunk, completed from the last message of its channel. */
    method ReadHeader(p: Packet) returns (ok: bool, headerType: int, packet: Packet)
      requires Valid() && PacketOk(p)
      modifies this`input
      ensures ParseHeader(Abs(), p, old(input)).None? ==> !ok
      ensures ParseHeader(Abs(), p, old(input)).Some? ==>
        var parsed := ParseHeader(Abs(), p, old(input)).value;
        ok && packet == parsed.packet && input == old(input)[parsed.length..] && headerType == old(input)[0] / 64
    {
      hide ParseBasic, ParseRest;
      packet := p;
      ghost var was := input;
      var channel;
      ghost var length;
      ok, headerType, channel, length := ReadBasic();
      BasicType(was);
      if !ok {
        return;
      }
      packet := packet.(headerType := headerType, channel := channel);
      var nSize := HeaderSize(headerType);
      if nSize == 12 {
        packet := packet.(hasAbsTimestamp := true);
      } else if vecChannelsIn[channel].Some? {
        packet := vecChannelsIn[channel].value;
      }
      ok, packet := ReadFields(packet, nSize - 1, Start(headerType, channel, length), was);
    }

    /** The fields of a header, as many as its size says, and the extended timestamp. */
    method ReadFields(p: Packet, nSize: int, ghost start: Start, ghost was: seq<byte>) returns (ok: bool, packet: Packet)
      requires 0 <= start.headerType <= 3 && 0 < start.length <= |was| && nSize == HeaderSize(start.headerType) - 1
      requires input == was[start.length..]
      modifies this`input
      ensures ParseRest(start, p, was).None? ==> !ok
      ensures ParseRest(start, p, was).Some? ==>
        var parsed := ParseRest(start, p, was).value; ok && packet == parsed.packet && input == was[parsed.length..]
    {
      hide Un24, UnLe32, Un32;
      packet := p;
      ghost var length := start.length;
      var header := ReadN(nSize);
      if |header| != nSize {
        return false, packet;
      }
      FieldsOf(was, length, nSize, header);
      DropDrop(was, length, nSize);
      if nSize >= 3 {
        packet := Fill(packet, nSize, header);
        if packet.timestamp == 0xFFFFFF {
          var more := ReadN(4);
          if |more| != 4 {
            return false, packet;
          }
          DropDrop(was, length + nSize, 4);
          FourBytes(was, length + nSize, more);
          packet := packet.(timestamp := Un32(more));
        }
      }
      ok := true;
    }

    static method Fill(p: Packet, nSize: int, header: seq<byte>) returns (packet: Packet)
      requires nSize == |header| && (nSize == 3 || nSize == 7 || nSize == 11)
      ensures packet == ParseFields(if nSize == 3 then 2 else if nSize == 7 then 1 else 0, header, p)
    {
      packet := p.(timestamp := Un24(header));
      if nSize >= 6 {
        packet := packet.(bodySize := Un24(header[3..]), bytesRead := 0, body := None);
        if nSize > 6 {
          packet := packet.(packetType := header[6]);
          if nSize == 11 {
            packet := packet.(info := UnLe32(header[7..]));
          }
        }
      }
    }

    static lemma FourBytes(b: seq<byte>, n: nat, more: seq<byte>)
      requires n + 4 <= |b| && more == b[n..][..4]
      ensures Un32(more) == Un32(b[n..])
    {
    }

    static lemma BasicType(b: seq<byte>)
      ensures ParseBasic(b).Some? ==> |b| > 0 && ParseBasic(b).value.headerType == b[0] / 64
    {
    }

    static lemma FieldsOf(b: seq<byte>, length: nat, nSize: nat, header: seq<byte>)
      requires length + nSize <= |b| && header == b[length..][..nSize]
      ensures nSize >= 3 ==> Un24(header) == Un24(b[length..])
      ensures nSize >= 7 ==> Un24(header[3..]) == Un24(b[length..][3..]) && header[6] == b[length..][6]
      ensures nSize >= 11 ==> UnLe32(header[7..]) == UnLe32(b[length..][7..])
    {
    }

    /** One chunk.  When it succeeds it does what ReadChunk says to the tables, the packet and the
        input; when the input ends too early the tables are as before. */
    method ReadPacket(p: Packet) returns (ok: bool, packet: Packet)
      requires Valid() && PacketOk(p)
      modifies this`input, vecChannelsIn, channelTimestamp
      ensures Valid()
      ensures match ReadChunk(old(Abs()), p, old(input), inChunkSize)
              case Failed => !ok && Abs() == old(Abs())
              case Got(reader, p', rest) => ok && Abs() == reader && packet == p' && input == rest
    {
      hide ParseHeader, Finish, Append;
      ghost var was := input;
      var headerType;
      ok, headerType, packet := ReadHeader(p);
      if !ok {
        return;
      }
      ghost var length := ParseHeader(Abs(), p, was).value.length;
      HeaderKeepsOk(Abs(), p, was);
      if packet.bodySize > 0 && packet.body.None? {
        packet := packet.(body := Some(Zeros(packet.bodySize)), bytesRead := 0, headerType := headerType);
      }
      var nToRead := packet.bodySize - packet.bytesRead;
      var nChunk := inChunkSize;
      if nToRead < nChunk {
        nChunk := nToRead;
      }
      ghost var rest := input;
      var data := ReadN(nChunk);
      if |data| != nChunk {
        return false, packet;
      }
      packet := Store(Append(packet, data), input);
      assert ReadChunk(old(Abs()), p, was, inChunkSize) == Got(Abs(), packet, input);
    }

    /** Keeps the packet for its channel; a complete one also gets its absolute timestamp. */
    method Store(p: Packet, ghost rest: seq<byte>) returns (packet: Packet)
      requires Valid() && 0 <= p.channel < CHANNELS
      modifies vecChannelsIn, channelTimestamp
      ensures Finish(old(Abs()), p, rest) == Got(Abs(), packet, rest)
    {
      packet := p;
      var ch := packet.channel;
      vecChannelsIn[ch] := Some(packet);
      if IsReady(packet) {
        if !packet.hasAbsTimestamp {
          packet := packet.(timestamp := (packet.timestamp + channelTimestamp[ch]) % WORD);
        }
        channelTimestamp[ch] := packet.timestamp;
        vecChannelsIn[ch] := Some(vecChannelsIn[ch].value.(body := None, bytesRead := 0, hasAbsTimestamp := false));
      } else {
        packet := packet.(body := None);
      }
    }
  }
}
