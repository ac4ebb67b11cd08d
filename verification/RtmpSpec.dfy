/** RTMP chunking on byte strings: what RTMP_SendPacket puts on the wire, what RTMP_ReadPacket
    makes of it, and why every message comes out as it went in.  The chunk format is that of
    section 5.3.1 of Adobe's RTMP Specification 1.0. */
module RtmpSpec {
  import opened Options
  import opened Chunks
  import opened RtmpInts

  const CHANNELS := 65600
  const MARKER := 0xFFFFFF

  /** The number of header bytes with and after the basic header's first byte, by header type. */
  function HeaderSize(headerType: int): int {
    if headerType == 0 then 12 else if headerType == 1 then 8 else if headerType == 2 then 4 else 1
  }

  // ---------- The sender ----------

  datatype Message = Message(headerType: int, packetType: byte, channel: int, timestamp: int, info: int, body: seq<byte>)

  ghost predicate MessageOk(m: Message) {
    && 0 <= m.headerType <= 3 && 2 <= m.channel < CHANNELS
    && 0 <= m.timestamp < WORD && -WORD / 2 <= m.info < WORD / 2 && |m.body| < 0x100_0000
  }

  /** What the sender keeps of the last message of a channel. */
  datatype Prev = Prev(packetType: byte, timestamp: int, bodySize: int)

  /** The header type that is really sent: shorter if the last message had the same attributes. */
  function Compress(prev: Option<Prev>, m: Message): int {
    if prev.None? || m.headerType == 0 then m.headerType
    else
      var p := prev.value;
      var h := if p.bodySize == |m.body| && p.packetType == m.packetType && m.headerType == 1 then 2 else m.headerType;
      if p.timestamp == m.timestamp && h == 2 then 3 else h
  }

  /** The timestamp field: absolute in a large header, otherwise the distance from the last one. */
  function Delta(prev: Option<Prev>, m: Message): int {
    if prev.None? || m.headerType == 0 then m.timestamp % WORD else (m.timestamp - prev.value.timestamp) % WORD
  }

  /** The basic header: type and channel in one, two or three bytes. */
  function Basic(headerType: int, channel: int): seq<byte>
    requires 0 <= headerType <= 3 && 2 <= channel < CHANNELS
  {
    if channel > 319 then [headerType * 64 + 1, (channel - 64) % 256, (channel - 64) / 256]
    else if channel > 63 then [headerType * 64, (channel - 64) % 256]
    else [headerType * 64 + channel]
  }

  function Extended(headerType: int, t: int): seq<byte> {
    if headerType < 3 && t >= MARKER then Be32(t) else []
  }

  /** The message header, as long as its type says, and the extended timestamp. */
  function Fields(headerType: int, t: int, m: Message): seq<byte> {
    (if headerType < 3 then Be24(Min(t, MARKER)) else [])
    + (if headerType < 2 then Be24(|m.body|) + [m.packetType] else [])
    + (if headerType < 1 then Le32(m.info) else [])
    + Extended(headerType, t)
  }

  function Header(headerType: int, t: int, m: Message): seq<byte>
    requires 0 <= headerType <= 3 && 2 <= m.channel < CHANNELS
  {
    Basic(headerType, m.channel) + Fields(headerType, t, m)
  }

  /** The chunks after the first: a minimal header each, and up to size bytes of the body. */
  function Tail(channel: int, body: seq<byte>, size: nat): seq<byte>
    requires size > 0 && 2 <= channel < CHANNELS
    decreases |body|
  {
    if |body| == 0 then []
    else
      var n := Min(size, |body|);
      Basic(3, channel) + body[..n] + Tail(channel, body[n..], size)
  }

  /** Everything one message puts on the wire. */
  function Wire(prev: Option<Prev>, m: Message, size: nat): seq<byte>
    requires MessageOk(m) && size > 0
  {
    var n := Min(size, |m.body|);
    Header(Compress(prev, m), Delta(prev, m), m) + m.body[..n] + Tail(m.channel, m.body[n..], size)
  }

  function Remember(m: Message): Prev {
    Prev(m.packetType, m.timestamp, |m.body|)
  }

  // ---------- The reader ----------

  /** RTMPPacket on the receiving side; body is the whole buffer, once it is allocated. */
  datatype Packet = Packet(
    headerType: int,
    packetType: byte,
    hasAbsTimestamp: bool,
    channel: int,
    timestamp: int,
    info: int,
    bodySize: int,
    bytesRead: int,
    body: Option<seq<byte>>)

  ghost predicate PacketOk(p: Packet) {
    && 0 <= p.bytesRead <= p.bodySize < 0x100_0000
    && (p.body.Some? ==> |p.body.value| == p.bodySize)
  }

  /** m_vecChannelsIn and m_channelTimestamp. */
  datatype Reader = Reader(channels: seq<Option<Packet>>, stamps: seq<int>)

  ghost predicate ReaderOk(r: Reader) {
    && |r.channels| == |r.stamps| == CHANNELS
    && forall ch :: 0 <= ch < CHANNELS && r.channels[ch].Some? ==>
         PacketOk(r.channels[ch].value) && r.channels[ch].value.channel == ch
  }

  /** Type, channel and length of the basic header; None if the bytes run out. */
  datatype Start = Start(headerType: int, channel: int, length: int)

  function ParseBasic(b: seq<byte>): (s: Option<Start>)
    ensures s.Some? ==> 0 <= s.value.headerType <= 3 && 0 < s.value.length <= |b| && 2 <= s.value.channel < CHANNELS
  {
    if |b| < 1 then None
    else
      var headerType, low := b[0] / 64, b[0] % 64;
      if low == 0 then
        if |b| < 2 then None else Some(Start(headerType, b[1] as int + 64, 2))
      else if low == 1 then
        if |b| < 3 then None else Some(Start(headerType, b[2] as int * 256 + b[1] as int + 64, 3))
      else Some(Start(headerType, low, 1))
  }

  /** The packet before its header fields are read: in part that of the last message. */
  function Inherit(r: Reader, s: Start, p: Packet): Packet
    requires |r.channels| == CHANNELS && 0 <= s.channel < CHANNELS
  {
    var p1 := p.(headerType := s.headerType, channel := s.channel);
    if s.headerType == 0 then p1.(hasAbsTimestamp := true)
    else if r.channels[s.channel].Some? then r.channels[s.channel].value
    else p1
  }

  /** The packet with the fields of its header; h is the header after the basic header. */
  function ParseFields(headerType: int, h: seq<byte>, p: Packet): Packet
    requires 0 <= headerType <= 3 && |h| >= HeaderSize(headerType) - 1
  {
    if headerType == 3 then p
    else
      var p1 := p.(timestamp := Un24(h));
      if headerType == 2 then p1
      else
        var p2 := p1.(bodySize := Un24(h[3..]), bytesRead := 0, body := None, packetType := h[6]);
        if headerType == 1 then p2 else p2.(info := UnLe32(h[7..]))
  }

  datatype Parsed = Parsed(packet: Packet, length: int)

  /** The header after its first part s. */
  function ParseRest(s: Start, p: Packet, b: seq<byte>): (res: Option<Parsed>)
    requires 0 <= s.headerType <= 3 && 0 < s.length <= |b|
    ensures res.Some? ==> 0 < res.value.length <= |b|
  {
    var n := s.length + HeaderSize(s.headerType) - 1;
    if |b| < n then None
    else
      var p1 := ParseFields(s.headerType, b[s.length..], p);
      if s.headerType < 3 && p1.timestamp == MARKER then
        if |b| < n + 4 then None else Some(Parsed(p1.(timestamp := Un32(b[n..])), n + 4))
      else Some(Parsed(p1, n))
  }

  /** The whole header; None if the bytes run out. */
  function ParseHeader(r: Reader, p: Packet, b: seq<byte>): (res: Option<Parsed>)
    requires |r.channels| == CHANNELS
    ensures res.Some? ==> 0 < res.value.length <= |b|
  {
    var start := ParseBasic(b);
    if start.None? then None else ParseRest(start.value, Inherit(r, start.value, p), b)
  }

  function Zeros(n: int): (z: seq<byte>)
    requires n >= 0
    ensures |z| == n
  {
    seq(n, _ => 0)
  }

  /** A packet that expects a body and has no buffer gets one. */
  function Allocate(headerType: int, p: Packet): Packet
    requires p.bodySize >= 0
  {
    if p.bodySize > 0 && p.body.None? then p.(body := Some(Zeros(p.bodySize)), bytesRead := 0, headerType := headerType)
    else p
  }

  /** The packet with n more bytes of its body. */
  function Append(p: Packet, data: seq<byte>): (q: Packet)
    requires 0 <= p.bytesRead && (p.body.Some? ==> p.bytesRead + |data| <= |p.body.value|)
    ensures q == p.(bytesRead := p.bytesRead + |data|, body := q.body)
  {
    var p1 := p.(bytesRead := p.bytesRead + |data|);
    if p.body.None? then p1
    else
      var at := p.bytesRead;
      p1.(body := Some(p.body.value[..at] + data + p.body.value[at + |data|..]))
  }

  predicate IsReady(p: Packet) {
    p.bytesRead == p.bodySize
  }

  datatype Read = Failed | Got(reader: Reader, packet: Packet, rest: seq<byte>)

  /** Stores the packet for its channel; a complete one also gets its absolute timestamp. */
  function Finish(r: Reader, p: Packet, rest: seq<byte>): Read
    requires |r.channels| == |r.stamps| == CHANNELS && 0 <= p.channel < CHANNELS
  {
    var ch := p.channel;
    if IsReady(p) then
      var stamp := if p.hasAbsTimestamp then p.timestamp else (p.timestamp + r.stamps[ch]) % WORD;
      Got(Reader(r.channels[ch := Some(p.(body := None, bytesRead := 0, hasAbsTimestamp := false))],
                 r.stamps[ch := stamp]),
          p.(timestamp := stamp), rest)
    else Got(r.(channels := r.channels[ch := Some(p)]), p.(body := None), rest)
  }

  lemma FinishKeepsOk(r: Reader, p: Packet, rest: seq<byte>)
    requires ReaderOk(r) && PacketOk(p) && 0 <= p.channel < CHANNELS
    ensures var res := Finish(r, p, rest); res.Got? && ReaderOk(res.reader) && PacketOk(res.packet) && res.rest == rest
  {
  }

  /** One call of RTMP_ReadPacket: one chunk. */
  function ReadChunk(r: Reader, p: Packet, b: seq<byte>, size: nat): (res: Read)
    requires ReaderOk(r) && PacketOk(p)
    ensures res.Got? ==> ReaderOk(res.reader) && PacketOk(res.packet) && |res.rest| < |b|
  {
    var header := ParseHeader(r, p, b);
    if header.None? then Failed
    else
      HeaderKeepsOk(r, p, b);
      var p1 := Allocate(b[0] / 64, header.value.packet);
      var n := Min(size, p1.bodySize - p1.bytesRead);
      var rest := b[header.value.length..];
      if |rest| < n then Failed
      else
        FinishKeepsOk(r, Append(p1, rest[..n]), rest[n..]);
        Finish(r, Append(p1, rest[..n]), rest[n..])
  }

  lemma HeaderKeepsOk(r: Reader, p: Packet, b: seq<byte>)
    requires ReaderOk(r) && PacketOk(p) && ParseHeader(r, p, b).Some?
    ensures var p' := ParseHeader(r, p, b).value.packet; PacketOk(p') && 2 <= p'.channel < CHANNELS
  {
    var s := ParseBasic(b).value;
    if s.headerType < 2 {
      var h := b[s.length..][3..];
      assert 0 <= Un24(h) < 0x100_0000;
    }
  }

  /** Chunks are read until the message is complete. */
  function ReadMessage(r: Reader, p: Packet, b: seq<byte>, size: nat): (res: Read)
    requires ReaderOk(r) && PacketOk(p)
    ensures res.Got? ==> ReaderOk(res.reader) && PacketOk(res.packet)
    decreases |b|
  {
    var read := ReadChunk(r, p, b, size);
    if read.Failed? || IsReady(read.packet) then read
    else ReadMessage(read.reader, read.packet, read.rest, size)
  }

  // ---------- The format ----------

  /** The basic header of section 5.3.1.1 of Adobe's RTMP Specification 1.0: the type in the top two bits
      of the first byte; the channel in the others, or 0 or 1 there and the channel less 64 in one or two
      further bytes, the second of them counting 256. */
  lemma ChannelForm(headerType: int, channel: int)
    requires 0 <= headerType <= 3 && 2 <= channel < CHANNELS
    ensures var b := Basic(headerType, channel);
      && |b| == (if channel <= 63 then 1 else if channel <= 319 then 2 else 3) && b[0] / 64 == headerType
      && (|b| == 1 ==> b[0] % 64 == channel)
      && (|b| == 2 ==> b[0] % 64 == 0 && b[1] as int + 64 == channel)
      && (|b| == 3 ==> b[0] % 64 == 1 && b[2] as int * 256 + b[1] as int + 64 == channel)
  {
  }

  /** Worked examples: a large header with a second chunk. */
  lemma LargeExample(a: byte, b: byte, c: byte)
    ensures Wire(None, Message(0, 20, 3, 0x010203, 0x04050607, [a, b, c]), 2) ==
      [3, 1, 2, 3, 0, 0, 3, 20, 7, 6, 5, 4, a, b, 195, c]
  {
    hide Tail, Basic, Be24, Le32, Extended;
    var body := [a, b, c];
    var m := Message(0, 20, 3, 0x010203, 0x04050607, body);
    WholeTail(3, body, 2);
    assert Basic(0, 3) == [3] && Basic(3, 3) == [195] by { ChannelForm(0, 3); ChannelForm(3, 3); }
    assert Be24(0x010203) == [1, 2, 3] && Be24(3) == [0, 0, 3] && Le32(0x04050607) == [7, 6, 5, 4] by { ExampleBytes(); }
    NotExtended(0, 0x010203);
    assert Fields(0, 0x010203, m) == [1, 2, 3, 0, 0, 3, 20, 7, 6, 5, 4];
    assert body[..2] == [a, b] && body[2..] == [c];
  }

  /** A medium header for a new size, a small one for a new timestamp only, and a minimal one. */
  lemma ShortExamples(a: byte)
    ensures Wire(Some(Prev(8, 1000, 5)), Message(1, 9, 4, 1040, 0, [a]), 128) == [68, 0, 0, 40, 0, 0, 1, 9, a]
    ensures Wire(Some(Prev(9, 1000, 1)), Message(1, 9, 4, 1040, 0, [a]), 128) == [132, 0, 0, 40, a]
    ensures Wire(Some(Prev(9, 1040, 1)), Message(1, 9, 4, 1040, 0, [a]), 128) == [196, a]
  {
    hide Tail, Basic, Be24, Extended;
    var m := Message(1, 9, 4, 1040, 0, [a]);
    WholeTail(4, [a], 128);
    assert Basic(1, 4) == [68] && Basic(2, 4) == [132] && Basic(3, 4) == [196] by {
      ChannelForm(1, 4);
      ChannelForm(2, 4);
      ChannelForm(3, 4);
    }
    assert Be24(40) == [0, 0, 40] && Be24(1) == [0, 0, 1] by { ExampleBytes(); }
    NotExtended(1, 40);
    NotExtended(2, 40);
    NotExtended(3, 0);
    assert Fields(1, 40, m) == [0, 0, 40, 0, 0, 1, 9] && Fields(2, 40, m) == [0, 0, 40] && Fields(3, 0, m) == [];
    assert [a][..1] == [a];
  }

  /** A channel above 319, an extended timestamp and a negative stream number. */
  lemma ExtendedExample(a: byte)
    ensures Wire(None, Message(0, 9, 400, 0x01020304, -2, [a]), 128) ==
      [1, 80, 1, 255, 255, 255, 0, 0, 1, 9, 254, 255, 255, 255, 1, 2, 3, 4, a]
  {
    hide Tail, Basic, Be24, Be32, Le32;
    var m := Message(0, 9, 400, 0x01020304, -2, [a]);
    WholeTail(400, [a], 128);
    assert Basic(0, 400) == [1, 80, 1] by { ChannelForm(0, 400); }
    assert Be24(MARKER) == [255, 255, 255] && Be24(1) == [0, 0, 1] && Le32(-2) == [254, 255, 255, 255]
           && Be32(0x01020304) == [1, 2, 3, 4] by { ExampleBytes(); }
    assert Fields(0, 0x01020304, m) == [255, 255, 255, 0, 0, 1, 9, 254, 255, 255, 255, 1, 2, 3, 4];
    assert [a][..1] == [a];
  }

  lemma ExampleBytes()
    ensures Be24(0x010203) == [1, 2, 3] && Be24(3) == [0, 0, 3] && Be24(40) == [0, 0, 40] && Be24(1) == [0, 0, 1]
    ensures Be24(MARKER) == [255, 255, 255] && Be32(0x01020304) == [1, 2, 3, 4]
    ensures Le32(0x04050607) == [7, 6, 5, 4] && Le32(-2) == [254, 255, 255, 255]
  {
  }

  lemma NotExtended(headerType: int, t: int)
    requires t < MARKER
    ensures Extended(headerType, t) == []
  {
  }

  /** What follows the first chunk of a body of at most two chunks. */
  lemma WholeTail(channel: int, body: seq<byte>, size: nat)
    requires 2 <= channel < CHANNELS && 0 < |body| <= 2 * size
    ensures Tail(channel, body[Min(size, |body|)..], size) ==
      if |body| <= size then [] else Basic(3, channel) + body[size..]
  {
    if |body| > size {
      var rest := body[size..];
      assert rest[..|rest|] == rest && rest[|rest|..] == [];
      assert Tail(channel, [], size) == [];
    }
  }

  // ---------- One message ----------

  lemma ParseBasicWritten(headerType: int, channel: int, rest: seq<byte>)
    requires 0 <= headerType <= 3 && 2 <= channel < CHANNELS
    ensures var b := Basic(headerType, channel);
      ParseBasic(b + rest) == Some(Start(headerType, channel, |b|)) && (b + rest)[0] / 64 == headerType
  {
  }

  /** Where the fields of a header are found. */
  lemma FieldsParts(headerType: int, t: int, m: Message, rest: seq<byte>)
    requires 0 <= headerType <= 3 && MessageOk(m) && 0 <= t < WORD
    ensures var f := Fields(headerType, t, m) + rest;
      && |f| >= HeaderSize(headerType) - 1
      && (headerType < 3 ==> Un24(f) == Min(t, MARKER))
      && (headerType < 2 ==> Un24(f[3..]) == |m.body| && f[6] == m.packetType)
      && (headerType < 1 ==> UnLe32(f[7..]) == m.info)
      && f[HeaderSize(headerType) - 1..] == Extended(headerType, t) + rest
  {
    hide Be24, Le32, Un24, UnLe32, Extended, Fields;
    Sizes(t, m);
    var f := Fields(headerType, t, m) + rest;
    var ext := Extended(headerType, t) + rest;
    FieldsAre(headerType, t, m, rest);
    if headerType <= 1 {
      var info := if headerType == 0 then Le32(m.info) else [];
      Apart(Be24(Min(t, MARKER)), Be24(|m.body|), m.packetType, info, ext);
      Un24Be24(Min(t, MARKER), f[3..]);
      Un24Be24(|m.body|, f[6..]);
      if headerType == 0 {
        UnLe32Le32(m.info, ext);
      }
    } else if headerType == 2 {
      Un24Be24(Min(t, MARKER), ext);
      assert f[3..] == ext;
    } else {
      assert f[0..] == f;
    }
  }

  lemma FieldsAre(headerType: int, t: int, m: Message, rest: seq<byte>)
    requires 0 <= headerType <= 3
    ensures var stamp, ext := Be24(Min(t, MARKER)), Extended(headerType, t) + rest;
      Fields(headerType, t, m) + rest ==
      if headerType == 3 then ext
      else if headerType == 2 then stamp + ext
      else stamp + (Be24(|m.body|) + [m.packetType]) + (if headerType == 0 then Le32(m.info) else []) + ext
  {
    hide Be24, Le32, Extended, Min;
  }

  /** A timestamp and a size in three bytes each, a type, and what follows. */
  lemma Apart(a: seq<byte>, b: seq<byte>, x: byte, i: seq<byte>, ext: seq<byte>)
    requires |a| == 3 && |b| == 3
    ensures var f := a + (b + [x]) + i + ext;
      && f == a + f[3..] && f[3..] == b + f[6..] && f[6] == x && f[7..] == i + ext && f[7 + |i|..] == ext
  {
    var f := a + (b + [x]) + i + ext;
    assert f[..3] == a && f[3..6] == b;
    assert f == f[..3] + f[3..] && f[3..] == f[3..6] + f[6..];
  }

  lemma Sizes(t: int, m: Message)
    ensures |Be24(Min(t, MARKER))| == 3 && |Be24(|m.body|)| == 3 && |Le32(m.info)| == 4
  {
  }

  /** What the reader takes from the header of m. */
  function Announced(headerType: int, t: int, m: Message, p: Packet): Packet {
    if headerType == 3 then p
    else if headerType == 2 then p.(timestamp := t)
    else
      var q := p.(timestamp := t, bodySize := |m.body|, bytesRead := 0, body := None, packetType := m.packetType);
      if headerType == 1 then q else q.(info := m.info)
  }

  lemma ParseHeaderWritten(r: Reader, p: Packet, headerType: int, t: int, m: Message, rest: seq<byte>)
    requires ReaderOk(r) && 0 <= headerType <= 3 && MessageOk(m) && 0 <= t < WORD
    ensures var h := Header(headerType, t, m);
      ParseHeader(r, p, h + rest) ==
      Some(Parsed(Announced(headerType, t, m, Inherit(r, Start(headerType, m.channel, |Basic(headerType, m.channel)|), p)), |h|))
  {
    hide Basic, ParseBasic, Fields, Un24, Un32, UnLe32, Extended, Inherit;
    var basic, fields := Basic(headerType, m.channel), Fields(headerType, t, m);
    var b := Header(headerType, t, m) + rest;
    assert b == basic + (fields + rest) && b[|basic|..] == fields + rest;
    ParseBasicWritten(headerType, m.channel, fields + rest);
    FieldsParts(headerType, t, m, rest);
    ExtendedParts(headerType, t, rest);
    var n := |basic| + HeaderSize(headerType) - 1;
    assert b[n..] == (fields + rest)[HeaderSize(headerType) - 1..];
    assert |b| == |basic| + |fields| + |rest|;
    assert |b| - n == |Extended(headerType, t)| + |rest|;
  }

  lemma ExtendedParts(headerType: int, t: int, rest: seq<byte>)
    requires 0 <= headerType <= 3 && 0 <= t < WORD
    ensures if headerType < 3 && Min(t, MARKER) == MARKER
            then |Extended(headerType, t)| == 4 && Un32(Extended(headerType, t) + rest) == t
            else |Extended(headerType, t)| == 0 && (headerType < 3 ==> Min(t, MARKER) == t)
  {
    if headerType < 3 && t >= MARKER {
      Un32Be32(t, rest);
    }
  }

  /** The reader is in the middle of m: it has the first k bytes of the body. */
  ghost predicate Midway(q: Packet, m: Message, k: int) {
    && 0 <= k < |m.body| && q.channel == m.channel && q.packetType == m.packetType && q.bodySize == |m.body|
    && q.bytesRead == k && q.body.Some? && |q.body.value| == |m.body| && q.body.value[..k] == m.body[..k]
  }

  /** The reader has all of m. */
  ghost predicate Complete(q: Packet, m: Message) {
    && q.channel == m.channel && q.packetType == m.packetType && q.bodySize == q.bytesRead == |m.body|
    && q.body == if |m.body| == 0 then None else Some(m.body)
  }

  lemma AppendBody(q: Packet, m: Message, k: int, n: int)
    requires Midway(q, m, k) && 0 < n <= |m.body| - k
    ensures q.bytesRead + n <= |q.body.value|
    ensures var q' := Append(q, m.body[k..k + n]);
      && (k + n < |m.body| ==> Midway(q', m, k + n))
      && (k + n == |m.body| ==> Complete(q', m))
      && q' == q.(bytesRead := q'.bytesRead, body := q'.body)
  {
    var data := m.body[k..k + n];
    var body := q.body.value[..k] + data + q.body.value[k + n..];
    TakeSplit(m.body, k, k + n);
    assert body[..k + n] == q.body.value[..k] + data;
    if k + n == |m.body| {
      assert body == body[..k + n];
      TakeAll(m.body);
    }
  }

  /** The state of the reader once it has the packet q of a complete message. */
  function Settled(r: Reader, q: Packet): Reader
    requires |r.channels| == |r.stamps| == CHANNELS && 0 <= q.channel < CHANNELS
  {
    Finish(r, q.(bytesRead := q.bodySize), []).reader
  }

  function Stamp(r: Reader, q: Packet): int
    requires |r.stamps| == CHANNELS && 0 <= q.channel < CHANNELS
  {
    if q.hasAbsTimestamp then q.timestamp else (q.timestamp + r.stamps[q.channel]) % WORD
  }

  /** The first n bytes of the rest of the body have come in, followed by more. */
  lemma ChunkBody(r: Reader, q: Packet, m: Message, k: int, n: int, more: seq<byte>)
    requires ReaderOk(r) && MessageOk(m) && Midway(q, m, k) && 0 < n <= |m.body| - k
    ensures Append(q, m.body[k..k + n]).channel == m.channel
    ensures var res := Finish(r, Append(q, m.body[k..k + n]), more);
      if k + n < |m.body| then
        && res.packet.bytesRead < res.packet.bodySize
        && exists q' :: res.reader == r.(channels := r.channels[m.channel := Some(q')]) && Midway(q', m, k + n)
                     && q' == q.(bytesRead := k + n, body := q'.body)
      else
        && res.packet == q.(timestamp := Stamp(r, q), bytesRead := |m.body|, body := Some(m.body))
        && res.reader == Settled(r, q)
  {
    AppendBody(q, m, k, n);
  }

  /** What the reader has after the header of m, before the body. */
  function Opened(r: Reader, p: Packet, headerType: int, t: int, m: Message): Packet
    requires ReaderOk(r) && 0 <= headerType <= 3 && MessageOk(m)
  {
    Announced(headerType, t, m, Inherit(r, Start(headerType, m.channel, |Basic(headerType, m.channel)|), p))
  }

  lemma ReadChunkWritten(r: Reader, p: Packet, headerType: int, t: int, m: Message, data: seq<byte>, more: seq<byte>, size: nat)
    requires ReaderOk(r) && PacketOk(p) && 0 <= headerType <= 3 && MessageOk(m) && 0 <= t < WORD
    ensures PacketOk(Opened(r, p, headerType, t, m)) && Opened(r, p, headerType, t, m).channel == m.channel
    ensures var q := Allocate(headerType, Opened(r, p, headerType, t, m));
      |data| == Min(size, q.bodySize - q.bytesRead) ==>
        ReadChunk(r, p, Header(headerType, t, m) + (data + more), size) == Finish(r, Append(q, data), more)
  {
    hide ParseHeader, Header, Finish, Append, Announced, Inherit;
    var h := Header(headerType, t, m);
    var b := h + (data + more);
    ParseHeaderWritten(r, p, headerType, t, m, data + more);
    HeaderKeepsOk(r, p, b);
    OpenedChannel(r, p, headerType, t, m);
    FirstByte(headerType, t, m, data + more);
    assert b[|h|..] == data + more;
    assert (data + more)[..|data|] == data && (data + more)[|data|..] == more;
  }

  lemma OpenedChannel(r: Reader, p: Packet, headerType: int, t: int, m: Message)
    requires ReaderOk(r) && 0 <= headerType <= 3 && MessageOk(m)
    ensures Opened(r, p, headerType, t, m).channel == m.channel
  {
  }

  lemma FirstByte(headerType: int, t: int, m: Message, rest: seq<byte>)
    requires 0 <= headerType <= 3 && MessageOk(m)
    ensures |Header(headerType, t, m)| > 0 && (Header(headerType, t, m) + rest)[0] / 64 == headerType
  {
    hide Fields;
    ParseBasicWritten(headerType, m.channel, Fields(headerType, t, m) + rest);
  }

  lemma TailStep(channel: int, body: seq<byte>, size: nat, more: seq<byte>)
    requires |body| > 0 && size > 0 && 2 <= channel < CHANNELS
    ensures var n := Min(size, |body|);
      Tail(channel, body, size) + more == Basic(3, channel) + (body[..n] + (Tail(channel, body[n..], size) + more))
  {
    hide Basic;
    var n := Min(size, |body|);
    AppendAssoc(Basic(3, channel) + body[..n], Tail(channel, body[n..], size), more);
    AppendAssoc(Basic(3, channel), body[..n], Tail(channel, body[n..], size) + more);
  }

  lemma MinimalHeader(t: int, m: Message)
    requires MessageOk(m)
    ensures Header(3, t, m) == Basic(3, m.channel)
  {
    hide Basic;
  }

  /** The chunks after the first, read to the end of the message. */
  lemma {:induction false} TailReads(r: Reader, q: Packet, p: Packet, m: Message, k: int, size: nat, more: seq<byte>)
    requires ReaderOk(r) && PacketOk(p) && MessageOk(m) && Midway(q, m, k) && size > 0
    requires r.channels[m.channel] == Some(q)
    ensures ReadMessage(r, p, Tail(m.channel, m.body[k..], size) + more, size) ==
            Got(Settled(r, q), q.(timestamp := Stamp(r, q), bytesRead := |m.body|, body := Some(m.body)), more)
    decreases |m.body| - k
  {
    hide Tail, Basic, Header, ReadChunk, Finish, Append, Settled, Midway;
    MidwaySizes(q, m, k);
    var n := Min(size, |m.body| - k);
    var left := Tail(m.channel, m.body[k + n..], size) + more;
    TailStep(m.channel, m.body[k..], size, more);
    assert m.body[k..][..n] == m.body[k..k + n];
    DropDrop(m.body, k, n);
    MinimalHeader(0, m);
    ReadChunkWritten(r, p, 3, 0, m, m.body[k..k + n], left, size);
    assert Allocate(3, Opened(r, p, 3, 0, m)) == q;
    ChunkBody(r, q, m, k, n, left);
    var res := ReadChunk(r, p, Tail(m.channel, m.body[k..], size) + more, size);
    assert res == Finish(r, Append(q, m.body[k..k + n]), left);
    FinishIsGot(r, Append(q, m.body[k..k + n]), left);
    if k + n < |m.body| {
      var q' :| res.reader == r.(channels := r.channels[m.channel := Some(q')]) && Midway(q', m, k + n)
                && q' == q.(bytesRead := k + n, body := q'.body);
      TailReads(res.reader, q', res.packet, m, k + n, size, more);
      SameSettled(r, q, q');
    } else {
      assert m.body[k + n..] == [];
      NoTail(m.channel, size);
      assert left == more;
    }
  }

  lemma MidwaySizes(q: Packet, m: Message, k: int)
    requires Midway(q, m, k)
    ensures 0 <= k < |m.body| == q.bodySize && q.bytesRead == k && q.body.Some? && q.channel == m.channel
    ensures |q.body.value| == |m.body|
  {
  }

  lemma NoTail(channel: int, size: nat)
    requires size > 0 && 2 <= channel < CHANNELS
    ensures Tail(channel, [], size) == []
  {
  }

  lemma FinishIsGot(r: Reader, p: Packet, rest: seq<byte>)
    requires |r.channels| == |r.stamps| == CHANNELS && 0 <= p.channel < CHANNELS
    ensures Finish(r, p, rest).Got? && Finish(r, p, rest).rest == rest
  {
  }

  lemma SameSettled(r: Reader, q: Packet, q': Packet)
    requires |r.channels| == |r.stamps| == CHANNELS && 0 <= q.channel < CHANNELS
    requires q' == q.(bytesRead := q'.bytesRead, body := q'.body)
    ensures var r' := r.(channels := r.channels[q.channel := Some(q')]);
      Settled(r', q') == Settled(r, q) && Stamp(r', q') == Stamp(r, q)
  {
  }

  /** What the sender has told the reader: the last message of every channel and the last timestamp
      field sent for it. */
  datatype Sent = Sent(prevs: seq<Option<Prev>>, fields: seq<int>)

  ghost predicate Agree(prev: Option<Prev>, field: int, last: Option<Packet>, stamp: int) {
    0 <= field < WORD &&
    match prev
    case None => last.None? && stamp == 0
    case Some(v) =>
      && last.Some? && last.value.packetType == v.packetType && last.value.bodySize == v.bodySize
      && last.value.bytesRead == 0 && last.value.body.None? && !last.value.hasAbsTimestamp
      && last.value.timestamp == field
  }

  /** Between messages both sides remember the same about every channel. */
  ghost predicate Synced(s: Sent, r: Reader) {
    && ReaderOk(r) && |s.prevs| == |s.fields| == CHANNELS
    && forall ch {:trigger s.prevs[ch]} :: 0 <= ch < CHANNELS ==>
         Agree(s.prevs[ch], s.fields[ch], r.channels[ch], r.stamps[ch])
  }

  /** A short header is only allowed if what it leaves out is as in the last message. */
  ghost predicate Described(prev: Option<Prev>, m: Message) {
    m.headerType <= 1 || (prev.Some? && prev.value.bodySize == |m.body| && prev.value.packetType == m.packetType)
  }

  function Field(s: Sent, m: Message): int
    requires |s.prevs| == |s.fields| == CHANNELS && 0 <= m.channel < CHANNELS
  {
    if Compress(s.prevs[m.channel], m) < 3 then Delta(s.prevs[m.channel], m) else s.fields[m.channel]
  }

  function After(s: Sent, m: Message): Sent
    requires |s.prevs| == |s.fields| == CHANNELS && 0 <= m.channel < CHANNELS
  {
    Sent(s.prevs[m.channel := Some(Remember(m))], s.fields[m.channel := Field(s, m)])
  }

  /** The timestamp the reader gives to m. */
  function ReadStamp(s: Sent, r: Reader, m: Message): int
    requires Synced(s, r) && 0 <= m.channel < CHANNELS
  {
    if Compress(s.prevs[m.channel], m) == 0 then m.timestamp % WORD
    else (Field(s, m) + r.stamps[m.channel]) % WORD
  }

  lemma CompressOk(prev: Option<Prev>, m: Message)
    requires MessageOk(m) && Described(prev, m)
    ensures var h := Compress(prev, m);
      && 0 <= h <= 3 && (h == 0 <==> m.headerType == 0) && 0 <= Delta(prev, m) < WORD
      && (h >= 2 ==> prev.Some? && prev.value.bodySize == |m.body| && prev.value.packetType == m.packetType)
  {
  }

  /** The header of m tells the reader everything about m but its body. */
  lemma OpenedDescribes(s: Sent, r: Reader, p: Packet, m: Message)
    requires Synced(s, r) && PacketOk(p) && MessageOk(m) && Described(s.prevs[m.channel], m)
    ensures var h := Compress(s.prevs[m.channel], m);
      && 0 <= h <= 3
      && var q := Opened(r, p, h, Delta(s.prevs[m.channel], m), m);
      && q.channel == m.channel && q.packetType == m.packetType && q.bodySize == |m.body|
      && q.bytesRead == 0 && q.body.None? && q.timestamp == Field(s, m)
      && Stamp(r, q) == ReadStamp(s, r, m)
      && (h == 0 ==> q.info == m.info)
  {
    var prev := s.prevs[m.channel];
    CompressOk(prev, m);
    assert Agree(prev, s.fields[m.channel], r.channels[m.channel], r.stamps[m.channel]);
  }

  lemma SettledSyncs(s: Sent, r: Reader, q: Packet, m: Message)
    requires Synced(s, r) && MessageOk(m) && Complete(q, m) && q.timestamp == Field(s, m)
    ensures Synced(After(s, m), Settled(r, q))
    ensures Settled(r, q).stamps == r.stamps[m.channel := Stamp(r, q)]
  {
    var r' := Settled(r, q);
    var s' := After(s, m);
    forall ch {:trigger s'.prevs[ch]} | 0 <= ch < CHANNELS
      ensures Agree(s'.prevs[ch], s'.fields[ch], r'.channels[ch], r'.stamps[ch])
    {
      assert Agree(s.prevs[ch], s.fields[ch], r.channels[ch], r.stamps[ch]);
    }
  }

  lemma WireParts(prev: Option<Prev>, m: Message, size: nat, more: seq<byte>)
    requires MessageOk(m) && size > 0
    ensures var n := Min(size, |m.body|);
      Wire(prev, m, size) + more ==
      Header(Compress(prev, m), Delta(prev, m), m) + (m.body[..n] + (Tail(m.channel, m.body[n..], size) + more))
  {
    hide Header, Tail, Delta;
    var n := Min(size, |m.body|);
    var h := Header(Compress(prev, m), Delta(prev, m), m);
    AppendAssoc(h + m.body[..n], Tail(m.channel, m.body[n..], size), more);
    AppendAssoc(h, m.body[..n], Tail(m.channel, m.body[n..], size) + more);
  }

  /** A message that was sent is read whole, whatever packet the caller passes in and whatever
      follows, and leaves both sides in step. */
  lemma Delivered(s: Sent, r: Reader, p: Packet, m: Message, size: nat, more: seq<byte>)
    requires Synced(s, r) && PacketOk(p) && MessageOk(m) && Described(s.prevs[m.channel], m) && size > 0
    ensures var res := ReadMessage(r, p, Wire(s.prevs[m.channel], m, size) + more, size);
      && res.Got? && res.rest == more && Complete(res.packet, m)
      && res.packet.timestamp == ReadStamp(s, r, m)
      && Synced(After(s, m), res.reader)
      && res.reader.stamps == r.stamps[m.channel := ReadStamp(s, r, m)]
      && (m.headerType == 0 ==> res.packet.info == m.info)
      && (|m.body| > 0 ==> res.packet.headerType == Compress(s.prevs[m.channel], m))
  {
    hide Wire, Header, Compress, Delta, Tail, Opened, Field, ReadStamp, Settled, Described, Agree, ReadMessage, Allocate;
    var prev := s.prevs[m.channel];
    var h, t := Compress(prev, m), Delta(prev, m);
    CompressOk(prev, m);
    OpenedDescribes(s, r, p, m);
    WireParts(prev, m, size, more);
    MessageReads(r, p, h, t, m, size, more);
    var q := Whole(r, p, h, t, m);
    AllocateKeeps(h, Opened(r, p, h, t, m));
    SettledSyncs(s, r, q, m);
  }

  /** The packet of m with its whole body, before its timestamp is made absolute. */
  function Whole(r: Reader, p: Packet, headerType: int, t: int, m: Message): Packet
    requires ReaderOk(r) && PacketOk(p) && 0 <= headerType <= 3 && MessageOk(m) && 0 <= t < WORD
  {
    var q := Opened(r, p, headerType, t, m);
    if q.bodySize >= 0 then
      Allocate(headerType, q).(bytesRead := |m.body|, body := if |m.body| == 0 then None else Some(m.body))
    else q
  }

  lemma AllocateKeeps(headerType: int, q: Packet)
    requires q.bodySize >= 0
    ensures var q' := Allocate(headerType, q);
      && q' == q.(headerType := q'.headerType, bytesRead := q'.bytesRead, body := q'.body)
      && (q.bodySize > 0 && q.body.None? ==> q'.headerType == headerType)
  {
  }

  lemma MessageReads(r: Reader, p: Packet, headerType: int, t: int, m: Message, size: nat, more: seq<byte>)
    requires ReaderOk(r) && PacketOk(p) && 0 <= headerType <= 3 && MessageOk(m) && 0 <= t < WORD && size > 0
    requires var q := Opened(r, p, headerType, t, m);
      && q.channel == m.channel && q.packetType == m.packetType && q.bodySize == |m.body|
      && q.bytesRead == 0 && q.body.None?
    ensures var n := Min(size, |m.body|);
      var q := Whole(r, p, headerType, t, m);
      && q.channel == m.channel
      && ReadMessage(r, p, Header(headerType, t, m) + (m.body[..n] + (Tail(m.channel, m.body[n..], size) + more)), size)
         == Got(Settled(r, q), q.(timestamp := Stamp(r, q)), more)
  {
    hide Header, Tail, Finish, Opened, Settled, ReadChunk;
    var q := Allocate(headerType, Opened(r, p, headerType, t, m));
    var n := Min(size, |m.body|);
    var left := Tail(m.channel, m.body[n..], size) + more;
    ReadChunkWritten(r, p, headerType, t, m, m.body[..n], left, size);
    SettledAgain(r, q, |m.body|, if |m.body| == 0 then None else Some(m.body));
    var b := Header(headerType, t, m) + (m.body[..n] + left);
    if |m.body| == 0 {
      NoTail(m.channel, size);
      assert m.body[n..] == [] && m.body[..n] == [] && left == more;
      EmptyBody(r, q, more);
      ReadyAtOnce(r, p, b, size);
      assert Whole(r, p, headerType, t, m) == q;
    } else {
      assert Midway(q, m, 0);
      AfterFirst(r, q, p, m, n, size, more, b);
    }
  }

  lemma ReadyAtOnce(r: Reader, p: Packet, b: seq<byte>, size: nat)
    requires ReaderOk(r) && PacketOk(p) && ReadChunk(r, p, b, size).Got? && IsReady(ReadChunk(r, p, b, size).packet)
    ensures ReadMessage(r, p, b, size) == ReadChunk(r, p, b, size)
  {
    hide ReadChunk;
  }

  /** The first chunk of a body is read, and then the others. */
  lemma AfterFirst(r: Reader, q: Packet, p: Packet, m: Message, n: int, size: nat, more: seq<byte>, b: seq<byte>)
    requires ReaderOk(r) && PacketOk(p) && MessageOk(m) && Midway(q, m, 0) && size > 0
    requires |m.body| > 0 && n == Min(size, |m.body|) && |m.body[..n]| == n
    requires Append(q, m.body[..n]).channel == m.channel
    requires ReadChunk(r, p, b, size) == Finish(r, Append(q, m.body[..n]), Tail(m.channel, m.body[n..], size) + more)
    ensures ReadMessage(r, p, b, size) ==
            Got(Settled(r, q), q.(timestamp := Stamp(r, q), bytesRead := |m.body|, body := Some(m.body)), more)
  {
    hide Tail, Finish, Append, Settled, ReadChunk, Midway;
    var left := Tail(m.channel, m.body[n..], size) + more;
    MidwaySizes(q, m, 0);
    ChunkBody(r, q, m, 0, n, left);
    assert m.body[0..n] == m.body[..n];
    FinishIsGot(r, Append(q, m.body[..n]), left);
    if n < |m.body| {
      var res := ReadChunk(r, p, b, size);
      var q' :| res.reader == r.(channels := r.channels[m.channel := Some(q')]) && Midway(q', m, n)
                && q' == q.(bytesRead := n, body := q'.body);
      TailReads(res.reader, q', res.packet, m, n, size, more);
      SameSettled(r, q, q');
    } else {
      assert m.body[n..] == [];
      NoTail(m.channel, size);
      assert left == more;
    }
  }

  lemma SettledAgain(r: Reader, q: Packet, bytesRead: int, body: Option<seq<byte>>)
    requires |r.channels| == |r.stamps| == CHANNELS && 0 <= q.channel < CHANNELS
    ensures Settled(r, q.(bytesRead := bytesRead, body := body)) == Settled(r, q)
  {
  }

  lemma EmptyBody(r: Reader, q: Packet, more: seq<byte>)
    requires |r.channels| == |r.stamps| == CHANNELS && 0 <= q.channel < CHANNELS
    requires q.bodySize == q.bytesRead == 0 && q.body.None?
    ensures Finish(r, Append(q, []), more) == Got(Settled(r, q), q.(timestamp := Stamp(r, q)), more)
  {
  }

  // ---------- Whatever the reader was in the middle of ----------

  /** A large header starts afresh: its message is read whole from any state of the reader, and the other
      channels, also those in the middle of a message, stay as they are. */
  lemma LargeStartsAfresh(r: Reader, p: Packet, m: Message, t: int, size: nat, more: seq<byte>)
    requires ReaderOk(r) && PacketOk(p) && MessageOk(m) && 0 <= t < WORD && size > 0
    ensures var n := Min(size, |m.body|);
      var res := ReadMessage(r, p, Header(0, t, m) + (m.body[..n] + (Tail(m.channel, m.body[n..], size) + more)), size);
      && res.Got? && res.rest == more && Complete(res.packet, m)
      && res.packet.timestamp == t && res.packet.info == m.info
      && (forall ch :: 0 <= ch < CHANNELS && ch != m.channel ==>
            res.reader.channels[ch] == r.channels[ch] && res.reader.stamps[ch] == r.stamps[ch])
  {
    hide Header, Tail, ReadMessage, Allocate, Opened, Whole, Complete, Settled, Stamp;
    LargeOpens(r, p, t, m);
    MessageReads(r, p, 0, t, m, size, more);
    LargeIsWhole(r, p, t, m);
  }

  lemma LargeIsWhole(r: Reader, p: Packet, t: int, m: Message)
    requires ReaderOk(r) && PacketOk(p) && MessageOk(m) && 0 <= t < WORD
    ensures var q := Whole(r, p, 0, t, m);
      && q.channel == m.channel && Stamp(r, q) == t && Complete(q.(timestamp := t), m) && q.info == m.info
      && (forall ch :: 0 <= ch < CHANNELS && ch != m.channel ==>
            Settled(r, q).channels[ch] == r.channels[ch] && Settled(r, q).stamps[ch] == r.stamps[ch])
  {
    hide Allocate, Opened;
    LargeOpens(r, p, t, m);
    AllocateKeeps(0, Opened(r, p, 0, t, m));
  }

  lemma LargeOpens(r: Reader, p: Packet, t: int, m: Message)
    requires ReaderOk(r) && PacketOk(p) && MessageOk(m)
    ensures var q := Opened(r, p, 0, t, m);
      && q.channel == m.channel && q.packetType == m.packetType && q.bodySize == |m.body|
      && q.bytesRead == 0 && q.body.None? && q.timestamp == t && q.info == m.info && q.hasAbsTimestamp
  {
  }

  /** Reading a chunk touches only the channel it names. */
  lemma OthersStay(r: Reader, p: Packet, b: seq<byte>, size: nat, ch: int)
    requires ReaderOk(r) && PacketOk(p) && ReadChunk(r, p, b, size).Got? && 0 <= ch < CHANNELS
    requires ch != ParseBasic(b).value.channel
    ensures ReadChunk(r, p, b, size).reader.channels[ch] == r.channels[ch]
    ensures ReadChunk(r, p, b, size).reader.stamps[ch] == r.stamps[ch]
  {
    hide ParseBasic, ParseFields, Un32, Zeros;
    HeaderChannel(r, p, b);
  }

  lemma HeaderChannel(r: Reader, p: Packet, b: seq<byte>)
    requires ReaderOk(r) && PacketOk(p) && ParseHeader(r, p, b).Some?
    ensures ParseBasic(b).Some? && ParseHeader(r, p, b).value.packet.channel == ParseBasic(b).value.channel
  {
    hide ParseBasic, Un24, Un32, UnLe32;
  }

  // ---------- Whole runs ----------

  /** The reader's clock of a channel shows the timestamp of the last message. */
  ghost predicate Clocked(s: Sent, r: Reader) {
    && |s.prevs| == |r.stamps| == CHANNELS
    && forall ch {:trigger s.prevs[ch]} :: 0 <= ch < CHANNELS ==>
         r.stamps[ch] == match s.prevs[ch] case None => 0 case Some(v) => v.timestamp
  }

  /** A minimal header makes the reader add the last field again; that is right only by chance. */
  ghost predicate StampOk(s: Sent, m: Message)
    requires |s.prevs| == |s.fields| == CHANNELS && 0 <= m.channel < CHANNELS
  {
    var prev := s.prevs[m.channel];
    Compress(prev, m) == 3 && prev.Some? ==> (s.fields[m.channel] + prev.value.timestamp) % WORD == m.timestamp
  }

  /** When the reader's timestamp of a message is the sender's. */
  lemma StampExact(s: Sent, r: Reader, m: Message)
    requires Synced(s, r) && Clocked(s, r) && MessageOk(m) && Described(s.prevs[m.channel], m)
    ensures ReadStamp(s, r, m) == m.timestamp <==> StampOk(s, m)
    ensures m.headerType <= 1 ==>
      (StampOk(s, m) <==> (Compress(s.prevs[m.channel], m) == 3 ==> s.fields[m.channel] == 0))
  {
    var prev := s.prevs[m.channel];
    CompressOk(prev, m);
    assert Agree(prev, s.fields[m.channel], r.channels[m.channel], r.stamps[m.channel]);
    if prev.Some? {
      DeltaAdds(m.timestamp, prev.value.timestamp);
      AddsNothing(s.fields[m.channel], m.timestamp);
    }
  }

  lemma DeltaAdds(now: int, last: int)
    requires 0 <= now < WORD
    ensures ((now - last) % WORD + last) % WORD == now
  {
    var q := (now - last) / WORD;
    assert (now - last) % WORD + last == now - q * WORD;
  }

  lemma AddsNothing(field: int, stamp: int)
    requires 0 <= field < WORD && 0 <= stamp < WORD
    ensures (field + stamp) % WORD == stamp <==> field == 0
  {
  }

  lemma ClockKept(s: Sent, r: Reader, m: Message, r': Reader)
    requires Clocked(s, r) && |s.fields| == CHANNELS && 0 <= m.channel < CHANNELS
    requires r'.stamps == r.stamps[m.channel := m.timestamp]
    ensures Clocked(After(s, m), r')
  {
    var s' := After(s, m);
    forall ch {:trigger s'.prevs[ch]} | 0 <= ch < CHANNELS
      ensures r'.stamps[ch] == match s'.prevs[ch] case None => 0 case Some(v) => v.timestamp
    {
      assert ch != m.channel ==> s'.prevs[ch] == s.prevs[ch];
    }
  }

  ghost predicate Sendable(s: Sent, ms: seq<Message>)
    requires |s.prevs| == |s.fields| == CHANNELS
    decreases |ms|
  {
    |ms| > 0 ==>
      && MessageOk(ms[0]) && Described(s.prevs[ms[0].channel], ms[0])
      && Sendable(After(s, ms[0]), ms[1..])
  }

  ghost predicate StampsOk(s: Sent, ms: seq<Message>)
    requires |s.prevs| == |s.fields| == CHANNELS && Sendable(s, ms)
    decreases |ms|
  {
    |ms| > 0 ==> StampOk(s, ms[0]) && StampsOk(After(s, ms[0]), ms[1..])
  }

  /** Everything a run of messages puts on the wire. */
  function SendAll(s: Sent, ms: seq<Message>, size: nat): seq<byte>
    requires |s.prevs| == |s.fields| == CHANNELS && Sendable(s, ms) && size > 0
    decreases |ms|
  {
    if |ms| == 0 then []
    else Wire(s.prevs[ms[0].channel], ms[0], size) + SendAll(After(s, ms[0]), ms[1..], size)
  }

  /** Reads as many messages as there are packets to read them into. */
  function ReadAll(r: Reader, into: seq<Packet>, b: seq<byte>, size: nat): Option<(seq<Packet>, seq<byte>)>
    requires ReaderOk(r) && forall i :: 0 <= i < |into| ==> PacketOk(into[i])
    decreases |into|
  {
    if |into| == 0 then Some(([], b))
    else
      var read := ReadMessage(r, into[0], b, size);
      if read.Failed? then None
      else
        var others := ReadAll(read.reader, into[1..], read.rest, size);
        if others.None? then None else Some(([read.packet] + others.value.0, others.value.1))
  }

  /** Every message of a run arrives whole and in order, over any mix of channels, whatever packets
      the caller reads into. */
  lemma {:induction false} RunDelivered(s: Sent, r: Reader, ms: seq<Message>, into: seq<Packet>, size: nat, more: seq<byte>)
    requires Synced(s, r) && Sendable(s, ms) && size > 0
    requires |into| == |ms| && forall i :: 0 <= i < |into| ==> PacketOk(into[i])
    ensures var res := ReadAll(r, into, SendAll(s, ms, size) + more, size);
      && res.Some? && res.value.1 == more && |res.value.0| == |ms|
      && (forall i :: 0 <= i < |ms| ==> Complete(res.value.0[i], ms[i]))
      && (forall i :: 0 <= i < |ms| && ms[i].headerType == 0 ==> res.value.0[i].info == ms[i].info)
    decreases |ms|
  {
    hide Wire, ReadMessage, Complete, Synced, After, ReadStamp;
    SyncedSizes(s, r);
    if |ms| == 0 {
      assert SendAll(s, ms, size) + more == more;
    } else {
      var m := ms[0];
      var w := Wire(s.prevs[m.channel], m, size);
      AfterSizes(s, m);
      var others := SendAll(After(s, m), ms[1..], size);
      AppendAssoc(w, others, more);
      Delivered(s, r, into[0], m, size, others + more);
      var res := ReadMessage(r, into[0], w + (others + more), size);
      RunDelivered(After(s, m), res.reader, ms[1..], into[1..], size, more);
    }
  }

  lemma SyncedSizes(s: Sent, r: Reader)
    requires Synced(s, r)
    ensures ReaderOk(r) && |s.prevs| == |s.fields| == CHANNELS
  {
  }

  lemma AfterSizes(s: Sent, m: Message)
    requires |s.prevs| == |s.fields| == CHANNELS && 0 <= m.channel < CHANNELS
    ensures |After(s, m).prevs| == |After(s, m).fields| == CHANNELS
  {
  }

  /** All timestamps of a run arrive exactly when no minimal header repeats a field that is not 0. */
  lemma {:induction false} RunStamps(s: Sent, r: Reader, ms: seq<Message>, into: seq<Packet>, size: nat, more: seq<byte>)
    requires Synced(s, r) && Clocked(s, r) && Sendable(s, ms) && size > 0
    requires |into| == |ms| && forall i :: 0 <= i < |into| ==> PacketOk(into[i])
    ensures var res := ReadAll(r, into, SendAll(s, ms, size) + more, size);
      && res.Some? && |res.value.0| == |ms|
      && ((forall i :: 0 <= i < |ms| ==> res.value.0[i].timestamp == ms[i].timestamp) <==> StampsOk(s, ms))
    decreases |ms|
  {
    hide Wire, ReadMessage, Complete, Synced, After, ReadStamp, StampOk, Clocked;
    RunDelivered(s, r, ms, into, size, more);
    SyncedSizes(s, r);
    if |ms| > 0 {
      var m := ms[0];
      var w := Wire(s.prevs[m.channel], m, size);
      AfterSizes(s, m);
      var others := SendAll(After(s, m), ms[1..], size);
      AppendAssoc(w, others, more);
      Delivered(s, r, into[0], m, size, others + more);
      StampExact(s, r, m);
      var res := ReadMessage(r, into[0], w + (others + more), size);
      var packets := ReadAll(r, into, SendAll(s, ms, size) + more, size).value.0;
      assert packets[0] == res.packet;
      if StampOk(s, m) {
        ClockKept(s, r, m, res.reader);
        RunStamps(After(s, m), res.reader, ms[1..], into[1..], size, more);
        var tail := ReadAll(res.reader, into[1..], others + more, size).value.0;
        assert packets == [res.packet] + tail;
        assert forall i :: 0 <= i < |tail| ==> packets[i + 1] == tail[i] && ms[i + 1] == ms[1..][i];
        if forall i :: 0 <= i < |tail| ==> tail[i].timestamp == ms[1..][i].timestamp {
          forall i | 0 <= i < |ms|
            ensures packets[i].timestamp == ms[i].timestamp
          {
            assert i > 0 ==> tail[i - 1].timestamp == ms[1..][i - 1].timestamp;
          }
        }
      }
    }
  }

  /** No message that starts with a minimal header comes after a timestamp field other than 0. */
  ghost predicate NoRepeats(s: Sent, ms: seq<Message>)
    requires |s.prevs| == |s.fields| == CHANNELS && Sendable(s, ms)
    decreases |ms|
  {
    |ms| > 0 ==>
      && (Compress(s.prevs[ms[0].channel], ms[0]) == 3 ==> s.fields[ms[0].channel] == 0)
      && NoRepeats(After(s, ms[0]), ms[1..])
  }

  ghost predicate FieldsFit(s: Sent) {
    |s.prevs| == |s.fields| == CHANNELS && forall ch :: 0 <= ch < CHANNELS ==> 0 <= s.fields[ch] < WORD
  }

  /** For messages given as LARGE or MEDIUM that is all there is to the timestamps of a run. */
  lemma {:induction false} StampsExact(s: Sent, ms: seq<Message>)
    requires FieldsFit(s) && Sendable(s, ms) && forall i :: 0 <= i < |ms| ==> ms[i].headerType <= 1
    ensures StampsOk(s, ms) <==> NoRepeats(s, ms)
    decreases |ms|
  {
    hide StampOk, Compress, Sendable;
    if |ms| > 0 {
      var m := ms[0];
      RestIsSendable(s, ms);
      FirstStamp(s, m);
      StampsExact(After(s, m), ms[1..]);
    }
  }

  lemma RestIsSendable(s: Sent, ms: seq<Message>)
    requires |s.prevs| == |s.fields| == CHANNELS && Sendable(s, ms) && |ms| > 0
    ensures MessageOk(ms[0]) && AfterIsSendable(s, ms)
  {
  }

  ghost predicate AfterIsSendable(s: Sent, ms: seq<Message>)
    requires |s.prevs| == |s.fields| == CHANNELS && |ms| > 0 && MessageOk(ms[0])
  {
    AfterSizes(s, ms[0]);
    Sendable(After(s, ms[0]), ms[1..])
  }

  lemma FirstStamp(s: Sent, m: Message)
    requires FieldsFit(s) && MessageOk(m) && m.headerType <= 1
    ensures StampOk(s, m) <==> (Compress(s.prevs[m.channel], m) == 3 ==> s.fields[m.channel] == 0)
    ensures FieldsFit(After(s, m))
  {
    AddsNothing(s.fields[m.channel], m.timestamp);
  }

  /** Before the first message nothing is remembered on either side. */
  lemma InitialSync(s: Sent, r: Reader)
    requires s.prevs == seq(CHANNELS, _ => None) && s.fields == seq(CHANNELS, _ => 0)
    requires r.channels == seq(CHANNELS, _ => None) && r.stamps == seq(CHANNELS, _ => 0)
    ensures Synced(s, r) && Clocked(s, r)
  {
  }

  /** Two messages alike in all but their bodies: the second is read as one step later. */
  lemma StaleTimestamp(s: Sent, m: Message)
    requires s.prevs == seq(CHANNELS, _ => None) && s.fields == seq(CHANNELS, _ => 0)
    requires m == Message(1, 8, 4, 40, 0, [1, 2, 3])
    ensures Sendable(s, [m, m]) && !StampsOk(s, [m, m])
  {
    assert [m, m][1..] == [m];
    assert Sendable(After(s, m), [m]);
    assert Compress(After(s, m).prevs[4], m) == 3;
    assert !StampsOk(After(s, m), [m]);
  }
}
