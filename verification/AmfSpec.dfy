/** AMF0 on byte strings: what the encoder writes into a given room, what the decoder makes of it,
    and how much room it takes for nothing to get lost.  The formats are those of sections 2.2 to
    2.5, 2.11 and 2.14 of the AMF0 specification. */
module AmfSpec {
  import opened Options
  import opened Chunks
  import opened RtmpInts

  /** A double by its eight bytes in the order of the machine. */
  type Double = s: seq<byte> | |s| == 8 witness [0, 0, 0, 0, 0, 0, 0, 0]

  datatype Value =
    | Number(bits: Double)
    | Boolean(flag: bool)
    | Str(text: seq<byte>)
    | Null
    | Object(props: seq<Prop>)
    | Invalid

  datatype Prop = Prop(name: seq<byte>, value: Value)

  const NUMBER: byte := 0
  const BOOLEAN: byte := 1
  const STRING: byte := 2
  const OBJECT: byte := 3
  const NULL: byte := 5
  const UNDEFINED: byte := 6
  const OBJECT_END: byte := 9
  const LONG_STRING: byte := 12
  const UNSUPPORTED: byte := 13

  function Reverse(s: Double): (r: Double)
  {
    [s[7], s[6], s[5], s[4], s[3], s[2], s[1], s[0]]
  }

  // ---------- Encoding into a room of so many bytes; None stands for NULL ----------

  function EncodeString(s: seq<byte>, room: int): Option<seq<byte>> {
    if room < 5 + |s| then None
    else if |s| < 65536 then Some([STRING] + Be16(|s|) + s)
    else Some([LONG_STRING] + Be32(|s|) + s)
  }

  function EncodeValue(v: Value, room: int): (res: Option<seq<byte>>)
    ensures res.Some? ==> 0 < |res.value| <= room
    decreases v, 0
  {
    match v
    case Number(bits) => if room < 9 then None else Some([NUMBER] + Reverse(bits))
    case Boolean(flag) => if room < 2 then None else Some([BOOLEAN, if flag then 1 else 0])
    case Str(text) => EncodeString(text, room)
    case Null => if room <= 1 then None else Some([NULL])
    case Object(props) =>
      if room <= 4 then None
      else
        var body := EncodeProps(props, room - 1);
        if room - 1 - |body| <= 3 then None else Some([OBJECT] + body + Be24(OBJECT_END))
    case Invalid => None
  }

  /** The name as it is written: not at all for a null property or an empty name. */
  function NameBytes(p: Prop): seq<byte> {
    if p.value.Null? || p.name == [] then [] else Be16(|p.name|) + p.name
  }

  function EncodeProp(p: Prop, room: int): (res: Option<seq<byte>>)
    ensures res.Some? ==> 0 < |res.value| <= room
    decreases p, 1
  {
    if !p.value.Null? && |p.name| + 3 >= room then None
    else
      var name := NameBytes(p);
      var value := EncodeValue(p.value, room - |name|);
      if value.None? then None else Some(name + value.value)
  }

  /** The properties up to the first that fails. */
  function EncodeProps(props: seq<Prop>, room: int): (body: seq<byte>)
    ensures room >= 0 ==> |body| <= room
    decreases props
  {
    if |props| == 0 then []
    else
      var first := EncodeProp(props[0], room);
      if first.None? then [] else first.value + EncodeProps(props[1..], room - |first.value|)
  }

  // ---------- Decoding ----------

  datatype Decoded<T> = Bad | Good(value: T, used: nat)

  function DecodeValue(b: seq<byte>): (res: Decoded<Value>)
    ensures res.Good? ==> 0 < res.used <= |b|
    decreases |b|, 0
  {
    if |b| == 0 then Bad
    else
      var rest := b[1..];
      if b[0] == NUMBER then
        if |rest| < 8 then Bad else Good(Number(Reverse(rest[..8])), 9)
      else if b[0] == BOOLEAN then
        if |rest| < 1 then Bad else Good(Boolean(rest[0] != 0), 2)
      else if b[0] == STRING then
        if |rest| < 2 || |rest| < Un16(rest) + 2 then Bad
        else Good(Str(rest[2..2 + Un16(rest)]), 3 + Un16(rest))
      else if b[0] == OBJECT then
        var inner := DecodeProps(rest, false);
        if inner.Bad? then Bad else Good(Object(inner.value), 1 + inner.used)
      else if b[0] == NULL || b[0] == UNDEFINED || b[0] == UNSUPPORTED then Good(Null, 1)
      else if b[0] == LONG_STRING then
        if |rest| < 4 || |rest| < Un32(rest) + 4 then Bad
        else Good(Str(rest[4..4 + Un32(rest)]), 5 + Un32(rest))
      else Bad
  }

  function DecodeProp(b: seq<byte>, withName: bool): (res: Decoded<Prop>)
    ensures res.Good? ==> 0 < res.used <= |b|
    decreases |b|, 1
  {
    if |b| == 0 || (withName && |b| < 4) then Bad
    else if withName && Un16(b) > |b| - 2 then Bad
    else
      var start := if withName then 2 + Un16(b) else 0;
      var value := DecodeValue(b[start..]);
      if value.Bad? then Bad
      else Good(Prop(if withName then b[2..start] else [], value.value), start + value.used)
  }

  /** The properties up to the end mark.  After an error bytes are skipped until the mark. */
  function DecodeProps(b: seq<byte>, error: bool): (res: Decoded<seq<Prop>>)
    ensures res.Good? ==> res.used <= |b|
    decreases |b|, if error then 2 else 3
  {
    if |b| == 0 then if error then Bad else Good([], 0)
    else if |b| >= 3 && Un24(b) == OBJECT_END as int then Good([], 3)
    else if error then
      var rest := DecodeProps(b[1..], true);
      if rest.Bad? then Bad else Good(rest.value, 1 + rest.used)
    else
      var first := DecodeProp(b, true);
      if first.Bad? then DecodeProps(b, true)
      else
        var rest := DecodeProps(b[first.used..], false);
        if rest.Bad? then Bad else Good([first.value] + rest.value, first.used + rest.used)
  }

  // ---------- The format ----------

  /** Worked examples of every kind of value, in the formats of sections 2.2 to 2.5: the number 1.0 by
      its IEEE bytes, a boolean, a short string, and null in its three forms. */
  lemma FormatExamples(x: byte)
    ensures EncodeValue(Number([0, 0, 0, 0, 0, 0, 0xf0, 0x3f]), 100) == Some([0, 0x3f, 0xf0, 0, 0, 0, 0, 0, 0])
    ensures EncodeValue(Boolean(true), 100) == Some([1, 1]) && EncodeValue(Boolean(false), 100) == Some([1, 0])
    ensures EncodeValue(Str([x, 7]), 100) == Some([2, 0, 2, x, 7])
    ensures EncodeValue(Null, 100) == Some([5])
    ensures DecodeValue([6]) == DecodeValue([13]) == Good(Null, 1)
  {
    assert [NUMBER] + Reverse([0, 0, 0, 0, 0, 0, 0xf0, 0x3f]) == [0, 0x3f, 0xf0, 0, 0, 0, 0, 0, 0];
    assert Be16(2) == [0, 2] && [STRING] + Be16(2) + [x, 7] == [2, 0, 2, x, 7];
  }

  /** An object with one property. */
  lemma ObjectExample(x: byte)
    ensures EncodeValue(Object([Prop([x], Boolean(true))]), 100) == Some([3, 0, 1, x, 1, 1, 0, 0, 9])
  {
    hide EncodeProp, EncodeProps;
    var p := Prop([x], Boolean(true));
    NamedFlag(x);
    OneProp(p, 99, [0, 1, x, 1, 1]);
    assert Be24(OBJECT_END) == [0, 0, 9];
    assert [OBJECT] + [0, 1, x, 1, 1] + Be24(OBJECT_END) == [3, 0, 1, x, 1, 1, 0, 0, 9];
  }

  lemma NamedFlag(x: byte)
    ensures EncodeProp(Prop([x], Boolean(true)), 99) == Some([0, 1, x, 1, 1])
  {
    var p := Prop([x], Boolean(true));
    assert NameBytes(p) == [0, 1, x];
    assert EncodeValue(p.value, 96) == Some([1, 1]);
    assert NameBytes(p) + [1, 1] == [0, 1, x, 1, 1];
  }

  lemma OneProp(p: Prop, room: int, b: seq<byte>)
    requires EncodeProp(p, room) == Some(b)
    ensures EncodeProps([p], room) == b
  {
    assert [p][1..] == [] && EncodeProps([], room - |b|) == [];
    assert b + [] == b;
  }

  /** A property without a name is written as its value alone, but needs the room of one with a name. */
  lemma UnnamedExample()
    ensures EncodeProp(Prop([], Boolean(true)), 4) == Some([1, 1])
    ensures EncodeProp(Prop([], Boolean(true)), 3) == None
  {
    assert NameBytes(Prop([], Boolean(true))) + [1, 1] == [1, 1];
  }

  /** A string is short exactly if its length fits 16 bits. */
  lemma StringForm(s: seq<byte>, room: int)
    requires EncodeString(s, room).Some? && |s| < WORD
    ensures var b := EncodeString(s, room).value;
      if |s| < 65536 then b[0] == 2 && Positional(b[1..3]) == |s| && b[3..] == s
      else b[0] == 12 && Positional(b[1..5]) == |s| && b[5..] == s
  {
    hide Positional;
    BigEndian(|s|);
    var b := EncodeString(s, room).value;
    if |s| < 65536 {
      assert b[1..3] == Be16(|s|);
    } else {
      assert b[1..5] == Be32(|s|);
    }
  }

  // ---------- What arrives ----------

  /** Every property has a name that fits its length field, and a value other than null. */
  ghost predicate WellFormed(v: Value)
    decreases v
  {
    match v
    case Str(text) => |text| < 0x8000_0000
    case Object(props) => forall i :: 0 <= i < |props| ==> 0 < |props[i].name| < 65536 && WellFormed(props[i].value)
    case Null => false
    case Invalid => false
    case _ => true
  }

  ghost predicate Named(p: Prop) {
    0 < |p.name| < 65536 && WellFormed(p.value)
  }

  /** The value without the properties there was no room for. */
  function Prune(v: Value, room: int): Value
    decreases v, 0
  {
    match v
    case Object(props) => Object(PruneProps(props, room - 1))
    case _ => v
  }

  function PruneProp(p: Prop, room: int): Prop
    decreases p, 1
  {
    Prop(p.name, Prune(p.value, room - |NameBytes(p)|))
  }

  function PruneProps(props: seq<Prop>, room: int): seq<Prop>
    decreases props
  {
    if |props| == 0 then []
    else
      var first := EncodeProp(props[0], room);
      if first.None? then [] else [PruneProp(props[0], room)] + PruneProps(props[1..], room - |first.value|)
  }

  // ---------- Whatever is written can be read ----------

  lemma ReverseTwice(bits: Double)
    ensures Reverse(Reverse(bits)) == bits
  {
  }

  lemma StringReads(s: seq<byte>, room: int, rest: seq<byte>)
    requires |s| < 0x8000_0000 && EncodeString(s, room).Some?
    ensures var b := EncodeString(s, room).value; DecodeValue(b + rest) == Good(Str(s), |b|)
  {
    hide Be16, Be32, Un16, Un32;
    var b := EncodeString(s, room).value;
    var tail := (b + rest)[1..];
    LengthWidths(|s|);
    if |s| < 65536 {
      assert tail == Be16(|s|) + (s + rest);
      Un16Be16(|s|, s + rest);
      assert tail[2..2 + |s|] == s;
    } else {
      assert tail == Be32(|s|) + (s + rest);
      Un32Be32(|s|, s + rest);
      assert tail[4..4 + |s|] == s;
    }
  }

  lemma LengthWidths(n: int)
    ensures |Be16(n)| == 2 && |Be32(n)| == 4 && |Be24(n)| == 3
  {
  }

  lemma NumberReads(bits: Double, rest: seq<byte>)
    ensures DecodeValue([NUMBER] + Reverse(bits) + rest) == Good(Number(bits), 9)
  {
    hide Reverse;
    var b := [NUMBER] + Reverse(bits) + rest;
    assert b[1..][..8] == Reverse(bits);
    ReverseTwice(bits);
  }

  lemma BooleanReads(flag: bool, rest: seq<byte>)
    ensures DecodeValue([BOOLEAN, if flag then 1 else 0] + rest) == Good(Boolean(flag), 2)
  {
  }

  lemma ObjectReads(b: seq<byte>, props: seq<Prop>, used: nat)
    requires |b| > 0 && b[0] == OBJECT && DecodeProps(b[1..], false) == Good(props, used)
    ensures DecodeValue(b) == Good(Object(props), 1 + used)
  {
    hide DecodeProps;
  }

  /** An encoded value is read back, without the properties there was no room for. */
  lemma {:induction false} ValueReads(v: Value, room: int, rest: seq<byte>)
    requires WellFormed(v) && EncodeValue(v, room).Some?
    ensures var b := EncodeValue(v, room).value; DecodeValue(b + rest) == Good(Prune(v, room), |b|)
    decreases v, 0
  {
    hide DecodeValue, DecodeProps, EncodeString;
    var b := EncodeValue(v, room).value;
    match v
    case Number(bits) =>
      NumberReads(bits, rest);
    case Boolean(flag) =>
      BooleanReads(flag, rest);
    case Str(text) =>
      StringReads(text, room, rest);
    case Object(props) =>
      var body := EncodeProps(props, room - 1);
      assert (b + rest)[1..] == body + (Be24(OBJECT_END) + rest);
      forall i | 0 <= i < |props| ensures Named(props[i]) {}
      PropsRead(props, room - 1, rest);
      LengthWidths(OBJECT_END);
      ObjectReads(b + rest, PruneProps(props, room - 1), |body| + 3);
  }

  lemma {:induction false} PropReads(p: Prop, room: int, rest: seq<byte>)
    requires Named(p) && EncodeProp(p, room).Some?
    ensures var b := EncodeProp(p, room).value;
      && DecodeProp(b + rest, true) == Good(PruneProp(p, room), |b|)
      && |b| >= 4 && Un16(b) == |p.name|
    decreases p, 1
  {
    hide DecodeValue, EncodeValue, Prune, Un16, Be16;
    NameReads(p.name, EncodeValue(p.value, room - |NameBytes(p)|).value, rest);
    ValueReads(p.value, room - |NameBytes(p)|, rest);
  }

  /** Where the name and the value of a property are found. */
  lemma NameReads(name: seq<byte>, value: seq<byte>, rest: seq<byte>)
    requires 0 < |name| < 65536 && |value| > 0
    ensures var b := Be16(|name|) + name + value;
      && |b| == 2 + |name| + |value| && |Be16(|name|) + name| == 2 + |name|
      && Un16(b) == Un16(b + rest) == |name|
      && (b + rest)[2..2 + |name|] == name && (b + rest)[2 + |name|..] == value + rest
  {
    hide Be16, Un16;
    LengthWidths(|name|);
    var b := Be16(|name|) + name + value;
    assert b + rest == Be16(|name|) + (name + value + rest) && b == Be16(|name|) + (name + value);
    Un16Be16(|name|, name + value + rest);
    Un16Be16(|name|, name + value);
  }

  lemma {:induction false} PropsRead(props: seq<Prop>, room: int, rest: seq<byte>)
    requires forall i :: 0 <= i < |props| ==> Named(props[i])
    ensures var body := EncodeProps(props, room);
      DecodeProps(body + (Be24(OBJECT_END) + rest), false) == Good(PruneProps(props, room), |body| + 3)
    decreases props, 2
  {
    hide EncodeProp, DecodeProp, PruneProp, Named, Be24, Un24;
    var body := EncodeProps(props, room);
    var end := Be24(OBJECT_END) + rest;
    LengthWidths(OBJECT_END);
    Un24Be24(OBJECT_END, rest);
    if |props| == 0 || EncodeProp(props[0], room).None? {
      assert body + end == end;
    } else {
      var first := EncodeProp(props[0], room).value;
      var more := EncodeProps(props[1..], room - |first|) + end;
      assert body + end == first + more;
      PropReads(props[0], room, more);
      NotTheEnd(props[0], room, more);
      PropsRead(props[1..], room - |first|, rest);
      assert (first + more)[|first|..] == more;
    }
  }

  /** A name is never taken for the end mark. */
  lemma NotTheEnd(p: Prop, room: int, rest: seq<byte>)
    requires Named(p) && EncodeProp(p, room).Some?
    requires |EncodeProp(p, room).value| >= 4 && Un16(EncodeProp(p, room).value) == |p.name|
    ensures Un24(EncodeProp(p, room).value + rest) != OBJECT_END as int
  {
    hide EncodeProp;
  }

  // ---------- How much room it takes ----------

  /** The size of a value that is written whole. */
  function Size(v: Value): nat
    decreases v
  {
    match v
    case Number(_) => 9
    case Boolean(_) => 2
    case Str(text) => (if |text| < 65536 then 3 else 5) + |text|
    case Object(props) => 4 + SizeProps(props)
    case _ => 1
  }

  function SizeProps(props: seq<Prop>): nat
    decreases props
  {
    if |props| == 0 then 0 else 2 + |props[0].name| + Size(props[0].value) + SizeProps(props[1..])
  }

  /** The least room in which the encoder writes all of a value.  It asks for two bytes more than a
      short string needs and for one byte after the end mark of an object. */
  function Room(v: Value): nat
    decreases v
  {
    match v
    case Number(_) => 9
    case Boolean(_) => 2
    case Str(text) => 5 + |text|
    case Object(props) => 1 + RoomProps(props)
    case _ => 2
  }

  function RoomProps(props: seq<Prop>): (r: nat)
    ensures r >= 4
    decreases props
  {
    if |props| == 0 then 4
    else
      var name, value := 2 + |props[0].name|, props[0].value;
      Max(name + Room(value), name + Size(value) + RoomProps(props[1..]))
  }

  /** A value is written whole exactly if it has its room. */
  lemma {:induction false} RoomExact(v: Value, room: int)
    requires WellFormed(v)
    ensures EncodeValue(v, room).Some? && Prune(v, room) == v <==> room >= Room(v)
    ensures room >= Room(v) ==> EncodeValue(v, room).Some? && |EncodeValue(v, room).value| == Size(v)
    ensures Room(v) >= 2
    decreases v, 0
  {
    match v
    case Object(props) =>
      forall i | 0 <= i < |props| ensures Named(props[i]) {}
      RoomPropsExact(props, room - 1);
      LengthWidths(OBJECT_END);
    case Str(text) =>
      LengthWidths(|text|);
    case _ =>
  }

  lemma {:induction false} RoomPropExact(p: Prop, room: int)
    requires Named(p)
    ensures var whole := room >= 2 + |p.name| + Room(p.value);
      && (EncodeProp(p, room).Some? && PruneProp(p, room) == p <==> whole)
      && (whole ==> EncodeProp(p, room).Some? && |EncodeProp(p, room).value| == 2 + |p.name| + Size(p.value))
    decreases p, 1
  {
    hide EncodeValue, Prune, Room, Size;
    LengthWidths(|p.name|);
    RoomExact(p.value, room - |NameBytes(p)|);
  }

  lemma {:induction false} RoomPropsExact(props: seq<Prop>, room: int)
    requires forall i :: 0 <= i < |props| ==> Named(props[i])
    ensures PruneProps(props, room) == props && room - |EncodeProps(props, room)| > 3 <==> room >= RoomProps(props)
    ensures room >= RoomProps(props) ==> |EncodeProps(props, room)| == SizeProps(props)
    decreases props, 2
  {
    hide EncodeProp, PruneProp, Room, Size, Named;
    if |props| > 0 {
      var p := props[0];
      RoomPropExact(p, room);
      if EncodeProp(p, room).Some? {
        var left := room - |EncodeProp(p, room).value|;
        RoomPropsExact(props[1..], left);
        ConsEqual(PruneProp(p, room), PruneProps(props[1..], left), p, props[1..]);
        assert [p] + props[1..] == props;
      }
    }
  }

  lemma ConsEqual<T>(x: T, xs: seq<T>, y: T, ys: seq<T>)
    ensures [x] + xs == [y] + ys <==> x == y && xs == ys
  {
    if [x] + xs == [y] + ys {
      assert ([x] + xs)[0] == x && ([y] + ys)[0] == y;
      assert ([x] + xs)[1..] == xs && ([y] + ys)[1..] == ys;
    }
  }

  /** With enough room nothing is lost: the decoder returns an equal tree and consumes exactly what
      was written, whatever follows. */
  lemma RoundTrip(v: Value, room: int, rest: seq<byte>)
    requires WellFormed(v) && room >= Room(v)
    ensures EncodeValue(v, room).Some?
    ensures DecodeValue(EncodeValue(v, room).value + rest) == Good(v, Size(v))
  {
    RoomExact(v, room);
    ValueReads(v, room, rest);
  }

  lemma PropRoundTrip(p: Prop, room: int, rest: seq<byte>)
    requires Named(p) && room >= 2 + |p.name| + Room(p.value)
    ensures EncodeProp(p, room).Some?
    ensures DecodeProp(EncodeProp(p, room).value + rest, true) == Good(p, 2 + |p.name| + Size(p.value))
  {
    RoomPropExact(p, room);
    PropReads(p, room, rest);
  }

  /** With less room the encoder fails, or it reports success and the tree arrives incomplete. */
  lemma TooLittleRoom(v: Value, room: int, rest: seq<byte>)
    requires WellFormed(v) && room < Room(v) && EncodeValue(v, room).Some?
    ensures var b := EncodeValue(v, room).value;
      DecodeValue(b + rest) == Good(Prune(v, room), |b|) && Prune(v, room) != v
  {
    RoomExact(v, room);
    ValueReads(v, room, rest);
  }

  /** A null property is written without its name, and takes the rest of its object with it. */
  lemma NullIsLost(flag: bool)
    ensures var v := Object([Prop([97], Null), Prop([98], Boolean(flag))]);
      && EncodeValue(v, 100) == Some([3, 5, 0, 1, 98, 1, if flag then 1 else 0, 0, 0, 9])
      && DecodeValue(EncodeValue(v, 100).value) == Good(Object([]), 10)
  {
    hide DecodeProps;
    NullBytes(flag);
    var last: byte := if flag then 1 else 0;
    var b: seq<byte> := [5, 0, 1, 98, 1, last, 0, 0, 9];
    assert [3, 5, 0, 1, 98, 1, last, 0, 0, 9][1..] == b;
    NullSkips(b);
  }

  lemma NullBytes(flag: bool)
    ensures EncodeValue(Object([Prop([97], Null), Prop([98], Boolean(flag))]), 100)
            == Some([3, 5, 0, 1, 98, 1, if flag then 1 else 0, 0, 0, 9])
  {
    hide Be16;
    var last: byte := if flag then 1 else 0;
    var p, q := Prop([97], Null), Prop([98], Boolean(flag));
    SmallInts();
    assert NameBytes(q) == [0, 1, 98];
    assert EncodeProp(q, 98) == Some([0, 1, 98] + [1, last]);
    assert [p, q][1..] == [q] && [q][1..] == [];
    assert EncodeProps([q], 98) == [0, 1, 98, 1, last];
    assert NameBytes(p) == [];
    assert EncodeValue(Null, 99) == Some([5]) && [] + [5] == [5];
    assert EncodeProp(p, 99) == Some([5]);
    var body := EncodeProps([p, q], 99);
    assert body == [5, 0, 1, 98, 1, last];
    assert [OBJECT] + body + [0, 0, 9] == [3, 5, 0, 1, 98, 1, last, 0, 0, 9];
  }

  lemma SmallInts()
    ensures Be16(1) == [0, 1] && Be24(OBJECT_END) == [0, 0, 9]
  {
  }

  /** The null byte and the first byte of the next name are taken for the length of a long name. */
  lemma NullSkips(b: seq<byte>)
    requires |b| == 9 && b[0] == 5 && b[1] == 0 && b[2] == 1 && b[3] == 98 && b[6..] == [0, 0, 9]
    ensures DecodeProps(b, false) == Good([], 9)
  {
    assert b[7] == 0 && b[8] == 9;
    assert DecodeProp(b, true) == Bad;
    forall i | 0 <= i < 6
      ensures Un24(b[i..]) != OBJECT_END as int
    {
      assert b[i..][0] == b[i] && b[i..][1] == b[i + 1] && b[i..][2] == b[i + 2];
    }
    SkipToEnd(b, 6);
    assert b[0..] == b;
  }

  /** Bytes before the end mark are skipped after an error. */
  lemma {:induction false} SkipToEnd(b: seq<byte>, n: nat)
    requires |b| == n + 3 && Un24(b[n..]) == OBJECT_END as int
    requires forall i :: 0 <= i < n ==> Un24(b[i..]) != OBJECT_END as int
    ensures DecodeProps(b, true) == Good([], n + 3)
  {
    assert b[0..] == b;
    if n > 0 {
      DropDrop(b, 1, n - 1);
      forall i | 0 <= i < n - 1
        ensures b[1..][i..] == b[i + 1..]
      {
        DropDrop(b, 1, i);
      }
      SkipToEnd(b[1..], n - 1);
    }
  }

  // ---------- Exactly which values survive ----------

  /** Lengths are ints. */
  ghost predicate LengthsFit(v: Value)
    decreases v
  {
    match v
    case Str(text) => |text| < 0x8000_0000
    case Object(props) => forall i :: 0 <= i < |props| ==> LengthsFit(props[i].value)
    case _ => true
  }

  /** No property, at any depth, is null or has no name. */
  ghost predicate AllNamed(v: Value)
    decreases v
  {
    match v
    case Object(props) => forall i :: 0 <= i < |props| ==> PropNamed(props[i])
    case _ => true
  }

  ghost predicate PropNamed(p: Prop)
    decreases p
  {
    p.name != [] && !p.value.Null? && AllNamed(p.value)
  }

  /** Values the decoder can return. */
  ghost predicate Readable(v: Value)
    decreases v
  {
    match v
    case Object(props) => forall i :: 0 <= i < |props| ==> PropReadable(props[i])
    case Invalid => false
    case _ => true
  }

  ghost predicate PropReadable(p: Prop)
    decreases p
  {
    |p.name| < 65536 && Readable(p.value)
  }

  /** What the decoder returns takes at least its size, unless the input ends there: only then an
      object may be without its end mark. */
  lemma {:induction false} ReadSize(b: seq<byte>)
    requires DecodeValue(b).Good?
    ensures Readable(DecodeValue(b).value)
    ensures DecodeValue(b).used < |b| ==> DecodeValue(b).used >= Size(DecodeValue(b).value)
    decreases |b|, 0
  {
    if b[0] == OBJECT {
      ReadSizeProps(b[1..], false);
    }
  }

  lemma {:induction false} ReadSizeProp(b: seq<byte>)
    requires DecodeProp(b, true).Good?
    ensures PropReadable(DecodeProp(b, true).value)
    ensures var p := DecodeProp(b, true);
      p.used < |b| ==> p.used >= 2 + |p.value.name| + Size(p.value.value)
    decreases |b|, 1
  {
    ReadSize(b[2 + Un16(b)..]);
  }

  lemma {:induction false} ReadSizeProps(b: seq<byte>, error: bool)
    requires DecodeProps(b, error).Good?
    ensures forall i :: 0 <= i < |DecodeProps(b, error).value| ==> PropReadable(DecodeProps(b, error).value[i])
    ensures DecodeProps(b, error).used < |b| ==> DecodeProps(b, error).used >= 3 + SizeProps(DecodeProps(b, error).value)
    decreases |b|, if error then 2 else 3
  {
    if |b| == 0 || (|b| >= 3 && Un24(b) == OBJECT_END as int) {
    } else if error {
      ReadSizeProps(b[1..], true);
    } else {
      var first := DecodeProp(b, true);
      if first.Bad? {
        ReadSizeProps(b, true);
      } else {
        ReadSizeProp(b);
        ReadSizeProps(b[first.used..], false);
      }
    }
  }

  /** What is written is as long as the value, or shorter: if a property is null or has no name. */
  lemma {:induction false} WrittenSize(v: Value, room: int)
    requires EncodeValue(v, room).Some?
    ensures |EncodeValue(v, room).value| <= Size(v)
    ensures |EncodeValue(v, room).value| == Size(v) ==> AllNamed(v)
    decreases v, 0
  {
    if v.Object? {
      WrittenSizeProps(v.props, room - 1);
    }
  }

  lemma {:induction false} WrittenSizeProp(p: Prop, room: int)
    requires EncodeProp(p, room).Some?
    ensures |EncodeProp(p, room).value| <= 2 + |p.name| + Size(p.value)
    ensures |EncodeProp(p, room).value| == 2 + |p.name| + Size(p.value) ==> PropNamed(p)
    decreases p, 1
  {
    LengthWidths(|p.name|);
    WrittenSize(p.value, room - |NameBytes(p)|);
  }

  lemma {:induction false} WrittenSizeProps(props: seq<Prop>, room: int)
    ensures |EncodeProps(props, room)| <= SizeProps(props)
    ensures |EncodeProps(props, room)| == SizeProps(props) ==> forall i :: 0 <= i < |props| ==> PropNamed(props[i])
    decreases props, 2
  {
    if |props| > 0 {
      var first := EncodeProp(props[0], room);
      if first.Some? {
        WrittenSizeProp(props[0], room);
        WrittenSizeProps(props[1..], room - |first.value|);
      }
    }
  }

  lemma {:induction false} NamedIsWellFormed(v: Value)
    requires AllNamed(v) && Readable(v) && LengthsFit(v)
    ensures v.Null? || WellFormed(v)
    decreases v
  {
    if v.Object? {
      forall i | 0 <= i < |v.props|
        ensures 0 < |v.props[i].name| < 65536 && WellFormed(v.props[i].value)
      {
        assert PropNamed(v.props[i]) && PropReadable(v.props[i]);
        NamedIsWellFormed(v.props[i].value);
      }
    }
  }

  /** A value followed by something arrives as it was, with exactly its bytes consumed, if and only
      if it has its room and no property is null or without a name that fits its length field. */
  lemma SurvivesExact(v: Value, room: int, rest: seq<byte>)
    requires LengthsFit(v) && |rest| > 0
    ensures var res := EncodeValue(v, room);
      res.Some? && DecodeValue(res.value + rest) == Good(v, |res.value|) <==>
      if v.Null? then room >= 2 else WellFormed(v) && room >= Room(v)
  {
    hide EncodeValue, DecodeValue, WellFormed;
    var res := EncodeValue(v, room);
    if v.Null? {
      NullReads(room, rest);
    } else if res.Some? && DecodeValue(res.value + rest) == Good(v, |res.value|) {
      ReadSize(res.value + rest);
      WrittenSize(v, room);
      NamedIsWellFormed(v);
      ValueReads(v, room, rest);
      RoomExact(v, room);
    } else if WellFormed(v) && room >= Room(v) {
      RoundTrip(v, room, rest);
      RoomExact(v, room);
    }
  }

  lemma NullReads(room: int, rest: seq<byte>)
    ensures EncodeValue(Null, room).Some? <==> room >= 2
    ensures room >= 2 ==> DecodeValue(EncodeValue(Null, room).value + rest) == Good(Null, 1)
    ensures room >= 2 ==> |EncodeValue(Null, room).value| == 1
  {
  }
}
