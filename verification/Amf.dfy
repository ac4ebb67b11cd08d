/** The AMF0 coder on buffers: encoders that write through an output pointer as far as there is
    room, and decoders that walk over a buffer and collect properties. */
module Amf {
  import opened Options
  import opened Chunks
  import opened RtmpInts
  import opened Buffers
  import opened AmfSpec

  // ---------- Encoding ----------

  method EncodeStringAt(mem: array<byte>, output: int, outend: int, s: seq<byte>) returns (next: int)
    requires 0 <= output <= outend <= mem.Length
    modifies mem
    ensures Wrote(old(mem[..]), mem[..], output, outend, EncodeString(s, outend - output), next)
  {
    hide Patch, Be16, Be32, Wrote;
    ghost var was := mem[..];
    NothingWrote(was, output, outend);
    if (|s| < 65536 && output + 1 + 2 + |s| > outend) || output + 1 + 4 + |s| > outend {
      return -1;
    }
    LengthWidths(|s|);
    PatchNothing(was, output);
    var kind := if |s| < 65536 then STRING else LONG_STRING;
    Put(mem, output, output, was, [], kind);
    next := output + 1;
    ghost var length := if |s| < 65536 then Be16(|s|) else Be32(|s|);
    assert [] + [kind] == [kind];
    PatchMore(was, output, [kind], length);
    if |s| < 65536 {
      next := EncodeInt16(mem, next, outend, |s|);
    } else {
      next := EncodeInt32(mem, next, outend, |s|);
    }
    PatchMore(was, output, [kind] + length, s);
    Copy(mem, next, s);
    next := next + |s|;
    PatchWrote(was, output, outend, [kind] + length + s);
  }

  method EncodeNumber(mem: array<byte>, output: int, outend: int, bits: Double) returns (next: int)
    requires 0 <= output <= outend <= mem.Length
    modifies mem
    ensures Wrote(old(mem[..]), mem[..], output, outend, EncodeValue(Number(bits), outend - output), next)
  {
    hide Wrote, Patch;
    ghost var was := mem[..];
    NothingWrote(was, output, outend);
    if output + 1 + 8 > outend {
      return -1;
    }
    PatchNothing(was, output);
    Put(mem, output, output, was, [], NUMBER);
    PatchMore(was, output, [] + [NUMBER], Reverse(bits));
    PutReversed(mem, output + 1, bits);
    next := output + 9;
    assert [] + [NUMBER] + Reverse(bits) == [NUMBER] + Reverse(bits);
    PatchWrote(was, output, outend, [NUMBER] + Reverse(bits));
  }

  method PutReversed(mem: array<byte>, co: int, ci: Double)
    requires 0 <= co && co + 8 <= mem.Length
    modifies mem
    ensures mem[..] == Patch(old(mem[..]), co, Reverse(ci))
  {
    hide Patch, Reverse;
    ghost var was := mem[..];
    PatchNothing(was, co);
    Put(mem, co, co, was, [], ci[7]);
    Put(mem, co, co + 1, was, [] + [ci[7]], ci[6]);
    Put(mem, co, co + 2, was, [] + [ci[7]] + [ci[6]], ci[5]);
    Put(mem, co, co + 3, was, [] + [ci[7]] + [ci[6]] + [ci[5]], ci[4]);
    ghost var half := [] + [ci[7]] + [ci[6]] + [ci[5]] + [ci[4]];
    Put(mem, co, co + 4, was, half, ci[3]);
    Put(mem, co, co + 5, was, half + [ci[3]], ci[2]);
    Put(mem, co, co + 6, was, half + [ci[3]] + [ci[2]], ci[1]);
    Put(mem, co, co + 7, was, half + [ci[3]] + [ci[2]] + [ci[1]], ci[0]);
    ReverseIs(ci, half);
  }

  lemma ReverseIs(ci: Double, half: seq<byte>)
    requires half == [] + [ci[7]] + [ci[6]] + [ci[5]] + [ci[4]]
    ensures half + [ci[3]] + [ci[2]] + [ci[1]] + [ci[0]] == Reverse(ci)
  {
    assert half == [ci[7], ci[6], ci[5], ci[4]];
  }

  method EncodeBoolean(mem: array<byte>, output: int, outend: int, flag: bool) returns (next: int)
    requires 0 <= output <= outend <= mem.Length
    modifies mem
    ensures Wrote(old(mem[..]), mem[..], output, outend, EncodeValue(Boolean(flag), outend - output), next)
  {
    if output + 2 > outend {
      return -1;
    }
    mem[output] := BOOLEAN;
    mem[output + 1] := if flag then 1 else 0;
    next := output + 2;
  }

  /** AMFProp_Encode: the name, unless there is none, and the value. */
  method PropEncode(prop: Prop, mem: array<byte>, pBuffer: int, pBufEnd: int) returns (next: int)
    requires 0 <= pBuffer <= pBufEnd <= mem.Length
    modifies mem
    ensures Wrote(old(mem[..]), mem[..], pBuffer, pBufEnd, EncodeProp(prop, pBufEnd - pBuffer), next)
    decreases prop, 1
  {
    hide Wrote, Patch, EncodeValue, Be16;
    ghost var was := mem[..];
    NothingWrote(was, pBuffer, pBufEnd);
    if prop.value.Invalid? {
      InvalidFails(pBufEnd - pBuffer - |NameBytes(prop)|);
      return -1;
    }
    if !prop.value.Null? && pBuffer + |prop.name| + 2 + 1 >= pBufEnd {
      return -1;
    }
    var p := pBuffer;
    PatchNothing(was, pBuffer);
    if !prop.value.Null? && |prop.name| > 0 {
      PutName(mem, p, prop.name);
      LengthWidths(|prop.name|);
      p := p + 2 + |prop.name|;
    }
    ghost var mid := mem[..];
    next := ValueEncode(prop.value, mem, p, pBufEnd);
    WroteMore(was, mem[..], pBuffer, pBufEnd, NameBytes(prop), EncodeValue(prop.value, pBufEnd - p), next);
  }

  lemma InvalidFails(room: int)
    ensures EncodeValue(Invalid, room) == None
  {
  }

  method PutName(mem: array<byte>, at: int, name: seq<byte>)
    requires 0 <= at && at + 2 + |name| <= mem.Length
    modifies mem
    ensures mem[..] == Patch(old(mem[..]), at, Be16(|name|) + name)
  {
    hide Patch;
    ghost var was := mem[..];
    PatchNothing(was, at);
    Put(mem, at, at, was, [], |name| / 256 % 256);
    Put(mem, at, at + 1, was, [] + [|name| / 256 % 256], |name| % 256);
    assert [] + [|name| / 256 % 256] + [|name| % 256] == Be16(|name|);
    PatchMore(was, at, Be16(|name|), name);
    Copy(mem, at + 2, name);
  }

  /** The switch over the type of a property. */
  method ValueEncode(v: Value, mem: array<byte>, pBuffer: int, pBufEnd: int) returns (next: int)
    requires 0 <= pBuffer <= pBufEnd <= mem.Length
    modifies mem
    ensures Wrote(old(mem[..]), mem[..], pBuffer, pBufEnd, EncodeValue(v, pBufEnd - pBuffer), next)
    decreases v, 0
  {
    match v
    case Number(bits) =>
      next := EncodeNumber(mem, pBuffer, pBufEnd, bits);
    case Boolean(flag) =>
      next := EncodeBoolean(mem, pBuffer, pBufEnd, flag);
    case Str(text) =>
      next := EncodeStringAt(mem, pBuffer, pBufEnd, text);
    case Null =>
      if pBuffer + 1 >= pBufEnd {
        return -1;
      }
      mem[pBuffer] := NULL;
      next := pBuffer + 1;
    case Object(props) =>
      next := ObjectEncode(props, mem, pBuffer, pBufEnd);
    case Invalid =>
      next := -1;
  }

  /** AMF_Encode: a property that fails ends the list, but the end mark is still written. */
  method ObjectEncode(props: seq<Prop>, mem: array<byte>, pBuffer: int, pBufEnd: int) returns (next: int)
    requires 0 <= pBuffer <= pBufEnd <= mem.Length
    modifies mem
    ensures Wrote(old(mem[..]), mem[..], pBuffer, pBufEnd, EncodeValue(Object(props), pBufEnd - pBuffer), next)
    decreases props
  {
    hide EncodeProp, EncodeProps, Patch, Wrote, Be24;
    ghost var was := mem[..];
    NothingWrote(was, pBuffer, pBufEnd);
    if pBuffer + 4 >= pBufEnd {
      return -1;
    }
    mem[pBuffer] := OBJECT;
    OneByte(was, pBuffer, pBufEnd, OBJECT);
    ghost var done := [OBJECT];
    var p, i := pBuffer + 1, 0;
    assert props[0..] == props;
    while i < |props|
      invariant 0 <= i <= |props| && p == pBuffer + |done| <= pBufEnd
      invariant Wrote(was, mem[..], pBuffer, pBufEnd, Some(done), p)
      invariant [OBJECT] + EncodeProps(props, pBufEnd - pBuffer - 1) == done + EncodeProps(props[i..], pBufEnd - p)
      decreases |props| - i
    {
      ghost var mid := mem[..];
      var res := PropEncode(props[i], mem, p, pBufEnd);
      ghost var part := EncodeProp(props[i], pBufEnd - p);
      EncodeStep(props, i, pBufEnd - p);
      WroteOn(was, mid, mem[..], pBuffer, pBufEnd, done, p, part, res);
      if res == -1 {
        break;
      }
      AppendAssoc(done, part.value, EncodeProps(props[i + 1..], pBufEnd - res));
      done := done + part.value;
      p := res;
      i := i + 1;
    }
    assert done == [OBJECT] + EncodeProps(props, pBufEnd - pBuffer - 1) by {
      NoMore(props, i, pBufEnd - p);
      assert done + [] == done;
    }
    WroteFails(was, mem[..], pBuffer, pBufEnd, done, p);
    if p + 3 >= pBufEnd {
      return -1;
    }
    ghost var mid := mem[..];
    next := EncodeInt24(mem, p, pBufEnd, OBJECT_END as int);
    LengthWidths(OBJECT_END);
    PatchWrote(mid, p, pBufEnd, Be24(OBJECT_END));
    WroteOn(was, mid, mem[..], pBuffer, pBufEnd, done, p, Some(Be24(OBJECT_END)), next);
  }

  lemma OneByte(was: seq<byte>, output: int, outend: int, x: byte)
    requires 0 <= output < outend <= |was|
    ensures Wrote(was, was[output := x], output, outend, Some([x]), output + 1)
  {
  }

  lemma EncodeStep(props: seq<Prop>, i: nat, room: int)
    requires i < |props|
    ensures var first := EncodeProp(props[i], room);
      EncodeProps(props[i..], room) ==
      if first.None? then [] else first.value + EncodeProps(props[i + 1..], room - |first.value|)
  {
    hide EncodeProp;
    DropDrop(props, i, 1);
  }

  lemma NoMore(props: seq<Prop>, i: nat, room: int)
    requires i <= |props|
    ensures i == |props| ==> EncodeProps(props[i..], room) == []
  {
  }

  /** done has been written; the next part either fails, which leaves done in place, or follows it. */
  lemma WroteOn(was: seq<byte>, mid: seq<byte>, now: seq<byte>, output: int, outend: int, done: seq<byte>, p: int,
                part: Option<seq<byte>>, next: int)
    requires Wrote(was, mid, output, outend, Some(done), p) && Wrote(mid, now, p, outend, part, next)
    ensures part.None? ==> next == -1 && Wrote(was, now, output, outend, Some(done), p)
    ensures part.Some? ==> next == p + |part.value| && Wrote(was, now, output, outend, Some(done + part.value), next)
  {
    assert now[..output] == now[..p][..output] == mid[..p][..output] == mid[..output];
    assert now[output..p] == now[..p][output..] == mid[..p][output..] == mid[output..p];
    if part.Some? {
      SliceSplit(now, output, p, next);
    }
  }

  lemma WroteFails(was: seq<byte>, now: seq<byte>, output: int, outend: int, done: seq<byte>, p: int)
    requires Wrote(was, now, output, outend, Some(done), p)
    ensures Wrote(was, now, output, outend, None, -1) && p == output + |done| <= outend
  {
  }

  // ---------- Decoding ----------

  /** AMFProp_Decode: the number of bytes used, or -1. */
  method PropDecode(pBuffer: seq<byte>, nSize: int, bDecodeName: bool) returns (nRes: int, prop: Prop)
    requires nSize == |pBuffer|
    ensures match DecodeProp(pBuffer, bDecodeName)
            case Bad => nRes == -1
            case Good(p, used) => nRes == used && prop == p
    decreases |pBuffer|, 1
  {
    hide DecodeValue;
    prop := Prop([], Invalid);
    if nSize == 0 {
      return -1, prop;
    }
    if bDecodeName && nSize < 4 {
      return -1, prop;
    }
    var left, at := nSize, 0;
    if bDecodeName {
      var nNameSize := Un16(pBuffer);
      if nNameSize > left - 2 {
        return -1, prop;
      }
      prop := prop.(name := pBuffer[2..2 + nNameSize]);
      left := left - (2 + nNameSize);
      at := 2 + nNameSize;
    }
    var used, value := ValueDecode(pBuffer[at..], left);
    if used == -1 {
      return -1, prop;
    }
    return at + used, prop.(value := value);
  }

  /** The type byte and the switch over it. */
  method ValueDecode(pBuffer: seq<byte>, nSize: int) returns (nRes: int, value: Value)
    requires nSize == |pBuffer|
    ensures match DecodeValue(pBuffer)
            case Bad => nRes == -1
            case Good(v, used) => nRes == used && value == v
    decreases |pBuffer|, 0
  {
    hide DecodeProps;
    value := Invalid;
    if nSize == 0 {
      return -1, value;
    }
    var left := nSize - 1;
    var kind, rest := pBuffer[0], pBuffer[1..];
    if kind == NUMBER {
      if left < 8 {
        return -1, value;
      }
      value := Number(Reverse(rest[..8]));
      left := left - 8;
    } else if kind == BOOLEAN {
      if left < 1 {
        return -1, value;
      }
      value := Boolean(rest[0] != 0);
      left := left - 1;
    } else if kind == STRING {
      if left < 2 {
        return -1, value;
      }
      var nStringSize := Un16(rest);
      if left < nStringSize + 2 {
        return -1, value;
      }
      value := Str(rest[2..2 + nStringSize]);
      left := left - (2 + nStringSize);
    } else if kind == OBJECT {
      var nRes, props := ObjectDecode(rest, left);
      if nRes == -1 {
        return -1, value;
      }
      value := Object(props);
      left := left - nRes;
    } else if kind == NULL || kind == UNDEFINED || kind == UNSUPPORTED {
      value := Null;
    } else if kind == LONG_STRING {
      if left < 4 {
        return -1, value;
      }
      var nStringSize := Un32(rest);
      if left < nStringSize + 4 {
        return -1, value;
      }
      value := Str(rest[4..4 + nStringSize]);
      left := left - (4 + nStringSize);
    } else {
      return -1, value;
    }
    nRes := nSize - left;
  }

  /** AMF_Decode: properties are collected up to the end mark; after an error bytes are skipped in
      search of the mark. */
  method ObjectDecode(buffer: seq<byte>, size: int) returns (nRes: int, props: seq<Prop>)
    requires size == |buffer|
    ensures match DecodeProps(buffer, false)
            case Bad => nRes == -1
            case Good(p, used) => nRes == used && props == p
    decreases |buffer|, 2
  {
    hide DecodeProp;
    var pBuffer, nSize, bError := buffer, size, false;
    props := [];
    ghost var goal := DecodeProps(buffer, false);
    JoinNothing(goal);
    while nSize > 0
      invariant 0 <= nSize == |pBuffer| <= size
      invariant Join(props, size - nSize, DecodeProps(pBuffer, bError)) == goal
      decreases nSize, if bError then 0 else 1
    {
      if nSize >= 3 && Un24(pBuffer) == OBJECT_END as int {
        nSize := nSize - 3;
        bError := false;
        assert goal == Good(props + [], size - nSize);
        break;
      }
      if bError {
        nSize := nSize - 1;
        pBuffer := pBuffer[1..];
        continue;
      }
      var used, prop := PropDecode(pBuffer, nSize, true);
      if used == -1 {
        bError := true;
      } else {
        JoinOne(props, size - nSize, prop, used, DecodeProps(pBuffer[used..], false));
        nSize := nSize - used;
        pBuffer := pBuffer[used..];
        props := props + [prop];
      }
    }
    assert props + [] == props;
    if bError {
      return -1, props;
    }
    nRes := size - nSize;
  }

  /** The properties collected so far, in n bytes, followed by those still to come. */
  ghost function Join(props: seq<Prop>, n: nat, rest: Decoded<seq<Prop>>): Decoded<seq<Prop>> {
    if rest.Bad? then Bad else Good(props + rest.value, n + rest.used)
  }

  lemma JoinNothing(rest: Decoded<seq<Prop>>)
    ensures Join([], 0, rest) == rest
  {
    assert rest.Good? ==> [] + rest.value == rest.value;
  }

  lemma JoinOne(props: seq<Prop>, n: nat, prop: Prop, used: nat, rest: Decoded<seq<Prop>>)
    ensures Join(props + [prop], n + used, rest) == Join(props, n, Join([prop], used, rest))
  {
    if rest.Good? {
      AppendAssoc(props, [prop], rest.value);
    }
  }
}
