/** The byte strings the AMF0 decoder accepts and what it makes of them: every form of every value, the
    three ways an object may end, and the proof that the decoder reads exactly these. */
module AmfGrammar {
  import opened Chunks
  import opened RtmpInts
  import opened AmfSpec

  /** A value as it is written; digits are the bytes of a number on the wire. */
  datatype Form =
    | Digits(bytes: Double)
    | Flag(b: byte)
    | Short(text: seq<byte>)
    | Long(text: seq<byte>)
    | Nothing(code: byte)
    | Fields(fields: seq<Field>, end: End)

  datatype Field = Field(name: seq<byte>, form: Form)

  /** An object ends with the mark, with the input, or with bytes that are no property, before the mark. */
  datatype End = Mark | Exhausted | Garbage(bytes: seq<byte>)

  const MARK: seq<byte> := [0, 0, 9]

  // ---------- How it is written, in front of what follows ----------

  function WriteEnd(e: End, next: seq<byte>): seq<byte> {
    match e
    case Mark => MARK + next
    case Exhausted => next
    case Garbage(bytes) => bytes + (MARK + next)
  }

  function Write(f: Form, next: seq<byte>): seq<byte>
    decreases f, 0
  {
    match f
    case Digits(bytes) => [NUMBER] + (bytes + next)
    case Flag(b) => [BOOLEAN] + ([b] + next)
    case Short(text) => [STRING] + (Be16(|text|) + (text + next))
    case Long(text) => [LONG_STRING] + (Be32(|text|) + (text + next))
    case Nothing(code) => [code] + next
    case Fields(fields, end) => [OBJECT] + WriteFields(fields, WriteEnd(end, next))
  }

  function WriteField(f: Field, next: seq<byte>): seq<byte>
    decreases f, 0
  {
    Be16(|f.name|) + (f.name + Write(f.form, next))
  }

  function WriteFields(fields: seq<Field>, next: seq<byte>): seq<byte>
    decreases fields, 0
  {
    if |fields| == 0 then next else WriteField(fields[0], WriteFields(fields[1..], next))
  }

  // ---------- What it means ----------

  function Mean(f: Form): Value
    decreases f, 0
  {
    match f
    case Digits(bytes) => Number(Reverse(bytes))
    case Flag(b) => Boolean(b != 0)
    case Short(text) => Str(text)
    case Long(text) => Str(text)
    case Nothing(_) => Null
    case Fields(fields, _) => Object(MeanFields(fields))
  }

  function MeanFields(fields: seq<Field>): seq<Prop>
    decreases fields, 0
  {
    if |fields| == 0 then [] else [Prop(fields[0].name, Mean(fields[0].form))] + MeanFields(fields[1..])
  }

  // ---------- What is well formed ----------

  predicate MarkAt(b: seq<byte>, i: int) {
    0 <= i && i + 2 < |b| && b[i] == 0 && b[i + 1] == 0 && b[i + 2] == 9
  }

  /** The first mark in b is at k. */
  predicate FirstMark(b: seq<byte>, k: nat) {
    MarkAt(b, k) && forall i :: 0 <= i < k ==> !MarkAt(b, i)
  }

  /** Garbage is followed by the first mark and cannot be read as a property. */
  predicate EndFits(e: End, next: seq<byte>) {
    match e
    case Mark => true
    case Exhausted => next == []
    case Garbage(bytes) =>
      var b := bytes + (MARK + next);
      bytes != [] && FirstMark(b, |bytes|) && DecodeProp(b, true).Bad?
  }

  predicate Fits(f: Form, next: seq<byte>)
    decreases f, 0
  {
    match f
    case Digits(_) => true
    case Flag(_) => true
    case Short(text) => |text| < 65536
    case Long(text) => |text| < WORD
    case Nothing(code) => code == NULL || code == UNDEFINED || code == UNSUPPORTED
    case Fields(fields, end) => EndFits(end, next) && FieldsFit(fields, WriteEnd(end, next))
  }

  /** Nothing shorter than four bytes is taken for a property. */
  predicate FieldFits(f: Field, next: seq<byte>)
    decreases f, 0
  {
    |f.name| < 65536 && Fits(f.form, next) && |WriteField(f, next)| >= 4
  }

  predicate FieldsFit(fields: seq<Field>, next: seq<byte>)
    decreases fields, 0
  {
    |fields| > 0 ==> FieldFits(fields[0], WriteFields(fields[1..], next)) && FieldsFit(fields[1..], next)
  }

  // ---------- Strings ----------

  lemma ShortReads(text: seq<byte>, next: seq<byte>)
    requires |text| < 65536
    ensures var rest := Be16(|text|) + (text + next);
      && |rest| >= 2 && Un16(rest) == |text| && rest[2..] == text + next && rest[2..2 + |text|] == text
      && rest[2 + |text|..] == next
  {
    hide Be16, Un16;
    Un16Be16(|text|, text + next);
    TwoBytes(|text|);
    var rest := Be16(|text|) + (text + next);
    assert rest[2..] == text + next;
    assert rest[2..2 + |text|] == (text + next)[..|text|];
    assert rest[2 + |text|..] == (text + next)[|text|..];
  }

  lemma TwoBytes(n: int)
    ensures |Be16(n)| == 2 && |Be32(n)| == 4
  {
  }

  lemma LongReads(text: seq<byte>, next: seq<byte>)
    requires |text| < WORD
    ensures var rest := Be32(|text|) + (text + next);
      && |rest| >= 4 && Un32(rest) == |text| && rest[4..] == text + next && rest[4..4 + |text|] == text
      && rest[4 + |text|..] == next
  {
    hide Be32, Un32;
    Un32Be32(|text|, text + next);
    TwoBytes(|text|);
    var rest := Be32(|text|) + (text + next);
    assert rest[4..] == text + next;
    assert rest[4..4 + |text|] == (text + next)[..|text|];
    assert rest[4 + |text|..] == (text + next)[|text|..];
  }

  /** Two bytes are the code of the number they are read as. */
  lemma Be16Un16(b: seq<byte>)
    requires |b| >= 2
    ensures b[..2] == Be16(Un16(b)) && 0 <= Un16(b) < 65536
  {
  }

  lemma Be32Un32(b: seq<byte>)
    requires |b| >= 4
    ensures b[..4] == Be32(Un32(b)) && 0 <= Un32(b) < WORD
  {
    var v := Un32(b);
    assert v / 256 == b[0] as int * 65536 + b[1] as int * 256 + b[2] as int;
    assert v / 65536 == b[0] as int * 256 + b[1] as int;
    assert v / 16777216 == b[0] as int;
  }

  lemma ShortFound(rest: seq<byte>, n: int)
    requires |rest| >= 2 && n == Un16(rest) && |rest| >= n + 2
    ensures 0 <= n < 65536 && rest == Be16(n) + (rest[2..2 + n] + rest[2 + n..])
  {
    hide Be16, Un16;
    Be16Un16(rest);
    assert rest == rest[..2] + rest[2..] && rest[2..] == rest[2..2 + n] + rest[2 + n..];
  }

  lemma LongFound(rest: seq<byte>, n: int)
    requires |rest| >= 4 && n == Un32(rest) && |rest| >= n + 4
    ensures 0 <= n < WORD && rest == Be32(n) + (rest[4..4 + n] + rest[4 + n..])
  {
    hide Be32, Un32;
    Be32Un32(rest);
    assert rest == rest[..4] + rest[4..] && rest[4..] == rest[4..4 + n] + rest[4 + n..];
  }

  // ---------- The end of an object ----------

  lemma MarkIs(b: seq<byte>)
    requires |b| >= 3
    ensures Un24(b) == 9 <==> MarkAt(b, 0)
    ensures MarkAt(b, 0) ==> b == MARK + b[3..]
  {
  }

  lemma MarkShifts(b: seq<byte>)
    requires |b| > 0
    ensures forall i :: i >= 0 ==> (MarkAt(b[1..], i) <==> MarkAt(b, i + 1))
  {
  }

  /** Bytes are skipped up to the first mark. */
  lemma {:induction false} SkipsGarbage(b: seq<byte>, k: nat)
    requires FirstMark(b, k)
    ensures DecodeProps(b, true) == Good([], k + 3)
    decreases k
  {
    hide Un24, DecodeProp;
    MarkIs(b);
    if k > 0 {
      FirstShifts(b, k);
      SkipsGarbage(b[1..], k - 1);
    }
  }

  lemma FirstShifts(b: seq<byte>, k: nat)
    requires |b| > 0 && k > 0
    ensures FirstMark(b, k) <==> FirstMark(b[1..], k - 1) && !MarkAt(b, 0)
  {
    hide MarkAt;
    MarkShifts(b);
    if FirstMark(b[1..], k - 1) && !MarkAt(b, 0) {
      forall i | 0 <= i < k
        ensures !MarkAt(b, i)
      {
        if i > 0 {
          assert !MarkAt(b[1..], i - 1);
        }
      }
    }
  }

  lemma {:induction false} GarbageFound(b: seq<byte>)
    requires DecodeProps(b, true).Good?
    ensures var r := DecodeProps(b, true); r.value == [] && r.used >= 3 && FirstMark(b, r.used - 3)
    decreases |b|
  {
    hide Un24, DecodeProp;
    if |b| >= 3 {
      MarkIs(b);
    }
    if !(|b| >= 3 && Un24(b) == 9) {
      GarbageFound(b[1..]);
      FirstShifts(b, DecodeProps(b, true).used - 3);
    }
  }

  // ---------- Values ----------

  lemma {:induction false} Accepted(f: Form, next: seq<byte>)
    requires Fits(f, next)
    ensures var b := Write(f, next);
      |b| >= |next| && DecodeValue(b) == Good(Mean(f), |b| - |next|) && b[|b| - |next|..] == next
    decreases f, 1
  {
    hide DecodeValue, DecodeProps, WriteFields, WriteEnd, FieldsFit, EndFits;
    match f
    case Digits(bytes) => SmallAccepted(f, next);
    case Flag(b) => SmallAccepted(f, next);
    case Short(text) => TextAccepted(f, next);
    case Long(text) => TextAccepted(f, next);
    case Nothing(code) => SmallAccepted(f, next);
    case Fields(fields, end) =>
      var after := WriteEnd(end, next);
      var inner := WriteFields(fields, after);
      EndAccepted(end, next);
      FieldsAccepted(fields, after, |after| - |next|);
      ObjectRead(inner, MeanFields(fields), |inner| - |next|);
      DropDrop(Write(f, next), 1, |inner| - |next|);
      DropDrop(inner, |inner| - |after|, |after| - |next|);
      assert Write(f, next)[1..] == inner;
  }

  lemma ObjectRead(inner: seq<byte>, props: seq<Prop>, used: nat)
    requires DecodeProps(inner, false) == Good(props, used)
    ensures DecodeValue([OBJECT] + inner) == Good(Object(props), 1 + used)
  {
    hide DecodeProps;
    assert ([OBJECT] + inner)[1..] == inner;
  }

  lemma SmallAccepted(f: Form, next: seq<byte>)
    requires Fits(f, next) && (f.Digits? || f.Flag? || f.Nothing?)
    ensures var b := Write(f, next);
      |b| >= |next| && DecodeValue(b) == Good(Mean(f), |b| - |next|) && b[|b| - |next|..] == next
  {
    hide DecodeProps, Un16, Un32;
    var b := Write(f, next);
    match f
    case Digits(bytes) =>
      assert (bytes + next)[..8] == bytes && b[1..] == bytes + next && b[9..] == next;
    case Flag(x) =>
      assert b[1..] == [x] + next && b[2..] == next;
    case Nothing(code) =>
      assert b[1..] == next;
  }

  lemma TextAccepted(f: Form, next: seq<byte>)
    requires Fits(f, next) && (f.Short? || f.Long?)
    ensures var b := Write(f, next);
      |b| >= |next| && DecodeValue(b) == Good(Mean(f), |b| - |next|) && b[|b| - |next|..] == next
  {
    hide Be16, Be32, Un16, Un32, DecodeProps;
    var b := Write(f, next);
    TwoBytes(|f.text|);
    if f.Short? {
      ShortReads(f.text, next);
      assert b[1..] == Be16(|f.text|) + (f.text + next);
      DropDrop(b, 1, 2 + |f.text|);
    } else {
      LongReads(f.text, next);
      assert b[1..] == Be32(|f.text|) + (f.text + next);
      DropDrop(b, 1, 4 + |f.text|);
    }
  }

  lemma EndAccepted(end: End, next: seq<byte>)
    requires EndFits(end, next)
    ensures var b := WriteEnd(end, next);
      |b| >= |next| && DecodeProps(b, false) == Good([], |b| - |next|) && b[|b| - |next|..] == next
  {
    hide DecodeProp, Un24, MarkAt;
    var b := WriteEnd(end, next);
    match end
    case Mark =>
      MarkIs(b);
      assert MarkAt(b, 0) by { assert b[0] == 0 && b[1] == 0 && b[2] == 9; MarkHere(b); }
      assert b[3..] == next;
    case Exhausted =>
    case Garbage(bytes) =>
      MarkIs(b);
      SkipsGarbage(b, |bytes|);
      assert !MarkAt(b, 0);
      assert b[|bytes| + 3..] == next;
  }

  lemma MarkHere(b: seq<byte>)
    requires |b| >= 3 && b[0] == 0 && b[1] == 0 && b[2] == 9
    ensures MarkAt(b, 0)
  {
  }

  lemma {:induction false} FieldsAccepted(fields: seq<Field>, next: seq<byte>, used: nat)
    requires FieldsFit(fields, next) && DecodeProps(next, false) == Good([], used)
    ensures var b := WriteFields(fields, next);
      && |b| >= |next| && DecodeProps(b, false) == Good(MeanFields(fields), |b| - |next| + used)
      && b[|b| - |next|..] == next
    decreases fields, 0
  {
    hide DecodeProps, DecodeProp, WriteField, FieldFits, Mean;
    if |fields| > 0 {
      var more := WriteFields(fields[1..], next);
      var b := WriteField(fields[0], more);
      FieldsAccepted(fields[1..], next, used);
      FieldAccepted(fields[0], more);
      OnePropRead(b, Prop(fields[0].name, Mean(fields[0].form)), |b| - |more|);
      DropDrop(b, |b| - |more|, |more| - |next|);
    }
  }

  /** A property that can be read does not begin with the mark. */
  lemma OnePropRead(b: seq<byte>, p: Prop, used: nat)
    requires DecodeProp(b, true) == Good(p, used)
    ensures DecodeProps(b, false) ==
      var rest := DecodeProps(b[used..], false); if rest.Bad? then Bad else Good([p] + rest.value, used + rest.used)
  {
    hide DecodeValue;
    if |b| >= 3 && Un24(b) == 9 {
      MarkIsNoProp(b);
    }
  }

  lemma MarkIsNoProp(b: seq<byte>)
    requires |b| >= 3 && Un24(b) == 9
    ensures DecodeProp(b, true).Bad?
  {
    MarkIs(b);
    assert Un16(b) == 0;
    if |b| >= 4 {
      assert b[2..][0] == 9;
    }
  }

  lemma {:induction false} FieldAccepted(f: Field, next: seq<byte>)
    requires FieldFits(f, next)
    ensures var b := WriteField(f, next);
      && |b| >= |next| && DecodeProp(b, true) == Good(Prop(f.name, Mean(f.form)), |b| - |next|)
      && b[|b| - |next|..] == next
    decreases f, 2
  {
    hide Be16, Un16, DecodeValue, Write, Mean, Fits;
    var value := Write(f.form, next);
    var b := WriteField(f, next);
    Accepted(f.form, next);
    ShortReads(f.name, value);
    TwoBytes(|f.name|);
    DropDrop(b, 2 + |f.name|, |value| - |next|);
  }

  // ---------- Whatever is accepted was written in this way ----------

  lemma {:induction false} Found(b: seq<byte>) returns (f: Form)
    requires DecodeValue(b).Good?
    ensures var r := DecodeValue(b); b == Write(f, b[r.used..]) && Fits(f, b[r.used..]) && Mean(f) == r.value
    decreases |b|, 0
  {
    hide DecodeProps, WriteFields, WriteEnd, FieldsFit, EndFits, MeanFields, Un16, Un32;
    if b[0] == OBJECT {
      var fields, end := FieldsFound(b[1..]);
      f := Fields(fields, end);
      DropDrop(b, 1, DecodeProps(b[1..], false).used);
      assert b == [b[0]] + b[1..];
    } else if b[0] == STRING || b[0] == LONG_STRING {
      f := TextFound(b);
    } else {
      f := SmallFound(b);
    }
  }

  lemma TextFound(b: seq<byte>) returns (f: Form)
    requires DecodeValue(b).Good? && (b[0] == STRING || b[0] == LONG_STRING)
    ensures var r := DecodeValue(b); b == Write(f, b[r.used..]) && Fits(f, b[r.used..]) && Mean(f) == r.value
  {
    hide Be16, Be32, Un16, Un32, DecodeProps;
    var rest := b[1..];
    assert b == [b[0]] + rest;
    if b[0] == STRING {
      ShortFound(rest, Un16(rest));
      f := Short(rest[2..2 + Un16(rest)]);
      DropDrop(b, 1, 2 + Un16(rest));
    } else {
      LongFound(rest, Un32(rest));
      f := Long(rest[4..4 + Un32(rest)]);
      DropDrop(b, 1, 4 + Un32(rest));
    }
  }

  lemma SmallFound(b: seq<byte>) returns (f: Form)
    requires DecodeValue(b).Good? && b[0] != STRING && b[0] != LONG_STRING && b[0] != OBJECT
    ensures var r := DecodeValue(b); b == Write(f, b[r.used..]) && Fits(f, b[r.used..]) && Mean(f) == r.value
  {
    hide DecodeProps, Un16, Un32;
    var rest := b[1..];
    assert b == [b[0]] + rest;
    if b[0] == NUMBER {
      f := Digits(rest[..8]);
      assert rest == rest[..8] + rest[8..] && rest[8..] == b[9..];
    } else if b[0] == BOOLEAN {
      f := Flag(rest[0]);
      assert rest == [rest[0]] + b[2..];
    } else {
      f := Nothing(b[0]);
    }
  }

  lemma {:induction false} FieldsFound(b: seq<byte>) returns (fields: seq<Field>, end: End)
    requires DecodeProps(b, false).Good?
    ensures var r := DecodeProps(b, false);
      var next := b[r.used..];
      && b == WriteFields(fields, WriteEnd(end, next)) && FieldsFit(fields, WriteEnd(end, next)) && EndFits(end, next)
      && MeanFields(fields) == r.value
    decreases |b|, 1
  {
    hide Un24, DecodeProp, WriteField, FieldFits, Mean, MarkAt;
    var r := DecodeProps(b, false);
    fields := [];
    if |b| == 0 {
      end := Exhausted;
    } else if |b| >= 3 && Un24(b) == 9 {
      end := Mark;
      MarkIs(b);
    } else if DecodeProp(b, true).Bad? {
      end := GarbageIs(b);
    } else {
      var first := DecodeProp(b, true);
      var f := FieldFound(b);
      var rest, end' := FieldsFound(b[first.used..]);
      DropDrop(b, first.used, DecodeProps(b[first.used..], false).used);
      fields, end := [f] + rest, end';
      assert fields[1..] == rest;
    }
  }

  lemma GarbageIs(b: seq<byte>) returns (end: End)
    requires DecodeProps(b, true).Good? && DecodeProp(b, true).Bad? && !(|b| >= 3 && Un24(b) == 9)
    ensures var r := DecodeProps(b, true);
      r.value == [] && b == WriteEnd(end, b[r.used..]) && EndFits(end, b[r.used..])
  {
    hide DecodeProps, DecodeProp, Un24;
    GarbageFound(b);
    var k := DecodeProps(b, true).used - 3;
    assert b[k..k + 3] == MARK;
    assert b == b[..k] + (b[k..k + 3] + b[k + 3..]);
    MarkIs(b);
    end := Garbage(b[..k]);
  }

  lemma {:induction false} FieldFound(b: seq<byte>) returns (f: Field)
    requires DecodeProp(b, true).Good?
    ensures var r := DecodeProp(b, true);
      && b == WriteField(f, b[r.used..]) && FieldFits(f, b[r.used..]) && r.value == Prop(f.name, Mean(f.form))
    decreases |b|, 0
  {
    hide Be16, Un16, DecodeValue, Write, Mean, Fits;
    var n := Un16(b);
    Be16Un16(b);
    ShortFound(b, n);
    var form := Found(b[2 + n..]);
    f := Field(b[2..2 + n], form);
    DropDrop(b, 2 + n, DecodeValue(b[2 + n..]).used);
  }

  // ---------- The decoder reads exactly these ----------

  /** The first n bytes of b are some form of v. */
  ghost predicate IsWritten(b: seq<byte>, v: Value, n: nat) {
    n <= |b| && exists f :: Fits(f, b[n..]) && b == Write(f, b[n..]) && Mean(f) == v
  }

  /** The decoder makes v of the first n bytes exactly if they are one of the forms of v. */
  lemma DecodeExact(b: seq<byte>, v: Value, n: nat)
    ensures DecodeValue(b) == Good(v, n) <==> IsWritten(b, v, n)
  {
    hide DecodeValue, Fits, Write, Mean;
    if DecodeValue(b) == Good(v, n) {
      var f := Found(b);
    }
    if IsWritten(b, v, n) {
      var f :| Fits(f, b[n..]) && b == Write(f, b[n..]) && Mean(f) == v;
      Accepted(f, b[n..]);
    }
  }
}
