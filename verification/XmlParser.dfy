/** The XML parser as it runs: a cursor is advanced over a document, loops append to strings, and
    elements are filled with what is found.  A cursor is an index into the document, with -1 for a
    null pointer and HANGS for a loop that never ends: what the methods return in its place, as
    methods here have to return. */
module XmlParser {
  import opened Options
  import opened Chunks
  import opened XmlSpec

  const HANGS := -2

  /** The cursor r and the value read agree with what the specification says. */
  ghost predicate Reads<T>(s: Str, r: int, value: T, res: Read<T>) {
    match res
    case Fail => r == -1
    case Forever => r == HANGS
    case Done(v, rest) => value == v && 0 <= r <= |s| && s[r..] == rest
  }

  lemma NextSuffix(s: Str, p: nat)
    requires p < |s|
    ensures s[p..][0] == s[p] && s[p..][1..] == s[p + 1..]
  {
  }

  // ---------- Space and names ----------

  method SkipWhiteSpace(s: Str, p: nat) returns (q: nat)
    requires p <= |s|
    ensures p <= q <= |s| && s[q..] == SkipSpace(s[p..])
    ensures q < |s| ==> !IsSpace(s[q])
  {
    q := p;
    while q < |s| && IsSpace(s[q])
      invariant p <= q <= |s| && SkipSpace(s[q..]) == SkipSpace(s[p..])
    {
      NextSuffix(s, q);
      q := q + 1;
    }
    NoSpaceToSkip(s[q..]);
  }

  method ReadNameAt(s: Str, p: nat) returns (r: int, name: Str)
    requires p <= |s|
    ensures Reads(s, r, name, ReadName(s[p..]))
    ensures r == -1 || r > p
  {
    name := [];
    if p < |s| && IsNameStart(s[p]) {
      r := p;
      while r < |s| && IsNameChar(s[r])
        invariant p <= r <= |s| && NameLength(s[p..]) == r - p + NameLength(s[r..])
      {
        NextSuffix(s, r);
        r := r + 1;
      }
      name := s[p..r];
      assert s[p..][..r - p] == name;
      DropDrop(s, p, r - p);
    } else {
      r := -1;
    }
  }

  // ---------- Characters ----------

  /** strchr. */
  method StrChr(s: Str, p: nat, c: byte) returns (q: int)
    requires p <= |s|
    ensures q == -1 ==> c !in s[p..]
    ensures q != -1 ==> p <= q < |s| && s[q] == c && forall j :: p <= j < q ==> s[j] != c
  {
    q := p;
    while q < |s| && s[q] != c
      invariant p <= q <= |s| && forall j :: p <= j < q ==> s[j] != c
    {
      q := q + 1;
    }
    if q == |s| {
      q := -1;
    }
  }

  /** unsigned. */
  function TimesWord(a: int, b: int): int {
    (a * b) % 0x1_0000_0000
  }

  /** unsigned long. */
  function PlusLong(a: int, b: int): int {
    (a + b) % 0x1_0000_0000_0000_0000
  }

  ghost predicate Scaled(whole: Option<int>, high: Option<int>, scale: int, low: int, mult: int, ucs: int) {
    && (whole.None? <==> high.None?)
    && (high.Some? ==> whole.value == high.value * scale + low)
    && mult % 256 == scale % 256 && ucs % 256 == low % 256
  }

  /** The digits below those of high are in ucs, right to eight bits. */
  ghost predicate Accumulates(whole: Option<int>, high: Option<int>, mult: int, ucs: int) {
    exists scale, low :: Scaled(whole, high, scale, low, mult, ucs)
  }

  lemma SameByte(a: int, b: int, d: int)
    requires a % 256 == b % 256
    ensures (a * d) % 256 == (b * d) % 256
  {
    var q := a / 256 - b / 256;
    assert a == b + 256 * q;
    assert a * d == b * d + 256 * (q * d);
  }

  lemma ByteApart(a: int, b: int, k: int)
    requires a == b + 256 * k
    ensures a % 256 == b % 256
  {
  }

  lemma Widen(x: int)
    ensures (x % 0x1_0000_0000) % 256 == x % 256
    ensures (x % 0x1_0000_0000_0000_0000) % 256 == x % 256
  {
    ByteApart(x, x % 0x1_0000_0000, 0x100_0000 * (x / 0x1_0000_0000));
    ByteApart(x, x % 0x1_0000_0000_0000_0000, 0x100_0000_0000_0000 * (x / 0x1_0000_0000_0000_0000));
  }

  lemma OneMoreDigit(high: int, base: int, d: int, scale: int, low: int)
    ensures (base * high + d) * scale + low == high * (scale * base) + (low + scale * d)
  {
  }

  lemma AddsUp(a: int, b: int, c: int, d: int)
    requires a % 256 == b % 256 && c % 256 == d % 256
    ensures (a + c) % 256 == (b + d) % 256
  {
  }

  /** The digits of the reference at p, last one first, in 32 and 64 bits; stopped by anything else. */
  method ReadDigits(s: Str, ghost p: nat, first: nat, end: nat, base: int, stop: byte) returns (ok: bool, ucs: int)
    requires p <= first < end <= |s| && s[first] == stop
    ensures var n := Number(s[p..], end - p, base, stop);
            (ok <==> n.Some?) && (ok ==> ucs % 256 == n.value % 256)
  {
    hide Number, Accumulates, TimesWord, PlusLong;
    ghost var t := s[p..];
    var mult := 1;
    ucs := 0;
    var q := end - 1;
    StartAccumulating(Number(t, end - p, base, stop));
    while s[q] != stop
      invariant first <= q < end
      decreases q
      invariant Accumulates(Number(t, end - p, base, stop), Number(t, q + 1 - p, base, stop), mult, ucs)
    {
      var d := DigitValue(s[q]);
      assert t[q - p] == s[q];
      NumberAt(t, q + 1 - p, base, stop);
      if d < 0 || d >= base {
        NothingAccumulated(Number(t, end - p, base, stop), mult, ucs);
        return false, ucs;
      }
      Accumulate(Number(t, end - p, base, stop), Number(t, q - p, base, stop), mult, ucs, d, base);
      ucs := PlusLong(ucs, TimesWord(mult, d));
      mult := TimesWord(mult, base);
      q := q - 1;
    }
    assert t[q - p] == s[q];
    NumberAt(t, q + 1 - p, base, stop);
    AllAccumulated(Number(t, end - p, base, stop), mult, ucs);
    ok := true;
  }

  lemma StartAccumulating(n: Option<int>)
    ensures Accumulates(n, n, 1, 0)
  {
    assert Scaled(n, n, 1, 0, 1, 0);
  }

  lemma NothingAccumulated(n: Option<int>, mult: int, ucs: int)
    requires Accumulates(n, None, mult, ucs)
    ensures n.None?
  {
  }

  lemma AllAccumulated(n: Option<int>, mult: int, ucs: int)
    requires Accumulates(n, Some(0), mult, ucs)
    ensures n.Some? && ucs % 256 == n.value % 256
  {
  }

  lemma Accumulate(n: Option<int>, high: Option<int>, mult: int, ucs: int, d: int, base: int)
    requires Accumulates(n, if high.Some? then Some(base * high.value + d) else None, mult, ucs)
    ensures Accumulates(n, high, TimesWord(mult, base), PlusLong(ucs, TimesWord(mult, d)))
  {
    var scale, low :| Scaled(n, if high.Some? then Some(base * high.value + d) else None, scale, low, mult, ucs);
    DigitBytes(mult, ucs, scale, low, d, base);
    if high.Some? {
      OneMoreDigit(high.value, base, d, scale, low);
    }
    assert Scaled(n, high, scale * base, low + scale * d, TimesWord(mult, base), PlusLong(ucs, TimesWord(mult, d)));
  }

  lemma DigitBytes(mult: int, ucs: int, scale: int, low: int, d: int, base: int)
    requires mult % 256 == scale % 256 && ucs % 256 == low % 256
    ensures TimesWord(mult, base) % 256 == (scale * base) % 256
    ensures PlusLong(ucs, TimesWord(mult, d)) % 256 == (low + scale * d) % 256
  {
    SameByte(mult, scale, base);
    SameByte(mult, scale, d);
    Widen(mult * base);
    Widen(mult * d);
    Widen(ucs + TimesWord(mult, d));
    AddsUp(ucs, low, TimesWord(mult, d), scale * d);
  }

  lemma NumberAt(p: Str, q: nat, base: int, stop: byte)
    requires 0 < q <= |p|
    ensures Number(p, q, base, stop) ==
            if p[q - 1] == stop then Some(0)
            else
              var d := DigitValue(p[q - 1]);
              var high := Number(p, q - 1, base, stop);
              if 0 <= d < base && high.Some? then Some(base * high.value + d) else None
  {
  }

  datatype Entity = Entity(str: Str, chr: byte)

  const ENTITY: seq<Entity> := [
    Entity(AMP_ENT, AMP), Entity(LT_ENT, LT), Entity(GT_ENT, GT), Entity(QUOT_ENT, QUOT), Entity(APOS_ENT, APOS)]

  /** The table of entities, in order. */
  method MatchEntity(s: Str, p: nat) returns (r: int, value: Str)
    requires p < |s| && !(p + 2 < |s| && s[p + 1] == HASH)
    ensures Reads(s, r, value, GetEntity(s[p..]))
  {
    hide StartsWith;
    for i := 0 to |ENTITY|
      invariant forall j | 0 <= j < i :: !StartsWith(s[p..], ENTITY[j].str)
    {
      if StartsWith(s[p..], ENTITY[i].str) {
        var ent := ENTITY[i];
        r, value := p + |ent.str|, [ent.chr];
        PrefixFits(s[p..], ent.str);
        DropDrop(s, p, |ent.str|);
        assert i > 0 ==> !StartsWith(s[p..], ENTITY[0].str);
        assert i > 1 ==> !StartsWith(s[p..], ENTITY[1].str);
        assert i > 2 ==> !StartsWith(s[p..], ENTITY[2].str);
        assert i > 3 ==> !StartsWith(s[p..], ENTITY[3].str);
        return;
      }
    }
    assert !StartsWith(s[p..], ENTITY[0].str) && !StartsWith(s[p..], ENTITY[1].str) && !StartsWith(s[p..], ENTITY[2].str);
    assert !StartsWith(s[p..], ENTITY[3].str) && !StartsWith(s[p..], ENTITY[4].str);
    r, value := p + 1, [];
    NextSuffix(s, p);
  }

  lemma PrefixFits(p: Str, s: Str)
    requires StartsWith(p, s)
    ensures |s| <= |p|
  {
  }

  lemma FirstFrom(s: Str, p: nat, from: nat, q: nat, c: byte)
    requires p <= from <= q < |s| && s[q] == c
    requires forall j :: p <= j < from ==> s[j] != c
    requires forall j :: from <= j < q ==> s[j] != c
    ensures IndexOf(s[p..], c) == q - p
  {
    FirstAt(s[p..], c, q - p);
  }

  lemma NoneFrom(s: Str, p: nat, from: nat, c: byte)
    requires p <= from <= |s| && c !in s[from..]
    requires forall j :: p <= j < from ==> s[j] != c
    ensures IndexOf(s[p..], c) == -1
  {
    DropDrop(s, p, from - p);
    assert s[p..] == s[p..from] + s[from..];
    NowhereFound(s[p..], c);
  }

  method GetEntityAt(s: Str, p: nat) returns (r: int, value: Str)
    requires p < |s| && s[p] == AMP
    ensures Reads(s, r, value, GetEntity(s[p..]))
  {
    hide IndexOf, Number, StartsWith;
    value := [];
    if p + 2 < |s| && s[p + 1] == HASH {
      var hex := s[p + 2] == LOWER_X;
      var from := if hex then p + 3 else p + 2;
      var q := StrChr(s, from, SEMI);
      if q == -1 {
        NoneFrom(s, p, from, SEMI);
        return -1, value;
      }
      FirstFrom(s, p, from, q, SEMI);
      var ok, ucs := ReadDigits(s, p, from - 1, q, if hex then 16 else 10, if hex then LOWER_X else HASH);
      if !ok {
        return -1, value;
      }
      DropDrop(s, p, q - p + 1);
      r, value := q + 1, [ucs % 256];
    } else {
      r, value := MatchEntity(s, p);
    }
  }

  method GetCharAt(s: Str, p: nat) returns (r: int, value: Str)
    requires p < |s|
    ensures Reads(s, r, value, GetChar(s[p..]))
    ensures r == -1 || r > p
  {
    hide GetEntity;
    NextSuffix(s, p);
    if s[p] == AMP {
      r, value := GetEntityAt(s, p);
    } else {
      r, value := p + 1, [s[p]];
    }
  }

  // ---------- Text ----------

  /** What is still to be read, after the text read so far. */
  function After(text: Str, more: Read<Str>): Read<Str> {
    if more.Done? then Done(text + more.value, more.rest) else more
  }

  lemma AfterAfter(t: Str, u: Str, more: Read<Str>)
    ensures After(t, After(u, more)) == After(t + u, more)
  {
    if more.Done? {
      AppendAssoc(t, u, more.value);
    }
  }

  lemma AfterNothing(more: Read<Str>)
    ensures After([], more) == more
  {
    if more.Done? {
      assert [] + more.value == more.value;
    }
  }

  lemma KeepOne(q: Str, end: byte)
    requires |q| > 0 && q[0] != end
    ensures var c := GetChar(q);
            KeepText(q, end) == if c.Fail? then Fail else After(c.value, KeepText(c.rest, end))
  {
  }

  lemma KeepDone(q: Str, end: byte, text: Str)
    requires |q| == 0 || q[0] == end
    ensures After(text, KeepText(q, end)) == Done(text, if |q| == 0 then q else q[1..])
  {
    assert text + [] == text;
  }

  /** ReadText, keeping white space. */
  method ReadKept(s: Str, p: nat, end: byte) returns (r: int, text: Str)
    requires p <= |s|
    ensures Reads(s, r, text, KeepText(s[p..], end))
  {
    hide KeepText, GetChar, After;
    r, text := p, [];
    AfterNothing(KeepText(s[p..], end));
    while r != -1 && r < |s| && s[r] != end
      invariant r == -1 || p <= r <= |s|
      invariant KeepText(s[p..], end) == if r == -1 then Fail else After(text, KeepText(s[r..], end))
      decreases if r == -1 then 0 else |s| + 1 - r
    {
      NextSuffix(s, r);
      KeepOne(s[r..], end);
      ghost var before := r;
      var next, value := GetCharAt(s, r);
      if next != -1 {
        AfterAfter(text, value, KeepText(s[next..], end));
      } else {
        NothingAfter(text);
      }
      r, text := next, text + value;
    }
    if r != -1 {
      KeepDone(s[r..], end, text);
      if r < |s| {
        NextSuffix(s, r);
        r := r + 1;
      }
    }
  }

  lemma NothingAfter(text: Str)
    ensures After(text, Fail) == Fail
  {
  }

  lemma CondenseOne(q: Str, end: byte, space: bool)
    requires |q| > 0 && q[0] != end && !IsSpace(q[0])
    ensures var c := GetChar(q);
            CondenseText(q, end, space) ==
            if c.Fail? then Fail
            else After((if space then [SPACE] else []) + c.value, CondenseText(c.rest, end, false))
  {
  }

  lemma CondenseDone(q: Str, end: byte, space: bool, text: Str)
    requires |q| == 0 || q[0] == end
    ensures After(text, CondenseText(q, end, space)) == Done(text, if |q| == 0 then q else q[1..])
  {
    assert text + [] == text;
  }

  lemma CondenseSpace(q: Str, end: byte, space: bool)
    requires |q| > 0 && q[0] != end && IsSpace(q[0])
    ensures CondenseText(q, end, space) == CondenseText(q[1..], end, true)
  {
  }

  /** ReadText, condensing white space. */
  method ReadCondensed(s: Str, p: nat, end: byte) returns (r: int, text: Str)
    requires p <= |s|
    ensures Reads(s, r, text, CondenseText(SkipSpace(s[p..]), end, false))
    ensures r == -1 || r == |s| || (r > p && s[r - 1] == end)
  {
    hide CondenseText, GetChar, After, SkipSpace;
    var whitespace := false;
    text := [];
    r := SkipWhiteSpace(s, p);
    ghost var res := CondenseText(s[r..], end, false);
    AfterNothing(res);
    while r != -1 && r < |s| && s[r] != end
      invariant r == -1 || p <= r <= |s|
      invariant res == if r == -1 then Fail else After(text, CondenseText(s[r..], end, whitespace))
      decreases if r == -1 then 0 else |s| + 1 - r
    {
      NextSuffix(s, r);
      if IsSpace(s[r]) {
        CondenseSpace(s[r..], end, whitespace);
        whitespace := true;
        r := r + 1;
      } else {
        CondenseOne(s[r..], end, whitespace);
        ghost var before, space := text, if whitespace then [SPACE] else [];
        if whitespace {
          text := text + [SPACE];
          whitespace := false;
        }
        assert text == before + space;
        var next, value := GetCharAt(s, r);
        if next != -1 {
          AppendAssoc(before, space, value);
          AfterAfter(before, space + value, CondenseText(s[next..], end, false));
        } else {
          NothingAfter(before);
        }
        r, text := next, text + value;
      }
    }
    if r != -1 {
      CondenseDone(s[r..], end, whitespace, text);
      if r < |s| {
        NextSuffix(s, r);
        r := r + 1;
      }
    }
  }

  // ---------- Attributes and texts ----------

  lemma BareOne(q: Str)
    requires |q| > 0 && !IsSpace(q[0]) && q[0] != SLASH && q[0] != GT
    ensures BareValue(q) == if q[0] == APOS || q[0] == QUOT then Fail else After([q[0]], BareValue(q[1..]))
  {
  }

  lemma BareDone(q: Str, text: Str)
    requires |q| == 0 || IsSpace(q[0]) || q[0] == SLASH || q[0] == GT
    ensures After(text, BareValue(q)) == Done(text, q)
  {
    assert text + [] == text;
  }

  /** A value without quotes. */
  method ReadBare(s: Str, p: nat) returns (r: int, value: Str)
    requires p <= |s|
    ensures Reads(s, r, value, BareValue(s[p..]))
  {
    hide BareValue, After;
    r, value := p, [];
    AfterNothing(BareValue(s[p..]));
    while r < |s| && !IsSpace(s[r]) && s[r] != SLASH && s[r] != GT
      invariant p <= r <= |s|
      invariant BareValue(s[p..]) == After(value, BareValue(s[r..]))
    {
      NextSuffix(s, r);
      BareOne(s[r..]);
      if s[r] == APOS || s[r] == QUOT {
        NothingAfter(value);
        return -1, value;
      }
      AfterAfter(value, [s[r]], BareValue(s[r + 1..]));
      value := value + [s[r]];
      r := r + 1;
    }
    BareDone(s[r..], value);
  }

  class CAttribute {
    var name: Str
    var value: Str

    constructor ()
      ensures name == [] && value == []
    {
      name, value := [], [];
    }

    method Parse(s: Str, p0: nat) returns (r: int)
      requires p0 <= |s|
      modifies this
      ensures Reads(s, r, Attr(name, value), ParseAttr(s[p0..]))
    {
      hide ReadName, KeepText, BareValue, SkipSpace, IsSpace;
      var p := SkipWhiteSpace(s, p0);
      if p == |s| {
        NoNameInNothing();
        return -1;
      }
      r, name := ReadNameAt(s, p);
      if r == -1 {
        return;
      }
      p := SkipWhiteSpace(s, r);
      if p == |s| || s[p] != EQ {
        return -1;
      }
      NextSuffix(s, p);
      p := SkipWhiteSpace(s, p + 1);
      if p == |s| {
        return -1;
      }
      NextSuffix(s, p);
      if s[p] == APOS || s[p] == QUOT {
        r, value := ReadKept(s, p + 1, s[p]);
      } else {
        r, value := ReadBare(s, p);
      }
    }
  }

  lemma NoNameInNothing()
    ensures ReadName([]).Fail?
  {
  }

  class CText {
    var value: Str

    constructor ()
      ensures value == []
    {
      value := [];
    }

    /** Goes back one character, to the '<' that ended the text; at the end of the document without
        having met one. */
    method Parse(s: Str, p: nat) returns (r: int)
      requires p < |s|
      modifies this
      ensures var text := CondenseText(SkipSpace(s[p..]), LT, false);
              if text.Fail? then r == -1
              else value == text.value && p <= r < |s| && s[r + 1..] == text.rest && (|text.rest| > 0 ==> s[r] == LT)
    {
      hide CondenseText, SkipSpace;
      r, value := ReadCondensed(s, p, LT);
      if r != -1 {
        r := r - 1;
      }
    }

    method IsBlank() returns (blank: bool)
      ensures blank == Blank(value)
    {
      for i := 0 to |value|
        invariant forall j | 0 <= j < i :: IsSpace(value[j])
      {
        if !IsSpace(value[i]) {
          return false;
        }
      }
      return true;
    }
  }

  // ---------- Elements ----------

  lemma NodesAfterNodes(a: seq<Node>, b: seq<Node>, more: Read<seq<Node>>)
    ensures AfterNodes(a, AfterNodes(b, more)) == AfterNodes(a + b, more)
  {
    if more.Done? {
      AppendAssoc(a, b, more.value);
    }
  }

  lemma NodesAfterNothing(more: Read<seq<Node>>)
    ensures AfterNodes([], more) == more
  {
    if more.Done? {
      assert [] + more.value == more.value;
    }
  }

  lemma FailAfterNodes(nodes: seq<Node>)
    ensures AfterNodes(nodes, Fail) == Fail
  {
  }

  lemma HangsAfterNodes(nodes: seq<Node>)
    ensures AfterNodes(nodes, Forever) == Forever
  {
  }

  /** What a text and the rest of the content come to. */
  lemma ValueText(q: Str)
    requires |q| > 0 && !IsSpace(q[0]) && q[0] != LT
    ensures var text := CondenseText(SkipSpace(q), LT, false);
            ReadValue(q) ==
            if text.Fail? then Fail
            else if |text.rest| == 0 then if q[|q| - 1] == LT || IsSpace(q[|q| - 1]) then Fail else Forever
            else AfterNodes(if Blank(text.value) then [] else [Text(text.value)], ReadValue([LT] + text.rest))
  {
    NoSpaceToSkip(q);
  }

  lemma ValueElement(q: Str)
    requires |q| > 1 && q[0] == LT && q[1] != SLASH && IsNameStart(q[1])
    ensures var element := ParseElement(q);
            ReadValue(q) ==
            if element.Forever? then Forever
            else if element.Fail? then Fail
            else AfterNodes([element.value], ReadValue(element.rest))
  {
    NoSpaceToSkip(q);
  }

  lemma ValueOther(q: Str)
    requires |q| > 0 && q[0] == LT && (|q| == 1 || (q[1] != SLASH && !IsNameStart(q[1])))
    ensures ReadValue(q).Fail?
  {
    NoSpaceToSkip(q);
  }

  lemma ValueEnd(q: Str, nodes: seq<Node>)
    requires StartsWith(q, [LT, SLASH])
    ensures AfterNodes(nodes, ReadValue(q)) == Done(nodes, q)
  {
    EndReads(q);
    assert nodes + [] == nodes;
  }

  lemma LastFails(q: Str)
    requires |q| == 1 && (q[0] == LT || IsSpace(q[0]))
    ensures ReadValue(q).Fail?
  {
    if IsSpace(q[0]) {
      assert q[1..] == [];
      assert SkipSpace([]) == [];
    } else {
      NoSpaceToSkip(q);
    }
  }

  lemma TagSkips(name: Str, attrs: seq<Attr>, q: Str)
    ensures ParseTag(name, attrs, q) == ParseTag(name, attrs, SkipSpace(q))
    ensures |SkipSpace(q)| == 0 ==> ParseTag(name, attrs, q).Fail?
  {
    SkipsOnce(q);
  }

  lemma TagAttr(name: Str, attrs: seq<Attr>, q: Str)
    requires |q| > 0 && !IsSpace(q[0]) && q[0] != SLASH && q[0] != GT
    ensures var attr := ParseAttr(q);
            ParseTag(name, attrs, q) ==
            if attr.Fail? || |attr.rest| == 0 || HasAttr(attrs, attr.value.name) then Fail
            else ParseTag(name, attrs + [attr.value], attr.rest)
  {
    NoSpaceToSkip(q);
  }

  lemma TagEnd(name: Str, attrs: seq<Attr>, q: Str)
    requires |q| > 0 && (q[0] == SLASH || q[0] == GT)
    ensures ParseTag(name, attrs, q) ==
            if q[0] == SLASH then
              if |q| > 1 && q[1] == GT then Done(Element(name, attrs, []), q[2..]) else Fail
            else
              var content := ReadValue(q[1..]);
              if content.Forever? then Forever
              else if content.Fail? || |content.rest| == 0 || !StartsWith(content.rest, [LT, SLASH] + name) then Fail
              else
                var end := SkipSpace(content.rest[2 + |name|..]);
                if |end| > 0 && end[0] == GT then Done(Element(name, attrs, content.value), end[1..]) else Fail
  {
    hide ReadValue, StartsWith;
    NoSpaceToSkip(q);
  }

  method StringEqual(s: Str, p: nat, tag: Str) returns (equal: bool)
    requires p < |s|
    ensures equal == StartsWith(s[p..], tag)
    ensures equal ==> p + |tag| <= |s|
  {
    var i := 0;
    while p + i < |s| && i < |tag| && s[p + i] == tag[i]
      invariant 0 <= i <= |tag| && p + i <= |s| && s[p..][..i] == tag[..i]
    {
      assert s[p..][i] == s[p + i];
      i := i + 1;
    }
    equal := i == |tag|;
    if !equal && |tag| <= |s[p..]| {
      assert s[p..][..|tag|][i] == s[p + i];
    }
  }

  class CElement {
    var value: Str
    var attributes: seq<Attr>
    var children: seq<Node>

    constructor ()
      ensures value == [] && attributes == [] && children == []
    {
      value, attributes, children := [], [], [];
    }

    function Tree(): Node
      reads this
    {
      Element(value, attributes, children)
    }

    /** ReadValue: texts and elements are linked in until an end tag. */
    method ReadContent(s: Str, p0: nat) returns (p: int)
      requires p0 <= |s| && children == []
      modifies this`children
      ensures var content := ReadValue(s[p0..]);
              match content
              case Done(nodes, rest) => 0 <= p <= |s| && children == nodes && s[p..] == rest
              case Fail => p == -1 || p == |s|
              case Forever => p == HANGS
      decreases |s| - p0, 2
    {
      hide ReadValue, ParseElement, CondenseText, SkipSpace, AfterNodes, IsNameStart, Blank;
      ghost var res := ReadValue(s[p0..]);
      NodesAfterNothing(res);
      ValueSkips(s[p0..]);
      p := SkipWhiteSpace(s, p0);
      while p != -1 && p < |s|
        invariant p == -1 || p0 <= p <= |s|
        invariant 0 <= p < |s| ==> !IsSpace(s[p])
        invariant res == if p == -1 then Fail else AfterNodes(children, ReadValue(s[p..]))
        decreases if p == -1 then 0 else |s| + 1 - p
      {
        if s[p] != LT {
          var text := new CText();
          ValueText(s[p..]);
          p := text.Parse(s, p);
          if p != -1 && s[p] != LT && !IsSpace(s[p]) {
            // Every further round reads this last character again: see XmlLoop.LoopForever.
            HangsAfterNodes(children);
            return HANGS;
          }
          var blank := text.IsBlank();
          if p == |s| - 1 {
            LastFails(s[p..]);
            FailAfterNodes(children + if blank then [] else [Text(text.value)]);
            FailAfterNodes(children);
          } else if p != -1 {
            NodesAfterNodes(children, if blank then [] else [Text(text.value)], ReadValue(s[p..]));
            assert s[p..] == [LT] + s[p + 1..];
            assert children + [] == children;
          } else {
            FailAfterNodes(children);
          }
          if !blank {
            children := children + [Text(text.value)];
          }
        } else if p + 1 < |s| && s[p + 1] == SLASH {
          assert s[p..][..2] == [LT, SLASH];
          ValueEnd(s[p..], children);
          return;
        } else if p + 1 < |s| && IsNameStart(s[p + 1]) {
          ValueElement(s[p..]);
          var element := new CElement();
          p := element.Parse(s, p);
          if p == HANGS {
            HangsAfterNodes(children);
            return;
          }
          if p != -1 {
            NodesAfterNodes(children, [element.Tree()], ReadValue(s[p..]));
          } else {
            FailAfterNodes(children);
          }
          children := children + [element.Tree()];
        } else {
          ValueOther(s[p..]);
          FailAfterNodes(children);
          return -1;
        }
        if p != -1 {
          ValueSkips(s[p..]);
          p := SkipWhiteSpace(s, p);
        }
      }
      NothingToRead(children);
    }

    /** TiXmlElement::Parse. */
    method Parse(s: Str, p0: nat) returns (p: int)
      requires p0 <= |s| && attributes == [] && children == []
      modifies this
      ensures Reads(s, p, Tree(), ParseElement(s[p0..]))
      ensures p < 0 || p > p0
      decreases |s| - p0, 1
    {
      hide ParseTag, SkipSpace, ReadName, ParseAttr, ReadValue, StartsWith, HasAttr;
      ghost var res := ParseElement(s[p0..]);
      p := SkipWhiteSpace(s, p0);
      if p == |s| || s[p] != LT {
        return -1;
      }
      NextSuffix(s, p);
      var start := SkipWhiteSpace(s, p + 1);
      p, value := ReadNameAt(s, start);
      if p == -1 || p == |s| {
        return -1;
      }
      while true
        invariant p0 < p < |s| && children == []
        invariant res == ParseTag(value, attributes, s[p..])
        decreases |s| - p
      {
        TagSkips(value, attributes, s[p..]);
        p := SkipWhiteSpace(s, p);
        if p == |s| {
          return -1;
        }
        if s[p] == SLASH || s[p] == GT {
          p := Finish(s, p);
          return;
        }
        TagAttr(value, attributes, s[p..]);
        var attrib := new CAttribute();
        var next := attrib.Parse(s, p);
        if next == -1 || next == |s| {
          return -1;
        }
        var found := FindAttribute(attrib.name);
        if found {
          return -1;
        }
        attributes := attributes + [Attr(attrib.name, attrib.value)];
        p := next;
      }
    }

    method FindAttribute(name: Str) returns (found: bool)
      ensures found == HasAttr(attributes, name)
    {
      for i := 0 to |attributes|
        invariant forall j | 0 <= j < i :: attributes[j].name != name
      {
        if attributes[i].name == name {
          return true;
        }
      }
      return false;
    }

    /** The end of a tag: of an empty element, or of a start tag with content to come. */
    method Finish(s: Str, p0: nat) returns (p: int)
      requires p0 < |s| && (s[p0] == SLASH || s[p0] == GT) && children == []
      modifies this`children
      ensures Reads(s, p, Tree(), ParseTag(value, attributes, s[p0..]))
      ensures p < 0 || p > p0
      decreases |s| - p0, 0
    {
      hide ParseTag, SkipSpace, ReadValue, StartsWith;
      NextSuffix(s, p0);
      TagEnd(value, attributes, s[p0..]);
      p := p0 + 1;
      if s[p0] == SLASH {
        if p == |s| || s[p] != GT {
          return -1;
        }
        DropDrop(s, p0, 2);
        return p + 1;
      }
      p := ReadContent(s, p);
      if p == HANGS {
        return;
      }
      if p == -1 || p == |s| {
        return -1;
      }
      var endTag := [LT, SLASH] + value;
      var ends := StringEqual(s, p, endTag);
      if !ends {
        return -1;
      }
      DropDrop(s, p, |endTag|);
      p := SkipWhiteSpace(s, p + |endTag|);
      if p < |s| && s[p] == GT {
        NextSuffix(s, p);
        return p + 1;
      }
      return -1;
    }
  }

  lemma NothingToRead(nodes: seq<Node>)
    ensures AfterNodes(nodes, ReadValue([])) == Fail
  {
  }
}
