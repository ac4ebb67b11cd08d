/** XML elements and text as byte strings: the compact printed form, what the parser makes of a
    document in an encoding of one byte per character, and why they are inverse. */
module XmlSpec {
  import opened Options
  import opened Chunks

  type Str = seq<byte>

  datatype Attr = Attr(name: Str, value: Str)

  datatype Node =
    | Element(name: Str, attrs: seq<Attr>, children: seq<Node>)
    | Text(value: Str)

  const AMP: byte := 38
  const LT: byte := 60
  const GT: byte := 62
  const QUOT: byte := 34
  const APOS: byte := 39
  const HASH: byte := 35
  const SEMI: byte := 59
  const SPACE: byte := 32
  const SLASH: byte := 47
  const EQ: byte := 61
  const UNDERSCORE: byte := 95
  const LOWER_X: byte := 120

  const AMP_ENT: Str := [38, 97, 109, 112, 59]
  const LT_ENT: Str := [38, 108, 116, 59]
  const GT_ENT: Str := [38, 103, 116, 59]
  const QUOT_ENT: Str := [38, 113, 117, 111, 116, 59]
  const APOS_ENT: Str := [38, 97, 112, 111, 115, 59]

  predicate StartsWith(p: Str, s: Str) {
    |s| <= |p| && p[..|s|] == s
  }

  predicate IsSpace(c: byte) {
    c == SPACE || 9 <= c <= 13
  }

  predicate IsAlpha(c: byte) {
    65 <= c <= 90 || 97 <= c <= 122 || c >= 127
  }

  predicate IsNameStart(c: byte) {
    IsAlpha(c) || c == UNDERSCORE
  }

  /** Letters, digits, '_', '-', '.' and ':'. */
  predicate IsNameChar(c: byte) {
    IsAlpha(c) || 48 <= c <= 57 || c == UNDERSCORE || c == 45 || c == 46 || c == 58
  }

  // ---------- Printing ----------

  function HexDigit(d: int): byte
    requires 0 <= d < 16
  {
    if d < 10 then 48 + d else 55 + d
  }

  /** One character, as an entity where it has to be one. */
  function EncodeChar(c: byte): Str {
    if c == AMP then AMP_ENT
    else if c == LT then LT_ENT
    else if c == GT then GT_ENT
    else if c == QUOT then QUOT_ENT
    else if c == APOS then APOS_ENT
    else if c < 32 then [AMP, HASH, LOWER_X, HexDigit(c / 16), HexDigit(c % 16), SEMI]
    else [c]
  }

  /** Something that looks like a hexadecimal character reference. */
  predicate LooksLikeReference(s: Str) {
    |s| >= 3 && s[0] == AMP && s[1] == HASH && s[2] == LOWER_X
  }

  /** How much of a reference is passed through at once: up to its ';' or the last character. */
  function PassLength(s: Str, k: nat): (n: nat)
    requires k < |s|
    ensures k <= n < |s|
    decreases |s| - k
  {
    if k > 0 && s[k] == SEMI then k else if k + 1 == |s| then k else PassLength(s, k + 1)
  }

  lemma PassesSomething(s: Str)
    requires |s| >= 2
    ensures PassLength(s, 0) >= 1
  {
    assert PassLength(s, 0) == PassLength(s, 1);
  }

  /** EncodeString. */
  function Encode(s: Str): Str
    decreases |s|
  {
    if |s| == 0 then []
    else if LooksLikeReference(s) then
      PassesSomething(s);
      s[..PassLength(s, 0)] + Encode(s[PassLength(s, 0)..])
    else EncodeChar(s[0]) + Encode(s[1..])
  }

  function PrintAttr(a: Attr): Str {
    var quote: byte := if QUOT in a.value then APOS else QUOT;
    Encode(a.name) + [EQ, quote] + Encode(a.value) + [quote]
  }

  function PrintAttrs(attrs: seq<Attr>): Str {
    if |attrs| == 0 then [] else [SPACE] + PrintAttr(attrs[0]) + PrintAttrs(attrs[1..])
  }

  /** A tree without any line breaks or indentation. */
  function Print(n: Node): Str
    decreases n, 0
  {
    match n
    case Text(value) => Encode(value)
    case Element(name, attrs, children) =>
      [LT] + name + PrintAttrs(attrs) + PrintContent(name, children)
  }

  /** An element after its attributes. */
  function PrintContent(name: Str, children: seq<Node>): Str
    decreases children, 1
  {
    if |children| == 0 then [SPACE, SLASH, GT] else [GT] + PrintAll(children) + EndTag(name)
  }

  function EndTag(name: Str): Str {
    [LT, SLASH] + name + [GT]
  }

  function PrintAll(nodes: seq<Node>): Str
    decreases nodes, 0
  {
    if |nodes| == 0 then [] else Print(nodes[0]) + PrintAll(nodes[1..])
  }

  // ---------- Parsing ----------

  function SkipSpace(p: Str): (r: Str)
    ensures |r| <= |p|
  {
    if |p| > 0 && IsSpace(p[0]) then SkipSpace(p[1..]) else p
  }

  /** How many name characters p starts with. */
  function NameLength(p: Str): (n: nat)
    ensures n <= |p|
  {
    if |p| > 0 && IsNameChar(p[0]) then 1 + NameLength(p[1..]) else 0
  }

  /** A null pointer, a value and what follows it, or a run that never ends. */
  datatype Read<T> = Fail | Done(value: T, rest: Str) | Forever

  function ReadName(p: Str): (res: Read<Str>)
    ensures !res.Forever?
    ensures res.Done? ==> |res.rest| < |p|
  {
    if |p| > 0 && IsNameStart(p[0]) then
      var n := NameLength(p);
      Done(p[..n], p[n..])
    else Fail
  }

  /** strchr. */
  function IndexOf(p: Str, c: byte): (i: int)
    ensures i == -1 || (0 <= i < |p| && p[i] == c)
  {
    if |p| == 0 then -1
    else if p[0] == c then 0
    else
      var i := IndexOf(p[1..], c);
      if i == -1 then -1 else 1 + i
  }

  function DigitValue(c: byte): int {
    if 48 <= c <= 57 then c as int - 48
    else if 97 <= c <= 102 then c as int - 87
    else if 65 <= c <= 70 then c as int - 55
    else -1
  }

  /** The digits of p before position q, read backwards to the character stop. */
  function Number(p: Str, q: nat, base: int, stop: byte): Option<int>
    requires q <= |p|
  {
    if q == 0 then None
    else if p[q - 1] == stop then Some(0)
    else
      var d := DigitValue(p[q - 1]);
      var high := Number(p, q - 1, base, stop);
      if 0 <= d < base && high.Some? then Some(base * high.value + d) else None
  }

  /** GetEntity, at a '&': nothing for one that is not recognized. */
  function GetEntity(p: Str): (res: Read<Str>)
    requires |p| > 0
    ensures !res.Forever?
    ensures res.Done? ==> |res.rest| < |p|
  {
    if |p| > 2 && p[1] == HASH then
      var hex := p[2] == LOWER_X;
      var end := IndexOf(p, SEMI);
      if end < (if hex then 3 else 2) then Fail
      else
        var ucs := Number(p, end, if hex then 16 else 10, if hex then LOWER_X else HASH);
        if ucs.None? then Fail else Done([ucs.value % 256], p[end + 1..])
    else if StartsWith(p, AMP_ENT) then Done([AMP], p[5..])
    else if StartsWith(p, LT_ENT) then Done([LT], p[4..])
    else if StartsWith(p, GT_ENT) then Done([GT], p[4..])
    else if StartsWith(p, QUOT_ENT) then Done([QUOT], p[6..])
    else if StartsWith(p, APOS_ENT) then Done([APOS], p[6..])
    else Done([], p[1..])
  }

  function GetChar(p: Str): (res: Read<Str>)
    requires |p| > 0
    ensures !res.Forever?
    ensures res.Done? ==> |res.rest| < |p|
  {
    if p[0] == AMP then GetEntity(p) else Done([p[0]], p[1..])
  }

  /** ReadText that keeps white space, up to the character end, which is consumed. */
  function KeepText(p: Str, end: byte): (res: Read<Str>)
    ensures !res.Forever?
    ensures res.Done? ==> |res.rest| <= |p|
    decreases |p|
  {
    if |p| == 0 then Done([], p)
    else if p[0] == end then Done([], p[1..])
    else
      var c := GetChar(p);
      if c.Fail? then Fail
      else
        var more := KeepText(c.rest, end);
        if more.Fail? then Fail else Done(c.value + more.value, more.rest)
  }

  /** ReadText that turns runs of white space into one space each and drops those at the ends. */
  function CondenseText(p: Str, end: byte, space: bool): (res: Read<Str>)
    ensures !res.Forever?
    ensures res.Done? ==> |res.rest| <= |p|
    ensures res.Done? && |res.rest| > 0 ==> |res.rest| < |p|
    ensures res.Done? && |res.rest| > 0 && p[0] != end ==> |res.rest| + 1 < |p|
    decreases |p|
  {
    if |p| == 0 then Done([], p)
    else if p[0] == end then Done([], p[1..])
    else if IsSpace(p[0]) then CondenseText(p[1..], end, true)
    else
      var c := GetChar(p);
      if c.Fail? then Fail
      else
        var more := CondenseText(c.rest, end, false);
        if more.Fail? then Fail else Done((if space then [SPACE] else []) + c.value + more.value, more.rest)
  }

  /** A value without quotes, up to white space or the end of the tag. */
  function BareValue(p: Str): (res: Read<Str>)
    ensures !res.Forever?
    ensures res.Done? ==> |res.rest| <= |p|
  {
    if |p| == 0 || IsSpace(p[0]) || p[0] == SLASH || p[0] == GT then Done([], p)
    else if p[0] == APOS || p[0] == QUOT then Fail
    else
      var more := BareValue(p[1..]);
      if more.Fail? then Fail else Done([p[0]] + more.value, more.rest)
  }

  function ParseAttr(p0: Str): (res: Read<Attr>)
    ensures !res.Forever?
    ensures res.Done? ==> |res.rest| < |p0|
  {
    var p := SkipSpace(p0);
    var name := ReadName(p);
    if name.Fail? then Fail
    else
      var p1 := SkipSpace(name.rest);
      if |p1| == 0 || p1[0] != EQ then Fail
      else
        var p2 := SkipSpace(p1[1..]);
        if |p2| == 0 then Fail
        else
          var value := if p2[0] == APOS || p2[0] == QUOT then KeepText(p2[1..], p2[0]) else BareValue(p2);
          if value.Fail? then Fail else Done(Attr(name.value, value.value), value.rest)
  }

  predicate HasAttr(attrs: seq<Attr>, name: Str) {
    exists i :: 0 <= i < |attrs| && attrs[i].name == name
  }

  predicate Blank(s: Str) {
    forall i :: 0 <= i < |s| ==> IsSpace(s[i])
  }

  /** TiXmlElement::Parse. */
  function ParseElement(p0: Str): (res: Read<Node>)
    ensures res.Done? ==> res.value.Element? && |res.rest| < |p0|
    decreases |p0|, 1
  {
    var p := SkipSpace(p0);
    if |p| == 0 || p[0] != LT then Fail
    else
      var name := ReadName(SkipSpace(p[1..]));
      if name.Fail? || |name.rest| == 0 then Fail else ParseTag(name.value, [], name.rest)
  }

  /** The rest of an element after its name and the attributes so far. */
  function ParseTag(name: Str, attrs: seq<Attr>, p0: Str): (res: Read<Node>)
    ensures res.Done? ==> res.value.Element? && |res.rest| < |p0|
    decreases |p0|, 2
  {
    var p := SkipSpace(p0);
    if |p| == 0 then Fail
    else if p[0] == SLASH then
      if |p| > 1 && p[1] == GT then Done(Element(name, attrs, []), p[2..]) else Fail
    else if p[0] == GT then
      var content := ReadValue(p[1..]);
      if content.Forever? then Forever
      else if content.Fail? || |content.rest| == 0 then Fail
      else if !StartsWith(content.rest, [LT, SLASH] + name) then Fail
      else
        var q := SkipSpace(content.rest[2 + |name|..]);
        if |q| > 0 && q[0] == GT then Done(Element(name, attrs, content.value), q[1..]) else Fail
    else
      var attr := ParseAttr(p);
      if attr.Fail? || |attr.rest| == 0 || HasAttr(attrs, attr.value.name) then Fail
      else ParseTag(name, attrs + [attr.value], attr.rest)
  }

  /** TiXmlElement::ReadValue: text and elements up to an end tag.  A text that is not ended by a tag
      is read again from its last character, forever unless that is a space.  Other kinds of nodes
      are not modelled. */
  function ReadValue(p0: Str): (res: Read<seq<Node>>)
    ensures res.Done? ==> |res.rest| <= |p0|
    decreases |p0|, 3
  {
    var p := SkipSpace(p0);
    if |p| == 0 then Fail
    else if p[0] != LT then
      var text := CondenseText(p, LT, false);
      if text.Fail? then Fail
      else if |text.rest| == 0 then
        if p[|p| - 1] == LT || IsSpace(p[|p| - 1]) then Fail else Forever
      else AfterNodes(if Blank(text.value) then [] else [Text(text.value)], ReadValue([LT] + text.rest))
    else if |p| > 1 && p[1] == SLASH then Done([], p)
    else if |p| > 1 && IsNameStart(p[1]) then
      var element := ParseElement(p);
      if element.Forever? then Forever
      else if element.Fail? then Fail
      else AfterNodes([element.value], ReadValue(element.rest))
    else Fail
  }

  /** What comes of the content when some nodes have been read. */
  function AfterNodes(nodes: seq<Node>, more: Read<seq<Node>>): (res: Read<seq<Node>>)
    ensures res.Done? <==> more.Done?
    ensures res.Done? ==> res.rest == more.rest
  {
    if more.Done? then Done(nodes + more.value, more.rest) else more
  }

  // ---------- The trees that survive ----------

  predicate ValidName(s: Str) {
    |s| > 0 && IsNameStart(s[0]) && forall i :: 0 <= i < |s| ==> IsNameChar(s[i])
  }

  /** Nothing in s is taken for a hexadecimal reference when it is printed. */
  predicate Plain(s: Str) {
    forall i :: 0 <= i < |s| ==> !LooksLikeReference(s[i..])
  }

  /** No two spaces in a row, and none at the end. */
  predicate SingleSpaces(s: Str) {
    forall i :: 0 <= i < |s| && s[i] == SPACE ==> i + 1 < |s| && s[i + 1] != SPACE
  }

  predicate CondensedText(s: Str) {
    Plain(s) && !Blank(s) && s[0] != SPACE && SingleSpaces(s)
  }

  predicate DistinctNames(attrs: seq<Attr>) {
    forall i, j :: 0 <= i < j < |attrs| ==> attrs[i].name != attrs[j].name
  }

  predicate AttrOk(a: Attr) {
    ValidName(a.name) && Plain(a.value)
  }

  predicate Printable(n: Node)
    decreases n, 0
  {
    match n
    case Text(value) => CondensedText(value)
    case Element(name, attrs, children) =>
      && ValidName(name) && (forall i :: 0 <= i < |attrs| ==> AttrOk(attrs[i])) && DistinctNames(attrs)
      && AllPrintable(children)
  }

  /** No two texts next to each other. */
  predicate AllPrintable(nodes: seq<Node>)
    decreases nodes
  {
    |nodes| > 0 ==>
      && Printable(nodes[0]) && AllPrintable(nodes[1..])
      && (nodes[0].Text? && |nodes| > 1 ==> nodes[1].Element?)
  }

  // ---------- Characters and text ----------

  lemma PrefixOf(s: Str, rest: Str)
    ensures StartsWith(s + rest, s) && (s + rest)[|s|..] == rest
  {
    assert (s + rest)[..|s|] == s;
  }

  lemma ReferenceReads(c: byte, rest: Str)
    requires c < 32
    ensures GetChar(EncodeChar(c) + rest) == Done([c], rest)
  {
    var p := EncodeChar(c) + rest;
    assert p[0] == AMP && p[1] == HASH && p[2] == LOWER_X && p[3] == HexDigit(c / 16) && p[4] == HexDigit(c % 16) && p[5] == SEMI;
    FirstAt(p, SEMI, 5);
    assert Number(p, 3, 16, LOWER_X) == Some(0);
    assert Number(p, 4, 16, LOWER_X) == Some(c as int / 16);
    assert Number(p, 5, 16, LOWER_X) == Some(c as int);
    assert p[6..] == rest;
  }

  lemma {:induction false} NowhereFound(p: Str, c: byte)
    requires c !in p
    ensures IndexOf(p, c) == -1
    decreases |p|
  {
    if |p| > 0 {
      NowhereFound(p[1..], c);
    }
  }

  lemma {:induction false} FirstAt(p: Str, c: byte, i: nat)
    requires i < |p| && p[i] == c && forall j :: 0 <= j < i ==> p[j] != c
    ensures IndexOf(p, c) == i
    decreases i
  {
    if i > 0 {
      assert p[1..][i - 1] == p[i];
      forall j | 0 <= j < i - 1
        ensures p[1..][j] != c
      {
        assert p[1..][j] == p[j + 1];
      }
      FirstAt(p[1..], c, i - 1);
    }
  }

  lemma EntityReads(ent: Str, rest: Str)
    requires ent == AMP_ENT || ent == LT_ENT || ent == GT_ENT || ent == QUOT_ENT || ent == APOS_ENT
    ensures GetChar(ent + rest) ==
            Done([if ent == AMP_ENT then AMP else if ent == LT_ENT then LT else if ent == GT_ENT then GT
                  else if ent == QUOT_ENT then QUOT else APOS], rest)
  {
    PrefixOf(ent, rest);
    var p := ent + rest;
    assert p[0] == AMP && p[1] == ent[1] && p[2] == ent[2];
  }

  /** A printed character is read back as itself. */
  lemma CharReads(c: byte, rest: Str)
    ensures |EncodeChar(c)| > 0 && GetChar(EncodeChar(c) + rest) == Done([c], rest)
    ensures var d := EncodeChar(c)[0]; d != LT && d != QUOT && d != APOS && (IsSpace(d) <==> c == SPACE)
  {
    if c == AMP || c == LT || c == GT || c == QUOT || c == APOS {
      EntityReads(EncodeChar(c), rest);
    } else if c < 32 {
      ReferenceReads(c, rest);
    } else {
      assert ([c] + rest)[1..] == rest;
    }
  }

  lemma EncodeStep(s: Str, rest: Str)
    requires |s| > 0 && Plain(s)
    ensures Encode(s) + rest == EncodeChar(s[0]) + (Encode(s[1..]) + rest)
    ensures Plain(s[1..])
  {
    assert s[0..] == s;
    AppendAssoc(EncodeChar(s[0]), Encode(s[1..]), rest);
    forall i | 0 <= i < |s[1..]|
      ensures !LooksLikeReference(s[1..][i..])
    {
      DropDrop(s, 1, i);
    }
  }

  lemma NotAtEnd(c: byte, rest: Str)
    ensures |EncodeChar(c)| > 0 && (EncodeChar(c) + rest)[0] == EncodeChar(c)[0]
  {
  }

  /** A printed attribute value is read back up to its closing quote. */
  lemma {:induction false} KeepReads(v: Str, quote: byte, rest: Str)
    requires Plain(v) && (quote == QUOT || quote == APOS)
    ensures KeepText(Encode(v) + ([quote] + rest), quote) == Done(v, rest)
    decreases |v|
  {
    hide EncodeChar, GetChar, Plain, Encode;
    var tail := [quote] + rest;
    if |v| == 0 {
      EncodeNothing();
      assert Encode(v) + tail == tail && tail[1..] == rest;
    } else {
      EncodeStep(v, tail);
      var more := Encode(v[1..]) + tail;
      CharReads(v[0], more);
      NotAtEnd(v[0], more);
      KeepReads(v[1..], quote, rest);
      assert [v[0]] + v[1..] == v;
    }
  }

  function AfterSpace(space: bool, s: Str): Str {
    if space then [SPACE] + s else s
  }

  lemma EncodeNothing()
    ensures Encode([]) == []
  {
  }

  /** A text with each run of spaces made one, or dropped at the end. */
  function Condense(v: Str, space: bool): (r: Str)
    ensures |r| <= |v| + if space then 1 else 0
  {
    if |v| == 0 then []
    else if v[0] == SPACE then Condense(v[1..], true)
    else AfterSpace(space, [v[0]] + Condense(v[1..], false))
  }

  /** A printed text is read, up to the next tag, with its spaces condensed. */
  lemma {:induction false} CondenseReads(v: Str, rest: Str, space: bool)
    requires Plain(v)
    ensures CondenseText(Encode(v) + ([LT] + rest), LT, space) == Done(Condense(v, space), rest)
    decreases |v|
  {
    hide EncodeChar, GetChar, Plain, Encode, IsSpace;
    var tail := [LT] + rest;
    if |v| == 0 {
      EncodeNothing();
      assert Encode(v) + tail == tail && tail[1..] == rest;
    } else {
      EncodeStep(v, tail);
      var more := Encode(v[1..]) + tail;
      var p := EncodeChar(v[0]) + more;
      CharReads(v[0], more);
      NotAtEnd(v[0], more);
      if v[0] == SPACE {
        SpaceIsItself();
        assert p[1..] == more;
        CondenseReads(v[1..], rest, true);
      } else {
        CondenseReads(v[1..], rest, false);
        CondenseStep(p, LT, space);
        var back := Condense(v[1..], false);
        assert AfterSpace(space, [v[0]] + back) == (if space then [SPACE] else []) + [v[0]] + back;
      }
    }
  }

  /** Which texts condensing leaves alone. */
  lemma {:induction false} CondenseSame(v: Str, space: bool)
    ensures Condense(v, space) == AfterSpace(space, v) <==> SingleSpaces(v) && (space ==> |v| > 0 && v[0] != SPACE)
    decreases |v|
  {
    if |v| > 0 {
      SpacesStep(v);
      assert v == [v[0]] + v[1..];
      if v[0] == SPACE {
        CondenseSame(v[1..], true);
      } else {
        CondenseSame(v[1..], false);
        var back := Condense(v[1..], false);
        assert AfterSpace(space, [v[0]] + back)[(if space then 2 else 1)..] == back;
        assert AfterSpace(space, [v[0]] + v[1..])[(if space then 2 else 1)..] == v[1..];
      }
    }
  }

  lemma CondenseStep(p: Str, end: byte, space: bool)
    requires |p| > 0 && p[0] != end && !IsSpace(p[0]) && GetChar(p).Done?
    requires CondenseText(GetChar(p).rest, end, false).Done?
    ensures var c := GetChar(p);
            var more := CondenseText(c.rest, end, false);
            CondenseText(p, end, space) == Done((if space then [SPACE] else []) + c.value + more.value, more.rest)
  {
  }

  lemma SpaceIsItself()
    ensures EncodeChar(SPACE) == [SPACE] && IsSpace(SPACE)
  {
  }

  lemma SpacesStep(v: Str)
    requires |v| > 0
    ensures SingleSpaces(v) <==>
            SingleSpaces(v[1..]) && (v[0] == SPACE ==> |v[1..]| > 0 && v[1..][0] != SPACE)
  {
    var w := v[1..];
    if SingleSpaces(v) {
      forall i | 0 <= i < |w| && w[i] == SPACE
        ensures i + 1 < |w| && w[i + 1] != SPACE
      {
        assert v[i + 1] == SPACE;
      }
    }
    if SingleSpaces(w) && (v[0] == SPACE ==> |w| > 0 && w[0] != SPACE) {
      forall i | 0 <= i < |v| && v[i] == SPACE
        ensures i + 1 < |v| && v[i + 1] != SPACE
      {
        assert i > 0 ==> w[i - 1] == SPACE;
      }
    }
  }

  // ---------- Names and attributes ----------

  lemma {:induction false} NameRuns(s: Str, rest: Str)
    requires forall i :: 0 <= i < |s| ==> IsNameChar(s[i])
    requires |rest| > 0 ==> !IsNameChar(rest[0])
    ensures NameLength(s + rest) == |s|
    ensures Encode(s) == s
    decreases |s|
  {
    hide IsNameChar, EncodeChar, Encode;
    if |s| == 0 {
      assert s + rest == rest;
      EncodeNothing();
    } else {
      assert (s + rest)[1..] == s[1..] + rest;
      NameRuns(s[1..], rest);
      NameCharIsItself(s);
      assert [s[0]] + s[1..] == s;
    }
  }

  lemma NameCharIsItself(s: Str)
    requires |s| > 0 && IsNameChar(s[0])
    ensures Encode(s) == [s[0]] + Encode(s[1..])
  {
  }

  lemma NameReads(name: Str, rest: Str)
    requires ValidName(name) && (|rest| > 0 ==> !IsNameChar(rest[0]))
    ensures ReadName(name + rest) == Done(name, rest)
    ensures SkipSpace(name + rest) == name + rest
  {
    NameRuns(name, rest);
    PrefixOf(name, rest);
  }

  lemma ValueSkips(q: Str)
    ensures ReadValue(q) == ReadValue(SkipSpace(q))
  {
    SkipsOnce(q);
  }

  lemma {:induction false} SkipsOnce(q: Str)
    ensures SkipSpace(SkipSpace(q)) == SkipSpace(q)
    decreases |q|
  {
    if |q| > 0 && IsSpace(q[0]) {
      SkipsOnce(q[1..]);
    }
  }

  lemma NoSpaceToSkip(p: Str)
    requires |p| > 0 ==> !IsSpace(p[0])
    ensures SkipSpace(p) == p
  {
  }

  function QuoteFor(value: Str): (quote: byte)
    ensures quote == QUOT || quote == APOS
  {
    if QUOT in value then APOS else QUOT
  }

  lemma AttrParts(a: Attr, rest: Str)
    requires ValidName(a.name)
    ensures var quote := QuoteFor(a.value);
            PrintAttr(a) + rest == a.name + ([EQ] + ([quote] + (Encode(a.value) + ([quote] + rest))))
  {
    NameRuns(a.name, []);
  }

  /** A printed attribute is read back. */
  lemma AttrReads(a: Attr, rest: Str)
    requires AttrOk(a)
    ensures ParseAttr(PrintAttr(a) + rest) == Done(a, rest)
    ensures SkipSpace(PrintAttr(a) + rest) == PrintAttr(a) + rest
    ensures |PrintAttr(a)| > 0 && IsNameStart(PrintAttr(a)[0])
  {
    hide KeepText, Encode, PrintAttr, ReadName, Plain;
    var quote := QuoteFor(a.value);
    var after := Encode(a.value) + ([quote] + rest);
    var p1 := [EQ] + ([quote] + after);
    AttrParts(a, []);
    AttrParts(a, rest);
    NameReads(a.name, p1);
    NoSpaceToSkip(p1);
    assert p1[1..] == [quote] + after;
    NoSpaceToSkip([quote] + after);
    assert ([quote] + after)[1..] == after;
    KeepReads(a.value, quote, rest);
  }

  lemma SpaceThen(p: Str)
    requires |p| > 0 ==> !IsSpace(p[0])
    ensures SkipSpace([SPACE] + p) == p
  {
    assert ([SPACE] + p)[1..] == p;
  }

  /** Reading the printed attributes amounts to having them. */
  lemma {:induction false} AttrsRead(name: Str, done: seq<Attr>, todo: seq<Attr>, tail: Str)
    requires forall i :: 0 <= i < |todo| ==> AttrOk(todo[i])
    requires DistinctNames(done + todo) && |tail| > 0
    ensures ParseTag(name, done, PrintAttrs(todo) + tail) == ParseTag(name, done + todo, tail)
    decreases |todo|
  {
    hide ParseTag, PrintAttrs, PrintAttr, AttrOk, DistinctNames, HasAttr;
    if |todo| == 0 {
      PrintedAttrs(todo, tail);
      assert done + todo == done;
    } else {
      var rest := PrintAttrs(todo[1..]) + tail;
      NotThere(done, todo);
      AttrStep(name, done, todo[0], rest);
      PrintedAttrs(todo, tail);
      HeadToLast(done, todo);
      AttrsRead(name, done + [todo[0]], todo[1..], tail);
    }
  }

  lemma PrintedAttrs(attrs: seq<Attr>, tail: Str)
    ensures PrintAttrs(attrs) + tail ==
            if |attrs| == 0 then tail else [SPACE] + (PrintAttr(attrs[0]) + (PrintAttrs(attrs[1..]) + tail))
  {
    hide PrintAttr;
    if |attrs| > 0 {
      assert PrintAttrs(attrs) == [SPACE] + PrintAttr(attrs[0]) + PrintAttrs(attrs[1..]);
    }
  }

  lemma HeadToLast<T>(s: seq<T>, t: seq<T>)
    requires |t| > 0
    ensures s + t == (s + [t[0]]) + t[1..]
  {
  }

  lemma NotThere(done: seq<Attr>, todo: seq<Attr>)
    requires DistinctNames(done + todo) && |todo| > 0
    ensures !HasAttr(done, todo[0].name)
  {
    forall i | 0 <= i < |done|
      ensures done[i].name != todo[0].name
    {
      assert (done + todo)[i] == done[i] && (done + todo)[|done|] == todo[0];
    }
  }

  lemma AttrStep(name: Str, done: seq<Attr>, a: Attr, rest: Str)
    requires AttrOk(a) && !HasAttr(done, a.name) && |rest| > 0
    ensures ParseTag(name, done, [SPACE] + (PrintAttr(a) + rest)) == ParseTag(name, done + [a], rest)
  {
    hide ParseAttr, PrintAttr, HasAttr, AttrOk, ReadValue;
    var p := PrintAttr(a) + rest;
    AttrReads(a, rest);
    assert p[0] == PrintAttr(a)[0];
    SpaceThen(p);
  }

  // ---------- Elements ----------

  lemma EmptyTagReads(name: Str, attrs: seq<Attr>, rest: Str)
    ensures ParseTag(name, attrs, [SPACE, SLASH, GT] + rest) == Done(Element(name, attrs, []), rest)
  {
    var p := [SLASH, GT] + rest;
    assert [SPACE, SLASH, GT] + rest == [SPACE] + p;
    SpaceThen(p);
    assert p[2..] == rest;
  }

  lemma EndTagReads(name: Str, attrs: seq<Attr>, children: seq<Node>, inner: Str, rest: Str)
    requires ReadValue(inner) == Done(children, EndTag(name) + rest)
    ensures ParseTag(name, attrs, [GT] + inner) == Done(Element(name, attrs, children), rest)
  {
    hide ReadValue;
    var p := [GT] + inner;
    NoSpaceToSkip(p);
    assert p[1..] == inner;
    var end := EndTag(name) + rest;
    var close := [GT] + rest;
    assert end == [LT, SLASH] + name + close;
    PrefixOf([LT, SLASH] + name, close);
    NoSpaceToSkip(close);
    assert close[1..] == rest;
  }

  /** A printed element is read back. */
  lemma {:induction false} ElementReads(n: Node, rest: Str)
    requires n.Element? && Printable(n)
    ensures ParseElement(Print(n) + rest) == Done(n, rest)
    decreases n, 0
  {
    hide ParseTag, ParseElement, PrintAttrs, Print, PrintAll, PrintContent, ValidName, AttrOk, DistinctNames, EndTag, ReadValue;
    var content := PrintContent(n.name, n.children) + rest;
    ElementParts(n, rest);
    ContentParts(n.name, n.children, rest);
    PrintedAttrsStart(n.attrs, content);
    OpenTagReads(n.name, PrintAttrs(n.attrs) + content);
    assert [] + n.attrs == n.attrs;
    AttrsRead(n.name, [], n.attrs, content);
    if |n.children| == 0 {
      EmptyTagReads(n.name, n.attrs, rest);
    } else {
      ChildrenRead(n.children, EndTag(n.name) + rest);
      EndTagReads(n.name, n.attrs, n.children, PrintAll(n.children) + (EndTag(n.name) + rest), rest);
    }
  }

  lemma ElementParts(n: Node, rest: Str)
    requires n.Element?
    ensures Print(n) + rest ==
            [LT] + (n.name + (PrintAttrs(n.attrs) + (PrintContent(n.name, n.children) + rest)))
  {
    hide PrintAttrs, PrintContent;
    var a, b := PrintAttrs(n.attrs), PrintContent(n.name, n.children);
    AppendAssoc([LT] + n.name + a, b, rest);
    AppendAssoc([LT] + n.name, a, b + rest);
    AppendAssoc([LT], n.name, a + (b + rest));
  }

  lemma ContentParts(name: Str, children: seq<Node>, rest: Str)
    ensures var content := PrintContent(name, children) + rest;
            && |content| > 0 && !IsNameChar(content[0])
            && content == if |children| == 0 then [SPACE, SLASH, GT] + rest
                          else [GT] + (PrintAll(children) + (EndTag(name) + rest))
    ensures StartsWith(EndTag(name) + rest, [LT, SLASH])
  {
    hide PrintAll;
    assert EndTag(name) + rest == [LT, SLASH] + (name + [GT] + rest);
    PrefixOf([LT, SLASH], name + [GT] + rest);
  }

  lemma PrintedAttrsStart(attrs: seq<Attr>, tail: Str)
    requires |tail| > 0 && !IsNameChar(tail[0])
    ensures var p := PrintAttrs(attrs) + tail; |p| > 0 && !IsNameChar(p[0])
  {
    hide PrintAttr;
    if |attrs| > 0 {
      assert PrintAttrs(attrs)[0] == SPACE;
    }
  }

  lemma OpenTagReads(name: Str, tag: Str)
    requires ValidName(name) && |tag| > 0 && !IsNameChar(tag[0])
    ensures ParseElement([LT] + (name + tag)) == ParseTag(name, [], tag)
  {
    hide ParseTag, ReadName, ValidName;
    var p := [LT] + (name + tag);
    NoSpaceToSkip(p);
    assert p[1..] == name + tag;
    NameReads(name, tag);
  }

  /** What follows a text begins with '<'. */
  lemma PrintedStart(nodes: seq<Node>, rest: Str)
    requires AllPrintable(nodes) && StartsWith(rest, [LT, SLASH]) && (|nodes| > 0 ==> nodes[0].Element?)
    ensures var q := PrintAll(nodes) + rest; |q| > 1 && q == [LT] + q[1..]
  {
    assert rest[0] == LT;
  }

  /** Printed nodes, followed by an end tag, are read back. */
  lemma {:induction false} ChildrenRead(nodes: seq<Node>, rest: Str)
    requires AllPrintable(nodes) && StartsWith(rest, [LT, SLASH])
    ensures ReadValue(PrintAll(nodes) + rest) == Done(nodes, rest)
    decreases nodes, 1
  {
    hide ReadValue, ParseElement, Print;
    if |nodes| == 0 {
      assert PrintAll(nodes) + rest == rest;
      EndReads(rest);
    } else {
      var q := PrintAll(nodes[1..]) + rest;
      AppendAssoc(Print(nodes[0]), PrintAll(nodes[1..]), rest);
      ChildrenRead(nodes[1..], rest);
      assert [nodes[0]] + nodes[1..] == nodes;
      if nodes[0].Text? {
        PrintedStart(nodes[1..], rest);
        TextPrints(nodes[0]);
        TextThen(nodes[0].value, q);
      } else {
        ElementReads(nodes[0], q);
        ElementThen(nodes[0], q);
      }
    }
  }

  lemma TextPrints(n: Node)
    requires n.Text?
    ensures Print(n) == Encode(n.value)
  {
  }

  lemma EndReads(rest: Str)
    requires StartsWith(rest, [LT, SLASH])
    ensures ReadValue(rest) == Done([], rest)
  {
    assert rest[0] == LT && rest[1] == SLASH;
    NoSpaceToSkip(rest);
  }

  lemma TextThen(v: Str, q: Str)
    requires CondensedText(v) && |q| > 1 && q == [LT] + q[1..] && ReadValue(q).Done?
    ensures ReadValue(Encode(v) + q) == Done([Text(v)] + ReadValue(q).value, ReadValue(q).rest)
  {
    hide EncodeChar, CondenseText, Encode, Plain;
    CondenseReads(v, q[1..], false);
    CondenseSame(v, false);
    EncodeStep(v, q);
    CharReads(v[0], Encode(v[1..]) + q);
    NotAtEnd(v[0], Encode(v[1..]) + q);
    NoSpaceToSkip(Encode(v) + q);
  }

  lemma ElementThen(n: Node, q: Str)
    requires n.Element? && Printable(n) && ParseElement(Print(n) + q) == Done(n, q) && ReadValue(q).Done?
    ensures ReadValue(Print(n) + q) == Done([n] + ReadValue(q).value, ReadValue(q).rest)
  {
    hide ParseElement;
    var p := Print(n) + q;
    assert p[0] == LT && p[1] == n.name[0];
    NoSpaceToSkip(p);
  }

  /** Any printable tree survives printing and parsing. */
  lemma RoundTrip(n: Node)
    requires n.Element? && Printable(n)
    ensures ParseElement(Print(n)) == Done(n, [])
  {
    ElementReads(n, []);
    assert Print(n) + [] == Print(n);
  }
}
