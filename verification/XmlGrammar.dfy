/** The documents the parser accepts and what they mean: a grammar with free white space, any quotes or
    none, and characters written as themselves or as references, and the proof that the parser reads
    exactly this grammar. */
module XmlGrammar {
  import opened Chunks
  import opened XmlSpec
  import opened XmlReferences

  /** A character as it is written and what it stands for. */
  datatype Unit = Unit(text: Str, value: Str)

  datatype Spelling = Quoted(quote: byte, units: seq<Unit>) | Bare(text: Str)

  /** lead, mid and pad are the white space before the name, before and after the equals sign. */
  datatype TagAttr = TagAttr(lead: Str, name: Str, mid: Str, pad: Str, value: Spelling)

  datatype Item =
    | Tag(lead: Str, gap: Str, name: Str, attrs: seq<TagAttr>, pad: Str, body: Body)
    | Words(space: Str, units: seq<Unit>)

  /** What follows the attributes: "/>", or the content and the end tag. */
  datatype Body = Closed | Open(items: seq<Item>, lead: Str, endPad: Str)

  // ---------- How a document is written, in front of what follows it ----------

  function WriteUnits(units: seq<Unit>, next: Str): Str {
    if |units| == 0 then next else units[0].text + WriteUnits(units[1..], next)
  }

  function WriteValue(v: Spelling, next: Str): Str {
    match v
    case Quoted(quote, units) => [quote] + WriteUnits(units, [quote] + next)
    case Bare(text) => text + next
  }

  function WriteAttr(a: TagAttr, next: Str): Str {
    a.lead + (a.name + (a.mid + ([EQ] + (a.pad + WriteValue(a.value, next)))))
  }

  function WriteAttrs(attrs: seq<TagAttr>, next: Str): Str {
    if |attrs| == 0 then next else WriteAttr(attrs[0], WriteAttrs(attrs[1..], next))
  }

  function WriteEnd(name: Str, endPad: Str, next: Str): Str {
    ([LT, SLASH] + name) + (endPad + ([GT] + next))
  }

  function WriteBody(b: Body, name: Str, next: Str): Str
    decreases b, 0
  {
    match b
    case Closed => [SLASH, GT] + next
    case Open(items, lead, endPad) => [GT] + WriteItems(items, lead + WriteEnd(name, endPad, next))
  }

  function WriteItem(item: Item, next: Str): Str
    decreases item, 0
  {
    match item
    case Tag(lead, gap, name, attrs, pad, body) =>
      lead + ([LT] + (gap + (name + WriteAttrs(attrs, pad + WriteBody(body, name, next)))))
    case Words(space, units) => space + WriteUnits(units, next)
  }

  function WriteItems(items: seq<Item>, next: Str): Str
    decreases items, 0
  {
    if |items| == 0 then next else WriteItem(items[0], WriteItems(items[1..], next))
  }

  // ---------- What it means ----------

  function MeanUnits(units: seq<Unit>): Str {
    if |units| == 0 then [] else units[0].value + MeanUnits(units[1..])
  }

  predicate IsGap(u: Unit) {
    |u.text| > 0 && IsSpace(u.text[0])
  }

  function FirstWord(units: seq<Unit>): (w: seq<Unit>)
    ensures |w| <= |units| && (|units| > 0 && !IsGap(units[0]) ==> |w| > 0)
  {
    if |units| == 0 || IsGap(units[0]) then [] else [units[0]] + FirstWord(units[1..])
  }

  /** The stretches without white space. */
  function WordsOf(units: seq<Unit>): seq<seq<Unit>>
    decreases |units|
  {
    if |units| == 0 then []
    else if IsGap(units[0]) then WordsOf(units[1..])
    else [FirstWord(units)] + WordsOf(units[|FirstWord(units)|..])
  }

  /** Every word with a space before it. */
  function Spaced(words: seq<seq<Unit>>): Str {
    if |words| == 0 then [] else [SPACE] + MeanUnits(words[0]) + Spaced(words[1..])
  }

  /** A text means its words with one space between them. */
  function MeanText(units: seq<Unit>): Str {
    var words := WordsOf(units);
    if |words| == 0 then [] else MeanUnits(words[0]) + Spaced(words[1..])
  }

  function MeanValue(v: Spelling): Str {
    match v
    case Quoted(_, units) => MeanUnits(units)
    case Bare(text) => text
  }

  function MeanAttr(a: TagAttr): Attr {
    Attr(a.name, MeanValue(a.value))
  }

  function MeanAttrs(attrs: seq<TagAttr>): (r: seq<Attr>)
    ensures |r| == |attrs| && forall i :: 0 <= i < |attrs| ==> r[i] == MeanAttr(attrs[i])
  {
    if |attrs| == 0 then [] else [MeanAttr(attrs[0])] + MeanAttrs(attrs[1..])
  }

  /** A text of nothing but white space is no node. */
  function MeanItem(item: Item): seq<Node>
    decreases item, 0
  {
    match item
    case Tag(_, _, name, attrs, _, body) => [Element(name, MeanAttrs(attrs), MeanBody(body))]
    case Words(_, units) => if Blank(MeanText(units)) then [] else [Text(MeanText(units))]
  }

  function MeanBody(b: Body): seq<Node>
    decreases b, 0
  {
    match b
    case Closed => []
    case Open(items, _, _) => MeanItems(items)
  }

  function MeanItems(items: seq<Item>): seq<Node>
    decreases items, 0
  {
    if |items| == 0 then [] else MeanItem(items[0]) + MeanItems(items[1..])
  }

  // ---------- What is well formed ----------

  predicate IsNamed(u: Unit) {
    || u == Unit(AMP_ENT, [AMP]) || u == Unit(LT_ENT, [LT]) || u == Unit(GT_ENT, [GT])
    || u == Unit(QUOT_ENT, [QUOT]) || u == Unit(APOS_ENT, [APOS])
  }

  /** A reference by number: digits between the last stop character and the ';'. */
  ghost predicate IsNumeric(u: Unit, hex: bool, junk: Str, ds: Str) {
    && u.text == Opening(hex) + junk + ds + [SEMI]
    && (junk == [] || junk[|junk| - 1] == Stop(hex))
    && SEMI !in junk && SEMI !in ds && Stop(hex) !in ds
    && (!hex ==> (junk != [] ==> junk[0] != LOWER_X) && (junk == [] && ds != [] ==> ds[0] != LOWER_X))
    && Value(ds, Base(hex)).Some? && u.value == [Value(ds, Base(hex)).value % 256]
  }

  /** A '&' that begins nothing known is dropped. */
  predicate IsLone(u: Unit, next: Str) {
    && u == Unit([AMP], []) && !(|next| >= 2 && next[0] == HASH)
    && !StartsWith([AMP] + next, AMP_ENT) && !StartsWith([AMP] + next, LT_ENT) && !StartsWith([AMP] + next, GT_ENT)
    && !StartsWith([AMP] + next, QUOT_ENT) && !StartsWith([AMP] + next, APOS_ENT)
  }

  predicate IsRaw(u: Unit) {
    |u.text| == 1 && u.text[0] != AMP && u.value == u.text
  }

  ghost predicate UnitFits(u: Unit, next: Str) {
    IsRaw(u) || IsNamed(u) || IsLone(u, next) || exists hex, junk, ds :: IsNumeric(u, hex, junk, ds)
  }

  /** None of the units is the character that ends them. */
  ghost predicate UnitsFit(units: seq<Unit>, next: Str, end: byte) {
    |units| > 0 ==>
      && UnitFits(units[0], WriteUnits(units[1..], next)) && units[0].text != [end]
      && UnitsFit(units[1..], next, end)
  }

  /** A value without quotes ends at white space or at the end of the tag. */
  predicate BareFits(text: Str, next: Str) {
    && (forall i :: 0 <= i < |text| ==>
          !IsSpace(text[i]) && text[i] != SLASH && text[i] != GT && text[i] != APOS && text[i] != QUOT)
    && |next| > 0 && (next[0] == SLASH || next[0] == GT || (text != [] && IsSpace(next[0])))
  }

  ghost predicate ValueFits(v: Spelling, next: Str) {
    match v
    case Quoted(quote, units) => (quote == APOS || quote == QUOT) && UnitsFit(units, [quote] + next, quote)
    case Bare(text) => BareFits(text, next)
  }

  ghost predicate AttrFits(a: TagAttr, next: Str) {
    Blank(a.lead) && ValidName(a.name) && Blank(a.mid) && Blank(a.pad) && ValueFits(a.value, next)
  }

  ghost predicate AttrsFit(attrs: seq<TagAttr>, next: Str) {
    |attrs| > 0 ==> AttrFits(attrs[0], WriteAttrs(attrs[1..], next)) && AttrsFit(attrs[1..], next)
  }

  ghost predicate BodyFits(b: Body, name: Str, next: Str)
    decreases b, 0
  {
    match b
    case Closed => true
    case Open(items, lead, endPad) =>
      Blank(lead) && Blank(endPad) && ItemsFit(items, lead + WriteEnd(name, endPad, next))
  }

  /** A name ends where no name character follows, and no two attributes have the same name. */
  ghost predicate TagFits(item: Item, next: Str)
    requires item.Tag?
    decreases item, 0
  {
    var after := item.pad + WriteBody(item.body, item.name, next);
    var all := WriteAttrs(item.attrs, after);
    && Blank(item.lead) && Blank(item.gap) && ValidName(item.name) && Blank(item.pad)
    && |all| > 0 && !IsNameChar(all[0])
    && AttrsFit(item.attrs, after) && DistinctNames(MeanAttrs(item.attrs))
    && BodyFits(item.body, item.name, next)
  }

  /** Inside an element '<' is followed by the name at once, and a text ends where a tag begins. */
  ghost predicate ItemFits(item: Item, next: Str)
    decreases item, 1
  {
    match item
    case Tag(_, gap, _, _, _, _) => gap == [] && TagFits(item, next)
    case Words(space, units) =>
      && Blank(space) && |units| > 0 && !IsGap(units[0])
      && |next| > 1 && next[0] == LT && UnitsFit(units, next, LT)
  }

  ghost predicate ItemsFit(items: seq<Item>, next: Str)
    decreases items, 0
  {
    |items| > 0 ==> ItemFits(items[0], WriteItems(items[1..], next)) && ItemsFit(items[1..], next)
  }

  // ---------- Units ----------

  lemma NamedReads(u: Unit, next: Str)
    requires IsNamed(u)
    ensures GetChar(u.text + next) == Done(u.value, next)
  {
    EntityReads(u.text, next);
  }

  lemma NumericReads(u: Unit, hex: bool, junk: Str, ds: Str, next: Str)
    requires IsNumeric(u, hex, junk, ds)
    ensures GetChar(u.text + next) == Done(u.value, next) && u.text[0] == AMP
  {
    hide GetEntity, Value;
    ReferenceExact(hex, junk, ds, next);
    assert (u.text + next)[0] == Opening(hex)[0];
  }

  lemma RawReads(u: Unit, next: Str)
    requires IsRaw(u)
    ensures GetChar(u.text + next) == Done(u.value, next)
  {
    var p := u.text + next;
    assert p[0] == u.text[0] && [p[0]] == u.text && p[1..] == next;
  }

  lemma UnitReads(u: Unit, next: Str)
    requires UnitFits(u, next)
    ensures |u.text| > 0 && GetChar(u.text + next) == Done(u.value, next)
  {
    hide IsNumeric, Value;
    if IsRaw(u) {
      RawReads(u, next);
    } else if IsNamed(u) {
      NamedReads(u, next);
    } else if IsLone(u, next) {
      LoneReads(next);
    } else {
      var hex, junk, ds :| IsNumeric(u, hex, junk, ds);
      NumericReads(u, hex, junk, ds, next);
    }
  }

  lemma LoneReads(next: Str)
    requires IsLone(Unit([AMP], []), next)
    ensures GetChar([AMP] + next) == Done([], next)
  {
    var p := [AMP] + next;
    assert p[1..] == next;
    assert |p| > 2 ==> p[1] == next[0];
  }

  /** Whatever a character was read from has one of the four forms. */
  lemma UnitFound(p: Str) returns (u: Unit)
    requires |p| > 0 && GetChar(p).Done?
    ensures var r := GetChar(p); p == u.text + r.rest && u.value == r.value && UnitFits(u, r.rest)
    ensures |u.text| > 0 && u.text[0] == p[0]
  {
    hide IsNumeric, Number, IndexOf;
    var r := GetChar(p);
    if p[0] != AMP {
      u := Unit([p[0]], [p[0]]);
    } else if |p| > 2 && p[1] == HASH {
      u := NumericFound(p);
    } else if r.value != [] {
      u := NamedFound(p);
    } else {
      u := Unit([AMP], []);
      NotNamed(p);
      assert [AMP] + p[1..] == p;
      assert |p| > 2 ==> p[1] == p[1..][0];
    }
  }

  lemma NotNamed(p: Str)
    requires |p| > 0 && p[0] == AMP && !(|p| > 2 && p[1] == HASH) && GetEntity(p).Done? && GetEntity(p).value == []
    ensures GetEntity(p).rest == p[1..]
    ensures !StartsWith(p, AMP_ENT) && !StartsWith(p, LT_ENT) && !StartsWith(p, GT_ENT)
    ensures !StartsWith(p, QUOT_ENT) && !StartsWith(p, APOS_ENT)
  {
  }

  lemma NamedFound(p: Str) returns (u: Unit)
    requires |p| > 0 && p[0] == AMP && !(|p| > 2 && p[1] == HASH) && GetEntity(p).Done? && GetEntity(p).value != []
    ensures IsNamed(u) && p == u.text + GetEntity(p).rest && u.value == GetEntity(p).value
  {
    if StartsWith(p, AMP_ENT) {
      u := Unit(AMP_ENT, [AMP]);
    } else if StartsWith(p, LT_ENT) {
      u := Unit(LT_ENT, [LT]);
    } else if StartsWith(p, GT_ENT) {
      u := Unit(GT_ENT, [GT]);
    } else if StartsWith(p, QUOT_ENT) {
      u := Unit(QUOT_ENT, [QUOT]);
    } else {
      u := Unit(APOS_ENT, [APOS]);
    }
  }

  /** The backward search stops at a stop character, and there was none after it. */
  lemma {:induction false} StopFound(p: Str, q: nat, lo: nat, base: int, stop: byte) returns (k: nat)
    requires 0 < lo <= q <= |p| && p[lo - 1] == stop && Number(p, q, base, stop).Some?
    ensures lo <= k <= q && p[k - 1] == stop && forall i :: k <= i < q ==> p[i] != stop
    decreases q
  {
    if q == lo || p[q - 1] == stop {
      k := q;
    } else {
      k := StopFound(p, q - 1, lo, base, stop);
    }
  }

  lemma {:induction false} FirstOf(p: Str, c: byte)
    ensures var i := IndexOf(p, c);
      && (i >= 0 ==> i < |p| && p[i] == c)
      && forall j :: 0 <= j < (if i == -1 then |p| else i) ==> p[j] != c
    decreases |p|
  {
    if |p| > 0 {
      FirstOf(p[1..], c);
      assert forall j :: 0 < j < |p| ==> p[j] == p[1..][j - 1];
    }
  }

  lemma NumericFound(p: Str) returns (u: Unit)
    requires |p| > 2 && p[0] == AMP && p[1] == HASH && GetEntity(p).Done?
    ensures UnitFits(u, GetEntity(p).rest) && p == u.text + GetEntity(p).rest && u.value == GetEntity(p).value
    ensures |u.text| > 0 && u.text[0] == AMP
  {
    hide Number, Value, IndexOf, IsNumeric;
    var hex := p[2] == LOWER_X;
    var end := IndexOf(p, SEMI);
    var lo := |Opening(hex)|;
    FirstOf(p, SEMI);
    var k := StopFound(p, end, lo, Base(hex), Stop(hex));
    NumberIsValue(p, k, end, Base(hex), Stop(hex));
    u := Unit(p[..end + 1], GetEntity(p).value);
    NumericParts(p, hex, k, end, u);
  }

  lemma NumericParts(p: Str, hex: bool, k: nat, end: nat, u: Unit)
    requires |Opening(hex)| <= k <= end < |p| && p[0] == AMP && p[1] == HASH && (p[2] == LOWER_X <==> hex)
    requires p[end] == SEMI && forall j :: 0 <= j < end ==> p[j] != SEMI
    requires p[k - 1] == Stop(hex) && forall j :: k <= j < end ==> p[j] != Stop(hex)
    requires Value(p[k..end], Base(hex)).Some?
    requires u == Unit(p[..end + 1], [Value(p[k..end], Base(hex)).value % 256])
    ensures IsNumeric(u, hex, p[|Opening(hex)|..k], p[k..end])
  {
    hide Value;
    var lo := |Opening(hex)|;
    assert p[..lo] == Opening(hex);
    CutUp(p, lo, k, end);
  }

  /** A string cut at three places. */
  lemma CutUp<T>(p: seq<T>, lo: nat, k: nat, end: nat)
    requires lo <= k <= end < |p|
    ensures var junk, ds := p[lo..k], p[k..end];
      && p[..end + 1] == p[..lo] + junk + ds + [p[end]]
      && (forall x :: x in junk ==> exists i :: lo <= i < k && p[i] == x)
      && (forall x :: x in ds ==> exists i :: k <= i < end && p[i] == x)
      && (junk != [] ==> junk[|junk| - 1] == p[k - 1] && junk[0] == p[lo])
      && (ds != [] ==> ds[0] == p[k])
  {
  }

  // ---------- Values and texts ----------

  lemma UnitStart(u: Unit, next: Str, more: Str)
    requires UnitFits(u, next)
    ensures |u.text| > 0 && (u.text + more)[0] == u.text[0] && (u.text[0] != AMP ==> IsRaw(u))
  {
    hide Value;
    if exists hex, junk, ds :: IsNumeric(u, hex, junk, ds) {
      var hex, junk, ds :| IsNumeric(u, hex, junk, ds);
      assert u.text[0] == Opening(hex)[0];
    }
  }

  lemma {:induction false} KeepAccepted(units: seq<Unit>, end: byte, next: Str)
    requires UnitsFit(units, [end] + next, end) && end != AMP
    ensures KeepText(WriteUnits(units, [end] + next), end) == Done(MeanUnits(units), next)
    decreases |units|
  {
    hide UnitFits, GetChar;
    if |units| == 0 {
      assert ([end] + next)[1..] == next;
    } else {
      var more := WriteUnits(units[1..], [end] + next);
      UnitReads(units[0], more);
      UnitStart(units[0], more, more);
      KeepAccepted(units[1..], end, next);
    }
  }

  /** A value that is not closed runs to the end of the document. */
  lemma {:induction false} UnclosedRead(units: seq<Unit>, end: byte)
    requires UnitsFit(units, [], end) && end != AMP
    ensures KeepText(WriteUnits(units, []), end) == Done(MeanUnits(units), [])
    decreases |units|
  {
    hide UnitFits, GetChar;
    if |units| > 0 {
      var more := WriteUnits(units[1..], []);
      UnitReads(units[0], more);
      UnitStart(units[0], more, more);
      UnclosedRead(units[1..], end);
    }
  }

  lemma {:induction false} KeepFound(p: Str, end: byte) returns (units: seq<Unit>)
    requires KeepText(p, end).Done? && |KeepText(p, end).rest| > 0
    ensures var r := KeepText(p, end);
      && p == WriteUnits(units, [end] + r.rest) && r.value == MeanUnits(units) && UnitsFit(units, [end] + r.rest, end)
    decreases |p|
  {
    hide UnitFits, GetChar;
    if p[0] == end {
      units := [];
      assert [end] + p[1..] == p;
    } else {
      var u := UnitFound(p);
      var rest := KeepFound(GetChar(p).rest, end);
      units := [u] + rest;
      assert units[1..] == rest;
    }
  }

  /** What is still to come of a text: the rest of a word, or words that need a space before them. */
  function Pending(units: seq<Unit>, space: bool): Str {
    if space then Spaced(WordsOf(units))
    else MeanUnits(FirstWord(units)) + Spaced(WordsOf(units[|FirstWord(units)|..]))
  }

  lemma PendingStep(units: seq<Unit>, space: bool)
    ensures |units| == 0 ==> Pending(units, space) == []
    ensures |units| > 0 && IsGap(units[0]) ==> Pending(units, space) == Pending(units[1..], true)
    ensures |units| > 0 && !IsGap(units[0]) ==>
      Pending(units, space) == (if space then [SPACE] else []) + units[0].value + Pending(units[1..], false)
  {
    hide Spaced, Pending;
    if |units| == 0 {
      NothingPending(space);
    } else if IsGap(units[0]) {
      GapPending(units, space);
    } else {
      WordPending(units);
      if space {
        WordFirst(units);
        PendingIs(units);
        AppendAssoc([SPACE], units[0].value, Pending(units[1..], false));
      }
    }
  }

  lemma NothingPending(space: bool)
    ensures Pending([], space) == []
  {
  }

  lemma GapPending(units: seq<Unit>, space: bool)
    requires |units| > 0 && IsGap(units[0])
    ensures Pending(units, space) == Pending(units[1..], true)
  {
    hide Spaced;
    assert units[0..] == units;
  }

  lemma PendingIs(units: seq<Unit>)
    ensures Pending(units, true) == Spaced(WordsOf(units))
    ensures Pending(units, false) == MeanUnits(FirstWord(units)) + Spaced(WordsOf(units[|FirstWord(units)|..]))
  {
  }

  lemma WordPending(units: seq<Unit>)
    requires |units| > 0 && !IsGap(units[0])
    ensures Pending(units, false) == units[0].value + Pending(units[1..], false)
  {
    hide Spaced, WordsOf;
    var w, v := FirstWord(units), FirstWord(units[1..]);
    assert w == [units[0]] + v && w[1..] == v;
    assert units[|w|..] == units[1..][|v|..];
    AppendAssoc(units[0].value, MeanUnits(v), Spaced(WordsOf(units[|w|..])));
  }

  lemma WordFirst(units: seq<Unit>)
    requires |units| > 0 && !IsGap(units[0])
    ensures Spaced(WordsOf(units)) == [SPACE] + (MeanUnits(FirstWord(units)) + Spaced(WordsOf(units[|FirstWord(units)|..])))
  {
    hide FirstWord, MeanUnits;
    var rest := WordsOf(units[|FirstWord(units)|..]);
    assert WordsOf(units) == [FirstWord(units)] + rest;
    assert WordsOf(units)[1..] == rest;
  }

  lemma TextPending(units: seq<Unit>)
    requires |units| > 0 && !IsGap(units[0])
    ensures MeanText(units) == Pending(units, false)
  {
    hide FirstWord, MeanUnits;
    var rest := WordsOf(units[|FirstWord(units)|..]);
    assert WordsOf(units) == [FirstWord(units)] + rest;
    assert WordsOf(units)[1..] == rest;
  }

  lemma {:induction false} CondenseAccepted(units: seq<Unit>, next: Str, space: bool)
    requires UnitsFit(units, [LT] + next, LT)
    ensures CondenseText(WriteUnits(units, [LT] + next), LT, space) == Done(Pending(units, space), next)
    decreases |units|
  {
    hide UnitFits, GetChar, Pending;
    PendingStep(units, space);
    if |units| == 0 {
      assert ([LT] + next)[1..] == next;
    } else {
      var more := WriteUnits(units[1..], [LT] + next);
      UnitReads(units[0], more);
      UnitStart(units[0], more, more);
      CondenseAccepted(units[1..], next, IsGap(units[0]));
      if IsGap(units[0]) {
        assert (units[0].text + more)[1..] == more;
      }
    }
  }

  lemma {:induction false} CondenseFound(p: Str, space: bool) returns (units: seq<Unit>)
    requires CondenseText(p, LT, space).Done? && |CondenseText(p, LT, space).rest| > 0
    ensures var r := CondenseText(p, LT, space);
      p == WriteUnits(units, [LT] + r.rest) && r.value == Pending(units, space) && UnitsFit(units, [LT] + r.rest, LT)
    ensures |units| > 0 ==> |p| > 0 && units[0].text != [] && units[0].text[0] == p[0]
    ensures |units| == 0 ==> |p| > 0 && p[0] == LT
    decreases |p|
  {
    hide UnitFits, GetChar, Pending;
    if p[0] == LT {
      units := [];
      PendingStep(units, space);
      assert [LT] + p[1..] == p;
    } else if IsSpace(p[0]) {
      var rest := CondenseFound(p[1..], true);
      var u := Unit([p[0]], [p[0]]);
      units := [u] + rest;
      assert units[1..] == rest && UnitFits(u, p[1..]) by { RawFits(u, p[1..]); }
      PendingStep(units, space);
    } else {
      var u := UnitFound(p);
      var rest := CondenseFound(GetChar(p).rest, false);
      units := [u] + rest;
      assert units[1..] == rest;
      PendingStep(units, space);
    }
  }

  lemma RawFits(u: Unit, next: Str)
    requires IsRaw(u)
    ensures UnitFits(u, next)
  {
    hide IsNumeric;
  }

  // ---------- White space and names ----------

  lemma {:induction false} SkipBlank(w: Str, q: Str)
    requires Blank(w) && (|q| > 0 ==> !IsSpace(q[0]))
    ensures SkipSpace(w + q) == q
    decreases |w|
  {
    if |w| == 0 {
      assert w + q == q;
    } else {
      assert (w + q)[1..] == w[1..] + q;
      SkipBlank(w[1..], q);
    }
  }

  lemma {:induction false} SkipFound(p: Str) returns (w: Str)
    ensures Blank(w) && p == w + SkipSpace(p)
    ensures |SkipSpace(p)| > 0 ==> !IsSpace(SkipSpace(p)[0])
    decreases |p|
  {
    if |p| > 0 && IsSpace(p[0]) {
      var rest := SkipFound(p[1..]);
      w := [p[0]] + rest;
      assert w + SkipSpace(p) == [p[0]] + p[1..];
    } else {
      w := [];
    }
  }

  lemma {:induction false} NameFound(p: Str)
    ensures var n := NameLength(p);
      && (forall i :: 0 <= i < n ==> IsNameChar(p[i])) && (n < |p| ==> !IsNameChar(p[n]))
    decreases |p|
  {
    hide IsNameChar;
    if |p| > 0 && IsNameChar(p[0]) {
      NameFound(p[1..]);
      assert forall i :: 0 < i < |p| ==> p[i] == p[1..][i - 1];
    }
  }

  lemma ReadNameFound(p: Str)
    requires ReadName(p).Done?
    ensures var r := ReadName(p);
      p == r.value + r.rest && ValidName(r.value) && (|r.rest| > 0 ==> !IsNameChar(r.rest[0]))
  {
    NameFound(p);
    assert p == p[..NameLength(p)] + p[NameLength(p)..];
  }

  // ---------- Attributes ----------

  lemma {:induction false} BareAccepted(text: Str, next: Str)
    requires forall i :: 0 <= i < |text| ==>
      !IsSpace(text[i]) && text[i] != SLASH && text[i] != GT && text[i] != APOS && text[i] != QUOT
    requires |next| > 0 && (next[0] == SLASH || next[0] == GT || IsSpace(next[0]))
    ensures BareValue(text + next) == Done(text, next)
    decreases |text|
  {
    if |text| == 0 {
      assert text + next == next;
    } else {
      assert (text + next)[1..] == text[1..] + next && (text + next)[0] == text[0];
      BareAccepted(text[1..], next);
      assert [text[0]] + text[1..] == text;
    }
  }

  lemma {:induction false} BareFound(p: Str)
    requires BareValue(p).Done?
    ensures var r := BareValue(p);
      && p == r.value + r.rest
      && (forall i :: 0 <= i < |r.value| ==> !IsSpace(r.value[i]) && r.value[i] != SLASH && r.value[i] != GT
                                             && r.value[i] != APOS && r.value[i] != QUOT)
      && (|r.rest| > 0 ==> r.rest[0] == SLASH || r.rest[0] == GT || IsSpace(r.rest[0]))
    decreases |p|
  {
    if !(|p| == 0 || IsSpace(p[0]) || p[0] == SLASH || p[0] == GT) {
      BareFound(p[1..]);
    }
  }

  /** Where a value begins: with a quote, or with none. */
  lemma ValueStart(v: Spelling, next: Str)
    requires ValueFits(v, next)
    ensures var p := WriteValue(v, next);
      && |p| > 0 && !IsSpace(p[0]) && (v.Quoted? ==> p[0] == v.quote) && (v.Bare? ==> p[0] != APOS && p[0] != QUOT)
  {
  }

  /** The value of an attribute, quoted or bare. */
  function ReadAttrValue(p: Str): Read<Str>
    requires |p| > 0
  {
    if p[0] == APOS || p[0] == QUOT then KeepText(p[1..], p[0]) else BareValue(p)
  }

  lemma AttrAccepted(a: TagAttr, next: Str)
    requires AttrFits(a, next)
    ensures ParseAttr(WriteAttr(a, next)) == Done(MeanAttr(a), next)
    ensures SkipSpace(WriteAttr(a, next)) == WriteAttr(a.(lead := []), next)
    ensures IsNameStart(WriteAttr(a.(lead := []), next)[0])
  {
    hide UnitsFit, KeepText, ReadName, WriteValue, BareFits;
    var v := WriteValue(a.value, next);
    var p2 := a.pad + v;
    var p1 := [EQ] + p2;
    var p := a.name + (a.mid + p1);
    ValueStart(a.value, next);
    assert [] + p == p;
    SkipBlank(a.lead, p);
    assert !IsNameChar((a.mid + p1)[0]) by { if |a.mid| > 0 { assert IsSpace(a.mid[0]); } }
    NameReads(a.name, a.mid + p1);
    SkipBlank(a.mid, p1);
    assert p1[1..] == p2;
    SkipBlank(a.pad, v);
    ValueAccepted(a.value, next);
  }

  lemma ValueAccepted(v: Spelling, next: Str)
    requires ValueFits(v, next)
    ensures |WriteValue(v, next)| > 0 && ReadAttrValue(WriteValue(v, next)) == Done(MeanValue(v), next)
  {
    hide UnitsFit, KeepText;
    ValueStart(v, next);
    match v
    case Quoted(quote, units) =>
      assert WriteValue(v, next)[1..] == WriteUnits(units, [quote] + next);
      KeepAccepted(units, quote, next);
    case Bare(text) => BareAccepted(text, next);
  }

  lemma AttrFound(p: Str) returns (a: TagAttr)
    requires ParseAttr(p).Done? && |ParseAttr(p).rest| > 0
    ensures var r := ParseAttr(p); p == WriteAttr(a, r.rest) && r.value == MeanAttr(a) && AttrFits(a, r.rest)
  {
    hide UnitsFit, KeepText, ReadName, BareValue;
    var lead := SkipFound(p);
    var name := ReadName(SkipSpace(p));
    ReadNameFound(SkipSpace(p));
    var mid := SkipFound(name.rest);
    var p1 := SkipSpace(name.rest);
    var pad := SkipFound(p1[1..]);
    assert p1 == [EQ] + p1[1..];
    var p2 := SkipSpace(p1[1..]);
    var value := ValueFound(p2);
    a := TagAttr(lead, name.value, mid, pad, value);
  }

  lemma ValueFound(p: Str) returns (v: Spelling)
    requires |p| > 0 && !IsSpace(p[0]) && ReadAttrValue(p).Done? && |ReadAttrValue(p).rest| > 0
    ensures var r := ReadAttrValue(p); p == WriteValue(v, r.rest) && ValueFits(v, r.rest) && r.value == MeanValue(v)
  {
    hide UnitsFit, KeepText;
    if p[0] == APOS || p[0] == QUOT {
      var units := KeepFound(p[1..], p[0]);
      v := Quoted(p[0], units);
      assert p == [p[0]] + p[1..];
    } else {
      BareFound(p);
      v := Bare(BareValue(p).value);
      assert BareValue(p).value == [] ==> p == BareValue(p).rest;
    }
  }

  // ---------- Elements and their content ----------

  /** A row of attributes with names of their own is read one by one. */
  lemma {:induction false} AttrsAccepted(name: Str, done: seq<Attr>, attrs: seq<TagAttr>, next: Str)
    requires AttrsFit(attrs, next) && DistinctNames(done + MeanAttrs(attrs)) && |next| > 0
    ensures ParseTag(name, done, WriteAttrs(attrs, next)) == ParseTag(name, done + MeanAttrs(attrs), next)
    decreases |attrs|
  {
    hide ParseTag, AttrFits, DistinctNames, HasAttr, WriteAttr;
    if |attrs| == 0 {
      assert done + MeanAttrs(attrs) == done;
    } else {
      var rest := WriteAttrs(attrs[1..], next);
      var all := MeanAttrs(attrs);
      assert all == [all[0]] + MeanAttrs(attrs[1..]);
      NotThere(done, all);
      WrittenIsLonger(attrs[1..], next);
      OneAttr(name, done, attrs[0], rest);
      assert done + all == (done + [all[0]]) + MeanAttrs(attrs[1..]);
      AttrsAccepted(name, done + [all[0]], attrs[1..], next);
    }
  }

  lemma {:induction false} WrittenIsLonger(attrs: seq<TagAttr>, next: Str)
    ensures |WriteAttrs(attrs, next)| >= |next|
    decreases |attrs|
  {
    if |attrs| > 0 {
      WrittenIsLonger(attrs[1..], next);
      AttrLonger(attrs[0], WriteAttrs(attrs[1..], next));
    }
  }

  lemma AttrLonger(a: TagAttr, next: Str)
    ensures |WriteAttr(a, next)| >= |next|
  {
    if a.value.Quoted? {
      LongerUnits(a.value.units, [a.value.quote] + next);
    }
  }

  lemma {:induction false} LongerUnits(units: seq<Unit>, next: Str)
    ensures |WriteUnits(units, next)| >= |next|
    decreases |units|
  {
    if |units| > 0 {
      LongerUnits(units[1..], next);
    }
  }

  lemma OneAttr(name: Str, done: seq<Attr>, a: TagAttr, rest: Str)
    requires AttrFits(a, rest) && !HasAttr(done, a.name) && |rest| > 0
    ensures ParseTag(name, done, WriteAttr(a, rest)) == ParseTag(name, done + [MeanAttr(a)], rest)
  {
    hide ParseAttr, WriteAttr, HasAttr, AttrFits, ReadValue;
    AttrAccepted(a, rest);
    NoLead(a);
    FitsWithoutLead(a, rest);
    AttrAccepted(a.(lead := []), rest);
  }

  lemma NoLead(a: TagAttr)
    ensures a.(lead := []).(lead := []) == a.(lead := []) && MeanAttr(a.(lead := [])) == MeanAttr(a)
  {
  }

  lemma FitsWithoutLead(a: TagAttr, rest: Str)
    requires AttrFits(a, rest)
    ensures AttrFits(a.(lead := []), rest)
  {
    hide ValueFits;
  }

  lemma EndAccepted(lead: Str, name: Str, endPad: Str, next: Str)
    requires Blank(lead) && Blank(endPad)
    ensures var end := WriteEnd(name, endPad, next);
      && ReadValue(lead + end) == Done([], end) && |end| > 0 && StartsWith(end, [LT, SLASH] + name)
      && SkipSpace(end[2 + |name|..]) == [GT] + next
  {
    var end := WriteEnd(name, endPad, next);
    assert end[0] == LT && end[1] == SLASH;
    SkipBlank(lead, end);
    SkipBlank(endPad, [GT] + next);
    PrefixOf([LT, SLASH] + name, endPad + ([GT] + next));
  }

  lemma AfterTwice(a: seq<Node>, b: seq<Node>, more: Read<seq<Node>>)
    ensures AfterNodes(a, AfterNodes(b, more)) == AfterNodes(a + b, more)
    ensures AfterNodes([], more) == more
  {
    if more.Done? {
      AppendAssoc(a, b, more.value);
      assert [] + more.value == more.value;
    }
  }

  lemma {:induction false} TagAccepted(item: Item, next: Str)
    requires item.Tag? && TagFits(item, next)
    ensures MeanItem(item) == [Element(item.name, MeanAttrs(item.attrs), MeanBody(item.body))]
    ensures ParseElement(WriteItem(item, next)) == Done(MeanItem(item)[0], next)
    decreases item.body, 3
  {
    hide ParseTag, BodyFits, AttrsFit, WriteBody, WriteAttrs, ValidName, DistinctNames, ReadName, MeanBody;
    var after := item.pad + WriteBody(item.body, item.name, next);
    var all := WriteAttrs(item.attrs, after);
    var p1 := item.name + all;
    var p := [LT] + (item.gap + p1);
    SkipBlank(item.lead, p);
    assert p[1..] == item.gap + p1;
    NameStarts(item.name, all);
    SkipBlank(item.gap, p1);
    NameReads(item.name, all);
    assert [] + MeanAttrs(item.attrs) == MeanAttrs(item.attrs);
    BodyWritten(item.body, item.name, next);
    AttrsAccepted(item.name, [], item.attrs, after);
    BodyAccepted(item.body, item.name, MeanAttrs(item.attrs), item.pad, next);
  }

  lemma NameStarts(name: Str, all: Str)
    requires ValidName(name)
    ensures |name + all| > 0 && !IsSpace((name + all)[0])
  {
    assert (name + all)[0] == name[0];
  }

  lemma BodyWritten(b: Body, name: Str, next: Str)
    ensures |WriteBody(b, name, next)| > 0
  {
    hide WriteItems;
  }

  lemma {:induction false} BodyAccepted(b: Body, name: Str, attrs: seq<Attr>, pad: Str, next: Str)
    requires Blank(pad) && BodyFits(b, name, next)
    ensures ParseTag(name, attrs, pad + WriteBody(b, name, next)) == Done(Element(name, attrs, MeanBody(b)), next)
    decreases b, 2
  {
    hide ReadValue, ParseAttr, WriteItems, ItemsFit, WriteEnd, MeanItems, StartsWith;
    match b
    case Closed =>
      var q := [SLASH, GT] + next;
      SkipBlank(pad, q);
      assert q[2..] == next;
    case Open(items, lead, endPad) =>
      var end := WriteEnd(name, endPad, next);
      var q := [GT] + WriteItems(items, lead + end);
      SkipBlank(pad, q);
      assert q[1..] == WriteItems(items, lead + end);
      ItemsAccepted(items, lead + end);
      EndAccepted(lead, name, endPad, next);
      assert MeanItems(items) + [] == MeanItems(items);
      assert ([GT] + next)[1..] == next;
  }

  lemma {:induction false} ItemsAccepted(items: seq<Item>, next: Str)
    requires ItemsFit(items, next)
    ensures ReadValue(WriteItems(items, next)) == AfterNodes(MeanItems(items), ReadValue(next))
    decreases items, 0
  {
    hide ReadValue, ItemFits, WriteItem, MeanItem, AfterNodes;
    if |items| == 0 {
      AfterTwice([], [], ReadValue(next));
    } else {
      var more := WriteItems(items[1..], next);
      ItemsAccepted(items[1..], next);
      ItemAccepted(items[0], more);
      AfterTwice(MeanItem(items[0]), MeanItems(items[1..]), ReadValue(next));
    }
  }

  lemma {:induction false} ItemAccepted(item: Item, next: Str)
    requires ItemFits(item, next)
    ensures ReadValue(WriteItem(item, next)) == AfterNodes(MeanItem(item), ReadValue(next))
    decreases item, 3
  {
    match item
    case Tag(_, _, _, _, _, _) =>
      FitsWithoutSpace(item, next);
      TagAccepted(item.(lead := []), next);
      TagThen(item, next);
    case Words(space, units) =>
      WordsThen(space, units, next);
  }

  lemma FitsWithoutSpace(item: Item, next: Str)
    requires item.Tag? && TagFits(item, next)
    ensures TagFits(item.(lead := []), next) && MeanItem(item.(lead := [])) == MeanItem(item)
    ensures WriteItem(item, next) == item.lead + WriteItem(item.(lead := []), next)
  {
    hide BodyFits, AttrsFit, WriteBody, WriteAttrs, ValidName, DistinctNames, MeanBody;
    var p := [LT] + (item.gap + (item.name + WriteAttrs(item.attrs, item.pad + WriteBody(item.body, item.name, next))));
    assert [] + p == p;
  }

  lemma TagThen(item: Item, next: Str)
    requires item.Tag? && Blank(item.lead) && item.gap == [] && ValidName(item.name)
    requires WriteItem(item, next) == item.lead + WriteItem(item.(lead := []), next)
    requires ParseElement(WriteItem(item.(lead := []), next)) == Done(MeanItem(item)[0], next) && |MeanItem(item)| == 1
    ensures ReadValue(WriteItem(item, next)) == AfterNodes(MeanItem(item), ReadValue(next))
  {
    hide ReadValue, ParseElement, MeanItem, WriteBody, WriteAttrs, AfterNodes;
    var p := WriteItem(item.(lead := []), next);
    TagStart(item.name, WriteAttrs(item.attrs, item.pad + WriteBody(item.body, item.name, next)));
    ElementAfter(item.lead, p, MeanItem(item)[0], next);
    assert [MeanItem(item)[0]] == MeanItem(item);
  }

  lemma TagStart(name: Str, all: Str)
    requires ValidName(name)
    ensures var p := [] + ([LT] + ([] + (name + all))); |p| > 1 && p[0] == LT && IsNameStart(p[1])
  {
    var p := [] + ([LT] + ([] + (name + all)));
    assert p == [LT] + (name + all) && p[1] == name[0];
  }

  lemma ElementAfter(w: Str, p: Str, n: Node, next: Str)
    requires Blank(w) && |p| > 1 && p[0] == LT && IsNameStart(p[1]) && ParseElement(p) == Done(n, next)
    ensures ReadValue(w + p) == AfterNodes([n], ReadValue(next))
  {
    hide ParseElement, IsNameStart, AfterNodes;
    SkipBlank(w, p);
    NameIsNoSlash(p[1]);
  }

  lemma NameIsNoSlash(c: byte)
    ensures IsNameStart(c) ==> c != SLASH
  {
  }

  lemma WordsThen(space: Str, units: seq<Unit>, next: Str)
    requires ItemFits(Words(space, units), next)
    ensures ReadValue(WriteItem(Words(space, units), next)) == AfterNodes(MeanItem(Words(space, units)), ReadValue(next))
  {
    hide UnitsFit, UnitFits, CondenseText, Pending, MeanText, ParseElement;
    var p := WriteUnits(units, next);
    assert next == [LT] + next[1..];
    TextStart(units, next);
    SkipBlank(space, p);
    CondenseAccepted(units, next[1..], false);
    TextPending(units);
  }

  lemma TextStart(units: seq<Unit>, next: Str)
    requires |units| > 0 && !IsGap(units[0]) && UnitsFit(units, next, LT)
    ensures var p := WriteUnits(units, next); |p| > 0 && p[0] != LT && !IsSpace(p[0])
  {
    hide UnitFits;
    UnitStart(units[0], WriteUnits(units[1..], next), WriteUnits(units[1..], next));
  }

  // ---------- Whatever is accepted was written in this way ----------

  lemma {:induction false} TagFound(p: Str) returns (item: Item)
    requires ParseElement(p).Done?
    ensures var r := ParseElement(p);
      item.Tag? && p == WriteItem(item, r.rest) && TagFits(item, r.rest) && MeanItem(item) == [r.value]
    decreases |p|, 1
  {
    hide ParseTag, BodyFits, AttrsFit, WriteBody, WriteAttrs, ValidName, DistinctNames, ReadName, MeanBody, MeanAttrs;
    var lead := SkipFound(p);
    var p1 := SkipSpace(p);
    assert p1 == [LT] + p1[1..];
    var gap := SkipFound(p1[1..]);
    var name := ReadName(SkipSpace(p1[1..]));
    ReadNameFound(SkipSpace(p1[1..]));
    var attrs, pad, body := RestFound(name.value, [], name.rest);
    item := Tag(lead, gap, name.value, attrs, pad, body);
    assert [] + MeanAttrs(attrs) == MeanAttrs(attrs);
    NoNames();
  }

  lemma NoNames()
    ensures DistinctNames([])
  {
  }

  lemma {:induction false} RestFound(name: Str, done: seq<Attr>, p: Str) returns (attrs: seq<TagAttr>, pad: Str, body: Body)
    requires ParseTag(name, done, p).Done?
    ensures var r := ParseTag(name, done, p);
      var after := pad + WriteBody(body, name, r.rest);
      && p == WriteAttrs(attrs, after) && AttrsFit(attrs, after) && Blank(pad) && BodyFits(body, name, r.rest)
      && r.value == Element(name, done + MeanAttrs(attrs), MeanBody(body))
      && (DistinctNames(done) ==> DistinctNames(done + MeanAttrs(attrs)))
    decreases |p|, 2
  {
    hide ReadValue, ParseAttr, WriteAttr, AttrFits, BodyFits, WriteBody, MeanBody, DistinctNames, HasAttr, StartsWith;
    hide MeanAttr;
    var q := SkipSpace(p);
    if q[0] == SLASH {
      pad := SkipFound(p);
      attrs, body := [], Closed;
      EmptyFound(name, done, p, q);
    } else if q[0] == GT {
      pad := SkipFound(p);
      attrs := [];
      body := ContentFound(name, done, p, q);
    } else {
      SkipsOnce(p);
      SameAttr(p);
      var attr := ParseAttr(p);
      var a := AttrFound(p);
      var rest, pad', body' := RestFound(name, done + [attr.value], attr.rest);
      attrs, pad, body := [a] + rest, pad', body';
      MoreNames(done, attr.value);
      OneMore(a, rest, done, pad + WriteBody(body, name, ParseTag(name, done, p).rest));
      return;
    }
    assert done + [] == done;
  }

  lemma OneMore(a: TagAttr, rest: seq<TagAttr>, done: seq<Attr>, after: Str)
    ensures WriteAttrs([a] + rest, after) == WriteAttr(a, WriteAttrs(rest, after))
    ensures AttrsFit([a] + rest, after) <==> AttrFits(a, WriteAttrs(rest, after)) && AttrsFit(rest, after)
    ensures done + MeanAttrs([a] + rest) == (done + [MeanAttr(a)]) + MeanAttrs(rest)
  {
    hide WriteAttr, AttrFits;
    assert ([a] + rest)[1..] == rest;
    assert MeanAttrs([a] + rest) == [MeanAttr(a)] + MeanAttrs(rest);
  }

  lemma SameAttr(p: Str)
    requires SkipSpace(SkipSpace(p)) == SkipSpace(p)
    ensures ParseAttr(p) == ParseAttr(SkipSpace(p))
  {
    hide ReadName, KeepText, BareValue;
  }

  lemma MoreNames(done: seq<Attr>, a: Attr)
    requires !HasAttr(done, a.name)
    ensures DistinctNames(done) ==> DistinctNames(done + [a])
  {
  }

  lemma EmptyFound(name: Str, done: seq<Attr>, p: Str, q: Str)
    requires ParseTag(name, done, p).Done? && q == SkipSpace(p) && |q| > 0 && q[0] == SLASH
    ensures ParseTag(name, done, p) == Done(Element(name, done, []), q[2..])
    ensures q == WriteBody(Closed, name, q[2..]) && BodyFits(Closed, name, q[2..]) && MeanBody(Closed) == []
  {
    hide ReadValue, ParseAttr;
    assert q == [SLASH, GT] + q[2..];
  }

  lemma {:induction false} ContentFound(name: Str, done: seq<Attr>, p: Str, q: Str) returns (body: Body)
    requires ParseTag(name, done, p).Done? && q == SkipSpace(p) && |q| > 0 && q[0] == GT && |q| <= |p|
    ensures var r := ParseTag(name, done, p);
      && r.value == Element(name, done, MeanBody(body))
      && q == WriteBody(body, name, r.rest) && BodyFits(body, name, r.rest)
    decreases |p|, 1
  {
    hide ReadValue, ParseAttr, ItemsFit, WriteItems, MeanItems;
    var content := ReadValue(q[1..]);
    var items, lead := ItemsFound(q[1..]);
    var endPad := SkipFound(content.rest[2 + |name|..]);
    var r := ParseTag(name, done, p);
    var close := SkipSpace(content.rest[2 + |name|..]);
    assert close == [GT] + r.rest;
    EndFound(content.rest, name, endPad, r.rest);
    body := Open(items, lead, endPad);
    assert q == [GT] + q[1..];
  }

  lemma EndFound(end: Str, name: Str, endPad: Str, rest: Str)
    requires StartsWith(end, [LT, SLASH] + name) && end[2 + |name|..] == endPad + ([GT] + rest)
    ensures end == WriteEnd(name, endPad, rest)
  {
    assert end == end[..2 + |name|] + end[2 + |name|..];
  }

  lemma {:induction false} ItemsFound(p: Str) returns (items: seq<Item>, lead: Str)
    requires ReadValue(p).Done?
    ensures var r := ReadValue(p);
      && p == WriteItems(items, lead + r.rest) && Blank(lead) && ItemsFit(items, lead + r.rest) && r.value == MeanItems(items)
    decreases |p|, 3
  {
    hide ParseElement, CondenseText, WriteItem, ItemFits, MeanItem;
    var q := SkipSpace(p);
    var w := SkipFound(p);
    if q[0] != LT {
      var text := CondenseText(q, LT, false);
      var rest, lead' := ItemsFound([LT] + text.rest);
      var item := WordsFound(w, q);
      items, lead := [item] + rest, lead';
      assert items[1..] == rest;
    } else if q[1] == SLASH {
      items, lead := [], w;
    } else {
      var element := ParseElement(q);
      var tag := TagFound(q);
      var rest, lead' := ItemsFound(element.rest);
      var item := TagWithSpace(w, q, tag);
      items, lead := [item] + rest, lead';
      assert items[1..] == rest;
    }
  }

  lemma WordsFound(w: Str, q: Str) returns (item: Item)
    requires Blank(w) && |q| > 0 && q[0] != LT && !IsSpace(q[0])
    requires CondenseText(q, LT, false).Done? && |CondenseText(q, LT, false).rest| > 0
    ensures var text := CondenseText(q, LT, false);
      var next := [LT] + text.rest;
      && w + q == WriteItem(item, next) && ItemFits(item, next)
      && MeanItem(item) == if Blank(text.value) then [] else [Text(text.value)]
  {
    hide CondenseText, UnitsFit, Pending, MeanText;
    var units := CondenseFound(q, false);
    TextPending(units);
    item := Words(w, units);
  }

  lemma TagWithSpace(w: Str, q: Str, tag: Item) returns (item: Item)
    requires Blank(w) && |q| > 1 && q[0] == LT && IsNameStart(q[1])
    requires ParseElement(q).Done? && tag.Tag? && q == WriteItem(tag, ParseElement(q).rest) && TagFits(tag, ParseElement(q).rest)
    ensures var r := ParseElement(q);
      w + q == WriteItem(item, r.rest) && ItemFits(item, r.rest) && MeanItem(item) == MeanItem(tag)
  {
    hide ParseElement, BodyFits, AttrsFit, WriteBody, WriteAttrs, ValidName, DistinctNames, MeanBody;
    var rest := ParseElement(q).rest;
    var p := tag.name + WriteAttrs(tag.attrs, tag.pad + WriteBody(tag.body, tag.name, rest));
    NothingSkipped(tag.lead, [LT] + (tag.gap + p), q);
    NothingSkipped(tag.gap, p, q[1..]);
    item := tag.(lead := w);
    assert q == [LT] + ([] + p);
  }

  lemma BlankShows(w: Str, p: Str)
    ensures |w| > 0 && Blank(w) ==> IsSpace((w + p)[0])
  {
  }

  /** White space that does not show is empty. */
  lemma NothingSkipped(w: Str, p: Str, q: Str)
    requires Blank(w) && q == w + p && |q| > 0 && !IsSpace(q[0])
    ensures w == [] && q == p
  {
    hide Blank;
    BlankShows(w, p);
  }

  // ---------- The parser reads exactly this grammar ----------

  /** p begins with an element, written in some way, that means n, and rest follows. */
  ghost predicate IsWritten(p: Str, n: Node, rest: Str) {
    exists item: Item :: item.Tag? && TagFits(item, rest) && p == WriteItem(item, rest) && MeanItem(item) == [n]
  }

  /** The parser makes n of a document and stops before rest exactly if the document is n, written in any
      way the grammar allows, followed by rest. */
  lemma ParseExact(p: Str, n: Node, rest: Str)
    ensures ParseElement(p) == Done(n, rest) <==> IsWritten(p, n, rest)
  {
    hide ParseElement, TagFits, WriteItem, MeanItem;
    if ParseElement(p) == Done(n, rest) {
      var item := TagFound(p);
    }
    if IsWritten(p, n, rest) {
      var item: Item :| item.Tag? && TagFits(item, rest) && p == WriteItem(item, rest) && MeanItem(item) == [n];
      TagAccepted(item, rest);
    }
  }
}
