/** Exactly which attribute values and texts survive printing and parsing. */
module XmlExact {
  import opened Options
  import opened Chunks
  import opened XmlSpec

  lemma EncodeOne(s: Str, rest: Str)
    requires |s| > 0 && !LooksLikeReference(s)
    ensures Encode(s) + rest == EncodeChar(s[0]) + (Encode(s[1..]) + rest)
    ensures Plain(s) <==> Plain(s[1..])
  {
    hide EncodeChar, Plain;
    AppendAssoc(EncodeChar(s[0]), Encode(s[1..]), rest);
    PlainStep(s);
  }

  lemma PlainStep(s: Str)
    requires |s| > 0 && !LooksLikeReference(s)
    ensures Plain(s) <==> Plain(s[1..])
  {
    hide LooksLikeReference;
    var t := s[1..];
    assert s[0..] == s;
    if Plain(s) {
      forall i | 0 <= i < |t|
        ensures !LooksLikeReference(t[i..])
      {
        DropDrop(s, 1, i);
      }
    }
    if Plain(t) {
      forall i | 0 <= i < |s|
        ensures !LooksLikeReference(s[i..])
      {
        if i > 0 {
          DropDrop(s, 1, i - 1);
        }
      }
    }
  }

  // ---------- What is passed through unchanged ----------

  /** A passage stops at the first ';' after its start, or at the last character. */
  lemma {:induction false} PassStops(s: Str, k: nat)
    requires k < |s|
    ensures var n := PassLength(s, k);
      && (forall j :: k <= j < n && j > 0 ==> s[j] != SEMI)
      && ((n > 0 && s[n] == SEMI) || n + 1 == |s|)
    decreases |s| - k
  {
    if !(k > 0 && s[k] == SEMI) && k + 1 < |s| {
      PassStops(s, k + 1);
    }
  }

  /** An entity has one ';', at its end. */
  lemma EntityEnds(c: byte)
    ensures var e := EncodeChar(c);
      && |e| > 0 && (|e| == 1 ==> e == [c])
      && (|e| > 1 ==> e[|e| - 1] == SEMI && forall j :: 0 <= j < |e| - 1 ==> e[j] != SEMI)
  {
  }

  lemma ReferenceStart(w: Str, tail: Str)
    requires LooksLikeReference(w)
    ensures var n := PassLength(w, 0); n > 0 && Encode(w) == w[..n] + Encode(w[n..])
    ensures var p := Encode(w) + tail; |p| > 2 && p[0] == AMP && p[1] == HASH
    ensures |Encode(w)| > 2 && (Encode(w) + tail)[2] == LOWER_X
  {
    var n := PassLength(w, 0);
    PassesSomething(w);
    PassStops(w, 0);
    assert PassLength(w, 0) == PassLength(w, 1) == PassLength(w, 2);
    assert n >= 2;
    if n == 2 {
      assert |w| == 3 && w[2..] == [LOWER_X];
      assert Encode([LOWER_X]) == [LOWER_X] + Encode([]);
    }
  }

  /** A passage with its ';' is read to that ';', as one character at most. */
  lemma ReferenceWithEnd(w: Str, tail: Str)
    requires LooksLikeReference(w) && w[PassLength(w, 0)] == SEMI
    ensures var n := PassLength(w, 0);
      && n >= 3 && IndexOf(Encode(w) + tail, SEMI) == n
      && (Encode(w) + tail)[n + 1..] == Encode(w[n + 1..]) + tail
  {
    hide Encode, EncodeChar, Plain, IndexOf;
    var n := PassLength(w, 0);
    ReferenceStart(w, tail);
    PassStops(w, 0);
    var more := Encode(w[n + 1..]) + tail;
    DropDrop(w, n, 1);
    EncodeOne(w[n..], tail);
    SemiIsItself();
    AppendAssoc(w[..n], Encode(w[n..]), tail);
    var p := w[..n] + ([SEMI] + more);
    assert n >= 3;
    assert forall j :: 0 <= j < n ==> p[j] == w[j];
    FirstAt(p, SEMI, n);
    AfterMiddle(w[..n], SEMI, more);
  }

  lemma SemiIsItself()
    ensures EncodeChar(SEMI) == [SEMI]
  {
  }

  lemma AfterMiddle(a: Str, c: byte, b: Str)
    ensures (a + ([c] + b))[|a| + 1..] == b
  {
  }

  /** A passage without ';' reaches to the last character; a ';' can only come from that, or from
      what follows the value. */
  lemma ReferenceWithoutEnd(w: Str, mark: byte, rest: Str)
    requires LooksLikeReference(w) && w[PassLength(w, 0)] != SEMI && mark != SEMI
    ensures var p := Encode(w) + ([mark] + rest);
      var end := IndexOf(p, SEMI);
      end == -1 || (end >= 3 && p[end + 1..] == [mark] + rest) || end > |Encode(w)|
  {
    var n, tail := PassLength(w, 0), [mark] + rest;
    ReferenceStart(w, tail);
    PassStops(w, 0);
    var e := EncodeChar(w[n]);
    EntityEnds(w[n]);
    assert w[n..] == [w[n]];
    EncodeOne(w[n..], []);
    EncodeNothing();
    assert Encode(w[n..]) == e;
    var p := w[..n] + e + tail;
    assert forall j :: 0 <= j < n ==> p[j] == w[j] && p[j] != SEMI;
    if |e| > 1 {
      assert forall j :: 0 <= j < |e| ==> p[n + j] == e[j];
      FirstAt(p, SEMI, n + |e| - 1);
      assert p[n + |e|..] == tail;
    } else {
      FoundLate(p, SEMI, n + 2);
    }
  }

  lemma FoundLate(p: Str, c: byte, k: nat)
    requires k <= |p| && forall j :: 0 <= j < k ==> p[j] != c
    ensures IndexOf(p, c) == -1 || IndexOf(p, c) >= k
  {
  }

  /** What looks like a reference is read as one character at most, in place of three or more, or
      what follows the value is read with it, or nothing is read. */
  lemma ReferenceStep(w: Str, mark: byte, rest: Str) returns (k: nat)
    requires LooksLikeReference(w) && mark != SEMI
    ensures 3 <= k <= |w| && (Encode(w) + ([mark] + rest))[0] == AMP && |Encode(w)| > 0
    ensures var c := GetChar(Encode(w) + ([mark] + rest));
      c.Done? ==> |c.value| <= 1 && (|c.rest| < |rest| || c.rest == Encode(w[k..]) + ([mark] + rest))
  {
    hide Number, PassLength, Encode, IndexOf, StartsWith;
    var tail := [mark] + rest;
    var n := PassLength(w, 0);
    ReferenceStart(w, tail);
    if w[n] == SEMI {
      ReferenceWithEnd(w, tail);
      k := n + 1;
    } else {
      ReferenceWithoutEnd(w, mark, rest);
      k := |w|;
      EncodeNothing();
      assert w[k..] == [] && [] + tail == tail;
    }
  }

  // ---------- Attribute values ----------

  /** Nothing is read that is longer than what was printed, and a value with something like a
      reference in it is read shorter. */
  lemma {:induction false} KeepShortens(z: Str, quote: byte, rest: Str)
    requires quote == QUOT || quote == APOS
    ensures var res := KeepText(Encode(z) + ([quote] + rest), quote);
      res.Done? && |res.rest| >= |rest| ==> |res.value| <= |z| && (!Plain(z) ==> |res.value| < |z|)
    decreases |z|
  {
    hide EncodeChar, GetChar, Plain, Encode;
    var tail := [quote] + rest;
    if |z| == 0 {
      EncodeNothing();
      NothingIsPlain();
      assert Encode(z) + tail == tail;
    } else if LooksLikeReference(z) {
      var k := ReferenceStep(z, quote, rest);
      KeepShortens(z[k..], quote, rest);
    } else {
      EncodeOne(z, tail);
      CharReads(z[0], Encode(z[1..]) + tail);
      NotAtEnd(z[0], Encode(z[1..]) + tail);
      KeepShortens(z[1..], quote, rest);
    }
  }

  lemma NothingIsPlain()
    ensures Plain([])
  {
  }

  /** A value comes back as it was if and only if nothing in it looks like a reference. */
  lemma KeepExact(v: Str, quote: byte, rest: Str)
    requires quote == QUOT || quote == APOS
    ensures KeepText(Encode(v) + ([quote] + rest), quote) == Done(v, rest) <==> Plain(v)
  {
    KeepShortens(v, quote, rest);
    if Plain(v) {
      KeepReads(v, quote, rest);
    }
  }

  lemma AttrExact(a: Attr, rest: Str)
    requires ValidName(a.name)
    ensures ParseAttr(PrintAttr(a) + rest) == Done(a, rest) <==> Plain(a.value)
  {
    hide KeepText, Encode, PrintAttr, ReadName, Plain;
    var quote := QuoteFor(a.value);
    var after := Encode(a.value) + ([quote] + rest);
    var p1 := [EQ] + ([quote] + after);
    AttrParts(a, rest);
    NameReads(a.name, p1);
    NoSpaceToSkip(p1);
    assert p1[1..] == [quote] + after;
    NoSpaceToSkip([quote] + after);
    assert ([quote] + after)[1..] == after;
    KeepExact(a.value, quote, rest);
  }

  // ---------- Texts ----------

  lemma CondenseMore(p: Str, space: bool)
    requires |p| > 0 && p[0] != LT && !IsSpace(p[0])
    ensures var c := GetChar(p);
      c.Done? && CondenseText(c.rest, LT, false).Done? ==>
        var more := CondenseText(c.rest, LT, false);
        CondenseText(p, LT, space) == Done((if space then [SPACE] else []) + c.value + more.value, more.rest)
    ensures var c := GetChar(p);
      !(c.Done? && CondenseText(c.rest, LT, false).Done?) ==> CondenseText(p, LT, space) == Fail
  {
  }

  /** The same for a text: nothing is read that is longer than what was printed. */
  lemma {:induction false} CondenseShortens(z: Str, rest: Str, space: bool)
    ensures var res := CondenseText(Encode(z) + ([LT] + rest), LT, space);
      var most := |z| + if space then 1 else 0;
      res.Done? && |res.rest| >= |rest| ==> |res.value| <= most && (!Plain(z) ==> |res.value| < most)
    decreases |z|
  {
    hide EncodeChar, GetChar, Plain, Encode, IsSpace;
    var tail := [LT] + rest;
    var p := Encode(z) + tail;
    if |z| == 0 {
      EncodeNothing();
      NothingIsPlain();
      assert p == tail;
    } else if LooksLikeReference(z) {
      var k := ReferenceStep(z, LT, rest);
      AmpIsNoSpace();
      CondenseMore(p, space);
      CondenseShortens(z[k..], rest, false);
    } else {
      EncodeOne(z, tail);
      var more := Encode(z[1..]) + tail;
      CharReads(z[0], more);
      NotAtEnd(z[0], more);
      if z[0] == SPACE {
        SpaceIsItself();
        assert p[1..] == more;
        CondenseShortens(z[1..], rest, true);
      } else {
        CondenseMore(p, space);
        CondenseShortens(z[1..], rest, false);
      }
    }
  }

  lemma AmpIsNoSpace()
    ensures !IsSpace(AMP)
  {
  }

  /** Leading white space is dropped before a text is read. */
  function Trim(v: Str): (r: Str)
    ensures |r| <= |v|
    ensures |r| == |v| <==> r == v && (|v| > 0 ==> v[0] != SPACE)
    ensures |r| > 0 ==> r[0] != SPACE
    ensures |v| > 0 && v[0] != SPACE ==> r == v
  {
    if |v| > 0 && v[0] == SPACE then Trim(v[1..]) else v
  }

  lemma {:induction false} SkipReads(v: Str, rest: Str)
    ensures SkipSpace(Encode(v) + ([LT] + rest)) == Encode(Trim(v)) + ([LT] + rest)
    decreases |v|
  {
    hide EncodeChar, Plain, Encode, IsSpace;
    var tail := [LT] + rest;
    if |v| == 0 {
      EncodeNothing();
      TagIsNoSpace();
    } else if v[0] == SPACE {
      EncodeOne(v, tail);
      SpaceIsItself();
      SpaceThenSkip(Encode(v[1..]) + tail);
      SkipReads(v[1..], rest);
    } else {
      NonSpaceStart(v, rest);
    }
  }

  /** What a text without a leading space is printed as does not begin with white space or a tag. */
  lemma NonSpaceStart(v: Str, rest: Str)
    requires |v| > 0 && v[0] != SPACE
    ensures var p := Encode(v) + ([LT] + rest); |p| > 0 && !IsSpace(p[0]) && p[0] != LT && SkipSpace(p) == p
  {
    hide EncodeChar, Plain, Encode, IsSpace;
    var tail := [LT] + rest;
    if LooksLikeReference(v) {
      var k := ReferenceStep(v, LT, rest);
      AmpIsNoSpace();
    } else {
      EncodeOne(v, tail);
      CharReads(v[0], Encode(v[1..]) + tail);
      NotAtEnd(v[0], Encode(v[1..]) + tail);
    }
    NoSpaceToSkip(Encode(v) + tail);
  }

  lemma TagIsNoSpace()
    ensures !IsSpace(LT)
  {
  }

  lemma SpaceThenSkip(p: Str)
    ensures SkipSpace([SPACE] + p) == SkipSpace(p)
  {
    assert ([SPACE] + p)[1..] == p;
  }

  /** A text between tags comes back as a node exactly if it holds more than white space, nothing
      like a reference, no space at either end and never two in a row. */
  lemma TextExact(v: Str, rest: Str)
    requires StartsWith(rest, [SLASH])
    ensures ReadValue(Encode(v) + ([LT] + rest)) == Done([Text(v)], [LT] + rest) <==> CondensedText(v)
  {
    hide CondenseText, Encode, SkipSpace, CondensedText;
    if CondensedText(v) {
      TextSuffices(v, rest);
    } else if Trim(v) == [] {
      NothingToSee(v, rest);
    } else {
      var t, tail := Trim(v), [LT] + rest;
      SkipReads(v, rest);
      NonSpaceStart(t, rest);
      ValueText(Encode(v) + tail, Encode(t) + tail);
      if ReadValue(Encode(v) + tail) == Done([Text(v)], tail) {
        TextNeeds(v, t, rest);
      }
    }
  }

  lemma TextSuffices(v: Str, rest: Str)
    requires StartsWith(rest, [SLASH]) && CondensedText(v)
    ensures ReadValue(Encode(v) + ([LT] + rest)) == Done([Text(v)], [LT] + rest)
  {
    hide ReadValue, Encode, CondensedText;
    EndTagStart(rest);
    assert ([LT] + rest)[1..] == rest;
    TextThen(v, [LT] + rest);
    assert [Text(v)] + [] == [Text(v)];
  }

  /** A text of nothing but spaces is not read at all. */
  lemma NothingToSee(v: Str, rest: Str)
    requires StartsWith(rest, [SLASH]) && Trim(v) == []
    ensures ReadValue(Encode(v) + ([LT] + rest)) == Done([], [LT] + rest)
  {
    hide ReadValue, Encode;
    SkipReads(v, rest);
    EncodeNothing();
    assert [] + ([LT] + rest) == [LT] + rest;
    EndTagStart(rest);
    ValueAtEnd(Encode(v) + ([LT] + rest), [LT] + rest);
  }

  lemma TextNeeds(v: Str, t: Str, rest: Str)
    requires t == Trim(v) && |t| > 0
    requires var text := CondenseText(Encode(t) + ([LT] + rest), LT, false);
      && text.Done? && |text.rest| > 0
      && AfterNodes(if Blank(text.value) then [] else [Text(text.value)], ReadValue([LT] + text.rest))
         == Done([Text(v)], [LT] + rest)
    ensures CondensedText(v)
  {
    hide CondenseText, Encode, Plain, SkipSpace, Blank, SingleSpaces, ReadValue, Trim;
    var text := CondenseText(Encode(t) + ([LT] + rest), LT, false);
    TagFirst([LT] + text.rest);
    OneNode(if Blank(text.value) then [] else [Text(text.value)], ReadValue([LT] + text.rest), v);
    assert text.value == v && |text.rest| >= |rest|;
    CondenseShortens(t, rest, false);
    assert t == v && Plain(v);
    CondenseReads(v, rest, false);
    CondenseSame(v, false);
  }

  /** At a tag no text comes first. */
  lemma TagFirst(q: Str)
    requires |q| > 0 && q[0] == LT
    ensures var content := ReadValue(q); content.Done? && |content.value| > 0 ==> content.value[0].Element?
  {
    NoSpaceToSkip(q);
  }

  lemma OneNode(nodes: seq<Node>, more: Read<seq<Node>>, v: Str)
    requires AfterNodes(nodes, more).Done? && AfterNodes(nodes, more).value == [Text(v)]
    requires |more.value| > 0 ==> more.value[0].Element?
    ensures |nodes| > 0 ==> nodes[0] == Text(v)
    ensures |nodes| > 0
  {
    assert (nodes + more.value)[0] == Text(v);
  }

  lemma EndTagStart(rest: Str)
    requires StartsWith(rest, [SLASH])
    ensures StartsWith([LT] + rest, [LT, SLASH]) && ReadValue([LT] + rest) == Done([], [LT] + rest)
  {
    assert rest[0] == SLASH;
    EndReads([LT] + rest);
  }

  lemma ValueAtEnd(q: Str, p: Str)
    requires SkipSpace(q) == p && StartsWith(p, [LT, SLASH])
    ensures ReadValue(q) == Done([], p)
  {
    assert p[0] == LT && p[1] == SLASH;
  }

  /** What content that begins with a text comes to. */
  lemma ValueText(q: Str, p: Str)
    requires SkipSpace(q) == p && |p| > 0 && p[0] != LT
    ensures var text := CondenseText(p, LT, false);
      ReadValue(q) ==
      if text.Fail? then Fail
      else if |text.rest| == 0 then if p[|p| - 1] == LT || IsSpace(p[|p| - 1]) then Fail else Forever
      else AfterNodes(if Blank(text.value) then [] else [Text(text.value)], ReadValue([LT] + text.rest))
  {
  }

  /** Why values must not look like references: "&#x41;" goes out unchanged and comes back as "A". */
  lemma ReferenceIsResolved(v: Str)
    requires v == [AMP, HASH, LOWER_X, 52, 49, SEMI]
    ensures !Plain(v) && KeepText(Encode(v) + [QUOT], QUOT) == Done([65], [])
  {
    assert v[0..] == v && LooksLikeReference(v[0..]);
    assert PassLength(v, 3) == PassLength(v, 4) == PassLength(v, 5) == 5;
    assert PassLength(v, 0) == PassLength(v, 1) == PassLength(v, 2) == PassLength(v, 3);
    assert v[5..] == [SEMI];
    assert Encode([SEMI]) == [SEMI] + Encode([]);
    assert v[..5] + [SEMI] == v;
    var p := v + [QUOT];
    FirstAt(p, SEMI, 5);
    assert Number(p, 3, 16, LOWER_X) == Some(0);
    assert Number(p, 4, 16, LOWER_X) == Some(4);
    assert Number(p, 5, 16, LOWER_X) == Some(65);
    assert p[6..] == [QUOT];
    assert KeepText([QUOT], QUOT) == Done([], []);
    assert Encode(v) == v;
    assert GetChar(p) == Done([65], [QUOT]);
    assert p[0] != QUOT && KeepText(p, QUOT) == Done([65] + [], []);
    assert [65] + [] == [65 as byte];
    assert Encode(v) + [QUOT] == p;
  }
}
