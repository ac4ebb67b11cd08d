/** When the parser stops.  TiXmlElement::ReadValue reads in rounds, one text or one child element
    each.  A text steps back by one character when it is read, to the '<' that ended it; if there was
    none, to the last character of the document, which the next round reads again. */
module XmlLoop {
  import opened Options
  import opened XmlSpec

  /** The document from the last character of what was read, when rest follows it. */
  function StepBack(q: Str, rest: Str): Str
    requires |rest| < |q|
  {
    q[|q| - |rest| - 1..]
  }

  predicate AtText(q: Str) {
    |q| > 0 && q[0] != LT
  }

  predicate AtElement(q: Str) {
    |q| > 1 && q[0] == LT && q[1] != SLASH && IsNameStart(q[1])
  }

  lemma {:induction false} TextMoves(p: Str, space: bool)
    requires |p| > 0 && p[0] != LT && CondenseText(p, LT, space).Done?
    ensures |CondenseText(p, LT, space).rest| < |p|
    decreases |p|
  {
    if IsSpace(p[0]) {
      if |p| > 1 && p[1] != LT {
        TextMoves(p[1..], true);
      }
    } else {
      var c := GetChar(p);
      if |c.rest| > 0 && c.rest[0] != LT {
        TextMoves(c.rest, false);
      }
    }
  }

  /** One round from the cursor q, with white space skipped before it: the next cursor, or nothing if
      the loop is left. */
  function Round(q: Str): (r: Option<Str>)
    ensures r.Some? ==> |r.value| <= |q|
  {
    if AtText(q) then
      var text := CondenseText(q, LT, false);
      if text.Fail? then None
      else
        TextMoves(q, false);
        Some(SkipSpace(StepBack(q, text.rest)))
    else if AtElement(q) then
      var element := ParseElement(q);
      if element.Done? then Some(SkipSpace(element.rest)) else None
    else None
  }

  /** The cursor after n rounds. */
  function Rounds(q: Str, n: nat): Option<Str>
    decreases n
  {
    if n == 0 then Some(q)
    else if Round(q).None? then None
    else Rounds(Round(q).value, n - 1)
  }

  ghost predicate NeverLeaves(q: Str) {
    forall n: nat :: Rounds(q, n).Some?
  }

  ghost predicate HangsAt(q: Str, n: nat) {
    Rounds(q, n).Some? && AtElement(Rounds(q, n).value) && ParseElement(Rounds(q, n).value).Forever?
  }

  /** Some round reads a child element and never gets to its end. */
  ghost predicate ChildHangs(q: Str) {
    exists n: nat :: HangsAt(q, n)
  }

  // ---------- One round ----------

  /** A text that is read to a rest was ended by the '<' before it. */
  lemma {:induction false} TextEnds(p: Str, space: bool)
    requires CondenseText(p, LT, space).Done? && |CondenseText(p, LT, space).rest| > 0
    ensures var rest := CondenseText(p, LT, space).rest;
      |rest| < |p| && p[|p| - |rest| - 1] == LT && p[|p| - |rest|..] == rest
    decreases |p|
  {
    if p[0] == LT {
    } else if IsSpace(p[0]) {
      TextEnds(p[1..], true);
      SuffixOfSuffix(p, p[1..], CondenseText(p, LT, space).rest);
    } else {
      var c := GetChar(p);
      TextEnds(c.rest, false);
      CharSuffix(p);
      SuffixOfSuffix(p, c.rest, CondenseText(p, LT, space).rest);
    }
  }

  lemma CharSuffix(p: Str)
    requires |p| > 0 && GetChar(p).Done?
    ensures p[|p| - |GetChar(p).rest|..] == GetChar(p).rest
  {
  }

  lemma SuffixOfSuffix(p: Str, q: Str, rest: Str)
    requires |rest| < |q| <= |p| && p[|p| - |q|..] == q && q[|q| - |rest|..] == rest
    ensures p[|p| - |rest|..] == rest && p[|p| - |rest| - 1] == q[|q| - |rest| - 1]
  {
  }

  lemma BackToTag(q: Str)
    requires AtText(q) && CondenseText(q, LT, false).Done? && |CondenseText(q, LT, false).rest| > 0
    ensures var rest := CondenseText(q, LT, false).rest; |rest| < |q| && StepBack(q, rest) == [LT] + rest
  {
    TextEnds(q, false);
  }

  /** The cursor moves on unless the text is the last character of the document. */
  lemma RoundMoves(q: Str)
    requires AtText(q) && !IsSpace(q[0]) && Round(q).Some?
    ensures Round(q).value == q <==> |q| == 1
    ensures Round(q).value != q ==> |Round(q).value| < |q|
  {
    TextMoves(q, false);
    var rest := CondenseText(q, LT, false).rest;
    if |q| == 1 {
      NoSpaceToSkip(q);
      assert q[0..] == q;
    } else if |rest| > 0 {
      BackToTag(q);
      assert StepBack(q, rest)[0] == q[|q| - |rest| - 1] == LT;
    }
  }

  // ---------- All rounds ----------

  lemma NextRound(q: Str)
    requires Round(q).Some? && !(AtElement(q) && ParseElement(q).Forever?)
    ensures NeverLeaves(q) <==> NeverLeaves(Round(q).value)
    ensures ChildHangs(q) <==> ChildHangs(Round(q).value)
  {
    hide Round;
    var r := Round(q).value;
    if NeverLeaves(q) {
      forall n: nat
        ensures Rounds(r, n).Some?
      {
        assert Rounds(q, n + 1).Some?;
      }
    }
    if NeverLeaves(r) {
      forall n: nat
        ensures Rounds(q, n).Some?
      {
        if n > 0 {
          assert Rounds(r, n - 1).Some?;
        }
      }
    }
    if ChildHangs(q) {
      var n: nat :| HangsAt(q, n);
      assert n > 0 && HangsAt(r, n - 1);
    }
    if ChildHangs(r) {
      var n: nat :| HangsAt(r, n);
      assert HangsAt(q, n + 1);
    }
  }

  lemma Leaves(q: Str)
    requires Round(q).None?
    ensures !NeverLeaves(q)
    ensures ChildHangs(q) <==> AtElement(q) && ParseElement(q).Forever?
  {
    hide Round;
    assert Rounds(q, 1).None?;
    if AtElement(q) && ParseElement(q).Forever? {
      assert HangsAt(q, 0);
    }
    if ChildHangs(q) {
      var n: nat :| HangsAt(q, n);
      assert n == 0;
    }
  }

  lemma {:induction false} SameForever(q: Str, n: nat)
    requires Round(q) == Some(q)
    ensures Rounds(q, n) == Some(q)
    decreases n
  {
    hide Round;
    if n > 0 {
      SameForever(q, n - 1);
    }
  }

  lemma Stays(q: Str)
    requires Round(q) == Some(q) && !AtElement(q)
    ensures NeverLeaves(q) && !ChildHangs(q)
  {
    hide Round;
    forall n: nat
      ensures Rounds(q, n) == Some(q)
    {
      SameForever(q, n);
    }
  }

  /** A document is at its last character, and that is neither white space nor a tag. */
  predicate AtLast(q: Str) {
    |q| == 1 && q[0] != LT && !IsSpace(q[0])
  }

  lemma LastStays(q: Str)
    requires AtLast(q)
    ensures Round(q) == Some(q) && !AtElement(q)
  {
    NoSpaceToSkip(q);
    assert q[1..] == [] && q[0..] == q;
    assert GetChar(q).Done? && GetChar(q).rest == [];
    assert CondenseText([], LT, false) == Done([], []);
    assert CondenseText(q, LT, false).Done? && CondenseText(q, LT, false).rest == [];
    assert StepBack(q, []) == q;
  }

  lemma TextRounds(q: Str)
    requires AtText(q) && SkipSpace(q) == q
    ensures ReadValue(q).Forever? <==> NeverLeaves(q) || ChildHangs(q)
    decreases |q|, 0
  {
    hide NeverLeaves, ChildHangs;
    var text := CondenseText(q, LT, false);
    if text.Fail? {
      Leaves(q);
    } else if |text.rest| > 0 {
      BackToTag(q);
      NextRound(q);
      SkipsOnce([LT] + text.rest);
      ValueSkips([LT] + text.rest);
      LoopForever(SkipSpace([LT] + text.rest));
    } else {
      LastRounds(q);
    }
  }

  /** A text that runs to the end of the document. */
  lemma LastRounds(q: Str)
    requires AtText(q) && SkipSpace(q) == q && CondenseText(q, LT, false).Done? && |CondenseText(q, LT, false).rest| == 0
    ensures ReadValue(q).Forever? <==> NeverLeaves(q) || ChildHangs(q)
  {
    hide NeverLeaves, ChildHangs, CondenseText;
    var last := [q[|q| - 1]];
    assert StepBack(q, []) == last;
    NextRound(q);
    if last[0] == LT {
      NoSpaceToSkip(last);
      Leaves(last);
    } else if IsSpace(last[0]) {
      assert SkipSpace(last) == SkipSpace([]) by {
        assert last[1..] == [];
      }
      Leaves([]);
    } else {
      NoSpaceToSkip(last);
      LastStays(last);
      Stays(last);
    }
  }

  /** The loop runs forever, because it is never left or because a child does, exactly if a text in it
      runs to the end of a document that does not end in white space. */
  lemma {:induction false} LoopForever(q: Str)
    requires SkipSpace(q) == q
    ensures ReadValue(q).Forever? <==> NeverLeaves(q) || ChildHangs(q)
    decreases |q|, 1
  {
    hide NeverLeaves, ChildHangs;
    if AtText(q) {
      TextRounds(q);
    } else if AtElement(q) && ParseElement(q).Done? {
      var next := SkipSpace(ParseElement(q).rest);
      SkipsOnce(ParseElement(q).rest);
      ValueSkips(ParseElement(q).rest);
      NextRound(q);
      LoopForever(next);
    } else {
      Leaves(q);
    }
  }

  /** An element whose text is not ended: the parser does not come back. */
  lemma UnendedTextHangs(s: Str)
    requires s == [LT, 97, GT, 98]
    ensures ParseElement(s) == Forever
  {
    var tag: Str := [GT, 98];
    assert s == [LT] + ([97] + tag);
    OpenTagReads([97], tag);
    NoSpaceToSkip(tag);
    assert tag[1..] == [98];
    LastHangs([98]);
  }

  lemma LastHangs(q: Str)
    requires AtLast(q)
    ensures ReadValue(q) == Forever
  {
    LastStays(q);
    NoSpaceToSkip(q);
    TextMoves(q, false);
  }
}
