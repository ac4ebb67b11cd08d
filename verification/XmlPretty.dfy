/** The printed form with indentation and line breaks, and why it is read back as well: the parser takes
    what the printer adds for white space. */
module XmlPretty {
  import opened Chunks
  import opened XmlSpec
  import G = XmlGrammar

  /** What stands for one step of indentation, and for a line break. */
  datatype Layout = Layout(indent: Str, lineBreak: Str)

  function Indent(l: Layout, depth: int): Str {
    if depth <= 0 then [] else Indent(l, depth - 1) + l.indent
  }

  /** An element that holds nothing but one text is printed on one line. */
  predicate IsLone(children: seq<Node>) {
    |children| == 1 && children[0].Text?
  }

  /** A tree at some depth; lone if it is the only text of its element. */
  function Pretty(n: Node, depth: int, lone: bool, l: Layout): Str
    decreases n, 0
  {
    match n
    case Text(value) => if lone then Encode(value) else Indent(l, depth) + Encode(value) + l.lineBreak
    case Element(name, attrs, children) =>
      Indent(l, depth) + ([LT] + name + PrintAttrs(attrs)) + PrettyContent(name, children, depth, l)
  }

  /** An element after its attributes. */
  function PrettyContent(name: Str, children: seq<Node>, depth: int, l: Layout): Str
    decreases children, 1
  {
    if |children| == 0 then [SPACE, SLASH, GT] + l.lineBreak
    else if IsLone(children) then [GT] + PrettyAll(children, depth + 1, true, l) + EndTag(name) + l.lineBreak
    else [GT] + l.lineBreak + PrettyAll(children, depth + 1, false, l) + Indent(l, depth) + EndTag(name) + l.lineBreak
  }

  function PrettyAll(nodes: seq<Node>, depth: int, lone: bool, l: Layout): Str
    decreases nodes, 0
  {
    if |nodes| == 0 then [] else Pretty(nodes[0], depth, lone, l) + PrettyAll(nodes[1..], depth, lone, l)
  }

  // ---------- Without indentation and line breaks ----------

  lemma {:induction false} NoIndent(depth: int)
    ensures Indent(Layout([], []), depth) == []
    decreases depth
  {
    if depth > 0 {
      NoIndent(depth - 1);
    }
  }

  /** With nothing for indentation and line breaks the printed form is the compact one. */
  lemma {:induction false} PrettyIsPrint(n: Node, depth: int, lone: bool)
    ensures Pretty(n, depth, lone, Layout([], [])) == Print(n)
    decreases n, 0
  {
    hide Encode, PrintAttrs, PrettyAll, PrintAll, EndTag;
    NoIndent(depth);
    if n.Element? {
      AllIsPrint(n.children, depth + 1, IsLone(n.children));
    }
  }

  lemma {:induction false} AllIsPrint(nodes: seq<Node>, depth: int, lone: bool)
    ensures PrettyAll(nodes, depth, lone, Layout([], [])) == PrintAll(nodes)
    decreases nodes, 1
  {
    hide Pretty, Print;
    if |nodes| > 0 {
      PrettyIsPrint(nodes[0], depth, lone);
      AllIsPrint(nodes[1..], depth, lone);
    }
  }

  // ---------- White space ----------

  lemma {:induction false} IndentIsBlank(l: Layout, depth: int)
    requires Blank(l.indent)
    ensures Blank(Indent(l, depth))
    decreases depth
  {
    if depth > 0 {
      IndentIsBlank(l, depth - 1);
    }
  }

  lemma {:induction false} SkipMore(w: Str, q: Str)
    requires Blank(w)
    ensures SkipSpace(w + q) == SkipSpace(q)
    decreases |w|
  {
    if |w| == 0 {
      assert w + q == q;
    } else {
      assert (w + q)[1..] == w[1..] + q;
      SkipMore(w[1..], q);
    }
  }

  lemma ValueAfterSpace(w: Str, q: Str)
    requires Blank(w)
    ensures ReadValue(w + q) == ReadValue(q)
  {
    hide ReadValue;
    SkipMore(w, q);
    ValueSkips(w + q);
    ValueSkips(q);
  }

  lemma ElementAfterSpace(w: Str, q: Str)
    requires Blank(w)
    ensures ParseElement(w + q) == ParseElement(q)
  {
    hide ParseTag, ReadName;
    SkipMore(w, q);
  }

  lemma {:induction false} CondenseBlank(w: Str, rest: Str, space: bool)
    requires Blank(w)
    ensures CondenseText(w + ([LT] + rest), LT, space) == Done([], rest)
    decreases |w|
  {
    var p := w + ([LT] + rest);
    if |w| == 0 {
      assert p == [LT] + rest && p[1..] == rest;
    } else {
      assert p[1..] == w[1..] + ([LT] + rest);
      CondenseBlank(w[1..], rest, true);
    }
  }

  /** A printed text is read up to the next tag, whatever white space stands before that. */
  lemma {:induction false} CondensePretty(v: Str, w: Str, rest: Str, space: bool)
    requires Plain(v) && Blank(w)
    ensures CondenseText(Encode(v) + (w + ([LT] + rest)), LT, space) == Done(Condense(v, space), rest)
    decreases |v|
  {
    hide EncodeChar, GetChar, Plain, Encode, IsSpace, Blank;
    var tail := w + ([LT] + rest);
    if |v| == 0 {
      EncodeNothing();
      assert Encode(v) + tail == tail;
      CondenseBlank(w, rest, space);
    } else {
      EncodeStep(v, tail);
      var more := Encode(v[1..]) + tail;
      var p := EncodeChar(v[0]) + more;
      CharReads(v[0], more);
      NotAtEnd(v[0], more);
      if v[0] == SPACE {
        SpaceIsItself();
        assert p[1..] == more;
        CondensePretty(v[1..], w, rest, true);
      } else {
        CondensePretty(v[1..], w, rest, false);
        CondenseStep(p, LT, space);
        var back := Condense(v[1..], false);
        assert AfterSpace(space, [v[0]] + back) == (if space then [SPACE] else []) + [v[0]] + back;
      }
    }
  }

  // ---------- Reading back ----------

  /** The text v, what the printer puts around it, and then a tag. */
  lemma TextRead(u: Str, v: Str, w: Str, rest: Str)
    requires Blank(u) && Blank(w) && CondensedText(v) && |rest| > 0 && ReadValue([LT] + rest).Done?
    ensures var r := ReadValue([LT] + rest);
      ReadValue(u + (Encode(v) + (w + ([LT] + rest)))) == Done([Text(v)] + r.value, r.rest)
  {
    hide CondenseText, Encode, EncodeChar, Blank, Plain, ParseElement;
    var tail := w + ([LT] + rest);
    var p := Encode(v) + tail;
    ValueAfterSpace(u, p);
    CondensePretty(v, w, rest, false);
    CondenseSame(v, false);
    TextBegins(v, tail);
  }

  lemma TextBegins(v: Str, tail: Str)
    requires CondensedText(v)
    ensures var p := Encode(v) + tail; |p| > 0 && p[0] != LT && !IsSpace(p[0]) && SkipSpace(p) == p && !Blank(v)
  {
    hide EncodeChar, Encode, IsSpace;
    EncodeStep(v, tail);
    CharReads(v[0], Encode(v[1..]) + tail);
    NotAtEnd(v[0], Encode(v[1..]) + tail);
    NoSpaceToSkip(Encode(v) + tail);
  }

  lemma ElementParts(n: Node, depth: int, l: Layout, rest: Str)
    requires n.Element?
    ensures Pretty(n, depth, false, l) + rest ==
      Indent(l, depth) + ([LT] + (n.name + (PrintAttrs(n.attrs) + (PrettyContent(n.name, n.children, depth, l) + rest))))
  {
    hide PrintAttrs, PrettyContent, Indent;
  }

  lemma ContentParts(name: Str, children: seq<Node>, depth: int, l: Layout, rest: Str)
    ensures var content := PrettyContent(name, children, depth, l) + rest;
      var end := EndTag(name) + (l.lineBreak + rest);
      && |content| > 0 && !IsNameChar(content[0])
      && content ==
         if |children| == 0 then [SPACE, SLASH, GT] + (l.lineBreak + rest)
         else if IsLone(children) then [GT] + (PrettyAll(children, depth + 1, true, l) + end)
         else [GT] + (l.lineBreak + (PrettyAll(children, depth + 1, false, l) + (Indent(l, depth) + end)))
  {
    hide PrettyAll, Indent, EndTag;
  }

  lemma EndStarts(name: Str, rest: Str)
    ensures var end := EndTag(name) + rest;
      |end| > 1 && end == [LT] + end[1..] && StartsWith(end, [LT, SLASH]) && ReadValue(end) == Done([], end)
  {
    var end := EndTag(name) + rest;
    assert end == [LT, SLASH] + (name + [GT] + rest);
    PrefixOf([LT, SLASH], name + [GT] + rest);
    EndReads(end);
  }

  /** A pretty printed element is read back, up to its line break. */
  lemma {:induction false} ElementRead(n: Node, depth: int, l: Layout, rest: Str)
    requires n.Element? && Printable(n) && Blank(l.indent) && Blank(l.lineBreak)
    ensures ParseElement(Pretty(n, depth, false, l) + rest) == Done(n, l.lineBreak + rest)
    decreases n, 0
  {
    hide ParseTag, ParseElement, PrintAttrs, Pretty, PrettyAll, PrettyContent, ValidName, AttrOk, DistinctNames, EndTag;
    hide ReadValue, Indent, Blank;
    var content := PrettyContent(n.name, n.children, depth, l) + rest;
    var after := l.lineBreak + rest;
    ElementParts(n, depth, l, rest);
    ContentParts(n.name, n.children, depth, l, rest);
    IndentIsBlank(l, depth);
    ElementAfterSpace(Indent(l, depth), [LT] + (n.name + (PrintAttrs(n.attrs) + content)));
    PrintedAttrsStart(n.attrs, content);
    OpenTagReads(n.name, PrintAttrs(n.attrs) + content);
    assert [] + n.attrs == n.attrs;
    AttrsRead(n.name, [], n.attrs, content);
    if |n.children| == 0 {
      EmptyTagReads(n.name, n.attrs, after);
    } else {
      var inner := ChildrenOf(n, depth, l, after);
      EndTagReads(n.name, n.attrs, n.children, inner, after);
    }
  }

  /** The content of an element that has some. */
  lemma {:induction false} ChildrenOf(n: Node, depth: int, l: Layout, after: Str) returns (inner: Str)
    requires n.Element? && Printable(n) && |n.children| > 0 && Blank(l.indent) && Blank(l.lineBreak)
    ensures ReadValue(inner) == Done(n.children, EndTag(n.name) + after)
    ensures inner ==
      if IsLone(n.children) then PrettyAll(n.children, depth + 1, true, l) + (EndTag(n.name) + after)
      else l.lineBreak + (PrettyAll(n.children, depth + 1, false, l) + (Indent(l, depth) + (EndTag(n.name) + after)))
    decreases n.children, 2
  {
    hide ReadValue, Indent, Blank, PrettyAll, EndTag;
    var end := EndTag(n.name) + after;
    EndStarts(n.name, after);
    if IsLone(n.children) {
      inner := PrettyAll(n.children, depth + 1, true, l) + end;
      LoneText(n.children, depth + 1, l);
      TextThen(n.children[0].value, end);
      assert [Text(n.children[0].value)] + [] == n.children;
    } else {
      IndentIsBlank(l, depth);
      var all := PrettyAll(n.children, depth + 1, false, l) + (Indent(l, depth) + end);
      inner := l.lineBreak + all;
      ValueAfterSpace(l.lineBreak, all);
      ChildrenRead(n.children, depth + 1, l, Indent(l, depth), end);
    }
  }

  lemma LoneText(children: seq<Node>, depth: int, l: Layout)
    requires IsLone(children)
    ensures PrettyAll(children, depth, true, l) == Encode(children[0].value)
    ensures AllPrintable(children) ==> CondensedText(children[0].value)
  {
    hide Encode;
    var v := children[0].value;
    assert children[1..] == [] && PrettyAll([], depth, true, l) == [];
    assert PrettyAll(children, depth, true, l) == Encode(v) + [];
    assert AllPrintable(children) ==> Printable(children[0]);
  }

  /** Pretty printed nodes, followed by white space and an end tag, are read back. */
  lemma {:induction false} ChildrenRead(nodes: seq<Node>, depth: int, l: Layout, w: Str, end: Str)
    requires AllPrintable(nodes) && Blank(l.indent) && Blank(l.lineBreak) && Blank(w)
    requires |end| > 1 && end == [LT] + end[1..] && ReadValue(end) == Done([], end)
    ensures ReadValue(PrettyAll(nodes, depth, false, l) + (w + end)) == Done(nodes, end)
    decreases nodes, 1
  {
    hide ReadValue, ParseElement, Pretty, Blank;
    if |nodes| == 0 {
      assert PrettyAll(nodes, depth, false, l) + (w + end) == w + end;
      ValueAfterSpace(w, end);
    } else {
      var q := PrettyAll(nodes[1..], depth, false, l) + (w + end);
      AppendAssoc(Pretty(nodes[0], depth, false, l), PrettyAll(nodes[1..], depth, false, l), w + end);
      ChildrenRead(nodes[1..], depth, l, w, end);
      assert [nodes[0]] + nodes[1..] == nodes;
      if nodes[0].Text? {
        var u, rest := NextTag(nodes[1..], depth, l, w, end);
        TextNode(nodes[0], depth, l, u, rest, q);
      } else {
        ElementRead(nodes[0], depth, l, q);
        ElementNode(nodes[0], depth, l, q);
      }
    }
  }

  /** After a text comes white space and then a tag. */
  lemma NextTag(nodes: seq<Node>, depth: int, l: Layout, w: Str, end: Str) returns (u: Str, rest: Str)
    requires (|nodes| > 0 ==> nodes[0].Element? && Printable(nodes[0])) && Blank(l.indent) && Blank(w)
    requires |end| > 1 && end == [LT] + end[1..]
    ensures Blank(u) && |rest| > 0 && PrettyAll(nodes, depth, false, l) + (w + end) == u + ([LT] + rest)
  {
    hide Blank, Pretty, PrettyContent, Indent;
    if |nodes| == 0 {
      u, rest := w, end[1..];
      assert PrettyAll(nodes, depth, false, l) + (w + end) == w + end;
    } else {
      var more := PrettyAll(nodes[1..], depth, false, l) + (w + end);
      AppendAssoc(Pretty(nodes[0], depth, false, l), PrettyAll(nodes[1..], depth, false, l), w + end);
      ElementParts(nodes[0], depth, l, more);
      IndentIsBlank(l, depth);
      u := Indent(l, depth);
      rest := nodes[0].name + (PrintAttrs(nodes[0].attrs) + (PrettyContent(nodes[0].name, nodes[0].children, depth, l) + more));
      assert |nodes[0].name| > 0;
    }
  }

  lemma TextNode(n: Node, depth: int, l: Layout, u: Str, rest: Str, q: Str)
    requires n.Text? && Printable(n) && Blank(l.indent) && Blank(l.lineBreak) && Blank(u) && |rest| > 0
    requires q == u + ([LT] + rest) && ReadValue(q).Done?
    ensures ReadValue(Pretty(n, depth, false, l) + q) == Done([n] + ReadValue(q).value, ReadValue(q).rest)
  {
    hide ReadValue, Encode, Indent;
    ValueAfterSpace(u, [LT] + rest);
    IndentIsBlank(l, depth);
    var w := l.lineBreak + u;
    TextRead(Indent(l, depth), n.value, w, rest);
    assert Pretty(n, depth, false, l) + q == Indent(l, depth) + (Encode(n.value) + (w + ([LT] + rest)));
  }

  lemma ElementNode(n: Node, depth: int, l: Layout, q: Str)
    requires n.Element? && Printable(n) && Blank(l.indent) && Blank(l.lineBreak)
    requires ParseElement(Pretty(n, depth, false, l) + q) == Done(n, l.lineBreak + q) && ReadValue(q).Done?
    ensures ReadValue(Pretty(n, depth, false, l) + q) == Done([n] + ReadValue(q).value, ReadValue(q).rest)
  {
    hide ParseElement, Pretty, Indent, PrettyContent, PrintAttrs, ReadValue, Blank;
    var w := Indent(l, depth);
    var p := [LT] + (n.name + (PrintAttrs(n.attrs) + (PrettyContent(n.name, n.children, depth, l) + q)));
    ElementParts(n, depth, l, q);
    IndentIsBlank(l, depth);
    ElementAfterSpace(w, p);
    ValueAfterSpace(w, p);
    ValueAfterSpace(l.lineBreak, q);
    assert p[1] == n.name[0];
    assert [] + p == p;
    NothingIsBlank();
    G.ElementAfter([], p, n, l.lineBreak + q);
  }

  lemma NothingIsBlank()
    ensures Blank([])
  {
  }

  /** Any printable tree survives printing with indentation and line breaks, whatever white space they are
      made of. */
  lemma PrettyRoundTrip(n: Node, depth: int, l: Layout)
    requires n.Element? && Printable(n) && Blank(l.indent) && Blank(l.lineBreak)
    ensures ParseElement(Pretty(n, depth, false, l)) == Done(n, l.lineBreak)
  {
    hide ParseElement, Pretty;
    ElementRead(n, depth, l, []);
    assert Pretty(n, depth, false, l) + [] == Pretty(n, depth, false, l);
    assert l.lineBreak + [] == l.lineBreak;
  }
}
