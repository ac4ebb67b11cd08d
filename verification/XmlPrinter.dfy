/** The XML printer as it runs: loops that append to strings, and a printer that keeps a buffer, the
    depth it is at and whether the element it is in holds nothing but one text. */
module XmlPrinter {
  import opened Chunks
  import opened XmlSpec
  import opened XmlPretty

  // ---------- Printing ----------

  method EncodeString(str: Str) returns (out: Str)
    ensures out == Encode(str)
  {
    hide Encode, EncodeChar, PassLength;
    out := [];
    var i := 0;
    assert str[0..] == str;
    while i < |str|
      invariant 0 <= i <= |str|
      invariant Encode(str) == out + Encode(str[i..])
    {
      if LooksLikeReference(str[i..]) {
        var passed, next := PassReference(str, i);
        EncodePassed(str[i..]);
        DropDrop(str, i, next - i);
        AppendAssoc(out, passed, Encode(str[next..]));
        out := out + passed;
        i := next;
      } else {
        EncodeOne(str[i..]);
        DropDrop(str, i, 1);
        AppendAssoc(out, EncodeChar(str[i]), Encode(str[i + 1..]));
        out := out + EncodeChar(str[i]);
        i := i + 1;
      }
    }
    EncodeNothing();
    assert str[i..] == [] && out + [] == out;
  }

  lemma EncodePassed(s: Str)
    requires LooksLikeReference(s)
    ensures PassLength(s, 0) > 0
    ensures Encode(s) == s[..PassLength(s, 0)] + Encode(s[PassLength(s, 0)..])
  {
    PassesSomething(s);
  }

  lemma EncodeOne(s: Str)
    requires |s| > 0 && !LooksLikeReference(s)
    ensures Encode(s) == EncodeChar(s[0]) + Encode(s[1..])
  {
  }

  /** The inner loop: characters of a reference go out unchanged. */
  method PassReference(str: Str, from: nat) returns (passed: Str, i: nat)
    requires from < |str|
    ensures i == from + PassLength(str[from..], 0) && passed == str[from..][..PassLength(str[from..], 0)]
  {
    passed, i := [], from;
    ghost var s := str[from..];
    while i < |str| - 1
      invariant from <= i < |str|
      invariant PassLength(s, 0) == PassLength(s, i - from)
      invariant passed == s[..i - from]
      invariant i > from ==> str[i] != SEMI
    {
      passed := passed + [str[i]];
      i := i + 1;
      if str[i] == SEMI {
        break;
      }
    }
  }

  /** TiXmlAttribute::Print to a string. */
  method PrintAttribute(a: Attr, str: Str) returns (out: Str)
    ensures out == str + PrintAttr(a)
  {
    var n := EncodeString(a.name);
    var v := EncodeString(a.value);
    if QUOT !in a.value {
      out := str + n;
      out := out + [EQ, QUOT];
      out := out + v;
      out := out + [QUOT];
    } else {
      out := str + n;
      out := out + [EQ, APOS];
      out := out + v;
      out := out + [APOS];
    }
  }

  class CPrinter {
    var depth: int
    var simpleTextPrint: bool
    var buffer: Str
    var indent: Str
    var lineBreak: Str

    constructor ()
      ensures depth == 0 && !simpleTextPrint && buffer == [] && indent == [32, 32, 32, 32] && lineBreak == [10]
    {
      depth, simpleTextPrint, buffer := 0, false, [];
      indent, lineBreak := [32, 32, 32, 32], [10];
    }

    /** What every line is laid out with. */
    function Style(): Layout
      reads this`indent, this`lineBreak
    {
      Layout(indent, lineBreak)
    }

    method SetStreamPrinting()
      modifies `indent, `lineBreak
      ensures Style() == Layout([], [])
    {
      indent, lineBreak := [], [];
    }

    method DoIndent()
      modifies `buffer
      ensures buffer == old(buffer) + Indent(Style(), depth)
    {
      var i := 0;
      assert buffer + [] == buffer;
      while i < depth
        invariant 0 <= i && (depth >= 0 ==> i <= depth) && (depth < 0 ==> i == 0)
        invariant buffer == old(buffer) + Indent(Style(), i)
      {
        AppendAssoc(old(buffer), Indent(Style(), i), indent);
        buffer := buffer + indent;
        i := i + 1;
      }
    }

    method DoLineBreak()
      modifies `buffer
      ensures buffer == old(buffer) + lineBreak
    {
      buffer := buffer + lineBreak;
    }

    /** The loop over the attributes in VisitEnter. */
    method PrintAttributes(attrs: seq<Attr>)
      modifies `buffer
      ensures buffer == old(buffer) + PrintAttrs(attrs)
    {
      hide PrintAttr;
      var i := 0;
      while i < |attrs|
        invariant 0 <= i <= |attrs|
        invariant buffer + PrintAttrs(attrs[i..]) == old(buffer) + PrintAttrs(attrs)
      {
        NextAttr(attrs[i..]);
        DropDrop(attrs, i, 1);
        AppendAssoc(buffer + [SPACE], PrintAttr(attrs[i]), PrintAttrs(attrs[i + 1..]));
        AppendAssoc(buffer, [SPACE], PrintAttr(attrs[i]) + PrintAttrs(attrs[i + 1..]));
        buffer := buffer + [SPACE];
        buffer := PrintAttribute(attrs[i], buffer);
        i := i + 1;
      }
    }

    method VisitEnter(name: Str, attrs: seq<Attr>, children: seq<Node>)
      modifies `buffer, `depth, `simpleTextPrint
      ensures depth == old(depth) + 1 && simpleTextPrint == (old(simpleTextPrint) || IsLone(children))
      ensures buffer == old(buffer) +
        (Indent(Style(), old(depth)) + ([LT] + name + PrintAttrs(attrs)) + OpenEnd(children, lineBreak))
    {
      hide PrintAttrs, Indent;
      ghost var was := buffer;
      DoIndent();
      ghost var indented := buffer;
      buffer := buffer + [LT];
      buffer := buffer + name;
      PrintAttributes(attrs);
      AppendAll(indented, [LT], name, PrintAttrs(attrs));
      ghost var named := buffer;
      if |children| == 0 {
        buffer := buffer + [SPACE, SLASH, GT];
        DoLineBreak();
        AppendAssoc(named, [SPACE, SLASH, GT], lineBreak);
      } else {
        buffer := buffer + [GT];
        if children[0].Text? && |children| == 1 {
          simpleTextPrint := true;
        } else {
          DoLineBreak();
          AppendAssoc(named, [GT], lineBreak);
        }
      }
      AppendAssoc(was, Indent(Style(), depth), [LT] + name + PrintAttrs(attrs));
      AppendAssoc(was, Indent(Style(), depth) + ([LT] + name + PrintAttrs(attrs)), OpenEnd(children, lineBreak));
      depth := depth + 1;
    }

    method VisitExit(name: Str, children: seq<Node>)
      modifies `buffer, `depth, `simpleTextPrint
      ensures depth == old(depth) - 1 && simpleTextPrint == (old(simpleTextPrint) && |children| == 0)
      ensures buffer == old(buffer) +
        if |children| == 0 then []
        else (if old(simpleTextPrint) then [] else Indent(Style(), depth)) + EndTag(name) + lineBreak
    {
      hide Indent;
      ghost var was, start: Str := buffer, [];
      depth := depth - 1;
      if |children| > 0 {
        if simpleTextPrint {
          simpleTextPrint := false;
          assert was + start == buffer;
        } else {
          DoIndent();
          start := Indent(Style(), depth);
        }
        ghost var indented := buffer;
        buffer := buffer + [LT, SLASH];
        buffer := buffer + name;
        buffer := buffer + [GT];
        AppendAll(indented, [LT, SLASH], name, [GT]);
        ghost var ended := buffer;
        DoLineBreak();
        AppendAssoc(was, start, EndTag(name));
        AppendAssoc(was, start + EndTag(name), lineBreak);
      } else {
        assert was + [] == was;
      }
    }

    method VisitText(value: Str)
      modifies `buffer
      ensures buffer == old(buffer) + Pretty(Text(value), depth, simpleTextPrint, Style())
    {
      hide Encode, Indent;
      ghost var was := buffer;
      if simpleTextPrint {
        var str := EncodeString(value);
        buffer := buffer + str;
      } else {
        DoIndent();
        var str := EncodeString(value);
        buffer := buffer + str;
        DoLineBreak();
        AppendAll(was, Indent(Style(), depth), str, lineBreak);
      }
    }

    /** Accept: the printer visits a node and everything below it. */
    method Accept(n: Node)
      requires simpleTextPrint ==> n.Text?
      modifies `buffer, `depth, `simpleTextPrint
      ensures depth == old(depth) && simpleTextPrint == old(simpleTextPrint)
      ensures buffer == old(buffer) + Pretty(n, depth, simpleTextPrint, Style())
      decreases n
    {
      hide PrintAttrs, Encode, Pretty, PrettyAll, EndTag, Indent;
      match n
      case Text(value) =>
        VisitText(value);
      case Element(name, attrs, children) =>
        ghost var lone := IsLone(children);
        VisitEnter(name, attrs, children);
        ghost var open := Indent(Style(), old(depth)) + ([LT] + name + PrintAttrs(attrs)) + OpenEnd(children, lineBreak);
        ghost var all := PrettyAll(children, depth, lone, Style());
        var i := 0;
        AppendAssoc(old(buffer), open, all);
        while i < |children|
          invariant 0 <= i <= |children|
          invariant depth == old(depth) + 1 && simpleTextPrint == lone
          invariant buffer + PrettyAll(children[i..], depth, lone, Style()) == old(buffer) + (open + all)
        {
          NextNode(children[i..], depth, lone, Style());
          DropDrop(children, i, 1);
          AppendAssoc(buffer, Pretty(children[i], depth, lone, Style()), PrettyAll(children[i + 1..], depth, lone, Style()));
          Accept(children[i]);
          i := i + 1;
        }
        NoNodes(depth, lone, Style());
        assert children[i..] == [] && buffer + [] == buffer;
        VisitExit(name, children);
        ghost var end := (if lone then [] else Indent(Style(), depth)) + EndTag(name) + lineBreak;
        ghost var close := if |children| == 0 then [] else end;
        AppendAssoc(old(buffer), open + all, close);
        ElementPieces(n, depth, Style());
    }
  }

  /** What ends a start tag. */
  function OpenEnd(children: seq<Node>, lineBreak: Str): Str {
    if |children| == 0 then [SPACE, SLASH, GT] + lineBreak else if IsLone(children) then [GT] else [GT] + lineBreak
  }

  lemma AppendAll(b: Str, x: Str, y: Str, z: Str)
    ensures b + x + y + z == b + (x + y + z)
  {
  }

  lemma NextAttr(attrs: seq<Attr>)
    requires |attrs| > 0
    ensures PrintAttrs(attrs) == [SPACE] + (PrintAttr(attrs[0]) + PrintAttrs(attrs[1..]))
  {
    hide PrintAttr;
    AppendAssoc([SPACE], PrintAttr(attrs[0]), PrintAttrs(attrs[1..]));
  }

  lemma NextNode(nodes: seq<Node>, depth: int, lone: bool, l: Layout)
    requires |nodes| > 0
    ensures PrettyAll(nodes, depth, lone, l) == Pretty(nodes[0], depth, lone, l) + PrettyAll(nodes[1..], depth, lone, l)
  {
  }

  lemma NoNodes(depth: int, lone: bool, l: Layout)
    ensures PrettyAll([], depth, lone, l) == []
  {
  }

  lemma ElementPieces(n: Node, depth: int, l: Layout)
    requires n.Element?
    ensures var lone := IsLone(n.children);
      Pretty(n, depth, false, l) ==
      (Indent(l, depth) + ([LT] + n.name + PrintAttrs(n.attrs)) + OpenEnd(n.children, l.lineBreak))
      + PrettyAll(n.children, depth + 1, lone, l)
      + (if |n.children| == 0 then [] else (if lone then [] else Indent(l, depth)) + EndTag(n.name) + l.lineBreak)
  {
    hide PrintAttrs, Indent, EndTag;
    if |n.children| == 0 {
      NoNodes(depth + 1, false, l);
    } else {
      hide PrettyAll;
    }
  }
}
