/** Character references: what the parser makes of every "&#...;" and "&#x...;", whether the printer
    would write it or not. */
module XmlReferences {
  import opened Options
  import opened Chunks
  import opened XmlSpec

  /** n in decimal, by repeated division. */
  function Decimal(n: nat): (s: Str)
    ensures |s| > 0
  {
    (if n < 10 then [] else Decimal(n / 10)) + [48 + n % 10]
  }

  /** n in hexadecimal; the letters start at a. */
  function Hexadecimal(n: nat, a: byte): (s: Str)
    requires a <= 250
    ensures |s| > 0
  {
    (if n < 16 then [] else Hexadecimal(n / 16, a)) + [if n % 16 < 10 then 48 + n % 16 else a + (n % 16 - 10)]
  }

  predicate IsDigit(c: byte, base: int) {
    48 <= c <= 57 || (base == 16 && (65 <= c <= 70 || 97 <= c <= 102))
  }

  /** The characters before the digits: what introduces a reference of that base. */
  function Opening(hex: bool): Str {
    if hex then [AMP, HASH, LOWER_X] else [AMP, HASH]
  }

  function Stop(hex: bool): byte {
    if hex then LOWER_X else HASH
  }

  function Base(hex: bool): int {
    if hex then 16 else 10
  }

  /** The value of a row of digits, the most significant first. */
  function Value(ds: Str, base: int): Option<int> {
    if |ds| == 0 then Some(0)
    else
      var n := |ds| - 1;
      var high := Value(ds[..n], base);
      if IsDigit(ds[n], base) && high.Some? then Some(base * high.value + DigitValue(ds[n])) else None
  }

  lemma {:induction false} ValueExists(ds: Str, base: int)
    ensures Value(ds, base).Some? <==> forall i :: 0 <= i < |ds| ==> IsDigit(ds[i], base)
    decreases |ds|
  {
    if |ds| > 0 {
      var n := |ds| - 1;
      ValueExists(ds[..n], base);
      assert forall i :: 0 <= i < n ==> ds[..n][i] == ds[i];
    }
  }

  lemma ValueStep(ds: Str, c: byte, base: int)
    ensures Value(ds + [c], base) ==
      var high := Value(ds, base);
      if IsDigit(c, base) && high.Some? then Some(base * high.value + DigitValue(c)) else None
    ensures Value([], base) == Some(0)
  {
    assert (ds + [c])[..|ds|] == ds;
  }

  lemma {:induction false} DecimalValue(n: nat)
    ensures Value(Decimal(n), 10) == Some(n)
    ensures forall i :: 0 <= i < |Decimal(n)| ==> 48 <= Decimal(n)[i] <= 57
    decreases n
  {
    hide Value;
    var high := if n < 10 then [] else Decimal(n / 10);
    ValueStep(high, 48 + n % 10, 10);
    if n >= 10 {
      DecimalValue(n / 10);
    }
  }

  lemma {:induction false} HexadecimalValue(n: nat, a: byte)
    requires a == 65 || a == 97
    ensures Value(Hexadecimal(n, a), 16) == Some(n)
    ensures forall i :: 0 <= i < |Hexadecimal(n, a)| ==> IsDigit(Hexadecimal(n, a)[i], 16)
    decreases n
  {
    hide Value;
    var high := if n < 16 then [] else Hexadecimal(n / 16, a);
    ValueStep(high, if n % 16 < 10 then 48 + n % 16 else a + (n % 16 - 10), 16);
    if n >= 16 {
      HexadecimalValue(n / 16, a);
    }
  }

  /** Reading backwards from q stops at the nearest stop character. */
  lemma {:induction false} NumberIsValue(p: Str, k: nat, q: nat, base: int, stop: byte)
    requires 0 < k <= q <= |p| && p[k - 1] == stop && (base == 10 || base == 16)
    requires forall i :: k <= i < q ==> p[i] != stop
    ensures Number(p, q, base, stop) == Value(p[k..q], base)
    decreases q
  {
    if k < q {
      NumberIsValue(p, k, q - 1, base, stop);
      assert p[k..q][..q - 1 - k] == p[k..q - 1];
    }
  }

  /** GetEntity in terms of positions: the first ';' and the last stop character before it. */
  lemma EntityAt(p: Str, hex: bool, k: nat, end: nat)
    requires |Opening(hex)| <= k <= end < |p| && p[1] == HASH && (p[2] == LOWER_X <==> hex)
    requires p[end] == SEMI && forall j :: 0 <= j < end ==> p[j] != SEMI
    requires p[k - 1] == Stop(hex) && forall j :: k <= j < end ==> p[j] != Stop(hex)
    ensures GetEntity(p) ==
      match Value(p[k..end], Base(hex))
      case Some(n) => Done([n % 256], p[end + 1..])
      case None => Fail
  {
    hide Value, IndexOf, Number;
    FirstAt(p, SEMI, end);
    NumberIsValue(p, k, end, Base(hex), Stop(hex));
  }

  /** Where the parts of a concatenation are. */
  lemma Parts<T>(a: seq<T>, b: seq<T>, c: seq<T>, x: T, rest: seq<T>)
    ensures var p := a + b + c + [x] + rest; var k, end := |a| + |b|, |a| + |b| + |c|;
      && |p| == end + 1 + |rest| && p[end] == x && p[end + 1..] == rest && p[k..end] == c
      && (forall j :: 0 <= j < |a| ==> p[j] == a[j])
      && (forall j :: |a| <= j < k ==> p[j] == b[j - |a|])
      && (forall j :: k <= j < end ==> p[j] == c[j - k])
  {
  }

  /** What the parser makes of a reference: it reads the digits between the last stop character and the
      first ';', whatever stands before them, and fails if one of them is no digit. */
  lemma ReferenceExact(hex: bool, junk: Str, ds: Str, rest: Str)
    requires junk == [] || junk[|junk| - 1] == Stop(hex)
    requires SEMI !in junk && SEMI !in ds && Stop(hex) !in ds
    requires !hex ==> (junk != [] ==> junk[0] != LOWER_X) && (junk == [] && ds != [] ==> ds[0] != LOWER_X)
    ensures GetEntity(Opening(hex) + junk + ds + [SEMI] + rest) ==
      match Value(ds, Base(hex))
      case Some(n) => Done([n % 256], rest)
      case None => Fail
  {
    hide Value, GetEntity;
    Parts(Opening(hex), junk, ds, SEMI, rest);
    var p := Opening(hex) + junk + ds + [SEMI] + rest;
    EntityAt(p, hex, |Opening(hex)| + |junk|, |Opening(hex)| + |junk| + |ds|);
  }

  lemma NothingBefore<T>(a: seq<T>)
    ensures a + [] == a
  {
  }

  /** Every number written in decimal is read back, to its low byte. */
  lemma DecimalReads(n: nat, rest: Str)
    ensures GetEntity([AMP, HASH] + Decimal(n) + [SEMI] + rest) == Done([n % 256], rest)
  {
    hide GetEntity, Value, Decimal;
    DecimalValue(n);
    ReferenceExact(false, [], Decimal(n), rest);
    NothingBefore(Opening(false));
  }

  /** So is every number written in hexadecimal, with upper-case or lower-case letters. */
  lemma HexadecimalReads(n: nat, a: byte, rest: Str)
    requires a == 65 || a == 97
    ensures GetEntity([AMP, HASH, LOWER_X] + Hexadecimal(n, a) + [SEMI] + rest) == Done([n % 256], rest)
  {
    hide GetEntity, Value, Hexadecimal;
    HexadecimalValue(n, a);
    assert forall i :: 0 <= i < |Hexadecimal(n, a)| ==> IsDigit(Hexadecimal(n, a)[i], 16);
    ReferenceExact(true, [], Hexadecimal(n, a), rest);
    NothingBefore(Opening(true));
  }

  /** A reference with a character that is no digit of its base is refused. */
  lemma BadDigitFails(hex: bool, ds: Str, i: nat, rest: Str)
    requires SEMI !in ds && Stop(hex) !in ds && i < |ds| && !IsDigit(ds[i], Base(hex))
    requires !hex ==> ds[0] != LOWER_X
    ensures GetEntity(Opening(hex) + ds + [SEMI] + rest).Fail?
  {
    hide GetEntity, Value, IsDigit;
    ValueExists(ds, Base(hex));
    ReferenceExact(hex, [], ds, rest);
    NothingBefore(Opening(hex));
  }

  /** A reference that is not closed is refused. */
  lemma UnclosedFails(body: Str)
    requires |body| > 0 && SEMI !in body
    ensures GetEntity([AMP, HASH] + body).Fail?
  {
    NowhereFound([AMP, HASH] + body, SEMI);
  }

  /** The characters of a literal. */
  function Ascii(s: string): (b: Str)
    ensures |b| == |s|
    ensures forall i :: 0 <= i < |s| && s[i] < 128 as char ==> b[i] == s[i] as int
  {
    if |s| == 0 then [] else [if s[0] < 128 as char then s[0] as int else 0] + Ascii(s[1..])
  }

  /** The five named entities, written out. */
  lemma EntityNames()
    ensures AMP_ENT == Ascii("&amp;") && [AMP] == Ascii("&")
    ensures LT_ENT == Ascii("&lt;") && [LT] == Ascii("<")
    ensures GT_ENT == Ascii("&gt;") && [GT] == Ascii(">")
    ensures QUOT_ENT == Ascii("&quot;") && [QUOT] == Ascii("\"")
    ensures APOS_ENT == Ascii("&apos;") && [APOS] == Ascii("'")
  {
    hide Ascii;
  }

  /** White space, and what a name may begin with and go on with, character by character. */
  lemma CharacterClasses(c: byte)
    ensures IsSpace(c) <==> c in [9, 10, 11, 12, 13, 32]
    ensures IsNameStart(c) <==>
      'A' as int <= c <= 'Z' as int || 'a' as int <= c <= 'z' as int || c == '_' as int || c > 126
    ensures IsNameChar(c) <==>
      IsNameStart(c) || '0' as int <= c <= '9' as int || c == '-' as int || c == '.' as int || c == ':' as int
  {
  }

  /** A control character is printed as a reference with two upper-case hexadecimal digits. */
  lemma ControlForm(c: byte)
    requires c < 32
    ensures EncodeChar(c) == Ascii("&#x") + [Ascii("01")[c / 16], Ascii("0123456789ABCDEF")[c % 16], SEMI]
  {
    hide Ascii;
    assert Ascii("&#x") == [AMP, HASH, LOWER_X];
    assert EncodeChar(c) == [AMP, HASH, LOWER_X] + [HexDigit(c / 16), HexDigit(c % 16), SEMI];
  }

  lemma EncodeStep(c: byte, rest: Str)
    requires c != AMP
    ensures Encode([c] + rest) == EncodeChar(c) + Encode(rest)
    ensures Encode([]) == []
  {
    assert ([c] + rest)[1..] == rest;
  }

  /** A character that is no markup is printed as it is. */
  lemma EncodePlain(c: byte)
    requires c >= 32 && c != AMP && c != LT && c != GT && c != QUOT && c != APOS
    ensures Encode([c]) == [c]
  {
    EncodeStep(c, []);
    assert [c] + [] == [c];
  }

  /** An attribute whose value holds a quote. */
  lemma AttrExample()
    ensures PrintAttrs([Attr([98], [99, QUOT])]) == Ascii(" b='c&quot;'")
  {
    hide Encode, Ascii;
    var attr := Attr([98], [99, QUOT]);
    EncodePlain(98);
    EncodeStep(99, [QUOT]);
    EncodeStep(QUOT, []);
    assert [99] + [QUOT] == [99, QUOT] && [QUOT] + [] == [QUOT];
    assert Encode([99, QUOT]) == [99] + QUOT_ENT;
    assert [attr][1..] == [];
    assert PrintAttrs([attr]) == [SPACE, 98, EQ, APOS, 99] + QUOT_ENT + [APOS];
  }

  /** A text that has to be escaped, and an empty element. */
  lemma ContentExample()
    ensures PrintAll([Text([LT]), Element([101], [], [])]) == Ascii("&lt;<e />")
  {
    hide Encode, Ascii;
    EncodeStep(LT, []);
    assert [LT] + [] == [LT];
    var empty := Element([101], [], []);
    var children := [Text([LT]), empty];
    assert children[1..] == [empty] && [empty][1..] == [];
    assert Print(empty) == [LT, 101, SPACE, SLASH, GT];
    assert PrintAll([empty]) == Print(empty) + PrintAll([]);
    assert PrintAll(children) == LT_ENT + [LT, 101, SPACE, SLASH, GT];
  }

  /** A worked example: an element with such an attribute and such a content. */
  lemma PrintExample()
    ensures Print(Element([97], [Attr([98], [99, QUOT])], [Text([LT]), Element([101], [], [])]))
      == Ascii("<a") + Ascii(" b='c&quot;'") + Ascii(">") + Ascii("&lt;<e />") + Ascii("</a>")
  {
    hide Ascii, PrintAttrs, PrintAll;
    AttrExample();
    ContentExample();
    assert Ascii("<a") == [LT, 97] && Ascii(">") == [GT] && Ascii("</a>") == EndTag([97]);
    Pieces([LT], [97], Ascii(" b='c&quot;'"), [GT], Ascii("&lt;<e />"), EndTag([97]));
  }

  lemma Pieces<T>(a: seq<T>, b: seq<T>, c: seq<T>, d: seq<T>, e: seq<T>, f: seq<T>)
    ensures a + b + c + (d + e + f) == (a + b) + c + d + e + f
  {
  }
}
