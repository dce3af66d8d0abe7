/** Indented documents as the writers of tool/src/ascmhl.rs lay them out, and the theorem that
    the parser reads every one of them back. */
module XmlDocs {
  import opened Prelude
  import opened Xml

  /** An element with text, or with child elements on lines of their own. */
  datatype Doc = Leaf(name: string, attrs: seq<Attr>, text: string) | Branch(name: string, attrs: seq<Attr>, kids: seq<Doc>)

  // ---------------------------------------------------------------------------------------
  // Layout
  // ---------------------------------------------------------------------------------------

  function EscapeChar(c: char): string {
    match c
    case '&' => "&amp;"
    case '<' => "&lt;"
    case '>' => "&gt;"
    case '"' => "&quot;"
    case _ => [c]
  }

  /** Escaping in one pass. */
  function Escape(s: string): string {
    if s == [] then [] else EscapeChar(s[0]) + Escape(s[1..])
  }

  function Spaces(n: nat): (s: string)
    ensures |s| == n && forall i :: 0 <= i < n ==> s[i] == ' '
  {
    seq(n, _ => ' ')
  }

  /** A new line, indented two spaces a level. */
  function Indent(level: nat): string {
    "\n" + Spaces(2 * level)
  }

  function LayAttrs(attrs: seq<Attr>): string {
    if attrs == [] then []
    else " " + attrs[0].key + "=\"" + Escape(attrs[0].value) + "\"" + LayAttrs(attrs[1..])
  }

  function Open(name: string, attrs: seq<Attr>): string {
    "<" + name + LayAttrs(attrs) + ">"
  }

  function Close(name: string): string {
    "</" + name + ">"
  }

  function Lay(d: Doc, level: nat): string
    decreases d, 0
  {
    match d
    case Leaf(name, attrs, text) => Open(name, attrs) + Escape(text) + Close(name)
    case Branch(name, attrs, kids) => Open(name, attrs) + LayKids(kids, level) + Indent(level) + Close(name)
  }

  /** Children of an element at `level`. */
  function LayKids(kids: seq<Doc>, level: nat): string
    decreases kids
  {
    if kids == [] then [] else Indent(level + 1) + Lay(kids[0], level + 1) + LayKids(kids[1..], level)
  }

  // ---------------------------------------------------------------------------------------
  // What the parser makes of it
  // ---------------------------------------------------------------------------------------

  /** Blank text is dropped; otherwise text is kept as it stands. */
  function TextOf(t: string): string {
    if Trim(t) == "" then "" else t
  }

  function Tree(d: Doc): XmlEl {
    match d
    case Leaf(name, attrs, text) => XmlEl(name, attrs, [], TextOf(text))
    case Branch(name, attrs, kids) => XmlEl(name, attrs, Trees(kids), "")
  }

  function Trees(kids: seq<Doc>): (r: seq<XmlEl>)
    ensures |r| == |kids|
  {
    if kids == [] then [] else [Tree(kids[0])] + Trees(kids[1..])
  }

  lemma TreesCons(kids: seq<Doc>)
    requires kids != []
    ensures Trees(kids)[0] == Tree(kids[0]) && Trees(kids)[1..] == Trees(kids[1..])
  {
    hide Tree;
  }

  predicate NameOk(name: string) {
    name != "" && name[0] != '!' && forall c :: c in name ==> !NameStop(c)
  }

  predicate KeyOk(key: string) {
    key != "" && forall c :: c in key ==> !AttrStop(c)
  }

  predicate WellNamed(d: Doc) {
    && NameOk(d.name)
    && (forall a :: a in d.attrs ==> KeyOk(a.key))
    && (d.Branch? ==> AllWellNamed(d.kids))
  }

  predicate AllWellNamed(kids: seq<Doc>) {
    kids == [] || (WellNamed(kids[0]) && AllWellNamed(kids[1..]))
  }

  function Height(d: Doc): nat {
    if d.Leaf? then 1 else 1 + MaxHeight(d.kids)
  }

  function MaxHeight(kids: seq<Doc>): nat {
    if kids == [] then 0
    else
      var h, r := Height(kids[0]), MaxHeight(kids[1..]);
      if h < r then r else h
  }

  // ---------------------------------------------------------------------------------------
  // Spans, entities, trimming
  // ---------------------------------------------------------------------------------------

  lemma {:induction false} SpanOver(p: string, r: string, stop: char -> bool)
    requires forall c :: c in p ==> !stop(c)
    requires r == [] || stop(r[0])
    ensures Span(p + r, stop) == |p|
  {
    if p == [] {
      assert p + r == r;
    } else {
      assert (p + r)[1..] == p[1..] + r;
      SpanOver(p[1..], r, stop);
    }
  }

  lemma {:induction false} ReplaceAppend(s: string, t: string, c: char, sub: string)
    ensures Replace(s + t, c, sub) == Replace(s, c, sub) + Replace(t, c, sub)
  {
    if s == [] {
      assert s + t == t;
    } else {
      assert (s + t)[1..] == s[1..] + t;
      ReplaceAppend(s[1..], t, c, sub);
    }
  }

  /** The four passes amount to one: a later pass never touches what an earlier one wrote. */
  lemma {:induction false} EscapeIsOnePass(s: string)
    ensures XmlEscape(s) == Escape(s)
  {
    if s != [] {
      EscapeIsOnePass(s[1..]);
      assert s == [s[0]] + s[1..];
      EscapeCons(s[0], s[1..]);
    }
  }

  lemma EscapeCons(c: char, s: string)
    ensures XmlEscape([c] + s) == EscapeChar(c) + XmlEscape(s)
  {
    var a, b, d := Replace([c], '&', "&amp;"), Replace(s, '&', "&amp;"), Replace([c] + s, '&', "&amp;");
    ReplaceAppend([c], s, '&', "&amp;");
    var a1, b1 := Replace(a, '<', "&lt;"), Replace(b, '<', "&lt;");
    ReplaceAppend(a, b, '<', "&lt;");
    var a2, b2 := Replace(a1, '>', "&gt;"), Replace(b1, '>', "&gt;");
    ReplaceAppend(a1, b1, '>', "&gt;");
    ReplaceAppend(a2, b2, '"', "&quot;");
    EscapeOne(c);
  }

  lemma ReplaceOther(s: string, c: char, sub: string)
    requires c !in s
    ensures Replace(s, c, sub) == s
  {
    if s != [] {
      ReplaceOther(s[1..], c, sub);
    }
  }

  lemma EscapeOne(c: char)
    ensures XmlEscape([c]) == EscapeChar(c)
  {
    hide Replace;
    ReplaceOne(c, '&', "&amp;");
    ReplaceOne(c, '<', "&lt;");
    ReplaceOne(c, '>', "&gt;");
    ReplaceOne(c, '"', "&quot;");
    ReplaceOther("&amp;", '<', "&lt;");
    ReplaceOther("&amp;", '>', "&gt;");
    ReplaceOther("&amp;", '"', "&quot;");
    ReplaceOther("&lt;", '>', "&gt;");
    ReplaceOther("&lt;", '"', "&quot;");
    ReplaceOther("&gt;", '"', "&quot;");
  }

  lemma ReplaceOne(c: char, x: char, sub: string)
    ensures Replace([c], x, sub) == if c == x then sub else [c]
  {
    assert [c][1..] == [];
    assert Replace([c], x, sub) == (if c == x then sub else [c]) + [];
  }

  lemma {:induction false} EscapeSafe(s: string)
    ensures forall c :: c in Escape(s) ==> c != '<' && c != '>' && c != '"'
  {
    if s != [] {
      EscapeSafe(s[1..]);
    }
  }

  /** Entity decoding undoes escaping, for every text. */
  lemma {:induction false} DecodeEscape(s: string)
    ensures DecodeEntities(Escape(s)) == Ok(s)
  {
    if s != [] {
      DecodeEscape(s[1..]);
      DecodeChar(s[0], Escape(s[1..]));
      assert s == [s[0]] + s[1..];
    }
  }

  lemma DecodeChar(c: char, rest: string)
    requires DecodeEntities(rest).Ok?
    ensures DecodeEntities(EscapeChar(c) + rest) == Ok([c] + DecodeEntities(rest).value)
  {
    hide DecodeEntities;
    if c == '&' {
      DecodeNamed("amp", '&', rest);
      assert EscapeChar(c) == ['&'] + "amp" + [';'];
    } else if c == '<' {
      DecodeNamed("lt", '<', rest);
      assert EscapeChar(c) == ['&'] + "lt" + [';'];
    } else if c == '>' {
      DecodeNamed("gt", '>', rest);
      assert EscapeChar(c) == ['&'] + "gt" + [';'];
    } else if c == '"' {
      DecodeNamed("quot", '"', rest);
      assert EscapeChar(c) == ['&'] + "quot" + [';'];
    } else {
      DecodeLiteral(c, rest);
    }
  }

  lemma DecodeLiteral(c: char, rest: string)
    requires c != '&' && DecodeEntities(rest).Ok?
    ensures DecodeEntities([c] + rest) == Ok([c] + DecodeEntities(rest).value)
  {
    assert ([c] + rest)[1..] == rest;
  }

  lemma DecodeNamed(name: string, c: char, rest: string)
    requires EntityChar(name) == Some(c) && ';' !in name && DecodeEntities(rest).Ok?
    ensures DecodeEntities(['&'] + name + [';'] + rest) == Ok([c] + DecodeEntities(rest).value)
  {
    hide Span, EntityChar;
    var s := ['&'] + name + [';'] + rest;
    assert s == (['&'] + name) + ([';'] + rest);
    SpanOver(['&'] + name, [';'] + rest, IsSemicolon);
    assert s[1..1 + |name|] == name;
    assert s[1 + |name| + 1..] == rest;
  }

  lemma {:induction false} TrimWhite(s: string)
    requires forall c :: c in s ==> IsSpace(c)
    ensures Trim(s) == ""
  {
    if s != [] {
      TrimWhite(s[1..]);
    }
  }

  lemma {:induction false} DecodePlain(s: string)
    requires '&' !in s
    ensures DecodeEntities(s) == Ok(s)
  {
    if s != [] {
      DecodePlain(s[1..]);
      assert s == [s[0]] + s[1..];
    }
  }

  // ---------------------------------------------------------------------------------------
  // Reading a layout back
  // ---------------------------------------------------------------------------------------

  lemma NoWs(s: string)
    requires s != [] && !IsWs(s[0])
    ensures SkipWs(s) == s
  {
  }

  lemma OneSpace(s: string)
    requires s != [] && !IsWs(s[0])
    ensures SkipWs(" " + s) == s
  {
    SpanOver(" ", s, NotWs);
  }

  lemma QuotedRead(value: string, tail: string)
    ensures QuotedValue("\"" + (Escape(value) + ("\"" + tail))) == Ok((value, tail))
  {
    hide Escape, DecodeEntities, Span;
    var v := Escape(value);
    var s3 := v + ("\"" + tail);
    var s2 := "\"" + s3;
    assert s2[1..] == s3;
    EscapeSafe(value);
    SpanOver(v, "\"" + tail, IsDoubleQuote);
    assert s2[1..|v| + 1] == v && s2[|v| + 2..] == tail;
    DecodeEscape(value);
  }

  lemma AttrRead(a: Attr, tail: string)
    requires KeyOk(a.key)
    ensures ParseAttr(a.key + "=\"" + Escape(a.value) + "\"" + tail) == Ok((a, tail))
  {
    hide Escape, QuotedValue, Span, SkipWs;
    var s2 := "\"" + (Escape(a.value) + ("\"" + tail));
    var s := a.key + ("=" + s2);
    assert a.key + "=\"" + Escape(a.value) + "\"" + tail == s;
    SpanOver(a.key, "=" + s2, AttrStop);
    assert s[..|a.key|] == a.key && s[|a.key|..] == "=" + s2;
    NoWs("=" + s2);
    assert ("=" + s2)[1..] == s2;
    NoWs(s2);
    QuotedRead(a.value, tail);
  }

  lemma AttrsStep(a: Attr, tail: string)
    requires KeyOk(a.key) && ParseAttrs(tail).Ok?
    ensures ParseAttrs(" " + (a.key + "=\"" + Escape(a.value) + "\"" + tail))
            == Ok(ParseAttrs(tail).value.(attrs := [a] + ParseAttrs(tail).value.attrs))
  {
    hide Escape, ParseAttr, SkipWs;
    var s := a.key + "=\"" + Escape(a.value) + "\"" + tail;
    assert s[0] == a.key[0] && a.key[0] in a.key;
    OneSpace(s);
    AttrRead(a, tail);
  }

  lemma NoAttrs(rest: string)
    ensures ParseAttrs(">" + rest) == Ok(Start([], false, rest))
  {
    NoWs(">" + rest);
  }

  lemma LayNoAttrs(rest: string)
    ensures LayAttrs([]) + ">" + rest == ">" + rest
  {
  }

  lemma LayAttrsCons(attrs: seq<Attr>, rest: string)
    requires attrs != []
    ensures var tail := LayAttrs(attrs[1..]) + ">" + rest;
            LayAttrs(attrs) + ">" + rest == " " + (attrs[0].key + "=\"" + Escape(attrs[0].value) + "\"" + tail)
  {
    hide Escape;
  }

  lemma {:induction false} AttrsRead(attrs: seq<Attr>, rest: string)
    requires forall a :: a in attrs ==> KeyOk(a.key)
    ensures ParseAttrs(LayAttrs(attrs) + ">" + rest) == Ok(Start(attrs, false, rest))
  {
    hide ParseAttrs, Escape, LayAttrs;
    if attrs == [] {
      NoAttrs(rest);
      LayNoAttrs(rest);
    } else {
      var a := attrs[0];
      AttrsRead(attrs[1..], rest);
      var tail := LayAttrs(attrs[1..]) + ">" + rest;
      AttrsStep(a, tail);
      LayAttrsCons(attrs, rest);
      assert attrs == [a] + attrs[1..];
    }
  }

  /** The start tag ends where the attributes begin: a blank or the closing bracket. */
  lemma StartRead(name: string, attrs: seq<Attr>, rest: string, depth: nat)
    requires NameOk(name) && (forall a :: a in attrs ==> KeyOk(a.key)) && depth <= MAX_ELEMENT_DEPTH
    ensures ParseElement(Open(name, attrs) + rest, depth) == ParseContent(rest, XmlEl(name, attrs, [], ""), depth)
  {
    hide ParseAttrs, ParseContent, Span, LayAttrs;
    var tail := LayAttrs(attrs) + ">" + rest;
    var s := Open(name, attrs) + rest;
    assert s == "<" + (name + tail);
    AttrsRead(attrs, rest);
    AttrsHead(attrs, rest);
    SpanOver(name, tail, NameStop);
    assert s[0] == '<' && s[1..] == name + tail;
    assert Span(s[1..], NameStop) == |name|;
    assert s[1..|name| + 1] == name && s[|name| + 1..] == tail;
    assert ParseAttrs(s[|name| + 1..]) == Ok(Start(attrs, false, rest));
  }

  lemma AttrsHead(attrs: seq<Attr>, rest: string)
    ensures var tail := LayAttrs(attrs) + ">" + rest;
            tail != [] && NameStop(tail[0])
  {
  }

  lemma CloseRead(el: XmlEl, rest: string, depth: nat)
    requires NameOk(el.name)
    ensures ParseContent(Close(el.name) + rest, el, depth) == Ok((el, rest))
  {
    var s := Close(el.name) + rest;
    assert s == "</" + (el.name + (">" + rest));
    assert s[1] == '/';
    assert s[2..] == el.name + (">" + rest);
    SpanOver(el.name, ">" + rest, IsGt);
    assert s[2..|el.name| + 2] == el.name && s[|el.name| + 3..] == rest;
  }

  /** A text run up to the next tag. */
  lemma TextRead(t: string, next: string, el: XmlEl, depth: nat)
    requires next != [] && next[0] == '<' && el.text == ""
    ensures ParseContent(Escape(t) + next, el, depth) == ParseContent(next, el.(text := TextOf(t)), depth)
  {
    var e := Escape(t);
    DecodeEscape(t);
    if e == [] {
      assert t == [] && Trim([]) == "";
      assert e + next == next && el.(text := "") == el;
    } else {
      hide ParseElement, DecodeEntities, Escape, Trim;
      EscapeSafe(t);
      var s := e + next;
      assert s[0] == e[0] && e[0] in e;
      SpanOver(e, next, IsLt);
      assert s[..|e|] == e && s[|e|..] == next;
      assert el.(text := "") == el;
    }
  }

  lemma IndentRead(level: nat, next: string, el: XmlEl, depth: nat)
    requires next != [] && next[0] == '<'
    ensures ParseContent(Indent(level) + next, el, depth) == ParseContent(next, el, depth)
  {
    hide ParseElement, DecodeEntities, Trim;
    var i := Indent(level);
    var s := i + next;
    SpanOver(i, next, IsLt);
    assert s[..|i|] == i && s[|i|..] == next;
    DecodePlain(i);
    TrimWhite(i);
  }

  lemma LayHead(d: Doc, level: nat, rest: string)
    requires WellNamed(d)
    ensures var s := Lay(d, level) + rest;
            |s| > 1 && s[0] == '<' && s[1] == d.name[0] && s[1] != '!' && s[1] != '/'
  {
    hide LayKids, LayAttrs;
    assert d.name[0] in d.name;
  }

  /** Every well-named document within the nesting bound is read back as its tree, and the
      parser stops exactly at its end. */
  lemma {:induction false} LayRead(d: Doc, level: nat, rest: string, depth: nat)
    requires WellNamed(d) && depth + Height(d) <= MAX_ELEMENT_DEPTH + 1
    ensures ParseElement(Lay(d, level) + rest, depth) == Ok((Tree(d), rest))
    decreases d, 1
  {
    hide ParseElement, ParseContent, Escape, LayAttrs;
    var el := XmlEl(d.name, d.attrs, [], "");
    match d {
      case Leaf(name, attrs, text) =>
        var body := Escape(text) + (Close(name) + rest);
        assert Lay(d, level) + rest == Open(name, attrs) + body;
        StartRead(name, attrs, body, depth);
        TextRead(text, Close(name) + rest, el, depth);
        CloseRead(el.(text := TextOf(text)), rest, depth);
      case Branch(name, attrs, kids) =>
        var end := Indent(level) + (Close(name) + rest);
        var body := LayKids(kids, level) + end;
        assert Lay(d, level) + rest == Open(name, attrs) + body;
        StartRead(name, attrs, body, depth);
        KidsRead(kids, level, el, rest, depth);
        assert [] + Trees(kids) == Trees(kids);
    }
  }

  lemma {:induction false} KidsRead(kids: seq<Doc>, level: nat, el: XmlEl, rest: string, depth: nat)
    requires AllWellNamed(kids) && depth + 1 + MaxHeight(kids) <= MAX_ELEMENT_DEPTH + 1
    requires NameOk(el.name)
    ensures ParseContent(LayKids(kids, level) + (Indent(level) + (Close(el.name) + rest)), el, depth)
            == Ok((el.(children := el.children + Trees(kids)), rest))
    decreases kids, 0
  {
    hide ParseElement, ParseContent, Lay, Tree, Height, Indent, Close, LayKids, NameOk, WellNamed;
    var end := Indent(level) + (Close(el.name) + rest);
    if kids == [] {
      NoKids(level, end);
      CloseHead(el.name, rest);
      IndentRead(level, Close(el.name) + rest, el, depth);
      CloseRead(el, rest, depth);
      assert el.children + [] == el.children;
    } else {
      var k := kids[0];
      var more := LayKids(kids[1..], level) + end;
      var s := Lay(k, level + 1) + more;
      var el' := el.(children := el.children + [Tree(k)]);
      LayHead(k, level + 1, more);
      LayRead(k, level + 1, more, depth + 1);
      KidsRead(kids[1..], level, el', rest, depth);
      KidStep(s, el, depth, Tree(k), more);
      IndentRead(level + 1, s, el, depth);
      LayKidsCons(kids, level, end);
      ChildrenCons(el.children, kids);
    }
  }

  lemma ChildrenCons(children: seq<XmlEl>, kids: seq<Doc>)
    requires kids != []
    ensures children + [Tree(kids[0])] + Trees(kids[1..]) == children + Trees(kids)
  {
    hide Tree;
  }

  lemma NoKids(level: nat, end: string)
    ensures LayKids([], level) + end == end
  {
  }

  lemma LayKidsCons(kids: seq<Doc>, level: nat, end: string)
    requires kids != []
    ensures LayKids(kids, level) + end == Indent(level + 1) + (Lay(kids[0], level + 1) + (LayKids(kids[1..], level) + end))
  {
    hide Lay, Indent;
  }

  lemma CloseHead(name: string, rest: string)
    ensures Close(name) + rest != [] && (Close(name) + rest)[0] == '<'
  {
  }

  lemma KidStep(s: string, el: XmlEl, depth: nat, child: XmlEl, more: string)
    requires |s| > 1 && s[0] == '<' && s[1] != '!' && s[1] != '/'
    requires ParseElement(s, depth + 1) == Ok((child, more))
    ensures ParseContent(s, el, depth) == ParseContent(more, el.(children := el.children + [child]), depth)
  {
    hide ParseElement;
  }

  // ---------------------------------------------------------------------------------------
  // Whole files
  // ---------------------------------------------------------------------------------------

  const DECLARATION := "<?xml version=\"1.0\" encoding=\"UTF-8\"?>"

  /** A file: the declaration, one document, a final newline. */
  function LayFile(d: Doc): string {
    DECLARATION + "\n" + Lay(d, 0) + "\n"
  }

  lemma {:induction false} FindOver(p: string, r: string, pattern: string)
    requires pattern != [] && pattern <= r && pattern[0] !in p
    ensures Find(p + r, pattern) == |p|
  {
    if p == [] {
      assert p + r == r;
    } else {
      assert (p + r)[1..] == p[1..] + r;
      FindOver(p[1..], r, pattern);
    }
  }

  lemma DeclarationRead(rest: string)
    requires rest != [] && rest[0] == '<'
    ensures ParseLite(DECLARATION + "\n" + rest)
            == match ParseElement(rest, 1)
               case Err(e) => Err(e)
               case Ok((root, tail)) => if SkipWs(tail) == "" then Ok(root) else Err(TrailingContent)
  {
    hide ParseElement, SkipWs, Find, DECLARATION, ParseLite;
    var s := DECLARATION + "\n" + rest;
    DeclarationText("\n" + rest);
    assert s == DECLARATION + ("\n" + rest);
    SkipNothing(s);
    SkipNewline(rest);
    AfterDeclaration(s, s, rest);
  }

  lemma AfterDeclaration(src: string, s: string, body: string)
    requires SkipWs(src) == s && "<?xml" <= s && Find(s, "?>") < |s| - 1 && SkipWs(s[Find(s, "?>") + 2..]) == body
    ensures ParseLite(src)
            == match ParseElement(body, 1)
               case Err(e) => Err(e)
               case Ok((root, tail)) => if SkipWs(tail) == "" then Ok(root) else Err(TrailingContent)
  {
    hide ParseElement, SkipWs, Find;
  }

  lemma DeclarationText(rest: string)
    ensures var s := DECLARATION + rest;
            s[0] == '<' && "<?xml" <= s && Find(s, "?>") < |s| && s[Find(s, "?>") + 2..] == rest
  {
    hide Find, DECLARATION, DECLARED;
    DeclarationParts();
    DeclaredPlain();
    assert DECLARATION + rest == ['<'] + (['?'] + (DECLARED + ("?>" + rest)));
    DeclarationShape(DECLARED, rest);
  }

  lemma DeclarationShape(mid: string, rest: string)
    requires '?' !in mid && |mid| > 3 && mid[..3] == "xml"
    ensures var s := ['<'] + (['?'] + (mid + ("?>" + rest)));
            s[0] == '<' && "<?xml" <= s && Find(s, "?>") < |s| && s[Find(s, "?>") + 2..] == rest
  {
    hide Find;
    var s := ['<'] + (['?'] + (mid + ("?>" + rest)));
    assert mid[0] == mid[..3][0] == 'x';
    FindDeclarationEnd(mid, rest);
    assert s[2..5] == mid[..3];
    assert s[..5] == ['<', '?'] + s[2..5];
    assert s[|mid| + 4..] == rest;
  }

  const DECLARED := "xml version=\"1.0\" encoding=\"UTF-8\""

  lemma DeclarationParts()
    ensures DECLARATION == ['<'] + (['?'] + (DECLARED + "?>"))
  {
  }

  lemma DeclaredPlain()
    ensures '?' !in DECLARED && |DECLARED| > 3 && DECLARED[..3] == "xml"
  {
  }

  lemma SkipNothing(s: string)
    requires s != [] && s[0] == '<'
    ensures SkipWs(s) == s
  {
  }

  lemma SkipNewline(rest: string)
    requires rest != [] && rest[0] == '<'
    ensures SkipWs("\n" + rest) == rest
  {
    SpanOver("\n", rest, NotWs);
  }

  lemma FindDeclarationEnd(mid: string, rest: string)
    requires '?' !in mid && mid != [] && mid[0] != '>'
    ensures Find(['<'] + (['?'] + (mid + ("?>" + rest))), "?>") == |mid| + 2
  {
    var r := mid + ("?>" + rest);
    FindOver(mid, "?>" + rest, "?>");
    assert r[0] == mid[0];
    hide Find;
    FindPastOpening(r);
  }

  lemma FindPastOpening(r: string)
    requires r != [] && r[0] != '>'
    ensures Find(['<'] + (['?'] + r), "?>") == 2 + Find(r, "?>")
  {
    hide Find;
    FindStep('?', r, "?>");
    FindStep('<', ['?'] + r, "?>");
  }

  lemma FindStep(c: char, r: string, pattern: string)
    requires |pattern| == 2 && r != [] && (c != pattern[0] || r[0] != pattern[1])
    ensures Find([c] + r, pattern) == 1 + Find(r, pattern)
  {
    var s := [c] + r;
    assert s[1..] == r && s[0] == c && s[1] == r[0];
  }

  lemma LayFileRead(d: Doc)
    requires WellNamed(d) && Height(d) <= MAX_ELEMENT_DEPTH
    ensures ParseLite(LayFile(d)) == Ok(Tree(d))
  {
    hide ParseElement, Lay, Tree, Height, WellNamed, DECLARATION, ParseLite;
    LayHead(d, 0, "\n");
    LayRead(d, 0, "\n", 1);
    assert LayFile(d) == DECLARATION + "\n" + (Lay(d, 0) + "\n");
    DeclarationRead(Lay(d, 0) + "\n");
    assert "\n" == "\n" + [];
    SpanOver("\n", [], NotWs);
  }
}
