/** Where the small readers stop (tool/src/ascmhl.rs): the entities there are, how deep elements
    may nest, and what reads as a number. */
module ReaderLimits {
  import opened Prelude
  import opened Positional
  import opened Xml
  import opened XmlDocs
  import opened Numerals

  // ---------------------------------------------------------------------------------------
  // Entities
  // ---------------------------------------------------------------------------------------

  const ENTITIES: seq<(string, char)> := [("amp", '&'), ("lt", '<'), ("gt", '>'), ("quot", '"'), ("apos", '\'')]

  /** Five names stand for a character; every other is refused, and so is one without an end. */
  lemma EntitiesExactly(name: string, rest: string)
    requires ';' !in name
    ensures DecodeEntities("&" + name) == Err(UnterminatedEntity)
    ensures forall k :: 0 <= k < 5 && name == ENTITIES[k].0 ==>
              DecodeEntities("&" + name + ";" + rest)
              == match DecodeEntities(rest) case Ok(more) => Ok([ENTITIES[k].1] + more) case Err(e) => Err(e)
    ensures (forall k :: 0 <= k < 5 ==> name != ENTITIES[k].0) ==> DecodeEntities("&" + name + ";" + rest) == Err(UnknownEntity)
  {
    var s, t := "&" + name, "&" + name + ";" + rest;
    SpanAll(s);
    assert t == s + (";" + rest);
    SpanOver(s, ";" + rest, IsSemicolon);
    assert t[1..|s|] == name && t[|s| + 1..] == rest;
    NamedEntities(name);
  }

  lemma NamedEntities(name: string)
    ensures |ENTITIES| == 5 && forall k :: 0 <= k < 5 && name == ENTITIES[k].0 ==> EntityChar(name) == Some(ENTITIES[k].1)
    ensures (forall k :: 0 <= k < 5 ==> name != ENTITIES[k].0) ==> EntityChar(name) == None
  {
    assert ENTITIES[0].0 == "amp" && ENTITIES[1].0 == "lt" && ENTITIES[2].0 == "gt" && ENTITIES[3].0 == "quot" && ENTITIES[4].0 == "apos";
  }

  lemma {:induction false} SpanAll(s: string)
    requires ';' !in s
    ensures Span(s, IsSemicolon) == |s|
  {
    if s != "" {
      SpanAll(s[1..]);
    }
  }

  // ---------------------------------------------------------------------------------------
  // Depth
  // ---------------------------------------------------------------------------------------

  lemma TooDeepAtOnce(s: string, depth: nat)
    requires depth > MAX_ELEMENT_DEPTH
    ensures ParseElement(s, depth) == Err(TooDeep)
  {
  }

  lemma KidRefused(s: string, el: XmlEl, depth: nat)
    requires |s| > 1 && s[0] == '<' && s[1] != '!' && s[1] != '/'
    requires ParseElement(s, depth + 1) == Err(TooDeep)
    ensures ParseContent(s, el, depth) == Err(TooDeep)
  {
    hide ParseElement;
  }

  /** A document that nests too deep is refused, wherever in it that is. */
  lemma {:induction false} LayDeep(d: Doc, level: nat, rest: string, depth: nat)
    requires WellNamed(d) && depth + Height(d) > MAX_ELEMENT_DEPTH + 1
    ensures ParseElement(Lay(d, level) + rest, depth) == Err(TooDeep)
    decreases d, 1
  {
    hide ParseElement, ParseContent, LayAttrs;
    if depth > MAX_ELEMENT_DEPTH {
      TooDeepAtOnce(Lay(d, level) + rest, depth);
    } else {
      var name, attrs, kids := d.name, d.attrs, d.kids;
      var el := XmlEl(name, attrs, [], "");
      var body := LayKids(kids, level) + (Indent(level) + (Close(name) + rest));
      assert Lay(d, level) + rest == Open(name, attrs) + body;
      StartRead(name, attrs, body, depth);
      KidsDeep(kids, level, el, rest, depth);
    }
  }

  lemma {:induction false} KidsDeep(kids: seq<Doc>, level: nat, el: XmlEl, rest: string, depth: nat)
    requires AllWellNamed(kids) && depth + 1 + MaxHeight(kids) > MAX_ELEMENT_DEPTH + 1 && depth <= MAX_ELEMENT_DEPTH
    requires NameOk(el.name)
    ensures ParseContent(LayKids(kids, level) + (Indent(level) + (Close(el.name) + rest)), el, depth) == Err(TooDeep)
    decreases kids, 0
  {
    hide ParseElement, ParseContent, Lay, Tree, Height, Indent, Close, LayKids, NameOk, WellNamed;
    var end := Indent(level) + (Close(el.name) + rest);
    var k := kids[0];
    var more := LayKids(kids[1..], level) + end;
    var s := Lay(k, level + 1) + more;
    LayHead(k, level + 1, more);
    IndentRead(level + 1, s, el, depth);
    LayKidsCons(kids, level, end);
    if depth + 1 + Height(k) > MAX_ELEMENT_DEPTH + 1 {
      LayDeep(k, level + 1, more, depth + 1);
      KidRefused(s, el, depth);
    } else {
      var el' := el.(children := el.children + [Tree(k)]);
      LayRead(k, level + 1, more, depth + 1);
      KidStep(s, el, depth, Tree(k), more);
      KidsDeep(kids[1..], level, el', rest, depth);
    }
  }

  /** A laid-out document is read if it nests at most ten thousand deep, and otherwise refused. */
  lemma LayFileExactly(d: Doc)
    requires WellNamed(d)
    ensures ParseLite(LayFile(d)) == if Height(d) <= 10_000 then Ok(Tree(d)) else Err(TooDeep)
  {
    hide ParseElement, Lay, Tree, Height, WellNamed, DECLARATION, ParseLite;
    if Height(d) <= 10_000 {
      LayFileRead(d);
    } else {
      LayHead(d, 0, "\n");
      LayDeep(d, 0, "\n", 1);
      assert LayFile(d) == DECLARATION + "\n" + (Lay(d, 0) + "\n");
      DeclarationRead(Lay(d, 0) + "\n");
    }
  }

  // ---------------------------------------------------------------------------------------
  // Numbers
  // ---------------------------------------------------------------------------------------

  /** One or more digits of the base. */
  ghost predicate DigitsOf(base: nat, s: string, n: nat) {
    s != "" && (forall i :: 0 <= i < |s| ==> CharDigit(s[i]) < base) && Value(base, CharDigits(s)) == n
  }

  /** Text reads as a number exactly if it is digits, with or without a plus sign, that stay below
      the limit. */
  lemma ReadsExactly(base: nat, limit: nat, s: string, n: nat)
    requires 1 < base <= 16
    ensures ParseUnsigned(base, limit, s) == Some(n)
            <==> n < limit && (DigitsOf(base, s, n) || exists t: string :: s == "+" + t && DigitsOf(base, t, n))
  {
    hide Value;
    PlusIsNoDigit();
    var signed := s != "" && s[0] == '+';
    if signed {
      assert s == "+" + s[1..];
      assert !DigitsOf(base, s, n);
    }
    forall t: string | s == "+" + t
      ensures signed && t == s[1..]
    {
    }
    var body := if signed then s[1..] else s;
    BodyReads(base, limit, s, body, n);
  }

  lemma BodyReads(base: nat, limit: nat, s: string, body: string, n: nat)
    requires 1 < base <= 16 && body == if s != "" && s[0] == '+' then s[1..] else s
    ensures ParseUnsigned(base, limit, s) == Some(n) <==> n < limit && DigitsOf(base, body, n)
  {
    hide Value, CharDigit;
    var digits := CharDigits(body);
    assert InBase(base, digits) <==> forall i :: 0 <= i < |body| ==> CharDigit(body[i]) < base by {
      assert forall i :: 0 <= i < |body| ==> CharDigit(body[i]) == digits[i];
    }
  }

  lemma PlusIsNoDigit()
    ensures CharDigit('+') == 16
  {
  }
}
