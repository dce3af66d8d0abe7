/** The cursor loops of tool/src/ascmhl.rs: each reads from an index of the whole text, and
    finds what `Xml` reads from the text remaining there. */
module XmlParser {
  import opened Prelude
  import opened Xml

  method SkipWsFrom(b: string, start: nat) returns (i: nat)
    requires start <= |b|
    ensures start <= i <= |b| && b[i..] == SkipWs(b[start..])
  {
    i := ScanTo(b, start, NotWs);
  }

  /** Advance to the first character on which `stop` holds, or to the end. */
  method ScanTo(b: string, start: nat, stop: char -> bool) returns (i: nat)
    requires start <= |b|
    ensures start <= i <= |b| && i == start + Span(b[start..], stop)
    ensures b[i..] == b[start..][i - start..] && b[start..i] == b[start..][..i - start]
  {
    i := start;
    while i < |b| && !stop(b[i])
      invariant start <= i <= |b|
      invariant i + Span(b[i..], stop) == start + Span(b[start..], stop)
    {
      assert b[i..][1..] == b[i + 1..];
      i := i + 1;
    }
  }

  method FindFrom(b: string, start: nat, pattern: string) returns (i: nat)
    requires start <= |b|
    ensures start <= i <= |b| && i == start + Find(b[start..], pattern)
  {
    hide Find;
    i := start;
    while i < |b| && !(pattern <= b[i..])
      invariant start <= i <= |b|
      invariant i + Find(b[i..], pattern) == start + Find(b[start..], pattern)
    {
      FindUnfolds(b[i..], pattern);
      assert b[i..][1..] == b[i + 1..];
      i := i + 1;
    }
    FindUnfolds(b[i..], pattern);
  }

  lemma FindUnfolds(s: string, pattern: string)
    ensures Find(s, pattern) == if s == [] || pattern <= s then 0 else 1 + Find(s[1..], pattern)
  {
  }

  /** Decoding in front of a rest that is still to be decoded. */
  function Decoded(front: string, rest: string): Result<string, XmlError> {
    match DecodeEntities(rest)
    case Ok(t) => Ok(front + t)
    case Err(e) => Err(e)
  }

  method DecodeEntitiesLoop(s: string) returns (r: Result<string, XmlError>)
    ensures r == DecodeEntities(s)
  {
    hide EntityChar, Decoded, DecodeEntities, Span;
    var decoded := "";
    var i := 0;
    assert s[0..] == s;
    NothingDecoded(s);
    while i < |s|
      invariant 0 <= i <= |s|
      invariant Decoded(decoded, s[i..]) == DecodeEntities(s)
    {
      ghost var rest := s[i..];
      DecodeStep(decoded, rest);
      if s[i] == '&' {
        var end := ScanTo(s, i, IsSemicolon);
        if end == |s| {
          return Err(UnterminatedEntity);
        }
        assert rest[1..end - i] == s[i + 1..end];
        match EntityChar(s[i + 1..end]) {
          case None =>
            return Err(UnknownEntity);
          case Some(c) =>
            assert rest[end - i + 1..] == s[end + 1..];
            decoded := decoded + [c];
        }
        i := end + 1;
      } else {
        assert rest[1..] == s[i + 1..];
        decoded := decoded + [s[i]];
        i := i + 1;
      }
    }
    assert s[|s|..] == "";
    AllDecoded(decoded);
    return Ok(decoded);
  }

  /** One character, or one entity. */
  lemma DecodeStep(front: string, rest: string)
    requires rest != ""
    ensures var end := Span(rest, IsSemicolon);
            Decoded(front, rest)
            == if rest[0] != '&' then Decoded(front + [rest[0]], rest[1..])
               else if end == |rest| then Err(UnterminatedEntity)
               else
                 match EntityChar(rest[1..end])
                 case None => Err(UnknownEntity)
                 case Some(c) => Decoded(front + [c], rest[end + 1..])
  {
    hide EntityChar, Decoded, Span;
    var end := Span(rest, IsSemicolon);
    DecodedIs(front, rest);
    if rest[0] != '&' {
      StepDecoded(front, rest[0], rest[1..]);
    } else if end < |rest| && EntityChar(rest[1..end]).Some? {
      StepDecoded(front, EntityChar(rest[1..end]).value, rest[end + 1..]);
    }
  }

  lemma DecodedIs(front: string, rest: string)
    ensures Decoded(front, rest)
            == match DecodeEntities(rest)
               case Ok(t) => Ok(front + t)
               case Err(e) => Err(e)
  {
    hide DecodeEntities;
  }

  lemma AllDecoded(front: string)
    ensures Decoded(front, "") == Ok(front)
  {
    assert front + "" == front;
  }

  lemma NothingDecoded(s: string)
    ensures Decoded("", s) == DecodeEntities(s)
  {
    if DecodeEntities(s).Ok? {
      assert "" + DecodeEntities(s).value == DecodeEntities(s).value;
    }
  }

  lemma StepDecoded(front: string, c: char, rest: string)
    ensures Decoded(front + [c], rest)
            == match DecodeEntities(rest)
               case Ok(t) => Ok(front + ([c] + t))
               case Err(e) => Err(e)
  {
    if DecodeEntities(rest).Ok? {
      var t := DecodeEntities(rest).value;
      assert front + [c] + t == front + ([c] + t);
    }
  }

  ghost predicate ReadsAs<T>(b: string, r: Result<(T, nat), XmlError>, spec: Result<(T, string), XmlError>) {
    match r
    case Err(e) => spec == Err(e)
    case Ok((v, j)) => j <= |b| && spec == Ok((v, b[j..]))
  }

  method QuotedValueAt(b: string, start: nat) returns (r: Result<(string, nat), XmlError>)
    requires start <= |b|
    ensures ReadsAs(b, r, QuotedValue(b[start..]))
  {
    hide Span, DecodeEntities;
    var i := start;
    if i >= |b| || (b[i] != '"' && b[i] != '\'') {
      return Err(UnquotedValue);
    }
    ghost var s := b[i..];
    assert s[1..] == b[i + 1..];
    var q := if b[i] == '"' then IsDoubleQuote else IsSingleQuote;
    i := i + 1;
    var from := i;
    i := ScanTo(b, i, q);
    if i >= |b| {
      return Err(UnterminatedValue);
    }
    assert s[1..i - from + 1] == b[from..i];
    assert s[i - from + 2..] == b[i + 1..];
    var value := DecodeEntitiesLoop(b[from..i]);
    if value.Err? {
      return Err(value.error);
    }
    return Ok((value.value, i + 1));
  }

  method ParseAttrAt(b: string, start: nat) returns (r: Result<(Attr, nat), XmlError>)
    requires start <= |b|
    ensures ReadsAs(b, r, ParseAttr(b[start..]))
  {
    hide Span, SkipWs, QuotedValue;
    var i := ScanTo(b, start, AttrStop);
    var key := b[start..i];
    if key == "" {
      return Err(EmptyAttributeName);
    }
    i := SkipWsFrom(b, i);
    if i >= |b| || b[i] != '=' {
      return Err(NoValue);
    }
    ghost var s1 := b[i..];
    assert s1[1..] == b[i + 1..];
    i := SkipWsFrom(b, i + 1);
    var value := QuotedValueAt(b, i);
    if value.Err? {
      return Err(value.error);
    }
    return Ok((Attr(key, value.value.0), value.value.1));
  }

  method ParseAttrsAt(b: string, start: nat) returns (r: Result<(Start, nat), XmlError>)
    requires start <= |b|
    ensures match r
            case Err(e) => ParseAttrs(b[start..]) == Err(e)
            case Ok((s, j)) => j <= |b| && s.rest == b[j..] && ParseAttrs(b[start..]) == Ok(s)
  {
    hide SkipWs, ParseAttr;
    var i := start;
    var attrs: seq<Attr> := [];
    NoAttrsYet(ParseAttrs(b[start..]));
    while true
      invariant start <= i <= |b|
      invariant WithAttrs(attrs, ParseAttrs(b[i..])) == ParseAttrs(b[start..])
      decreases |b| - i
    {
      ghost var s0 := b[i..];
      i := SkipWsFrom(b, i);
      ghost var s := b[i..];
      if i >= |b| {
        return Err(UnterminatedStart);
      }
      if b[i] == '/' {
        if i + 1 < |b| && b[i + 1] == '>' {
          assert s[2..] == b[i + 2..];
          assert attrs + [] == attrs;
          return Ok((Start(attrs, true, b[i + 2..]), i + 2));
        }
        return Err(MalformedSelfClose);
      }
      if b[i] == '>' {
        assert s[1..] == b[i + 1..];
        assert attrs + [] == attrs;
        return Ok((Start(attrs, false, b[i + 1..]), i + 1));
      }
      var a := ParseAttrAt(b, i);
      if a.Err? {
        return Err(a.error);
      }
      PushAttr(attrs, a.value.0, ParseAttrs(b[a.value.1..]));
      attrs := attrs + [a.value.0];
      i := a.value.1;
    }
  }

  /** A parse of the rest, seen with the attributes already read in front. */
  function WithAttrs(front: seq<Attr>, r: Result<Start, XmlError>): Result<Start, XmlError> {
    match r
    case Ok(s) => Ok(s.(attrs := front + s.attrs))
    case Err(e) => Err(e)
  }

  lemma NoAttrsYet(r: Result<Start, XmlError>)
    ensures WithAttrs([], r) == r
  {
    if r.Ok? {
      assert [] + r.value.attrs == r.value.attrs;
    }
  }

  lemma PushAttr(front: seq<Attr>, a: Attr, r: Result<Start, XmlError>)
    ensures WithAttrs(front + [a], r) == WithAttrs(front, WithAttrs([a], r))
  {
    if r.Ok? {
      assert front + [a] + r.value.attrs == front + ([a] + r.value.attrs);
    }
  }

  method ParseElementAt(b: string, start: nat, depth: nat) returns (r: Result<(XmlEl, nat), XmlError>)
    requires start <= |b|
    ensures ReadsAs(b, r, ParseElement(b[start..], depth))
    decreases |b| - start, 0
  {
    hide SkipWs, ParseAttrs, ParseContent, Span;
    if depth > MAX_ELEMENT_DEPTH {
      return Err(TooDeep);
    }
    if start >= |b| || b[start] != '<' {
      return Err(ExpectedElement);
    }
    ghost var s := b[start..];
    assert s[1..] == b[start + 1..];
    var i := ScanTo(b, start + 1, NameStop);
    var name := b[start + 1..i];
    assert s[1..i - start] == name && s[i - start..] == b[i..];
    if name == "" {
      return Err(EmptyName);
    }
    var st := ParseAttrsAt(b, i);
    if st.Err? {
      return Err(st.error);
    }
    var el := XmlEl(name, st.value.0.attrs, [], "");
    if st.value.0.selfClosed {
      return Ok((el, st.value.1));
    }
    r := ParseContentAt(b, st.value.1, el, depth);
  }

  /** What one round of the content loop comes to. */
  datatype Round = Continue(i: nat, el: XmlEl) | Closed(i: nat)

  /** A round at `i` leaves the parse of the rest as it was. */
  ghost predicate RoundReads(b: string, i: nat, el: XmlEl, depth: nat, r: Result<Round, XmlError>)
    requires i <= |b|
  {
    var spec := ParseContent(b[i..], el, depth);
    match r
    case Err(e) => spec == Err(e)
    case Ok(Closed(j)) => j <= |b| && spec == Ok((el, b[j..]))
    case Ok(Continue(j, el')) => i < j <= |b| && spec == ParseContent(b[j..], el', depth)
  }

  method MarkupRound(b: string, i: nat, el: XmlEl, depth: nat) returns (r: Result<Round, XmlError>)
    requires i + 1 < |b| && b[i] == '<' && b[i + 1] == '!'
    ensures RoundReads(b, i, el, depth, r)
  {
    hide ParseElement, DecodeEntities, Trim, Span, Find;
    ghost var s := b[i..];
    if "<!--" <= b[i..] {
      var end := FindFrom(b, i, "-->");
      if end == |b| {
        return Err(UnterminatedComment);
      }
      assert "-->" <= s[end - i..];
      assert s[end - i + 3..] == b[end + 3..];
      return Ok(Continue(end + 3, el));
    }
    return Err(UnsupportedMarkup);
  }

  method CloseRound(b: string, i: nat, el: XmlEl, depth: nat) returns (r: Result<Round, XmlError>)
    requires i + 1 < |b| && b[i] == '<' && b[i + 1] == '/'
    ensures RoundReads(b, i, el, depth, r)
  {
    hide ParseElement, DecodeEntities, Trim, Span, Find;
    ghost var s := b[i..];
    assert s[2..] == b[i + 2..];
    var end := ScanTo(b, i + 2, IsGt);
    if end >= |b| {
      return Err(UnterminatedClose);
    }
    assert s[2..end - i] == b[i + 2..end];
    assert s[end - i + 1..] == b[end + 1..];
    if b[i + 2..end] != el.name {
      return Err(MismatchedClose);
    }
    return Ok(Closed(end + 1));
  }

  method TextRound(b: string, i: nat, el: XmlEl, depth: nat) returns (r: Result<Round, XmlError>)
    requires i < |b| && b[i] != '<'
    ensures RoundReads(b, i, el, depth, r)
  {
    hide ParseElement, DecodeEntities, Trim, Find;
    assert b[i..][0] == b[i];
    var end := ScanTo(b, i, IsLt);
    var t := DecodeEntitiesLoop(b[i..end]);
    if t.Err? {
      return Err(t.error);
    }
    if Trim(t.value) == "" {
      return Ok(Continue(end, el));
    }
    if el.text != "" {
      return Err(MixedContent);
    }
    return Ok(Continue(end, el.(text := t.value)));
  }

  method ChildRound(b: string, i: nat, el: XmlEl, depth: nat) returns (r: Result<Round, XmlError>)
    requires i < |b| && b[i] == '<' && (i + 1 < |b| ==> b[i + 1] != '!' && b[i + 1] != '/')
    ensures RoundReads(b, i, el, depth, r)
    decreases |b| - i, 1
  {
    hide ParseElement, DecodeEntities, Trim, Span, Find;
    var child := ParseElementAt(b, i, depth + 1);
    if child.Err? {
      return Err(child.error);
    }
    return Ok(Continue(child.value.1, el.(children := el.children + [child.value.0])));
  }

  /** The content loop of one element. */
  method ParseContentAt(b: string, start: nat, open: XmlEl, depth: nat) returns (r: Result<(XmlEl, nat), XmlError>)
    requires start <= |b|
    ensures ReadsAs(b, r, ParseContent(b[start..], open, depth))
    decreases |b| - start, 2
  {
    var i := start;
    var el := open;
    while i < |b|
      invariant start <= i <= |b|
      invariant ParseContent(b[i..], el, depth) == ParseContent(b[start..], open, depth)
    {
      hide ParseContent;
      var round: Result<Round, XmlError>;
      if b[i] != '<' {
        round := TextRound(b, i, el, depth);
      } else if i + 1 < |b| && b[i + 1] == '!' {
        round := MarkupRound(b, i, el, depth);
      } else if i + 1 < |b| && b[i + 1] == '/' {
        round := CloseRound(b, i, el, depth);
      } else {
        round := ChildRound(b, i, el, depth);
      }
      match round {
        case Err(e) =>
          return Err(e);
        case Ok(Closed(j)) =>
          return Ok((el, j));
        case Ok(Continue(j, el')) =>
          i, el := j, el';
      }
    }
    return Err(Unclosed);
  }

  method ParseLiteLoop(src: string) returns (r: Result<XmlEl, XmlError>)
    ensures r == ParseLite(src)
  {
    hide ParseElement, SkipWs, Find;
    assert src[0..] == src;
    var i := SkipWsFrom(src, 0);
    if "<?xml" <= src[i..] {
      var end := FindFrom(src, i, "?>");
      if end == |src| {
        return Err(UnterminatedDeclaration);
      }
      assert "?>" <= src[i..][end - i..];
      assert src[i..][end - i + 2..] == src[end + 2..];
      i := SkipWsFrom(src, end + 2);
    }
    var root := ParseElementAt(src, i, 1);
    if root.Err? {
      return Err(root.error);
    }
    i := SkipWsFrom(src, root.value.1);
    if i != |src| {
      return Err(TrailingContent);
    }
    return Ok(root.value.0);
  }
}
