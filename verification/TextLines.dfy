/** Text cut into pieces the way the standard library does: at a separator, and into lines. */
module TextLines {
  import opened Xml

  /** The pieces between occurrences of `sep`: one more than there are occurrences. */
  function Split(s: string, sep: char): (parts: seq<string>)
    ensures parts != []
  {
    if s == [] then [[]]
    else
      var rest := Split(s[1..], sep);
      if s[0] == sep then [[]] + rest else [[s[0]] + rest[0]] + rest[1..]
  }

  lemma {:induction false} SplitPlain(s: string, sep: char)
    requires sep !in s
    ensures Split(s, sep) == [s]
  {
    if s != [] {
      SplitPlain(s[1..], sep);
      assert s == [s[0]] + s[1..];
    }
  }

  lemma {:induction false} SplitAt(s: string, sep: char, name: string)
    requires sep !in name
    ensures Split(s + [sep] + name, sep) == Split(s, sep) + [name]
  {
    var t := s + [sep] + name;
    if s == [] {
      assert t == [sep] + name;
      assert t[1..] == name;
      SplitPlain(name, sep);
    } else {
      assert t[1..] == s[1..] + [sep] + name && t[0] == s[0];
      SplitAt(s[1..], sep, name);
      var rest := Split(s[1..], sep);
      assert (rest + [name])[0] == rest[0] && (rest + [name])[1..] == rest[1..] + [name];
    }
  }

  /** The pieces with the separator between them. */
  function Rejoin(parts: seq<string>, sep: char): string {
    if parts == [] then "" else if |parts| == 1 then parts[0] else parts[0] + [sep] + Rejoin(parts[1..], sep)
  }

  /** The pieces determine the text. */
  lemma {:induction false} RejoinSplit(s: string, sep: char)
    ensures Rejoin(Split(s, sep), sep) == s
  {
    if s != [] {
      RejoinSplit(s[1..], sep);
      var rest, parts := Split(s[1..], sep), Split(s, sep);
      if s[0] == sep {
        assert parts[1..] == rest;
        assert [] + [sep] + s[1..] == s;
      } else {
        assert parts[1..] == rest[1..];
        assert [s[0]] + rest[0] + [sep] + Rejoin(rest[1..], sep) == [s[0]] + (rest[0] + [sep] + Rejoin(rest[1..], sep));
        assert [s[0]] + s[1..] == s;
      }
    }
  }

  /** The first piece ends at the first separator. */
  lemma {:induction false} SplitFirst(s: string, sep: char, rest: string)
    requires sep !in s
    ensures Split(s + [sep] + rest, sep) == [s] + Split(rest, sep)
  {
    var t := s + [sep] + rest;
    if s == [] {
      assert t == [sep] + rest;
      assert t[1..] == rest;
    } else {
      assert t[1..] == s[1..] + [sep] + rest && t[0] == s[0];
      SplitFirst(s[1..], sep, rest);
      var pieces := Split(t[1..], sep);
      assert pieces[0] == s[1..] && pieces[1..] == Split(rest, sep);
      assert [s[0]] + s[1..] == s;
    }
  }

  predicate IsNewline(c: char) {
    c == '\n'
  }

  /** A carriage return before the line feed belongs to the line's end. */
  function StripCr(line: string): string {
    if line != "" && line[|line| - 1] == '\r' then line[..|line| - 1] else line
  }

  /** The lines of a text; the last needs no line feed, and then keeps a carriage return. */
  function LinesOf(s: string): seq<string> {
    if s == "" then []
    else
      var n := Span(s, IsNewline);
      if n == |s| then [s] else [StripCr(s[..n])] + LinesOf(s[n + 1..])
  }

  lemma {:induction false} SpanTo(line: string, rest: string)
    requires '\n' !in line
    ensures Span(line + "\n" + rest, IsNewline) == |line|
  {
    var t := line + "\n" + rest;
    if line != "" {
      assert t[0] == line[0] && t[1..] == line[1..] + "\n" + rest;
      SpanTo(line[1..], rest);
    }
  }

  lemma FirstLine(line: string, rest: string)
    requires '\n' !in line
    ensures LinesOf(line + "\n" + rest) == [StripCr(line)] + LinesOf(rest)
  {
    hide StripCr;
    var t := line + "\n" + rest;
    SpanTo(line, rest);
    assert t[..|line|] == line && t[|line| + 1..] == rest;
  }

  lemma StripTail(head: string, extra: string)
    requires head != "" && head[|head| - 1] != '\r'
    ensures StripCr(head + extra) == head + StripCr(extra)
  {
    if extra != "" {
      assert (head + extra)[..|head + extra| - 1] == head + extra[..|extra| - 1];
    } else {
      assert head + extra == head;
    }
  }

  /** Text with a character that is not white space is not blank. */
  lemma {:induction false} NotBlank(s: string, i: nat)
    requires i < |s| && !IsSpace(s[i])
    ensures Trim(s) != ""
  {
    NotBlankStart(s, i);
    var t := TrimStart(s);
    NotBlankEnd(t, 0);
  }

  lemma {:induction false} NotBlankStart(s: string, i: nat)
    requires i < |s| && !IsSpace(s[i])
    ensures TrimStart(s) != "" && !IsSpace(TrimStart(s)[0])
  {
    if IsSpace(s[0]) {
      NotBlankStart(s[1..], i - 1);
    }
  }

  lemma {:induction false} NotBlankEnd(s: string, i: nat)
    requires i < |s| && !IsSpace(s[i])
    ensures TrimEnd(s) != ""
    decreases |s|
  {
    if IsSpace(s[|s| - 1]) {
      NotBlankEnd(s[..|s| - 1], i);
    }
  }

  /** Text that neither begins nor ends with white space is not trimmed. */
  lemma TrimNothing(s: string)
    requires s != "" && !IsSpace(s[0]) && !IsSpace(s[|s| - 1])
    ensures Trim(s) == s
  {
  }

  /** Where a pattern is found: the first place it starts at. */
  lemma {:induction false} FindAt(s: string, pattern: string, n: nat)
    requires n <= |s| && pattern <= s[n..] && forall i :: 0 <= i < n ==> !(pattern <= s[i..])
    ensures Find(s, pattern) == n
  {
    if n > 0 {
      assert s[1..][n - 1..] == s[n..];
      forall i | 0 <= i < n - 1
        ensures !(pattern <= s[1..][i..])
      {
        assert s[1..][i..] == s[i + 1..];
      }
      assert s[0..] == s && !(pattern <= s[0..]);
      FindAt(s[1..], pattern, n - 1);
    }
  }
}
