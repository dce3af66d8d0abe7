/** The manifest writer of tool/src/ascmhl.rs: line by line, the text of the document. */
module ManifestWriter {
  import opened Xml
  import opened XmlDocs
  import opened Numerals
  import opened Manifest

  /** One line at an indentation of two spaces a level. */
  function Line(level: nat, text: string): string {
    Spaces(2 * level) + text + "\n"
  }

  /** A document as whole lines. */
  function Lines(d: Doc, level: nat): string {
    Spaces(2 * level) + Lay(d, level) + "\n"
  }

  function AllLines(kids: seq<Doc>, level: nat): string {
    if kids == [] then [] else Lines(kids[0], level) + AllLines(kids[1..], level)
  }

  lemma NewlineShifts(s: string, x: string, rest: string)
    ensures "\n" + ((s + x + "\n") + rest) == ("\n" + s) + x + ("\n" + rest)
  {
  }

  lemma {:induction false} KidsAsLines(kids: seq<Doc>, level: nat)
    ensures "\n" + AllLines(kids, level + 1) == LayKids(kids, level) + "\n"
  {
    if kids == [] {
      assert "\n" + [] == [] + "\n";
    } else {
      hide Lay, Spaces;
      KidsAsLines(kids[1..], level);
      var s, x := Spaces(2 * (level + 1)), Lay(kids[0], level + 1);
      NewlineShifts(s, x, AllLines(kids[1..], level + 1));
    }
  }

  lemma BranchLines(name: string, attrs: seq<Attr>, kids: seq<Doc>, level: nat)
    ensures Lines(Branch(name, attrs, kids), level)
            == Line(level, Open(name, attrs)) + AllLines(kids, level + 1) + Line(level, Close(name))
  {
    KidsAsLines(kids, level);
    hide LayKids, AllLines, Open, Close;
    var s := Spaces(2 * level);
    calc {
      Lines(Branch(name, attrs, kids), level);
      s + (Open(name, attrs) + LayKids(kids, level) + Indent(level) + Close(name)) + "\n";
      s + Open(name, attrs) + (LayKids(kids, level) + "\n") + (s + Close(name) + "\n");
      s + Open(name, attrs) + ("\n" + AllLines(kids, level + 1)) + (s + Close(name) + "\n");
    }
  }

  lemma LeafLine(name: string, attrs: seq<Attr>, text: string, level: nat)
    ensures Lines(Leaf(name, attrs, text), level) == Line(level, Open(name, attrs) + XmlEscape(text) + Close(name))
  {
    EscapeIsOnePass(text);
  }

  lemma {:induction false} EscapePlain(s: string)
    requires '&' !in s && '<' !in s && '>' !in s && '"' !in s
    ensures Escape(s) == s
  {
    if s != [] {
      EscapePlain(s[1..]);
      assert s == [s[0]] + s[1..];
    }
  }

  lemma StampPlain(s: string)
    requires IsStamp(s)
    ensures XmlEscape(s) == s
  {
    EscapePlain(s);
    EscapeIsOnePass(s);
  }

  /** An attribute list of one. */
  lemma OpenOne(name: string, key: string, value: string)
    ensures Open(name, [Attr(key, value)]) == "<" + name + " " + key + "=\"" + XmlEscape(value) + "\">"
  {
    EscapeIsOnePass(value);
    hide Escape, XmlEscape;
    assert [Attr(key, value)][1..] == [];
    assert LayAttrs([Attr(key, value)]) == " " + key + "=\"" + Escape(value) + "\"" + [];
  }

  lemma OpenTwo(name: string, k: string, v: string, k': string, v': string)
    ensures Open(name, [Attr(k, v), Attr(k', v')])
            == "<" + name + " " + k + "=\"" + XmlEscape(v) + "\" " + k' + "=\"" + XmlEscape(v') + "\">"
  {
    EscapeIsOnePass(v);
    EscapeIsOnePass(v');
    hide Escape, XmlEscape;
    var attrs := [Attr(k, v), Attr(k', v')];
    assert attrs[1..] == [Attr(k', v')] && attrs[1..][1..] == [];
    assert LayAttrs(attrs[1..]) == " " + k' + "=\"" + Escape(v') + "\"" + [];
    assert LayAttrs(attrs) == " " + k + "=\"" + Escape(v) + "\"" + LayAttrs(attrs[1..]);
  }

  lemma OpenNone(name: string)
    ensures Open(name, []) == "<" + name + ">"
  {
  }

  lemma AllLines1(a: Doc, level: nat)
    ensures AllLines([a], level) == Lines(a, level)
  {
    hide Lines;
    assert [a][1..] == [];
    assert Lines(a, level) + [] == Lines(a, level);
  }

  lemma AllLines2(a: Doc, b: Doc, level: nat)
    ensures AllLines([a, b], level) == Lines(a, level) + Lines(b, level)
  {
    hide Lines;
    assert [a, b][1..] == [b];
    AllLines1(b, level);
  }

  lemma AllLines3(a: Doc, b: Doc, c: Doc, level: nat)
    ensures AllLines([a, b, c], level) == Lines(a, level) + Lines(b, level) + Lines(c, level)
  {
    hide Lines;
    assert [a, b, c][1..] == [b, c];
    AllLines2(b, c, level);
    assert Lines(a, level) + (Lines(b, level) + Lines(c, level)) == Lines(a, level) + Lines(b, level) + Lines(c, level);
  }

  lemma {:induction false} AllLinesAppend(a: seq<Doc>, b: seq<Doc>, level: nat)
    ensures AllLines(a + b, level) == AllLines(a, level) + AllLines(b, level)
  {
    hide Lines;
    if a == [] {
      assert a + b == b;
    } else {
      assert (a + b)[1..] == a[1..] + b;
      AllLinesAppend(a[1..], b, level);
    }
  }

  /** The tags of an element without attributes. */
  ghost predicate Tags(name: string, open: string, close: string) {
    open == "<" + name + ">" && close == "</" + name + ">"
  }

  lemma TextLine(name: string, open: string, close: string, text: string, level: nat)
    requires Tags(name, open, close)
    ensures Lines(Leaf(name, [], text), level) == Line(level, open + XmlEscape(text) + close)
  {
    hide XmlEscape, Lines, Line;
    OpenNone(name);
    LeafLine(name, [], text, level);
  }

  lemma TaggedLines(name: string, open: string, close: string, kids: seq<Doc>, level: nat)
    requires Tags(name, open, close)
    ensures Lines(Branch(name, [], kids), level) == Line(level, open) + AllLines(kids, level + 1) + Line(level, close)
  {
    hide Lines, Line, AllLines;
    OpenNone(name);
    BranchLines(name, [], kids, level);
  }

  lemma OneAttrLine(name: string, key: string, value: string, open: string, close: string, text: string, level: nat)
    requires open == "<" + name + " " + key + "=\"" && close == "</" + name + ">"
    ensures Lines(Leaf(name, [Attr(key, value)], text), level)
            == Line(level, open + XmlEscape(value) + "\">" + XmlEscape(text) + close)
  {
    hide XmlEscape, Lines, Line;
    OpenOne(name, key, value);
    LeafLine(name, [Attr(key, value)], text, level);
    assert open + XmlEscape(value) + "\">" == Open(name, [Attr(key, value)]);
  }

  lemma TwoAttrLine(name: string, k: string, v: string, k': string, v': string, open: string, middle: string,
                    close: string, text: string, level: nat)
    requires open == "<" + name + " " + k + "=\"" && middle == "\" " + k' + "=\"" && close == "</" + name + ">"
    ensures Lines(Leaf(name, [Attr(k, v), Attr(k', v')], text), level)
            == Line(level, open + XmlEscape(v) + middle + XmlEscape(v') + "\">" + XmlEscape(text) + close)
  {
    hide XmlEscape, Lines, Line;
    OpenTwo(name, k, v, k', v');
    LeafLine(name, [Attr(k, v), Attr(k', v')], text, level);
    assert open + XmlEscape(v) + middle + XmlEscape(v') + "\">" == Open(name, [Attr(k, v), Attr(k', v')]);
  }

  // ---------------------------------------------------------------------------------------
  // The writer
  // ---------------------------------------------------------------------------------------

  method WriteC4(level: nat, iso: string, c4: string) returns (s: string)
    requires IsStamp(iso)
    ensures s == Lines(Leaf("c4", [Attr("hashdate", iso)], c4), level)
  {
    hide XmlEscape, Lines, Line;
    s := Line(level, "<c4 hashdate=\"" + iso + "\">" + XmlEscape(c4) + "</c4>");
    StampPlain(iso);
    OneAttrLine("c4", "hashdate", iso, "<c4 hashdate=\"", "</c4>", c4, level);
  }

  /** Content and structure containers, one after the other. */
  method WriteSlots(level: nat, iso: string, content: string, structure: string) returns (s: string)
    requires IsStamp(iso)
    ensures s == Lines(Slot("content", iso, content), level) + Lines(Slot("structure", iso, structure), level)
  {
    hide XmlEscape, Lines, Line, AllLines;
    var x, y := Leaf("c4", [Attr("hashdate", iso)], content), Leaf("c4", [Attr("hashdate", iso)], structure);
    var c := WriteC4(level + 1, iso, content);
    s := Line(level, "<content>") + c + Line(level, "</content>");
    AllLines1(x, level + 1);
    TaggedLines("content", "<content>", "</content>", [x], level);
    c := WriteC4(level + 1, iso, structure);
    AllLines1(y, level + 1);
    TaggedLines("structure", "<structure>", "</structure>", [y], level);
    s := s + (Line(level, "<structure>") + c + Line(level, "</structure>"));
  }

  method WriteCreator(m: ManifestData) returns (s: string)
    ensures s == Lines(CreatorDoc(m), 1)
  {
    hide XmlEscape, Lines, Line, AllLines, UtcIso;
    var iso := UtcIso(m.created);
    IsoStamp(m.created);
    StampPlain(iso);
    PlainWords();
    var a := Line(2, "<creationdate>" + iso + "</creationdate>");
    var b := Line(2, "<hostname>" + XmlEscape(m.hostname) + "</hostname>");
    var c := Line(2, "<tool version=\"" + XmlEscape(m.toolVersion) + "\">" + "frameprism" + "</tool>");
    s := Line(1, "<creatorinfo>") + (a + b + c) + Line(1, "</creatorinfo>");
    TextLine("creationdate", "<creationdate>", "</creationdate>", iso, 2);
    TextLine("hostname", "<hostname>", "</hostname>", m.hostname, 2);
    OneAttrLine("tool", "version", m.toolVersion, "<tool version=\"", "</tool>", "frameprism", 2);
    var kids := CreatorDoc(m).kids;
    AllLines3(kids[0], kids[1], kids[2], 2);
    TaggedLines("creatorinfo", "<creatorinfo>", "</creatorinfo>", kids, 1);
  }

  lemma PlainWords()
    ensures XmlEscape("frameprism") == "frameprism" && XmlEscape("transfer") == "transfer"
  {
    hide XmlEscape, Escape;
    EscapePlain("frameprism");
    EscapePlain("transfer");
    EscapeIsOnePass("frameprism");
    EscapeIsOnePass("transfer");
  }

  method WritePatterns() returns (s: string)
    ensures s == AllLines(PatternDocs(IGNORE_PATTERNS), 3)
  {
    hide XmlEscape, Lines, Line, IGNORE_PATTERNS;
    s := "";
    assert IGNORE_PATTERNS[..0] == [];
    for i := 0 to |IGNORE_PATTERNS|
      invariant s == AllLines(PatternDocs(IGNORE_PATTERNS[..i]), 3)
    {
      var p := IGNORE_PATTERNS[i];
      s := s + Line(3, "<pattern>" + XmlEscape(p) + "</pattern>");
      TextLine("pattern", "<pattern>", "</pattern>", p, 3);
      assert IGNORE_PATTERNS[..i + 1] == IGNORE_PATTERNS[..i] + [p];
      PatternDocsSnoc(IGNORE_PATTERNS[..i], p);
      AllLinesAppend(PatternDocs(IGNORE_PATTERNS[..i]), [Leaf("pattern", [], p)], 3);
      AllLines1(Leaf("pattern", [], p), 3);
    }
    assert IGNORE_PATTERNS[..|IGNORE_PATTERNS|] == IGNORE_PATTERNS;
  }

  lemma {:induction false} PatternDocsSnoc(ps: seq<string>, p: string)
    ensures PatternDocs(ps + [p]) == PatternDocs(ps) + [Leaf("pattern", [], p)]
  {
    if ps == [] {
      assert ps + [p] == [p] && [p][1..] == [];
    } else {
      assert (ps + [p])[1..] == ps[1..] + [p];
      PatternDocsSnoc(ps[1..], p);
    }
  }

  method WriteProcess(m: ManifestData) returns (s: string)
    ensures s == Lines(ProcessDoc(m), 1)
  {
    hide XmlEscape, Lines, Line, AllLines, UtcIso, PatternDocs, IGNORE_PATTERNS, Slot;
    var iso := UtcIso(m.created);
    IsoStamp(m.created);
    PlainWords();
    var a := Line(2, "<process>" + "transfer" + "</process>");
    TextLine("process", "<process>", "</process>", "transfer", 2);
    var slots := WriteSlots(3, iso, m.rootContent, m.rootStructure);
    var b := Line(2, "<roothash>") + slots + Line(2, "</roothash>");
    var x, y := Slot("content", iso, m.rootContent), Slot("structure", iso, m.rootStructure);
    AllLines2(x, y, 3);
    TaggedLines("roothash", "<roothash>", "</roothash>", [x, y], 2);
    var patterns := WritePatterns();
    var c := Line(2, "<ignore>") + patterns + Line(2, "</ignore>");
    TaggedLines("ignore", "<ignore>", "</ignore>", PatternDocs(IGNORE_PATTERNS), 2);
    s := Line(1, "<processinfo>") + (a + b + c) + Line(1, "</processinfo>");
    var kids := ProcessDoc(m).kids;
    AllLines3(kids[0], kids[1], kids[2], 2);
    TaggedLines("processinfo", "<processinfo>", "</processinfo>", kids, 1);
  }

  method WriteFileEntry(e: Entry, iso: string) returns (s: string)
    requires e.FileEntry? && IsStamp(iso)
    ensures s == Lines(EntryDoc(e, iso), 2)
  {
    hide XmlEscape, Lines, Line, AllLines, UtcIso, Dec;
    var a := Line(3, "<path size=\"" + Dec(e.size) + "\" lastmodificationdate=\"" + XmlEscape(UtcIso(e.mtime)) + "\">"
                     + XmlEscape(e.path) + "</path>");
    var b := Line(3, "<c4 action=\"" + "original" + "\" hashdate=\"" + iso + "\">" + XmlEscape(e.c4) + "</c4>");
    s := Line(2, "<hash>") + (a + b) + Line(2, "</hash>");
    StampPlain(iso);
    DecPlain(e.size);
    OriginalPlain();
    TwoAttrLine("path", "size", Dec(e.size), "lastmodificationdate", UtcIso(e.mtime),
                "<path size=\"", "\" lastmodificationdate=\"", "</path>", e.path, 3);
    TwoAttrLine("c4", "action", "original", "hashdate", iso, "<c4 action=\"", "\" hashdate=\"", "</c4>", e.c4, 3);
    var kids := EntryDoc(e, iso).kids;
    AllLines2(kids[0], kids[1], 3);
    TaggedLines("hash", "<hash>", "</hash>", kids, 2);
  }

  lemma DecPlain(n: nat)
    ensures XmlEscape(Dec(n)) == Dec(n)
  {
    hide XmlEscape;
    PaddedStamp(0, n);
    StampPlain(Dec(n));
  }

  lemma OriginalPlain()
    ensures XmlEscape("original") == "original"
  {
    hide XmlEscape, Escape;
    EscapePlain("original");
    EscapeIsOnePass("original");
  }

  method WriteDirPath(e: Entry) returns (s: string)
    requires e.DirEntry?
    ensures s == Lines(Leaf("path", [Attr("lastmodificationdate", UtcIso(e.mtime))], e.path), 3)
  {
    hide XmlEscape, Lines, Line, UtcIso;
    s := Line(3, "<path lastmodificationdate=\"" + XmlEscape(UtcIso(e.mtime)) + "\">" + XmlEscape(e.path) + "</path>");
    OneAttrLine("path", "lastmodificationdate", UtcIso(e.mtime), "<path lastmodificationdate=\"", "</path>", e.path, 3);
  }

  method WriteDirEntry(e: Entry, iso: string) returns (s: string)
    requires e.DirEntry? && IsStamp(iso)
    ensures s == Lines(EntryDoc(e, iso), 2)
  {
    hide XmlEscape, Lines, Line, AllLines, UtcIso, Slot, EntryDoc;
    var a := WriteDirPath(e);
    var slots := WriteSlots(3, iso, e.content, e.structure);
    s := Line(2, "<directoryhash>") + (a + slots) + Line(2, "</directoryhash>");
    DirEntryLines(e, iso);
    assert a + slots == a + Lines(Slot("content", iso, e.content), 3) + Lines(Slot("structure", iso, e.structure), 3);
  }

  lemma DirEntryLines(e: Entry, iso: string)
    requires e.DirEntry?
    ensures Lines(EntryDoc(e, iso), 2)
            == Line(2, "<directoryhash>")
               + (Lines(Leaf("path", [Attr("lastmodificationdate", UtcIso(e.mtime))], e.path), 3)
                  + Lines(Slot("content", iso, e.content), 3) + Lines(Slot("structure", iso, e.structure), 3))
               + Line(2, "</directoryhash>")
  {
    hide XmlEscape, Lines, Line, AllLines, UtcIso, Slot;
    var p := Leaf("path", [Attr("lastmodificationdate", UtcIso(e.mtime))], e.path);
    var x, y := Slot("content", iso, e.content), Slot("structure", iso, e.structure);
    AllLines3(p, x, y, 3);
    TaggedLines("directoryhash", "<directoryhash>", "</directoryhash>", [p, x, y], 2);
  }

  lemma {:induction false} EntryDocsSnoc(es: seq<Entry>, e: Entry, iso: string)
    ensures EntryDocs(es + [e], iso) == EntryDocs(es, iso) + [EntryDoc(e, iso)]
  {
    hide EntryDoc;
    if es == [] {
      assert es + [e] == [e] && [e][1..] == [];
    } else {
      assert (es + [e])[1..] == es[1..] + [e];
      EntryDocsSnoc(es[1..], e, iso);
    }
  }

  method WriteEntries(entries: seq<Entry>, iso: string) returns (s: string)
    requires IsStamp(iso)
    ensures s == AllLines(EntryDocs(entries, iso), 2)
  {
    hide Lines, EntryDoc;
    s := "";
    assert entries[..0] == [];
    for i := 0 to |entries|
      invariant s == AllLines(EntryDocs(entries[..i], iso), 2)
    {
      var e := entries[i];
      var t: string;
      if e.FileEntry? {
        t := WriteFileEntry(e, iso);
      } else {
        t := WriteDirEntry(e, iso);
      }
      s := s + t;
      assert entries[..i + 1] == entries[..i] + [e];
      EntryDocsSnoc(entries[..i], e, iso);
      AllLinesAppend(EntryDocs(entries[..i], iso), [EntryDoc(e, iso)], 2);
      AllLines1(EntryDoc(e, iso), 2);
    }
    assert entries[..|entries|] == entries;
  }

  /** The manifest's exact text: the declaration, then every element on lines of its own. */
  method RenderManifest(m: ManifestData) returns (s: string)
    ensures s == ManifestText(m)
  {
    hide Lines, Line, AllLines, UtcIso, CreatorDoc, ProcessDoc, EntryDocs, DECLARATION, Lay;
    var iso := UtcIso(m.created);
    IsoStamp(m.created);
    var creator := WriteCreator(m);
    var process := WriteProcess(m);
    var body := creator + process;
    var kids := [CreatorDoc(m), ProcessDoc(m)];
    AllLines2(kids[0], kids[1], 1);
    if m.entries != [] {
      var entries := WriteEntries(m.entries, iso);
      body := body + (Line(1, "<hashes>") + entries + Line(1, "</hashes>"));
      var h := Branch("hashes", [], EntryDocs(m.entries, iso));
      TaggedLines("hashes", "<hashes>", "</hashes>", EntryDocs(m.entries, iso), 1);
      AllLines1(h, 1);
      AllLinesAppend(kids, [h], 1);
      assert ManifestDoc(m).kids == kids + [h];
    } else {
      assert ManifestDoc(m).kids == kids;
    }
    s := DECLARATION + "\n"
         + (Line(0, "<hashlist version=\"" + "2.0" + "\" xmlns=\"" + "urn:ASC:MHL:v2.0" + "\">") + body + Line(0, "</hashlist>"));
    RootLines(m);
    TopLine(ManifestDoc(m));
  }

  lemma RootLines(m: ManifestData)
    ensures Lines(ManifestDoc(m), 0)
            == Line(0, "<hashlist version=\"" + "2.0" + "\" xmlns=\"" + "urn:ASC:MHL:v2.0" + "\">") + AllLines(ManifestDoc(m).kids, 1)
               + Line(0, "</hashlist>")
  {
    hide Lines, Line, AllLines, XmlEscape, CreatorDoc, ProcessDoc, HashesDocs, Escape, Open, LayAttrs, Close;
    RootTag();
    BranchLines("hashlist", ManifestDoc(m).attrs, ManifestDoc(m).kids, 0);
  }

  lemma OpenTwoPieces(name: string, k: string, v: string, k': string, v': string, open: string, middle: string)
    requires open == "<" + name + " " + k + "=\"" && middle == "\" " + k' + "=\""
    ensures "<" + name + " " + k + "=\"" + v + "\" " + k' + "=\"" + v' + "\">" == open + v + middle + v' + "\">"
  {
  }

  lemma RootTag()
    ensures Open("hashlist", [Attr("version", "2.0"), Attr("xmlns", "urn:ASC:MHL:v2.0")])
            == "<hashlist version=\"" + "2.0" + "\" xmlns=\"" + "urn:ASC:MHL:v2.0" + "\">"
    ensures Close("hashlist") == "</hashlist>"
  {
    hide XmlEscape, Escape, Open, LayAttrs;
    OpenTwo("hashlist", "version", "2.0", "xmlns", "urn:ASC:MHL:v2.0");
    OpenTwoPieces("hashlist", "version", "2.0", "xmlns", "urn:ASC:MHL:v2.0", "<hashlist version=\"", "\" xmlns=\"");
    VersionPlain();
  }

  lemma VersionPlain()
    ensures XmlEscape("2.0") == "2.0" && XmlEscape("urn:ASC:MHL:v2.0") == "urn:ASC:MHL:v2.0"
  {
    hide XmlEscape, Escape;
    EscapePlain("2.0");
    EscapePlain("urn:ASC:MHL:v2.0");
    EscapeIsOnePass("2.0");
    EscapeIsOnePass("urn:ASC:MHL:v2.0");
  }

  lemma TopLine(d: Doc)
    ensures LayFile(d) == DECLARATION + "\n" + Lines(d, 0)
  {
    hide Lay, DECLARATION;
    assert Spaces(0) == "";
    assert Lines(d, 0) == Lay(d, 0) + "\n";
  }
}
