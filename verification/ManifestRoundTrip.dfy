/** Reading a manifest back (tool/src/ascmhl.rs): for which manifests the strict reader returns
    exactly what the writer was given. */
module ManifestRoundTrip {
  import opened Prelude
  import opened Xml
  import opened XmlDocs
  import opened Numerals
  import opened C4Id
  import opened Manifest
  import Utf8

  // ---------------------------------------------------------------------------------------
  // The faithful reading, and when there is one
  // ---------------------------------------------------------------------------------------

  function FaithfulRow(e: Entry): Row {
    match e
    case FileEntry(path, size, mtime, c4) => FileRow(HashFile(path, size, UtcIso(mtime), c4))
    case DirEntry(path, mtime, content, structure) => DirRow(HashDir(path, UtcIso(mtime), content, structure))
  }

  function FaithfulRows(entries: seq<Entry>): (r: seq<Row>)
    ensures |r| == |entries|
  {
    if entries == [] then [] else [FaithfulRow(entries[0])] + FaithfulRows(entries[1..])
  }

  /** Everything the manifest records, unchanged and in order. */
  function Faithful(m: ManifestData): Hashlist {
    var rows := FaithfulRows(m.entries);
    Hashlist(UtcIso(m.created), m.hostname, "frameprism", m.toolVersion, "transfer",
             m.rootContent, m.rootStructure, IGNORE_PATTERNS, FilesOf(rows), DirsOf(rows))
  }

  predicate Trimmed(s: string) {
    Trim(s) == s
  }

  ghost predicate EntryOk(e: Entry) {
    && Trimmed(e.path) && CheckInScope(e.path).Ok?
    && match e
       case FileEntry(_, size, _, c4) => size < U64_LIMIT && WellFormed(c4)
       case DirEntry(_, _, content, structure) => WellFormed(content) && WellFormed(structure)
  }

  ghost predicate EntriesOk(entries: seq<Entry>, seen: set<string>) {
    entries == []
    || (EntryOk(entries[0]) && entries[0].path !in seen && EntriesOk(entries[1..], seen + {entries[0].path}))
  }

  /** What the caller has to check before relying on the manifest. */
  ghost predicate Readable(m: ManifestData) {
    && m.hostname != "" && Trimmed(m.hostname) && m.toolVersion != ""
    && WellFormed(m.rootContent) && WellFormed(m.rootStructure)
    && m.entries != [] && EntriesOk(m.entries, {})
  }

  // ---------------------------------------------------------------------------------------
  // Trimming and shape checks
  // ---------------------------------------------------------------------------------------

  lemma {:induction false} TrimStartShape(s: string)
    ensures |TrimStart(s)| <= |s| && TrimStart(s) == s[|s| - |TrimStart(s)|..]
    ensures TrimStart(s) != [] ==> !IsSpace(TrimStart(s)[0])
    ensures TrimStart(s) == s <==> s == [] || !IsSpace(s[0])
  {
    if s != [] && IsSpace(s[0]) {
      TrimStartShape(s[1..]);
    }
  }

  lemma {:induction false} TrimEndShape(s: string)
    ensures |TrimEnd(s)| <= |s| && TrimEnd(s) == s[..|TrimEnd(s)|]
    ensures TrimEnd(s) != [] ==> !IsSpace(TrimEnd(s)[|TrimEnd(s)| - 1])
    ensures TrimEnd(s) == s <==> s == [] || !IsSpace(s[|s| - 1])
  {
    if s != [] && IsSpace(s[|s| - 1]) {
      TrimEndShape(s[..|s| - 1]);
    }
  }

  /** A text is trimmed exactly when neither end is white space. */
  lemma TrimmedEnds(s: string)
    ensures Trimmed(s) <==> s == [] || (!IsSpace(s[0]) && !IsSpace(s[|s| - 1]))
    ensures Trimmed(Trim(s))
  {
    TrimStartShape(s);
    TrimEndShape(TrimStart(s));
    TrimStartShape(Trim(s));
    TrimEndShape(Trim(s));
  }

  lemma NoSpaceTrimmed(s: string)
    requires forall c :: c in s ==> !IsSpace(c)
    ensures Trimmed(s)
  {
    TrimmedEnds(s);
    if s != [] {
      assert s[0] in s && s[|s| - 1] in s;
    }
  }

  lemma TextOfTrim(t: string)
    ensures Trim(TextOf(t)) == Trim(t)
  {
    TrimmedEnds(t);
  }

  lemma StampTrimmed(s: string)
    requires IsStamp(s)
    ensures Trimmed(s)
  {
    NoSpaceTrimmed(s);
  }

  lemma InCharset(c: char)
    ensures c in CHARSET <==> IsDigit(c)
  {
    if c in CHARSET {
      var i :| 0 <= i < |CHARSET| && CHARSET[i] == c;
      CharsetAt(0);
      CharsetAt(i);
    }
    if IsDigit(c) {
      var d: nat :| d < 58 && CharOf(d) == c;
      CharsetAt(d);
    }
  }

  lemma DigitsArePlain(c: char)
    requires IsDigit(c)
    ensures !IsSpace(c) && c as int < 0x80
  {
  }

  lemma BodyAccepted(body: string)
    ensures (|Utf8.Octets(body)| == 88 && forall c :: c in body ==> c in CHARSET)
            <==> (|body| == 88 && forall i :: 0 <= i < |body| ==> IsDigit(body[i]))
  {
    hide IsDigit, CHARSET;
    if forall i :: 0 <= i < |body| ==> IsDigit(body[i]) {
      forall c | c in body
        ensures c in CHARSET
      {
        InCharset(c);
      }
    }
    if forall c :: c in body ==> c in CHARSET {
      forall i | 0 <= i < |body|
        ensures IsDigit(body[i]) && body[i] as int < 0x80
      {
        assert body[i] in body;
        InCharset(body[i]);
        DigitsArePlain(body[i]);
      }
      Utf8.AsciiOctets(body);
    }
  }

  /** The reader's shape check accepts exactly the well-formed identifiers. */
  lemma CheckC4Accepts(v: string)
    ensures CheckC4(v).Ok? <==> WellFormed(v)
    ensures WellFormed(v) ==> Trimmed(v)
  {
    hide IsDigit, IsSpace, CHARSET;
    if "c4" <= v {
      var body := v[2..];
      BodyAccepted(body);
      assert forall i :: 0 <= i < |body| ==> body[i] == v[i + 2];
      assert forall i :: 2 <= i < |v| ==> v[i] == body[i - 2];
      if WellFormed(v) {
        TrimmedEnds(v);
        PlainPrefix();
        DigitsArePlain(v[89]);
      }
    }
  }

  lemma PlainPrefix()
    ensures !IsSpace('c')
  {
  }

  // ---------------------------------------------------------------------------------------
  // Rows
  // ---------------------------------------------------------------------------------------

  lemma Trees1(a: Doc)
    ensures Trees([a]) == [Tree(a)]
  {
    hide Tree;
    assert [a][1..] == [];
  }

  lemma Trees2(a: Doc, b: Doc)
    ensures Trees([a, b]) == [Tree(a), Tree(b)]
  {
    hide Tree;
    assert [a, b][1..] == [b];
    Trees1(b);
  }

  lemma Trees3(a: Doc, b: Doc, c: Doc)
    ensures Trees([a, b, c]) == [Tree(a), Tree(b), Tree(c)]
  {
    hide Tree;
    assert [a, b, c][1..] == [b, c];
    Trees2(b, c);
  }

  lemma OneAttr(el: XmlEl, k: string, v: string, key: string)
    requires el.attrs == [Attr(k, v)]
    ensures AttrOf(el, key) == if k == key then Some(v) else None
  {
    assert el.attrs[1..] == [] && el.attrs[0] == Attr(k, v);
    assert Lookup(el.attrs[1..], key) == None;
  }

  lemma TwoAttrs(el: XmlEl, k: string, v: string, k': string, v': string, key: string)
    requires el.attrs == [Attr(k, v), Attr(k', v')]
    ensures AttrOf(el, key) == if k == key then Some(v) else if k' == key then Some(v') else None
  {
    OneAttr(el.(attrs := [Attr(k', v')]), k', v', key);
    assert el.attrs[1..] == [Attr(k', v')] && el.attrs[0] == Attr(k, v);
  }

  lemma SlotFaithful(name: string, iso: string, c4: string)
    requires iso != ""
    ensures SlotC4(Tree(Slot(name, iso, c4))) == Ok(c4) <==> WellFormed(c4)
    ensures Tree(Slot(name, iso, c4)).name == name
  {
    hide WellFormed, CheckC4, Trim;
    var d := Leaf("c4", [Attr("hashdate", iso)], c4);
    Trees1(d);
    OneAttr(Tree(d), "hashdate", iso, "hashdate");
    TextOfTrim(c4);
    CheckC4Accepts(Trim(c4));
    CheckC4Accepts(c4);
  }

  lemma PathFaithful(el: XmlEl, path: string, seen: set<string>)
    requires el.text == TextOf(path)
    ensures RowPath(el, seen) == Ok(path) <==> Trimmed(path) && CheckInScope(path).Ok? && path !in seen
  {
    hide Trim, CheckInScope;
    TextOfTrim(path);
  }

  lemma FileRowFaithful(e: Entry, iso: string, seen: set<string>)
    requires e.FileEntry? && iso != ""
    ensures ParseRow(Tree(EntryDoc(e, iso)), seen) == Ok(FaithfulRow(e)) <==> EntryOk(e) && e.path !in seen
  {
    hide WellFormed, CheckC4, CheckInScope, Trim, ParseUnsigned, UtcIso, Dec;
    var p := Leaf("path", [Attr("size", Dec(e.size)), Attr("lastmodificationdate", UtcIso(e.mtime))], e.path);
    var c := Leaf("c4", [Attr("action", "original"), Attr("hashdate", iso)], e.c4);
    Trees2(p, c);
    TwoAttrs(Tree(p), "size", Dec(e.size), "lastmodificationdate", UtcIso(e.mtime), "size");
    TwoAttrs(Tree(p), "size", Dec(e.size), "lastmodificationdate", UtcIso(e.mtime), "lastmodificationdate");
    TwoAttrs(Tree(c), "action", "original", "hashdate", iso, "action");
    TwoAttrs(Tree(c), "action", "original", "hashdate", iso, "hashdate");
    IsoStamp(e.mtime);
    PathFaithful(Tree(p), e.path, seen);
    SizeFaithful(e.size);
    TextOfTrim(e.c4);
    CheckC4Accepts(Trim(e.c4));
    CheckC4Accepts(e.c4);
  }

  lemma SizeFaithful(size: nat)
    ensures ParseUnsigned(10, U64_LIMIT, Dec(size)) == if size < U64_LIMIT then Some(size) else None
  {
    ParseDigits(10, U64_LIMIT, Minimal(10, size));
  }

  lemma DirRowFaithful(e: Entry, iso: string, seen: set<string>)
    requires e.DirEntry? && iso != ""
    ensures ParseRow(Tree(EntryDoc(e, iso)), seen) == Ok(FaithfulRow(e)) <==> EntryOk(e) && e.path !in seen
  {
    hide WellFormed, CheckInScope, Trim, UtcIso, Slot, SlotC4;
    var p := Leaf("path", [Attr("lastmodificationdate", UtcIso(e.mtime))], e.path);
    var x, y := Slot("content", iso, e.content), Slot("structure", iso, e.structure);
    Trees3(p, x, y);
    OneAttr(Tree(p), "lastmodificationdate", UtcIso(e.mtime), "lastmodificationdate");
    OneAttr(Tree(p), "lastmodificationdate", UtcIso(e.mtime), "size");
    IsoStamp(e.mtime);
    PathFaithful(Tree(p), e.path, seen);
    SlotFaithful("content", iso, e.content);
    SlotFaithful("structure", iso, e.structure);
  }

  lemma {:induction false} RowsFaithful(entries: seq<Entry>, iso: string, seen: set<string>)
    requires iso != ""
    ensures ReadRows(Trees(EntryDocs(entries, iso)), seen) == Ok(FaithfulRows(entries)) <==> EntriesOk(entries, seen)
  {
    if entries != [] {
      hide Tree, EntryDoc, ParseRow, EntryOk, FaithfulRow;
      var e := entries[0];
      var docs := EntryDocs(entries, iso);
      var rest := EntryDocs(entries[1..], iso);
      assert docs[0] == EntryDoc(e, iso) && docs[1..] == rest;
      assert Trees(docs)[0] == Tree(EntryDoc(e, iso)) && Trees(docs)[1..] == Trees(rest);
      if e.FileEntry? {
        FileRowFaithful(e, iso, seen);
      } else {
        DirRowFaithful(e, iso, seen);
      }
      FaithfulPath(e);
      RowsFaithful(entries[1..], iso, seen + {e.path});
      var all := FaithfulRows(entries);
      assert all[0] == FaithfulRow(e) && all[1..] == FaithfulRows(entries[1..]);
      RowsStep(Trees(docs), seen, all);
    }
  }

  lemma FaithfulPath(e: Entry)
    ensures FaithfulRow(e).Path() == e.path
  {
  }

  /** The reader returns a given list of rows exactly when it returns its head for the first
      element and its tail for the others. */
  lemma RowsStep(rows: seq<XmlEl>, seen: set<string>, all: seq<Row>)
    requires rows != [] && all != []
    ensures ReadRows(rows, seen) == Ok(all)
            <==> ParseRow(rows[0], seen) == Ok(all[0]) && ReadRows(rows[1..], seen + {all[0].Path()}) == Ok(all[1..])
  {
    hide ParseRow;
    if ParseRow(rows[0], seen).Ok? {
      var row := ParseRow(rows[0], seen).value;
      var rest := ReadRows(rows[1..], seen + {row.Path()});
      if rest.Ok? {
        assert ([row] + rest.value)[0] == row && ([row] + rest.value)[1..] == rest.value;
        assert all == [all[0]] + all[1..];
      }
    }
  }

  // ---------------------------------------------------------------------------------------
  // Header
  // ---------------------------------------------------------------------------------------

  lemma CreatorChildren(a: XmlEl, b: XmlEl, c: XmlEl)
    requires a.name == "creationdate" && b.name == "hostname" && c.name == "tool"
    ensures ReadCreator([a, b, c], Creator(None, None, None))
            == Ok(Creator(Some(Trim(a.text)), Some(Trim(b.text)), Some(c)))
  {
    hide Trim;
    var c1 := Creator(Some(Trim(a.text)), None, None);
    var c2 := Creator(Some(Trim(a.text)), Some(Trim(b.text)), None);
    var c3 := Creator(Some(Trim(a.text)), Some(Trim(b.text)), Some(c));
    assert [a, b, c][1..] == [b, c] && [b, c][1..] == [c] && [c][1..] == [];
    assert ReadCreator([], c3) == Ok(c3);
    assert ReadCreator([c], c2) == Ok(c3);
    assert ReadCreator([b, c], c1) == Ok(c3);
  }

  lemma CreatorFaithful(m: ManifestData)
    ensures var r := ParseCreator(Tree(CreatorDoc(m)));
            var want := CreatorInfo(UtcIso(m.created), m.hostname, "frameprism", m.toolVersion);
            r == Ok(want) <==> m.hostname != "" && Trimmed(m.hostname) && m.toolVersion != ""
  {
    hide UtcIso, ReadCreator;
    var a := Leaf("creationdate", [], UtcIso(m.created));
    var b := Leaf("hostname", [], m.hostname);
    var c := Leaf("tool", [Attr("version", m.toolVersion)], "frameprism");
    Trees3(a, b, c);
    CreatorChildren(Tree(a), Tree(b), Tree(c));
    OneAttr(Tree(c), "version", m.toolVersion, "version");
    IsoStamp(m.created);
    StampTrimmed(UtcIso(m.created));
    LiteralTrimmed();
    hide Trim;
    TextOfTrim(UtcIso(m.created));
    TextOfTrim(m.hostname);
    TextOfTrim("frameprism");
  }

  lemma LiteralTrimmed()
    ensures Trimmed("frameprism") && Trimmed("transfer")
  {
    hide Trim;
    TrimmedEnds("frameprism");
    TrimmedEnds("transfer");
  }

  lemma ProcessChildren(a: XmlEl, b: XmlEl, c: XmlEl)
    requires a.name == "process" && b.name == "roothash" && c.name == "ignore"
    ensures ReadProcess([a, b, c], Process(None, None, None)) == Ok(Process(Some(a), Some(b), Some(c)))
  {
    assert [a, b, c][1..] == [b, c] && [b, c][1..] == [c] && [c][1..] == [];
    assert ReadProcess([], Process(Some(a), Some(b), Some(c))) == Ok(Process(Some(a), Some(b), Some(c)));
    assert ReadProcess([c], Process(Some(a), Some(b), None)) == Ok(Process(Some(a), Some(b), Some(c)));
    assert ReadProcess([b, c], Process(Some(a), None, None)) == Ok(Process(Some(a), Some(b), Some(c)));
  }

  predicate PatternsOk(patterns: seq<string>) {
    patterns == [] || (patterns[0] != "" && Trimmed(patterns[0]) && PatternsOk(patterns[1..]))
  }

  lemma {:induction false} PatternsFaithful(patterns: seq<string>)
    requires PatternsOk(patterns)
    ensures ReadPatterns(Trees(PatternDocs(patterns))) == Ok(patterns)
  {
    if patterns != [] {
      hide Trim, TextOf;
      PatternsFaithful(patterns[1..]);
      var docs := PatternDocs(patterns);
      assert docs[1..] == PatternDocs(patterns[1..]);
      assert Trees(docs)[1..] == Trees(docs[1..]);
      TextOfTrim(patterns[0]);
      assert patterns == [patterns[0]] + patterns[1..];
    }
  }

  lemma {:induction false} EachPatternOk(patterns: seq<string>)
    requires forall i :: 0 <= i < |patterns| ==> patterns[i] != "" && !IsSpace(patterns[i][0]) && !IsSpace(patterns[i][|patterns[i]| - 1])
    ensures PatternsOk(patterns)
  {
    if patterns != [] {
      hide Trim;
      TrimmedEnds(patterns[0]);
      EachPatternOk(patterns[1..]);
    }
  }

  lemma IgnorePatternsOk()
    ensures PatternsOk(IGNORE_PATTERNS)
  {
    hide PatternsOk;
    EachPatternOk(IGNORE_PATTERNS);
  }

  lemma ProcessFaithful(m: ManifestData)
    ensures var r := ParseProcess(Tree(ProcessDoc(m)));
            var want := ProcessInfo("transfer", m.rootContent, m.rootStructure, IGNORE_PATTERNS);
            r == Ok(want) <==> WellFormed(m.rootContent) && WellFormed(m.rootStructure)
  {
    hide UtcIso, ReadProcess, Slot, SlotC4, PatternDocs, ReadPatterns, IGNORE_PATTERNS, WellFormed;
    var iso := UtcIso(m.created);
    IsoStamp(m.created);
    var x, y := Slot("content", iso, m.rootContent), Slot("structure", iso, m.rootStructure);
    var a := Leaf("process", [], "transfer");
    var b := Branch("roothash", [], [x, y]);
    var c := Branch("ignore", [], PatternDocs(IGNORE_PATTERNS));
    Trees3(a, b, c);
    Trees2(x, y);
    ProcessChildren(Tree(a), Tree(b), Tree(c));
    SlotFaithful("content", iso, m.rootContent);
    SlotFaithful("structure", iso, m.rootStructure);
    IgnorePatternsOk();
    PatternsFaithful(IGNORE_PATTERNS);
    LiteralTrimmed();
    hide Trim;
    TextOfTrim("transfer");
    SomePatterns();
  }

  lemma SomePatterns()
    ensures IGNORE_PATTERNS != []
  {
  }

  // ---------------------------------------------------------------------------------------
  // The whole manifest
  // ---------------------------------------------------------------------------------------

  /** Rows of the kinds of the entries, in order. */
  ghost predicate KindsMatch(rows: seq<Row>, entries: seq<Entry>) {
    |rows| == |entries| && forall i :: 0 <= i < |rows| ==> (rows[i].FileRow? <==> entries[i].FileEntry?)
  }

  lemma RowKind(e: Entry, iso: string, seen: set<string>)
    ensures var r := ParseRow(Tree(EntryDoc(e, iso)), seen);
            r.Ok? ==> (r.value.FileRow? <==> e.FileEntry?)
  {
    hide WellFormed, CheckC4, CheckInScope, Trim, ParseUnsigned, UtcIso, Dec, SlotC4, Slot, Present, RowPath;
  }

  lemma EntryDocsCons(entries: seq<Entry>, iso: string)
    requires entries != []
    ensures EntryDocs(entries, iso)[0] == EntryDoc(entries[0], iso) && EntryDocs(entries, iso)[1..] == EntryDocs(entries[1..], iso)
  {
    hide EntryDoc;
  }

  /** What reading rows means for the first and for the rest. */
  lemma ReadRowsCons(rows: seq<XmlEl>, seen: set<string>)
    requires rows != [] && ReadRows(rows, seen).Ok?
    ensures var first := ParseRow(rows[0], seen);
            first.Ok? &&
            var rest := ReadRows(rows[1..], seen + {first.value.Path()});
            rest.Ok? && ReadRows(rows, seen).value == [first.value] + rest.value
  {
    hide ParseRow;
  }

  lemma NoEntries(iso: string, seen: set<string>)
    ensures ReadRows(Trees(EntryDocs([], iso)), seen) == Ok([])
  {
  }

  lemma {:induction false} RowKinds(entries: seq<Entry>, iso: string, seen: set<string>)
    ensures var r := ReadRows(Trees(EntryDocs(entries, iso)), seen);
            r.Ok? ==> KindsMatch(r.value, entries)
  {
    hide Tree, EntryDoc, ParseRow, Trees, EntryDocs, ReadRows;
    var docs := EntryDocs(entries, iso);
    var rows := Trees(docs);
    if entries == [] {
      NoEntries(iso, seen);
    } else if ReadRows(rows, seen).Ok? {
      EntryDocsCons(entries, iso);
      TreesCons(docs);
      RowKind(entries[0], iso, seen);
      ReadRowsCons(rows, seen);
      var first := ParseRow(rows[0], seen).value;
      RowKinds(entries[1..], iso, seen + {first.Path()});
    }
  }

  lemma {:induction false} SplitRowsInjective(a: seq<Row>, b: seq<Row>, entries: seq<Entry>)
    requires KindsMatch(a, entries) && KindsMatch(b, entries)
    requires FilesOf(a) == FilesOf(b) && DirsOf(a) == DirsOf(b)
    ensures a == b
  {
    if entries != [] {
      RowsTail(a);
      RowsTail(b);
      hide FilesOf, DirsOf;
      assert a[0] == b[0] by {
        if a[0].FileRow? {
          assert FilesOf(a)[0] == a[0].file && FilesOf(b)[0] == b[0].file;
        } else {
          assert DirsOf(a)[0] == a[0].dir && DirsOf(b)[0] == b[0].dir;
        }
      }
      SplitRowsInjective(a[1..], b[1..], entries[1..]);
    }
  }

  lemma RowsTail(a: seq<Row>)
    requires a != []
    ensures FilesOf(a) == (if a[0].FileRow? then [a[0].file] else []) + FilesOf(a[1..])
    ensures FilesOf(a[1..]) == if a[0].FileRow? then FilesOf(a)[1..] else FilesOf(a)
    ensures DirsOf(a) == (if a[0].DirRow? then [a[0].dir] else []) + DirsOf(a[1..])
    ensures DirsOf(a[1..]) == if a[0].DirRow? then DirsOf(a)[1..] else DirsOf(a)
  {
  }

  lemma {:induction false} FaithfulKinds(entries: seq<Entry>)
    ensures KindsMatch(FaithfulRows(entries), entries)
  {
    if entries != [] {
      FaithfulKinds(entries[1..]);
    }
  }

  lemma HashesRows(m: ManifestData)
    ensures Tree(ManifestDoc(m)).children
            == [Tree(CreatorDoc(m)), Tree(ProcessDoc(m))] + Trees(HashesDocs(m))
    ensures m.entries != [] ==> Trees(HashesDocs(m))
                                == [XmlEl("hashes", [], Trees(EntryDocs(m.entries, UtcIso(m.created))), "")]
    ensures m.entries == [] ==> Trees(HashesDocs(m)) == []
  {
    hide CreatorDoc, ProcessDoc, EntryDocs, UtcIso;
    var c, p := CreatorDoc(m), ProcessDoc(m);
    if m.entries == [] {
      Trees2(c, p);
      assert [c, p] + [] == [c, p];
    } else {
      var h := Branch("hashes", [], EntryDocs(m.entries, UtcIso(m.created)));
      Trees3(c, p, h);
      Trees1(h);
      assert [c, p] + [h] == [c, p, h];
    }
  }

  lemma TopLevel(creator: XmlEl, process: XmlEl, more: seq<XmlEl>)
    requires creator.name == "creatorinfo" && process.name == "processinfo"
    requires more == [] || (|more| == 1 && more[0].name == "hashes")
    ensures var kids := [creator, process] + more;
            && FirstForeign(kids) == None
            && Count(kids, "creatorinfo") == 1 && Count(kids, "processinfo") == 1 && Count(kids, "hashes") == |more|
            && FirstNamed(kids, "creatorinfo") == Some(creator) && FirstNamed(kids, "processinfo") == Some(process)
            && FirstNamed(kids, "hashes") == if more == [] then None else Some(more[0])
  {
    var kids := [creator, process] + more;
    assert kids[1..] == [process] + more && kids[1..][1..] == more;
    if more != [] {
      assert more[1..] == [];
    }
    assert FirstForeign(more) == None;
    assert FirstForeign(kids[1..]) == None;
    assert FirstNamed(more, "hashes") == if more == [] then None else Some(more[0]);
    assert FirstNamed(kids[1..], "hashes") == FirstNamed(more, "hashes");
    assert FirstNamed(kids[1..], "processinfo") == Some(process);
    assert Count(more, "creatorinfo") == 0 && Count(more, "processinfo") == 0 && Count(more, "hashes") == |more|;
    assert Count(kids[1..], "creatorinfo") == 0 && Count(kids[1..], "processinfo") == 1 && Count(kids[1..], "hashes") == |more|;
  }

  lemma TreeFaithful(m: ManifestData)
    ensures ParseTree(Tree(ManifestDoc(m))) == Ok(Faithful(m)) <==> Readable(m)
  {
    hide CreatorDoc, ProcessDoc, ParseCreator, ParseProcess, EntryDocs, Tree, UtcIso, Trim, WellFormed,
      IGNORE_PATTERNS, ReadRows, FaithfulRows, FilesOf, DirsOf, EntriesOk, FirstForeign, FirstNamed, Count, AttrOf;
    var root := Tree(ManifestDoc(m));
    var creator, process := Tree(CreatorDoc(m)), Tree(ProcessDoc(m));
    RootShape(m);
    HashesRows(m);
    PartNames(m);
    TopLevel(creator, process, Trees(HashesDocs(m)));
    CreatorFaithful(m);
    ProcessFaithful(m);
    IsoStamp(m.created);
    var iso := UtcIso(m.created);
    var want := FaithfulRows(m.entries);
    var got := ReadRows(Trees(EntryDocs(m.entries, iso)), {});
    RowsFaithful(m.entries, iso, {});
    RowKinds(m.entries, iso, {});
    FaithfulKinds(m.entries);
    if got.Ok? && FilesOf(got.value) == FilesOf(want) && DirsOf(got.value) == DirsOf(want) {
      SplitRowsInjective(got.value, want, m.entries);
    }
    NoRows();
  }

  lemma NoRows()
    ensures ReadRows([], {}) == Ok([])
  {
  }

  lemma RootShape(m: ManifestData)
    ensures var root := Tree(ManifestDoc(m));
            && root.name == "hashlist" && AttrOf(root, "version") == Some("2.0")
            && AttrOf(root, "xmlns") == Some("urn:ASC:MHL:v2.0")
  {
    hide CreatorDoc, ProcessDoc, HashesDocs, Trees;
    var root := Tree(ManifestDoc(m));
    TwoAttrs(root, "version", "2.0", "xmlns", "urn:ASC:MHL:v2.0", "version");
    TwoAttrs(root, "version", "2.0", "xmlns", "urn:ASC:MHL:v2.0", "xmlns");
  }

  lemma PartNames(m: ManifestData)
    ensures Tree(CreatorDoc(m)).name == "creatorinfo" && Tree(ProcessDoc(m)).name == "processinfo"
  {
    hide Trees, UtcIso;
  }

  // ---------------------------------------------------------------------------------------
  // Names and depth
  // ---------------------------------------------------------------------------------------

  lemma PlainName(name: string)
    requires name != "" && forall i :: 0 <= i < |name| ==> 'a' <= name[i] <= 'z' || name[i] == '4'
    ensures NameOk(name)
  {
  }

  lemma NameLiterals()
    ensures NameOk("hashlist") && NameOk("creatorinfo") && NameOk("processinfo") && NameOk("hashes")
    ensures NameOk("creationdate") && NameOk("hostname") && NameOk("tool") && NameOk("process")
    ensures NameOk("roothash") && NameOk("content") && NameOk("structure") && NameOk("c4")
    ensures NameOk("ignore") && NameOk("pattern") && NameOk("hash") && NameOk("directoryhash") && NameOk("path")
  {
    hide NameOk;
    PlainName("hashlist");
    PlainName("creatorinfo");
    PlainName("processinfo");
    PlainName("hashes");
    PlainName("creationdate");
    PlainName("hostname");
    PlainName("tool");
    PlainName("process");
    PlainName("roothash");
    PlainName("content");
    PlainName("structure");
    PlainName("c4");
    PlainName("ignore");
    PlainName("pattern");
    PlainName("hash");
    PlainName("directoryhash");
    PlainName("path");
  }

  lemma PlainKey(key: string)
    requires key != "" && forall i :: 0 <= i < |key| ==> 'a' <= key[i] <= 'z'
    ensures KeyOk(key)
  {
  }

  lemma KeyLiterals()
    ensures KeyOk("version") && KeyOk("xmlns") && KeyOk("hashdate") && KeyOk("size")
    ensures KeyOk("lastmodificationdate") && KeyOk("action")
  {
    hide KeyOk;
    PlainKey("version");
    PlainKey("xmlns");
    PlainKey("hashdate");
    PlainKey("size");
    PlainKey("lastmodificationdate");
    PlainKey("action");
  }

  ghost predicate Shaped(d: Doc, height: nat) {
    WellNamed(d) && Height(d) <= height
  }

  ghost predicate AllShaped(kids: seq<Doc>, height: nat) {
    AllWellNamed(kids) && MaxHeight(kids) <= height
  }

  lemma {:induction false} AllShapedEach(kids: seq<Doc>, height: nat)
    requires forall i :: 0 <= i < |kids| ==> Shaped(kids[i], height)
    ensures AllShaped(kids, height)
  {
    if kids != [] {
      hide WellNamed, Height;
      AllShapedEach(kids[1..], height);
    }
  }

  lemma BranchShaped(name: string, attrs: seq<Attr>, kids: seq<Doc>, height: nat)
    requires NameOk(name) && (forall a :: a in attrs ==> KeyOk(a.key)) && AllShaped(kids, height)
    ensures Shaped(Branch(name, attrs, kids), height + 1)
  {
  }

  lemma LeafShaped(name: string, attrs: seq<Attr>, text: string)
    requires NameOk(name) && (forall a :: a in attrs ==> KeyOk(a.key))
    ensures Shaped(Leaf(name, attrs, text), 1)
  {
  }

  lemma SlotShaped(name: string, iso: string, c4: string)
    requires NameOk(name)
    ensures Shaped(Slot(name, iso, c4), 2)
  {
    NameLiterals();
    KeyLiterals();
    hide NameOk, KeyOk, Shaped;
    var d := Leaf("c4", [Attr("hashdate", iso)], c4);
    LeafShaped("c4", [Attr("hashdate", iso)], c4);
    AllShapedEach([d], 1);
    BranchShaped(name, [], [d], 1);
  }

  lemma EntryShaped(e: Entry, iso: string)
    ensures Shaped(EntryDoc(e, iso), 3)
  {
    NameLiterals();
    KeyLiterals();
    hide NameOk, KeyOk, Slot, Dec, UtcIso, WellNamed, Height;
    match e {
      case FileEntry(path, size, mtime, c4) =>
        LeafShaped("path", [Attr("size", Dec(size)), Attr("lastmodificationdate", UtcIso(mtime))], path);
        LeafShaped("c4", [Attr("action", "original"), Attr("hashdate", iso)], c4);
        AllShapedEach(EntryDoc(e, iso).kids, 2);
      case DirEntry(path, mtime, content, structure) =>
        LeafShaped("path", [Attr("lastmodificationdate", UtcIso(mtime))], path);
        SlotShaped("content", iso, content);
        SlotShaped("structure", iso, structure);
        AllShapedEach(EntryDoc(e, iso).kids, 2);
    }
    BranchShaped(EntryDoc(e, iso).name, [], EntryDoc(e, iso).kids, 2);
  }

  lemma {:induction false} EntriesShaped(entries: seq<Entry>, iso: string)
    ensures AllShaped(EntryDocs(entries, iso), 3)
  {
    if entries != [] {
      hide WellNamed, Height, EntryDoc, EntryDocs, Shaped;
      EntryShaped(entries[0], iso);
      EntriesShaped(entries[1..], iso);
      EntryDocsCons(entries, iso);
    }
  }

  lemma {:induction false} PatternsShaped(patterns: seq<string>)
    ensures AllShaped(PatternDocs(patterns), 1)
  {
    if patterns != [] {
      NameLiterals();
      LeafShaped("pattern", [], patterns[0]);
      hide NameOk, WellNamed, Height;
      PatternsShaped(patterns[1..]);
      assert PatternDocs(patterns)[1..] == PatternDocs(patterns[1..]);
    }
  }

  lemma CreatorShaped(m: ManifestData)
    ensures Shaped(CreatorDoc(m), 5)
  {
    NameLiterals();
    KeyLiterals();
    hide NameOk, KeyOk, UtcIso, WellNamed, Height;
    LeafShaped("creationdate", [], UtcIso(m.created));
    LeafShaped("hostname", [], m.hostname);
    LeafShaped("tool", [Attr("version", m.toolVersion)], "frameprism");
    AllShapedEach(CreatorDoc(m).kids, 4);
    BranchShaped("creatorinfo", [], CreatorDoc(m).kids, 4);
  }

  lemma ProcessShaped(m: ManifestData)
    ensures Shaped(ProcessDoc(m), 5)
  {
    NameLiterals();
    KeyLiterals();
    hide NameOk, KeyOk, UtcIso, WellNamed, Height, Slot, PatternDocs, IGNORE_PATTERNS;
    var iso := UtcIso(m.created);
    var x, y := Slot("content", iso, m.rootContent), Slot("structure", iso, m.rootStructure);
    LeafShaped("process", [], "transfer");
    SlotShaped("content", iso, m.rootContent);
    SlotShaped("structure", iso, m.rootStructure);
    AllShapedEach([x, y], 3);
    BranchShaped("roothash", [], [x, y], 3);
    PatternsShaped(IGNORE_PATTERNS);
    BranchShaped("ignore", [], PatternDocs(IGNORE_PATTERNS), 3);
    AllShapedEach(ProcessDoc(m).kids, 4);
    BranchShaped("processinfo", [], ProcessDoc(m).kids, 4);
  }

  lemma ManifestShaped(m: ManifestData)
    ensures Shaped(ManifestDoc(m), 6)
  {
    NameLiterals();
    KeyLiterals();
    hide NameOk, KeyOk, UtcIso, WellNamed, Height, CreatorDoc, ProcessDoc, EntryDocs;
    CreatorShaped(m);
    ProcessShaped(m);
    EntriesShaped(m.entries, UtcIso(m.created));
    BranchShaped("hashes", [], EntryDocs(m.entries, UtcIso(m.created)), 4);
    AllShapedEach(ManifestDoc(m).kids, 5);
    BranchShaped("hashlist", ManifestDoc(m).attrs, ManifestDoc(m).kids, 5);
  }

  /** Writing a manifest and reading it strictly gives back every recorded value, in order,
      exactly when the manifest is readable: trimmed host name and paths, paths in scope and
      distinct, well-formed identifiers, and something recorded. */
  lemma ManifestReadsBack(m: ManifestData)
    ensures ParseHashlist(ManifestText(m)) == Ok(Faithful(m)) <==> Readable(m)
  {
    hide ParseLite, LayFile, ManifestDoc, Tree, ParseTree, Faithful, Readable, WellNamed, Height;
    ManifestShaped(m);
    LayFileRead(ManifestDoc(m));
    TreeFaithful(m);
  }
}
