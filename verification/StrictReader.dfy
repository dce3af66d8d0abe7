/** What the strict manifest reader accepts (tool/src/ascmhl.rs): exactly the documents of the
    manifest's shape, and of those exactly what they say. */
module StrictReader {
  import opened Prelude
  import opened Xml
  import opened TextLines
  import opened Numerals
  import opened C4Id
  import opened Manifest
  import opened ManifestRoundTrip
  import Utf8

  // ---------------------------------------------------------------------------------------
  // Elements that may occur once
  // ---------------------------------------------------------------------------------------

  ghost predicate NoneNamed(children: seq<XmlEl>, name: string) {
    forall i :: 0 <= i < |children| ==> children[i].name != name
  }

  /** The `i`-th child is the only one of that name. */
  ghost predicate OnlyAt(children: seq<XmlEl>, name: string, i: nat) {
    i < |children| && forall j :: 0 <= j < |children| ==> (children[j].name == name <==> j == i)
  }

  /** What the only child of that name holds, if there is one. */
  ghost predicate Holds<T>(children: seq<XmlEl>, name: string, of: XmlEl -> T, got: Option<T>) {
    match got
    case None => NoneNamed(children, name)
    case Some(v) => exists i: nat :: OnlyAt(children, name, i) && of(children[i]) == v
  }

  /** The same after something has been found already, or not. */
  ghost predicate Fills<T>(children: seq<XmlEl>, name: string, of: XmlEl -> T, before: Option<T>, got: Option<T>) {
    if before.Some? then got == before && NoneNamed(children, name) else Holds(children, name, of, got)
  }

  lemma FillsNothing<T>(name: string, of: XmlEl -> T, before: Option<T>, got: Option<T>)
    ensures Fills([], name, of, before, got) <==> got == before
  {
  }

  lemma NoneCons(children: seq<XmlEl>, name: string)
    requires children != []
    ensures NoneNamed(children, name) <==> children[0].name != name && NoneNamed(children[1..], name)
  {
    assert forall i :: 0 < i < |children| ==> children[i] == children[1..][i - 1];
  }

  lemma FillsStep<T>(children: seq<XmlEl>, name: string, of: XmlEl -> T, before: Option<T>, got: Option<T>)
    requires children != []
    ensures Fills(children, name, of, before, got)
            <==> if children[0].name == name then before.None? && Fills(children[1..], name, of, Some(of(children[0])), got)
                 else Fills(children[1..], name, of, before, got)
  {
    var rest := children[1..];
    NoneCons(children, name);
    assert forall i :: 0 < i < |children| ==> children[i] == rest[i - 1];
    if before.None? && got.Some? {
      if children[0].name == name {
        if Fills(children, name, of, before, got) {
          var i: nat :| OnlyAt(children, name, i) && of(children[i]) == got.value;
          assert i == 0;
        }
        if Fills(rest, name, of, Some(of(children[0])), got) {
          assert OnlyAt(children, name, 0);
        }
      } else {
        if Fills(children, name, of, before, got) {
          var i: nat :| OnlyAt(children, name, i) && of(children[i]) == got.value;
          assert OnlyAt(rest, name, i - 1);
        }
        if Fills(rest, name, of, before, got) {
          var i: nat :| OnlyAt(rest, name, i) && of(rest[i]) == got.value;
          assert OnlyAt(children, name, i + 1);
        }
      }
    }
  }

  function Itself(el: XmlEl): XmlEl {
    el
  }

  function Words(el: XmlEl): string {
    Trim(el.text)
  }

  ghost predicate AllNamed(children: seq<XmlEl>, names: set<string>) {
    forall i :: 0 <= i < |children| ==> children[i].name in names
  }

  lemma AllNamedCons(children: seq<XmlEl>, names: set<string>)
    requires children != []
    ensures AllNamed(children, names) <==> children[0].name in names && AllNamed(children[1..], names)
  {
    assert forall i :: 0 < i < |children| ==> children[i] == children[1..][i - 1];
  }

  // ---------------------------------------------------------------------------------------
  // The creator
  // ---------------------------------------------------------------------------------------

  const CREATOR_NAMES := {"creationdate", "hostname", "tool", "author", "location", "comment"}

  ghost predicate CreatorFills(children: seq<XmlEl>, acc: Creator, c: Creator) {
    && AllNamed(children, CREATOR_NAMES)
    && Fills(children, "creationdate", Words, acc.creationdate, c.creationdate)
    && Fills(children, "hostname", Words, acc.hostname, c.hostname)
    && Fills(children, "tool", Itself, acc.tool, c.tool)
  }

  lemma {:induction false} CreatorRead(children: seq<XmlEl>, acc: Creator, c: Creator)
    ensures ReadCreator(children, acc) == Ok(c) <==> CreatorFills(children, acc, c)
  {
    hide Fills, AllNamed, Words;
    if children == [] {
      FillsNothing("creationdate", Words, acc.creationdate, c.creationdate);
      FillsNothing("hostname", Words, acc.hostname, c.hostname);
      FillsNothing("tool", Itself, acc.tool, c.tool);
      NothingNamed(CREATOR_NAMES);
    } else {
      var ch, rest := children[0], children[1..];
      AllNamedCons(children, CREATOR_NAMES);
      FillsStep(children, "creationdate", Words, acc.creationdate, c.creationdate);
      FillsStep(children, "hostname", Words, acc.hostname, c.hostname);
      FillsStep(children, "tool", Itself, acc.tool, c.tool);
      WordsAre(ch);
      if ch.name == "creationdate" {
        CreatorRead(rest, acc.(creationdate := Some(Trim(ch.text))), c);
      } else if ch.name == "hostname" {
        CreatorRead(rest, acc.(hostname := Some(Trim(ch.text))), c);
      } else if ch.name == "tool" {
        CreatorRead(rest, acc.(tool := Some(ch)), c);
      } else {
        CreatorRead(rest, acc, c);
      }
    }
  }

  lemma WordsAre(el: XmlEl)
    ensures Words(el) == Trim(el.text)
  {
  }

  lemma NothingNamed(names: set<string>)
    ensures AllNamed([], names)
  {
  }

  /** A creator with one date, one host name and one tool, none empty, the tool with a version. */
  ghost predicate CreatorSays(el: XmlEl, info: CreatorInfo) {
    && AllNamed(el.children, CREATOR_NAMES)
    && Holds(el.children, "creationdate", Words, Some(info.creationdate)) && info.creationdate != ""
    && Holds(el.children, "hostname", Words, Some(info.hostname)) && info.hostname != ""
    && exists tool: XmlEl :: Holds(el.children, "tool", Itself, Some(tool)) && ToolSays(tool, info)
  }

  ghost predicate ToolSays(tool: XmlEl, info: CreatorInfo) {
    AttrOf(tool, "version") == Some(info.toolVersion) && info.toolVersion != "" && Trim(tool.text) == info.tool != ""
  }

  lemma CreatorExactly(el: XmlEl, info: CreatorInfo)
    ensures ParseCreator(el) == Ok(info) <==> CreatorSays(el, info)
  {
    hide Holds, AllNamed, ReadCreator, Trim, AttrOf;
    var none := Creator(None, None, None);
    if ParseCreator(el) == Ok(info) {
      var c := ReadCreator(el.children, none).value;
      CreatorRead(el.children, none, c);
      assert ToolSays(c.tool.value, info);
    }
    if CreatorSays(el, info) {
      var tool: XmlEl :| Holds(el.children, "tool", Itself, Some(tool)) && ToolSays(tool, info);
      CreatorRead(el.children, none, Creator(Some(info.creationdate), Some(info.hostname), Some(tool)));
    }
  }

  // ---------------------------------------------------------------------------------------
  // The process, its root hashes and patterns
  // ---------------------------------------------------------------------------------------

  const PROCESS_NAMES := {"process", "roothash", "ignore"}

  ghost predicate ProcessFills(children: seq<XmlEl>, acc: Process, p: Process) {
    && AllNamed(children, PROCESS_NAMES)
    && Fills(children, "process", Itself, acc.process, p.process)
    && Fills(children, "roothash", Itself, acc.roothash, p.roothash)
    && Fills(children, "ignore", Itself, acc.ignore, p.ignore)
  }

  lemma {:induction false} ProcessRead(children: seq<XmlEl>, acc: Process, p: Process)
    ensures ReadProcess(children, acc) == Ok(p) <==> ProcessFills(children, acc, p)
  {
    hide Fills, AllNamed;
    if children == [] {
      FillsNothing("process", Itself, acc.process, p.process);
      FillsNothing("roothash", Itself, acc.roothash, p.roothash);
      FillsNothing("ignore", Itself, acc.ignore, p.ignore);
      NothingNamed(PROCESS_NAMES);
    } else {
      var ch, rest := children[0], children[1..];
      AllNamedCons(children, PROCESS_NAMES);
      FillsStep(children, "process", Itself, acc.process, p.process);
      FillsStep(children, "roothash", Itself, acc.roothash, p.roothash);
      FillsStep(children, "ignore", Itself, acc.ignore, p.ignore);
      if ch.name == "process" {
        ProcessRead(rest, acc.(process := Some(ch)), p);
      } else if ch.name == "roothash" {
        ProcessRead(rest, acc.(roothash := Some(ch)), p);
      } else if ch.name == "ignore" {
        ProcessRead(rest, acc.(ignore := Some(ch)), p);
      }
    }
  }

  /** An attribute that is there and not empty. */
  ghost predicate Given(el: XmlEl, key: string, v: string) {
    AttrOf(el, key) == Some(v) && v != ""
  }

  /** A container of one well-formed identifier with a date. */
  ghost predicate SlotSays(slot: XmlEl, name: string, c4: string) {
    && slot.name == name && |slot.children| == 1 && slot.children[0].name == "c4"
    && (exists date: string :: Given(slot.children[0], "hashdate", date))
    && Trim(slot.children[0].text) == c4 && WellFormed(c4)
  }

  lemma SlotExactly(slot: XmlEl, c4: string)
    ensures SlotC4(slot) == Ok(c4) <==> SlotSays(slot, slot.name, c4)
  {
    hide Trim, CheckC4, WellFormed, AttrOf;
    CheckC4Accepts(c4);
    if SlotC4(slot) == Ok(c4) {
      assert Given(slot.children[0], "hashdate", AttrOf(slot.children[0], "hashdate").value);
    }
  }

  ghost predicate PatternsSay(children: seq<XmlEl>, patterns: seq<string>) {
    && |patterns| == |children|
    && forall i :: 0 <= i < |children| ==> children[i].name == "pattern" && patterns[i] == Words(children[i]) && patterns[i] != ""
  }

  lemma {:induction false} PatternsExactly(children: seq<XmlEl>, patterns: seq<string>)
    ensures ReadPatterns(children) == Ok(patterns) <==> PatternsSay(children, patterns)
  {
    hide Trim;
    if children != [] {
      assert forall i :: 0 < i < |children| ==> children[i] == children[1..][i - 1];
      if ReadPatterns(children) == Ok(patterns) {
        PatternsExactly(children[1..], patterns[1..]);
        assert forall i :: 0 < i < |patterns| ==> patterns[i] == patterns[1..][i - 1];
      }
      if PatternsSay(children, patterns) {
        PatternsExactly(children[1..], patterns[1..]);
        assert patterns == [patterns[0]] + patterns[1..];
      }
    }
  }

  ghost predicate RootSays(root: XmlEl, content: string, structure: string) {
    |root.children| == 2 && SlotSays(root.children[0], "content", content) && SlotSays(root.children[1], "structure", structure)
  }

  ghost predicate ProcessSays(el: XmlEl, info: ProcessInfo) {
    && AllNamed(el.children, PROCESS_NAMES) && info.process != "" && info.ignore != []
    && exists process: XmlEl, root: XmlEl, ignore: XmlEl :: ProcessParts(el, info, process, root, ignore)
  }

  ghost predicate ProcessParts(el: XmlEl, info: ProcessInfo, process: XmlEl, root: XmlEl, ignore: XmlEl) {
    && Holds(el.children, "process", Itself, Some(process)) && Words(process) == info.process
    && Holds(el.children, "roothash", Itself, Some(root)) && RootSays(root, info.rootContent, info.rootStructure)
    && Holds(el.children, "ignore", Itself, Some(ignore)) && PatternsSay(ignore.children, info.ignore)
  }

  lemma ProcessExactly(el: XmlEl, info: ProcessInfo)
    ensures ParseProcess(el) == Ok(info) <==> ProcessSays(el, info)
  {
    hide Holds, AllNamed, ReadProcess, ReadPatterns, PatternsSay, SlotC4, SlotSays, Words, Trim;
    var none := Process(None, None, None);
    if ParseProcess(el) == Ok(info) {
      var p := ReadProcess(el.children, none).value;
      ProcessRead(el.children, none, p);
      RootParts(p.roothash.value, info.rootContent, info.rootStructure);
      PatternsExactly(p.ignore.value.children, info.ignore);
      WordsAre(p.process.value);
      assert ProcessParts(el, info, p.process.value, p.roothash.value, p.ignore.value);
    }
    if ProcessSays(el, info) {
      var process: XmlEl, root: XmlEl, ignore: XmlEl :| ProcessParts(el, info, process, root, ignore);
      ProcessRead(el.children, none, Process(Some(process), Some(root), Some(ignore)));
      RootParts(root, info.rootContent, info.rootStructure);
      PatternsExactly(ignore.children, info.ignore);
      WordsAre(process);
    }
  }

  lemma RootParts(root: XmlEl, content: string, structure: string)
    requires |root.children| == 2
    ensures RootSays(root, content, structure)
            <==> && root.children[0].name == "content" && SlotC4(root.children[0]) == Ok(content)
                 && root.children[1].name == "structure" && SlotC4(root.children[1]) == Ok(structure)
  {
    hide SlotC4;
    SlotExactly(root.children[0], content);
    SlotExactly(root.children[1], structure);
  }

  // ---------------------------------------------------------------------------------------
  // The rows
  // ---------------------------------------------------------------------------------------

  /** Relative, and never up. */
  predicate InScope(path: string) {
    path != "" && path[0] != '/' && forall c :: c in Split(path, '/') ==> c != ".."
  }

  ghost predicate SizeSays(el: XmlEl, size: nat) {
    exists text: string :: Given(el, "size", text) && ParseUnsigned(10, U64_LIMIT, text) == Some(size)
  }

  ghost predicate Dated(el: XmlEl) {
    exists date: string :: Given(el, "hashdate", date)
  }

  ghost predicate FileSays(el: XmlEl, f: HashFile) {
    && el.name == "hash" && |el.children| == 2 && el.children[0].name == "path" && el.children[1].name == "c4"
    && Trim(el.children[0].text) == f.path && InScope(f.path)
    && SizeSays(el.children[0], f.size) && Given(el.children[0], "lastmodificationdate", f.mtime)
    && AttrOf(el.children[1], "action") in {Some("original"), Some("verified"), Some("failed")} && Dated(el.children[1])
    && Trim(el.children[1].text) == f.c4 && WellFormed(f.c4)
  }

  ghost predicate DirSays(el: XmlEl, d: HashDir) {
    && el.name == "directoryhash" && |el.children| == 3 && el.children[0].name == "path"
    && Trim(el.children[0].text) == d.path && InScope(d.path)
    && Given(el.children[0], "lastmodificationdate", d.mtime) && AttrOf(el.children[0], "size") == None
    && SlotSays(el.children[1], "content", d.content) && SlotSays(el.children[2], "structure", d.structure)
  }

  ghost predicate RowSays(el: XmlEl, row: Row) {
    match row
    case FileRow(f) => FileSays(el, f)
    case DirRow(d) => DirSays(el, d)
  }

  lemma PathExactly(el: XmlEl, seen: set<string>, path: string)
    ensures RowPath(el, seen) == Ok(path) <==> Trim(el.text) == path && InScope(path) && path !in seen
  {
    hide Trim, Split;
  }

  lemma FileExactly(el: XmlEl, seen: set<string>, f: HashFile)
    requires el.name == "hash"
    ensures ParseFileRow(el, seen) == Ok(FileRow(f)) <==> FileSays(el, f) && f.path !in seen
    ensures ParseFileRow(el, seen).Ok? ==> ParseFileRow(el, seen).value.FileRow?
  {
    hide Trim, Split, AttrOf, CheckC4, WellFormed, ParseUnsigned, RowPath, InScope;
    if |el.children| == 2 {
      PathExactly(el.children[0], seen, f.path);
      CheckC4Accepts(f.c4);
      var p, c := el.children[0], el.children[1];
      if AttrOf(p, "size").Some? {
        assert Given(p, "size", AttrOf(p, "size").value) <==> AttrOf(p, "size").value != "";
      }
      if AttrOf(c, "hashdate").Some? {
        assert Given(c, "hashdate", AttrOf(c, "hashdate").value) <==> AttrOf(c, "hashdate").value != "";
      }
    }
  }

  lemma DirExactly(el: XmlEl, seen: set<string>, d: HashDir)
    requires el.name == "directoryhash"
    ensures ParseDirRow(el, seen) == Ok(DirRow(d)) <==> DirSays(el, d) && d.path !in seen
    ensures ParseDirRow(el, seen).Ok? ==> ParseDirRow(el, seen).value.DirRow?
  {
    hide Trim, Split, AttrOf, SlotC4, RowPath, InScope;
    if |el.children| == 3 {
      PathExactly(el.children[0], seen, d.path);
      SlotExactly(el.children[1], d.content);
      SlotExactly(el.children[2], d.structure);
    }
  }

  lemma RowExactly(el: XmlEl, seen: set<string>, row: Row)
    ensures ParseRow(el, seen) == Ok(row) <==> RowSays(el, row) && row.Path() !in seen
  {
    hide FileSays, DirSays, ParseFileRow, ParseDirRow;
    NamesOfRows(el, row);
    if el.name == "hash" {
      match row {
        case FileRow(f) => FileExactly(el, seen, f);
        case DirRow(d) => FileExactly(el, seen, HashFile("", 0, "", ""));
      }
    } else if el.name == "directoryhash" {
      match row {
        case DirRow(d) => DirExactly(el, seen, d);
        case FileRow(f) => DirExactly(el, seen, HashDir("", "", "", ""));
      }
    }
  }

  lemma NamesOfRows(el: XmlEl, row: Row)
    ensures RowSays(el, row) ==> el.name == if row.FileRow? then "hash" else "directoryhash"
  {
  }

  /** Every row says what was read, and no path is taken twice. */
  ghost predicate RowsSay(els: seq<XmlEl>, rows: seq<Row>) {
    && |rows| == |els| && (forall i :: 0 <= i < |els| ==> RowSays(els[i], rows[i]))
    && forall i, j :: 0 <= i < j < |rows| ==> rows[i].Path() != rows[j].Path()
  }

  lemma {:induction false} RowsExactly(els: seq<XmlEl>, seen: set<string>, rows: seq<Row>)
    ensures ReadRows(els, seen) == Ok(rows)
            <==> RowsSay(els, rows) && forall i :: 0 <= i < |rows| ==> rows[i].Path() !in seen
  {
    hide ParseRow, RowSays, Row.Path;
    if els != [] {
      assert forall i :: 0 < i < |els| ==> els[i] == els[1..][i - 1];
      if ReadRows(els, seen) == Ok(rows) {
        RowExactly(els[0], seen, rows[0]);
        RowsExactly(els[1..], seen + {rows[0].Path()}, rows[1..]);
        assert forall i :: 0 < i < |rows| ==> rows[i] == rows[1..][i - 1];
      }
      if RowsSay(els, rows) && forall i :: 0 <= i < |rows| ==> rows[i].Path() !in seen {
        assert rows == [rows[0]] + rows[1..];
        RowExactly(els[0], seen, rows[0]);
        RowsExactly(els[1..], seen + {rows[0].Path()}, rows[1..]);
      }
    }
  }

  // ---------------------------------------------------------------------------------------
  // Why a path or an identifier is refused
  // ---------------------------------------------------------------------------------------

  /** Each refusal of a path exactly for its reason. */
  lemma PathRefused(el: XmlEl, seen: set<string>)
    ensures var path, r := Trim(el.text), RowPath(el, seen);
            && (r == Err(EmptyPath) <==> path == "")
            && (r == Err(AbsolutePath) <==> path != "" && path[0] == '/')
            && (r == Err(ParentPath) <==> path != "" && path[0] != '/' && ".." in Split(path, '/'))
            && (r == Err(DuplicatePath) <==> InScope(path) && path in seen)
            && (r.Ok? <==> InScope(path) && path !in seen)
  {
    hide Trim, Split;
  }

  /** Each refusal of an identifier exactly for its reason: its prefix, its length in octets, or a
      character outside the alphabet. */
  lemma IdentifierRefused(v: string)
    ensures var r := CheckC4(v);
            && (r == Err(C4Prefix) <==> !("c4" <= v))
            && (r == Err(C4Length) <==> "c4" <= v && |Utf8.Octets(v[2..])| != 88)
            && (r == Err(C4Charset) <==> "c4" <= v && |Utf8.Octets(v[2..])| == 88 && exists c :: c in v[2..] && !IsDigit(c))
  {
    hide Utf8.Octets, CHARSET, IsDigit;
    if "c4" <= v {
      forall c | c in v[2..]
        ensures c in CHARSET <==> IsDigit(c)
      {
        InCharset(c);
      }
    }
  }

  // ---------------------------------------------------------------------------------------
  // The document
  // ---------------------------------------------------------------------------------------

  const LIST_NAMES := {"creatorinfo", "processinfo", "hashes"}

  lemma {:induction false} ForeignExactly(children: seq<XmlEl>)
    ensures FirstForeign(children).None? <==> AllNamed(children, LIST_NAMES)
  {
    hide AllNamed;
    if children == [] {
      NothingNamed(LIST_NAMES);
    } else {
      AllNamedCons(children, LIST_NAMES);
      ForeignExactly(children[1..]);
    }
  }

  lemma {:induction false} CountNone(children: seq<XmlEl>, name: string)
    ensures Count(children, name) == 0 <==> NoneNamed(children, name)
  {
    if children != [] {
      NoneCons(children, name);
      CountNone(children[1..], name);
    }
  }

  /** At most one child of a name, and which. */
  lemma {:induction false} OnceExactly(children: seq<XmlEl>, name: string, got: Option<XmlEl>)
    ensures Count(children, name) <= 1 && FirstNamed(children, name) == got <==> Holds(children, name, Itself, got)
  {
    hide Holds, NoneNamed;
    if children == [] {
      FillsNothing(name, Itself, None, got);
    } else {
      FillsStep(children, name, Itself, None, got);
      CountNone(children[1..], name);
      FillsSome(children[1..], name, children[0], got);
      OnceExactly(children[1..], name, got);
    }
  }

  lemma FillsSome(children: seq<XmlEl>, name: string, el: XmlEl, got: Option<XmlEl>)
    ensures Fills(children, name, Itself, Some(el), got) <==> got == Some(el) && NoneNamed(children, name)
  {
  }

  /** A document of the manifest's shape, what it says, and its rows in order. */
  ghost predicate ListSays(root: XmlEl, hl: Hashlist, rows: seq<Row>) {
    && root.name == "hashlist" && AttrOf(root, "version") == Some("2.0") && AttrOf(root, "xmlns") == Some("urn:ASC:MHL:v2.0")
    && AllNamed(root.children, LIST_NAMES)
    && (exists el: XmlEl :: Holds(root.children, "creatorinfo", Itself, Some(el))
                            && CreatorSays(el, CreatorInfo(hl.creationdate, hl.hostname, hl.tool, hl.toolVersion)))
    && (exists el: XmlEl :: Holds(root.children, "processinfo", Itself, Some(el))
                            && ProcessSays(el, ProcessInfo(hl.process, hl.rootContent, hl.rootStructure, hl.ignore)))
    && (exists el: XmlEl :: Holds(root.children, "hashes", Itself, Some(el)) && RowsSay(el.children, rows))
    && rows != [] && hl.files == FilesOf(rows) && hl.dirs == DirsOf(rows)
  }

  /** The reader accepts a document exactly if it has the shape, and returns what it says. */
  lemma AcceptsExactly(root: XmlEl, hl: Hashlist)
    ensures ParseTree(root) == Ok(hl) <==> exists rows: seq<Row> :: ListSays(root, hl, rows)
  {
    hide Holds, AllNamed, AttrOf, CreatorSays, ProcessSays, ParseCreator, ParseProcess, ReadRows, RowsSay, Count, FirstNamed, FirstForeign, FilesOf, DirsOf;
    var kids := root.children;
    var creator, process := CreatorInfo(hl.creationdate, hl.hostname, hl.tool, hl.toolVersion), ProcessInfo(hl.process, hl.rootContent, hl.rootStructure, hl.ignore);
    ForeignExactly(kids);
    OnceExactly(kids, "hashes", FirstNamed(kids, "hashes"));
    if ParseTree(root) == Ok(hl) {
      CountedIsFound(kids, "creatorinfo");
      CountedIsFound(kids, "processinfo");
      var c, p, h := FirstNamed(kids, "creatorinfo"), FirstNamed(kids, "processinfo"), FirstNamed(kids, "hashes");
      OnceExactly(kids, "creatorinfo", c);
      OnceExactly(kids, "processinfo", p);
      CreatorExactly(c.value, creator);
      ProcessExactly(p.value, process);
      var rows := ReadRows(if h.Some? then h.value.children else [], {}).value;
      NoRowsRead();
      RowsExactly(h.value.children, {}, rows);
      assert ListSays(root, hl, rows);
    }
    if exists rows: seq<Row> :: ListSays(root, hl, rows) {
      var rows: seq<Row> :| ListSays(root, hl, rows);
      var c: XmlEl :| Holds(kids, "creatorinfo", Itself, Some(c)) && CreatorSays(c, creator);
      var p: XmlEl :| Holds(kids, "processinfo", Itself, Some(p)) && ProcessSays(p, process);
      var h: XmlEl :| Holds(kids, "hashes", Itself, Some(h)) && RowsSay(h.children, rows);
      OnceExactly(kids, "creatorinfo", Some(c));
      OnceExactly(kids, "processinfo", Some(p));
      OnceExactly(kids, "hashes", Some(h));
      FoundIsCounted(kids, "creatorinfo");
      FoundIsCounted(kids, "processinfo");
      CreatorExactly(c, creator);
      ProcessExactly(p, process);
      RowsExactly(h.children, {}, rows);
    }
  }

  lemma {:induction false} FoundIsCounted(children: seq<XmlEl>, name: string)
    requires FirstNamed(children, name).Some?
    ensures Count(children, name) > 0
  {
    if children[0].name != name {
      FoundIsCounted(children[1..], name);
    }
  }

  lemma NoRowsRead()
    ensures ReadRows([], {}) == Ok([])
  {
  }
}
