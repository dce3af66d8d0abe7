/** The MHL manifest of tool/src/ascmhl.rs: its data, its exact text, and the strict reader. */
module Manifest {
  import opened Prelude
  import opened Xml
  import opened XmlDocs
  import opened Numerals
  import opened C4Id
  import opened TextLines
  import Utf8

  const IGNORE_PATTERNS: seq<string> := [
    ".DS_Store", "ascmhl", "._*",
    "*.offload-manifest.tsv", "*.ingest-manifest.tsv", "*.reel-manifest.tsv", "*.bake-manifest.tsv",
    "*.derive-manifest.tsv", "*.members.tsv", "*.checksums.tsv", "*.jxl-checksums.tsv", "*.sources.tsv",
    "*.qc.tsv", "*.frameprism-report.md", ".frameprism-run-report.md", ".frameprism-job-report.md",
    ".frameprism-job-report.csv", ".frameprism-job-report.html", "*.sig"
  ]

  const U64_LIMIT: nat := 0x1_0000_0000_0000_0000

  // ---------------------------------------------------------------------------------------
  // Data
  // ---------------------------------------------------------------------------------------

  datatype Entry =
    | FileEntry(path: string, size: nat, mtime: nat, c4: string)
    | DirEntry(path: string, mtime: nat, content: string, structure: string)

  datatype ManifestData = ManifestData(
    folder: string, created: nat, hostname: string, toolVersion: string,
    rootContent: string, rootStructure: string, entries: seq<Entry>)

  datatype HashFile = HashFile(path: string, size: nat, mtime: string, c4: string)
  datatype HashDir = HashDir(path: string, mtime: string, content: string, structure: string)

  datatype Hashlist = Hashlist(
    creationdate: string, hostname: string, tool: string, toolVersion: string, process: string,
    rootContent: string, rootStructure: string, ignore: seq<string>, files: seq<HashFile>, dirs: seq<HashDir>)

  /** `NNNN_<folder>_<stamp>.mhl` */
  function ManifestName(folder: string, created: nat, generation: nat): string {
    Padded(10, 4, generation) + "_" + folder + "_" + UtcFilenameStamp(created) + ".mhl"
  }

  // ---------------------------------------------------------------------------------------
  // The manifest as a document
  // ---------------------------------------------------------------------------------------

  function Slot(name: string, iso: string, c4: string): Doc {
    Branch(name, [], [Leaf("c4", [Attr("hashdate", iso)], c4)])
  }

  function CreatorDoc(m: ManifestData): Doc {
    Branch("creatorinfo", [], [
      Leaf("creationdate", [], UtcIso(m.created)),
      Leaf("hostname", [], m.hostname),
      Leaf("tool", [Attr("version", m.toolVersion)], "frameprism")])
  }

  function PatternDocs(patterns: seq<string>): (r: seq<Doc>)
    ensures |r| == |patterns|
  {
    if patterns == [] then [] else [Leaf("pattern", [], patterns[0])] + PatternDocs(patterns[1..])
  }

  function ProcessDoc(m: ManifestData): Doc {
    var iso := UtcIso(m.created);
    Branch("processinfo", [], [
      Leaf("process", [], "transfer"),
      Branch("roothash", [], [Slot("content", iso, m.rootContent), Slot("structure", iso, m.rootStructure)]),
      Branch("ignore", [], PatternDocs(IGNORE_PATTERNS))])
  }

  function EntryDoc(e: Entry, iso: string): Doc {
    match e
    case FileEntry(path, size, mtime, c4) =>
      Branch("hash", [], [
        Leaf("path", [Attr("size", Dec(size)), Attr("lastmodificationdate", UtcIso(mtime))], path),
        Leaf("c4", [Attr("action", "original"), Attr("hashdate", iso)], c4)])
    case DirEntry(path, mtime, content, structure) =>
      Branch("directoryhash", [], [
        Leaf("path", [Attr("lastmodificationdate", UtcIso(mtime))], path),
        Slot("content", iso, content), Slot("structure", iso, structure)])
  }

  function EntryDocs(entries: seq<Entry>, iso: string): (r: seq<Doc>)
    ensures |r| == |entries|
  {
    if entries == [] then [] else [EntryDoc(entries[0], iso)] + EntryDocs(entries[1..], iso)
  }

  /** No `hashes` element over an empty managed set. */
  function HashesDocs(m: ManifestData): seq<Doc> {
    if m.entries == [] then [] else [Branch("hashes", [], EntryDocs(m.entries, UtcIso(m.created)))]
  }

  function ManifestDoc(m: ManifestData): Doc {
    Branch("hashlist", [Attr("version", "2.0"), Attr("xmlns", "urn:ASC:MHL:v2.0")],
           [CreatorDoc(m), ProcessDoc(m)] + HashesDocs(m))
  }

  /** The manifest's text. */
  function ManifestText(m: ManifestData): string {
    LayFile(ManifestDoc(m))
  }

  // ---------------------------------------------------------------------------------------
  // The strict reader
  // ---------------------------------------------------------------------------------------

  datatype MhlError =
    | BadXml(xml: XmlError) | WrongRoot | WrongVersion | WrongNamespace
    | Unexpected(parent: string, name: string) | NotExactlyOne(name: string) | Repeated(name: string)
    | MissingElement(name: string) | EmptyElement(name: string) | MissingAttribute(element: string, key: string)
    | MalformedRow(name: string) | MalformedRoothash | MalformedSlot
    | C4Prefix | C4Length | C4Charset
    | EmptyPath | AbsolutePath | ParentPath | DuplicatePath
    | BadSize | BadAction | SizeOnDirectory | NoPatterns | NothingCovered

  /** The C4ID shape check. Lengths are counted in octets. */
  function CheckC4(value: string): Result<(), MhlError> {
    if !("c4" <= value) then Err(C4Prefix)
    else if |Utf8.Octets(value[2..])| != 88 then Err(C4Length)
    else if forall c :: c in value[2..] ==> c in CHARSET then Ok(())
    else Err(C4Charset)
  }

  function CheckInScope(path: string): Result<(), MhlError> {
    if path == "" then Err(EmptyPath)
    else if path[0] == '/' then Err(AbsolutePath)
    else if ".." in Split(path, '/') then Err(ParentPath)
    else Ok(())
  }

  /** An attribute that must be there and not be empty. */
  function Present(el: XmlEl, key: string): Result<string, MhlError> {
    match AttrOf(el, key)
    case Some(v) => if v == "" then Err(MissingAttribute(el.name, key)) else Ok(v)
    case None => Err(MissingAttribute(el.name, key))
  }

  /** The one `c4` of a content or structure container. */
  function SlotC4(slot: XmlEl): Result<string, MhlError> {
    if |slot.children| != 1 || slot.children[0].name != "c4" then Err(MalformedSlot)
    else
      var el := slot.children[0];
      var _ :- Present(el, "hashdate");
      var v := Trim(el.text);
      var _ :- CheckC4(v);
      Ok(v)
  }

  datatype Creator = Creator(creationdate: Option<string>, hostname: Option<string>, tool: Option<XmlEl>)

  function ReadCreator(children: seq<XmlEl>, acc: Creator): Result<Creator, MhlError> {
    if children == [] then Ok(acc)
    else
      var ch, rest := children[0], children[1..];
      if ch.name == "creationdate" then
        if acc.creationdate.Some? then Err(Repeated(ch.name))
        else ReadCreator(rest, acc.(creationdate := Some(Trim(ch.text))))
      else if ch.name == "hostname" then
        if acc.hostname.Some? then Err(Repeated(ch.name))
        else ReadCreator(rest, acc.(hostname := Some(Trim(ch.text))))
      else if ch.name == "tool" then
        if acc.tool.Some? then Err(Repeated(ch.name))
        else ReadCreator(rest, acc.(tool := Some(ch)))
      else if ch.name == "author" || ch.name == "location" || ch.name == "comment" then ReadCreator(rest, acc)
      else Err(Unexpected("creatorinfo", ch.name))
  }

  datatype CreatorInfo = CreatorInfo(creationdate: string, hostname: string, tool: string, toolVersion: string)

  function ParseCreator(creator: XmlEl): Result<CreatorInfo, MhlError> {
    var c :- ReadCreator(creator.children, Creator(None, None, None));
    match c.tool
    case None => Err(MissingElement("tool"))
    case Some(toolEl) =>
      var version :- Present(toolEl, "version");
      var tool := Trim(toolEl.text);
      if tool == "" then Err(EmptyElement("tool"))
      else if c.creationdate.None? || c.creationdate.value == "" then Err(MissingElement("creationdate"))
      else if c.hostname.None? || c.hostname.value == "" then Err(MissingElement("hostname"))
      else Ok(CreatorInfo(c.creationdate.value, c.hostname.value, tool, version))
  }

  datatype Process = Process(process: Option<XmlEl>, roothash: Option<XmlEl>, ignore: Option<XmlEl>)

  function ReadProcess(children: seq<XmlEl>, acc: Process): Result<Process, MhlError> {
    if children == [] then Ok(acc)
    else
      var ch, rest := children[0], children[1..];
      if ch.name == "process" then
        if acc.process.Some? then Err(Repeated(ch.name)) else ReadProcess(rest, acc.(process := Some(ch)))
      else if ch.name == "roothash" then
        if acc.roothash.Some? then Err(Repeated(ch.name)) else ReadProcess(rest, acc.(roothash := Some(ch)))
      else if ch.name == "ignore" then
        if acc.ignore.Some? then Err(Repeated(ch.name)) else ReadProcess(rest, acc.(ignore := Some(ch)))
      else Err(Unexpected("processinfo", ch.name))
  }

  function ReadPatterns(children: seq<XmlEl>): Result<seq<string>, MhlError> {
    if children == [] then Ok([])
    else if children[0].name != "pattern" then Err(Unexpected("ignore", children[0].name))
    else
      var p := Trim(children[0].text);
      if p == "" then Err(EmptyElement("pattern"))
      else
        var rest :- ReadPatterns(children[1..]);
        Ok([p] + rest)
  }

  datatype ProcessInfo = ProcessInfo(process: string, rootContent: string, rootStructure: string, ignore: seq<string>)

  function ParseProcess(process: XmlEl): Result<ProcessInfo, MhlError> {
    var p :- ReadProcess(process.children, Process(None, None, None));
    if p.process.None? then Err(MissingElement("process"))
    else if p.roothash.None? then Err(MissingElement("roothash"))
    else if p.ignore.None? then Err(MissingElement("ignore"))
    else
      var name := Trim(p.process.value.text);
      var root := p.roothash.value;
      if name == "" then Err(EmptyElement("process"))
      else if |root.children| != 2 || root.children[0].name != "content" || root.children[1].name != "structure"
      then Err(MalformedRoothash)
      else
        var content :- SlotC4(root.children[0]);
        var structure :- SlotC4(root.children[1]);
        var ignore :- ReadPatterns(p.ignore.value.children);
        if ignore == [] then Err(NoPatterns) else Ok(ProcessInfo(name, content, structure, ignore))
  }

  datatype Row = FileRow(file: HashFile) | DirRow(dir: HashDir) {
    function Path(): string {
      if FileRow? then file.path else dir.path
    }
  }

  /** The path of a row, when it may be taken: in scope and not seen before. */
  function RowPath(el: XmlEl, seen: set<string>): Result<string, MhlError> {
    var path := Trim(el.text);
    var _ :- CheckInScope(path);
    if path in seen then Err(DuplicatePath) else Ok(path)
  }

  function ParseFileRow(row: XmlEl, seen: set<string>): Result<Row, MhlError> {
    if |row.children| != 2 || row.children[0].name != "path" || row.children[1].name != "c4"
    then Err(MalformedRow(row.name))
    else
      var pathEl, c4El := row.children[0], row.children[1];
      var path :- RowPath(pathEl, seen);
      var sizeText :- Present(pathEl, "size");
      match ParseUnsigned(10, U64_LIMIT, sizeText)
      case None => Err(BadSize)
      case Some(size) =>
        var mtime :- Present(pathEl, "lastmodificationdate");
        var action := AttrOf(c4El, "action");
        if action != Some("original") && action != Some("verified") && action != Some("failed") then Err(BadAction)
        else
          var _ :- Present(c4El, "hashdate");
          var c4 := Trim(c4El.text);
          var _ :- CheckC4(c4);
          Ok(FileRow(HashFile(path, size, mtime, c4)))
  }

  function ParseDirRow(row: XmlEl, seen: set<string>): Result<Row, MhlError> {
    if |row.children| != 3 || row.children[0].name != "path" || row.children[1].name != "content"
       || row.children[2].name != "structure"
    then Err(MalformedRow(row.name))
    else
      var pathEl := row.children[0];
      var path :- RowPath(pathEl, seen);
      var mtime :- Present(pathEl, "lastmodificationdate");
      if AttrOf(pathEl, "size").Some? then Err(SizeOnDirectory)
      else
        var content :- SlotC4(row.children[1]);
        var structure :- SlotC4(row.children[2]);
        Ok(DirRow(HashDir(path, mtime, content, structure)))
  }

  function ParseRow(row: XmlEl, seen: set<string>): Result<Row, MhlError> {
    if row.name == "hash" then ParseFileRow(row, seen)
    else if row.name == "directoryhash" then ParseDirRow(row, seen)
    else Err(Unexpected("hashes", row.name))
  }

  function ReadRows(rows: seq<XmlEl>, seen: set<string>): Result<seq<Row>, MhlError> {
    if rows == [] then Ok([])
    else
      var row :- ParseRow(rows[0], seen);
      var rest :- ReadRows(rows[1..], seen + {row.Path()});
      Ok([row] + rest)
  }

  function FilesOf(rows: seq<Row>): seq<HashFile> {
    if rows == [] then [] else (if rows[0].FileRow? then [rows[0].file] else []) + FilesOf(rows[1..])
  }

  function DirsOf(rows: seq<Row>): seq<HashDir> {
    if rows == [] then [] else (if rows[0].DirRow? then [rows[0].dir] else []) + DirsOf(rows[1..])
  }

  function Count(children: seq<XmlEl>, name: string): nat {
    if children == [] then 0 else (if children[0].name == name then 1 else 0) + Count(children[1..], name)
  }

  function FirstNamed(children: seq<XmlEl>, name: string): Option<XmlEl> {
    if children == [] then None
    else if children[0].name == name then Some(children[0])
    else FirstNamed(children[1..], name)
  }

  lemma CountedIsFound(children: seq<XmlEl>, name: string)
    requires Count(children, name) > 0
    ensures FirstNamed(children, name).Some?
  {
  }

  function FirstForeign(children: seq<XmlEl>): Option<string> {
    if children == [] then None
    else if children[0].name == "creatorinfo" || children[0].name == "processinfo" || children[0].name == "hashes"
    then FirstForeign(children[1..])
    else Some(children[0].name)
  }

  function ParseTree(root: XmlEl): Result<Hashlist, MhlError> {
    var kids := root.children;
    if root.name != "hashlist" then Err(WrongRoot)
    else if AttrOf(root, "version") != Some("2.0") then Err(WrongVersion)
    else if AttrOf(root, "xmlns") != Some("urn:ASC:MHL:v2.0") then Err(WrongNamespace)
    else if FirstForeign(kids).Some? then Err(Unexpected("hashlist", FirstForeign(kids).value))
    else if Count(kids, "creatorinfo") != 1 then Err(NotExactlyOne("creatorinfo"))
    else if Count(kids, "processinfo") != 1 then Err(NotExactlyOne("processinfo"))
    else if Count(kids, "hashes") > 1 then Err(Repeated("hashes"))
    else
      CountedIsFound(kids, "creatorinfo");
      CountedIsFound(kids, "processinfo");
      var creator :- ParseCreator(FirstNamed(kids, "creatorinfo").value);
      var process :- ParseProcess(FirstNamed(kids, "processinfo").value);
      var hashes := FirstNamed(kids, "hashes");
      var rows :- ReadRows(if hashes.Some? then hashes.value.children else [], {});
      if rows == [] then Err(NothingCovered)
      else
        Ok(Hashlist(creator.creationdate, creator.hostname, creator.tool, creator.toolVersion, process.process,
                    process.rootContent, process.rootStructure, process.ignore, FilesOf(rows), DirsOf(rows)))
  }

  function ParseHashlist(src: string): Result<Hashlist, MhlError> {
    match ParseLite(src)
    case Err(e) => Err(BadXml(e))
    case Ok(root) => ParseTree(root)
  }
}
