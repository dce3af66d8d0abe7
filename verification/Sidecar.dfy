/** The checksum sidecar of tool/src/checksums.rs: the version 3 writer, the verifier that
    accepts it, and what the verifier reports about the files on disk. */
module Sidecar {
  import opened Prelude
  import opened Sorting
  import opened Xml
  import opened TextLines
  import opened Numerals
  import opened Seal
  import opened C4Id
  import Crc32c

  const V3_MAGIC := "# frameprism checksums sidecar"
  const V3_COLUMNS := "file\t" + "size\t" + "crc32c\t" + "sha256\t" + "timecode\t" + "framerate\t" + "iso\t" + "exposure"
  const U32_LIMIT: nat := 0x1_0000_0000
  const U64_LIMIT: nat := 0x1_0000_0000_0000_0000

  // ---------------------------------------------------------------------------------------
  // Writing
  // ---------------------------------------------------------------------------------------

  datatype SidecarRow = SidecarRow(file: string, size: nat, crc: nat, sha: string, timecode: string, framerate: string, iso: string, exposure: string)

  /** A row's columns, tab-separated, without the line feed. */
  function RowText(r: SidecarRow): string {
    r.file + "\t" + Dec(r.size) + "\t" + Padded(16, 8, r.crc) + "\t"
    + (r.sha + "\t" + r.timecode + "\t" + r.framerate + "\t" + r.iso + "\t" + r.exposure)
  }

  predicate RowLe(a: SidecarRow, b: SidecarRow) {
    StringLe(a.file, b.file)
  }

  function RowLines(rows: seq<SidecarRow>): string {
    if rows == [] then "" else RowText(rows[0]) + "\n" + RowLines(rows[1..])
  }

  function HeaderText(toolVersion: string): string {
    V3_MAGIC + "\n" + ("version: 3" + "\n" + ("tool_version: " + toolVersion + "\n" + (V3_COLUMNS + "\n")))
  }

  function SidecarText(toolVersion: string, rows: seq<SidecarRow>): string {
    HeaderText(toolVersion) + RowLines(Sort(RowLe, rows))
  }

  lemma {:induction false} RowLinesSnoc(rows: seq<SidecarRow>, r: SidecarRow)
    ensures RowLines(rows + [r]) == RowLines(rows) + (RowText(r) + "\n")
  {
    hide RowText;
    if rows == [] {
      assert [r][1..] == [];
    } else {
      assert (rows + [r])[1..] == rows[1..] + [r];
      RowLinesSnoc(rows[1..], r);
    }
  }

  method WriteSidecar(toolVersion: string, rows: seq<SidecarRow>) returns (tsv: string)
    ensures tsv == SidecarText(toolVersion, rows)
  {
    hide RowText, RowLines;
    var sorted := Sort(RowLe, rows);
    tsv := "";
    tsv := tsv + V3_MAGIC;
    tsv := tsv + "\n";
    tsv := tsv + ("version: 3\ntool_version: " + toolVersion + "\n");
    tsv := tsv + V3_COLUMNS;
    tsv := tsv + "\n";
    HeaderPieces(toolVersion);
    NoRowLines();
    for i := 0 to |sorted|
      invariant tsv == HeaderText(toolVersion) + RowLines(sorted[..i])
    {
      RowLinesSnoc(sorted[..i], sorted[i]);
      assert sorted[..i + 1] == sorted[..i] + [sorted[i]];
      tsv := tsv + (RowText(sorted[i]) + "\n");
    }
    assert sorted[..|sorted|] == sorted;
  }

  lemma NoRowLines()
    ensures RowLines([]) == ""
  {
  }

  lemma HeaderPieces(toolVersion: string)
    ensures "" + V3_MAGIC + "\n" + ("version: 3\ntool_version: " + toolVersion + "\n") + V3_COLUMNS + "\n" == HeaderText(toolVersion)
  {
    hide V3_MAGIC, V3_COLUMNS;
    assert "version: 3\ntool_version: " == "version: 3" + "\n" + "tool_version: ";
    var m, c, a, b := V3_MAGIC, V3_COLUMNS, "version: 3", "tool_version: ";
    var l := "" + m + "\n" + ((a + "\n" + b) + toolVersion + "\n") + c + "\n";
    var r := m + "\n" + (a + "\n" + (b + toolVersion + "\n" + (c + "\n")));
    assert l == r;
  }

  // ---------------------------------------------------------------------------------------
  // Verifying
  // ---------------------------------------------------------------------------------------

  datatype SidecarError = BadSize(line: nat) | BadCrc(line: nat) | CannotReadFile(file: string) | NoRows

  /** What a row's path stands for on disk. */
  datatype Disk = Absent | Unreadable | Data(bytes: seq<byte>)

  datatype Problem = FileMissing | SizeDiffers | CrcDiffers
  datatype CheckRow = CheckRow(file: string, size: nat, crc: nat, problem: Option<Problem>)

  /** Blank lines, column lines and lines without a tab are not rows. */
  predicate IsRow(line: string) {
    Trim(line) != "" && !("file\t" <= line) && '\t' in line
  }

  /** The first three fields of a row. */
  function ReadRow(line: string, n: nat): Result<(string, nat, nat), SidecarError> {
    var parts := Split(line, '\t');
    if |parts| < 2 then Err(BadSize(n))
    else
      match ParseUnsigned(10, U64_LIMIT, parts[1])
      case None => Err(BadSize(n))
      case Some(size) =>
        if |parts| < 3 then Err(BadCrc(n))
        else
          match ParseUnsigned(16, U32_LIMIT, parts[2])
          case None => Err(BadCrc(n))
          case Some(crc) => Ok((parts[0], size, crc))
  }

  function Check(disk: string -> Disk, file: string, size: nat, crc: nat): Result<CheckRow, SidecarError> {
    match disk(file)
    case Absent => Ok(CheckRow(file, size, crc, Some(FileMissing)))
    case Unreadable => Err(CannotReadFile(file))
    case Data(bytes) =>
      if |bytes| != size then Ok(CheckRow(file, size, crc, Some(SizeDiffers)))
      else if Crc32c.Crc(bytes) != crc then Ok(CheckRow(file, size, crc, Some(CrcDiffers)))
      else Ok(CheckRow(file, size, crc, None))
  }

  /** The rows of the lines from the `n`-th on, counted from 1. */
  function CheckLines(disk: string -> Disk, lines: seq<string>, n: nat): Result<seq<CheckRow>, SidecarError> {
    if lines == [] then Ok([])
    else if !IsRow(lines[0]) then CheckLines(disk, lines[1..], n + 1)
    else
      var fields :- ReadRow(lines[0], n);
      var row :- Check(disk, fields.0, fields.1, fields.2);
      var rest :- CheckLines(disk, lines[1..], n + 1);
      Ok([row] + rest)
  }

  function Verified(disk: string -> Disk, tsv: string): Result<seq<CheckRow>, SidecarError> {
    var rows :- CheckLines(disk, LinesOf(tsv), 1);
    if rows == [] then Err(NoRows) else Ok(rows)
  }

  function Then(rows: seq<CheckRow>, rest: Result<seq<CheckRow>, SidecarError>): Result<seq<CheckRow>, SidecarError> {
    match rest
    case Ok(more) => Ok(rows + more)
    case Err(e) => Err(e)
  }

  lemma LineStep(disk: string -> Disk, rows: seq<CheckRow>, lines: seq<string>, n: nat)
    requires lines != []
    ensures var rest := CheckLines(disk, lines[1..], n + 1);
            Then(rows, CheckLines(disk, lines, n))
            == if !IsRow(lines[0]) then Then(rows, rest)
               else
                 match ReadRow(lines[0], n)
                 case Err(e) => Err(e)
                 case Ok(f) =>
                   match Check(disk, f.0, f.1, f.2)
                   case Err(e) => Err(e)
                   case Ok(row) => Then(rows + [row], rest)
  {
    hide IsRow, ReadRow, Check;
    var rest := CheckLines(disk, lines[1..], n + 1);
    if IsRow(lines[0]) && ReadRow(lines[0], n).Ok? && rest.Ok? {
      var f := ReadRow(lines[0], n).value;
      if Check(disk, f.0, f.1, f.2).Ok? {
        assert rows + [Check(disk, f.0, f.1, f.2).value] + rest.value == rows + ([Check(disk, f.0, f.1, f.2).value] + rest.value);
      }
    }
  }

  lemma LinesDone(disk: string -> Disk, rows: seq<CheckRow>, n: nat)
    ensures Then(rows, CheckLines(disk, [], n)) == Ok(rows)
  {
    assert rows + [] == rows;
  }

  lemma NothingYet(rest: Result<seq<CheckRow>, SidecarError>)
    ensures Then([], rest) == rest
  {
    if rest.Ok? {
      assert [] + rest.value == rest.value;
    }
  }

  /** The size and the checksum of a file as it is read. */
  method FileDigest(table: seq<Crc32c.u32>, bytes: seq<byte>) returns (size: nat, crc: nat)
    requires Crc32c.IsTable(table)
    ensures size == |bytes| && crc == Crc32c.Crc(bytes)
  {
    size := |bytes|;
    crc := Crc32c.Digest(table, bytes);
  }

  method VerifyChecksums(disk: string -> Disk, tsv: string) returns (r: Result<seq<CheckRow>, SidecarError>)
    ensures r == Verified(disk, tsv)
  {
    hide IsRow, ReadRow, CheckLines, Then, LinesOf, Crc32c.Crc, Crc32c.IsTable;
    var table := Crc32c.BuildTable();
    var lines := LinesOf(tsv);
    var rows: seq<CheckRow> := [];
    NothingYet(CheckLines(disk, lines, 1));
    assert lines[0..] == lines;
    for i := 0 to |lines|
      invariant Then(rows, CheckLines(disk, lines[i..], i + 1)) == CheckLines(disk, lines, 1)
    {
      LineStep(disk, rows, lines[i..], i + 1);
      assert lines[i..][0] == lines[i] && lines[i..][1..] == lines[i + 1..];
      if !IsRow(lines[i]) {
        continue;
      }
      var fields := ReadRow(lines[i], i + 1);
      if fields.Err? {
        return Err(fields.error);
      }
      var (file, size, crc) := fields.value;
      var problem: Option<Problem> := None;
      match disk(file) {
        case Absent =>
          problem := Some(FileMissing);
        case Unreadable =>
          return Err(CannotReadFile(file));
        case Data(bytes) =>
          var size2, crc2 := FileDigest(table, bytes);
          if size2 != size {
            problem := Some(SizeDiffers);
          } else if crc2 != crc {
            problem := Some(CrcDiffers);
          }
      }
      rows := rows + [CheckRow(file, size, crc, problem)];
    }
    assert lines[|lines|..] == [];
    LinesDone(disk, rows, |lines| + 1);
    if rows == [] {
      return Err(NoRows);
    }
    return Ok(rows);
  }

  // ---------------------------------------------------------------------------------------
  // The verifier reads back what the writer wrote
  // ---------------------------------------------------------------------------------------

  /** A row that keeps the file's line structure: no tab in the name, no line feed anywhere, and
      numbers of their widths. */
  predicate Plain(r: SidecarRow) {
    && '\t' !in r.file && '\n' !in r.file && '\n' !in r.sha && '\n' !in r.timecode && '\n' !in r.framerate
    && '\n' !in r.iso && '\n' !in r.exposure && r.size < U64_LIMIT && r.crc < U32_LIMIT
  }

  lemma DecPlain(n: nat)
    ensures '\t' !in Dec(n) && '\n' !in Dec(n)
  {
    PaddedDigits(0, n);
  }

  lemma HexPlain(width: nat, n: nat)
    ensures '\t' !in Padded(16, width, n) && '\n' !in Padded(16, width, n)
    ensures !IsSpace(Padded(16, width, n)[0])
  {
    PaddedIs(16, width, n);
    var digits := PaddedWith(16, width, n);
    hide PaddedWith, Padded;
    forall i | 0 <= i < |digits|
      ensures DigitChars(digits)[i] != '\t' && DigitChars(digits)[i] != '\n' && !IsSpace(DigitChars(digits)[i])
    {
      DigitPlain(digits[i]);
    }
  }

  lemma DigitPlain(d: nat)
    requires d < 16
    ensures DigitChar(d) != '\t' && DigitChar(d) != '\n' && !IsSpace(DigitChar(d))
  {
  }

  /** The four columns the verifier does not look at. */
  function Extra(r: SidecarRow): string {
    r.sha + "\t" + r.timecode + "\t" + r.framerate + "\t" + r.iso + "\t" + r.exposure
  }

  lemma RowPieces(r: SidecarRow, extra: string)
    requires Plain(r)
    ensures var line := r.file + "\t" + Dec(r.size) + "\t" + Padded(16, 8, r.crc) + "\t" + extra;
            && Split(line, '\t') == [r.file] + ([Dec(r.size)] + ([Padded(16, 8, r.crc)] + Split(extra, '\t')))
            && Trim(line) != "" && '\t' in line && ("file\t" <= line <==> r.file == "file")
  {
    hide Dec, Padded, Split, Trim;
    DecPlain(r.size);
    HexPlain(8, r.crc);
    var size, crc := Dec(r.size), Padded(16, 8, r.crc);
    var line := r.file + "\t" + size + "\t" + crc + "\t" + extra;
    assert line == r.file + ['\t'] + (size + ['\t'] + (crc + ['\t'] + extra));
    SplitFirst(r.file, '\t', size + ['\t'] + (crc + ['\t'] + extra));
    SplitFirst(size, '\t', crc + ['\t'] + extra);
    SplitFirst(crc, '\t', extra);
    assert line[|r.file|] == '\t';
    var at := |r.file| + 1 + |size| + 1;
    assert line[at] == crc[0];
    NotBlank(line, at);
    ColumnLine(r.file, line);
  }

  /** Only a file called `file` makes a row that looks like a column line. */
  lemma ColumnLine(file: string, line: string)
    requires '\t' !in file && file + "\t" <= line
    ensures "file\t" <= line <==> file == "file"
  {
    assert forall i :: 0 <= i < |file| ==> line[i] == file[i] != '\t';
    assert line[|file|] == '\t';
    if "file\t" <= line {
      assert line[..5] == "file\t";
      assert line[4] == "file\t"[4] == '\t';
      assert forall i :: 0 <= i < 4 ==> line[i] == "file\t"[i] != '\t';
      assert file == line[..4];
    }
  }

  /** A written row is recognised, with its file, size and checksum, unless its file is called
      `file`. */
  lemma RowBack(r: SidecarRow, n: nat)
    requires Plain(r)
    ensures IsRow(StripCr(RowText(r))) <==> r.file != "file"
    ensures r.file != "file" ==> ReadRow(StripCr(RowText(r)), n) == Ok((r.file, r.size, r.crc))
  {
    hide Dec, Padded, Split, Trim, ParseUnsigned;
    StripKeeps(r);
    var extra :| StripCr(RowText(r)) == r.file + "\t" + Dec(r.size) + "\t" + Padded(16, 8, r.crc) + "\t" + extra;
    RowPieces(r, extra);
    ParseDec(r.size, U64_LIMIT);
    ParsePadded(16, 8, r.crc, U32_LIMIT);
  }

  lemma StripKeeps(r: SidecarRow)
    ensures exists extra :: StripCr(RowText(r)) == r.file + "\t" + Dec(r.size) + "\t" + Padded(16, 8, r.crc) + "\t" + extra
  {
    hide Dec, Padded;
    var head, extra := r.file + "\t" + Dec(r.size) + "\t" + Padded(16, 8, r.crc) + "\t", Extra(r);
    assert RowText(r) == head + extra;
    StripTail(head, extra);
    assert StripCr(RowText(r)) == head + StripCr(extra);
  }

  ghost predicate AllPlain(rows: seq<SidecarRow>) {
    forall i :: 0 <= i < |rows| ==> Plain(rows[i])
  }

  lemma RowOneLine(r: SidecarRow)
    requires Plain(r)
    ensures '\n' !in RowText(r)
  {
    hide Dec, Padded;
    DecPlain(r.size);
    HexPlain(8, r.crc);
  }

  /** The lines of the rows. */
  function StrippedRows(rows: seq<SidecarRow>): seq<string> {
    if rows == [] then [] else [StripCr(RowText(rows[0]))] + StrippedRows(rows[1..])
  }

  lemma {:induction false} LinesOfRows(rows: seq<SidecarRow>)
    requires AllPlain(rows)
    ensures LinesOf(RowLines(rows)) == StrippedRows(rows)
  {
    hide RowText, Plain, LinesOf, StripCr;
    if rows == [] {
      NoLines();
    } else {
      LinesOfRows(rows[1..]);
      RowOneLine(rows[0]);
      FirstLine(RowText(rows[0]), RowLines(rows[1..]));
    }
  }

  lemma NoLines()
    ensures LinesOf("") == []
  {
  }

  /** What the verifier makes of written rows: those of a file called `file` are lost. */
  function Kept(rows: seq<SidecarRow>): seq<SidecarRow> {
    if rows == [] then [] else (if rows[0].file == "file" then [] else [rows[0]]) + Kept(rows[1..])
  }

  function CheckAll(disk: string -> Disk, rows: seq<SidecarRow>): Result<seq<CheckRow>, SidecarError> {
    if rows == [] then Ok([])
    else
      var row :- Check(disk, rows[0].file, rows[0].size, rows[0].crc);
      var rest :- CheckAll(disk, rows[1..]);
      Ok([row] + rest)
  }

  lemma {:induction false} RowsBack(disk: string -> Disk, rows: seq<SidecarRow>, n: nat)
    requires AllPlain(rows)
    ensures CheckLines(disk, StrippedRows(rows), n) == CheckAll(disk, Kept(rows))
  {
    hide RowText, Plain, StripCr, IsRow, ReadRow, Check;
    if rows != [] {
      var line, rest := StripCr(RowText(rows[0])), StrippedRows(rows[1..]);
      RowBack(rows[0], n);
      RowsBack(disk, rows[1..], n + 1);
      assert ([line] + rest)[0] == line && ([line] + rest)[1..] == rest;
      if rows[0].file == "file" {
        assert [] + Kept(rows[1..]) == Kept(rows[1..]);
      } else {
        assert ([rows[0]] + Kept(rows[1..]))[1..] == Kept(rows[1..]);
      }
    }
  }

  /** None of the four header lines is taken for a row. */
  lemma HeaderSkipped(disk: string -> Disk, toolVersion: string, body: string)
    requires '\n' !in toolVersion && '\t' !in toolVersion
    ensures CheckLines(disk, LinesOf(HeaderText(toolVersion) + body), 1) == CheckLines(disk, LinesOf(body), 5)
  {
    hide LinesOf, CheckLines, IsRow, V3_MAGIC, V3_COLUMNS;
    HeaderLines();
    var l3 := "tool_version: " + toolVersion;
    VersionLine(toolVersion);
    var t4 := V3_COLUMNS + "\n" + body;
    var t3 := l3 + "\n" + t4;
    var t2 := "version: 3" + "\n" + t3;
    assert HeaderText(toolVersion) + body == V3_MAGIC + "\n" + t2;
    SkipLine(disk, V3_MAGIC, t2, 1);
    SkipLine(disk, "version: 3", t3, 2);
    SkipLine(disk, l3, t4, 3);
    SkipLine(disk, V3_COLUMNS, body, 4);
  }

  lemma SkipLine(disk: string -> Disk, line: string, rest: string, n: nat)
    requires '\n' !in line && !IsRow(StripCr(line))
    ensures CheckLines(disk, LinesOf(line + "\n" + rest), n) == CheckLines(disk, LinesOf(rest), n + 1)
  {
    hide LinesOf, IsRow, StripCr;
    FirstLine(line, rest);
    assert ([StripCr(line)] + LinesOf(rest))[1..] == LinesOf(rest);
  }

  lemma HeaderLines()
    ensures '\n' !in V3_MAGIC && !IsRow(StripCr(V3_MAGIC))
    ensures '\n' !in "version: 3" && !IsRow(StripCr("version: 3"))
    ensures '\n' !in V3_COLUMNS && !IsRow(StripCr(V3_COLUMNS))
  {
    hide IsRow, StripCr, V3_MAGIC, V3_COLUMNS;
    MagicPlain();
    TablessIsNoRow(V3_MAGIC);
    TablessIsNoRow("version: 3");
    ColumnsHeader();
    ColumnsAreNoRow();
  }

  lemma MagicPlain()
    ensures '\t' !in V3_MAGIC && '\n' !in V3_MAGIC
  {
  }

  lemma TablessIsNoRow(line: string)
    requires '\t' !in line
    ensures !IsRow(StripCr(line))
  {
    hide Trim;
    assert forall c :: c in StripCr(line) ==> c in line;
  }

  lemma ColumnsAreNoRow()
    ensures !IsRow(StripCr(V3_COLUMNS))
  {
    hide Trim, V3_COLUMNS;
    ColumnsHeader();
  }

  lemma ColumnsHeader()
    ensures '\n' !in V3_COLUMNS && V3_COLUMNS[|V3_COLUMNS| - 1] == 'e' && "file\t" <= V3_COLUMNS
  {
    assert '\n' !in "file\t" && '\n' !in "size\t" && '\n' !in "crc32c\t" && '\n' !in "sha256\t";
    assert '\n' !in "timecode\t" && '\n' !in "framerate\t" && '\n' !in "iso\t" && '\n' !in "exposure";
    assert "exposure"[7] == 'e';
  }

  lemma VersionLine(toolVersion: string)
    requires '\n' !in toolVersion && '\t' !in toolVersion
    ensures var line := "tool_version: " + toolVersion; '\n' !in line && !IsRow(StripCr(line))
  {
    hide IsRow, StripCr;
    var line := "tool_version: " + toolVersion;
    assert '\t' !in "tool_version: " && '\n' !in "tool_version: ";
    TablessIsNoRow(line);
  }

  lemma {:induction false} KeptAll(rows: seq<SidecarRow>)
    requires forall i :: 0 <= i < |rows| ==> rows[i].file != "file"
    ensures Kept(rows) == rows
  {
    if rows != [] {
      KeptAll(rows[1..]);
    }
  }

  lemma RowOrder()
    ensures TotalPreorder(RowLe)
  {
    hide StringLess;
    StringLeTotal();
    forall x: SidecarRow, y: SidecarRow, z: SidecarRow
      ensures RowLe(x, y) || RowLe(y, x)
      ensures RowLe(x, y) && RowLe(y, z) ==> RowLe(x, z)
    {
      assert StringLe(x.file, y.file) || StringLe(y.file, x.file);
    }
  }

  /** Exactly the written rows come back, sorted by file, each checked against the disk; all but
      those of files called `file`, which are taken for column lines. */
  lemma SidecarReadsBack(disk: string -> Disk, toolVersion: string, rows: seq<SidecarRow>)
    requires '\n' !in toolVersion && '\t' !in toolVersion && AllPlain(rows)
    ensures var sorted := Sort(RowLe, rows);
            && multiset(sorted) == multiset(rows) && Ascending(RowLe, sorted)
            && Verified(disk, SidecarText(toolVersion, rows))
               == (var checked :- CheckAll(disk, Kept(sorted)); if checked == [] then Err(NoRows) else Ok(checked))
            && ((forall i :: 0 <= i < |rows| ==> rows[i].file != "file") ==> Kept(sorted) == sorted)
  {
    hide LinesOf, CheckLines, HeaderText, StringLess, RowLines, Sort, CheckAll, Kept, Plain;
    var sorted := Sort(RowLe, rows);
    RowOrder();
    SortAscends(RowLe, rows);
    SortPermutes(RowLe, rows);
    forall i | 0 <= i < |sorted|
      ensures Plain(sorted[i])
      ensures (forall j :: 0 <= j < |rows| ==> rows[j].file != "file") ==> sorted[i].file != "file"
    {
      assert sorted[i] in multiset(sorted);
      assert sorted[i] in rows;
    }
    HeaderSkipped(disk, toolVersion, RowLines(sorted));
    LinesOfRows(sorted);
    RowsBack(disk, sorted, 5);
    if forall i :: 0 <= i < |rows| ==> rows[i].file != "file" {
      KeptAll(sorted);
    }
  }

  /** The names the walk over a clip collects: a `dng` extension in any case. */
  predicate IsDng(name: string) {
    && |name| > 4 && name[|name| - 4] == '.' && (name[|name| - 3] == 'd' || name[|name| - 3] == 'D')
    && (name[|name| - 2] == 'n' || name[|name| - 2] == 'N') && (name[|name| - 1] == 'g' || name[|name| - 1] == 'G')
  }

  /** Of the frames a clip can have, every row comes back. */
  lemma FramesReadBack(disk: string -> Disk, toolVersion: string, rows: seq<SidecarRow>)
    requires '\n' !in toolVersion && '\t' !in toolVersion && AllPlain(rows)
    requires forall i :: 0 <= i < |rows| ==> IsDng(rows[i].file)
    ensures Verified(disk, SidecarText(toolVersion, rows))
            == if rows == [] then Err(NoRows) else CheckAll(disk, Sort(RowLe, rows))
  {
    hide Verified, SidecarText, StringLess, Sort, Kept, Plain, Check;
    forall i | 0 <= i < |rows|
      ensures rows[i].file != "file"
    {
      EndsInDng(rows[i].file);
    }
    var sorted := Sort(RowLe, rows);
    SidecarReadsBack(disk, toolVersion, rows);
    SameSize(rows, sorted);
    CheckedEach(disk, sorted);
  }

  lemma EndsInDng(name: string)
    requires IsDng(name)
    ensures name != "file"
  {
  }

  lemma SameSize<T>(a: seq<T>, b: seq<T>)
    requires multiset(a) == multiset(b)
    ensures |a| == |b|
  {
    assert |multiset(a)| == |a| && |multiset(b)| == |b|;
  }

  lemma {:induction false} CheckedEach(disk: string -> Disk, rows: seq<SidecarRow>)
    ensures CheckAll(disk, rows).Ok? ==> |CheckAll(disk, rows).value| == |rows|
  {
    hide Check;
    if rows != [] {
      CheckedEach(disk, rows[1..]);
    }
  }

  // ---------------------------------------------------------------------------------------
  // From the frames on disk and back
  // ---------------------------------------------------------------------------------------

  /** The rows the writer makes of what is on disk. */
  ghost predicate Records(disk: string -> Disk, rows: seq<SidecarRow>) {
    forall i :: 0 <= i < |rows| ==> RowRecords(disk, rows[i])
  }

  ghost predicate RowRecords(disk: string -> Disk, r: SidecarRow) {
    disk(r.file).Data? && r.size == |disk(r.file).bytes| && r.crc == Crc32c.Crc(disk(r.file).bytes)
  }

  /** Every row was checked and none has a problem. */
  predicate AllOk(r: Result<seq<CheckRow>, SidecarError>, n: nat) {
    r.Ok? && |r.value| == n && forall i :: 0 <= i < |r.value| ==> r.value[i].problem == None
  }

  lemma {:induction false} RecordedRowsPass(disk: string -> Disk, rows: seq<SidecarRow>)
    ensures AllOk(CheckAll(disk, rows), |rows|) <==> Records(disk, rows)
  {
    hide Crc32c.Crc;
    if rows != [] {
      hide Check, RowRecords;
      RecordedRowsPass(disk, rows[1..]);
      RowPasses(disk, rows[0]);
      RecordsCons(disk, rows);
      var first, rest := Check(disk, rows[0].file, rows[0].size, rows[0].crc), CheckAll(disk, rows[1..]);
      if first.Ok? && rest.Ok? {
        OkCons(first.value, rest.value, |rows|);
      }
    }
  }

  lemma RowPasses(disk: string -> Disk, r: SidecarRow)
    ensures var c := Check(disk, r.file, r.size, r.crc); (c.Ok? && c.value.problem == None) <==> RowRecords(disk, r)
  {
    hide Crc32c.Crc;
  }

  lemma RecordsCons(disk: string -> Disk, rows: seq<SidecarRow>)
    requires rows != []
    ensures Records(disk, rows) <==> RowRecords(disk, rows[0]) && Records(disk, rows[1..])
  {
    hide RowRecords;
    assert forall i :: 0 < i < |rows| ==> rows[i] == rows[1..][i - 1];
  }

  lemma OkCons(row: CheckRow, rest: seq<CheckRow>, n: nat)
    requires n > 0
    ensures AllOk(Ok([row] + rest), n) <==> row.problem == None && AllOk(Ok(rest), n - 1)
  {
    var all := [row] + rest;
    assert all[0] == row && all[1..] == rest;
    if row.problem == None && AllOk(Ok(rest), n - 1) {
      assert forall i :: 0 < i < |all| ==> all[i].problem == rest[i - 1].problem;
    }
    if AllOk(Ok(all), n) {
      assert forall i :: 0 <= i < |rest| ==> rest[i].problem == all[i + 1].problem;
    }
  }

  /** The frames of a clip all verify exactly when every row's file is there with the recorded
      size and checksum. */
  lemma FramesVerifyExactly(disk: string -> Disk, toolVersion: string, rows: seq<SidecarRow>)
    requires '\n' !in toolVersion && '\t' !in toolVersion && AllPlain(rows) && rows != []
    requires forall i :: 0 <= i < |rows| ==> IsDng(rows[i].file)
    ensures AllOk(Verified(disk, SidecarText(toolVersion, rows)), |rows|) <==> Records(disk, rows)
  {
    hide Verified, SidecarText, StringLess, Sort, CheckAll, Plain, RowRecords, AllOk, IsDng;
    var sorted := Sort(RowLe, rows);
    FramesReadBack(disk, toolVersion, rows);
    SortPermutes(RowLe, rows);
    SameSize(rows, sorted);
    RecordedRowsPass(disk, sorted);
    if Records(disk, rows) {
      RecordsPermute(disk, rows, sorted);
    }
    if Records(disk, sorted) {
      RecordsPermute(disk, sorted, rows);
    }
  }

  lemma RecordsPermute(disk: string -> Disk, rows: seq<SidecarRow>, sorted: seq<SidecarRow>)
    requires multiset(sorted) == multiset(rows) && Records(disk, rows)
    ensures Records(disk, sorted)
  {
    hide RowRecords;
    forall i | 0 <= i < |sorted|
      ensures RowRecords(disk, sorted[i])
    {
      assert sorted[i] in multiset(sorted);
      assert sorted[i] in rows;
    }
  }

  /** Damage confined to four consecutive bytes of a frame is reported, whatever the bytes. */
  lemma BurstIsReported(disk: string -> Disk, file: string, original: seq<byte>, at: nat, n: nat)
    requires disk(file).Data? && disk(file).bytes != original && |disk(file).bytes| == |original|
    requires n <= 4 && at + n <= |original|
    requires disk(file).bytes[..at] == original[..at] && disk(file).bytes[at + n..] == original[at + n..]
    ensures Check(disk, file, |original|, Crc32c.Crc(original))
            == Ok(CheckRow(file, |original|, Crc32c.Crc(original), Some(CrcDiffers)))
  {
    hide Crc32c.Crc;
    Crc32c.FourByteBurstDetected(disk(file).bytes, original, at, n);
  }
}
