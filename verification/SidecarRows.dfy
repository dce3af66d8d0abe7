/** What the lines of a checksum sidecar hold, and what its verification says about each file
    (tool/src/checksums.rs). */
module SidecarRows {
  import opened Prelude
  import opened Positional
  import opened Sorting
  import opened Xml
  import opened TextLines
  import opened Numerals
  import opened C4Id
  import opened Sidecar
  import Crc32c

  // ---------------------------------------------------------------------------------------
  // The columns of a written sidecar
  // ---------------------------------------------------------------------------------------

  /** Text for one column. */
  predicate OneColumn(s: string) {
    '\t' !in s && '\n' !in s && '\r' !in s
  }

  predicate ColumnsPlain(r: SidecarRow) {
    && OneColumn(r.file) && OneColumn(r.sha) && OneColumn(r.timecode) && OneColumn(r.framerate)
    && OneColumn(r.iso) && OneColumn(r.exposure) && r.size < U64_LIMIT && r.crc < U32_LIMIT
  }

  /** A line of eight columns, in the order of the column line, that are those of a row. */
  ghost predicate ColumnsOf(line: string, r: SidecarRow) {
    var cols := Split(line, '\t');
    && |cols| == 8 && cols[0] == r.file
    && ParseUnsigned(10, U64_LIMIT, cols[1]) == Some(r.size)
    && |cols[2]| == 8 && ParseUnsigned(16, U32_LIMIT, cols[2]) == Some(r.crc)
    && cols[3] == r.sha && cols[4] == r.timecode && cols[5] == r.framerate && cols[6] == r.iso && cols[7] == r.exposure
  }

  lemma ExtraColumns(r: SidecarRow)
    requires ColumnsPlain(r)
    ensures Split(Extra(r), '\t') == [r.sha, r.timecode, r.framerate, r.iso, r.exposure]
    ensures StripCr(Extra(r)) == Extra(r)
  {
    hide Split;
    var a, b, c, d, e := r.sha, r.timecode, r.framerate, r.iso, r.exposure;
    assert Extra(r) == a + ['\t'] + (b + ['\t'] + (c + ['\t'] + (d + ['\t'] + e)));
    SplitFirst(a, '\t', b + ['\t'] + (c + ['\t'] + (d + ['\t'] + e)));
    SplitFirst(b, '\t', c + ['\t'] + (d + ['\t'] + e));
    SplitFirst(c, '\t', d + ['\t'] + e);
    SplitFirst(d, '\t', e);
    SplitPlain(e, '\t');
    assert [a] + ([b] + ([c] + ([d] + [e]))) == [a, b, c, d, e];
    var head := a + "\t" + b + "\t" + c + "\t" + d + "\t";
    assert Extra(r) == head + e;
    StripTail(head, e);
  }

  lemma RowColumns(r: SidecarRow)
    requires ColumnsPlain(r)
    ensures ColumnsOf(StripCr(RowText(r)), r)
  {
    hide Dec, Padded, Split, Trim, ParseUnsigned, StripCr, Extra;
    var head := r.file + "\t" + Dec(r.size) + "\t" + Padded(16, 8, r.crc) + "\t";
    ExtraColumns(r);
    RowIsHeadAndExtra(r);
    StripTail(head, Extra(r));
    RowPieces(r, Extra(r));
    var cols := [r.file] + ([Dec(r.size)] + ([Padded(16, 8, r.crc)] + Split(Extra(r), '\t')));
    assert cols == [r.file, Dec(r.size), Padded(16, 8, r.crc), r.sha, r.timecode, r.framerate, r.iso, r.exposure];
    ParseDec(r.size, U64_LIMIT);
    ParsePadded(16, 8, r.crc, U32_LIMIT);
    EightDigits(r.crc);
  }

  lemma RowIsHeadAndExtra(r: SidecarRow)
    ensures RowText(r) == r.file + "\t" + Dec(r.size) + "\t" + Padded(16, 8, r.crc) + "\t" + Extra(r)
  {
    hide Dec, Padded;
  }

  /** A 32-bit number has eight hexadecimal digits. */
  lemma EightDigits(crc: nat)
    requires crc < U32_LIMIT
    ensures |Padded(16, 8, crc)| == 8
  {
    HexWidth(8, crc);
  }

  lemma {:induction false} HexWidth(width: nat, n: nat)
    requires 0 < width <= 8 && n < Pow(16, width)
    ensures |Minimal(16, n)| <= width
    decreases width
  {
    if n >= 16 {
      assert width > 1;
      HexWidth(width - 1, n / 16);
    }
  }

  lemma {:induction false} StrippedAt(rows: seq<SidecarRow>, i: nat)
    requires i < |rows|
    ensures |StrippedRows(rows)| == |rows| && StrippedRows(rows)[i] == StripCr(RowText(rows[i]))
  {
    hide StripCr, RowText;
    if |rows| > 1 {
      StrippedAt(rows[1..], if i > 0 then i - 1 else 0);
    }
  }

  /** No file's name comes before that of a file above it. */
  ghost predicate NameOrder(rows: seq<SidecarRow>) {
    forall i, j :: 0 <= i < j < |rows| ==> !StringLess(rows[j].file, rows[i].file)
  }

  lemma AscendingNames(rows: seq<SidecarRow>)
    requires Ascending(RowLe, rows)
    ensures NameOrder(rows)
  {
    hide StringLess;
    forall i, j | 0 <= i < j < |rows|
      ensures !StringLess(rows[j].file, rows[i].file)
    {
      assert RowLe(rows[i], rows[j]);
    }
  }

  /** A written sidecar is its four header lines and then a line of eight columns for every row,
      in the order of the files' names. */
  lemma SidecarColumns(toolVersion: string, rows: seq<SidecarRow>)
    requires OneColumn(toolVersion) && forall i :: 0 <= i < |rows| ==> ColumnsPlain(rows[i])
    ensures var sorted, lines := Sort(RowLe, rows), LinesOf(SidecarText(toolVersion, rows));
            && multiset(sorted) == multiset(rows) && NameOrder(sorted) && |lines| >= 4
            && lines[0] == "# frameprism checksums sidecar" && lines[1] == "version: 3" && lines[2] == "tool_version: " + toolVersion
            && Split(lines[3], '\t') == ["file", "size", "crc32c", "sha256", "timecode", "framerate", "iso", "exposure"]
            && AllColumns(lines[4..], sorted)
  {
    hide LinesOf, HeaderText, StringLess, RowLines, Sort, ColumnsPlain, RowText, Split, StripCr, StrippedRows, V3_COLUMNS, Plain, AllColumns;
    var sorted, body := Sort(RowLe, rows), RowLines(Sort(RowLe, rows));
    RowOrder();
    SortAscends(RowLe, rows);
    SortPermutes(RowLe, rows);
    AscendingNames(sorted);
    forall i | 0 <= i < |sorted|
      ensures ColumnsPlain(sorted[i]) && Plain(sorted[i])
    {
      assert sorted[i] in multiset(sorted);
      assert sorted[i] in rows;
      ColumnsArePlain(sorted[i]);
    }
    LinesOfRows(sorted);
    HeaderLinesOf(toolVersion, body);
    ColumnNames();
    RowsColumns(sorted);
  }

  ghost predicate AllColumns(lines: seq<string>, rows: seq<SidecarRow>) {
    |lines| == |rows| && forall i :: 0 <= i < |rows| ==> ColumnsOf(lines[i], rows[i])
  }

  lemma RowsColumns(rows: seq<SidecarRow>)
    requires forall i :: 0 <= i < |rows| ==> ColumnsPlain(rows[i])
    ensures AllColumns(StrippedRows(rows), rows)
  {
    hide StrippedRows, ColumnsOf, ColumnsPlain, StripCr, RowText;
    if rows == [] {
      NoStripped();
    } else {
      StrippedAt(rows, 0);
    }
    forall i | 0 <= i < |rows|
      ensures |StrippedRows(rows)| == |rows| && ColumnsOf(StrippedRows(rows)[i], rows[i])
    {
      StrippedAt(rows, i);
      RowColumns(rows[i]);
    }
  }

  lemma NoStripped()
    ensures StrippedRows([]) == []
  {
  }

  lemma ColumnsArePlain(r: SidecarRow)
    requires ColumnsPlain(r)
    ensures Plain(r)
  {
  }

  lemma HeaderLinesOf(toolVersion: string, body: string)
    requires OneColumn(toolVersion)
    ensures LinesOf(HeaderText(toolVersion) + body)
            == [V3_MAGIC, "version: 3", "tool_version: " + toolVersion, V3_COLUMNS] + LinesOf(body)
  {
    hide LinesOf, V3_MAGIC, V3_COLUMNS, IsRow;
    HeaderLines();
    ColumnsHeader();
    MagicEnds();
    var l3 := "tool_version: " + toolVersion;
    assert '\n' !in "tool_version: ";
    var t4 := V3_COLUMNS + "\n" + body;
    var t3 := l3 + "\n" + t4;
    var t2 := "version: 3" + "\n" + t3;
    HeaderStart(toolVersion, body);
    FirstLine(V3_MAGIC, t2);
    FirstLine("version: 3", t3);
    FirstLine(l3, t4);
    FirstLine(V3_COLUMNS, body);
    StripTail("tool_version: ", toolVersion);
    FourAhead(V3_MAGIC, "version: 3", l3, V3_COLUMNS, LinesOf(body));
  }

  lemma FourAhead(a: string, b: string, c: string, d: string, rest: seq<string>)
    ensures [a] + ([b] + ([c] + ([d] + rest))) == [a, b, c, d] + rest
  {
  }

  lemma HeaderStart(toolVersion: string, body: string)
    ensures HeaderText(toolVersion) + body
            == V3_MAGIC + "\n" + ("version: 3" + "\n" + ("tool_version: " + toolVersion + "\n" + (V3_COLUMNS + "\n" + body)))
  {
    hide V3_MAGIC, V3_COLUMNS;
    var l3, inner := "tool_version: " + toolVersion, V3_COLUMNS + "\n";
    Regroup(l3 + "\n", inner, body);
    Regroup("version: 3" + "\n", l3 + "\n" + inner, body);
    Regroup(V3_MAGIC + "\n", "version: 3" + "\n" + (l3 + "\n" + inner), body);
  }

  lemma Regroup(a: string, b: string, c: string)
    ensures (a + b) + c == a + (b + c)
  {
  }

  lemma MagicEnds()
    ensures V3_MAGIC == "# frameprism checksums sidecar" && V3_MAGIC[|V3_MAGIC| - 1] == 'r'
  {
  }

  lemma ColumnNames()
    ensures Split(V3_COLUMNS, '\t') == ["file", "size", "crc32c", "sha256", "timecode", "framerate", "iso", "exposure"]
  {
    hide Split;
    var t := ['\t'];
    var r5 := "timecode" + t + ("framerate" + t + ("iso" + t + "exposure"));
    var all := "file" + t + ("size" + t + ("crc32c" + t + ("sha256" + t + r5)));
    assert V3_COLUMNS == all by {
      TabbedNames();
    }
    SplitFirst("file", '\t', "size" + t + ("crc32c" + t + ("sha256" + t + r5)));
    SplitFirst("size", '\t', "crc32c" + t + ("sha256" + t + r5));
    SplitFirst("crc32c", '\t', "sha256" + t + r5);
    SplitFirst("sha256", '\t', r5);
    SplitFirst("timecode", '\t', "framerate" + t + ("iso" + t + "exposure"));
    SplitFirst("framerate", '\t', "iso" + t + "exposure");
    SplitFirst("iso", '\t', "exposure");
    SplitPlain("exposure", '\t');
  }

  lemma TabbedNames()
    ensures V3_COLUMNS == "file" + "\t" + ("size" + "\t" + ("crc32c" + "\t" + ("sha256" + "\t"
                          + ("timecode" + "\t" + ("framerate" + "\t" + ("iso" + "\t" + "exposure"))))))
  {
  }

  // ---------------------------------------------------------------------------------------
  // Rows that cannot be read
  // ---------------------------------------------------------------------------------------

  /** A row needs a decimal size of 64 bits and then a hexadecimal checksum of 32; whichever is
      wrong first is named. */
  lemma FieldsNamed(file: string, size: string, crc: string, extra: string, n: nat)
    requires '\t' !in file && '\t' !in size && '\t' !in crc
    ensures ReadRow(file + "\t" + size, n)
            == if ParseUnsigned(10, U64_LIMIT, size) == None then Err(BadSize(n)) else Err(BadCrc(n))
    ensures ReadRow(file + "\t" + size + "\t" + crc + "\t" + extra, n)
            == match (ParseUnsigned(10, U64_LIMIT, size), ParseUnsigned(16, U32_LIMIT, crc))
               case (Some(s), Some(c)) => Ok((file, s, c))
               case (None, _) => Err(BadSize(n))
               case (_, None) => Err(BadCrc(n))
  {
    hide Split, ParseUnsigned;
    var t := ['\t'];
    SplitFirst(file, '\t', size);
    SplitPlain(size, '\t');
    assert file + "\t" + size == file + t + size;
    assert file + "\t" + size + "\t" + crc + "\t" + extra == file + t + (size + t + (crc + t + extra));
    SplitFirst(file, '\t', size + t + (crc + t + extra));
    SplitFirst(size, '\t', crc + t + extra);
    SplitFirst(crc, '\t', extra);
  }

  // ---------------------------------------------------------------------------------------
  // What is said about each file
  // ---------------------------------------------------------------------------------------

  /** Each problem exactly for what it is meant for. */
  ghost predicate Says(d: Disk, r: SidecarRow, c: CheckRow) {
    && c.file == r.file && c.size == r.size && c.crc == r.crc && !d.Unreadable?
    && (c.problem == Some(FileMissing) <==> d.Absent?)
    && (c.problem == Some(SizeDiffers) <==> d.Data? && |d.bytes| != r.size)
    && (c.problem == Some(CrcDiffers) <==> d.Data? && |d.bytes| == r.size && Crc32c.Crc(d.bytes) != r.crc)
    && (c.problem == None <==> d.Data? && |d.bytes| == r.size && Crc32c.Crc(d.bytes) == r.crc)
  }

  ghost predicate AllSay(disk: string -> Disk, rows: seq<SidecarRow>, checked: seq<CheckRow>) {
    |checked| == |rows| && forall i :: 0 <= i < |rows| ==> Says(disk(rows[i].file), rows[i], checked[i])
  }

  /** The first file that is there and cannot be read. */
  ghost predicate UnreadableAt(disk: string -> Disk, rows: seq<SidecarRow>, i: nat, file: string) {
    && i < |rows| && rows[i].file == file && disk(file).Unreadable?
    && forall j :: 0 <= j < i ==> !disk(rows[j].file).Unreadable?
  }

  lemma {:induction false} EachSays(disk: string -> Disk, rows: seq<SidecarRow>)
    ensures match CheckAll(disk, rows)
            case Ok(checked) => AllSay(disk, rows, checked)
            case Err(e) => e.CannotReadFile? && exists i: nat :: UnreadableAt(disk, rows, i, e.file)
  {
    if rows != [] {
      hide Crc32c.Crc;
      EachSays(disk, rows[1..]);
      assert forall i :: 0 < i < |rows| ==> rows[i] == rows[1..][i - 1];
      if disk(rows[0].file).Unreadable? {
        assert UnreadableAt(disk, rows, 0, rows[0].file);
      } else if CheckAll(disk, rows[1..]).Err? {
        var file := CheckAll(disk, rows[1..]).error.file;
        var i: nat :| UnreadableAt(disk, rows[1..], i, file);
        assert UnreadableAt(disk, rows, i + 1, file);
      }
    }
  }

  /** The verification of a written sidecar of frames says, of every frame in the order of the
      names, whether it is missing, of another size or of another checksum; only a file that is
      there and cannot be read ends it. */
  lemma FramesVerdicts(disk: string -> Disk, toolVersion: string, rows: seq<SidecarRow>)
    requires '\n' !in toolVersion && '\t' !in toolVersion && AllPlain(rows) && rows != []
    requires forall i :: 0 <= i < |rows| ==> IsDng(rows[i].file)
    ensures var sorted := Sort(RowLe, rows);
            multiset(sorted) == multiset(rows) && NameOrder(sorted)
            && match Verified(disk, SidecarText(toolVersion, rows))
               case Ok(checked) => AllSay(disk, sorted, checked)
               case Err(e) => e.CannotReadFile? && exists i: nat :: UnreadableAt(disk, sorted, i, e.file)
  {
    hide Verified, SidecarText, StringLess, Sort, CheckAll, IsDng, Plain, AllSay, UnreadableAt;
    RowOrder();
    SortAscends(RowLe, rows);
    SortPermutes(RowLe, rows);
    AscendingNames(Sort(RowLe, rows));
    FramesReadBack(disk, toolVersion, rows);
    EachSays(disk, Sort(RowLe, rows));
  }
}
