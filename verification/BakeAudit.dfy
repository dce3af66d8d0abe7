/** The audit's reader of a bake manifest (tool/src/audit/sidecars.rs): which manifests it reads
    back, and that it then returns every member's path, size and digest in order. */
module BakeAudit {
  import opened Prelude
  import opened Xml
  import opened TextLines
  import opened Numerals
  import opened Bake
  import opened BakeResume
  import Utf8

  const MAGIC := "# frameprism bake manifest"
  const COLUMNS := "relpath\tsize\tsha256"
  const U64_LIMIT: nat := 0x1_0000_0000_0000_0000

  datatype SheetRow = SheetRow(file: string, size: nat, sha: string, stem: string)

  /** What an audit works with. The part list is there when several archives are listed. */
  datatype Sheet = Sheet(parts: Option<seq<string>>, clip: string, container: string, rows: seq<SheetRow>)

  datatype AuditError =
    | EmptyManifest | NotAManifest | RowBeforeColumns(line: nat) | BadColumns(line: nat) | BadSize(line: nat) | NoStem(file: string)
    | NotAField(line: nat) | EmptyParts(line: nat) | NoClip | NoContainer | NoCount | CountDiffers(count: nat, rows: nat) | NoRows

  /** The stem of a path as the standard library finds it, if there is one. */
  type StemFn = string -> Option<string>

  datatype Reading = Reading(clip: Option<string>, container: Option<string>, count: Option<nat>, parts: Option<seq<string>>,
                             rows: seq<SheetRow>, columns: bool)

  function Trimmed(pieces: seq<string>): seq<string> {
    if pieces == [] then []
    else (if Trim(pieces[0]) != "" then [Trim(pieces[0])] else []) + Trimmed(pieces[1..])
  }

  function ReadRow(stem: StemFn, r: Reading, line: string, n: nat): Result<Reading, AuditError> {
    var fields := Split(line, '\t');
    if |fields| != 3 then Err(BadColumns(n))
    else
      match ParseUnsigned(10, U64_LIMIT, fields[1])
      case None => Err(BadSize(n))
      case Some(size) =>
        match stem(fields[0])
        case None => Err(NoStem(fields[0]))
        case Some(st) => Ok(r.(rows := r.rows + [SheetRow(fields[0], size, fields[2], st)]))
  }

  function ReadField(r: Reading, key: string, value: string, n: nat): Result<Reading, AuditError> {
    if key == "clip" then Ok(r.(clip := Some(Trim(value))))
    else if key == "container" then Ok(r.(container := Some(Trim(value))))
    else if key == "file_count" then
      match ParseUnsigned(10, U64_LIMIT, Trim(value))
      case None => Err(BadSize(n))
      case Some(count) => Ok(r.(count := Some(count)))
    else if key == "archive" then
      var names := Trimmed(Split(Trim(value), ','));
      if names == [] then Err(EmptyParts(n)) else Ok(r.(parts := Some(names)))
    else Ok(r)
  }

  /** A line with a tab is the column line or a row, any other a field. */
  function ReadLine(stem: StemFn, r: Reading, line: string, n: nat): Result<Reading, AuditError> {
    if line == "" then Ok(r)
    else if '\t' in line then
      if line == COLUMNS then Ok(r.(columns := true))
      else if !r.columns then Err(RowBeforeColumns(n))
      else ReadRow(stem, r, line, n)
    else
      var k := Find(line, ":");
      if k == |line| then Err(NotAField(n)) else ReadField(r, Trim(line[..k]), line[k + 1..], n)
  }

  function ReadLines(stem: StemFn, r: Reading, lines: seq<string>, n: nat): Result<Reading, AuditError>
    decreases |lines|
  {
    if lines == [] then Ok(r)
    else
      var next :- ReadLine(stem, r, lines[0], n);
      ReadLines(stem, next, lines[1..], n + 1)
  }

  function Close(r: Reading): Result<Sheet, AuditError> {
    match (r.clip, r.container, r.count)
    case (None, _, _) => Err(NoClip)
    case (_, None, _) => Err(NoContainer)
    case (_, _, None) => Err(NoCount)
    case (Some(clip), Some(container), Some(count)) =>
      if count != |r.rows| then Err(CountDiffers(count, |r.rows|))
      else if r.rows == [] then Err(NoRows)
      else Ok(Sheet(r.parts, clip, container, r.rows))
  }

  const NOTHING := Reading(None, None, None, None, [], false)

  function Parsed(stem: StemFn, tsv: string): Result<Sheet, AuditError> {
    var lines := LinesOf(tsv);
    if lines == [] then Err(EmptyManifest)
    else if lines[0] != MAGIC then Err(NotAManifest)
    else
      var r :- ReadLines(stem, NOTHING, lines[1..], 2);
      Close(r)
  }

  method ParseBakeManifest(stem: StemFn, tsv: string) returns (s: Result<Sheet, AuditError>)
    ensures s == Parsed(stem, tsv)
  {
    hide ReadLine, Close;
    var lines := LinesOf(tsv);
    if lines == [] {
      return Err(EmptyManifest);
    }
    if lines[0] != MAGIC {
      return Err(NotAManifest);
    }
    var r := NOTHING;
    for i := 1 to |lines|
      invariant ReadLines(stem, NOTHING, lines[1..], 2) == ReadLines(stem, r, lines[i..], i + 1)
    {
      assert lines[i..][0] == lines[i] && lines[i..][1..] == lines[i + 1..];
      var next := ReadLine(stem, r, lines[i], i + 1);
      if next.Err? {
        return Err(next.error);
      }
      r := next.value;
    }
    return Close(r);
  }

  // ---------------------------------------------------------------------------------------
  // What was written
  // ---------------------------------------------------------------------------------------

  /** A line of its own, without a tab. */
  predicate Field(s: string) {
    '\t' !in s && '\n' !in s
  }

  /** The strings that the tool itself puts into a manifest. */
  predicate PlainTool(job: Job) {
    Field(job.versions.tool) && Field(job.versions.tar) && Field(job.versions.zstd) && Field(job.versions.host) && Field(job.codec)
  }

  function ObjectNames(objects: seq<Object>): (names: seq<string>)
    ensures |names| == |objects| && forall i :: 0 <= i < |names| ==> names[i] == objects[i].name
  {
    seq(|objects|, i requires 0 <= i < |objects| => objects[i].name)
  }

  /** The row of a member: its path, size and digest. */
  ghost predicate IsRowOf(stem: StemFn, sha: ShaFn, m: Member, row: SheetRow) {
    row.file == m.rel && row.size == |m.data| && row.sha == sha(m.data) && stem(m.rel) == Some(row.stem)
  }

  ghost predicate RowsFor(stem: StemFn, sha: ShaFn, members: seq<Member>, rows: seq<SheetRow>) {
    |rows| == |members| && forall i :: 0 <= i < |members| ==> IsRowOf(stem, sha, members[i], rows[i])
  }

  /** The clip, the archives and every member as they were baked. */
  ghost predicate SheetOf(stem: StemFn, sha: ShaFn, job: Job, objects: seq<Object>, sheet: Sheet) {
    && sheet.clip == job.clip && sheet.container == Container(job)
    && sheet.parts == (if |objects| > 1 then Some(ObjectNames(objects)) else None)
    && RowsFor(stem, sha, job.members, sheet.rows)
  }

  /** A path of its own column, with a stem, and a size of 64 bits. */
  predicate GoodMember(stem: StemFn, m: Member) {
    Field(m.rel) && stem(m.rel).Some? && |m.data| < U64_LIMIT
  }

  // ---------------------------------------------------------------------------------------
  // Reading it
  // ---------------------------------------------------------------------------------------

  lemma {:induction false} ReadAppend(stem: StemFn, r: Reading, a: seq<string>, b: seq<string>, n: nat)
    ensures ReadLines(stem, r, a + b, n)
            == match ReadLines(stem, r, a, n)
               case Ok(next) => ReadLines(stem, next, b, n + |a|)
               case Err(e) => Err(e)
    decreases |a|
  {
    hide ReadLine;
    if a == [] {
      assert [] + b == b;
    } else {
      assert (a + b)[0] == a[0] && (a + b)[1..] == a[1..] + b;
      if ReadLine(stem, r, a[0], n).Ok? {
        ReadAppend(stem, ReadLine(stem, r, a[0], n).value, a[1..], b, n + 1);
      }
    }
  }

  lemma ReadOne(stem: StemFn, r: Reading, line: string, rest: seq<string>, n: nat)
    ensures ReadLines(stem, r, [line] + rest, n)
            == match ReadLine(stem, r, line, n)
               case Ok(next) => ReadLines(stem, next, rest, n + 1)
               case Err(e) => Err(e)
  {
    hide ReadLine;
    assert ([line] + rest)[1..] == rest;
  }

  /** A name that a field can have. */
  predicate IsKey(key: string) {
    Field(key) && ':' !in key && key != "" && !IsSpace(key[0]) && !IsSpace(key[|key| - 1])
  }

  /** A field line is taken apart at its first colon. */
  lemma FieldLine(stem: StemFn, r: Reading, key: string, value: string, n: nat)
    requires IsKey(key) && Field(value)
    ensures ReadLine(stem, r, StripCr(key + ": " + value), n) == ReadField(r, key, " " + StripCr(value), n)
  {
    hide Trim, Find, ReadField, ReadRow, StripCr, IsSpace, COLUMNS;
    var head := key + ": ";
    StripTail(head, value);
    var line := head + StripCr(value);
    StripPlain(value);
    ColonAt(key, " " + StripCr(value));
    assert line == key + ":" + (" " + StripCr(value));
    assert line[..|key|] == key && line[|key| + 1..] == " " + StripCr(value);
    NoTabs(line, head, StripCr(value));
    TrimNothing(key);
  }

  lemma NoTabs(line: string, head: string, rest: string)
    requires line == head + rest && '\t' !in head && '\t' !in rest
    ensures '\t' !in line
  {
  }

  lemma ColonAt(key: string, rest: string)
    requires ':' !in key
    ensures Find(key + ":" + rest, ":") == |key|
  {
    hide Find;
    var line := key + ":" + rest;
    forall i | 0 <= i < |key|
      ensures !(":" <= line[i..])
    {
      assert line[i..][0] == key[i] != ':';
    }
    assert line[|key|..] == ":" + rest;
    FindAt(line, ":", |key|);
  }

  lemma StripPlain(value: string)
    requires Field(value)
    ensures Field(StripCr(value))
  {
  }

  /** Trimming a space and a carriage return away. */
  lemma TrimField(value: string)
    requires Trim(value) == value
    ensures Trim(" " + StripCr(value)) == value
  {
    if value != "" {
      TrimmedEnds(value);
      assert (" " + value)[1..] == value;
      assert TrimStart(value) == value;
    } else {
      assert (" " + "")[1..] == "";
      assert TrimStart(" ") == TrimStart("") == "";
    }
  }

  lemma {:induction false} StartShortens(s: string)
    ensures |TrimStart(s)| <= |s| && (|TrimStart(s)| == |s| ==> TrimStart(s) == s && (s != "" ==> !IsSpace(s[0])))
    ensures TrimStart(s) != "" ==> !IsSpace(TrimStart(s)[0])
  {
    if s != "" && IsSpace(s[0]) {
      StartShortens(s[1..]);
    }
  }

  lemma {:induction false} EndShortens(s: string)
    ensures |TrimEnd(s)| <= |s| && (|TrimEnd(s)| == |s| ==> s != "" ==> !IsSpace(s[|s| - 1]))
    ensures TrimEnd(s) <= s && (TrimEnd(s) != "" ==> !IsSpace(TrimEnd(s)[|TrimEnd(s)| - 1]))
    decreases |s|
  {
    if s != "" && IsSpace(s[|s| - 1]) {
      EndShortens(s[..|s| - 1]);
    }
  }

  lemma TrimmedEnds(value: string)
    requires Trim(value) == value && value != ""
    ensures !IsSpace(value[0]) && !IsSpace(value[|value| - 1])
  {
    hide TrimStart, TrimEnd, IsSpace;
    StartShortens(value);
    EndShortens(TrimStart(value));
  }

  lemma TrimTwice(value: string)
    ensures Trim(Trim(value)) == Trim(value)
  {
    StartShortens(value);
    EndShortens(TrimStart(value));
    var t := Trim(value);
    if t != "" {
      assert t[0] == TrimStart(value)[0];
      TrimNothing(t);
    }
  }

  // ---------------------------------------------------------------------------------------
  // The header
  // ---------------------------------------------------------------------------------------

  function Stripped(lines: seq<string>): (r: seq<string>)
    ensures |r| == |lines| && forall i :: 0 <= i < |r| ==> r[i] == StripCr(lines[i])
  {
    seq(|lines|, i requires 0 <= i < |lines| => StripCr(lines[i]))
  }

  lemma {:induction false} LinesOfText(lines: seq<string>, rest: string)
    requires forall i :: 0 <= i < |lines| ==> '\n' !in lines[i]
    ensures LinesOf(LinesText(lines, rest)) == Stripped(lines) + LinesOf(rest)
  {
    hide LinesOf, StripCr;
    if lines == [] {
      assert Stripped(lines) + LinesOf(rest) == LinesOf(rest);
    } else {
      FirstLine(lines[0], LinesText(lines[1..], rest));
      LinesOfText(lines[1..], rest);
      assert Stripped(lines) == [StripCr(lines[0])] + Stripped(lines[1..]);
    }
  }

  lemma FieldJoin(a: string, b: string)
    ensures Field(a + b) <==> Field(a) && Field(b)
  {
    var t := a + b;
    assert forall c :: c in t <==> c in a || c in b;
  }

  lemma WordsAreFields()
    ensures Field(" (unix seconds, UTC)") && Field("none") && Field("tar") && Field("tar.zst")
  {
  }

  lemma DecIsField(n: nat)
    ensures Field(Dec(n)) && StripCr(Dec(n)) == Dec(n) && Trim(Dec(n)) == Dec(n) && Trim(" " + Dec(n)) == Dec(n)
  {
    PaddedDigits(0, n);
    hide Dec;
    var d := Dec(n);
    assert IsDecDigit(d[0]) && IsDecDigit(d[|d| - 1]);
    TrimNothing(d);
    TrimField(d);
  }

  /** Reading one more field line, whatever follows. */
  lemma FieldRead(stem: StemFn, r: Reading, key: string, value: string, rest: seq<string>, n: nat)
    requires IsKey(key) && Field(value)
    ensures ReadLines(stem, r, [StripCr(key + ": " + value)] + rest, n)
            == match ReadField(r, key, " " + StripCr(value), n)
               case Ok(next) => ReadLines(stem, next, rest, n + 1)
               case Err(e) => Err(e)
  {
    hide ReadLines, ReadLine, ReadField, StripCr, Trim;
    FieldLine(stem, r, key, value, n);
    ReadOne(stem, r, StripCr(key + ": " + value), rest, n);
  }

  /** What the header lines before the file count leave. */
  function AfterHead(job: Job): Reading {
    NOTHING.(clip := Some(Trim(" " + StripCr(job.clip))), container := Some(Container(job)))
  }

  lemma ContainerField(job: Job)
    ensures Field(Container(job)) && Trim(" " + StripCr(Container(job))) == Container(job)
  {
    hide Trim, StripCr;
    WordsAreFields();
    assert "tar"[0] == 't' && "tar"[2] == 'r' && "tar.zst"[0] == 't' && "tar.zst"[6] == 't';
    TrimNothing(Container(job));
    TrimField(Container(job));
  }

  lemma HeadRead(stem: StemFn, job: Job, created: nat, rest: seq<string>)
    requires Field(job.clip) && PlainTool(job)
    ensures var head := Stripped(ManifestHead(job, created));
            |head| == 7 && ReadLines(stem, NOTHING, head[1..] + rest, 2) == ReadLines(stem, AfterHead(job), rest, 8)
  {
    hide ReadLines, StripCr, Trim, Dec, Container, Field;
    WordsAreFields();
    ContainerField(job);
    var head := ManifestHead(job, created);
    var stamp := Dec(created) + " (unix seconds, UTC)";
    var level := if job.level.Some? then Dec(job.level.value) else "none";
    DecIsField(created);
    FieldJoin(Dec(created), " (unix seconds, UTC)");
    if job.level.Some? {
      DecIsField(job.level.value);
    }
    assert "created: " + Dec(created) + " (unix seconds, UTC)" == "created" + ": " + stamp;
    var l5 := [StripCr("zstd_level" + ": " + level)] + rest;
    var l4 := [StripCr("container" + ": " + Container(job))] + l5;
    var l3 := [StripCr("codec" + ": " + job.codec)] + l4;
    var l2 := [StripCr("tool_version" + ": " + job.versions.tool)] + l3;
    var l1 := [StripCr("created" + ": " + stamp)] + l2;
    HeadIs(job, created, rest, stamp, level);
    assert Stripped(head)[1..] + rest == [StripCr("clip" + ": " + job.clip)] + l1;
    HeadKeys();
    var r0 := NOTHING.(clip := Some(Trim(" " + StripCr(job.clip))));
    FieldRead(stem, NOTHING, "clip", job.clip, l1, 2);
    FieldRead(stem, r0, "created", stamp, l2, 3);
    FieldRead(stem, r0, "tool_version", job.versions.tool, l3, 4);
    FieldRead(stem, r0, "codec", job.codec, l4, 5);
    FieldRead(stem, r0, "container", Container(job), l5, 6);
    FieldRead(stem, AfterHead(job), "zstd_level", level, rest, 7);
  }

  lemma HeadKeys()
    ensures IsKey("clip") && IsKey("created") && IsKey("tool_version") && IsKey("codec") && IsKey("container") && IsKey("zstd_level")
  {
    hide IsKey;
    KeysThree();
    KeysMore();
  }

  lemma KeysThree()
    ensures IsKey("clip") && IsKey("created") && IsKey("tool_version")
  {
  }

  lemma KeysMore()
    ensures IsKey("codec") && IsKey("container") && IsKey("zstd_level")
  {
  }

  lemma TailKeys()
    ensures IsKey("tar_version") && IsKey("zstd_version") && IsKey("host")
  {
  }

  lemma CountKeys()
    ensures IsKey("file_count") && IsKey("archive")
  {
  }

  lemma HeadIs(job: Job, created: nat, rest: seq<string>, stamp: string, level: string)
    requires stamp == Dec(created) + " (unix seconds, UTC)"
    requires level == if job.level.Some? then Dec(job.level.value) else "none"
    ensures var head := ManifestHead(job, created);
            && |head| == 7 && head[0] == MAGIC && head[1] == "clip" + ": " + job.clip && head[2] == "created" + ": " + stamp
            && head[3] == "tool_version" + ": " + job.versions.tool && head[4] == "codec" + ": " + job.codec
            && head[5] == "container" + ": " + Container(job) && head[6] == "zstd_level" + ": " + level
  {
    hide Dec, Container;
    assert "clip: " == "clip" + ": " && "created: " == "created" + ": " && "tool_version: " == "tool_version" + ": ";
    assert "codec: " == "codec" + ": " && "container: " == "container" + ": " && "zstd_level: " == "zstd_level" + ": ";
    assert "created: " + Dec(created) + " (unix seconds, UTC)" == "created" + ": " + stamp;
  }

  // ---------------------------------------------------------------------------------------
  // The rows
  // ---------------------------------------------------------------------------------------

  function RowLine(sha: ShaFn, m: Member): string {
    m.rel + "\t" + Dec(|m.data|) + "\t" + sha(m.data)
  }

  function MemberLines(sha: ShaFn, members: seq<Member>): (lines: seq<string>)
    ensures |lines| == |members| && forall i :: 0 <= i < |lines| ==> lines[i] == RowLine(sha, members[i])
  {
    seq(|members|, i requires 0 <= i < |members| => RowLine(sha, members[i]))
  }

  lemma {:induction false} RowsTextIsLines(sha: ShaFn, members: seq<Member>)
    ensures RowsText(sha, members) == LinesText(MemberLines(sha, members), "")
  {
    hide Dec;
    if members != [] {
      RowsTextIsLines(sha, members[1..]);
      assert MemberLines(sha, members)[1..] == MemberLines(sha, members[1..]);
    }
  }

  lemma HexIsPlain(h: Hex)
    ensures '\t' !in h && '\n' !in h && StripCr(h) == h
  {
    assert IsLowerHex(h[63]);
  }

  lemma RowFields(sha: ShaFn, m: Member)
    requires Field(m.rel)
    ensures var line := StripCr(RowLine(sha, m));
            && '\n' !in RowLine(sha, m) && '\t' in line && line != COLUMNS
            && Split(line, '\t') == [m.rel, Dec(|m.data|), sha(m.data)]
  {
    hide Dec, Split, StripCr;
    DecIsField(|m.data|);
    HexIsPlain(sha(m.data));
    var head, line := m.rel + "\t" + Dec(|m.data|) + "\t", RowLine(sha, m);
    assert line == head + sha(m.data);
    StripTail(head, sha(m.data));
    assert line[|m.rel|] == '\t';
    assert line == m.rel + ['\t'] + (Dec(|m.data|) + ['\t'] + sha(m.data));
    SplitFirst(m.rel, '\t', Dec(|m.data|) + ['\t'] + sha(m.data));
    SplitFirst(Dec(|m.data|), '\t', sha(m.data));
    SplitPlain(sha(m.data), '\t');
    ColumnFields();
    assert [m.rel] + ([Dec(|m.data|)] + [sha(m.data)]) == [m.rel, Dec(|m.data|), sha(m.data)];
    assert Split(line, '\t')[2] == sha(m.data);
  }

  lemma ColumnFields()
    ensures var fields := Split(COLUMNS, '\t'); |fields| == 3 && |fields[2]| == 6
    ensures '\n' !in COLUMNS && '\t' in COLUMNS && StripCr(COLUMNS) == COLUMNS && COLUMNS != ""
  {
    hide Split;
    var rest := "size" + ['\t'] + "sha256";
    assert COLUMNS == "relpath" + ['\t'] + rest;
    SplitFirst("relpath", '\t', rest);
    SplitFirst("size", '\t', "sha256");
    SplitPlain("sha256", '\t');
    assert COLUMNS[7] == '\t' && COLUMNS[18] == '6';
  }

  lemma RowRead(stem: StemFn, sha: ShaFn, r: Reading, m: Member, n: nat)
    requires r.columns && GoodMember(stem, m)
    ensures ReadLine(stem, r, StripCr(RowLine(sha, m)), n)
            == Ok(r.(rows := r.rows + [SheetRow(m.rel, |m.data|, sha(m.data), stem(m.rel).value)]))
  {
    hide Dec, Split, StripCr, ParseUnsigned, COLUMNS, RowLine;
    RowFields(sha, m);
    ParseDec(|m.data|, U64_LIMIT);
  }

  /** The reading after the rows of the members. */
  ghost predicate WithRows(stem: StemFn, sha: ShaFn, r: Reading, members: seq<Member>, after: Reading) {
    && after == r.(rows := after.rows) && |after.rows| == |r.rows| + |members| && r.rows <= after.rows
    && RowsFor(stem, sha, members, after.rows[|r.rows|..])
  }

  lemma {:induction false} RowsRead(stem: StemFn, sha: ShaFn, r: Reading, members: seq<Member>, n: nat)
    requires r.columns && forall i :: 0 <= i < |members| ==> GoodMember(stem, members[i])
    ensures var after := ReadLines(stem, r, Stripped(MemberLines(sha, members)), n);
            after.Ok? && WithRows(stem, sha, r, members, after.value)
    decreases |members|
  {
    hide ReadLine, StripCr, RowLine, Field, WithRows;
    var lines := Stripped(MemberLines(sha, members));
    if members == [] {
      NoRowsYet(stem, sha, r);
    } else {
      var m := members[0];
      var row := SheetRow(m.rel, |m.data|, sha(m.data), stem(m.rel).value);
      var next := r.(rows := r.rows + [row]);
      RowRead(stem, sha, r, m, n);
      RowsRead(stem, sha, next, members[1..], n + 1);
      assert lines[1..] == Stripped(MemberLines(sha, members[1..]));
      WithRowsCons(stem, sha, r, members, row, ReadLines(stem, r, lines, n).value);
    }
  }

  lemma NoRowsYet(stem: StemFn, sha: ShaFn, r: Reading)
    ensures WithRows(stem, sha, r, [], r)
  {
  }

  lemma WithRowsCons(stem: StemFn, sha: ShaFn, r: Reading, members: seq<Member>, row: SheetRow, after: Reading)
    requires members != [] && IsRowOf(stem, sha, members[0], row)
    requires WithRows(stem, sha, r.(rows := r.rows + [row]), members[1..], after)
    ensures WithRows(stem, sha, r, members, after)
  {
    hide IsRowOf;
    var before := r.rows + [row];
    var rows := after.rows[|r.rows|..];
    assert after.rows[..|before|] == before;
    assert rows[0] == after.rows[..|before|][|r.rows|] == row && rows[1..] == after.rows[|before|..];
    assert r.rows <= after.rows by {
      assert after.rows[..|before|][..|r.rows|] == after.rows[..|r.rows|];
    }
    forall i | 0 <= i < |members|
      ensures IsRowOf(stem, sha, members[i], rows[i])
    {
      if i > 0 {
        assert members[i] == members[1..][i - 1] && rows[i] == rows[1..][i - 1];
      }
    }
  }

  // ---------------------------------------------------------------------------------------
  // The list of archives
  // ---------------------------------------------------------------------------------------

  /** A name that survives being listed. */
  predicate Listable(name: string) {
    name != "" && ',' !in name && !IsSpace(name[0]) && !IsSpace(name[|name| - 1])
  }

  lemma SplitSpace(s: string)
    ensures Split(" " + s, ',') == [" " + Split(s, ',')[0]] + Split(s, ',')[1..]
  {
    assert (" " + s)[1..] == s && [' '] == " ";
  }

  lemma TrimSpace(s: string)
    ensures Trim(" " + s) == Trim(s)
  {
    assert (" " + s)[1..] == s;
  }

  lemma {:induction false} ListRead(objects: seq<Object>)
    requires objects != [] && forall i :: 0 <= i < |objects| ==> Listable(objects[i].name)
    ensures Trimmed(Split(JoinNames(objects), ',')) == ObjectNames(objects)
  {
    hide Split, Trim, IsSpace;
    var name := objects[0].name;
    TrimNothing(name);
    if |objects| == 1 {
      SplitPlain(name, ',');
      assert Trimmed([name]) == [name] by {
        assert [name][1..] == [];
      }
    } else {
      var rest := objects[1..];
      ListRead(rest);
      assert ObjectNames(objects) == [name] + ObjectNames(rest);
      hide ObjectNames, Trimmed, JoinNames;
      ListCons(name, JoinNames(rest));
      JoinedCons(objects);
    }
  }

  lemma JoinedCons(objects: seq<Object>)
    requires |objects| > 1
    ensures JoinNames(objects) == objects[0].name + [','] + (" " + JoinNames(objects[1..]))
  {
    hide JoinNames;
    assert JoinNames(objects) == objects[0].name + ", " + JoinNames(objects[1..]) by {
      JoinStep(objects);
    }
    assert ", " == [','] + " ";
  }

  lemma JoinStep(objects: seq<Object>)
    requires |objects| > 1
    ensures JoinNames(objects) == objects[0].name + ", " + JoinNames(objects[1..])
  {
  }

  lemma ListCons(name: string, tail: string)
    requires ',' !in name && Trim(name) == name != ""
    ensures Trimmed(Split(name + [','] + (" " + tail), ',')) == [name] + Trimmed(Split(tail, ','))
  {
    hide Split, Trim;
    SplitFirst(name, ',', " " + tail);
    SplitSpace(tail);
    var pieces := Split(tail, ',');
    TrimSpace(pieces[0]);
    assert pieces == [pieces[0]] + pieces[1..];
    assert ([" " + pieces[0]] + pieces[1..])[1..] == pieces[1..];
    assert ([name] + Split(" " + tail, ','))[1..] == Split(" " + tail, ',');
    assert Trimmed(Split(" " + tail, ',')) == Trimmed(pieces);
  }

  lemma {:induction false} ListEnds(objects: seq<Object>)
    requires objects != [] && forall i :: 0 <= i < |objects| ==> Listable(objects[i].name) && Field(objects[i].name)
    ensures var t := JoinNames(objects); t != "" && !IsSpace(t[0]) && !IsSpace(t[|t| - 1]) && Field(t)
  {
    hide IsSpace;
    if |objects| > 1 {
      ListEnds(objects[1..]);
      var t, rest := JoinNames(objects), JoinNames(objects[1..]);
      assert t == objects[0].name + ", " + rest;
      assert t[0] == objects[0].name[0] && t[|t| - 1] == rest[|rest| - 1];
      assert Field(", ");
      FieldJoin(objects[0].name, ", ");
      FieldJoin(objects[0].name + ", ", rest);
    }
  }

  // ---------------------------------------------------------------------------------------
  // Only readable manifests are read
  // ---------------------------------------------------------------------------------------

  ghost predicate CleanRow(stem: StemFn, row: SheetRow) {
    Field(row.file) && stem(row.file) == Some(row.stem) && row.size < U64_LIMIT
  }

  ghost predicate CleanNames(names: seq<string>) {
    forall i :: 0 <= i < |names| ==> ',' !in names[i]
  }

  /** Whatever the text, what has been read satisfies this. */
  ghost predicate Clean(stem: StemFn, r: Reading) {
    && (r.clip.Some? ==> Field(r.clip.value) && Trim(r.clip.value) == r.clip.value)
    && (r.count.Some? ==> r.count.value < U64_LIMIT) && (r.parts.Some? ==> CleanNames(r.parts.value))
    && forall i :: 0 <= i < |r.rows| ==> CleanRow(stem, r.rows[i])
  }

  lemma {:induction false} SplitPieces(s: string, sep: char)
    ensures forall i :: 0 <= i < |Split(s, sep)| ==> sep !in Split(s, sep)[i] && forall c :: c in Split(s, sep)[i] ==> c in s
  {
    if s != "" {
      SplitPieces(s[1..], sep);
    }
  }

  lemma {:induction false} StartChars(s: string)
    ensures forall c :: c in TrimStart(s) ==> c in s
  {
    if s != "" {
      StartChars(s[1..]);
    }
  }

  lemma TrimChars(s: string)
    ensures forall c :: c in Trim(s) ==> c in s
  {
    hide IsSpace;
    StartChars(s);
    EndShortens(TrimStart(s));
  }

  lemma {:induction false} TrimmedClean(pieces: seq<string>)
    requires CleanNames(pieces)
    ensures CleanNames(Trimmed(pieces))
  {
    hide Trim;
    if pieces != [] {
      TrimmedClean(pieces[1..]);
      TrimChars(pieces[0]);
    }
  }

  lemma FieldClean(stem: StemFn, r: Reading, key: string, value: string, n: nat)
    requires Clean(stem, r) && Field(value) && ReadField(r, key, value, n).Ok?
    ensures Clean(stem, ReadField(r, key, value, n).value)
  {
    hide Trim, Split, ParseUnsigned, Trimmed;
    TrimChars(value);
    TrimTwice(value);
    SplitPieces(Trim(value), ',');
    TrimmedClean(Split(Trim(value), ','));
    CountBelow(Trim(value));
  }

  lemma CountBelow(s: string)
    ensures ParseUnsigned(10, U64_LIMIT, s).Some? ==> ParseUnsigned(10, U64_LIMIT, s).value < U64_LIMIT
  {
  }

  lemma RowClean(stem: StemFn, r: Reading, line: string, n: nat)
    requires Clean(stem, r) && '\n' !in line && ReadRow(stem, r, line, n).Ok?
    ensures Clean(stem, ReadRow(stem, r, line, n).value)
  {
    hide Split, ParseUnsigned;
    SplitPieces(line, '\t');
    CountBelow(Split(line, '\t')[1]);
  }

  lemma LineClean(stem: StemFn, r: Reading, line: string, n: nat)
    requires Clean(stem, r) && '\n' !in line && ReadLine(stem, r, line, n).Ok?
    ensures Clean(stem, ReadLine(stem, r, line, n).value)
  {
    hide ReadRow, ReadField, Find, Trim, COLUMNS;
    if line != "" {
      if '\t' in line {
        if line == COLUMNS {
        } else {
          RowClean(stem, r, line, n);
        }
      } else {
        var k := Find(line, ":");
        FieldClean(stem, r, Trim(line[..k]), line[k + 1..], n);
      }
    }
  }

  lemma {:induction false} LinesClean(stem: StemFn, r: Reading, lines: seq<string>, n: nat)
    requires Clean(stem, r) && (forall i :: 0 <= i < |lines| ==> '\n' !in lines[i]) && ReadLines(stem, r, lines, n).Ok?
    ensures Clean(stem, ReadLines(stem, r, lines, n).value)
    decreases |lines|
  {
    hide ReadLine, Clean;
    if lines != [] {
      LineClean(stem, r, lines[0], n);
      LinesClean(stem, ReadLine(stem, r, lines[0], n).value, lines[1..], n + 1);
    }
  }

  lemma {:induction false} LinesPlain(s: string)
    ensures forall i :: 0 <= i < |LinesOf(s)| ==> '\n' !in LinesOf(s)[i]
    decreases |s|
  {
    if s != "" {
      var n := Span(s, IsNewline);
      if n < |s| {
        LinesPlain(s[n + 1..]);
      }
    }
  }

  /** Whatever text is read: the clip has no white space around it and no tab in it, the archives
      have no comma, and every row's path has a stem. */
  lemma ParsedIsClean(stem: StemFn, tsv: string)
    requires Parsed(stem, tsv).Ok?
    ensures var sheet := Parsed(stem, tsv).value;
            && Field(sheet.clip) && Trim(sheet.clip) == sheet.clip && 0 < |sheet.rows| < U64_LIMIT
            && (sheet.parts.Some? ==> CleanNames(sheet.parts.value))
            && forall i :: 0 <= i < |sheet.rows| ==> CleanRow(stem, sheet.rows[i])
  {
    hide ReadLines, LinesOf, MAGIC, Trim;
    LinesPlain(tsv);
    LinesClean(stem, NOTHING, LinesOf(tsv)[1..], 2);
  }

  /** The lines that are rows: those with a tab, but for column lines. */
  function RowsAmong(lines: seq<string>): nat {
    if lines == [] then 0 else (if '\t' in lines[0] && lines[0] != COLUMNS then 1 else 0) + RowsAmong(lines[1..])
  }

  /** No tab before the column line. */
  ghost predicate ColumnsFirst(lines: seq<string>) {
    forall i :: 0 <= i < |lines| && '\t' in lines[i] ==> exists j :: 0 <= j <= i && lines[j] == COLUMNS
  }

  /** A field line that announces that many files. */
  ghost predicate Announces(line: string, n: nat) {
    '\t' !in line && exists key: string, value: string :: CountField(line, key, value, n)
  }

  ghost predicate CountField(line: string, key: string, value: string, n: nat) {
    line == key + ":" + value && Trim(key) == "file_count" && ParseUnsigned(10, U64_LIMIT, Trim(value)) == Some(n)
  }

  ghost predicate SomeAnnounces(lines: seq<string>, n: nat) {
    exists i :: 0 <= i < |lines| && Announces(lines[i], n)
  }

  lemma LineStrict(stem: StemFn, r: Reading, line: string, n: nat)
    requires ReadLine(stem, r, line, n).Ok?
    ensures var next := ReadLine(stem, r, line, n).value;
            && |next.rows| == |r.rows| + RowsAmong([line])
            && ('\t' in line ==> line == COLUMNS || r.columns) && (next.columns <==> r.columns || line == COLUMNS)
            && (next.count == r.count || (next.count.Some? && Announces(line, next.count.value)))
  {
    hide Trim, Split, ParseUnsigned, COLUMNS, Trimmed;
    assert [line][1..] == [];
    ColumnFields();
    if line != "" && '\t' !in line {
      var k := Find(line, ":");
      assert line[k..] == ":" + line[k + 1..];
      assert line == line[..k] + ":" + line[k + 1..];
      var next := ReadLine(stem, r, line, n).value;
      if next.count != r.count {
        assert CountField(line, line[..k], line[k + 1..], next.count.value);
      }
    }
  }

  lemma {:induction false} LinesStrict(stem: StemFn, r: Reading, lines: seq<string>, n: nat)
    requires ReadLines(stem, r, lines, n).Ok?
    ensures var after := ReadLines(stem, r, lines, n).value;
            && |after.rows| == |r.rows| + RowsAmong(lines) && (r.columns || ColumnsFirst(lines))
            && (after.count == r.count || (after.count.Some? && SomeAnnounces(lines, after.count.value)))
    decreases |lines|
  {
    hide ReadLine, COLUMNS, Announces;
    if lines != [] {
      var line, rest := lines[0], lines[1..];
      LineStrict(stem, r, line, n);
      var next := ReadLine(stem, r, line, n).value;
      LinesStrict(stem, next, rest, n + 1);
      assert [line][1..] == [];
      assert forall i :: 0 < i < |lines| ==> lines[i] == rest[i - 1];
      var after := ReadLines(stem, r, lines, n).value;
      if after.count.Some? && SomeAnnounces(rest, after.count.value) {
        var i :| 0 <= i < |rest| && Announces(rest[i], after.count.value);
        assert Announces(lines[i + 1], after.count.value);
      }
      if !r.columns && line != COLUMNS {
        forall i | 0 <= i < |lines| && '\t' in lines[i]
          ensures exists j :: 0 <= j <= i && lines[j] == COLUMNS
        {
          var j :| 0 <= j <= i - 1 && rest[j] == COLUMNS;
          assert lines[j + 1] == COLUMNS;
        }
      }
    }
  }

  /** Whatever text is read: it begins with the manifest's first line, no tab comes before the
      column line, every other line with a tab is a row, and as many are announced. */
  lemma ParsedIsStrict(stem: StemFn, tsv: string)
    requires Parsed(stem, tsv).Ok?
    ensures var lines, rows := LinesOf(tsv), |Parsed(stem, tsv).value.rows|;
            && lines != [] && lines[0] == "# frameprism bake manifest" && ColumnsFirst(lines[1..])
            && rows == RowsAmong(lines[1..]) && SomeAnnounces(lines[1..], rows)
  {
    hide ReadLines, LinesOf, COLUMNS, Announces;
    LinesStrict(stem, NOTHING, LinesOf(tsv)[1..], 2);
  }

  // ---------------------------------------------------------------------------------------
  // Which manifests are read back
  // ---------------------------------------------------------------------------------------

  function ArchiveLine(objects: seq<Object>): seq<string> {
    if |objects| > 1 then ["archive" + ": " + JoinNames(objects)] else []
  }

  function ToolLines(job: Job): (lines: seq<string>)
    ensures |lines| == 4
  {
    ["tar_version" + ": " + job.versions.tar, "zstd_version" + ": " + job.versions.zstd, "host" + ": " + job.versions.host, COLUMNS]
  }

  function CountLine(job: Job): string {
    "file_count" + ": " + Dec(|job.members|)
  }

  lemma {:induction false} TextAppend(a: seq<string>, b: seq<string>, rest: string)
    ensures LinesText(a + b, rest) == LinesText(a, LinesText(b, rest))
  {
    if a == [] {
      assert [] + b == b;
    } else {
      assert (a + b)[1..] == a[1..] + b;
      TextAppend(a[1..], b, rest);
    }
  }

  lemma TextOfOne(line: string, rest: string)
    ensures LinesText([line], rest) == line + "\n" + rest
  {
    assert [line][1..] == [];
  }

  /** A manifest line by line. */
  function Lines(job: Job, sha: ShaFn, objects: seq<Object>, created: nat): seq<string> {
    ManifestHead(job, created) + ([CountLine(job)] + (ArchiveLine(objects) + (ToolLines(job) + MemberLines(sha, job.members))))
  }

  lemma ManifestIsLines(job: Job, sha: ShaFn, objects: seq<Object>, created: nat)
    ensures ManifestText(job, sha, objects, created) == LinesText(Lines(job, sha, objects, created), "")
  {
    hide Dec, RowsText, LinesText, ManifestHead, ToolLines, MemberLines, JoinNames;
    var rows := MemberLines(sha, job.members);
    RowsTextIsLines(sha, job.members);
    var tail := ArchiveLine(objects) + ToolLines(job);
    TailIsLines(job, sha, objects);
    TextAppend(tail, rows, "");
    assert tail + rows == ArchiveLine(objects) + (ToolLines(job) + rows);
    TextAppend([CountLine(job)], tail + rows, "");
    TextOfOne(CountLine(job), LinesText(tail + rows, ""));
    assert "file_count: " == "file_count" + ": ";
    TextAppend(ManifestHead(job, created), [CountLine(job)] + (tail + rows), "");
  }

  lemma TailIsLines(job: Job, sha: ShaFn, objects: seq<Object>)
    ensures ManifestTail(job, sha, objects) == LinesText(ArchiveLine(objects) + ToolLines(job), RowsText(sha, job.members))
  {
    hide RowsText, JoinNames, LinesText;
    assert "archive: " == "archive" + ": " && "tar_version: " == "tar_version" + ": ";
    assert "zstd_version: " == "zstd_version" + ": " && "host: " == "host" + ": ";
  }

  /** The readings after the file count, the archives and the tool's lines. */
  function AfterTool(job: Job, objects: seq<Object>): Reading {
    AfterHead(job).(count := Some(|job.members|), parts := if |objects| > 1 then Some(ObjectNames(objects)) else None, columns := true)
  }

  lemma CountRead(stem: StemFn, r: Reading, job: Job, rest: seq<string>, n: nat)
    requires |job.members| < U64_LIMIT
    ensures ReadLines(stem, r, [StripCr(CountLine(job))] + rest, n)
            == ReadLines(stem, r.(count := Some(|job.members|)), rest, n + 1)
  {
    hide ReadLines, StripCr, Trim, Dec, ParseUnsigned, IsKey;
    CountKeys();
    DecIsField(|job.members|);
    ParseDec(|job.members|, U64_LIMIT);
    FieldRead(stem, r, "file_count", Dec(|job.members|), rest, n);
  }

  lemma ArchiveRead(stem: StemFn, r: Reading, objects: seq<Object>, rest: seq<string>, n: nat)
    requires |objects| > 1 && forall i :: 0 <= i < |objects| ==> Listable(objects[i].name) && Field(objects[i].name)
    ensures ReadLines(stem, r, [StripCr("archive" + ": " + JoinNames(objects))] + rest, n)
            == ReadLines(stem, r.(parts := Some(ObjectNames(objects))), rest, n + 1)
  {
    hide ReadLines, StripCr, Trim, IsKey, JoinNames, Split, Listable;
    CountKeys();
    ListEnds(objects);
    TrimNothing(JoinNames(objects));
    TrimField(JoinNames(objects));
    ListRead(objects);
    FieldRead(stem, r, "archive", JoinNames(objects), rest, n);
  }

  lemma ToolRead(stem: StemFn, r: Reading, job: Job, rest: seq<string>, n: nat)
    requires PlainTool(job)
    ensures ReadLines(stem, r, Stripped(ToolLines(job)) + rest, n) == ReadLines(stem, r.(columns := true), rest, n + 4)
  {
    hide ReadLines, StripCr, IsKey, Field, COLUMNS;
    TailKeys();
    ColumnFields();
    var l3 := [StripCr(COLUMNS)] + rest;
    var l2 := [StripCr("host" + ": " + job.versions.host)] + l3;
    var l1 := [StripCr("zstd_version" + ": " + job.versions.zstd)] + l2;
    assert Stripped(ToolLines(job)) + rest == [StripCr("tar_version" + ": " + job.versions.tar)] + l1;
    FieldRead(stem, r, "tar_version", job.versions.tar, l1, n);
    FieldRead(stem, r, "zstd_version", job.versions.zstd, l2, n + 1);
    FieldRead(stem, r, "host", job.versions.host, l3, n + 2);
    ReadOne(stem, r, COLUMNS, rest, n + 3);
  }

  /** A job whose manifest is read back: a clip in a field of its own, without a comma if archives
      are listed, at least one member, and members with good paths and sizes. */
  ghost predicate Audits(stem: StemFn, job: Job, archives: nat) {
    && Field(job.clip) && Trim(job.clip) == job.clip && (archives > 1 ==> ',' !in job.clip)
    && 0 < |job.members| < U64_LIMIT && forall i :: 0 <= i < |job.members| ==> GoodMember(stem, job.members[i])
  }

  lemma NamesListable(job: Job, parts: nat, i: nat)
    requires parts > 1 && Field(job.clip) && Trim(job.clip) == job.clip
    ensures Field(ObjectName(job, parts, i)) && (Listable(ObjectName(job, parts, i)) <==> ',' !in job.clip)
  {
    hide Trim, IsSpace, Padded, Field;
    var digits, tail := Padded(10, 2, i + 1), "." + Container(job);
    NumberPlain(i + 1);
    TailPlain(job);
    var name := ObjectName(job, parts, i);
    assert name == job.clip + ".part" + digits + tail;
    FieldJoin(job.clip, ".part");
    FieldJoin(job.clip + ".part", digits);
    FieldJoin(job.clip + ".part" + digits, tail);
    assert name[|name| - 1] == tail[|tail| - 1];
    if job.clip != "" {
      TrimmedEnds(job.clip);
      assert name[0] == job.clip[0];
    } else {
      assert name[0] == '.';
    }
    assert forall c :: c in name <==> c in job.clip || c in ".part" || c in digits || c in tail;
  }

  lemma NumberPlain(n: nat)
    ensures Field(Padded(10, 2, n)) && ',' !in Padded(10, 2, n)
  {
    PaddedDigits(2, n);
  }

  lemma TailPlain(job: Job)
    ensures var tail := "." + Container(job); Field(tail) && ',' !in tail && !IsSpace(tail[|tail| - 1])
    ensures Field(".part") && ',' !in ".part" && !IsSpace('.')
  {
    assert "tar"[2] == 'r' && "tar.zst"[6] == 't';
    assert Field("tar") && Field("tar.zst") && ',' !in "tar" && ',' !in "tar.zst";
  }

  /** All lines of such a manifest are lines. */
  lemma LinesAreLines(stem: StemFn, job: Job, sha: ShaFn, objects: seq<Object>, created: nat)
    requires Audits(stem, job, |objects|) && PlainTool(job) && (|objects| > 1 ==> Field(JoinNames(objects)))
    ensures forall i :: 0 <= i < |Lines(job, sha, objects, created)| ==> '\n' !in Lines(job, sha, objects, created)[i]
  {
    hide Dec, Trim, MemberLines, ToolLines, ManifestHead, RowLine, CountLine, ArchiveLine, JoinNames;
    HeadPlain(job, created);
    ToolPlain(job, objects);
    forall i | 0 <= i < |job.members|
      ensures '\n' !in MemberLines(sha, job.members)[i]
    {
      RowFields(sha, job.members[i]);
    }
    var a, b, c, d, e := ManifestHead(job, created), [CountLine(job)], ArchiveLine(objects), ToolLines(job), MemberLines(sha, job.members);
    AllJoin(d, e);
    AllJoin(c, d + e);
    AllJoin(b, c + (d + e));
    AllJoin(a, b + (c + (d + e)));
  }

  ghost predicate AllLines(lines: seq<string>) {
    forall i :: 0 <= i < |lines| ==> '\n' !in lines[i]
  }

  lemma AllJoin(a: seq<string>, b: seq<string>)
    requires AllLines(a) && AllLines(b)
    ensures AllLines(a + b)
  {
  }

  lemma HeadPlain(job: Job, created: nat)
    requires Field(job.clip) && PlainTool(job)
    ensures AllLines(ManifestHead(job, created))
  {
    hide Dec, Container, Field;
    var stamp := Dec(created) + " (unix seconds, UTC)";
    var level := if job.level.Some? then Dec(job.level.value) else "none";
    WordsAreFields();
    ContainerField(job);
    DecIsField(created);
    FieldJoin(Dec(created), " (unix seconds, UTC)");
    if job.level.Some? {
      DecIsField(job.level.value);
    }
    HeadIs(job, created, [], stamp, level);
    HeadKeys();
    KeyedLine("clip", job.clip);
    KeyedLine("created", stamp);
    KeyedLine("tool_version", job.versions.tool);
    KeyedLine("codec", job.codec);
    KeyedLine("container", Container(job));
    KeyedLine("zstd_level", level);
    MagicLine();
  }

  lemma MagicLine()
    ensures '\n' !in MAGIC && StripCr(MAGIC) == MAGIC
  {
    assert MAGIC[|MAGIC| - 1] == 't';
  }

  lemma KeyedLine(key: string, value: string)
    requires IsKey(key) && Field(value)
    ensures '\n' !in key + ": " + value
  {
    assert '\n' !in ": ";
  }

  lemma ToolPlain(job: Job, objects: seq<Object>)
    requires PlainTool(job) && (|objects| > 1 ==> Field(JoinNames(objects)))
    ensures AllLines(ToolLines(job)) && AllLines([CountLine(job)]) && AllLines(ArchiveLine(objects))
  {
    hide Dec, Field, IsKey, JoinNames, COLUMNS, AllLines;
    TailKeys();
    CountKeys();
    DecIsField(|job.members|);
    KeyedLine("file_count", Dec(|job.members|));
    KeyedLine("tar_version", job.versions.tar);
    KeyedLine("zstd_version", job.versions.zstd);
    KeyedLine("host", job.versions.host);
    ColumnFields();
    FourLines(ToolLines(job)[0], ToolLines(job)[1], ToolLines(job)[2], COLUMNS);
    OneLine(CountLine(job));
    if |objects| > 1 {
      KeyedLine("archive", JoinNames(objects));
      OneLine(ArchiveLine(objects)[0]);
    } else {
      NoLine();
    }
  }

  lemma FourLines(a: string, b: string, c: string, d: string)
    requires '\n' !in a && '\n' !in b && '\n' !in c && '\n' !in d
    ensures AllLines([a, b, c, d])
  {
  }

  lemma OneLine(a: string)
    requires '\n' !in a
    ensures AllLines([a])
  {
  }

  lemma NoLine()
    ensures AllLines([])
  {
  }

  lemma StrippedJoin(a: seq<string>, b: seq<string>)
    ensures Stripped(a + b) == Stripped(a) + Stripped(b)
  {
    hide StripCr;
  }

  /** Such a manifest is read line by line to what was baked. */
  lemma AuditReads(stem: StemFn, job: Job, sha: ShaFn, objects: seq<Object>, created: nat)
    requires Audits(stem, job, |objects|) && PlainTool(job)
    requires |objects| > 1 ==> forall i :: 0 <= i < |objects| ==> Listable(objects[i].name) && Field(objects[i].name)
    ensures var lines := Stripped(Lines(job, sha, objects, created));
            && |lines| > 0 && lines[0] == MAGIC
            && var r := ReadLines(stem, NOTHING, lines[1..], 2);
               r.Ok? && WithRows(stem, sha, AfterTool(job, objects), job.members, r.value)
  {
    hide ReadLines, StripCr, Trim, Dec, ManifestHead, ToolLines, MemberLines, RowsFor, JoinNames, MAGIC, Field, Listable, AfterHead, CountLine;
    var rows := MemberLines(sha, job.members);
    var t3 := Stripped(rows);
    var t2 := Stripped(ToolLines(job)) + t3;
    var t1 := Stripped(ArchiveLine(objects)) + t2;
    var t0 := [StripCr(CountLine(job))] + t1;
    var lines := Stripped(Lines(job, sha, objects, created));
    StrippedJoin(ToolLines(job), rows);
    StrippedJoin(ArchiveLine(objects), ToolLines(job) + rows);
    StrippedJoin([CountLine(job)], ArchiveLine(objects) + (ToolLines(job) + rows));
    StrippedJoin(ManifestHead(job, created), [CountLine(job)] + (ArchiveLine(objects) + (ToolLines(job) + rows)));
    assert Stripped([CountLine(job)]) == [StripCr(CountLine(job))];
    var head := Stripped(ManifestHead(job, created));
    assert lines == head + t0;
    HeadRead(stem, job, created, t0);
    HeadFirst(job, created);
    assert lines[1..] == head[1..] + t0;
    var r1 := AfterHead(job).(count := Some(|job.members|));
    CountRead(stem, AfterHead(job), job, t1, 8);
    if |objects| > 1 {
      assert Stripped(ArchiveLine(objects)) == [StripCr("archive" + ": " + JoinNames(objects))];
      ArchiveRead(stem, r1, objects, t2, 9);
    } else {
      assert t1 == t2;
      HeadHasNoParts(job);
    }
    var r2 := r1.(parts := if |objects| > 1 then Some(ObjectNames(objects)) else None);
    ToolRead(stem, r2, job, t3, if |objects| > 1 then 10 else 9);
    RowsRead(stem, sha, AfterTool(job, objects), job.members, if |objects| > 1 then 14 else 13);
  }

  lemma HeadHasNoParts(job: Job)
    ensures AfterHead(job).parts == None && AfterHead(job).rows == []
  {
  }

  lemma HeadFirst(job: Job, created: nat)
    ensures |ManifestHead(job, created)| == 7 && Stripped(ManifestHead(job, created))[0] == MAGIC
  {
    hide Dec, Container;
    MagicLine();
  }

  lemma ReadBack(stem: StemFn, job: Job, sha: ShaFn, objects: seq<Object>, created: nat)
    requires Audits(stem, job, |objects|) && PlainTool(job)
    requires |objects| > 1 ==> forall i :: 0 <= i < |objects| ==> Listable(objects[i].name) && Field(objects[i].name)
    ensures var s := Parsed(stem, ManifestText(job, sha, objects, created));
            s.Ok? && SheetOf(stem, sha, job, objects, s.value)
  {
    hide ReadLines, StripCr, Trim, Lines, LinesText, ManifestText, MAGIC, LinesOf, RowsFor, Field, Container, ObjectNames, Listable;
    var lines := Lines(job, sha, objects, created);
    ManifestIsLines(job, sha, objects, created);
    if |objects| > 1 {
      ListEnds(objects);
    }
    LinesAreLines(stem, job, sha, objects, created);
    LinesOfText(lines, "");
    NoMoreLines();
    assert LinesOf(LinesText(lines, "")) == Stripped(lines);
    AuditReads(stem, job, sha, objects, created);
    TrimField(job.clip);
    var r := ReadLines(stem, NOTHING, Stripped(lines)[1..], 2).value;
    assert r.rows[0..] == r.rows;
  }

  lemma NoMoreLines()
    ensures LinesOf("") == []
  {
  }

  /** The audit reads the manifest of a bake back, every member's path, size and digest in order,
      exactly if the clip's name is trimmed, without tab and line feed and, where archives are
      listed, without a comma, and every member has a path for a column and a size of 64 bits. */
  lemma ManifestAudited(stem: StemFn, job: Job, archive: ArchiveFn, sha: ShaFn, created: nat)
    requires PartsOf(job).Ok? && PlainTool(job)
    ensures var objects := PlanAt(job, archive, sha, created).objects;
            var s := Parsed(stem, ManifestText(job, sha, objects, created));
            Audits(stem, job, |objects|) <==> s.Ok? && SheetOf(stem, sha, job, objects, s.value)
  {
    hide Parsed, ManifestText, Field, Trim, ObjectName, PartsOf, Container, Listable, Utf8.Octets;
    var objects := PlanAt(job, archive, sha, created).objects;
    var s := Parsed(stem, ManifestText(job, sha, objects, created));
    if Audits(stem, job, |objects|) {
      forall i | 0 <= i < |objects| && |objects| > 1
        ensures Listable(objects[i].name) && Field(objects[i].name)
      {
        NamesListable(job, |objects|, i);
      }
      ReadBack(stem, job, sha, objects, created);
    }
    if s.Ok? && SheetOf(stem, sha, job, objects, s.value) {
      ParsedIsClean(stem, ManifestText(job, sha, objects, created));
      forall i | 0 <= i < |job.members|
        ensures GoodMember(stem, job.members[i])
      {
        assert CleanRow(stem, s.value.rows[i]) && IsRowOf(stem, sha, job.members[i], s.value.rows[i]);
      }
      if |objects| > 1 {
        assert ',' !in ObjectNames(objects)[0];
        ClipInName(job, |objects|);
      }
    }
  }

  lemma ClipInName(job: Job, parts: nat)
    requires parts > 1 && ',' !in ObjectName(job, parts, 0)
    ensures ',' !in job.clip
  {
    hide Padded, Container;
    var name := ObjectName(job, parts, 0);
    assert forall c :: c in job.clip ==> c in name;
  }

  /** So the manifest on disk after a completed bake reads as that sheet. */
  lemma FinishedAudits(stem: StemFn, files: Files, job: Job, archive: ArchiveFn, sha: ShaFn)
    requires PartsOf(job).Ok? && PlainTool(job) && SameAsUninterrupted(files, job, archive, sha)
    requires Audits(stem, job, |PartsOf(job).value|)
    ensures ManifestName(job) in files && Utf8.Text(files[ManifestName(job)]).Some?
    ensures var s := Parsed(stem, Utf8.Text(files[ManifestName(job)]).value);
            s.Ok? && exists created: nat :: SheetOf(stem, sha, job, PlanAt(job, archive, sha, created).objects, s.value)
  {
    hide Parsed, ManifestText, Audits, SheetOf, PartsOf, PlainTool, Utf8.Octets, Utf8.Text;
    var created: nat :| Finished(files, sha, PlanAt(job, archive, sha, created));
    var objects := PlanAt(job, archive, sha, created).objects;
    Utf8.TextOfOctets(ManifestText(job, sha, objects, created));
    ManifestAudited(stem, job, archive, sha, created);
  }
}
