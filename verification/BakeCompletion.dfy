/** The completion marker of a bake (tool/src/bake.rs): what a sidecar verifies, that a finished
    bake is recognised and skipped, and what the marker does not see. */
module BakeCompletion {
  import opened Prelude
  import opened Xml
  import opened TextLines
  import opened Numerals
  import opened Bake
  import opened BakeRuns
  import opened BakeResume
  import opened BakeContents
  import Partition
  import Utf8

  // ---------------------------------------------------------------------------------------
  // The sidecar
  // ---------------------------------------------------------------------------------------

  lemma HexIsField(h: Hex)
    ensures Trim(h) == h && LowerCase(h) == h && forall i :: 0 <= i < 64 ==> IsHexDigit(h[i])
  {
    HexPlain(h[0]);
    HexPlain(h[63]);
    TrimNothing(h);
    forall i | 0 <= i < 64
      ensures LowerCase(h)[i] == h[i] && IsHexDigit(h[i])
    {
      HexPlain(h[i]);
    }
  }

  lemma HexPlain(c: char)
    requires IsLowerHex(c)
    ensures !IsSpace(c) && IsHexDigit(c) && !('A' <= c <= 'Z') && c != '\n' && c != '\r' && c != ' '
  {
  }

  lemma SidecarLine(h: Hex, name: string)
    requires '\n' !in name
    ensures exists line :: LinesOf(SidecarText(h, name)) == [line] && |line| >= 66 && line[..64] == h && line[64] == line[65] == ' '
  {
    hide StripCr, LinesOf;
    var text := h + "  " + name;
    forall i | 0 <= i < 64
      ensures h[i] != '\n'
    {
      HexPlain(h[i]);
    }
    assert SidecarText(h, name) == text + "\n" + "";
    FirstLine(text, "");
    EmptyText();
    StripSpaces(h, name);
  }

  lemma EmptyText()
    ensures LinesOf("") == []
  {
  }

  lemma StripSpaces(h: Hex, name: string)
    ensures var line := StripCr(h + "  " + name); |line| >= 66 && line[..64] == h && line[64] == line[65] == ' '
  {
    var head := h + "  ";
    StripTail(head, name);
    assert h + "  " + name == head + name;
    assert (head + StripCr(name))[..64] == h;
  }

  /** A written sidecar verifies an object exactly when it records the object's digest. */
  lemma SidecarVerifies(sha: ShaFn, bytes: seq<byte>, h: Hex, name: string)
    requires '\n' !in name
    ensures VerifyObjectSidecar(sha, bytes, Utf8.Octets(SidecarText(h, name))) == Ok(sha(bytes) == h)
  {
    hide Trim, LinesOf, Find, SidecarText, Utf8.Octets, Utf8.Text;
    Utf8.TextOfOctets(SidecarText(h, name));
    SidecarLine(h, name);
    var line :| LinesOf(SidecarText(h, name)) == [line] && |line| >= 66 && line[..64] == h && line[64] == line[65] == ' ';
    HexPlain(h[0]);
    assert line[0] == line[..64][0] == h[0];
    NotBlank(line, 0);
    HexUnspaced(h);
    assert h + "  " <= line;
    FieldEnds(line, h);
    HexIsField(h);
  }

  lemma HexUnspaced(h: Hex)
    ensures ' ' !in h
  {
    assert !IsLowerHex(' ');
  }

  /** Two spaces end the first field. */
  lemma FieldEnds(line: string, field: string)
    requires field + "  " <= line && ' ' !in field
    ensures Find(line, "  ") == |field|
  {
    hide Find;
    var n := |field|;
    assert line[..n + 2] == field + "  ";
    forall i | 0 <= i < n
      ensures !("  " <= line[i..])
    {
      assert line[i..][0] == line[..n + 2][i] == field[i];
    }
    assert line[n..][0] == line[..n + 2][n] && line[n..][1] == line[..n + 2][n + 1];
    assert "  " <= line[n..];
    FindAt(line, "  ", n);
  }

  // ---------------------------------------------------------------------------------------
  // The manifest's file count
  // ---------------------------------------------------------------------------------------

  /** A header line that does not announce a file count. */
  ghost predicate Quiet(line: string) {
    '\n' !in line && |line| > 1 && line[0] != 'f'
  }

  lemma QuietSkipped(line: string, rest: string)
    requires Quiet(line)
    ensures FileCount(LinesOf(line + "\n" + rest)) == FileCount(LinesOf(rest))
  {
    hide LinesOf, ParseUnsigned, TrimPrefix, Trim;
    FirstLine(line, rest);
    var s, more := StripCr(line), LinesOf(rest);
    assert COUNT_KEY[0] == 'f';
    assert s[0] == line[0];
    assert ([s] + more)[1..] == more;
  }

  lemma {:induction false} QuietLines(lines: seq<string>, rest: string)
    requires forall i :: 0 <= i < |lines| ==> Quiet(lines[i])
    ensures FileCount(LinesOf(LinesText(lines, rest))) == FileCount(LinesOf(rest))
  {
    hide LinesOf, FileCount, Quiet;
    if lines != [] {
      QuietSkipped(lines[0], LinesText(lines[1..], rest));
      QuietLines(lines[1..], rest);
    }
  }

  lemma DecEdges(n: nat)
    ensures !IsSpace(Dec(n)[0]) && !IsSpace(Dec(n)[|Dec(n)| - 1]) && Dec(n)[|Dec(n)| - 1] != '\r' && '\n' !in Dec(n)
  {
    PaddedDigits(0, n);
    hide Dec;
    assert IsDecDigit(Dec(n)[0]) && IsDecDigit(Dec(n)[|Dec(n)| - 1]);
  }

  lemma CountLine(n: nat, rest: string)
    requires n < 0x1_0000_0000_0000_0000
    ensures FileCount(LinesOf("file_count: " + Dec(n) + "\n" + rest)) == Some(n)
  {
    hide LinesOf, ParseUnsigned, Trim, Dec;
    var line := "file_count: " + Dec(n);
    DecEdges(n);
    assert '\n' !in "file_count: ";
    FirstLine(line, rest);
    assert StripCr(line) == line;
    CountPrefix(Dec(n));
    TrimSpace(Dec(n));
    ParseDec(n, 0x1_0000_0000_0000_0000);
  }

  lemma CountPrefix(digits: string)
    ensures var line := "file_count: " + digits;
            COUNT_KEY <= line && TrimPrefix(line, COUNT_KEY) == " " + digits
  {
    var line := "file_count: " + digits;
    assert "file_count: " == COUNT_KEY + " ";
    assert line == COUNT_KEY + (" " + digits);
    assert line[|COUNT_KEY|..] == " " + digits;
    assert COUNT_KEY[0] == 'f';
  }

  lemma TrimSpace(s: string)
    requires s != "" && !IsSpace(s[0]) && !IsSpace(s[|s| - 1])
    ensures Trim(" " + s) == s
  {
    assert (" " + s)[1..] == s && TrimStart(s) == s;
    TrimNothing(s);
  }

  /** Names and versions that keep the manifest's line structure. */
  predicate Lineless(job: Job) {
    '\n' !in job.clip && '\n' !in job.versions.tool && '\n' !in job.codec
  }

  lemma HeadIsQuiet(job: Job, created: nat)
    requires Lineless(job)
    ensures forall i :: 0 <= i < 7 ==> Quiet(ManifestHead(job, created)[i])
  {
    hide Dec, Container;
    var head := ManifestHead(job, created);
    DecEdges(created);
    assert Quiet(head[0]);
    QuietAfter("clip: ", job.clip);
    QuietAfter("created: ", Dec(created) + " (unix seconds, UTC)");
    assert "created: " + Dec(created) + " (unix seconds, UTC)" == "created: " + (Dec(created) + " (unix seconds, UTC)");
    QuietAfter("tool_version: ", job.versions.tool);
    QuietAfter("codec: ", job.codec);
    ContainerLine(job);
    QuietAfter("container: ", Container(job));
    if job.level.Some? {
      DecEdges(job.level.value);
    }
    QuietAfter("zstd_level: ", if job.level.Some? then Dec(job.level.value) else "none");
  }

  lemma ContainerLine(job: Job)
    ensures '\n' !in Container(job)
  {
  }

  lemma QuietAfter(key: string, value: string)
    requires |key| > 1 && key[0] != 'f' && '\n' !in key && '\n' !in value
    ensures Quiet(key + value)
  {
  }

  lemma ManifestCounts(job: Job, sha: ShaFn, objects: seq<Object>, created: nat)
    requires Lineless(job) && |job.members| < 0x1_0000_0000_0000_0000
    ensures FileCount(LinesOf(ManifestText(job, sha, objects, created))) == Some(|job.members|)
  {
    hide LinesOf, FileCount, Quiet, ManifestHead, ManifestTail, Dec, LinesText;
    HeadIsQuiet(job, created);
    var rest := "file_count: " + Dec(|job.members|) + "\n" + ManifestTail(job, sha, objects);
    HeadSize(job, created);
    QuietLines(ManifestHead(job, created), rest);
    CountLine(|job.members|, ManifestTail(job, sha, objects));
  }

  lemma HeadSize(job: Job, created: nat)
    ensures |ManifestHead(job, created)| == 7
  {
  }

  // ---------------------------------------------------------------------------------------
  // Skipping
  // ---------------------------------------------------------------------------------------

  lemma ObjectNameLineless(job: Job)
    requires Lineless(job)
    ensures '\n' !in ObjectName(job, 1, 0)
  {
    ContainerLine(job);
  }

  /** Over the single archive of a finished bake, the completion check of another job of that
      name and container looks at the number of files and at nothing else. */
  lemma FinishedCompletion(sha: ShaFn, archive: ArchiveFn, files: Files, built: Job, resumed: Job, t: nat, u: nat)
    requires PartsOf(built).Ok? && PartsOf(resumed).Ok?
    requires |PartsOf(built).value| == 1 == |PartsOf(resumed).value|
    requires built.clip == resumed.clip && built.level.Some? == resumed.level.Some?
    requires Lineless(built) && |built.members| < 0x1_0000_0000_0000_0000
    requires Finished(files, sha, PlanAt(built, archive, sha, t))
    ensures var plan := PlanAt(resumed, archive, sha, u);
            |plan.objects| == 1
            && Completion(sha, Apply(files, RemoveAll(Temps(files))), plan.objects[0].name, plan.manifest, plan.rows)
               == if |built.members| == |resumed.members| then Ok(()) else Err(OtherFileCount(|built.members|))
  {
    hide PartsOf, ManifestText, SidecarText, Utf8.Octets, VerifyObjectSidecar, FileCount, LinesOf, IsBakeTemp, Utf8.Text;
    var plan, plan' := PlanAt(built, archive, sha, t), PlanAt(resumed, archive, sha, u);
    var o := plan.objects[0];
    assert plan'.objects[0].name == o.name == ObjectName(built, 1, 0);
    PlanAtApart(built, archive, sha, t);
    ManifestApart(plan);
    ObjectNotTemp(plan, 0);
    SidecarEnds(o.name);
    var s := Apply(files, RemoveAll(Temps(files)));
    ObjectNameLineless(built);
    SidecarVerifies(sha, o.bytes, sha(o.bytes), o.name);
    Utf8.TextOfOctets(ManifestText(built, sha, plan.objects, t));
    ManifestCounts(built, sha, plan.objects, t);
    assert s[o.name] == o.bytes && s[SidecarName(o.name)] == SidecarBytes(sha, o) && s[plan.manifest] == plan.manifestBytes;
  }

  /** A resumed run skips exactly when there is one archive and its completion check passes; then
      it only clears leftovers. */
  lemma SkipsIf(sha: ShaFn, files: Files, plan: Plan, force: bool)
    ensures var (ops, outcome) := Script(sha, files, plan, true, force);
            var s := Apply(files, RemoveAll(Temps(files)));
            && (outcome == Skipped
                <==> |plan.objects| == 1 && Completion(sha, s, plan.objects[0].name, plan.manifest, plan.rows).Ok?)
            && (outcome == Skipped ==> ApplyAll(files, ops) == s)
  {
    hide Completion, BuildOps, Stale, IsBakeTemp, Apply;
    var s := Apply(files, RemoveAll(Temps(files)));
    OneStep(files, RemoveAll(Temps(files)));
    BuildNeverSkips(sha, Apply(s, RemoveAll(Stale(plan.objects))), plan, force);
  }

  /** After a finished bake, resuming the same job changes nothing. */
  lemma ResumeIsIdempotent(sha: ShaFn, archive: ArchiveFn, files: Files, job: Job, t: nat, u: nat, force: bool)
    requires PartsOf(job).Ok? && |PartsOf(job).value| == 1 && Lineless(job) && |job.members| < 0x1_0000_0000_0000_0000
    requires Finished(files, sha, PlanAt(job, archive, sha, t)) && Temps(files) == {}
    ensures var (ops, outcome) := Script(sha, files, PlanAt(job, archive, sha, u), true, force);
            outcome == Skipped && ApplyAll(files, ops) == files
  {
    hide PartsOf, PlanAt, Script, Finished, ApplyAll, Temps, Completion;
    FinishedCompletion(sha, archive, files, job, job, t, u);
    SkipsIf(sha, files, PlanAt(job, archive, sha, u), force);
  }

  // ---------------------------------------------------------------------------------------
  // What the marker does not see
  // ---------------------------------------------------------------------------------------

  /** A single part holds every file in order. */
  lemma SinglePart(job: Job)
    requires PartsOf(job).Ok? && |PartsOf(job).value| == 1
    ensures PartsOf(job).value[0] == Partition.Indices(0, |job.members|)
  {
    hide Partition.Split, Sum;
    if job.split.Some? {
      var sizes, target := Sizes(job.members), job.split.value.0;
      Partition.SplitIsGreedy(sizes, target, |sizes|);
      var parts := PartsOf(job).value;
      assert parts[1..] == [] && Flatten(parts) == parts[0] + Flatten([]);
    }
  }

  lemma SingleArchive(job: Job, archive: ArchiveFn, sha: ShaFn, created: nat)
    requires PartsOf(job).Ok? && |PartsOf(job).value| == 1
    ensures PlanAt(job, archive, sha, created).objects == [Object(ObjectName(job, 1, 0), archive(job.level, job.members))]
  {
    hide PartsOf, ManifestText, Utf8.Octets, ObjectName, Pick;
    SinglePart(job);
    PickRange(job.members, 0, |job.members|);
    assert job.members[0..|job.members|] == job.members;
    assert Pick(job.members, PartsOf(job).value[0]) == job.members;
  }

  /** The marker knows the input only by its number of files. After a finished bake of a single
      archive, a resumed run of any job of that name and container kind skips exactly when it,
      too, makes one archive of as many files. Its own archives are in place afterwards exactly
      when it did not skip, or when the two inputs give one container. */
  lemma StaleArchiveIsKept(sha: ShaFn, archive: ArchiveFn, files: Files, built: Job, resumed: Job, t: nat, u: nat, force: bool)
    requires PartsOf(built).Ok? && |PartsOf(built).value| == 1 && PartsOf(resumed).Ok?
    requires built.clip == resumed.clip && built.level.Some? == resumed.level.Some?
    requires Lineless(built) && |built.members| < 0x1_0000_0000_0000_0000
    requires Finished(files, sha, PlanAt(built, archive, sha, t))
    ensures var plan := PlanAt(resumed, archive, sha, u);
            var (ops, outcome) := Script(sha, files, plan, true, force);
            var after := ApplyAll(files, ops);
            var same := |PartsOf(resumed).value| == 1 && |built.members| == |resumed.members|;
            && (outcome == Skipped <==> same)
            && (outcome != Skipped ==> Finished(after, sha, plan))
            && (Present(after, plan.objects)
                <==> !same || archive(built.level, built.members) == archive(resumed.level, resumed.members))
  {
    hide PartsOf, Script, ManifestText, Utf8.Octets, SidecarText, IsBakeTemp, ObjectsFrom, ObjectName, Completion, ApplyAll;
    var was, plan := PlanAt(built, archive, sha, t), PlanAt(resumed, archive, sha, u);
    PlanAtApart(built, archive, sha, t);
    PlanAtApart(resumed, archive, sha, u);
    SkipsIf(sha, files, plan, force);
    ResumeFinishes(sha, files, plan, force);
    if |PartsOf(resumed).value| == 1 {
      FinishedCompletion(sha, archive, files, built, resumed, t, u);
      SingleArchive(built, archive, sha, t);
      SingleArchive(resumed, archive, sha, u);
      SameNames(built, resumed);
      ObjectNotTemp(was, 0);
    }
  }

  lemma SameNames(built: Job, resumed: Job)
    requires built.clip == resumed.clip && built.level.Some? == resumed.level.Some?
    ensures ObjectName(built, 1, 0) == ObjectName(resumed, 1, 0)
  {
  }
}
