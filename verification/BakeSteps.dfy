/** What the steps of a bake mean (tool/src/bake.rs): which files count as leftovers, where a run
    can be cut off, and what a sidecar and a manifest's header say. */
module BakeSteps {
  import opened Prelude
  import opened Xml
  import opened TextLines
  import opened Numerals
  import opened Bake
  import opened BakeRuns
  import opened BakeCompletion
  import Utf8

  // ---------------------------------------------------------------------------------------
  // Leftovers
  // ---------------------------------------------------------------------------------------

  const HIDDEN_TEMPS: seq<string> := [".bake-manifest.tsv.tmp", ".sha256.tmp", ".reel-manifest.tsv.tmp"]

  /** A file is a leftover exactly if it ends like an archive's temporary, or is hidden and ends
      like one of three others. */
  lemma LeftoversExactly(name: string)
    ensures IsBakeTemp(name)
            <==> || (exists stem: string :: name == stem + ".bake-tmp")
                 || (name != "" && name[0] == '.' && exists k, stem: string :: 0 <= k < 3 && name == stem + HIDDEN_TEMPS[k])
  {
    hide EndsWith, HIDDEN_TEMPS;
    EndsExactly(name, ".bake-tmp");
    HiddenTemps();
    forall k | 0 <= k < 3
      ensures EndsWith(name, HIDDEN_TEMPS[k]) <==> exists stem: string :: name == stem + HIDDEN_TEMPS[k]
    {
      EndsExactly(name, HIDDEN_TEMPS[k]);
    }
  }

  lemma HiddenTemps()
    ensures |HIDDEN_TEMPS| == 3 && HIDDEN_TEMPS[0] == ".bake-manifest.tsv.tmp" && HIDDEN_TEMPS[1] == ".sha256.tmp"
    ensures HIDDEN_TEMPS[2] == ".reel-manifest.tsv.tmp"
  {
  }

  lemma EndsExactly(s: string, suffix: string)
    ensures EndsWith(s, suffix) <==> exists stem: string :: s == stem + suffix
  {
    if EndsWith(s, suffix) {
      assert s == s[..|s| - |suffix|] + suffix;
    }
    if exists stem: string :: s == stem + suffix {
      var stem: string :| s == stem + suffix;
      assert s[|s| - |suffix|..] == suffix;
    }
  }

  /** A hidden name that ends like that. */
  ghost predicate HiddenAs(name: string, middle: string, ending: string) {
    name == "." + middle + ending
  }

  /** Every temporary is hidden and a leftover, and no two of a bake share a name. */
  lemma TemporariesApart(a: string, b: string, job: Job)
    ensures HiddenAs(ObjectTemp(a), a, ".bake-tmp") && HiddenAs(SidecarTemp(a), a, ".sha256.tmp")
    ensures HiddenAs(ManifestTemp(job), job.clip, ".bake-manifest.tsv.tmp")
    ensures ObjectTemp(a) != SidecarTemp(b) && ObjectTemp(a) != ManifestTemp(job) && SidecarTemp(a) != ManifestTemp(job)
    ensures a != b ==> ObjectTemp(a) != ObjectTemp(b) && SidecarTemp(a) != SidecarTemp(b)
    ensures IsBakeTemp(ObjectTemp(a)) && IsBakeTemp(SidecarTemp(a)) && IsBakeTemp(ManifestTemp(job))
  {
    hide IsBakeTemp;
    ObjectTempIs(a);
    SidecarTempIs(a);
    ManifestTempIs(job);
    var o, s, o', s', m := ObjectTemp(a), SidecarTemp(a), ObjectTemp(b), SidecarTemp(b), ManifestTemp(job);
    assert o == ("." + a) + ".bake-tmp" && s == ("." + a) + ".sha256.tmp" && s' == ("." + b) + ".sha256.tmp";
    assert m == ("." + job.clip) + ".bake-manifest.tsv.tmp";
    assert o[|o| - 4] == '-' && s[|s| - 4] == '.' && s'[|s'| - 4] == '.' && m[|m| - 4] == '.' && s[|s| - 5] == '6' && m[|m| - 5] == 'v';
    assert o[1..|o| - 9] == a && o'[1..|o'| - 9] == b && s[1..|s| - 11] == a && s'[1..|s'| - 11] == b;
  }

  /** A redo removes the objects and their sidecars and nothing else. */
  lemma {:induction false} StaleExactly(objects: seq<Object>, n: string)
    ensures n in Stale(objects)
            <==> exists i :: 0 <= i < |objects| && (n == objects[i].name || n == SidecarName(objects[i].name))
  {
    hide SidecarName;
    if objects != [] {
      StaleExactly(objects[1..], n);
      assert forall i :: 0 < i < |objects| ==> objects[i] == objects[1..][i - 1];
      if n in Stale(objects[1..]) {
        var i :| 0 <= i < |objects| - 1 && (n == objects[1..][i].name || n == SidecarName(objects[1..][i].name));
        assert objects[i + 1] == objects[1..][i];
      }
    }
  }

  // ---------------------------------------------------------------------------------------
  // Where a run can be cut off
  // ---------------------------------------------------------------------------------------

  /** After any number of whole steps, and within the next: a write may have left nothing or any
      octets, a removal may have removed any of its files, a rename has not happened. */
  lemma {:induction false} CutOffAnywhere(files: Files, ops: seq<Op>, k: nat, torn: seq<byte>, gone: set<string>)
    requires k < |ops|
    ensures var before := ApplyAll(files, ops[..k]);
            match ops[k]
            case Write(name, _) =>
              && Interrupted(files, ops, Crash(k, Some(torn), gone)) == before[name := torn]
              && Interrupted(files, ops, Crash(k, None, gone)) == before
            case Rename(_, _) => Interrupted(files, ops, Crash(k, Some(torn), gone)) == before
            case RemoveAll(names) => gone <= names ==> Interrupted(files, ops, Crash(k, None, gone)) == before - gone
    decreases k
  {
    hide Apply;
    if k == 0 {
      assert ops[..0] == [];
      if ops[0].RemoveAll? && gone <= ops[0].names {
        assert ops[0].names * gone == gone;
      }
    } else {
      CutOffAnywhere(Apply(files, ops[0]), ops[1..], k - 1, torn, gone);
      assert ops[..k][1..] == ops[1..][..k - 1];
    }
  }

  // ---------------------------------------------------------------------------------------
  // Sidecars and headers
  // ---------------------------------------------------------------------------------------

  /** A sidecar is one line: the object's digest, two spaces, the object's name. */
  lemma SidecarNamesObject(h: Hex, name: string)
    requires '\n' !in name && '\r' !in name
    ensures LinesOf(SidecarText(h, name)) == [h + "  " + name]
  {
    hide LinesOf, StripCr;
    var line := h + "  " + name;
    forall i | 0 <= i < 64
      ensures h[i] != '\n'
    {
      HexPlain(h[i]);
    }
    assert SidecarText(h, name) == line + "\n" + "";
    FirstLine(line, "");
    EmptyText();
    KeepsEnd(line);
  }

  lemma KeepsEnd(line: string)
    requires line != "" && line[|line| - 1] != '\r'
    ensures StripCr(line) == line
  {
  }

  /** A manifest begins with its kind and then names the clip, the time, the tool, the codec, the
      container and the level, each under its key. */
  lemma HeaderSays(job: Job, created: nat)
    ensures var head := ManifestHead(job, created);
            && |head| == 7 && head[0] == "# frameprism bake manifest"
            && (exists digits: string :: ParseUnsigned(10, created + 1, digits) == Some(created)
                                         && head[2] == "created: " + digits + " (unix seconds, UTC)")
            && head[1] == "clip: " + job.clip && head[3] == "tool_version: " + job.versions.tool && head[4] == "codec: " + job.codec
            && head[5] == (if job.level == None then "container: tar" else "container: tar.zst")
            && if job.level == None then head[6] == "zstd_level: none"
               else exists digits: string :: LevelSays(head[6], digits, job.level.value)
  {
    hide Dec, ParseUnsigned;
    ParseDec(created, created + 1);
    if job.level.Some? {
      ParseDec(job.level.value, job.level.value + 1);
      assert ManifestHead(job, created)[6] == "zstd_level: " + Dec(job.level.value);
      assert LevelSays(ManifestHead(job, created)[6], Dec(job.level.value), job.level.value);
    }
    assert "container: tar" == "container: " + "tar" && "container: tar.zst" == "container: " + "tar.zst";
    assert "zstd_level: none" == "zstd_level: " + "none";
  }

  ghost predicate LevelSays(line: string, digits: string, level: nat) {
    line == "zstd_level: " + digits && ParseUnsigned(10, level + 1, digits) == Some(level)
  }

  // ---------------------------------------------------------------------------------------
  // Sidecars and manifests written elsewhere
  // ---------------------------------------------------------------------------------------

  predicate IsBlank(line: string) {
    forall i :: 0 <= i < |line| ==> IsSpace(line[i]) && line[i] != '\n'
  }

  lemma {:induction false} BlankTrims(line: string)
    requires forall i :: 0 <= i < |line| ==> IsSpace(line[i])
    ensures Trim(line) == ""
  {
    if line != "" {
      BlankTrims(line[1..]);
    }
  }

  lemma {:induction false} BlanksSkipped(blanks: seq<string>, rest: string)
    requires forall i :: 0 <= i < |blanks| ==> IsBlank(blanks[i])
    ensures FirstNonBlank(LinesOf(LinesText(blanks, rest))) == FirstNonBlank(LinesOf(rest))
  {
    if blanks != [] {
      hide LinesOf, Trim;
      var line, more := blanks[0], LinesOf(LinesText(blanks[1..], rest));
      FirstLine(line, LinesText(blanks[1..], rest));
      BlankTrims(StripCr(line));
      BlanksSkipped(blanks[1..], rest);
      assert ([StripCr(line)] + more)[1..] == more;
    }
  }

  /** 64 hexadecimal digits of either case, with the values of a digest's. */
  predicate Spells(field: string, digest: Hex) {
    |field| == 64 && forall i :: 0 <= i < 64 ==> IsHexDigit(field[i]) && CharDigit(field[i]) == CharDigit(digest[i])
  }

  lemma SpellsLower(field: string, digest: Hex)
    requires Spells(field, digest)
    ensures LowerCase(field) == digest && Trim(field) == field
  {
    var lower := LowerCase(field);
    forall i | 0 <= i < 64
      ensures lower[i] == digest[i]
    {
      SameDigit(field[i], digest[i]);
    }
    SameDigit(field[0], digest[0]);
    SameDigit(field[63], digest[63]);
    TrimNothing(field);
  }

  lemma SameDigit(c: char, d: char)
    requires IsHexDigit(c) && IsLowerHex(d) && CharDigit(c) == CharDigit(d)
    ensures d == (if 'A' <= c <= 'Z' then c - 'A' + 'a' else c) && !IsSpace(c) && c != ' ' && c != '\n'
  {
  }

  /** After any blank lines, a line of a digest in either case, two spaces and anything: it
      verifies exactly the object with that digest. */
  lemma AnySidecarVerifies(sha: ShaFn, obj: seq<byte>, blanks: seq<string>, field: string, digest: Hex, rest: string)
    requires (forall i :: 0 <= i < |blanks| ==> IsBlank(blanks[i])) && Spells(field, digest) && '\n' !in rest
    ensures VerifyObjectSidecar(sha, obj, Utf8.Octets(LinesText(blanks, field + "  " + rest + "\n"))) == Ok(sha(obj) == digest)
  {
    hide LinesOf, Utf8.Octets, Utf8.Text, LinesText, FirstNonBlank, Spells, VerifyObjectSidecar;
    var text := field + "  " + rest;
    BlanksSkipped(blanks, text + "\n");
    Utf8.TextOfOctets(LinesText(blanks, text + "\n"));
    var line := SidecarLineOf(field, digest, rest);
    FirstIs(line);
    LineVerifies(sha, obj, Utf8.Octets(LinesText(blanks, text + "\n")), LinesText(blanks, text + "\n"), line, field, digest);
  }

  lemma SidecarLineOf(field: string, digest: Hex, rest: string) returns (line: string)
    requires Spells(field, digest) && '\n' !in rest
    ensures LinesOf(field + "  " + rest + "\n") == [line] && Trim(line) != ""
    ensures |line| >= 66 && line[..64] == field && line[64] == line[65] == ' ' && ' ' !in field
  {
    hide LinesOf, StripCr, Trim;
    var text, head := field + "  " + rest, field + "  ";
    FieldPlain(field, digest);
    assert text + "\n" == text + "\n" + "";
    FirstLine(text, "");
    EmptyText();
    StripTail(head, rest);
    line := StripCr(text);
    assert text == head + rest;
    assert line == head + StripCr(rest);
    assert line[0] == field[0];
    NotBlank(line, 0);
  }

  lemma FieldPlain(field: string, digest: Hex)
    requires Spells(field, digest)
    ensures '\n' !in field && ' ' !in field && !IsSpace(field[0])
  {
    forall i | 0 <= i < 64
      ensures field[i] != '\n' && field[i] != ' ' && !IsSpace(field[i])
    {
      SameDigit(field[i], digest[i]);
    }
  }

  lemma LineVerifies(sha: ShaFn, obj: seq<byte>, sidecar: seq<byte>, text: string, line: string, field: string, digest: Hex)
    requires Utf8.Text(sidecar) == Some(text) && FirstNonBlank(LinesOf(text)) == Some(line) && Spells(field, digest)
    requires |line| >= 66 && line[..64] == field && line[64] == line[65] == ' ' && ' ' !in field
    ensures VerifyObjectSidecar(sha, obj, sidecar) == Ok(sha(obj) == digest)
  {
    hide LinesOf, Utf8.Text, FirstNonBlank, Trim, Find, LowerCase;
    assert field + "  " <= line;
    FieldEnds(line, field);
    SpellsLower(field, digest);
  }

  lemma FirstIs(line: string)
    requires Trim(line) != ""
    ensures FirstNonBlank([line]) == Some(line)
  {
  }

  /** Anything but 64 hexadecimal digits in that place is refused. */
  lemma OnlyDigestsVerify(sha: ShaFn, obj: seq<byte>, field: string, rest: string)
    requires field != "" && (forall c :: c in field ==> !IsSpace(c)) && '\n' !in rest
    ensures VerifyObjectSidecar(sha, obj, Utf8.Octets(field + "  " + rest + "\n")) == Err(BadShaField)
            <==> |field| != 64 || exists i :: 0 <= i < |field| && !IsHexDigit(field[i])
  {
    hide LinesOf, Utf8.Octets, Utf8.Text, FirstNonBlank, VerifyObjectSidecar;
    var text := field + "  " + rest + "\n";
    Utf8.TextOfOctets(text);
    var line := FieldLineOf(field, rest);
    FirstIs(line);
    LineRefused(sha, obj, Utf8.Octets(text), text, line, field);
  }

  lemma FieldLineOf(field: string, rest: string) returns (line: string)
    requires field != "" && (forall c :: c in field ==> !IsSpace(c)) && '\n' !in rest
    ensures LinesOf(field + "  " + rest + "\n") == [line] && Trim(line) != "" && field + "  " <= line
  {
    hide LinesOf, Trim, StripCr, IsSpace;
    var head, text := field + "  ", field + "  " + rest;
    SpacesAre();
    assert text + "\n" == text + "\n" + "";
    FirstLine(text, "");
    EmptyText();
    StripTail(head, rest);
    line := StripCr(text);
    assert text == head + rest && line == head + StripCr(rest);
    assert line[0] == field[0];
    NotBlank(line, 0);
  }

  lemma LineRefused(sha: ShaFn, obj: seq<byte>, sidecar: seq<byte>, text: string, line: string, field: string)
    requires Utf8.Text(sidecar) == Some(text) && FirstNonBlank(LinesOf(text)) == Some(line)
    requires field != "" && (forall c :: c in field ==> !IsSpace(c)) && field + "  " <= line
    ensures VerifyObjectSidecar(sha, obj, sidecar) == Err(BadShaField)
            <==> |field| != 64 || exists i :: 0 <= i < |field| && !IsHexDigit(field[i])
  {
    hide LinesOf, Utf8.Text, FirstNonBlank, Trim, Find, LowerCase, IsSpace;
    SpacesAre();
    FieldEnds(line, field);
    assert line[..|field|] == field;
    TrimNothing(field);
  }

  lemma SpacesAre()
    ensures IsSpace(' ') && IsSpace('\n')
  {
  }

  /** The key a number of times. */
  function Keys(k: nat): string {
    if k == 0 then "" else "file_count:" + Keys(k - 1)
  }

  lemma {:induction false} KeysTrimmed(k: nat, said: string)
    requires !("file_count:" <= said)
    ensures TrimPrefix(Keys(k) + said, COUNT_KEY) == said
  {
    hide TrimPrefix, COUNT_KEY;
    if k == 0 {
      assert "" + said == said;
      KeepsPlain(said);
    } else {
      KeysTrimmed(k - 1, said);
      assert Keys(k) + said == "file_count:" + (Keys(k - 1) + said);
      OneKeyLess(Keys(k - 1) + said);
    }
  }

  lemma KeepsPlain(said: string)
    requires !("file_count:" <= said)
    ensures TrimPrefix(said, COUNT_KEY) == said
  {
  }

  lemma OneKeyLess(t: string)
    ensures TrimPrefix("file_count:" + t, COUNT_KEY) == TrimPrefix(t, COUNT_KEY)
  {
    assert (COUNT_KEY + t)[|COUNT_KEY|..] == t;
  }

  /** The file count is what the first line beginning with its key, once or several times, says. */
  lemma {:induction false} CountsFirst(lines: seq<string>, i: nat, k: nat, said: string)
    requires i < |lines| && k > 0 && lines[i] == Keys(k) + said && !("file_count:" <= said)
    requires forall j :: 0 <= j < i ==> !("file_count:" <= lines[j])
    ensures FileCount(lines) == ParseUnsigned(10, 0x1_0000_0000_0000_0000, Trim(said))
  {
    hide ParseUnsigned, Trim, TrimPrefix;
    if i > 0 {
      CountsFirst(lines[1..], i - 1, k, said);
    } else {
      KeysTrimmed(k, said);
      assert lines[0] == COUNT_KEY + (Keys(k - 1) + said);
    }
  }

  lemma {:induction false} CountsNothing(lines: seq<string>)
    requires forall j :: 0 <= j < |lines| ==> !("file_count:" <= lines[j])
    ensures FileCount(lines) == None
  {
    if lines != [] {
      CountsNothing(lines[1..]);
    }
  }

  // ---------------------------------------------------------------------------------------
  // The completion check
  // ---------------------------------------------------------------------------------------

  /** What is missing, or does not verify, or counts otherwise is what the check reports. */
  lemma CompletionSays(sha: ShaFn, files: Files, obj: string, manifest: string, rows: nat)
    ensures var r := Completion(sha, files, obj, manifest, rows);
            && (r == Err(NoObject) <==> obj !in files)
            && (r == Err(NoSidecar) <==> obj in files && SidecarName(obj) !in files)
            && (r == Err(NoManifest) <==> obj in files && SidecarName(obj) in files && manifest !in files)
    ensures obj in files && SidecarName(obj) in files && manifest in files ==>
              var r, verified, text := Completion(sha, files, obj, manifest, rows),
                                       VerifyObjectSidecar(sha, files[obj], files[SidecarName(obj)]), Utf8.Text(files[manifest]);
              && (verified.Err? ==> r == Err(verified.error)) && (r == Err(ShaDiffers) <==> verified == Ok(false))
              && (verified == Ok(true) ==>
                    && (r == Err(ManifestUnreadable) <==> text == None)
                    && (r == Err(NoFileCount) <==> text.Some? && FileCount(LinesOf(text.value)) == None)
                    && (r == Ok(()) <==> text.Some? && FileCount(LinesOf(text.value)) == Some(rows)))
  {
    hide LinesOf, FileCount, Utf8.Text, SidecarName;
    if obj in files && SidecarName(obj) in files {
      SidecarErrors(sha, files[obj], files[SidecarName(obj)]);
    }
  }

  lemma SidecarErrors(sha: ShaFn, obj: seq<byte>, sidecar: seq<byte>)
    ensures var r := VerifyObjectSidecar(sha, obj, sidecar);
            r.Err? ==> r.error == SidecarUnreadable || r.error == SidecarEmpty || r.error == BadShaField
  {
    hide LinesOf, FirstNonBlank, Utf8.Text, Trim, Find;
  }
}
