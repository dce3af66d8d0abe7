/** What a scope leaves out (tool/src/ascmhl.rs): what the ignore patterns match, and which files
    a manifest therefore records. */
module IgnoreRules {
  import opened Manifest
  import opened Scope
  import Bake
  import Sidecar

  // ---------------------------------------------------------------------------------------
  // The three kinds of pattern
  // ---------------------------------------------------------------------------------------

  /** A star first stands for anything before the rest of the pattern. */
  lemma SuffixPattern(s: string, name: string)
    ensures PatternMatches("*" + s, name) <==> exists stem: string :: name == stem + s
  {
    var pattern := "*" + s;
    assert pattern[0] == '*' && pattern[1..] == s;
    if PatternMatches(pattern, name) {
      assert name == name[..|name| - |s|] + s;
    }
    if exists stem: string :: name == stem + s {
      var stem: string :| name == stem + s;
      assert name[|name| - |s|..] == s;
    }
  }

  /** A star last stands for anything after the rest, if the pattern has no star first. */
  lemma PrefixPattern(p: string, name: string)
    requires p != "" && p[0] != '*'
    ensures PatternMatches(p + "*", name) <==> exists rest: string :: name == p + rest
  {
    var pattern := p + "*";
    assert pattern[0] == p[0] && pattern[..|pattern| - 1] == p;
    if PatternMatches(pattern, name) {
      assert name == p + name[|p|..];
    }
  }

  /** Without either, only the name itself matches. */
  lemma ExactPattern(p: string, name: string)
    requires p != "" ==> p[0] != '*' && p[|p| - 1] != '*'
    ensures PatternMatches(p, name) <==> name == p
  {
  }

  // ---------------------------------------------------------------------------------------
  // The built-in patterns
  // ---------------------------------------------------------------------------------------

  const EXACT_NAMES: seq<string> := [
    ".DS_Store", "ascmhl", ".frameprism-run-report.md", ".frameprism-job-report.md", ".frameprism-job-report.csv",
    ".frameprism-job-report.html"
  ]

  const SUFFIXES: seq<string> := [
    ".offload-manifest.tsv", ".ingest-manifest.tsv", ".reel-manifest.tsv", ".bake-manifest.tsv", ".derive-manifest.tsv",
    ".members.tsv", ".checksums.tsv", ".jxl-checksums.tsv", ".sources.tsv", ".qc.tsv", ".frameprism-report.md", ".sig"
  ]

  /** Where in the built-in patterns the exact names and the suffixes stand. */
  function ExactAt(k: nat): nat {
    if k < 2 then k else k + 12
  }

  function SuffixAt(k: nat): nat {
    if k < 11 then k + 3 else 18
  }

  lemma PatternKinds()
    ensures |IGNORE_PATTERNS| == 19 && |EXACT_NAMES| == 6 && |SUFFIXES| == 12 && IGNORE_PATTERNS[2] == "._" + "*"
    ensures forall k :: 0 <= k < 6 ==> IGNORE_PATTERNS[ExactAt(k)] == EXACT_NAMES[k]
    ensures forall k :: 0 <= k < 12 ==> IGNORE_PATTERNS[SuffixAt(k)] == "*" + SUFFIXES[k]
  {
    StarredManifests();
    StarredTables();
    StarredLists();
    StarredOthers();
    assert "._*" == "._" + "*";
  }

  lemma StarredManifests()
    ensures "*.offload-manifest.tsv" == "*" + ".offload-manifest.tsv"
    ensures "*.ingest-manifest.tsv" == "*" + ".ingest-manifest.tsv"
    ensures "*.reel-manifest.tsv" == "*" + ".reel-manifest.tsv"
  {
  }

  lemma StarredTables()
    ensures "*.bake-manifest.tsv" == "*" + ".bake-manifest.tsv"
    ensures "*.derive-manifest.tsv" == "*" + ".derive-manifest.tsv"
    ensures "*.members.tsv" == "*" + ".members.tsv"
  {
  }

  lemma StarredLists()
    ensures "*.checksums.tsv" == "*" + ".checksums.tsv"
    ensures "*.jxl-checksums.tsv" == "*" + ".jxl-checksums.tsv"
    ensures "*.sources.tsv" == "*" + ".sources.tsv"
  {
  }

  lemma StarredOthers()
    ensures "*.qc.tsv" == "*" + ".qc.tsv"
    ensures "*.frameprism-report.md" == "*" + ".frameprism-report.md"
    ensures "*.sig" == "*" + ".sig"
  {
  }

  lemma ExactKind(k: nat)
    requires k < 6
    ensures EXACT_NAMES[k] != "" && EXACT_NAMES[k][0] != '*' && EXACT_NAMES[k][|EXACT_NAMES[k]| - 1] != '*'
  {
  }

  predicate IgnoredName(name: string) {
    IgnoredBy(IGNORE_PATTERNS, name)
  }

  /** A name is ignored exactly if it is one of six names, a shadow file, or ends in one of twelve
      suffixes. */
  lemma IgnoredExactly(name: string)
    ensures IgnoredBy(IGNORE_PATTERNS, name)
            <==> || (exists k :: 0 <= k < |EXACT_NAMES| && name == EXACT_NAMES[k])
                 || (exists rest: string :: name == "._" + rest)
                 || (exists k, stem: string :: 0 <= k < |SUFFIXES| && name == stem + SUFFIXES[k])
  {
    hide PatternMatches, IGNORE_PATTERNS, EXACT_NAMES, SUFFIXES;
    PatternKinds();
    PrefixPattern("._", name);
    forall k | 0 <= k < 6
      ensures PatternMatches(IGNORE_PATTERNS[ExactAt(k)], name) <==> name == EXACT_NAMES[k]
    {
      ExactKind(k);
      ExactPattern(EXACT_NAMES[k], name);
    }
    forall k | 0 <= k < 12
      ensures PatternMatches(IGNORE_PATTERNS[SuffixAt(k)], name) <==> exists stem: string :: name == stem + SUFFIXES[k]
    {
      SuffixPattern(SUFFIXES[k], name);
    }
    if IgnoredBy(IGNORE_PATTERNS, name) {
      var i :| 0 <= i < 19 && PatternMatches(IGNORE_PATTERNS[i], name);
      if i < 2 {
        assert ExactAt(i) == i;
      } else if i == 2 {
      } else if i < 14 {
        assert SuffixAt(i - 3) == i;
      } else if i < 18 {
        assert ExactAt(i - 12) == i;
      } else {
        assert SuffixAt(11) == i;
      }
    }
  }

  /** No frame is ignored, but a shadow file with a frame's extension. */
  lemma FrameNotIgnored(name: string)
    requires Sidecar.IsDng(name)
    ensures IgnoredBy(IGNORE_PATTERNS, name) <==> "._" <= name
  {
    hide IgnoredBy, IGNORE_PATTERNS, EXACT_NAMES, SUFFIXES;
    IgnoredExactly(name);
    LastOfExact();
    LastOfSuffixes();
    if exists rest: string :: name == "._" + rest {
      assert "._" <= name;
    }
    if "._" <= name {
      assert name == "._" + name[2..];
    }
    forall k, stem: string | 0 <= k < |SUFFIXES|
      ensures name != stem + SUFFIXES[k]
    {
      var t := stem + SUFFIXES[k];
      assert t[|t| - 1] == SUFFIXES[k][|SUFFIXES[k]| - 1] && t[|t| - 2] == SUFFIXES[k][|SUFFIXES[k]| - 2];
    }
  }

  /** The manifest of a bake beside the frames does not become part of the seal. */
  lemma BakeManifestIgnored(job: Bake.Job)
    ensures IgnoredBy(IGNORE_PATTERNS, Bake.ManifestName(job))
  {
    hide IgnoredBy, IGNORE_PATTERNS, EXACT_NAMES;
    IgnoredExactly(Bake.ManifestName(job));
    assert |SUFFIXES| == 12 && SUFFIXES[3] == ".bake-manifest.tsv";
    assert Bake.ManifestName(job) == job.clip + SUFFIXES[3];
  }

  lemma LastOfExact()
    ensures |EXACT_NAMES| == 6 && forall k :: 0 <= k < 6 ==> |EXACT_NAMES[k]| > 1 && !LikeFrame(EXACT_NAMES[k])
  {
  }

  lemma LastOfSuffixes()
    ensures |SUFFIXES| == 12 && forall k :: 0 <= k < 12 ==> |SUFFIXES[k]| > 1 && !LikeFrame(SUFFIXES[k])
  {
  }

  predicate LikeFrame(s: string) {
    && |s| > 1 && (s[|s| - 1] == 'g' || s[|s| - 1] == 'G') && (s[|s| - 2] == 'n' || s[|s| - 2] == 'N')
  }
}
