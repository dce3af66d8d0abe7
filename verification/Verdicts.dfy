/** What the rows of a re-verify say (tool/src/ascmhl.rs): which verdict a recorded file gets for
    what now stands at its path, and that an edit of one file shows in its row alone. */
module Verdicts {
  import opened Prelude
  import opened C4Id
  import opened TextLines
  import opened Seal
  import opened SealSoundness
  import opened Numerals
  import opened Manifest
  import opened ManifestRoundTrip
  import opened Scope
  import opened ScopePaths
  import opened VerifyScope
  import opened ScopeOnDisk
  import opened VerifyExactly
  import opened ManagedFiles

  // ---------------------------------------------------------------------------------------
  // One row for every recorded file
  // ---------------------------------------------------------------------------------------

  /** The length of a file, readable or not. */
  function SizeOf(s: Stat): Option<nat> {
    match s
    case Regular(data) => Some(|data|)
    case ReadFails(size) => Some(size)
    case _ => None
  }

  /** Each verdict exactly for what it is meant for. */
  ghost predicate RowSays(h: HashFn, s: Stat, f: HashFile, row: MhlRow) {
    && row.path == f.path
    && (row.verdict == Missing <==> SizeOf(s) == None)
    && (row.verdict == SizeMismatch <==> exists n: nat :: SizeOf(s) == Some(n) && n != f.size)
    && (row.verdict == C4Mismatch <==> s.Regular? && |s.data| == f.size && C4(h, s.data) != f.c4)
    && (row.verdict == Ok_ <==> s.Regular? && |s.data| == f.size && C4(h, s.data) == f.c4)
  }

  /** A file that cannot be examined, or not read although it has its recorded size. */
  predicate Stops(s: Stat, f: HashFile) {
    s.StatFails? || (s.ReadFails? && s.size == f.size)
  }

  /** The sweep ends at the first such file. */
  ghost predicate StopsFirst(stat: string -> Stat, files: seq<HashFile>, i: nat, e: VerifyError) {
    && i < |files| && Stops(stat(files[i].path), files[i]) && e.path == files[i].path
    && (e.CannotStat? <==> stat(files[i].path).StatFails?)
    && forall j :: 0 <= j < i ==> !Stops(stat(files[j].path), files[j])
  }

  ghost predicate RowsSay(h: HashFn, stat: string -> Stat, files: seq<HashFile>, rows: seq<MhlRow>) {
    |rows| == |files| && forall i :: 0 <= i < |files| ==> RowSays(h, stat(files[i].path), files[i], rows[i])
  }

  lemma OneRow(h: HashFn, stat: string -> Stat, f: HashFile)
    ensures match CheckOne(h, stat, f)
            case Ok(row) => !Stops(stat(f.path), f) && RowSays(h, stat(f.path), f, row)
            case Err(e) => Stops(stat(f.path), f) && e.path == f.path && (e.CannotStat? <==> stat(f.path).StatFails?)
  {
    hide C4;
    var s := stat(f.path);
    if SizeOf(s).Some? {
      assert SizeOf(s) == Some(SizeOf(s).value);
    }
  }

  lemma {:induction false} SweepSays(h: HashFn, stat: string -> Stat, files: seq<HashFile>)
    ensures match Sweep(h, stat, files)
            case Ok(rows) => RowsSay(h, stat, files, rows) && forall i :: 0 <= i < |files| ==> !Stops(stat(files[i].path), files[i])
            case Err(e) => exists i: nat :: StopsFirst(stat, files, i, e)
  {
    if files != [] {
      hide CheckOne, RowSays, Stops;
      OneRow(h, stat, files[0]);
      SweepSays(h, stat, files[1..]);
      if CheckOne(h, stat, files[0]).Err? {
        assert StopsFirst(stat, files, 0, CheckOne(h, stat, files[0]).error);
      } else if Sweep(h, stat, files[1..]).Err? {
        var e := Sweep(h, stat, files[1..]).error;
        var i: nat :| StopsFirst(stat, files[1..], i, e);
        assert files[1..][i] == files[i + 1];
        assert forall j :: 0 < j < i + 1 ==> files[j] == files[1..][j - 1];
        assert StopsFirst(stat, files, i + 1, e);
      } else {
        assert forall i :: 0 < i < |files| ==> files[i] == files[1..][i - 1];
      }
    }
  }

  /** A re-verify gives a row to every recorded file, in order, or the first file that stops it. */
  lemma VerifySays(h: HashFn, stat: string -> Stat, name: string, mtime: nat, kids: seq<Kid>, hl: Hashlist)
    ensures match Verify(h, stat, name, mtime, kids, hl)
            case Ok(r) => RowsSay(h, stat, hl.files, r.rows) && forall i :: 0 <= i < |hl.files| ==> !Stops(stat(hl.files[i].path), hl.files[i])
            case Err(e) => exists i: nat :: StopsFirst(stat, hl.files, i, e)
  {
    hide Sweep, RootHashes, RowsSay, StopsFirst, Stops;
    SweepSays(h, stat, hl.files);
  }

  // ---------------------------------------------------------------------------------------
  // Where the paths lead
  // ---------------------------------------------------------------------------------------

  /** A proper beginning of the path is a file. */
  ghost predicate ThroughFile(kids: seq<Kid>, comps: seq<string>) {
    exists n, data: seq<byte> :: 0 < n < |comps| && Resolves(kids, comps[..n], data)
  }

  lemma {:induction false} StatIsLookup(kids: seq<Kid>, comps: seq<string>)
    requires comps != [] && GoodNames(comps)
    ensures var s := Resolve(Dir(kids), comps);
            && (forall data: seq<byte> :: s == Regular(data) <==> Resolves(kids, comps, data))
            && (s.StatFails? <==> ThroughFile(kids, comps)) && !s.ReadFails?
    decreases |comps|
  {
    hide FindKid;
    assert GoodName(comps[0]);
    match FindKid(kids, comps[0]) {
      case None =>
      case Some(k) =>
        var rest := comps[1..];
        if rest == [] {
        } else if k.node.File? {
          assert comps[..1][0] == comps[0] && Resolves(kids, comps[..1], k.node.data);
        } else {
          StatIsLookup(k.node.kids, rest);
          ThroughBelow(kids, comps, k);
        }
    }
  }

  lemma ThroughBelow(kids: seq<Kid>, comps: seq<string>, k: Kid)
    requires |comps| > 1 && FindKid(kids, comps[0]) == Some(k) && k.node.Dir?
    ensures ThroughFile(kids, comps) <==> ThroughFile(k.node.kids, comps[1..])
  {
    hide FindKid;
    var rest := comps[1..];
    if ThroughFile(kids, comps) {
      var n, data: seq<byte> :| 0 < n < |comps| && Resolves(kids, comps[..n], data);
      assert comps[..n][0] == comps[0] && comps[..n][1..] == rest[..n - 1];
      assert Resolves(k.node.kids, rest[..n - 1], data);
    }
    if ThroughFile(k.node.kids, rest) {
      var n, data: seq<byte> :| 0 < n < |rest| && Resolves(k.node.kids, rest[..n], data);
      assert comps[..n + 1][0] == comps[0] && comps[..n + 1][1..] == rest[..n];
      assert Resolves(kids, comps[..n + 1], data);
    }
  }

  lemma LookupUnique(kids: seq<Kid>, comps: seq<string>, a: seq<byte>, b: seq<byte>)
    requires Resolves(kids, comps, a) && Resolves(kids, comps, b)
    ensures a == b
    decreases |comps|
  {
    if |comps| > 1 {
      LookupUnique(FindKid(kids, comps[0]).value.node.kids, comps[1..], a, b);
    }
  }

  /** The verdict on a recorded file, in terms of what its path leads to. */
  ghost predicate SaysOf(h: HashFn, kids: seq<Kid>, f: HashFile, row: MhlRow) {
    var comps := Split(f.path, '/');
    && row.path == f.path && !ThroughFile(kids, comps)
    && (row.verdict == Missing <==> !exists data: seq<byte> :: Resolves(kids, comps, data))
    && (row.verdict == SizeMismatch <==> exists data: seq<byte> :: Resolves(kids, comps, data) && |data| != f.size)
    && (row.verdict == C4Mismatch <==> exists data: seq<byte> ::
          Resolves(kids, comps, data) && |data| == f.size && C4(h, data) != f.c4)
  }

  /** Against a scope on disk: the row of a recorded path says Missing exactly if no file is there,
      a wrong size exactly for a file of another length, a wrong identifier exactly for one of
      that length with another identifier; and only a path through a file stops the sweep. */
  lemma VerdictsOnDisk(h: HashFn, name: string, mtime: nat, kids: seq<Kid>, hl: Hashlist)
    requires forall i :: 0 <= i < |hl.files| ==> GoodNames(Split(hl.files[i].path, '/'))
    ensures match Verify(h, StatIn(kids), name, mtime, kids, hl)
            case Ok(r) =>
              && |r.rows| == |hl.files|
              && forall i :: 0 <= i < |hl.files| ==> SaysOf(h, kids, hl.files[i], r.rows[i])
            case Err(e) =>
              exists i :: && 0 <= i < |hl.files| && e == CannotStat(hl.files[i].path)
                          && ThroughFile(kids, Split(hl.files[i].path, '/'))
                          && forall j :: 0 <= j < i ==> !ThroughFile(kids, Split(hl.files[j].path, '/'))
  {
    hide Verify, C4, Resolve, Resolves, ThroughFile, Split, GoodNames;
    var stat := StatIn(kids);
    VerifySays(h, stat, name, mtime, kids, hl);
    forall i | 0 <= i < |hl.files|
      ensures var s, comps := stat(hl.files[i].path), Split(hl.files[i].path, '/');
              && (forall data: seq<byte> :: s == Regular(data) <==> Resolves(kids, comps, data))
              && (s.StatFails? <==> ThroughFile(kids, comps)) && !s.ReadFails?
    {
      StatIsLookup(kids, Split(hl.files[i].path, '/'));
    }
    match Verify(h, stat, name, mtime, kids, hl) {
      case Ok(r) =>
        forall i | 0 <= i < |hl.files|
          ensures SaysOf(h, kids, hl.files[i], r.rows[i])
        {
          assert RowSays(h, stat(hl.files[i].path), hl.files[i], r.rows[i]);
          assert !Stops(stat(hl.files[i].path), hl.files[i]);
          RowOnDisk(h, kids, hl.files[i], r.rows[i]);
        }
      case Err(e) =>
        var i: nat :| StopsFirst(stat, hl.files, i, e);
        assert Stops(stat(hl.files[i].path), hl.files[i]);
        assert forall j :: 0 <= j < i ==> !Stops(stat(hl.files[j].path), hl.files[j]);
    }
  }

  lemma RowOnDisk(h: HashFn, kids: seq<Kid>, f: HashFile, row: MhlRow)
    requires GoodNames(Split(f.path, '/')) && RowSays(h, StatIn(kids)(f.path), f, row) && !Stops(StatIn(kids)(f.path), f)
    ensures SaysOf(h, kids, f, row)
  {
    hide C4, Resolve, Resolves, ThroughFile, Split, GoodNames;
    var s, comps := StatIn(kids)(f.path), Split(f.path, '/');
    StatIsLookup(kids, comps);
    if s.Regular? {
      assert Resolves(kids, comps, s.data);
    }
  }

  /** The root verdicts compare what the manifest records with the hashes of what its own ignore
      patterns, and not the built-in ones, leave of the scope. */
  lemma RootsByOwnPatterns(h: HashFn, stat: string -> Stat, name: string, mtime: nat, kids: seq<Kid>, hl: Hashlist)
    requires Verify(h, stat, name, mtime, kids, hl).Ok?
    ensures var root, now := Verify(h, stat, name, mtime, kids, hl).value.root, Dir(Managed(kids, Ignores(hl.ignore)));
            && (root.contentMatch <==> C4(h, ContentImage(h, now)) == hl.rootContent)
            && (root.structureMatch <==> C4(h, StructureImage(h, now)) == hl.rootStructure)
  {
    hide Sweep, DirHashes, Walk, Managed, ContentImage, StructureImage, Encode, Ignores;
    DirHashesOfWalk(h, name, mtime, kids, Ignores(hl.ignore));
    C4IsEncode(h, ContentImage(h, Dir(Managed(kids, Ignores(hl.ignore)))));
    C4IsEncode(h, StructureImage(h, Dir(Managed(kids, Ignores(hl.ignore)))));
  }

  // ---------------------------------------------------------------------------------------
  // Editing one file
  // ---------------------------------------------------------------------------------------

  /** The tree with the file at `comps` removed, or holding other octets. */
  function Edited(kids: seq<Kid>, comps: seq<string>, now: Option<seq<byte>>): seq<Kid>
    requires comps != []
    decreases |comps|, |kids|
  {
    if kids == [] then []
    else if kids[0].name != comps[0] then [kids[0]] + Edited(kids[1..], comps, now)
    else if |comps| == 1 then
      match now
      case None => kids[1..]
      case Some(data) => [kids[0].(node := File(data))] + kids[1..]
    else if kids[0].node.Dir? then [kids[0].(node := Dir(Edited(kids[0].node.kids, comps[1..], now)))] + kids[1..]
    else kids
  }

  /** What an edit leaves of the entry its path begins with. */
  function EditedKid(k: Kid, comps: seq<string>, now: Option<seq<byte>>): Option<Kid>
    requires comps != []
  {
    if |comps| > 1 then Some(if k.node.Dir? then k.(node := Dir(Edited(k.node.kids, comps[1..], now))) else k)
    else
      match now
      case None => None
      case Some(data) => Some(k.(node := File(data)))
  }

  lemma {:induction false} NotFound(kids: seq<Kid>, name: string)
    requires forall i :: 0 <= i < |kids| ==> kids[i].name != name
    ensures FindKid(kids, name) == None
  {
    if kids != [] {
      NotFound(kids[1..], name);
    }
  }

  lemma {:induction false} FindEdited(kids: seq<Kid>, comps: seq<string>, now: Option<seq<byte>>, name: string)
    requires DistinctNames(kids) && comps != []
    ensures FindKid(Edited(kids, comps, now), name)
            == if name != comps[0] || FindKid(kids, name) == None then FindKid(kids, name)
               else EditedKid(FindKid(kids, name).value, comps, now)
    decreases |kids|
  {
    if kids != [] {
      var rest := kids[1..];
      if kids[0].name != comps[0] {
        assert DistinctNames(rest) by {
          assert forall i :: 0 <= i < |rest| ==> rest[i] == kids[i + 1];
        }
        FindEdited(rest, comps, now, name);
        var more := Edited(rest, comps, now);
        assert ([kids[0]] + more)[1..] == more;
      } else {
        NotFound(rest, comps[0]);
        if |comps| > 1 || now.Some? {
          var edited := Edited(kids, comps, now);
          assert edited[1..] == rest && edited[0].name == comps[0];
        }
      }
    }
  }

  /** The edited path leads to what was put there. */
  lemma {:induction false} EditedThere(kids: seq<Kid>, comps: seq<string>, now: Option<seq<byte>>, data: seq<byte>)
    requires CanonicalKids(kids) && GoodNames(comps) && Resolves(kids, comps, data)
    ensures Resolve(Dir(Edited(kids, comps, now)), comps) == match now case None => Absent case Some(d) => Regular(d)
    decreases |comps|
  {
    hide FindKid, Edited, CanonicalKids;
    assert GoodName(comps[0]);
    CanonicalDistinct(kids);
    FindEdited(kids, comps, now, comps[0]);
    if |comps| > 1 {
      CanonicalFound(kids, comps[0]);
      EditedThere(FindKid(kids, comps[0]).value.node.kids, comps[1..], now, data);
    }
  }

  /** Every other path to a file leads where it did. */
  lemma {:induction false} EditedElsewhere(kids: seq<Kid>, comps: seq<string>, now: Option<seq<byte>>, data: seq<byte>,
                                           other: seq<string>, octets: seq<byte>)
    requires CanonicalKids(kids) && Resolves(kids, comps, data)
    requires other != comps && Resolves(kids, other, octets)
    ensures Resolves(Edited(kids, comps, now), other, octets)
    decreases |comps|
  {
    hide FindKid, Edited, CanonicalKids;
    CanonicalDistinct(kids);
    FindEdited(kids, comps, now, other[0]);
    if other[0] == comps[0] {
      assert [comps[0]] + comps[1..] == comps && [other[0]] + other[1..] == other;
      if |comps| > 1 && |other| > 1 {
        CanonicalFound(kids, comps[0]);
        EditedElsewhere(FindKid(kids, comps[0]).value.node.kids, comps[1..], now, data, other[1..], octets);
      }
    }
  }

  // ---------------------------------------------------------------------------------------
  // The recorded files of a scope
  // ---------------------------------------------------------------------------------------

  predicate Records(e: Entry, f: HashFile) {
    e.FileEntry? && e.path == f.path && e.size == f.size && e.c4 == f.c4
  }

  ghost predicate RecordedIn(entries: seq<Entry>, f: HashFile) {
    exists k :: 0 <= k < |entries| && Records(entries[k], f)
  }

  ghost predicate EntriesApart(entries: seq<Entry>) {
    forall k, l :: 0 <= k < l < |entries| ==> entries[k].path != entries[l].path
  }

  ghost predicate FilesApart(files: seq<HashFile>) {
    forall i, j :: 0 <= i < j < |files| ==> files[i].path != files[j].path
  }

  lemma {:induction false} FilesFromEntries(entries: seq<Entry>)
    ensures var files := FilesOf(FaithfulRows(entries));
            && (forall i :: 0 <= i < |files| ==> RecordedIn(entries, files[i]))
            && (EntriesApart(entries) ==> FilesApart(files))
  {
    hide FilesOf, FaithfulRows, UtcIso;
    if entries == [] {
      NoFiles();
    } else {
      var files, rest := FilesOf(FaithfulRows(entries)), FilesOf(FaithfulRows(entries[1..]));
      FilesFromEntries(entries[1..]);
      FilesStep(entries);
      assert forall k :: 0 < k < |entries| ==> entries[k] == entries[1..][k - 1];
      forall f | RecordedIn(entries[1..], f)
        ensures RecordedIn(entries, f) && (EntriesApart(entries) ==> f.path != entries[0].path)
      {
        var k :| 0 <= k < |entries| - 1 && Records(entries[1..][k], f);
        assert Records(entries[k + 1], f);
      }
      if entries[0].FileEntry? {
        assert Records(entries[0], files[0]) && files[1..] == rest;
        assert forall i :: 0 < i < |files| ==> files[i] == rest[i - 1];
      }
    }
  }

  /** A recorded file of the scope: its path leads to a file of its size and identifier. */
  ghost predicate RecordedAt(h: HashFn, kids: seq<Kid>, f: HashFile, data: seq<byte>) {
    var comps := Split(f.path, '/');
    GoodNames(comps) && Resolves(kids, comps, data) && |data| == f.size && C4(h, data) == f.c4
  }

  ghost predicate IsRecorded(h: HashFn, kids: seq<Kid>, f: HashFile) {
    exists data: seq<byte> :: RecordedAt(h, kids, f, data)
  }

  ghost predicate AllRecorded(h: HashFn, kids: seq<Kid>, files: seq<HashFile>) {
    && (forall i :: 0 <= i < |files| ==> IsRecorded(h, kids, files[i]))
    && FilesApart(files)
  }

  lemma FilesRecorded(h: HashFn, folder: string, mtime: nat, kids: seq<Kid>, created: nat, hostname: string, toolVersion: string)
    requires CanonicalKids(kids) && GoodKids(Managed(kids, Ignores(IGNORE_PATTERNS)))
    ensures AllRecorded(h, kids, Faithful(ScopeManifest(h, folder, mtime, kids, created, hostname, toolVersion)).files)
  {
    hide Managed, TreeEntries, EntryComps, JoinPath, IGNORE_PATTERNS, ScopeManifest, C4, Resolve, Resolves, CanonicalKids, GoodKids, Split, FilesOf, FaithfulRows, AllWithin, GoodName, UtcIso, Ignores;
    var ignored := Ignores(IGNORE_PATTERNS);
    var tree := Managed(kids, ignored);
    var entries, comps := TreeEntries(h, tree, ""), EntryComps(tree, []);
    var files := FilesOf(FaithfulRows(entries));
    ScopeManifestIsTree(h, folder, mtime, kids, created, hostname, toolVersion);
    EmptyPathIsEmpty();
    assert kids == kids[|kids| - |kids|..];
    ManagedWithin(kids, kids, ignored);
    FilesStand(h, kids, tree, []);
    EntryPaths(h, tree, []);
    CompsExtend(tree, []);
    ManagedCanonical(kids, ignored);
    CompsDistinct(tree, []);
    forall k | 0 <= k < |entries|
      ensures GoodNames(comps[k]) && Split(entries[k].path, '/') == comps[k] && Stands(h, kids, [], entries[k], comps[k])
      ensures comps[k] != [] && comps[k][0..] == comps[k]
    {
      assert Extends(comps[k], [], Names(tree));
      assert comps[k][0..] == comps[k];
      SplitJoin(comps[k]);
    }
    assert EntriesApart(entries) by {
      assert forall k, l :: 0 <= k < l < |entries| ==> comps[k] != comps[l];
    }
    FilesFromEntries(entries);
    forall i | 0 <= i < |files|
      ensures IsRecorded(h, kids, files[i])
    {
      assert RecordedIn(entries, files[i]);
      var k :| 0 <= k < |entries| && Records(entries[k], files[i]);
      StatIsLookup(kids, comps[k]);
      assert RecordedAt(h, kids, files[i], Resolve(Dir(kids), comps[k]).data);
    }
  }

  /** The verdict an edit calls for, by what was there and what is put there. */
  function EditVerdict(h: HashFn, was: seq<byte>, now: Option<seq<byte>>): Verdict {
    match now
    case None => Missing
    case Some(data) =>
      if |data| != |was| then SizeMismatch else if h(data) != h(was) then C4Mismatch else Ok_
  }

  lemma RowKept(h: HashFn, kids: seq<Kid>, f: HashFile, row: MhlRow, data: seq<byte>)
    requires GoodNames(Split(f.path, '/')) && Resolves(kids, Split(f.path, '/'), data)
    requires RowSays(h, StatIn(kids)(f.path), f, row)
    requires |data| == f.size && C4(h, data) == f.c4
    ensures row == MhlRow(f.path, Ok_)
  {
    hide C4, Resolve, Resolves, Split, GoodNames, ThroughFile;
    StatIsLookup(kids, Split(f.path, '/'));
  }

  lemma RowEdited(h: HashFn, f: HashFile, s: Stat, row: MhlRow, was: seq<byte>, now: Option<seq<byte>>)
    requires s == match now case None => Absent case Some(d) => Regular(d)
    requires RowSays(h, s, f, row) && |was| == f.size && C4(h, was) == f.c4
    ensures row == MhlRow(f.path, EditVerdict(h, was, now))
  {
    hide Encode;
    if now.Some? {
      C4IsEncode(h, now.value);
      C4IsEncode(h, was);
      SameIdentifier(h(now.value), h(was));
      assert SizeOf(s) == Some(|now.value|);
    }
  }

  /** Removing a recorded file turns its row to Missing, other octets turn it to a wrong size or
      identifier unless the two contents collide, and every other row stays Ok. */
  lemma EditShowsInItsRow(h: HashFn, folder: string, mtime: nat, kids: seq<Kid>, created: nat, hostname: string, toolVersion: string,
                          i: nat, now: Option<seq<byte>>, folder': string, mtime': nat)
    requires CanonicalKids(kids) && GoodKids(Managed(kids, Ignores(IGNORE_PATTERNS)))
    requires i < |Faithful(ScopeManifest(h, folder, mtime, kids, created, hostname, toolVersion)).files|
    ensures var recorded := Faithful(ScopeManifest(h, folder, mtime, kids, created, hostname, toolVersion));
            var files := recorded.files;
            var edited := Edited(kids, Split(files[i].path, '/'), now);
            var was, r := StatIn(kids)(files[i].path), Verify(h, StatIn(edited), folder', mtime', edited, recorded);
            && was.Regular? && |was.data| == files[i].size && C4(h, was.data) == files[i].c4
            && r.Ok? && |r.value.rows| == |files|
            && r.value.rows[i] == MhlRow(files[i].path, EditVerdict(h, was.data, now))
            && forall j :: 0 <= j < |files| && j != i ==> r.value.rows[j] == MhlRow(files[j].path, Ok_)
  {
    hide Verify, Managed, ScopeManifest, C4, Resolve, Resolves, Edited, CanonicalKids, GoodKids, Split, Faithful, GoodNames, IGNORE_PATTERNS, ThroughFile, RowSays, Stops, EditVerdict;
    var recorded := Faithful(ScopeManifest(h, folder, mtime, kids, created, hostname, toolVersion));
    var files, stat := recorded.files, StatIn(kids);
    FilesRecorded(h, folder, mtime, kids, created, hostname, toolVersion);
    var comps := Split(files[i].path, '/');
    assert IsRecorded(h, kids, files[i]);
    var data: seq<byte> :| RecordedAt(h, kids, files[i], data);
    StatIsLookup(kids, comps);
    var edited := Edited(kids, comps, now);
    EditedThere(kids, comps, now, data);
    VerifySays(h, StatIn(edited), folder', mtime', edited, recorded);
    forall j | 0 <= j < |files|
      ensures !Stops(StatIn(edited)(files[j].path), files[j])
      ensures j != i ==> forall row: MhlRow :: RowSays(h, StatIn(edited)(files[j].path), files[j], row) ==> row == MhlRow(files[j].path, Ok_)
    {
      if j != i {
        var octets := OtherStays(h, kids, files, i, j, data, now);
        StatIsLookup(edited, Split(files[j].path, '/'));
        NeverStops(StatIn(edited)(files[j].path), files[j]);
        forall row: MhlRow | RowSays(h, StatIn(edited)(files[j].path), files[j], row)
          ensures row == MhlRow(files[j].path, Ok_)
        {
          RowKept(h, edited, files[j], row, octets);
        }
      } else {
        NeverStops(StatIn(edited)(files[i].path), files[i]);
      }
    }
    var r := Verify(h, StatIn(edited), folder', mtime', edited, recorded);
    assert r.Ok?;
    RowEdited(h, files[i], StatIn(edited)(files[i].path), r.value.rows[i], data, now);
  }

  lemma NeverStops(s: Stat, f: HashFile)
    requires s.Regular? || s.Absent?
    ensures !Stops(s, f)
  {
  }

  lemma OtherStays(h: HashFn, kids: seq<Kid>, files: seq<HashFile>, i: nat, j: nat, data: seq<byte>, now: Option<seq<byte>>)
    returns (octets: seq<byte>)
    requires CanonicalKids(kids) && AllRecorded(h, kids, files) && i < |files| && j < |files| && i != j
    requires RecordedAt(h, kids, files[i], data)
    ensures RecordedAt(h, kids, files[j], octets) && RecordedAt(h, Edited(kids, Split(files[i].path, '/'), now), files[j], octets)
  {
    hide C4, Resolves, Edited, CanonicalKids, Split, GoodNames;
    assert IsRecorded(h, kids, files[j]) && FilesApart(files);
    octets :| RecordedAt(h, kids, files[j], octets);
    RejoinSplit(files[i].path, '/');
    RejoinSplit(files[j].path, '/');
    assert files[i].path != files[j].path;
    EditedElsewhere(kids, Split(files[i].path, '/'), now, data, Split(files[j].path, '/'), octets);
  }
}
