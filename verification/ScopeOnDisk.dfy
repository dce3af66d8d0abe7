/** A scope's manifest against the scope on disk (tool/src/ascmhl.rs): where recorded paths lead,
    which rows of the sweep pass, and when the manifest of a scope reads back. */
module ScopeOnDisk {
  import opened Prelude
  import opened C4Id
  import opened TextLines
  import opened Seal
  import opened SealSoundness
  import opened Numerals
  import opened Manifest
  import opened ManifestRoundTrip
  import opened Scope
  import opened ScopePaths
  import opened VerifyScope

  // ---------------------------------------------------------------------------------------
  // Paths on disk
  // ---------------------------------------------------------------------------------------

  function FindKid(kids: seq<Kid>, name: string): (r: Option<Kid>)
    ensures r.Some? ==> r.value in kids && r.value.name == name
  {
    if kids == [] then None else if kids[0].name == name then Some(kids[0]) else FindKid(kids[1..], name)
  }

  /** What the components lead to from `n`. Looking below a file is an error, not an absence. */
  function Resolve(n: Node, comps: seq<string>): Stat
    decreases |comps|
  {
    if comps == [] then
      match n
      case File(data) => Regular(data)
      case Dir(_) => NonFile
    else if n.File? then StatFails
    else if comps[0] == "" || comps[0] == "." then Resolve(n, comps[1..])
    else
      match FindKid(n.kids, comps[0])
      case None => Absent
      case Some(k) => Resolve(k.node, comps[1..])
  }

  function StatIn(kids: seq<Kid>): string -> Stat {
    path => Resolve(Dir(kids), Split(path, '/'))
  }

  /** The data of the manifest a run writes over the scope `kids`. */
  function ScopeManifest(h: HashFn, folder: string, mtime: nat, kids: seq<Kid>, created: nat, hostname: string, toolVersion: string): ManifestData {
    var root := Walk(h, folder, mtime, kids, Ignores(IGNORE_PATTERNS));
    var (content, structure) := DirHashes(h, root);
    ManifestData(folder, created, hostname, toolVersion, content, structure, PushEntries(h, root, ""))
  }

  // ---------------------------------------------------------------------------------------
  // Recorded files are where the manifest says
  // ---------------------------------------------------------------------------------------

  /** A directory with no file anywhere below it. */
  predicate Fileless(n: Node)
    decreases n, 1
  {
    n.Dir? && KidsFileless(n.kids)
  }

  predicate KidsFileless(kids: seq<Kid>)
    decreases kids, 0
  {
    kids == [] || (Fileless(kids[0].node) && KidsFileless(kids[1..]))
  }

  /** Every listed kid is found by name: a file with the same data, a directory with at least
      the listed kids inside; a directory without files as anything. */
  predicate AllWithin(kids: seq<Kid>, all: seq<Kid>)
    decreases kids, 1
  {
    kids == [] || (Within(kids[0], all) && AllWithin(kids[1..], all))
  }

  predicate Within(k: Kid, all: seq<Kid>)
    decreases k, 0
  {
    match FindKid(all, k.name)
    case None => false
    case Some(f) =>
      match k.node
      case File(_) => f.node == k.node
      case Dir(kids) => (f.node.Dir? && AllWithin(kids, f.node.kids)) || KidsFileless(kids)
  }

  lemma {:induction false} FindDistinct(kids: seq<Kid>, i: nat)
    requires DistinctNames(kids) && i < |kids|
    ensures FindKid(kids, kids[i].name) == Some(kids[i])
  {
    if i > 0 {
      var rest := kids[1..];
      assert rest[i - 1] == kids[i];
      assert DistinctNames(rest) by {
        assert forall a :: 0 <= a < |rest| ==> rest[a] == kids[a + 1];
      }
      FindDistinct(rest, i - 1);
      assert kids[0].name != kids[i].name;
    }
  }

  lemma WithinCons(k: Kid, rest: seq<Kid>, all: seq<Kid>)
    requires Within(k, all) && AllWithin(rest, all)
    ensures AllWithin([k] + rest, all)
  {
    hide Within;
    assert ([k] + rest)[1..] == rest;
  }

  lemma KidWithin(all: seq<Kid>, k: Kid, ignored: string -> bool)
    requires FindKid(all, k.name) == Some(k)
    requires k.node.Dir? ==> AllWithin(Managed(k.node.kids, ignored), k.node.kids)
    ensures Within(ManagedKid(k, ignored), all)
  {
    hide FindKid, Managed;
  }

  lemma ManagedSkips(kids: seq<Kid>, ignored: string -> bool)
    requires kids != [] && ignored(kids[0].name)
    ensures Managed(kids, ignored) == Managed(kids[1..], ignored)
  {
  }

  /** The managed part of a directory is found in the whole of it. */
  lemma {:induction false} ManagedWithin(all: seq<Kid>, kids: seq<Kid>, ignored: string -> bool)
    requires CanonicalKids(all) && |kids| <= |all| && kids == all[|all| - |kids|..]
    ensures AllWithin(Managed(kids, ignored), all)
    decreases all, |kids|
  {
    if kids == [] {
      assert Managed(kids, ignored) == [];
    } else {
      hide StringLess, CanonicalKids, Managed, AllWithin, Within, FindKid;
      var at := |all| - |kids|;
      assert all[at] == kids[0];
      ManagedWithin(all, kids[1..], ignored);
      CanonicalDistinct(all);
      CanonicalAt(all);
      FindDistinct(all, at);
      if !ignored(kids[0].name) {
        if kids[0].node.Dir? {
          CanonicalDir(kids[0].node);
          var sub := kids[0].node.kids;
          assert sub == sub[|sub| - |sub|..];
          ManagedWithin(sub, sub, ignored);
        }
        ManagedHead(kids, ignored);
        KidWithin(all, kids[0], ignored);
        WithinCons(ManagedKid(kids[0], ignored), Managed(kids[1..], ignored), all);
      } else {
        ManagedSkips(kids, ignored);
      }
    }
  }

  /** What a recorded path leads to below the components `pre`. */
  ghost predicate Stands(h: HashFn, all: seq<Kid>, pre: seq<string>, e: Entry, c: seq<string>) {
    |c| > |pre| && (e.FileEntry? ==>
      var s := Resolve(Dir(all), c[|pre|..]);
      s.Regular? && e.size == |s.data| && e.c4 == C4(h, s.data))
  }

  ghost predicate AllStand(h: HashFn, all: seq<Kid>, pre: seq<string>, entries: seq<Entry>, comps: seq<seq<string>>) {
    |entries| == |comps| && forall i :: 0 <= i < |entries| ==> Stands(h, all, pre, entries[i], comps[i])
  }

  lemma StandConcat(h: HashFn, all: seq<Kid>, pre: seq<string>, entries: seq<Entry>, comps: seq<seq<string>>,
                    entries': seq<Entry>, comps': seq<seq<string>>)
    requires AllStand(h, all, pre, entries, comps) && AllStand(h, all, pre, entries', comps')
    ensures AllStand(h, all, pre, entries + entries', comps + comps')
  {
    hide Stands;
  }

  /** Entry by entry: the components below `pre` lead from the directory to the recorded file. */
  lemma {:induction false} FilesStand(h: HashFn, all: seq<Kid>, kids: seq<Kid>, pre: seq<string>)
    requires AllWithin(kids, all) && GoodKids(kids)
    ensures AllStand(h, all, pre, TreeEntries(h, kids, JoinPath(pre)), EntryComps(kids, pre))
    decreases kids, 1
  {
    if kids != [] {
      hide AllStand, KidEntries, KidComps, JoinPath, Within, GoodKid;
      KidStands(h, all, kids[0], pre);
      FilesStand(h, all, kids[1..], pre);
      StandConcat(h, all, pre, KidEntries(h, kids[0], JoinPath(pre)), KidComps(kids[0], pre),
                  TreeEntries(h, kids[1..], JoinPath(pre)), EntryComps(kids[1..], pre));
    }
  }

  predicate AllDirectories(entries: seq<Entry>) {
    forall i :: 0 <= i < |entries| ==> entries[i].DirEntry?
  }

  lemma DirectoriesConcat(a: seq<Entry>, b: seq<Entry>)
    ensures AllDirectories(a + b) <==> AllDirectories(a) && AllDirectories(b)
  {
    var all := a + b;
    if AllDirectories(all) {
      forall i | 0 <= i < |a|
        ensures a[i].DirEntry?
      {
        assert all[i] == a[i];
      }
      forall i | 0 <= i < |b|
        ensures b[i].DirEntry?
      {
        assert all[|a| + i] == b[i];
      }
    }
  }

  /** A directory without files has no file entries, and only such a one. */
  lemma {:induction false} OnlyDirectories(h: HashFn, kids: seq<Kid>, prefix: string)
    ensures KidsFileless(kids) <==> AllDirectories(TreeEntries(h, kids, prefix))
    decreases kids, 1
  {
    if kids != [] {
      hide KidEntries, Fileless, AllDirectories;
      OnlyDirectory(h, kids[0], prefix);
      OnlyDirectories(h, kids[1..], prefix);
      DirectoriesConcat(KidEntries(h, kids[0], prefix), TreeEntries(h, kids[1..], prefix));
    }
  }

  lemma {:induction false} OnlyDirectory(h: HashFn, k: Kid, prefix: string)
    ensures Fileless(k.node) <==> AllDirectories(KidEntries(h, k, prefix))
    decreases k, 0
  {
    hide C4, ContentImage, StructureImage, TreeEntries;
    match k.node {
      case File(_) =>
        assert KidEntries(h, k, prefix)[0].FileEntry?;
      case Dir(kids) =>
        OnlyDirectories(h, kids, Under(prefix, k.name));
        var sub, all := TreeEntries(h, kids, Under(prefix, k.name)), KidEntries(h, k, prefix);
        assert |all| == |sub| + 1 && all[|sub|].DirEntry? && all == sub + all[|sub|..];
        DirectoriesConcat(sub, all[|sub|..]);
    }
  }

  lemma ResolveStep(all: seq<Kid>, k: Kid, c: seq<string>)
    requires FindKid(all, k.name).Some? && GoodName(k.name) && c != [] && c[0] == k.name
    ensures Resolve(Dir(all), c) == Resolve(FindKid(all, k.name).value.node, c[1..])
  {
  }

  lemma StandBelow(h: HashFn, all: seq<Kid>, k: Kid, pre: seq<string>, e: Entry, c: seq<string>)
    requires FindKid(all, k.name).Some? && FindKid(all, k.name).value.node.Dir? && GoodName(k.name)
    requires |c| > |pre| && c[|pre|] == k.name
    requires Stands(h, FindKid(all, k.name).value.node.kids, pre + [k.name], e, c)
    ensures Stands(h, all, pre, e, c)
  {
    hide Resolve, FindKid, GoodName, C4;
    assert c[|pre|..][1..] == c[|pre| + 1..];
    ResolveStep(all, k, c[|pre|..]);
  }

  lemma {:induction false} KidStands(h: HashFn, all: seq<Kid>, k: Kid, pre: seq<string>)
    requires Within(k, all) && GoodKid(k)
    ensures AllStand(h, all, pre, KidEntries(h, k, JoinPath(pre)), KidComps(k, pre))
    decreases k, 0
  {
    hide C4, JoinPath, TreeEntries, EntryComps, GoodName, FindKid;
    var pre' := pre + [k.name];
    JoinSnoc(pre, k.name);
    match k.node {
      case File(data) =>
        assert pre'[|pre|..] == [k.name] && [k.name][1..] == [];
        ResolveStep(all, k, [k.name]);
      case Dir(kids) =>
        hide Resolve;
        var f := FindKid(all, k.name).value;
        EntryPaths(h, kids, pre');
        CompsExtend(kids, pre');
        var sub, subComps := TreeEntries(h, kids, JoinPath(pre')), EntryComps(kids, pre');
        if KidsFileless(kids) {
          OnlyDirectories(h, kids, JoinPath(pre'));
        } else {
          FilesStand(h, f.node.kids, kids, pre');
        }
        forall i | 0 <= i < |sub|
          ensures Stands(h, all, pre, sub[i], subComps[i])
        {
          var c := subComps[i];
          assert Extends(c, pre', Names(kids));
          assert c[|pre|] == c[..|pre'|][|pre|] == k.name;
          if !KidsFileless(kids) {
            StandBelow(h, all, k, pre, sub[i], c);
          }
        }
        var entries, comps := KidEntries(h, k, JoinPath(pre)), KidComps(k, pre);
        assert |comps| == |sub| + 1 && comps[|sub|] == pre' && entries[|sub|].DirEntry?;
        forall i | 0 <= i < |entries|
          ensures Stands(h, all, pre, entries[i], comps[i])
        {
          if i < |sub| {
            assert entries[i] == sub[i] && comps[i] == subComps[i];
          }
        }
    }
  }

  // ---------------------------------------------------------------------------------------
  // Rows and recorded entries
  // ---------------------------------------------------------------------------------------

  function PassedRows(files: seq<HashFile>): seq<MhlRow> {
    if files == [] then [] else [MhlRow(files[0].path, Ok_)] + PassedRows(files[1..])
  }

  /** A recorded file that is still there passes. */
  ghost predicate Passes(h: HashFn, stat: string -> Stat, e: Entry) {
    e.FileEntry? ==> var s := stat(e.path); s.Regular? && e.size == |s.data| && e.c4 == C4(h, s.data)
  }

  lemma FilesStep(entries: seq<Entry>)
    requires entries != []
    ensures var files, rest := FilesOf(FaithfulRows(entries)), FilesOf(FaithfulRows(entries[1..]));
            match entries[0]
            case FileEntry(path, size, mtime, c4) => files == [HashFile(path, size, UtcIso(mtime), c4)] + rest
            case DirEntry(_, _, _, _) => files == rest
  {
    hide UtcIso;
    var rows := FaithfulRows(entries);
    assert rows[0] == FaithfulRow(entries[0]) && rows[1..] == FaithfulRows(entries[1..]);
  }

  lemma SweepHead(h: HashFn, stat: string -> Stat, f: HashFile, rest: seq<HashFile>)
    ensures Sweep(h, stat, [f] + rest) == Ok(PassedRows([f] + rest))
            <==> CheckOne(h, stat, f) == Ok(MhlRow(f.path, Ok_)) && Sweep(h, stat, rest) == Ok(PassedRows(rest))
  {
    hide CheckOne;
    assert ([f] + rest)[0] == f && ([f] + rest)[1..] == rest;
    var row, more := CheckOne(h, stat, f), Sweep(h, stat, rest);
    if row.Ok? && more.Ok? {
      var got, passed := [row.value] + more.value, [MhlRow(f.path, Ok_)] + PassedRows(rest);
      assert got[0] == row.value && got[1..] == more.value;
      assert passed[0] == MhlRow(f.path, Ok_) && passed[1..] == PassedRows(rest);
    }
  }

  /** The sweep passes every row exactly when every recorded file is still there. */
  lemma {:induction false} SweepPasses(h: HashFn, stat: string -> Stat, entries: seq<Entry>)
    ensures var files := FilesOf(FaithfulRows(entries));
            Sweep(h, stat, files) == Ok(PassedRows(files))
            <==> forall i :: 0 <= i < |entries| ==> Passes(h, stat, entries[i])
  {
    hide C4, UtcIso, FilesOf, FaithfulRows, Sweep, PassedRows;
    if entries != [] {
      SweepPasses(h, stat, entries[1..]);
      FilesStep(entries);
      AllPassCons(h, stat, entries);
      match entries[0] {
        case FileEntry(path, size, mtime, c4) =>
          SweepHead(h, stat, HashFile(path, size, UtcIso(mtime), c4), FilesOf(FaithfulRows(entries[1..])));
        case DirEntry(_, _, _, _) =>
      }
    } else {
      NoFiles();
      SweepNothing(h, stat);
      NoRows();
    }
  }

  lemma AllPassCons(h: HashFn, stat: string -> Stat, entries: seq<Entry>)
    requires entries != []
    ensures (forall i :: 0 <= i < |entries| ==> Passes(h, stat, entries[i]))
            <==> Passes(h, stat, entries[0]) && forall i :: 0 <= i < |entries| - 1 ==> Passes(h, stat, entries[1..][i])
  {
    hide Passes;
    assert forall i :: 0 < i < |entries| ==> entries[i] == entries[1..][i - 1];
    assert forall i :: 0 <= i < |entries| - 1 ==> entries[1..][i] == entries[i + 1];
  }

  lemma NoFiles()
    ensures FilesOf(FaithfulRows([])) == []
  {
  }

  lemma NoRows()
    ensures PassedRows([]) == []
  {
  }

  /** Recorded files pass exactly when the components of their paths lead to them. */
  lemma EntriesPass(h: HashFn, all: seq<Kid>, kids: seq<Kid>)
    requires GoodKids(kids)
    ensures (forall i :: 0 <= i < |TreeEntries(h, kids, "")| ==> Passes(h, StatIn(all), TreeEntries(h, kids, "")[i]))
            <==> AllStand(h, all, [], TreeEntries(h, kids, ""), EntryComps(kids, []))
  {
    hide GoodKids, TreeEntries, EntryComps, JoinPath, Split, Resolve, GoodName, C4;
    var entries, comps := TreeEntries(h, kids, ""), EntryComps(kids, []);
    EmptyPathIsEmpty();
    EntryPaths(h, kids, []);
    CompsExtend(kids, []);
    forall i | 0 <= i < |entries|
      ensures Passes(h, StatIn(all), entries[i]) <==> Stands(h, all, [], entries[i], comps[i])
    {
      assert Extends(comps[i], [], Names(kids));
      assert comps[i][0..] == comps[i];
      SplitJoin(comps[i]);
    }
  }

  /** What a run records over a scope is the managed tree. */
  lemma ScopeManifestIsTree(h: HashFn, folder: string, mtime: nat, kids: seq<Kid>, created: nat, hostname: string, toolVersion: string)
    requires CanonicalKids(kids)
    ensures var m := ScopeManifest(h, folder, mtime, kids, created, hostname, toolVersion);
            var tree := Managed(kids, Ignores(IGNORE_PATTERNS));
            && m.entries == TreeEntries(h, tree, "")
            && m.rootContent == C4(h, ContentImage(h, Dir(tree)))
            && m.rootStructure == C4(h, StructureImage(h, Dir(tree)))
  {
    hide Walk, DirHashes, PushEntries, TreeEntries, Managed, Encode, CanonicalKids, IGNORE_PATTERNS, ContentImage, StructureImage;
    var ignored := Ignores(IGNORE_PATTERNS);
    PushEntriesOfWalk(h, folder, mtime, kids, ignored, "");
    DirHashesOfWalk(h, folder, mtime, kids, ignored);
    C4IsEncode(h, ContentImage(h, Dir(Managed(kids, ignored))));
    C4IsEncode(h, StructureImage(h, Dir(Managed(kids, ignored))));
  }

  lemma EntriesNonEmpty(h: HashFn, kids: seq<Kid>, prefix: string)
    ensures TreeEntries(h, kids, prefix) == [] <==> kids == []
  {
    hide C4, ContentImage, StructureImage, TreeEntries;
    if kids != [] {
      HeadEntries(h, kids, prefix);
      assert |KidEntries(h, kids[0], prefix)| > 0;
    } else {
      NoTreeEntries(h, prefix);
    }
  }

  lemma HeadEntries(h: HashFn, kids: seq<Kid>, prefix: string)
    requires kids != []
    ensures TreeEntries(h, kids, prefix) == KidEntries(h, kids[0], prefix) + TreeEntries(h, kids[1..], prefix)
  {
    hide KidEntries;
  }

  lemma NoTreeEntries(h: HashFn, prefix: string)
    ensures TreeEntries(h, [], prefix) == []
  {
  }

  /** The manifest of a scope reads back exactly when something is managed, the host name is
      trimmed and not empty, the tool version not empty, and no path begins or ends with
      white space. */
  lemma ScopeManifestReadsBack(h: HashFn, folder: string, mtime: nat, kids: seq<Kid>, created: nat, hostname: string, toolVersion: string)
    requires CanonicalKids(kids) && GoodKids(Managed(kids, Ignores(IGNORE_PATTERNS)))
    ensures var m := ScopeManifest(h, folder, mtime, kids, created, hostname, toolVersion);
            ParseHashlist(ManifestText(m)) == Ok(Faithful(m))
            <==> && Managed(kids, Ignores(IGNORE_PATTERNS)) != []
                 && hostname != "" && Trimmed(hostname) && toolVersion != "" && AllTrimmed(m.entries)
  {
    hide Walk, DirHashes, PushEntries, TreeEntries, Managed, Encode, CanonicalKids, GoodKids, IGNORE_PATTERNS, ContentImage, StructureImage, ParseHashlist, ManifestText, Faithful, WellFormed, AllTrimmed, EntriesOk, Trimmed;
    var m := ScopeManifest(h, folder, mtime, kids, created, hostname, toolVersion);
    var tree := Managed(kids, Ignores(IGNORE_PATTERNS));
    ScopeManifestIsTree(h, folder, mtime, kids, created, hostname, toolVersion);
    ManifestReadsBack(m);
    ManagedCanonical(kids, Ignores(IGNORE_PATTERNS));
    TreeEntriesReadable(h, tree);
    EntriesNonEmpty(h, tree, "");
    EncodeWellFormed(h(ContentImage(h, Dir(tree))));
    EncodeWellFormed(h(StructureImage(h, Dir(tree))));
  }
}
