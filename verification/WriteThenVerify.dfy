/** Writing a scope's manifest and verifying the scope against it (tool/src/ascmhl.rs): the
    history folder does not disturb the scope, and what else goes unseen. */
module WriteThenVerify {
  import opened Prelude
  import opened C4Id
  import opened Seal
  import opened SealSoundness
  import opened Manifest
  import opened ManifestRoundTrip
  import opened Scope
  import opened ScopePaths
  import opened VerifyScope
  import opened ScopeOnDisk
  import opened VerifyExactly

  // ---------------------------------------------------------------------------------------
  // Writing the history does not disturb the scope; what else goes unseen
  // ---------------------------------------------------------------------------------------

  function WithoutName(kids: seq<Kid>, name: string): seq<Kid> {
    if kids == [] then []
    else if kids[0].name == name then WithoutName(kids[1..], name)
    else [kids[0]] + WithoutName(kids[1..], name)
  }

  lemma {:induction false} IgnoredUnseen(kids: seq<Kid>, ignored: string -> bool, name: string)
    requires ignored(name)
    ensures Managed(WithoutName(kids, name), ignored) == Managed(kids, ignored)
  {
    if kids != [] {
      IgnoredUnseen(kids[1..], ignored, name);
      if kids[0].name != name {
        var rest := WithoutName(kids[1..], name);
        assert ([kids[0]] + rest)[0] == kids[0] && ([kids[0]] + rest)[1..] == rest;
      }
    }
  }

  lemma {:induction false} ManagedSame(k: seq<Kid>, l: seq<Kid>, ignored: string -> bool)
    requires SameKids(k, l)
    ensures SameKids(Managed(k, ignored), Managed(l, ignored))
    decreases k
  {
    if k != [] {
      ManagedSame(k[1..], l[1..], ignored);
      if k[0].node.Dir? {
        ManagedSame(k[0].node.kids, l[0].node.kids, ignored);
      }
      if !ignored(k[0].name) {
        ManagedHead(k, ignored);
        ManagedHead(l, ignored);
        hide Managed;
        var p, q := Managed(k[1..], ignored), Managed(l[1..], ignored);
        assert ([ManagedKid(k[0], ignored)] + p)[1..] == p && ([ManagedKid(l[0], ignored)] + q)[1..] == q;
      }
    }
  }

  lemma HistoryIgnored()
    ensures Ignores(IGNORE_PATTERNS)("ascmhl")
  {
    assert IGNORE_PATTERNS[1] == "ascmhl";
    assert PatternMatches("ascmhl", "ascmhl");
  }

  /** A scope whose manifest can be read back: something is managed, host name and version are
      usable, and no path begins or ends with white space. */
  ghost predicate Sealable(h: HashFn, folder: string, mtime: nat, kids: seq<Kid>, created: nat, hostname: string, toolVersion: string) {
    && CanonicalKids(kids) && GoodKids(Managed(kids, Ignores(IGNORE_PATTERNS)))
    && Managed(kids, Ignores(IGNORE_PATTERNS)) != []
    && hostname != "" && Trimmed(hostname) && toolVersion != ""
    && AllTrimmed(ScopeManifest(h, folder, mtime, kids, created, hostname, toolVersion).entries)
  }

  /** Writing a history folder into the scope, or growing it, leaves the scope passing, whatever
      becomes of the recorded times. */
  lemma WriteThenVerify(h: HashFn, folder: string, mtime: nat, kids: seq<Kid>, created: nat, hostname: string, toolVersion: string,
                        mtime': nat, kids': seq<Kid>)
    requires Sealable(h, folder, mtime, kids, created, hostname, toolVersion) && CanonicalKids(kids')
    requires SameKids(WithoutName(kids, "ascmhl"), WithoutName(kids', "ascmhl"))
    ensures var read := ParseHashlist(ManifestText(ScopeManifest(h, folder, mtime, kids, created, hostname, toolVersion)));
            read.Ok? && PassesAll(h, read.value, folder, mtime', kids')
  {
    hide Managed, WithoutName, Ignores, CanonicalKids, GoodKids, IGNORE_PATTERNS, ScopeManifest, ParseHashlist, ManifestText, Faithful, PassesAll, AllTrimmed, Trimmed, SameKids, NoneFileless;
    var ignored := Ignores(IGNORE_PATTERNS);
    HistoryIgnored();
    IgnoredUnseen(kids, ignored, "ascmhl");
    IgnoredUnseen(kids', ignored, "ascmhl");
    ManagedSame(WithoutName(kids, "ascmhl"), WithoutName(kids', "ascmhl"), ignored);
    SameRoots(Managed(kids, ignored), Managed(kids', ignored));
    ScopeManifestReadsBack(h, folder, mtime, kids, created, hostname, toolVersion);
    UnmodifiedScopeVerifies(h, folder, mtime, kids, created, hostname, toolVersion, folder, mtime', kids');
  }

  lemma SameRoots(k: seq<Kid>, l: seq<Kid>)
    requires SameKids(k, l)
    ensures SameTree(Dir(k), Dir(l))
  {
    hide SameKids;
  }

  /** Conversely a structure match binds the managed tree: two hashed strings collide, or the
      trees are sealed alike, and then equal unless a file took a directory's place. */
  lemma StructureMatchBinds(h: HashFn, folder: string, mtime: nat, kids: seq<Kid>, created: nat, hostname: string, toolVersion: string,
                            mtime': nat, kids': seq<Kid>, r: VerifyResult)
    requires CanonicalKids(kids) && CanonicalKids(kids')
    requires Verify(h, StatIn(kids'), folder, mtime', kids', Faithful(ScopeManifest(h, folder, mtime, kids, created, hostname, toolVersion))) == Ok(r)
    requires r.root.structureMatch
    ensures var ignored := Ignores(IGNORE_PATTERNS);
            var a, b := Dir(Managed(kids', ignored)), Dir(Managed(kids, ignored));
            || CollisionIn(h, Hashed(h, a) + Hashed(h, b))
            || (SealedAlike(h, a, b) && (KindsAgree(a, b) ==> SameTree(a, b)))
  {
    hide Walk, DirHashes, PushEntries, Managed, CanonicalKids, IGNORE_PATTERNS, Sweep, FaithfulRows, FilesOf, CollisionIn, Hashed, SealedAlike, KindsAgree, SameTree;
    RootIdentifierBinds(h, folder, mtime', kids', folder, mtime, kids, Ignores(IGNORE_PATTERNS));
  }

  /** An empty directory replaced by an empty file of its name passes every check. */
  lemma EmptyFilePasses(h: HashFn, folder: string, mtime: nat, name: string, t: nat, created: nat, hostname: string, toolVersion: string)
    requires !Ignores(IGNORE_PATTERNS)(name)
    ensures var recorded := Faithful(ScopeManifest(h, folder, mtime, [Kid(name, t, Dir([]))], created, hostname, toolVersion));
            var now := [Kid(name, t, File([]))];
            Verify(h, StatIn(now), folder, mtime, now, recorded) == Ok(VerifyResult([], RootVerdict(true, true)))
  {
    hide DirHashes, IGNORE_PATTERNS, Encode, Walk, PushEntries, TreeEntries, Managed, FilesOf, FaithfulRows, Sweep, PassedRows, ContentImage, StructureImage, C4;
    var ignored := Ignores(IGNORE_PATTERNS);
    var before, now := [Kid(name, t, Dir([]))], [Kid(name, t, File([]))];
    ScopeManifestIsTree(h, folder, mtime, before, created, hostname, toolVersion);
    ManagedSingle(before[0], ignored);
    ManagedSingle(now[0], ignored);
    DirHashesOfWalk(h, folder, mtime, now, ignored);
    EmptyFileIsEmptyDirectory(h, name, t);
    C4IsEncode(h, ContentImage(h, Dir(before)));
    C4IsEncode(h, StructureImage(h, Dir(before)));
    OneDirectory(h, name, t);
    FilesStep(TreeEntries(h, before, ""));
    NoFiles();
    SweepNothing(h, StatIn(now));
  }

  lemma OneDirectory(h: HashFn, name: string, t: nat)
    ensures var entries := TreeEntries(h, [Kid(name, t, Dir([]))], "");
            |entries| == 1 && entries[0].DirEntry? && entries[1..] == []
  {
    hide C4, ContentImage, StructureImage, TreeEntries;
    var k := Kid(name, t, Dir([]));
    HeadEntries(h, [k], "");
    NoTreeEntries(h, Under("", name));
    NoTreeEntries(h, "");
    assert [k][1..] == [];
  }

  lemma ManagedSingle(k: Kid, ignored: string -> bool)
    requires !ignored(k.name) && (k.node.Dir? ==> k.node.kids == [])
    ensures Managed([k], ignored) == [k]
  {
    assert [k][1..] == [];
    if k.node.Dir? {
      assert k.(node := Dir([])) == k;
    }
  }
}
