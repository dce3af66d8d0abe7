/** Exactly which scopes pass the verification against a recorded one (tool/src/ascmhl.rs). */
module VerifyExactly {
  import opened Prelude
  import opened C4Id
  import opened Seal
  import opened SealSoundness
  import opened Manifest
  import opened ManifestRoundTrip
  import opened Scope
  import opened ScopePaths
  import opened VerifyScope
  import opened ScopeOnDisk

  // ---------------------------------------------------------------------------------------
  // Exactly what passes
  // ---------------------------------------------------------------------------------------

  /** What may stand now for what was recorded: the same files, and directories of the same
      names; but for a directory without files also a file of the very octets its structure hash
      is taken over. */
  predicate Stays(h: HashFn, was: Node, now: Node)
    decreases was, 1
  {
    match (was, now)
    case (File(x), File(y)) => x == y
    case (Dir(k), Dir(l)) => KidsStay(h, k, l)
    case (Dir(_), File(y)) => Fileless(was) && y == StructureImage(h, was)
    case (File(_), Dir(_)) => false
  }

  predicate KidsStay(h: HashFn, k: seq<Kid>, l: seq<Kid>)
    decreases k, 0
  {
    if k == [] || l == [] then k == [] && l == []
    else k[0].name == l[0].name && Stays(h, k[0].node, l[0].node) && KidsStay(h, k[1..], l[1..])
  }

  lemma {:induction false} SameStays(h: HashFn, was: Node, now: Node)
    requires SameTree(was, now)
    ensures Stays(h, was, now)
    decreases was, 1
  {
    if was.Dir? {
      SameKidsStay(h, was.kids, now.kids);
    }
  }

  lemma {:induction false} SameKidsStay(h: HashFn, k: seq<Kid>, l: seq<Kid>)
    requires SameKids(k, l)
    ensures KidsStay(h, k, l)
    decreases k, 0
  {
    if k != [] {
      hide SameTree, Stays;
      SameStays(h, k[0].node, l[0].node);
      SameKidsStay(h, k[1..], l[1..]);
    }
  }

  lemma {:induction false} StaysSealed(h: HashFn, was: Node, now: Node)
    requires Stays(h, was, now)
    ensures SealedAlike(h, was, now)
    decreases was, 1
  {
    if was.Dir? && now.Dir? {
      KidsStaySealed(h, was.kids, now.kids);
    }
  }

  lemma {:induction false} KidsStaySealed(h: HashFn, k: seq<Kid>, l: seq<Kid>)
    requires KidsStay(h, k, l)
    ensures KidsSealedAlike(h, k, l)
    decreases k, 0
  {
    if k != [] {
      hide SealedAlike, Stays;
      StaysSealed(h, k[0].node, l[0].node);
      KidsStaySealed(h, k[1..], l[1..]);
    }
  }

  /** What stays is found where what stays was. */
  lemma {:induction false} StaysWithin(h: HashFn, k: seq<Kid>, l: seq<Kid>, all: seq<Kid>)
    requires KidsStay(h, k, l) && AllWithin(l, all)
    ensures AllWithin(k, all)
    decreases k
  {
    if k != [] {
      hide FindKid;
      StaysWithin(h, k[1..], l[1..], all);
      if k[0].node.Dir? && l[0].node.Dir? && !KidsFileless(l[0].node.kids) {
        StaysWithin(h, k[0].node.kids, l[0].node.kids, FindKid(all, k[0].name).value.node.kids);
      } else if k[0].node.Dir? && l[0].node.Dir? {
        FilelessStays(h, k[0].node.kids, l[0].node.kids);
      }
    }
  }

  lemma {:induction false} FilelessStays(h: HashFn, k: seq<Kid>, l: seq<Kid>)
    requires KidsStay(h, k, l) && KidsFileless(l)
    ensures KidsFileless(k)
    decreases k
  {
    if k != [] {
      FilelessStays(h, k[1..], l[1..]);
      FilelessStays(h, k[0].node.kids, l[0].node.kids);
    }
  }

  /** The other way: trees sealed alike, in which all recorded files are found, differ in
      nothing else. `l` is the managed part of the directory `all`. */
  lemma {:induction false} FoundStays(h: HashFn, k: seq<Kid>, l: seq<Kid>, all: seq<Kid>, ignored: string -> bool, pre: seq<string>)
    requires KidsSealedAlike(h, k, l) && GoodKids(k) && CanonicalKids(all)
    requires forall i :: 0 <= i < |l| ==> ManagedIn(l[i], all, ignored)
    requires AllStand(h, all, pre, TreeEntries(h, k, JoinPath(pre)), EntryComps(k, pre))
    ensures KidsStay(h, k, l)
    decreases k, 2
  {
    if k != [] {
      hide SealedAlike, Stays, AllStand, KidEntries, KidComps, JoinPath, GoodKid, ManagedIn, CanonicalKids;
      KidPaths(h, k[0], pre);
      StandSplit(h, all, pre, KidEntries(h, k[0], JoinPath(pre)), KidComps(k[0], pre),
                 TreeEntries(h, k[1..], JoinPath(pre)), EntryComps(k[1..], pre));
      FoundStay(h, k[0], l[0], all, ignored, pre);
      assert forall i :: 0 <= i < |l| - 1 ==> l[1..][i] == l[i + 1];
      FoundStays(h, k[1..], l[1..], all, ignored, pre);
    }
  }

  lemma StandSplit(h: HashFn, all: seq<Kid>, pre: seq<string>, entries: seq<Entry>, comps: seq<seq<string>>,
                   entries': seq<Entry>, comps': seq<seq<string>>)
    requires |entries| == |comps| && AllStand(h, all, pre, entries + entries', comps + comps')
    ensures AllStand(h, all, pre, entries, comps) && AllStand(h, all, pre, entries', comps')
  {
    hide Stands;
    var e, c := entries + entries', comps + comps';
    forall i | 0 <= i < |entries|
      ensures Stands(h, all, pre, entries[i], comps[i])
    {
      assert e[i] == entries[i] && c[i] == comps[i];
    }
    forall i | 0 <= i < |entries'|
      ensures Stands(h, all, pre, entries'[i], comps'[i])
    {
      assert e[|entries| + i] == entries'[i] && c[|entries| + i] == comps'[i];
    }
  }

  /** The entry of `all` that `l` is the managed part of. */
  predicate ManagedIn(l: Kid, all: seq<Kid>, ignored: string -> bool) {
    match FindKid(all, l.name)
    case None => false
    case Some(f) => l == ManagedKid(f, ignored)
  }

  lemma {:induction false} AllManagedIn(kids: seq<Kid>, all: seq<Kid>, ignored: string -> bool)
    requires DistinctNames(all) && |kids| <= |all| && kids == all[|all| - |kids|..]
    ensures forall i :: 0 <= i < |Managed(kids, ignored)| ==> ManagedIn(Managed(kids, ignored)[i], all, ignored)
    decreases |kids|
  {
    if kids != [] {
      hide FindKid, Managed, DistinctNames;
      var at := |all| - |kids|;
      AllManagedIn(kids[1..], all, ignored);
      assert all[at] == kids[0];
      FindDistinct(all, at);
      if ignored(kids[0].name) {
        ManagedSkips(kids, ignored);
      } else {
        ManagedHead(kids, ignored);
        var rest := Managed(kids[1..], ignored);
        assert ([ManagedKid(kids[0], ignored)] + rest)[1..] == rest;
      }
    } else {
      assert Managed(kids, ignored) == [];
    }
  }

  lemma {:induction false} FoundStay(h: HashFn, k: Kid, l: Kid, all: seq<Kid>, ignored: string -> bool, pre: seq<string>)
    requires k.name == l.name && SealedAlike(h, k.node, l.node) && GoodKid(k) && CanonicalKids(all)
    requires ManagedIn(l, all, ignored)
    requires AllStand(h, all, pre, KidEntries(h, k, JoinPath(pre)), KidComps(k, pre))
    ensures Stays(h, k.node, l.node)
    decreases k, 1
  {
    hide JoinPath, KidEntries, KidComps, AllStand, GoodName, FindKid, CanonicalKids, KidsSealedAlike, KidsStay, KidsFileless;
    if k.node.File? {
      FoundFile(h, k, all, pre);
    } else if l.node.Dir? {
      FoundDirectory(h, k, l, all, ignored, pre);
    } else {
      FoundFileless(h, k, all, pre);
    }
  }

  lemma {:induction false} FoundDirectory(h: HashFn, k: Kid, l: Kid, all: seq<Kid>, ignored: string -> bool, pre: seq<string>)
    requires k.name == l.name && k.node.Dir? && l.node.Dir? && GoodKid(k) && CanonicalKids(all)
    requires KidsSealedAlike(h, k.node.kids, l.node.kids) && ManagedIn(l, all, ignored)
    requires AllStand(h, all, pre, KidEntries(h, k, JoinPath(pre)), KidComps(k, pre))
    ensures KidsStay(h, k.node.kids, l.node.kids)
    decreases k, 0
  {
    hide JoinPath, KidEntries, KidComps, TreeEntries, EntryComps, GoodName, FindKid, Stands, CanonicalKids, KidsSealedAlike, KidsStay, DistinctNames;
    var f, kids, pre' := FindKid(all, k.name).value, k.node.kids, pre + [k.name];
    JoinSnoc(pre, k.name);
    SubEntriesStand(h, k, all, pre);
    var sub, subComps := TreeEntries(h, kids, JoinPath(pre')), EntryComps(kids, pre');
    CompsExtend(kids, pre');
    EntryPaths(h, kids, pre');
    forall i | 0 <= i < |sub|
      ensures Stands(h, f.node.kids, pre', sub[i], subComps[i])
    {
      assert Extends(subComps[i], pre', Names(kids));
      StandAbove(h, all, k, pre, sub[i], subComps[i]);
    }
    CanonicalFound(all, k.name);
    CanonicalDistinct(f.node.kids);
    assert f.node.kids == f.node.kids[|f.node.kids| - |f.node.kids|..];
    AllManagedIn(f.node.kids, f.node.kids, ignored);
    FoundStays(h, kids, l.node.kids, f.node.kids, ignored, pre');
  }

  /** Where a file stands for a recorded directory, nothing was recorded below it but
      directories. */
  lemma FoundFileless(h: HashFn, k: Kid, all: seq<Kid>, pre: seq<string>)
    requires k.node.Dir? && GoodKid(k) && FindKid(all, k.name).Some? && FindKid(all, k.name).value.node.File?
    requires AllStand(h, all, pre, KidEntries(h, k, JoinPath(pre)), KidComps(k, pre))
    ensures Fileless(k.node)
  {
    hide JoinPath, KidEntries, KidComps, TreeEntries, EntryComps, GoodName, FindKid, Stands;
    var kids, pre' := k.node.kids, pre + [k.name];
    SubEntriesStand(h, k, all, pre);
    var sub, subComps := TreeEntries(h, kids, JoinPath(pre')), EntryComps(kids, pre');
    CompsExtend(kids, pre');
    forall i | 0 <= i < |sub|
      ensures sub[i].DirEntry?
    {
      assert Extends(subComps[i], pre', Names(kids));
      NoFileBelowFile(h, all, k, pre, sub[i], subComps[i]);
    }
    OnlyDirectories(h, kids, JoinPath(pre'));
  }

  lemma CanonicalFound(all: seq<Kid>, name: string)
    requires CanonicalKids(all) && FindKid(all, name).Some? && FindKid(all, name).value.node.Dir?
    ensures CanonicalKids(FindKid(all, name).value.node.kids)
  {
    hide CanonicalKids;
    CanonicalAt(all);
    var f := FindKid(all, name).value;
    var i :| 0 <= i < |all| && all[i] == f;
    CanonicalDir(f.node);
  }

  /** A recorded file that stands is a file where it was. */
  lemma FoundFile(h: HashFn, k: Kid, all: seq<Kid>, pre: seq<string>)
    requires k.node.File? && GoodName(k.name) && FindKid(all, k.name).Some?
    requires AllStand(h, all, pre, KidEntries(h, k, JoinPath(pre)), KidComps(k, pre))
    ensures FindKid(all, k.name).value.node.File?
  {
    hide C4, JoinPath, FindKid, GoodName;
    assert Stands(h, all, pre, KidEntries(h, k, JoinPath(pre))[0], KidComps(k, pre)[0]);
    assert (pre + [k.name])[|pre|..] == [k.name] && [k.name][1..] == [];
    ResolveStep(all, k, [k.name]);
  }

  lemma SubEntriesStand(h: HashFn, k: Kid, all: seq<Kid>, pre: seq<string>)
    requires k.node.Dir? && AllStand(h, all, pre, KidEntries(h, k, JoinPath(pre)), KidComps(k, pre))
    ensures var pre' := pre + [k.name];
            AllStand(h, all, pre, TreeEntries(h, k.node.kids, JoinPath(pre')), EntryComps(k.node.kids, pre'))
  {
    hide C4, JoinPath, TreeEntries, EntryComps, Stands, ContentImage, StructureImage;
    var pre' := pre + [k.name];
    JoinSnoc(pre, k.name);
    EntryPaths(h, k.node.kids, pre');
    var sub, all' := TreeEntries(h, k.node.kids, JoinPath(pre')), KidEntries(h, k, JoinPath(pre));
    assert all' == sub + all'[|sub|..];
    StandSplit(h, all, pre, sub, EntryComps(k.node.kids, pre'), all'[|sub|..], [pre']);
  }

  lemma StandAbove(h: HashFn, all: seq<Kid>, k: Kid, pre: seq<string>, e: Entry, c: seq<string>)
    requires FindKid(all, k.name).Some? && FindKid(all, k.name).value.node.Dir? && GoodName(k.name)
    requires |c| > |pre| + 1 && c[..|pre| + 1] == pre + [k.name] && Stands(h, all, pre, e, c)
    ensures Stands(h, FindKid(all, k.name).value.node.kids, pre + [k.name], e, c)
  {
    hide Resolve, FindKid, GoodName, C4;
    assert c[|pre|] == c[..|pre| + 1][|pre|] == k.name;
    assert c[|pre|..][1..] == c[|pre| + 1..];
    ResolveStep(all, k, c[|pre|..]);
  }

  lemma NoFileBelowFile(h: HashFn, all: seq<Kid>, k: Kid, pre: seq<string>, e: Entry, c: seq<string>)
    requires FindKid(all, k.name).Some? && FindKid(all, k.name).value.node.File? && GoodName(k.name)
    requires |c| > |pre| + 1 && c[..|pre| + 1] == pre + [k.name] && Stands(h, all, pre, e, c)
    ensures e.DirEntry?
  {
    hide FindKid, GoodName, C4;
    assert c[|pre|] == c[..|pre| + 1][|pre|] == k.name;
    ResolveStep(all, k, c[|pre|..]);
  }

  /** Every row Ok and both roots a match. */
  ghost predicate PassesAll(h: HashFn, recorded: Hashlist, name: string, mtime: nat, kids: seq<Kid>) {
    Verify(h, StatIn(kids), name, mtime, kids, recorded)
    == Ok(VerifyResult(PassedRows(recorded.files), RootVerdict(true, true)))
  }

  /** Every row passes and both digests are those recorded. */
  lemma PassesMeans(h: HashFn, folder: string, mtime: nat, kids: seq<Kid>, created: nat, hostname: string, toolVersion: string,
                    folder': string, mtime': nat, kids': seq<Kid>)
    requires CanonicalKids(kids) && GoodKids(Managed(kids, Ignores(IGNORE_PATTERNS))) && CanonicalKids(kids')
    ensures var ignored := Ignores(IGNORE_PATTERNS);
            var was, now := Dir(Managed(kids, ignored)), Dir(Managed(kids', ignored));
            PassesAll(h, Faithful(ScopeManifest(h, folder, mtime, kids, created, hostname, toolVersion)), folder', mtime', kids')
            <==> && AllStand(h, kids', [], TreeEntries(h, was.kids, ""), EntryComps(was.kids, []))
                 && h(ContentImage(h, now)) == h(ContentImage(h, was))
                 && h(StructureImage(h, now)) == h(StructureImage(h, was))
  {
    hide Walk, DirHashes, PushEntries, TreeEntries, EntryComps, AllStand, Managed, Encode, CanonicalKids, GoodKids, IGNORE_PATTERNS, ContentImage, StructureImage, Sweep, Passes, FaithfulRows, FilesOf, PassedRows, StatIn;
    var ignored := Ignores(IGNORE_PATTERNS);
    var m := ScopeManifest(h, folder, mtime, kids, created, hostname, toolVersion);
    var was, now := Dir(Managed(kids, ignored)), Dir(Managed(kids', ignored));
    ScopeManifestIsTree(h, folder, mtime, kids, created, hostname, toolVersion);
    EntriesPass(h, kids', was.kids);
    SweepPasses(h, StatIn(kids'), m.entries);
    DirHashesOfWalk(h, folder', mtime', kids', ignored);
    C4IsEncode(h, ContentImage(h, was));
    C4IsEncode(h, StructureImage(h, was));
    SameIdentifier(h(ContentImage(h, now)), h(ContentImage(h, was)));
    SameIdentifier(h(StructureImage(h, now)), h(StructureImage(h, was)));
  }

  lemma SameIdentifier(a: Digest, b: Digest)
    ensures Encode(a) == Encode(b) <==> a == b
  {
    hide Encode;
    if Encode(a) == Encode(b) {
      EncodeInjective(a, b);
    }
  }

  /** Verifying a scope against what was recorded passes in everything exactly when the managed
      tree stays, or else two of the strings hashed for the root hashes collide. */
  lemma PassesExactly(h: HashFn, folder: string, mtime: nat, kids: seq<Kid>, created: nat, hostname: string, toolVersion: string,
                      folder': string, mtime': nat, kids': seq<Kid>)
    requires CanonicalKids(kids) && GoodKids(Managed(kids, Ignores(IGNORE_PATTERNS))) && CanonicalKids(kids')
    ensures var recorded := Faithful(ScopeManifest(h, folder, mtime, kids, created, hostname, toolVersion));
            var ignored := Ignores(IGNORE_PATTERNS);
            var was, now := Dir(Managed(kids, ignored)), Dir(Managed(kids', ignored));
            var stays := Stays(h, was, now) && ContentImage(h, now) == ContentImage(h, was);
            && (stays ==> PassesAll(h, recorded, folder', mtime', kids'))
            && (PassesAll(h, recorded, folder', mtime', kids') ==> stays || CollisionIn(h, Hashed(h, now) + Hashed(h, was)))
  {
    hide Walk, DirHashes, PushEntries, TreeEntries, EntryComps, AllStand, Managed, Encode, CanonicalKids, GoodKids, IGNORE_PATTERNS, ContentImage, StructureImage, ScopeManifest, PassesAll, Faithful, Hashed, AllWithin, KidsStay, KidsSealedAlike, DistinctNames;
    var ignored := Ignores(IGNORE_PATTERNS);
    var was, now := Dir(Managed(kids, ignored)), Dir(Managed(kids', ignored));
    PassesMeans(h, folder, mtime, kids, created, hostname, toolVersion, folder', mtime', kids');
    assert kids' == kids'[|kids'| - |kids'|..];
    EmptyPathIsEmpty();
    if Stays(h, was, now) && ContentImage(h, now) == ContentImage(h, was) {
      StaysSealed(h, was, now);
      SealedAlikeSameDigest(h, was, now);
      ManagedWithin(kids', kids', ignored);
      StaysWithin(h, was.kids, now.kids, kids');
      FilesStand(h, kids', was.kids, []);
    }
    var s := Hashed(h, now) + Hashed(h, was);
    if PassesAll(h, Faithful(ScopeManifest(h, folder, mtime, kids, created, hostname, toolVersion)), folder', mtime', kids') && InjectiveOn(h, s) {
      ManagedCanonical(kids, ignored);
      ManagedCanonical(kids', ignored);
      StructureBinds(h, was, now, s);
      CanonicalDistinct(kids');
      AllManagedIn(kids', kids', ignored);
      FoundStays(h, was.kids, now.kids, kids', ignored, []);
      ImagesHashed(h, was);
      ImagesHashed(h, now);
    }
  }

  /** Every directory below has a file somewhere in it. */
  predicate NoneFileless(kids: seq<Kid>)
  {
    kids == []
    || (&& (kids[0].node.Dir? ==> !KidsFileless(kids[0].node.kids) && NoneFileless(kids[0].node.kids))
        && NoneFileless(kids[1..]))
  }

  lemma {:induction false} StaysIsSame(h: HashFn, k: seq<Kid>, l: seq<Kid>)
    requires KidsStay(h, k, l) && NoneFileless(k)
    ensures SameKids(k, l)
    decreases k
  {
    if k != [] {
      StaysIsSame(h, k[1..], l[1..]);
      if k[0].node.Dir? {
        StaysIsSame(h, k[0].node.kids, l[0].node.kids);
      }
    }
  }

  /** Recorded times aside, an unmodified scope always passes; and where every recorded directory
      holds a file somewhere, nothing else does, short of a collision. */
  lemma UnmodifiedScopeVerifies(h: HashFn, folder: string, mtime: nat, kids: seq<Kid>, created: nat, hostname: string, toolVersion: string,
                                folder': string, mtime': nat, kids': seq<Kid>)
    requires CanonicalKids(kids) && GoodKids(Managed(kids, Ignores(IGNORE_PATTERNS))) && CanonicalKids(kids')
    ensures var recorded := Faithful(ScopeManifest(h, folder, mtime, kids, created, hostname, toolVersion));
            var ignored := Ignores(IGNORE_PATTERNS);
            var was, now := Dir(Managed(kids, ignored)), Dir(Managed(kids', ignored));
            && (SameTree(was, now) ==> PassesAll(h, recorded, folder', mtime', kids'))
            && (NoneFileless(was.kids) && PassesAll(h, recorded, folder', mtime', kids')
                ==> SameTree(was, now) || CollisionIn(h, Hashed(h, now) + Hashed(h, was)))
  {
    hide Managed, CanonicalKids, GoodKids, IGNORE_PATTERNS, ContentImage, ScopeManifest, PassesAll, Faithful, Hashed, KidsStay, WithoutTimes, NoneFileless, SameKids;
    var ignored := Ignores(IGNORE_PATTERNS);
    var was, now := Dir(Managed(kids, ignored)), Dir(Managed(kids', ignored));
    PassesExactly(h, folder, mtime, kids, created, hostname, toolVersion, folder', mtime', kids');
    if SameTree(was, now) {
      SameStays(h, was, now);
      SameButTimes(was, now);
      TimesUnseen(h, was);
      TimesUnseen(h, now);
    }
    if Stays(h, was, now) && NoneFileless(was.kids) {
      StaysIsSame(h, was.kids, now.kids);
    }
  }
}
