/** Which files and directories a scope's manifest records (tool/src/ascmhl.rs): exactly those to
    which a path without ignored names leads. */
module ManagedFiles {
  import opened Prelude
  import opened Seal
  import opened SealSoundness
  import opened Manifest
  import opened ManifestRoundTrip
  import opened Scope
  import opened ScopePaths
  import opened ScopeOnDisk
  import opened WriteThenVerify
  import IgnoreRules
  import Sidecar

  /** What the names lead to, if none of them is ignored. */
  function Kept(kids: seq<Kid>, comps: seq<string>, ignored: string -> bool): Option<Kid>
    decreases |comps|
  {
    if comps == [] then None
    else
      match FindKid(kids, comps[0])
      case None => None
      case Some(k) =>
        if ignored(k.name) then None
        else if |comps| == 1 then Some(k)
        else if k.node.Dir? then Kept(k.node.kids, comps[1..], ignored)
        else None
  }

  /** What is recorded of it under a path. */
  function EntryOf(h: HashFn, path: string, k: Kid, ignored: string -> bool): Entry {
    match k.node
    case File(data) => FileEntry(path, |data|, k.mtime, C4(h, data))
    case Dir(kids) =>
      var managed := Dir(Managed(kids, ignored));
      DirEntry(path, k.mtime, C4(h, ContentImage(h, managed)), C4(h, StructureImage(h, managed)))
  }

  lemma {:induction false} KidRecorded(h: HashFn, kids: seq<Kid>, k: Kid, ignored: string -> bool, prefix: string, e: Entry)
    requires k in kids && !ignored(k.name) && e in KidEntries(h, ManagedKid(k, ignored), prefix)
    ensures e in TreeEntries(h, Managed(kids, ignored), prefix)
  {
    hide KidEntries, ManagedKid;
    if !ignored(kids[0].name) {
      ManagedHead(kids, ignored);
      HeadEntries(h, Managed(kids, ignored), prefix);
    } else {
      ManagedSkips(kids, ignored);
    }
    hide Managed, TreeEntries;
    if k != kids[0] {
      KidRecorded(h, kids[1..], k, ignored, prefix, e);
      if !ignored(kids[0].name) {
        assert Managed(kids, ignored)[1..] == Managed(kids[1..], ignored);
      }
    } else {
      assert Managed(kids, ignored)[0] == ManagedKid(k, ignored);
    }
  }

  /** A path without ignored names leads to something recorded. */
  lemma {:induction false} KeptIsRecorded(h: HashFn, kids: seq<Kid>, comps: seq<string>, ignored: string -> bool, pre: seq<string>)
    requires Kept(kids, comps, ignored).Some?
    ensures EntryOf(h, JoinPath(pre + comps), Kept(kids, comps, ignored).value, ignored)
            in TreeEntries(h, Managed(kids, ignored), JoinPath(pre))
    decreases |comps|
  {
    hide C4, ContentImage, StructureImage, FindKid, Managed, TreeEntries, JoinPath;
    var k := FindKid(kids, comps[0]).value;
    var prefix, pre' := JoinPath(pre), pre + [k.name];
    var e := EntryOf(h, JoinPath(pre + comps), Kept(kids, comps, ignored).value, ignored);
    JoinSnoc(pre, k.name);
    if |comps| == 1 {
      assert comps == [k.name];
    } else {
      KeptIsRecorded(h, k.node.kids, comps[1..], ignored, pre');
      assert pre' + comps[1..] == pre + comps;
    }
    KidRecorded(h, kids, k, ignored, prefix, e);
  }

  /** The path and what it leads to of a recorded entry. */
  ghost predicate Comes(h: HashFn, kids: seq<Kid>, comps: seq<string>, ignored: string -> bool, pre: seq<string>, e: Entry) {
    var k := Kept(kids, comps, ignored);
    k.Some? && e == EntryOf(h, JoinPath(pre + comps), k.value, ignored)
  }

  lemma {:induction false} RecordedIsKept(h: HashFn, kids: seq<Kid>, all: seq<Kid>, ignored: string -> bool, pre: seq<string>, e: Entry)
    returns (comps: seq<string>)
    requires CanonicalKids(all) && |kids| <= |all| && kids == all[|all| - |kids|..]
    requires e in TreeEntries(h, Managed(kids, ignored), JoinPath(pre))
    ensures Comes(h, all, comps, ignored, pre, e)
    decreases all, |kids|
  {
    hide C4, ContentImage, StructureImage, FindKid, CanonicalKids, KidEntries, ManagedKid, Managed, TreeEntries, JoinPath;
    if kids == [] {
      NoManaged(h, ignored, JoinPath(pre));
      assert false;
    } else {
      var at, k := |all| - |kids|, kids[0];
      assert all[at] == k;
      if ignored(k.name) {
        ManagedSkips(kids, ignored);
        comps := RecordedIsKept(h, kids[1..], all, ignored, pre, e);
      } else {
        ManagedHead(kids, ignored);
        HeadEntries(h, Managed(kids, ignored), JoinPath(pre));
        var rest := Managed(kids[1..], ignored);
        assert ([ManagedKid(k, ignored)] + rest)[1..] == rest;
        if e in KidEntries(h, ManagedKid(k, ignored), JoinPath(pre)) {
          CanonicalDistinct(all);
          FindDistinct(all, at);
          CanonicalAt(all);
          comps := RecordedInKid(h, k, all, ignored, pre, e);
        } else {
          comps := RecordedIsKept(h, kids[1..], all, ignored, pre, e);
        }
      }
    }
  }

  lemma {:induction false} RecordedInKid(h: HashFn, k: Kid, all: seq<Kid>, ignored: string -> bool, pre: seq<string>, e: Entry)
    returns (comps: seq<string>)
    requires FindKid(all, k.name) == Some(k) && k in all && Canonical(k.node) && !ignored(k.name)
    requires e in KidEntries(h, ManagedKid(k, ignored), JoinPath(pre))
    ensures Comes(h, all, comps, ignored, pre, e)
    decreases all, 0
  {
    hide C4, ContentImage, StructureImage, FindKid, CanonicalKids, Managed, TreeEntries, JoinPath;
    JoinSnoc(pre, k.name);
    if e == EntryOf(h, JoinPath(pre + [k.name]), k, ignored) {
      comps := [k.name];
    } else {
      var pre' := pre + [k.name];
      var sub := k.node.kids;
      assert sub == sub[|sub| - |sub|..];
      var below := RecordedIsKept(h, sub, sub, ignored, pre', e);
      comps := [k.name] + below;
      assert comps[1..] == below && pre' + below == pre + comps;
    }
  }

  lemma NoManaged(h: HashFn, ignored: string -> bool, prefix: string)
    ensures TreeEntries(h, Managed([], ignored), prefix) == []
  {
  }

  /** A scope's manifest records exactly what a path without ignored names leads to. */
  lemma RecordedExactly(h: HashFn, folder: string, mtime: nat, kids: seq<Kid>, created: nat, hostname: string, toolVersion: string, e: Entry)
    requires CanonicalKids(kids)
    ensures var entries := ScopeManifest(h, folder, mtime, kids, created, hostname, toolVersion).entries;
            e in entries <==> exists comps: seq<string> :: Comes(h, kids, comps, Ignores(IGNORE_PATTERNS), [], e)
  {
    hide CanonicalKids, Managed, TreeEntries, JoinPath, IGNORE_PATTERNS, ScopeManifest, EntryOf, Kept, Ignores;
    var ignored := Ignores(IGNORE_PATTERNS);
    ScopeManifestIsTree(h, folder, mtime, kids, created, hostname, toolVersion);
    EmptyPathIsEmpty();
    if e in TreeEntries(h, Managed(kids, ignored), "") {
      assert kids == kids[|kids| - |kids|..];
      var comps := RecordedIsKept(h, kids, kids, ignored, [], e);
    }
    if exists comps: seq<string> :: Comes(h, kids, comps, ignored, [], e) {
      var comps: seq<string> :| Comes(h, kids, comps, ignored, [], e);
      KeptIsRecorded(h, kids, comps, ignored, []);
    }
  }

  /** Every frame below directories that are not ignored is recorded with its size and
      identifier, unless it is a shadow file. */
  lemma FrameIsRecorded(h: HashFn, folder: string, mtime: nat, kids: seq<Kid>, created: nat, hostname: string, toolVersion: string,
                        comps: seq<string>, data: seq<byte>)
    requires CanonicalKids(kids) && comps != [] && Resolves(kids, comps, data)
    requires forall i :: 0 <= i < |comps| - 1 ==> !IgnoreRules.IgnoredName(comps[i])
    requires Sidecar.IsDng(comps[|comps| - 1]) && !("._" <= comps[|comps| - 1])
    ensures exists t: nat :: FileEntry(JoinPath(comps), |data|, t, C4(h, data))
                             in ScopeManifest(h, folder, mtime, kids, created, hostname, toolVersion).entries
  {
    hide CanonicalKids, JoinPath, IGNORE_PATTERNS, ScopeManifest, C4, IgnoredBy;
    IgnoreRules.FrameNotIgnored(comps[|comps| - 1]);
    var k := LeadsTo(kids, comps, data);
    var e := FileEntry(JoinPath(comps), |data|, k.mtime, C4(h, data));
    assert [] + comps == comps;
    assert Comes(h, kids, comps, Ignores(IGNORE_PATTERNS), [], e);
    RecordedExactly(h, folder, mtime, kids, created, hostname, toolVersion, e);
  }

  /** The names lead to a file of these octets. */
  predicate Resolves(kids: seq<Kid>, comps: seq<string>, data: seq<byte>)
    decreases |comps|
  {
    comps != []
    && match FindKid(kids, comps[0])
       case None => false
       case Some(k) =>
         if |comps| == 1 then k.node == File(data) else k.node.Dir? && Resolves(k.node.kids, comps[1..], data)
  }

  lemma {:induction false} LeadsTo(kids: seq<Kid>, comps: seq<string>, data: seq<byte>) returns (k: Kid)
    requires Resolves(kids, comps, data) && forall i :: 0 <= i < |comps| ==> !IgnoredBy(IGNORE_PATTERNS, comps[i])
    ensures Kept(kids, comps, Ignores(IGNORE_PATTERNS)) == Some(k) && k.node == File(data)
    decreases |comps|
  {
    hide FindKid, IgnoredBy, IGNORE_PATTERNS;
    k := FindKid(kids, comps[0]).value;
    if |comps| > 1 {
      k := LeadsTo(k.node.kids, comps[1..], data);
    }
  }

  // ---------------------------------------------------------------------------------------
  // A scope that can be sealed
  // ---------------------------------------------------------------------------------------

  /** A scope of one file, not ignored, with a name and a size that can be recorded. */
  lemma OneFileSealable(h: HashFn, folder: string, mtime: nat, name: string, t: nat, data: seq<byte>,
                        created: nat, hostname: string, toolVersion: string)
    requires GoodName(name) && Trimmed(name) && !IgnoredBy(IGNORE_PATTERNS, name) && |data| < U64_LIMIT
    requires hostname != "" && Trimmed(hostname) && toolVersion != ""
    ensures Sealable(h, folder, mtime, [Kid(name, t, File(data))], created, hostname, toolVersion)
  {
    hide GoodName, Trimmed, IgnoredBy, IGNORE_PATTERNS, ScopeManifest, C4, Managed, TreeEntries;
    var kids := [Kid(name, t, File(data))];
    assert kids[1..] == [];
    ManagedSingle(kids[0], Ignores(IGNORE_PATTERNS));
    ScopeManifestIsTree(h, folder, mtime, kids, created, hostname, toolVersion);
    HeadEntries(h, kids, "");
    NoTreeEntries(h, "");
    assert TreeEntries(h, kids, "") == [FileEntry(name, |data|, t, C4(h, data))];
    assert GoodKids(kids) && CanonicalKids(kids);
    assert AllTrimmed(TreeEntries(h, kids, ""));
  }

  lemma FrameName()
    ensures GoodName("A001.dng") && Trimmed("A001.dng") && Trimmed("host") && Sidecar.IsDng("A001.dng")
  {
  }

  /** So there are scopes to seal: one frame and nothing else. */
  lemma SealableExists(h: HashFn)
    ensures Sealable(h, "reel", 0, [Kid("A001.dng", 0, File([1]))], 0, "host", "1")
  {
    hide GoodName, Trimmed, IgnoredBy, Sealable, Sidecar.IsDng;
    FrameName();
    assert "A001.dng"[0] == 'A' && "._"[0] == '.';
    IgnoreRules.FrameNotIgnored("A001.dng");
    OneFileSealable(h, "reel", 0, "A001.dng", 0, [1], 0, "host", "1");
  }
}
