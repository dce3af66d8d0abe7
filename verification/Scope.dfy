/** From a scope tree to manifest entries (tool/src/ascmhl.rs): the ignore patterns, the
    post-order entry list over the walked directory, and what it amounts to on the tree. */
module Scope {
  import opened Prelude
  import opened Sorting
  import opened C4Id
  import opened Seal
  import opened SealSoundness
  import opened Manifest

  // ---------------------------------------------------------------------------------------
  // Ignoring
  // ---------------------------------------------------------------------------------------

  /** `*suffix`, `prefix*`, or the exact name. */
  predicate PatternMatches(pattern: string, name: string) {
    if pattern != "" && pattern[0] == '*' then
      |name| >= |pattern| - 1 && name[|name| - (|pattern| - 1)..] == pattern[1..]
    else if pattern != "" && pattern[|pattern| - 1] == '*' then pattern[..|pattern| - 1] <= name
    else name == pattern
  }

  predicate IgnoredBy(patterns: seq<string>, name: string) {
    exists i :: 0 <= i < |patterns| && PatternMatches(patterns[i], name)
  }

  function Ignores(patterns: seq<string>): string -> bool {
    name => IgnoredBy(patterns, name)
  }

  // ---------------------------------------------------------------------------------------
  // The entry list
  // ---------------------------------------------------------------------------------------

  function FindFile(files: seq<FileNode>, name: string): (r: Option<FileNode>)
    ensures r.Some? ==> r.value in files && r.value.name == name
  {
    if files == [] then None else if files[0].name == name then Some(files[0]) else FindFile(files[1..], name)
  }

  function FindDir(dirs: seq<DirNode>, name: string): (r: Option<DirNode>)
    ensures r.Some? ==> r.value in dirs && r.value.name == name
  {
    if dirs == [] then None else if dirs[0].name == name then Some(dirs[0]) else FindDir(dirs[1..], name)
  }

  function FileNames(files: seq<FileNode>): seq<string> {
    if files == [] then [] else [files[0].name] + FileNames(files[1..])
  }

  function DirNames(dirs: seq<DirNode>): seq<string> {
    if dirs == [] then [] else [dirs[0].name] + DirNames(dirs[1..])
  }

  function Under(prefix: string, name: string): string {
    if prefix == "" then name else prefix + "/" + name
  }

  /** Children by name, files and directories together; a directory after its own children. */
  function PushEntries(h: HashFn, d: DirNode, prefix: string): seq<Entry>
    decreases d, 1, 0
  {
    PushItems(h, d, prefix, Sort(StringLe, FileNames(d.files) + DirNames(d.dirs)))
  }

  function PushItems(h: HashFn, d: DirNode, prefix: string, items: seq<string>): seq<Entry>
    decreases d, 0, |items|
  {
    if items == [] then []
    else PushItem(h, d, prefix, items[0]) + PushItems(h, d, prefix, items[1..])
  }

  function PushItem(h: HashFn, d: DirNode, prefix: string, name: string): seq<Entry>
    decreases d, 0, 0
  {
    var rel := Under(prefix, name);
    match FindFile(d.files, name)
    case Some(f) => [FileEntry(rel, f.size, f.mtime, f.c4)]
    case None =>
      match FindDir(d.dirs, name)
      case None => []
      case Some(c) =>
        var (content, structure) := DirHashes(h, c);
        PushEntries(h, c, rel) + [DirEntry(rel, c.mtime, content, structure)]
  }

  /** The same list read off a tree of managed entries. */
  function TreeEntries(h: HashFn, kids: seq<Kid>, prefix: string): seq<Entry>
    decreases kids, 0
  {
    if kids == [] then [] else KidEntries(h, kids[0], prefix) + TreeEntries(h, kids[1..], prefix)
  }

  function KidEntries(h: HashFn, k: Kid, prefix: string): seq<Entry>
    decreases k, 0
  {
    var rel := Under(prefix, k.name);
    match k.node
    case File(data) => [FileEntry(rel, |data|, k.mtime, C4(h, data))]
    case Dir(kids) =>
      TreeEntries(h, kids, rel)
      + [DirEntry(rel, k.mtime, C4(h, ContentImage(h, k.node)), C4(h, StructureImage(h, k.node)))]
  }

  // ---------------------------------------------------------------------------------------
  // They agree
  // ---------------------------------------------------------------------------------------

  lemma {:induction false} NamesOfWalk(h: HashFn, kids: seq<Kid>, ignored: string -> bool)
    ensures multiset(FileNames(WalkFiles(h, kids, ignored)) + DirNames(WalkDirs(h, kids, ignored)))
            == multiset(Names(Managed(kids, ignored)))
  {
    hide StringLess;
    if kids != [] {
      NamesOfWalk(h, kids[1..], ignored);
      var k := kids[0];
      var files, dirs := WalkFiles(h, kids[1..], ignored), WalkDirs(h, kids[1..], ignored);
      if !ignored(k.name) {
        if k.node.File? {
          FileNamesCons(FileNode(k.name, |k.node.data|, k.mtime, C4(h, k.node.data)), files, DirNames(dirs));
        } else {
          DirNamesCons(Walk(h, k.name, k.mtime, k.node.kids, ignored), dirs, FileNames(files));
        }
        NamesCons(Managed(kids, ignored));
      }
    }
  }

  lemma FileNamesCons(f: FileNode, files: seq<FileNode>, more: seq<string>)
    ensures multiset(FileNames([f] + files) + more) == multiset{f.name} + multiset(FileNames(files) + more)
  {
    assert ([f] + files)[1..] == files;
  }

  lemma DirNamesCons(d: DirNode, dirs: seq<DirNode>, more: seq<string>)
    ensures multiset(more + DirNames([d] + dirs)) == multiset{d.name} + multiset(more + DirNames(dirs))
  {
    assert ([d] + dirs)[1..] == dirs;
  }

  lemma NamesCons(kids: seq<Kid>)
    requires kids != []
    ensures multiset(Names(kids)) == multiset{kids[0].name} + multiset(Names(kids[1..]))
  {
  }

  lemma StrictSorted(names: seq<string>)
    requires Strict(names)
    ensures Ascending(StringLe, names)
  {
    hide StringLess;
    forall i, j | 0 <= i < j < |names|
      ensures StringLe(names[i], names[j])
    {
      StringTrichotomy(names[i], names[j]);
    }
  }

  /** Walking and sorting lists the managed names in tree order. */
  lemma ItemsOfWalk(h: HashFn, kids: seq<Kid>, ignored: string -> bool)
    requires CanonicalKids(kids)
    ensures Sort(StringLe, FileNames(WalkFiles(h, kids, ignored)) + DirNames(WalkDirs(h, kids, ignored)))
            == Names(Managed(kids, ignored))
  {
    hide StringLess, Sort, FileNames, DirNames, WalkFiles, WalkDirs, Names, CanonicalKids, Managed;
    var items := FileNames(WalkFiles(h, kids, ignored)) + DirNames(WalkDirs(h, kids, ignored));
    var names := Names(Managed(kids, ignored));
    ManagedCanonical(kids, ignored);
    CanonicalAt(Managed(kids, ignored));
    NamesOfWalk(h, kids, ignored);
    StringLeTotal();
    SortAscends(StringLe, items);
    SortPermutes(StringLe, items);
    StrictSorted(names);
    AscendingUnique(StringLe, Sort(StringLe, items), names);
  }

  ghost predicate DistinctNames(kids: seq<Kid>) {
    forall i, j :: 0 <= i < j < |kids| ==> kids[i].name != kids[j].name
  }

  lemma CanonicalDistinct(kids: seq<Kid>)
    requires CanonicalKids(kids)
    ensures DistinctNames(kids)
  {
    hide StringLess, CanonicalKids;
    CanonicalAt(kids);
    forall i, j | 0 <= i < j < |kids|
      ensures kids[i].name != kids[j].name
    {
      assert Names(kids)[i] == kids[i].name && Names(kids)[j] == kids[j].name;
      StringTrichotomy(kids[i].name, kids[j].name);
    }
  }

  /** The walked directory finds each managed child by its name, as the kind it is. */
  lemma {:induction false} FindInWalk(h: HashFn, kids: seq<Kid>, ignored: string -> bool, i: nat)
    requires DistinctNames(kids) && i < |kids| && !ignored(kids[i].name)
    ensures var k := kids[i];
            && FindFile(WalkFiles(h, kids, ignored), k.name)
               == (if k.node.File? then Some(FileNode(k.name, |k.node.data|, k.mtime, C4(h, k.node.data))) else None)
            && FindDir(WalkDirs(h, kids, ignored), k.name)
               == if k.node.Dir? then Some(Walk(h, k.name, k.mtime, k.node.kids, ignored)) else None
  {
    hide C4;
    if i > 0 {
      assert kids[1..][i - 1] == kids[i];
      assert DistinctNames(kids[1..]) by {
        forall a, b | 0 <= a < b < |kids[1..]|
          ensures kids[1..][a].name != kids[1..][b].name
        {
          assert kids[1..][a] == kids[a + 1] && kids[1..][b] == kids[b + 1];
        }
      }
      FindInWalk(h, kids[1..], ignored, i - 1);
      assert kids[0].name != kids[i].name;
    } else {
      NotFoundLater(h, kids[1..], ignored, kids[0].name);
    }
  }

  lemma {:induction false} NotFoundLater(h: HashFn, kids: seq<Kid>, ignored: string -> bool, name: string)
    requires forall i :: 0 <= i < |kids| ==> kids[i].name != name
    ensures FindFile(WalkFiles(h, kids, ignored), name) == None
    ensures FindDir(WalkDirs(h, kids, ignored), name) == None
  {
    hide C4;
    if kids != [] {
      NotFoundLater(h, kids[1..], ignored, name);
    }
  }

  /** The managed child of an unignored one. */
  function ManagedKid(k: Kid, ignored: string -> bool): Kid {
    if k.node.File? then k else k.(node := Dir(Managed(k.node.kids, ignored)))
  }

  /** The source's entry list over the walk is the post-order list of the managed tree. */
  lemma {:induction false} PushEntriesOfWalk(h: HashFn, name: string, mtime: nat, kids: seq<Kid>, ignored: string -> bool, prefix: string)
    requires CanonicalKids(kids)
    ensures PushEntries(h, Walk(h, name, mtime, kids, ignored), prefix) == TreeEntries(h, Managed(kids, ignored), prefix)
    decreases kids, 2
  {
    hide StringLess, Sort, FileNames, DirNames, WalkFiles, WalkDirs, Names, CanonicalKids, Managed, PushItems, TreeEntries;
    ItemsOfWalk(h, kids, ignored);
    ItemsMatch(h, name, mtime, kids, kids, ignored, prefix);
  }

  lemma {:induction false} ItemsMatch(h: HashFn, name: string, mtime: nat, kids: seq<Kid>, rest: seq<Kid>, ignored: string -> bool, prefix: string)
    requires CanonicalKids(kids) && |rest| <= |kids| && rest == kids[|kids| - |rest|..]
    ensures PushItems(h, Walk(h, name, mtime, kids, ignored), prefix, Names(Managed(rest, ignored)))
            == TreeEntries(h, Managed(rest, ignored), prefix)
    decreases kids, 1, |rest|
  {
    if rest != [] {
      hide StringLess, CanonicalKids, Walk, PushItem, KidEntries, WalkFiles, WalkDirs;
      var k, more := rest[0], rest[1..];
      ItemsMatch(h, name, mtime, kids, more, ignored, prefix);
      if !ignored(k.name) {
        var at := |kids| - |rest|;
        assert kids[at] == k;
        KidMatches(h, name, mtime, kids, at, ignored, prefix);
        ManagedHead(rest, ignored);
        hide Managed;
        var managed := Managed(rest, ignored);
        assert Names(managed)[0] == k.name && Names(managed)[1..] == Names(managed[1..]);
        assert managed[0] == ManagedKid(k, ignored) && managed[1..] == Managed(more, ignored);
      }
    }
  }

  lemma ManagedHead(rest: seq<Kid>, ignored: string -> bool)
    requires rest != [] && !ignored(rest[0].name)
    ensures Managed(rest, ignored) == [ManagedKid(rest[0], ignored)] + Managed(rest[1..], ignored)
  {
  }

  lemma {:induction false} KidMatches(h: HashFn, name: string, mtime: nat, kids: seq<Kid>, i: nat, ignored: string -> bool, prefix: string)
    requires CanonicalKids(kids) && i < |kids| && !ignored(kids[i].name)
    ensures PushItem(h, Walk(h, name, mtime, kids, ignored), prefix, kids[i].name)
            == KidEntries(h, ManagedKid(kids[i], ignored), prefix)
    decreases kids, 0
  {
    hide StringLess, CanonicalKids, WalkFiles, WalkDirs, DirHashes, PushEntries, TreeEntries, Managed, C4, Encode;
    var k := kids[i];
    CanonicalDistinct(kids);
    CanonicalAt(kids);
    FindInWalk(h, kids, ignored, i);
    if k.node.Dir? {
      CanonicalDir(k.node);
      PushEntriesOfWalk(h, k.name, k.mtime, k.node.kids, ignored, Under(prefix, k.name));
      DirHashesOfWalk(h, k.name, k.mtime, k.node.kids, ignored);
      C4IsEncode(h, ContentImage(h, Dir(Managed(k.node.kids, ignored))));
      C4IsEncode(h, StructureImage(h, Dir(Managed(k.node.kids, ignored))));
    }
  }

  lemma C4IsEncode(h: HashFn, data: seq<byte>)
    ensures C4(h, data) == Encode(h(data))
  {
    hide Encode;
  }

  lemma CanonicalDir(n: Node)
    requires Canonical(n) && n.Dir?
    ensures CanonicalKids(n.kids)
  {
  }
}
