/** The directory seal of tool/src/ascmhl.rs: hash-of-hashes, the per-child structure mix, and
    the recursive content and structure hashes. The hash function is a parameter: every
    statement holds for every function from octet strings to 64-octet digests. */
module Seal {
  import opened Prelude
  import opened Positional
  import opened Sorting
  import opened C4Id
  import Sha512
  import Utf8

  type Digest = Sha512.Digest
  type HashFn = seq<byte> -> Digest

  // ---------------------------------------------------------------------------------------
  // The source's functions, on identifier strings
  // ---------------------------------------------------------------------------------------

  function C4(h: HashFn, data: seq<byte>): string {
    Encode(h(data))
  }

  predicate StringLe(a: string, b: string) {
    !StringLess(b, a)
  }

  /** Sort the identifiers as strings, hash the digests they stand for. */
  function HashOfHashList(h: HashFn, list: seq<string>): string {
    C4(h, Flatten(Map(Decode, Sort(StringLe, list))))
  }

  function StructureChildC4(h: HashFn, basename: string, mixed: string): string {
    C4(h, Utf8.Octets(basename) + Decode(mixed))
  }

  datatype FileNode = FileNode(name: string, size: nat, mtime: nat, c4: string)
  datatype DirNode = DirNode(name: string, mtime: nat, files: seq<FileNode>, dirs: seq<DirNode>)

  function FileContents(files: seq<FileNode>): seq<string> {
    if files == [] then [] else [files[0].c4] + FileContents(files[1..])
  }

  function FileMixes(h: HashFn, files: seq<FileNode>): seq<string> {
    if files == [] then [] else [StructureChildC4(h, files[0].name, files[0].c4)] + FileMixes(h, files[1..])
  }

  /** A subdirectory with its content and structure hashes. */
  datatype Sub = Sub(name: string, content: string, structure: string)

  function SubContents(subs: seq<Sub>): seq<string> {
    if subs == [] then [] else [subs[0].content] + SubContents(subs[1..])
  }

  function SubMixes(h: HashFn, subs: seq<Sub>): seq<string> {
    if subs == [] then [] else [StructureChildC4(h, subs[0].name, subs[0].structure)] + SubMixes(h, subs[1..])
  }

  /** A directory's content and structure hashes. */
  function DirHashes(h: HashFn, d: DirNode): (string, string)
    decreases d, 1
  {
    var sub := SubHashes(h, d.dirs);
    (HashOfHashList(h, FileContents(d.files) + SubContents(sub)),
     HashOfHashList(h, FileMixes(h, d.files) + SubMixes(h, sub)))
  }

  function SubHashes(h: HashFn, dirs: seq<DirNode>): seq<Sub>
    decreases dirs, 0
  {
    if dirs == [] then []
    else
      var (content, structure) := DirHashes(h, dirs[0]);
      [Sub(dirs[0].name, content, structure)] + SubHashes(h, dirs[1..])
  }

  // ---------------------------------------------------------------------------------------
  // Scope trees
  // ---------------------------------------------------------------------------------------

  /** A file system entry. A directory lists its entries in name order, as the walk does. */
  datatype Node = File(data: seq<byte>) | Dir(kids: seq<Kid>)
  datatype Kid = Kid(name: string, mtime: nat, node: Node)

  /** Names strictly ascend in every directory. */
  predicate Canonical(n: Node)
    decreases n, 1
  {
    n.File? || CanonicalKids(n.kids)
  }

  predicate CanonicalKids(kids: seq<Kid>)
    decreases kids, 0
  {
    kids == []
    || (&& Canonical(kids[0].node)
        && (forall i :: 0 < i < |kids| ==> StringLess(kids[0].name, kids[i].name))
        && CanonicalKids(kids[1..]))
  }

  /** The scope walk: managed files are hashed, managed directories entered; an entry whose
      name is ignored is skipped, a directory with its whole subtree. */
  function Walk(h: HashFn, name: string, mtime: nat, kids: seq<Kid>, ignored: string -> bool): DirNode
    decreases kids, 1
  {
    DirNode(name, mtime, WalkFiles(h, kids, ignored), WalkDirs(h, kids, ignored))
  }

  function WalkFiles(h: HashFn, kids: seq<Kid>, ignored: string -> bool): seq<FileNode> {
    if kids == [] then []
    else
      var k, rest := kids[0], WalkFiles(h, kids[1..], ignored);
      if ignored(k.name) || k.node.Dir? then rest
      else [FileNode(k.name, |k.node.data|, k.mtime, C4(h, k.node.data))] + rest
  }

  function WalkDirs(h: HashFn, kids: seq<Kid>, ignored: string -> bool): seq<DirNode>
    decreases kids, 0
  {
    if kids == [] then []
    else
      var k, rest := kids[0], WalkDirs(h, kids[1..], ignored);
      if ignored(k.name) || k.node.File? then rest
      else [Walk(h, k.name, k.mtime, k.node.kids, ignored)] + rest
  }

  /** What the walk keeps. */
  function Managed(kids: seq<Kid>, ignored: string -> bool): (r: seq<Kid>) {
    if kids == [] then []
    else
      var k, rest := kids[0], Managed(kids[1..], ignored);
      if ignored(k.name) then rest
      else if k.node.File? then [k] + rest
      else [k.(node := Dir(Managed(k.node.kids, ignored)))] + rest
  }

  // ---------------------------------------------------------------------------------------
  // The same hashes on digests
  // ---------------------------------------------------------------------------------------

  predicate DigestLe(a: Digest, b: Digest) {
    !LexLess(b, a)
  }

  /** Digests in ascending order, end to end. */
  function Join(ds: seq<Digest>): seq<byte> {
    Flatten(Sort(DigestLe, ds))
  }

  /** The octets whose hash is a node's content hash. */
  function ContentImage(h: HashFn, n: Node): seq<byte>
    decreases n, 1
  {
    match n
    case File(data) => data
    case Dir(kids) => Join(Contents(h, kids))
  }

  function Contents(h: HashFn, kids: seq<Kid>): (r: seq<Digest>)
    ensures |r| == |kids|
    decreases kids, 0
  {
    if kids == [] then [] else [h(ContentImage(h, kids[0].node))] + Contents(h, kids[1..])
  }

  /** The octets whose hash is a node's structure hash; for a file its content hash. */
  function StructureImage(h: HashFn, n: Node): seq<byte>
    decreases n, 1
  {
    match n
    case File(data) => data
    case Dir(kids) => Join(Mixes(h, kids))
  }

  function Mixes(h: HashFn, kids: seq<Kid>): (r: seq<Digest>)
    ensures |r| == |kids|
    decreases kids, 0
  {
    if kids == [] then [] else [h(MixImage(h, kids[0]))] + Mixes(h, kids[1..])
  }

  /** The octets hashed for one child of a directory: its name, then its structure digest. */
  function MixImage(h: HashFn, k: Kid): seq<byte>
    decreases k, 0
  {
    Utf8.Octets(k.name) + h(StructureImage(h, k.node))
  }

  // ---------------------------------------------------------------------------------------
  // Orders
  // ---------------------------------------------------------------------------------------

  lemma {:induction false} StringTrichotomy(a: string, b: string)
    ensures StringLess(a, b) || StringLess(b, a) || a == b
    ensures !(StringLess(a, b) && StringLess(b, a))
    ensures a == b ==> !StringLess(a, b)
  {
    if a != [] && b != [] {
      StringTrichotomy(a[1..], b[1..]);
      assert a == [a[0]] + a[1..] && b == [b[0]] + b[1..];
    }
  }

  lemma {:induction false} StringTransitive(a: string, b: string, c: string)
    requires StringLess(a, b) && StringLess(b, c)
    ensures StringLess(a, c)
  {
    if a != [] && a[0] == b[0] == c[0] {
      StringTransitive(a[1..], b[1..], c[1..]);
    }
  }

  lemma StringLeTotal()
    ensures TotalOrder(StringLe)
  {
    forall x, y
      ensures StringLe(x, y) || StringLe(y, x)
      ensures StringLe(x, y) && StringLe(y, x) ==> x == y
    {
      StringTrichotomy(x, y);
    }
    forall x, y, z | StringLe(x, y) && StringLe(y, z)
      ensures StringLe(x, z)
    {
      StringTrichotomy(x, y);
      StringTrichotomy(y, z);
      if StringLess(z, x) {
        if x != y && y != z {
          StringTransitive(x, y, z);
        }
        StringTrichotomy(x, z);
      }
    }
  }

  lemma DigestLeIsNumeric(a: Digest, b: Digest)
    ensures DigestLe(a, b) <==> Value(256, a) <= Value(256, b)
  {
    LexIsNumeric(256, b, a);
  }

  lemma DigestLeTotal()
    ensures TotalOrder(DigestLe)
  {
    hide Value, LexLess;
    forall x: Digest, y: Digest
      ensures DigestLe(x, y) || DigestLe(y, x)
      ensures DigestLe(x, y) && DigestLe(y, x) ==> x == y
    {
      DigestLeIsNumeric(x, y);
      DigestLeIsNumeric(y, x);
      if Value(256, x) == Value(256, y) {
        ValueInjective(256, x, y);
      }
    }
    forall x: Digest, y: Digest, z: Digest | DigestLe(x, y) && DigestLe(y, z)
      ensures DigestLe(x, z)
    {
      DigestLeIsNumeric(x, y);
      DigestLeIsNumeric(y, z);
      DigestLeIsNumeric(x, z);
    }
  }

  // ---------------------------------------------------------------------------------------
  // Hash of hashes
  // ---------------------------------------------------------------------------------------

  /** The order in which hashes are listed does not matter. */
  lemma HashOfHashesPermutes(h: HashFn, a: seq<string>, b: seq<string>)
    requires multiset(a) == multiset(b)
    ensures HashOfHashList(h, a) == HashOfHashList(h, b)
  {
    StringLeTotal();
    SortIsCanonical(StringLe, a, b);
  }

  /** Over identifiers it is the hash of their digests in ascending numeric order, whichever
      way that arrangement is found. */
  lemma HashOfHashesSorts(h: HashFn, ds: seq<Digest>, sorted: seq<Digest>)
    requires multiset(sorted) == multiset(ds)
    requires forall i, j :: 0 <= i < j < |sorted| ==> Value(256, sorted[i]) <= Value(256, sorted[j])
    ensures HashOfHashList(h, Map(Encode, ds)) == Encode(h(Flatten(sorted)))
  {
    hide Value, LexLess, StringLess, Encode, Decode, Sort, Flatten;
    var ids, ids' := Map(Encode, ds), Map(Encode, sorted);
    MapPermutes(Encode, ds, sorted);
    StringLeTotal();
    forall i, j | 0 <= i < j < |ids'|
      ensures StringLe(ids'[i], ids'[j])
    {
      OrderIsomorphism(sorted[j], sorted[i]);
    }
    SortAscends(StringLe, ids);
    SortPermutes(StringLe, ids);
    AscendingUnique(StringLe, Sort(StringLe, ids), ids');
    forall i | 0 <= i < |sorted|
      ensures Map(Decode, ids')[i] == sorted[i]
    {
      DecodeEncode(sorted[i]);
    }
    assert Map(Decode, ids') == sorted;
  }

  lemma HashOfHashesJoins(h: HashFn, ds: seq<Digest>)
    ensures HashOfHashList(h, Map(Encode, ds)) == Encode(h(Join(ds)))
  {
    hide Value, LexLess, StringLess, Encode, Decode, Flatten;
    var sorted := Sort(DigestLe, ds);
    DigestLeTotal();
    SortAscends(DigestLe, ds);
    SortPermutes(DigestLe, ds);
    forall i, j | 0 <= i < j < |sorted|
      ensures Value(256, sorted[i]) <= Value(256, sorted[j])
    {
      DigestLeIsNumeric(sorted[i], sorted[j]);
    }
    HashOfHashesSorts(h, ds, sorted);
  }

  lemma {:induction false} FlattenInjective(a: seq<Digest>, b: seq<Digest>)
    requires Flatten(a) == Flatten(b)
    ensures a == b
  {
    if a != [] && b != [] {
      assert a[0] == Flatten(a)[..64] && b[0] == Flatten(b)[..64];
      assert Flatten(a[1..]) == Flatten(a)[64..] && Flatten(b[1..]) == Flatten(b)[64..];
      FlattenInjective(a[1..], b[1..]);
    }
  }

  /** The joined octets determine the digests up to order, and nothing more. */
  lemma JoinDetermines(a: seq<Digest>, b: seq<Digest>)
    ensures Join(a) == Join(b) <==> multiset(a) == multiset(b)
  {
    hide LexLess;
    DigestLeTotal();
    SortIsCanonical(DigestLe, a, b);
    if Join(a) == Join(b) {
      FlattenInjective(Sort(DigestLe, a), Sort(DigestLe, b));
    }
  }

  // ---------------------------------------------------------------------------------------
  // The source's directory hashes are the digest-level ones over the managed tree
  // ---------------------------------------------------------------------------------------

  lemma {:induction false} DirHashesOfWalk(h: HashFn, name: string, mtime: nat, kids: seq<Kid>, ignored: string -> bool)
    ensures var root := Dir(Managed(kids, ignored));
            DirHashes(h, Walk(h, name, mtime, kids, ignored))
            == (Encode(h(ContentImage(h, root))), Encode(h(StructureImage(h, root))))
    decreases kids, 1
  {
    hide Encode, Decode, Join, HashOfHashList;
    var files, dirs := WalkFiles(h, kids, ignored), WalkDirs(h, kids, ignored);
    var managed := Managed(kids, ignored);
    ListsOfWalk(h, kids, ignored);
    var sub := SubHashes(h, dirs);
    HashOfHashesPermutes(h, FileContents(files) + SubContents(sub), Map(Encode, Contents(h, managed)));
    HashOfHashesPermutes(h, FileMixes(h, files) + SubMixes(h, sub), Map(Encode, Mixes(h, managed)));
    HashOfHashesJoins(h, Contents(h, managed));
    HashOfHashesJoins(h, Mixes(h, managed));
  }

  lemma {:induction false} ListsOfWalk(h: HashFn, kids: seq<Kid>, ignored: string -> bool)
    ensures var files, sub := WalkFiles(h, kids, ignored), SubHashes(h, WalkDirs(h, kids, ignored));
            var managed := Managed(kids, ignored);
            && multiset(FileContents(files) + SubContents(sub)) == multiset(Map(Encode, Contents(h, managed)))
            && multiset(FileMixes(h, files) + SubMixes(h, sub)) == multiset(Map(Encode, Mixes(h, managed)))
    decreases kids, 0
  {
    hide Encode, Decode, Join, HashOfHashList, StringLess, Flatten;
    if kids != [] {
      var k := kids[0];
      ListsOfWalk(h, kids[1..], ignored);
      if !ignored(k.name) {
        var rest := Managed(kids[1..], ignored);
        var files, dirs := WalkFiles(h, kids[1..], ignored), WalkDirs(h, kids[1..], ignored);
        var sub := SubHashes(h, dirs);
        if k.node.File? {
          var f := FileNode(k.name, |k.node.data|, k.mtime, C4(h, k.node.data));
          DecodeEncode(h(k.node.data));
          WalkFile(h, f, files, SubContents(sub), SubMixes(h, sub));
          KidFirst(h, k, rest);
        } else {
          var d := Walk(h, k.name, k.mtime, k.node.kids, ignored);
          var k' := k.(node := Dir(Managed(k.node.kids, ignored)));
          DirHashesOfWalk(h, k.name, k.mtime, k.node.kids, ignored);
          DecodeEncode(h(StructureImage(h, k'.node)));
          WalkDir(h, d, dirs, FileContents(files), FileMixes(h, files));
          KidFirst(h, k', rest);
        }
      }
    }
  }

  lemma WalkFile(h: HashFn, f: FileNode, files: seq<FileNode>, contents: seq<string>, mixes: seq<string>)
    ensures multiset(FileContents([f] + files) + contents) == multiset{f.c4} + multiset(FileContents(files) + contents)
    ensures multiset(FileMixes(h, [f] + files) + mixes)
            == multiset{StructureChildC4(h, f.name, f.c4)} + multiset(FileMixes(h, files) + mixes)
  {
    hide StructureChildC4;
    assert ([f] + files)[1..] == files;
  }

  lemma WalkDir(h: HashFn, d: DirNode, dirs: seq<DirNode>, contents: seq<string>, mixes: seq<string>)
    ensures var (content, structure) := DirHashes(h, d);
            var all, rest := SubHashes(h, [d] + dirs), SubHashes(h, dirs);
            && multiset(contents + SubContents(all)) == multiset{content} + multiset(contents + SubContents(rest))
            && multiset(mixes + SubMixes(h, all))
               == multiset{StructureChildC4(h, d.name, structure)} + multiset(mixes + SubMixes(h, rest))
  {
    hide StructureChildC4, HashOfHashList;
    assert ([d] + dirs)[1..] == dirs;
    var rest := SubHashes(h, dirs);
    var all := SubHashes(h, [d] + dirs);
    assert all[1..] == rest;
  }

  lemma KidFirst(h: HashFn, k: Kid, rest: seq<Kid>)
    ensures multiset(Map(Encode, Contents(h, [k] + rest)))
            == multiset{C4(h, ContentImage(h, k.node))} + multiset(Map(Encode, Contents(h, rest)))
    ensures multiset(Map(Encode, Mixes(h, [k] + rest)))
            == multiset{C4(h, MixImage(h, k))} + multiset(Map(Encode, Mixes(h, rest)))
  {
    hide Encode, Join, MixImage;
    assert ([k] + rest)[1..] == rest;
  }
}
