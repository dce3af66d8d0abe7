/** What the root hashes of a scope commit to (tool/src/ascmhl.rs). Soundness is stated by
    extraction: equal roots over different trees exhibit two different octet strings, both
    hashed while computing those roots, with one digest. */
module SealSoundness {
  import opened Prelude
  import opened Sorting
  import opened C4Id
  import opened Seal
  import Utf8

  // ---------------------------------------------------------------------------------------
  // The strings hashed along the way
  // ---------------------------------------------------------------------------------------

  /** Every octet string fed to the hash function for the root hashes of `n`. */
  function Hashed(h: HashFn, n: Node): set<seq<byte>>
    decreases n, 1
  {
    {ContentImage(h, n), StructureImage(h, n)} + if n.File? then {} else HashedKids(h, n.kids)
  }

  function HashedKids(h: HashFn, kids: seq<Kid>): set<seq<byte>>
    decreases kids, 0
  {
    if kids == [] then {} else {MixImage(h, kids[0])} + Hashed(h, kids[0].node) + HashedKids(h, kids[1..])
  }

  ghost predicate InjectiveOn(h: HashFn, s: set<seq<byte>>) {
    forall x, y :: x in s && y in s && h(x) == h(y) ==> x == y
  }

  ghost predicate CollisionIn(h: HashFn, s: set<seq<byte>>) {
    exists x, y :: x in s && y in s && x != y && h(x) == h(y)
  }

  lemma {:induction false} HashedKid(h: HashFn, kids: seq<Kid>, i: nat)
    requires i < |kids|
    ensures MixImage(h, kids[i]) in HashedKids(h, kids)
    ensures Hashed(h, kids[i].node) <= HashedKids(h, kids)
    ensures Mixes(h, kids)[i] == h(MixImage(h, kids[i]))
    ensures Contents(h, kids)[i] == h(ContentImage(h, kids[i].node))
  {
    hide MixImage, StructureImage, ContentImage, Hashed;
    if i > 0 {
      HashedKid(h, kids[1..], i - 1);
      assert kids[1..][i - 1] == kids[i];
    }
  }

  // ---------------------------------------------------------------------------------------
  // Trees a seal cannot tell apart
  // ---------------------------------------------------------------------------------------

  /** The same names and the same bytes throughout; recorded times do not matter. */
  predicate SameTree(a: Node, b: Node)
    decreases a, 1
  {
    match (a, b)
    case (File(x), File(y)) => x == y
    case (Dir(k), Dir(l)) => SameKids(k, l)
    case _ => false
  }

  predicate SameKids(k: seq<Kid>, l: seq<Kid>)
    decreases k, 0
  {
    if k == [] || l == [] then k == [] && l == []
    else k[0].name == l[0].name && SameTree(k[0].node, l[0].node) && SameKids(k[1..], l[1..])
  }

  /** As `SameTree`, except that a file whose bytes are the octets a directory's structure
      hash is taken over stands for that directory. */
  predicate SealedAlike(h: HashFn, a: Node, b: Node)
    decreases a, 1
  {
    match (a, b)
    case (Dir(k), Dir(l)) => KidsSealedAlike(h, k, l)
    case _ => StructureImage(h, a) == StructureImage(h, b)
  }

  predicate KidsSealedAlike(h: HashFn, k: seq<Kid>, l: seq<Kid>)
    decreases k, 0
  {
    if k == [] || l == [] then k == [] && l == []
    else k[0].name == l[0].name && SealedAlike(h, k[0].node, l[0].node) && KidsSealedAlike(h, k[1..], l[1..])
  }

  /** No name stands for a file in one tree and for a directory in the other. */
  predicate KindsAgree(a: Node, b: Node)
    decreases a, 1
  {
    match (a, b)
    case (File(_), File(_)) => true
    case (Dir(k), Dir(l)) => KidKindsAgree(k, l)
    case _ => false
  }

  predicate KidKindsAgree(k: seq<Kid>, l: seq<Kid>)
    decreases k, 0
  {
    k == []
    || (&& (forall j :: 0 <= j < |l| && l[j].name == k[0].name ==> KindsAgree(k[0].node, l[j].node))
        && KidKindsAgree(k[1..], l))
  }

  // ---------------------------------------------------------------------------------------
  // Equal structure roots
  // ---------------------------------------------------------------------------------------

  function Names(kids: seq<Kid>): (r: seq<string>)
    ensures |r| == |kids| && forall i :: 0 <= i < |kids| ==> r[i] == kids[i].name
  {
    if kids == [] then [] else [kids[0].name] + Names(kids[1..])
  }

  ghost predicate Strict(names: seq<string>) {
    forall i, j :: 0 <= i < j < |names| ==> StringLess(names[i], names[j])
  }

  lemma {:induction false} CanonicalAt(kids: seq<Kid>)
    requires CanonicalKids(kids)
    ensures Strict(Names(kids))
    ensures forall i :: 0 <= i < |kids| ==> Canonical(kids[i].node)
  {
    hide StringLess;
    if kids != [] {
      CanonicalAt(kids[1..]);
      forall i | 0 <= i < |kids|
        ensures Canonical(kids[i].node)
      {
        assert i > 0 ==> kids[i] == kids[1..][i - 1];
      }
      forall i, j | 0 <= i < j < |kids|
        ensures StringLess(Names(kids)[i], Names(kids)[j])
      {
        assert i > 0 ==> Names(kids)[i] == Names(kids[1..])[i - 1];
        assert Names(kids)[j] == Names(kids[1..])[j - 1];
      }
    }
  }

  /** Two strictly ascending lists with the same elements are the same list. */
  lemma StrictUnique(a: seq<string>, b: seq<string>)
    requires Strict(a) && Strict(b)
    requires forall x :: x in a <==> x in b
    ensures a == b
  {
    hide StringLess;
    assert forall i :: 0 <= i < |a| ==> a[i] in a;
    assert forall i :: 0 <= i < |b| ==> b[i] in b;
    if a != [] && b != [] {
      HeadIsLeast(a, b[0]);
      HeadIsLeast(b, a[0]);
      StringTrichotomy(a[0], b[0]);
      assert a[0] == b[0];
      forall x
        ensures x in a[1..] <==> x in b[1..]
      {
        TailMember(a, x);
        TailMember(b, x);
      }
      StrictUnique(a[1..], b[1..]);
      assert a == [a[0]] + a[1..] && b == [b[0]] + b[1..];
    }
  }

  lemma HeadIsLeast(a: seq<string>, x: string)
    requires Strict(a) && a != [] && x in a
    ensures x == a[0] || StringLess(a[0], x)
  {
  }

  lemma TailMember(a: seq<string>, x: string)
    requires Strict(a) && a != []
    ensures x in a[1..] <==> x in a && x != a[0]
  {
    hide StringLess;
    StringTrichotomy(a[0], a[0]);
    if x in a[1..] {
      var i :| 0 <= i < |a| - 1 && a[1..][i] == x;
      assert StringLess(a[0], a[i + 1]);
    }
    if x in a && x != a[0] {
      var i :| 0 <= i < |a| && a[i] == x;
      assert a[1..][i - 1] == x;
    }
  }

  /** A child's mix names the child and carries its structure digest. */
  lemma MixDetermines(h: HashFn, k: Kid, l: Kid)
    requires MixImage(h, k) == MixImage(h, l)
    ensures k.name == l.name && h(StructureImage(h, k.node)) == h(StructureImage(h, l.node))
  {
    var m, x, y := MixImage(h, k), Utf8.Octets(k.name), Utf8.Octets(l.name);
    hide StructureImage;
    assert x == m[..|m| - 64] == y;
    assert h(StructureImage(h, k.node)) == m[|m| - 64..] == h(StructureImage(h, l.node));
    Utf8.Injective(k.name, l.name);
  }

  lemma Counterpart(h: HashFn, k: seq<Kid>, l: seq<Kid>, s: set<seq<byte>>, i: nat) returns (j: nat)
    requires InjectiveOn(h, s) && HashedKids(h, k) <= s && HashedKids(h, l) <= s
    requires multiset(Mixes(h, k)) == multiset(Mixes(h, l)) && i < |k|
    ensures j < |l| && k[i].name == l[j].name
    ensures h(StructureImage(h, k[i].node)) == h(StructureImage(h, l[j].node))
  {
    hide MixImage, StructureImage, Hashed, HashedKids, Mixes;
    var d := Mixes(h, k)[i];
    assert d in multiset(Mixes(h, k));
    j := Find(d, Mixes(h, l));
    HashedKid(h, k, i);
    HashedKid(h, l, j);
    MixDetermines(h, k[i], l[j]);
  }

  lemma NamesMatch(h: HashFn, k: seq<Kid>, l: seq<Kid>, s: set<seq<byte>>)
    requires CanonicalKids(k) && CanonicalKids(l)
    requires InjectiveOn(h, s) && HashedKids(h, k) <= s && HashedKids(h, l) <= s
    requires multiset(Mixes(h, k)) == multiset(Mixes(h, l))
    ensures Names(k) == Names(l)
  {
    hide MixImage, StructureImage, Hashed, HashedKids, Mixes, Names, StringLess, CanonicalKids;
    CanonicalAt(k);
    CanonicalAt(l);
    forall x | x in Names(k)
      ensures x in Names(l)
    {
      var i :| 0 <= i < |k| && Names(k)[i] == x;
      var j := Counterpart(h, k, l, s, i);
      assert Names(l)[j] == x;
    }
    forall x | x in Names(l)
      ensures x in Names(k)
    {
      var i :| 0 <= i < |l| && Names(l)[i] == x;
      var j := Counterpart(h, l, k, s, i);
      assert Names(k)[j] == x;
    }
    StrictUnique(Names(k), Names(l));
  }

  lemma StrictIndex(names: seq<string>, i: nat, j: nat)
    requires Strict(names) && i < |names| && j < |names| && names[i] == names[j]
    ensures i == j
  {
    hide StringLess;
    StringTrichotomy(names[i], names[j]);
  }

  /** Equal structure digests, and no collision among the strings hashed: the trees are
      sealed alike. */
  lemma {:induction false} StructureBinds(h: HashFn, a: Node, b: Node, s: set<seq<byte>>)
    requires Canonical(a) && Canonical(b)
    requires InjectiveOn(h, s) && Hashed(h, a) <= s && Hashed(h, b) <= s
    requires h(StructureImage(h, a)) == h(StructureImage(h, b))
    ensures SealedAlike(h, a, b)
    decreases a
  {
    hide StringLess, Join, MixImage;
    assert StructureImage(h, a) in Hashed(h, a) && StructureImage(h, b) in Hashed(h, b);
    if a.Dir? && b.Dir? {
      var k, l := a.kids, b.kids;
      assert HashedKids(h, k) <= Hashed(h, a) && HashedKids(h, l) <= Hashed(h, b);
      JoinDetermines(Mixes(h, k), Mixes(h, l));
      NamesMatch(h, k, l, s);
      CanonicalAt(k);
      CanonicalAt(l);
      assert |Names(k)| == |Names(l)|;
      forall i | 0 <= i < |k|
        ensures k[i].name == l[i].name && SealedAlike(h, k[i].node, l[i].node)
      {
        hide Hashed, HashedKids, StructureImage, SealedAlike, Mixes;
        assert k[i].name == Names(k)[i] == Names(l)[i];
        var j := Counterpart(h, k, l, s, i);
        StrictIndex(Names(l), i, j);
        HashedKid(h, k, i);
        HashedKid(h, l, i);
        StructureBinds(h, k[i].node, l[i].node, s);
      }
      KidsFromEach(h, k, l);
    }
  }

  lemma {:induction false} KidsFromEach(h: HashFn, k: seq<Kid>, l: seq<Kid>)
    requires |k| == |l|
    requires forall i :: 0 <= i < |k| ==> k[i].name == l[i].name && SealedAlike(h, k[i].node, l[i].node)
    ensures KidsSealedAlike(h, k, l)
  {
    if k != [] {
      hide SealedAlike;
      KidsFromEach(h, k[1..], l[1..]);
    }
  }

  /** Trees sealed alike have one structure digest, whatever the hash function. */
  lemma {:induction false} SealedAlikeSameDigest(h: HashFn, a: Node, b: Node)
    requires SealedAlike(h, a, b)
    ensures StructureImage(h, a) == StructureImage(h, b)
    decreases a, 1
  {
    hide Join;
    if a.Dir? && b.Dir? {
      KidsSealedAlikeSameMixes(h, a.kids, b.kids);
    }
  }

  lemma {:induction false} KidsSealedAlikeSameMixes(h: HashFn, k: seq<Kid>, l: seq<Kid>)
    requires KidsSealedAlike(h, k, l)
    ensures Mixes(h, k) == Mixes(h, l)
    decreases k, 0
  {
    if k != [] && l != [] {
      hide StructureImage;
      SealedAlikeSameDigest(h, k[0].node, l[0].node);
      KidsSealedAlikeSameMixes(h, k[1..], l[1..]);
    }
  }

  /** Without a file standing where the other tree has a directory, sealed alike means the
      same tree. */
  lemma {:induction false} KindsDecide(h: HashFn, a: Node, b: Node)
    ensures SealedAlike(h, a, b) && KindsAgree(a, b) ==> SameTree(a, b)
    ensures SameTree(a, b) ==> SealedAlike(h, a, b)
    decreases a, 1
  {
    if a.Dir? && b.Dir? {
      KidKindsDecide(h, a.kids, b.kids, b.kids);
    }
  }

  lemma {:induction false} KidKindsDecide(h: HashFn, k: seq<Kid>, l: seq<Kid>, all: seq<Kid>)
    requires |l| <= |all| && l == all[|all| - |l|..]
    ensures KidsSealedAlike(h, k, l) && KidKindsAgree(k, all) ==> SameKids(k, l)
    ensures SameKids(k, l) ==> KidsSealedAlike(h, k, l)
    decreases k, 0
  {
    if k != [] && l != [] {
      hide SealedAlike, SameTree, KindsAgree;
      KindsDecide(h, k[0].node, l[0].node);
      assert all[|all| - |l|] == l[0];
      KidKindsDecide(h, k[1..], l[1..], all);
    }
  }

  /** The seal theorem on whole scopes: equal structure roots are either a match up to the one
      confusion the format allows, or a collision among the strings that were hashed. */
  lemma StructureRootBinds(h: HashFn, a: Node, b: Node)
    requires Canonical(a) && Canonical(b)
    ensures SealedAlike(h, a, b) ==> h(StructureImage(h, a)) == h(StructureImage(h, b))
    ensures h(StructureImage(h, a)) == h(StructureImage(h, b))
            ==> SealedAlike(h, a, b) || CollisionIn(h, Hashed(h, a) + Hashed(h, b))
    ensures KindsAgree(a, b) && !SameTree(a, b)
            ==> h(StructureImage(h, a)) != h(StructureImage(h, b)) || CollisionIn(h, Hashed(h, a) + Hashed(h, b))
  {
    hide SealedAlike, StructureImage, Hashed, Canonical, KindsAgree, SameTree;
    var s := Hashed(h, a) + Hashed(h, b);
    if SealedAlike(h, a, b) {
      SealedAlikeSameDigest(h, a, b);
    }
    if h(StructureImage(h, a)) == h(StructureImage(h, b)) && InjectiveOn(h, s) {
      StructureBinds(h, a, b, s);
    }
    KindsDecide(h, a, b);
  }

  /** The confusion is real: for every hash function, an empty file and an empty directory of
      one name give a scope the same content root and the same structure root. */
  lemma EmptyFileIsEmptyDirectory(h: HashFn, name: string, mtime: nat)
    ensures var a := Dir([Kid(name, mtime, File([]))]);
            var b := Dir([Kid(name, mtime, Dir([]))]);
            && Canonical(a) && Canonical(b) && !SameTree(a, b) && !KindsAgree(a, b)
            && ContentImage(h, a) == ContentImage(h, b)
            && StructureImage(h, a) == StructureImage(h, b)
  {
    var x, y := Kid(name, mtime, File([])), Kid(name, mtime, Dir([]));
    assert Join([]) == [];
    assert [x][1..] == [] && [y][1..] == [];
    assert StructureImage(h, x.node) == [] == StructureImage(h, y.node);
    assert MixImage(h, x) == MixImage(h, y);
    assert Contents(h, [x]) == [h([])] == Contents(h, [y]);
    assert Mixes(h, [x]) == [h(MixImage(h, x))] && Mixes(h, [y]) == [h(MixImage(h, y))];
    assert !SameTree(x.node, y.node) && !KindsAgree(x.node, y.node);
    assert [y][0] == y;
  }

  // ---------------------------------------------------------------------------------------
  // Recorded times are not sealed
  // ---------------------------------------------------------------------------------------

  /** The tree with every recorded time struck out. */
  function WithoutTimes(n: Node): Node
    decreases n, 1
  {
    match n
    case File(_) => n
    case Dir(kids) => Dir(KidsWithoutTimes(kids))
  }

  function KidsWithoutTimes(kids: seq<Kid>): (r: seq<Kid>)
    decreases kids, 0
  {
    if kids == [] then [] else [Kid(kids[0].name, 0, WithoutTimes(kids[0].node))] + KidsWithoutTimes(kids[1..])
  }

  /** Two trees are the same exactly when they are equal but for the times. */
  lemma {:induction false} SameButTimes(a: Node, b: Node)
    ensures SameTree(a, b) <==> WithoutTimes(a) == WithoutTimes(b)
    decreases a, 1
  {
    if a.Dir? && b.Dir? {
      SameKidsButTimes(a.kids, b.kids);
    }
  }

  lemma {:induction false} SameKidsButTimes(k: seq<Kid>, l: seq<Kid>)
    ensures SameKids(k, l) <==> KidsWithoutTimes(k) == KidsWithoutTimes(l)
    decreases k, 0
  {
    if k != [] && l != [] {
      hide SameTree, WithoutTimes;
      SameButTimes(k[0].node, l[0].node);
      SameKidsButTimes(k[1..], l[1..]);
      var p, q := KidsWithoutTimes(k), KidsWithoutTimes(l);
      assert p[0] == Kid(k[0].name, 0, WithoutTimes(k[0].node)) && p[1..] == KidsWithoutTimes(k[1..]);
      assert q[0] == Kid(l[0].name, 0, WithoutTimes(l[0].node)) && q[1..] == KidsWithoutTimes(l[1..]);
    }
  }

  lemma {:induction false} TimesUnseen(h: HashFn, n: Node)
    ensures ContentImage(h, WithoutTimes(n)) == ContentImage(h, n)
    ensures StructureImage(h, WithoutTimes(n)) == StructureImage(h, n)
    ensures Hashed(h, WithoutTimes(n)) == Hashed(h, n)
    decreases n, 1
  {
    if n.Dir? {
      hide Join;
      KidTimesUnseen(h, n.kids);
    }
  }

  lemma {:induction false} KidTimesUnseen(h: HashFn, kids: seq<Kid>)
    ensures Contents(h, KidsWithoutTimes(kids)) == Contents(h, kids)
    ensures Mixes(h, KidsWithoutTimes(kids)) == Mixes(h, kids)
    ensures HashedKids(h, KidsWithoutTimes(kids)) == HashedKids(h, kids)
    decreases kids, 0
  {
    if kids != [] {
      hide ContentImage, StructureImage, Hashed, WithoutTimes;
      TimesUnseen(h, kids[0].node);
      KidTimesUnseen(h, kids[1..]);
    }
  }

  // ---------------------------------------------------------------------------------------
  // One entry added, removed, renamed or rewritten, at any depth
  // ---------------------------------------------------------------------------------------

  /** A file or a directory under its name. */
  datatype Item = Item(name: string, node: Node) {
    function Kid(): Seal.Kid {
      Seal.Kid(name, 0, node)
    }
  }

  datatype Edit =
    | Add(item: Item)
    | Remove(item: Item)
    | Rename(item: Item, to: string)
    | Rewrite(name: string, before: seq<byte>, after: seq<byte>)
  {
    function Gone(): seq<Kid> {
      match this
      case Add(_) => []
      case Remove(x) => [x.Kid()]
      case Rename(x, _) => [x.Kid()]
      case Rewrite(name, before, _) => [Item(name, File(before)).Kid()]
    }
    function New(): seq<Kid> {
      match this
      case Add(x) => [x.Kid()]
      case Remove(_) => []
      case Rename(x, to) => [x.(name := to).Kid()]
      case Rewrite(name, _, after) => [Item(name, File(after)).Kid()]
    }
    /** A rename picks another name, a rewrite other bytes. */
    predicate Effective() {
      match this
      case Rename(x, to) => x.name != to
      case Rewrite(_, before, after) => before != after
      case _ => true
    }
  }

  /** Where the edit happens: in this directory, or below one of its subdirectories. */
  datatype Change = Here(edit: Edit) | Below(item: Item, after: Node, change: Change) {
    function Edit(): Edit {
      match this
      case Here(e) => e
      case Below(_, _, c) => c.Edit()
    }
  }

  /** `gone` left the directory and `new` came; nothing else changed. */
  ghost predicate Replaced(k: seq<Kid>, l: seq<Kid>, gone: seq<Kid>, new_: seq<Kid>) {
    && multiset(k + new_) == multiset(l + gone)
    && (forall x :: x in gone ==> x in k)
    && (forall x :: x in new_ ==> x in l)
  }

  /** `b` is `a` after the change, whatever became of the recorded times: an edit moves those of
      the directories around it, and other times may have moved too. */
  ghost predicate EditedBy(a: Node, b: Node, c: Change) {
    EditedIn(WithoutTimes(a), WithoutTimes(b), c)
  }

  /** No moved time, at any depth on either side, hides an edit. */
  lemma EditsIgnoreTimes(a: Node, a': Node, b: Node, b': Node, c: Change)
    requires SameTree(a, a') && SameTree(b, b')
    ensures EditedBy(a, b, c) <==> EditedBy(a', b', c)
  {
    hide SameTree, WithoutTimes, EditedIn;
    SameButTimes(a, a');
    SameButTimes(b, b');
  }

  ghost predicate EditedIn(a: Node, b: Node, c: Change)
    decreases c
  {
    && a.Dir? && b.Dir?
    && match c
       case Here(e) => e.Effective() && Replaced(a.kids, b.kids, e.Gone(), e.New())
       case Below(x, after, c') =>
         Replaced(a.kids, b.kids, [x.Kid()], [x.(node := after).Kid()]) && EditedIn(x.node, after, c')
  }

  lemma {:induction false} ContentsIsMap(h: HashFn, kids: seq<Kid>)
    ensures Contents(h, kids) == Map((k: Kid) => h(ContentImage(h, k.node)), kids)
  {
    hide ContentImage;
    if kids != [] {
      ContentsIsMap(h, kids[1..]);
    }
  }

  lemma {:induction false} MixesIsMap(h: HashFn, kids: seq<Kid>)
    ensures Mixes(h, kids) == Map((k: Kid) => h(MixImage(h, k)), kids)
  {
    hide MixImage;
    if kids != [] {
      MixesIsMap(h, kids[1..]);
    }
  }

  /** A directory's joined hashes change exactly when those of the replaced entries do. */
  lemma JoinChanges<T(!new)>(f: T -> Digest, k: seq<T>, l: seq<T>, gone: seq<T>, new_: seq<T>)
    requires multiset(k + new_) == multiset(l + gone)
    ensures Join(Map(f, k)) == Join(Map(f, l)) <==> multiset(Map(f, gone)) == multiset(Map(f, new_))
  {
    hide Join;
    MapPermutes(f, k + new_, l + gone);
    MapConcat(f, k, new_);
    MapConcat(f, l, gone);
    JoinDetermines(Map(f, k), Map(f, l));
    MultisetCancel(multiset(Map(f, k)), multiset(Map(f, l)), multiset(Map(f, gone)), multiset(Map(f, new_)));
  }

  lemma MultisetCancel<T>(p: multiset<T>, q: multiset<T>, r: multiset<T>, s: multiset<T>)
    requires p + s == q + r
    ensures p == q <==> r == s
  {
    if p == q {
      assert s == (p + s) - p && r == (q + r) - q;
    }
    if r == s {
      assert p == (p + s) - s && q == (q + r) - r;
    }
  }

  lemma MapConcat<S, T>(f: S -> T, a: seq<S>, b: seq<S>)
    ensures multiset(Map(f, a + b)) == multiset(Map(f, a)) + multiset(Map(f, b))
  {
    hide Map;
    MapAppend(f, a, b);
  }

  lemma HashedMember(h: HashFn, n: Node, k: Kid)
    requires n.Dir? && k in n.kids
    ensures MixImage(h, k) in Hashed(h, n) && Hashed(h, k.node) <= Hashed(h, n)
    ensures ContentImage(h, k.node) in Hashed(h, n) && StructureImage(h, k.node) in Hashed(h, n)
  {
    var i :| 0 <= i < |n.kids| && n.kids[i] == k;
    HashedKid(h, n.kids, i);
  }

  lemma MultisetOne<T>(x: T, y: T)
    requires multiset([x]) == multiset([y])
    ensures x == y
  {
    assert x in multiset([y]);
  }

  /** A swap of one entry shows in the joined hashes exactly when its own hash changes. */
  lemma SwapShows(f: Kid -> Digest, k: seq<Kid>, l: seq<Kid>, x: Kid, y: Kid)
    requires Replaced(k, l, [x], [y])
    ensures Join(Map(f, k)) == Join(Map(f, l)) <==> f(x) == f(y)
  {
    hide Join;
    JoinChanges(f, k, l, [x], [y]);
    assert Map(f, [x]) == [f(x)] && Map(f, [y]) == [f(y)];
    if multiset([f(x)]) == multiset([f(y)]) {
      MultisetOne(f(x), f(y));
    }
  }

  /** An entry that came or went always shows. */
  lemma CountShows(f: Kid -> Digest, k: seq<Kid>, l: seq<Kid>, gone: seq<Kid>, new_: seq<Kid>)
    requires Replaced(k, l, gone, new_) && |gone| != |new_|
    ensures Join(Map(f, k)) != Join(Map(f, l))
  {
    hide Join;
    JoinChanges(f, k, l, gone, new_);
    assert |multiset(Map(f, gone))| == |gone| && |multiset(Map(f, new_))| == |new_|;
  }

  lemma {:induction false} StructureSeesEdit(h: HashFn, a: Node, b: Node, c: Change, s: set<seq<byte>>)
    requires EditedIn(a, b, c)
    requires InjectiveOn(h, s) && Hashed(h, a) <= s && Hashed(h, b) <= s
    ensures h(StructureImage(h, a)) != h(StructureImage(h, b))
    decreases c
  {
    hide Join, MixImage, Hashed, Contents, Mixes, HashedKids;
    var f := (k: Kid) => h(MixImage(h, k));
    MixesIsMap(h, a.kids);
    MixesIsMap(h, b.kids);
    ImagesHashed(h, a);
    ImagesHashed(h, b);
    match c {
      case Below(item, after, c') =>
        var x, y := item.Kid(), item.(node := after).Kid();
        HashedMember(h, a, x);
        HashedMember(h, b, y);
        StructureSeesEdit(h, x.node, after, c', s);
        SwapShows(f, a.kids, b.kids, x, y);
        MixDiffers(h, x, y, s);
      case Here(e) =>
        if e.Add? || e.Remove? {
          CountShows(f, a.kids, b.kids, e.Gone(), e.New());
        } else {
          SwapShows(f, a.kids, b.kids, e.Gone()[0], e.New()[0]);
          SwappedMixes(h, a, b, e, s);
        }
    }
  }

  lemma SwappedMixes(h: HashFn, a: Node, b: Node, e: Edit, s: set<seq<byte>>)
    requires InjectiveOn(h, s) && Hashed(h, a) <= s && Hashed(h, b) <= s
    requires (e.Rename? || e.Rewrite?) && e.Effective()
    requires a.Dir? && b.Dir? && e.Gone()[0] in a.kids && e.New()[0] in b.kids
    ensures h(MixImage(h, e.Gone()[0])) != h(MixImage(h, e.New()[0]))
  {
    hide MixImage, Hashed;
    var x, y := e.Gone()[0], e.New()[0];
    HashedMember(h, a, x);
    HashedMember(h, b, y);
    MixDiffers(h, x, y, s);
  }

  lemma ImagesHashed(h: HashFn, n: Node)
    ensures StructureImage(h, n) in Hashed(h, n) && ContentImage(h, n) in Hashed(h, n)
  {
  }

  lemma MixDiffers(h: HashFn, x: Kid, y: Kid, s: set<seq<byte>>)
    requires InjectiveOn(h, s) && MixImage(h, x) in s && MixImage(h, y) in s
    requires x.name != y.name || h(StructureImage(h, x.node)) != h(StructureImage(h, y.node))
    ensures h(MixImage(h, x)) != h(MixImage(h, y))
  {
    hide MixImage, StructureImage;
    if h(MixImage(h, x)) == h(MixImage(h, y)) {
      MixDetermines(h, x, y);
    }
  }

  lemma {:induction false} ContentSeesEdit(h: HashFn, a: Node, b: Node, c: Change, s: set<seq<byte>>)
    requires EditedIn(a, b, c)
    requires InjectiveOn(h, s) && Hashed(h, a) <= s && Hashed(h, b) <= s
    requires !c.Edit().Rename?
    ensures h(ContentImage(h, a)) != h(ContentImage(h, b))
    decreases c
  {
    hide Join, MixImage, Hashed, Contents, Mixes, HashedKids;
    var f := (k: Kid) => h(ContentImage(h, k.node));
    ContentsIsMap(h, a.kids);
    ContentsIsMap(h, b.kids);
    ImagesHashed(h, a);
    ImagesHashed(h, b);
    match c {
      case Below(item, after, c') =>
        var x, y := item.Kid(), item.(node := after).Kid();
        HashedMember(h, a, x);
        HashedMember(h, b, y);
        ContentSeesEdit(h, x.node, after, c', s);
        SwapShows(f, a.kids, b.kids, x, y);
      case Here(e) =>
        if e.Add? || e.Remove? {
          CountShows(f, a.kids, b.kids, e.Gone(), e.New());
        } else {
          var x, y := e.Gone()[0], e.New()[0];
          HashedMember(h, a, x);
          HashedMember(h, b, y);
          SwapShows(f, a.kids, b.kids, x, y);
        }
    }
  }

  lemma {:induction false} ContentIgnoresRenameIn(h: HashFn, a: Node, b: Node, c: Change)
    requires EditedIn(a, b, c) && c.Edit().Rename?
    ensures ContentImage(h, a) == ContentImage(h, b)
    decreases c
  {
    hide Join, Contents;
    var f := (k: Kid) => h(ContentImage(h, k.node));
    ContentsIsMap(h, a.kids);
    ContentsIsMap(h, b.kids);
    match c {
      case Below(x, after, c') =>
        ContentIgnoresRenameIn(h, x.node, after, c');
        SwapShows(f, a.kids, b.kids, x.Kid(), x.(node := after).Kid());
      case Here(e) =>
        SwapShows(f, a.kids, b.kids, e.Gone()[0], e.New()[0]);
    }
  }

  /** Renaming at any depth leaves what the content root is taken over as it was. */
  lemma ContentIgnoresRename(h: HashFn, a: Node, b: Node, c: Change)
    requires EditedBy(a, b, c) && c.Edit().Rename?
    ensures ContentImage(h, a) == ContentImage(h, b)
  {
    hide ContentImage, WithoutTimes, EditedIn;
    TimesUnseen(h, a);
    TimesUnseen(h, b);
    ContentIgnoresRenameIn(h, WithoutTimes(a), WithoutTimes(b), c);
  }

  /** Adding, removing or renaming one file or directory, or rewriting one file, at any depth and
      whatever becomes of the recorded times, changes the structure root hash, or two of the
      strings hashed for the two roots collide. Renaming leaves the content root as it was; the
      other three change it, or again exhibit a collision. */
  lemma SingleEditIsSealed(h: HashFn, a: Node, b: Node, c: Change)
    requires EditedBy(a, b, c)
    ensures h(StructureImage(h, a)) != h(StructureImage(h, b)) || CollisionIn(h, Hashed(h, a) + Hashed(h, b))
    ensures c.Edit().Rename? ==> h(ContentImage(h, a)) == h(ContentImage(h, b))
    ensures !c.Edit().Rename?
            ==> h(ContentImage(h, a)) != h(ContentImage(h, b)) || CollisionIn(h, Hashed(h, a) + Hashed(h, b))
  {
    hide StructureImage, ContentImage, Hashed, WithoutTimes, EditedIn;
    var s := Hashed(h, a) + Hashed(h, b);
    TimesUnseen(h, a);
    TimesUnseen(h, b);
    if InjectiveOn(h, s) {
      StructureSeesEdit(h, WithoutTimes(a), WithoutTimes(b), c, s);
      if !c.Edit().Rename? {
        ContentSeesEdit(h, WithoutTimes(a), WithoutTimes(b), c, s);
      }
    }
    if c.Edit().Rename? {
      ContentIgnoresRename(h, a, b, c);
    }
  }

  // ---------------------------------------------------------------------------------------
  // The same on the identifiers a manifest records
  // ---------------------------------------------------------------------------------------

  lemma {:induction false} ManagedNames(kids: seq<Kid>, ignored: string -> bool, x: Kid)
    requires x in Managed(kids, ignored)
    ensures exists y :: y in kids && y.name == x.name
  {
    if kids != [] {
      var k, rest := kids[0], Managed(kids[1..], ignored);
      if x in rest {
        ManagedNames(kids[1..], ignored, x);
        var y :| y in kids[1..] && y.name == x.name;
        assert y in kids;
      } else {
        assert k in kids && k.name == x.name;
      }
    }
  }

  lemma {:induction false} ManagedCanonical(kids: seq<Kid>, ignored: string -> bool)
    requires CanonicalKids(kids)
    ensures CanonicalKids(Managed(kids, ignored))
  {
    hide StringLess;
    if kids != [] {
      var k, rest := kids[0], Managed(kids[1..], ignored);
      ManagedCanonical(kids[1..], ignored);
      if k.node.Dir? {
        ManagedCanonical(k.node.kids, ignored);
      }
      forall i | 0 <= i < |rest|
        ensures StringLess(k.name, rest[i].name)
      {
        ManagedNames(kids[1..], ignored, rest[i]);
        var y :| y in kids[1..] && y.name == rest[i].name;
        var j :| 0 <= j < |kids| - 1 && kids[1..][j] == y;
        assert kids[j + 1] == y;
      }
    }
  }

  /** The structure identifier in a manifest's roothash binds the managed tree. */
  lemma RootIdentifierBinds(h: HashFn, name: string, mtime: nat, k: seq<Kid>, name': string, mtime': nat, l: seq<Kid>,
                            ignored: string -> bool)
    requires CanonicalKids(k) && CanonicalKids(l)
    requires DirHashes(h, Walk(h, name, mtime, k, ignored)).1 == DirHashes(h, Walk(h, name', mtime', l, ignored)).1
    ensures var a, b := Dir(Managed(k, ignored)), Dir(Managed(l, ignored));
            || CollisionIn(h, Hashed(h, a) + Hashed(h, b))
            || (SealedAlike(h, a, b) && (KindsAgree(a, b) ==> SameTree(a, b)))
  {
    hide StructureImage, ContentImage, Hashed, SealedAlike, KindsAgree, SameTree, CanonicalKids, Walk, DirHashes, Encode;
    var a, b := Dir(Managed(k, ignored)), Dir(Managed(l, ignored));
    DirHashesOfWalk(h, name, mtime, k, ignored);
    DirHashesOfWalk(h, name', mtime', l, ignored);
    EncodeInjective(h(StructureImage(h, a)), h(StructureImage(h, b)));
    ManagedCanonical(k, ignored);
    ManagedCanonical(l, ignored);
    StructureRootBinds(h, a, b);
    KindsDecide(h, a, b);
  }
}
