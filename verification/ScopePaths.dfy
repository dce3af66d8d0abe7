/** The paths a manifest records (tool/src/ascmhl.rs): components joined by slashes, in scope,
    distinct, and leading back to the entries they were made from. */
module ScopePaths {
  import opened C4Id
  import opened TextLines
  import opened Seal
  import opened SealSoundness
  import opened Manifest
  import opened ManifestRoundTrip
  import opened Scope

  /** A name a file system hands out. */
  predicate GoodName(name: string) {
    name != "" && '/' !in name && name != "." && name != ".."
  }

  /** Good names and sizes below 2^64 throughout. */
  predicate GoodKids(kids: seq<Kid>) {
    kids == [] || (GoodKid(kids[0]) && GoodKids(kids[1..]))
  }

  predicate GoodKid(k: Kid) {
    GoodName(k.name) && match k.node
                        case File(data) => |data| < U64_LIMIT
                        case Dir(kids) => GoodKids(kids)
  }

  ghost predicate GoodNames(comps: seq<string>) {
    forall i :: 0 <= i < |comps| ==> GoodName(comps[i])
  }

  function JoinPath(comps: seq<string>): string {
    if comps == [] then "" else Under(JoinPath(comps[..|comps| - 1]), comps[|comps| - 1])
  }

  lemma JoinSnoc(pre: seq<string>, name: string)
    ensures JoinPath(pre + [name]) == Under(JoinPath(pre), name)
  {
    assert (pre + [name])[..|pre|] == pre;
  }

  /** Splitting a joined path gives the components back, so joining is injective on them. */
  lemma {:induction false} SplitJoin(comps: seq<string>)
    requires comps != [] && GoodNames(comps)
    ensures Split(JoinPath(comps), '/') == comps
    ensures JoinPath(comps) != "" && JoinPath(comps)[0] == comps[0][0]
  {
    var n := |comps| - 1;
    var pre, name := comps[..n], comps[n];
    if n == 0 {
      assert JoinPath(pre) == "";
      SplitPlain(name, '/');
      assert comps == [name];
    } else {
      SplitJoin(pre);
      SplitAt(JoinPath(pre), '/', name);
      assert comps == pre + [name];
      assert comps[0] == pre[0];
    }
  }

  lemma JoinInScope(comps: seq<string>)
    requires comps != [] && GoodNames(comps)
    ensures CheckInScope(JoinPath(comps)).Ok?
  {
    hide JoinPath, Split;
    SplitJoin(comps);
    assert comps[0][0] in comps[0];
    assert forall i :: 0 <= i < |comps| ==> GoodName(comps[i]) && comps[i] != "..";
  }

  // ---------------------------------------------------------------------------------------
  // Components of the entries
  // ---------------------------------------------------------------------------------------

  /** For each entry of `TreeEntries`, the components of its path. */
  function EntryComps(kids: seq<Kid>, pre: seq<string>): seq<seq<string>>
    decreases kids, 0
  {
    if kids == [] then [] else KidComps(kids[0], pre) + EntryComps(kids[1..], pre)
  }

  function KidComps(k: Kid, pre: seq<string>): seq<seq<string>>
    decreases k, 0
  {
    match k.node
    case File(_) => [pre + [k.name]]
    case Dir(kids) => EntryComps(kids, pre + [k.name]) + [pre + [k.name]]
  }

  ghost predicate PathsFollow(entries: seq<Entry>, comps: seq<seq<string>>) {
    |entries| == |comps| && forall i :: 0 <= i < |entries| ==> entries[i].path == JoinPath(comps[i])
  }

  lemma FollowConcat(entries: seq<Entry>, comps: seq<seq<string>>, entries': seq<Entry>, comps': seq<seq<string>>)
    requires PathsFollow(entries, comps) && PathsFollow(entries', comps')
    ensures PathsFollow(entries + entries', comps + comps')
  {
    hide JoinPath;
  }

  lemma {:induction false} EntryPaths(h: HashFn, kids: seq<Kid>, pre: seq<string>)
    ensures PathsFollow(TreeEntries(h, kids, JoinPath(pre)), EntryComps(kids, pre))
    decreases kids, 1
  {
    if kids != [] {
      hide JoinPath, KidEntries, KidComps, PathsFollow;
      KidPaths(h, kids[0], pre);
      EntryPaths(h, kids[1..], pre);
      FollowConcat(KidEntries(h, kids[0], JoinPath(pre)), KidComps(kids[0], pre),
                   TreeEntries(h, kids[1..], JoinPath(pre)), EntryComps(kids[1..], pre));
    }
  }

  lemma {:induction false} KidPaths(h: HashFn, k: Kid, pre: seq<string>)
    ensures PathsFollow(KidEntries(h, k, JoinPath(pre)), KidComps(k, pre))
    decreases k, 0
  {
    hide JoinPath, C4;
    JoinSnoc(pre, k.name);
    if k.node.Dir? {
      EntryPaths(h, k.node.kids, pre + [k.name]);
    }
  }

  /** Every component list extends the prefix by good names, the first of them a child's. */
  ghost predicate Extends(c: seq<string>, pre: seq<string>, names: seq<string>) {
    |c| > |pre| && c[..|pre|] == pre && GoodNames(c[|pre|..]) && c[|pre|] in names
  }

  lemma {:induction false} CompsExtend(kids: seq<Kid>, pre: seq<string>)
    requires GoodKids(kids)
    ensures forall i :: 0 <= i < |EntryComps(kids, pre)| ==> Extends(EntryComps(kids, pre)[i], pre, Names(kids))
    decreases kids, 1
  {
    if kids != [] {
      hide GoodKid, KidComps, GoodName;
      var first, rest := KidComps(kids[0], pre), EntryComps(kids[1..], pre);
      KidCompsExtend(kids[0], pre);
      CompsExtend(kids[1..], pre);
      var all := EntryComps(kids, pre);
      forall i | 0 <= i < |all|
        ensures Extends(all[i], pre, Names(kids))
      {
        if i < |first| {
          assert all[i] == first[i];
          assert Names(kids)[0] == kids[0].name;
        } else {
          assert all[i] == rest[i - |first|];
          assert Extends(rest[i - |first|], pre, Names(kids[1..]));
        }
      }
    }
  }

  lemma {:induction false} KidCompsExtend(k: Kid, pre: seq<string>)
    requires GoodKid(k)
    ensures forall i :: 0 <= i < |KidComps(k, pre)| ==> Extends(KidComps(k, pre)[i], pre, [k.name])
    decreases k, 0
  {
    hide GoodName;
    if k.node.Dir? {
      var pre' := pre + [k.name];
      CompsExtend(k.node.kids, pre');
      var all, sub := KidComps(k, pre), EntryComps(k.node.kids, pre');
      forall i | 0 <= i < |all|
        ensures Extends(all[i], pre, [k.name])
      {
        if i < |sub| {
          var c := sub[i];
          assert Extends(c, pre', Names(k.node.kids)) && all[i] == c;
          assert c[..|pre|] == c[..|pre'|][..|pre|] == pre;
          assert c[|pre|] == c[..|pre'|][|pre|] == k.name;
          assert c[|pre|..] == [k.name] + c[|pre'|..];
        }
      }
    }
  }

  ghost predicate Distinct<T>(s: seq<T>) {
    forall i, j :: 0 <= i < j < |s| ==> s[i] != s[j]
  }

  lemma DistinctConcat<T>(a: seq<T>, b: seq<T>)
    requires Distinct(a) && Distinct(b)
    requires forall i, j :: 0 <= i < |a| && 0 <= j < |b| ==> a[i] != b[j]
    ensures Distinct(a + b)
  {
  }

  lemma {:induction false} CompsDistinct(kids: seq<Kid>, pre: seq<string>)
    requires GoodKids(kids) && CanonicalKids(kids)
    ensures Distinct(EntryComps(kids, pre))
    decreases kids, 1
  {
    if kids != [] {
      hide GoodKid, KidComps, GoodName, StringLess;
      var k := kids[0];
      var first, rest := KidComps(k, pre), EntryComps(kids[1..], pre);
      KidCompsDistinct(k, pre);
      CompsDistinct(kids[1..], pre);
      KidCompsExtend(k, pre);
      CompsExtend(kids[1..], pre);
      forall i, j | 0 <= i < |first| && 0 <= j < |rest|
        ensures first[i] != rest[j]
      {
        assert Extends(first[i], pre, [k.name]) && Extends(rest[j], pre, Names(kids[1..]));
        var n :| 0 <= n < |Names(kids[1..])| && Names(kids[1..])[n] == rest[j][|pre|];
        assert kids[n + 1].name == rest[j][|pre|];
        StringTrichotomy(k.name, kids[n + 1].name);
      }
      DistinctConcat(first, rest);
    }
  }

  lemma {:induction false} KidCompsDistinct(k: Kid, pre: seq<string>)
    requires GoodKid(k) && Canonical(k.node)
    ensures Distinct(KidComps(k, pre))
    decreases k, 0
  {
    hide GoodName, StringLess;
    if k.node.Dir? {
      var pre' := pre + [k.name];
      CompsDistinct(k.node.kids, pre');
      CompsExtend(k.node.kids, pre');
      var sub := EntryComps(k.node.kids, pre');
      forall i | 0 <= i < |sub|
        ensures sub[i] != pre'
      {
        assert Extends(sub[i], pre', Names(k.node.kids));
      }
      DistinctConcat(sub, [pre']);
    }
  }

  // ---------------------------------------------------------------------------------------
  // The entries pass every check of the reader but trimming
  // ---------------------------------------------------------------------------------------

  ghost predicate ShapeOk(e: Entry) {
    match e
    case FileEntry(_, size, _, c4) => size < U64_LIMIT && WellFormed(c4)
    case DirEntry(_, _, content, structure) => WellFormed(content) && WellFormed(structure)
  }

  lemma {:induction false} EntryShapes(h: HashFn, kids: seq<Kid>, prefix: string)
    requires GoodKids(kids)
    ensures forall i :: 0 <= i < |TreeEntries(h, kids, prefix)| ==> ShapeOk(TreeEntries(h, kids, prefix)[i])
    decreases kids, 1
  {
    if kids != [] {
      hide GoodKid, KidEntries, WellFormed;
      KidShapes(h, kids[0], prefix);
      EntryShapes(h, kids[1..], prefix);
    }
  }

  lemma {:induction false} KidShapes(h: HashFn, k: Kid, prefix: string)
    requires GoodKid(k)
    ensures forall i :: 0 <= i < |KidEntries(h, k, prefix)| ==> ShapeOk(KidEntries(h, k, prefix)[i])
    decreases k, 0
  {
    hide WellFormed, Encode, GoodName;
    match k.node {
      case File(data) =>
        EncodeWellFormed(h(data));
      case Dir(kids) =>
        EntryShapes(h, kids, Under(prefix, k.name));
        EncodeWellFormed(h(ContentImage(h, k.node)));
        EncodeWellFormed(h(StructureImage(h, k.node)));
    }
  }

  ghost predicate AllTrimmed(entries: seq<Entry>) {
    forall i :: 0 <= i < |entries| ==> Trimmed(entries[i].path)
  }

  lemma {:induction false} EntriesOkFrom(entries: seq<Entry>, seen: set<string>)
    requires forall i :: 0 <= i < |entries| ==> ShapeOk(entries[i]) && CheckInScope(entries[i].path).Ok?
    requires forall i :: 0 <= i < |entries| ==> entries[i].path !in seen
    requires forall i, j :: 0 <= i < j < |entries| ==> entries[i].path != entries[j].path
    ensures EntriesOk(entries, seen) <==> AllTrimmed(entries)
  {
    if entries != [] {
      hide WellFormed, CheckInScope, Trimmed;
      EntriesOkFrom(entries[1..], seen + {entries[0].path});
      assert AllTrimmed(entries) <==> Trimmed(entries[0].path) && AllTrimmed(entries[1..]) by {
        assert forall i :: 0 < i < |entries| ==> entries[i] == entries[1..][i - 1];
      }
    }
  }

  /** The entries of a scope are readable exactly when no path begins or ends with white space. */
  lemma TreeEntriesReadable(h: HashFn, kids: seq<Kid>)
    requires GoodKids(kids) && CanonicalKids(kids)
    ensures EntriesOk(TreeEntries(h, kids, ""), {}) <==> AllTrimmed(TreeEntries(h, kids, ""))
  {
    hide GoodKids, CanonicalKids, TreeEntries, EntryComps, JoinPath, CheckInScope, EntriesOk, Split, GoodName;
    var entries, comps := TreeEntries(h, kids, ""), EntryComps(kids, []);
    EmptyPathIsEmpty();
    EntryPaths(h, kids, []);
    CompsExtend(kids, []);
    CompsDistinct(kids, []);
    EntryShapes(h, kids, "");
    forall i | 0 <= i < |entries|
      ensures CheckInScope(entries[i].path).Ok? && Split(entries[i].path, '/') == comps[i]
    {
      assert Extends(comps[i], [], Names(kids));
      assert comps[i][0..] == comps[i];
      JoinInScope(comps[i]);
      SplitJoin(comps[i]);
    }
    EntriesOkFrom(entries, {});
  }

  lemma EmptyPathIsEmpty()
    ensures JoinPath([]) == ""
  {
  }
}
