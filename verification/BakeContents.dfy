/** What the archives of a bake hold (tool/src/bake.rs): consecutive stretches of the members that
    together are all of them, under numbered names. */
module BakeContents {
  import opened Prelude
  import opened Positional
  import opened Numerals
  import opened Bake
  import opened BakeResume
  import Partition
  import Utf8

  /** The raw octets of the members. */
  function Raw(members: seq<Member>): nat {
    if members == [] then 0 else |members[0].data| + Raw(members[1..])
  }

  // ---------------------------------------------------------------------------------------
  // Consecutive stretches
  // ---------------------------------------------------------------------------------------

  /** Places to cut `n` members into `parts` stretches. */
  ghost predicate Cuts(cuts: seq<nat>, parts: nat, n: nat) {
    && |cuts| == parts + 1 && cuts[0] == 0 && cuts[parts] == n
    && forall i :: 0 <= i < parts ==> cuts[i] <= cuts[i + 1]
  }

  ghost predicate Between(cuts: seq<nat>, i: nat, m: nat) {
    i + 1 < |cuts| && cuts[i] <= m < cuts[i + 1]
  }

  lemma {:induction false} CutsAscend(cuts: seq<nat>, parts: nat, n: nat, i: nat, j: nat)
    requires Cuts(cuts, parts, n) && i <= j <= parts
    ensures cuts[i] <= cuts[j] <= n
    decreases parts - i
  {
    if i < parts {
      CutsAscend(cuts, parts, n, i + 1, if i < j then j else i + 1);
    }
  }

  /** Every member lies in one stretch and in no other. */
  lemma InOneStretch(cuts: seq<nat>, parts: nat, n: nat, m: nat) returns (i: nat)
    requires Cuts(cuts, parts, n) && m < n
    ensures Between(cuts, i, m) && forall j: nat :: Between(cuts, j, m) ==> j == i
  {
    i := StretchUpTo(cuts, parts, n, m, parts);
    forall j: nat | Between(cuts, j, m)
      ensures j == i
    {
      if j < i {
        CutsAscend(cuts, parts, n, j + 1, i);
      } else if i < j {
        CutsAscend(cuts, parts, n, i + 1, j);
      }
    }
  }

  lemma {:induction false} StretchUpTo(cuts: seq<nat>, parts: nat, n: nat, m: nat, upTo: nat) returns (i: nat)
    requires Cuts(cuts, parts, n) && upTo <= parts && m < cuts[upTo]
    ensures Between(cuts, i, m)
  {
    if cuts[upTo - 1] <= m {
      i := upTo - 1;
    } else {
      i := StretchUpTo(cuts, parts, n, m, upTo - 1);
    }
  }

  // ---------------------------------------------------------------------------------------
  // The parts of a job are such stretches
  // ---------------------------------------------------------------------------------------

  lemma {:induction false} PickRange(members: seq<Member>, a: nat, b: nat)
    requires a <= b <= |members|
    ensures Pick(members, Partition.Indices(a, b)) == members[a..b]
    decreases b - a
  {
    if a < b {
      var part := Partition.Indices(a, b);
      assert part[1..] == Partition.Indices(a + 1, b) && part[0] == a;
      hide Partition.Indices;
      PickRange(members, a + 1, b);
      assert Pick(members, part) == [members[a]] + Pick(members, part[1..]);
      assert members[a..b] == [members[a]] + members[a + 1..b];
    }
  }

  lemma {:induction false} RawSnoc(members: seq<Member>, x: Member)
    ensures Raw(members + [x]) == Raw(members) + |x.data|
  {
    if members != [] {
      assert (members + [x])[1..] == members[1..] + [x];
      RawSnoc(members[1..], x);
    } else {
      assert [x][1..] == [];
    }
  }

  lemma {:induction false} RawOfRange(members: seq<Member>, a: nat, b: nat)
    requires a <= b <= |members|
    ensures Partition.PartSum(Sizes(members), Partition.Indices(a, b)) == Raw(members[a..b])
    decreases b
  {
    hide Sizes, Raw, Partition.PartSum, Partition.Indices;
    var sizes, part := Sizes(members), Partition.Indices(a, b);
    if a < b {
      RawOfRange(members, a, b - 1);
      Partition.IndicesSnoc(a, b);
      assert part == Partition.Indices(a, b - 1) + [b - 1];
      Partition.SumSnoc(sizes, Partition.Indices(a, b - 1), b - 1);
      RawSnoc(members[a..b - 1], members[b - 1]);
      assert members[a..b - 1] + [members[b - 1]] == members[a..b];
    } else {
      assert part == [] && members[a..b] == [];
      NoRaw(sizes);
    }
  }

  lemma NoRaw(sizes: seq<nat>)
    ensures Raw([]) == 0 && Partition.PartSum(sizes, []) == 0
  {
  }

  lemma {:induction false} SumIsRaw(members: seq<Member>)
    ensures Sum(Sizes(members)) == Raw(members)
  {
    if members != [] {
      SumIsRaw(members[1..]);
      var rest := Sizes(members[1..]);
      assert ([|members[0].data|] + rest)[1..] == rest;
    }
  }

  /** Where each part begins, and the end. */
  function Starts(parts: seq<Partition.Part>): (cuts: seq<nat>)
    ensures |cuts| == |parts| + 1 && forall k :: 0 <= k <= |parts| ==> cuts[k] == Partition.Start(parts, k)
  {
    seq(|parts| + 1, k requires 0 <= k <= |parts| => Partition.Start(parts, k))
  }

  lemma PartsCover(job: Job)
    requires PartsOf(job).Ok?
    ensures Partition.Covers(PartsOf(job).value, |job.members|) && PartsOf(job).value != []
  {
    hide Partition.Split, Sum, Flatten;
    var sizes, parts := Sizes(job.members), PartsOf(job).value;
    if job.split.Some? && Sum(sizes) > job.split.value.0 {
      Partition.SplitIsGreedy(sizes, job.split.value.0, |sizes|);
    } else {
      FlattenOne(parts[0]);
    }
  }

  lemma FlattenOne<T>(x: seq<T>)
    ensures Flatten([x]) == x
  {
    assert [x][1..] == [] && x + [] == x;
  }

  /** The archives hold the members in order, each stretch packed into one container. */
  ghost predicate Packed(job: Job, archive: ArchiveFn, objects: seq<Object>, cuts: seq<nat>) {
    && Cuts(cuts, |objects|, |job.members|)
    && forall i :: 0 <= i < |objects| ==> StretchOf(job, archive, objects[i], cuts, i)
  }

  ghost predicate StretchOf(job: Job, archive: ArchiveFn, o: Object, cuts: seq<nat>, i: nat) {
    && i + 1 < |cuts| && cuts[i] <= cuts[i + 1] <= |job.members|
    && o.bytes == archive(job.level, job.members[cuts[i]..cuts[i + 1]])
  }

  lemma {:induction false} ObjectAt(job: Job, archive: ArchiveFn, parts: seq<Partition.Part>, i: nat, k: nat)
    requires i + k < |parts|
    ensures ObjectsFrom(job, archive, parts, i)[k]
            == Object(ObjectName(job, |parts|, i + k), archive(job.level, Pick(job.members, parts[i + k])))
    decreases k
  {
    hide ObjectName, Pick;
    if k > 0 {
      ObjectAt(job, archive, parts, i + 1, k - 1);
    }
  }

  /** However a job is split, its archives hold consecutive stretches of its members, from the
      first to the last. */
  lemma ArchivesHoldMembers(job: Job, archive: ArchiveFn, sha: ShaFn, created: nat)
    requires PartsOf(job).Ok?
    ensures Packed(job, archive, PlanAt(job, archive, sha, created).objects, Starts(PartsOf(job).value))
  {
    hide PartsOf, ManifestText, Utf8.Octets, ObjectName, Pick, ObjectsFrom, Flatten;
    var parts, n := PartsOf(job).value, |job.members|;
    var objects, cuts := PlanAt(job, archive, sha, created).objects, Starts(parts);
    PartsCover(job);
    Partition.StartOfAll(parts, n);
    forall i | 0 <= i < |objects|
      ensures StretchOf(job, archive, objects[i], cuts, i)
    {
      ObjectAt(job, archive, parts, 0, i);
      Partition.PartIs(parts, n, i);
      Partition.StartMonotone(parts, i, i + 1);
      PickRange(job.members, cuts[i], cuts[i + 1]);
    }
  }

  // ---------------------------------------------------------------------------------------
  // How a job is split
  // ---------------------------------------------------------------------------------------

  /** A job cannot be laid out exactly if it is to be split and one of its members alone is above
      the maximum; the first such one is named. */
  lemma LaidOutUnless(job: Job)
    ensures PartsOf(job).Err?
            <==> job.split.Some? && Raw(job.members) > job.split.value.0
                 && exists i :: 0 <= i < |job.members| && |job.members[i].data| > job.split.value.1
    ensures PartsOf(job).Err? ==>
              && PartsOf(job).error.member < |job.members| && |job.members[PartsOf(job).error.member].data| > job.split.value.1
              && forall j :: 0 <= j < PartsOf(job).error.member ==> |job.members[j].data| <= job.split.value.1
  {
    hide Partition.Split, Sum, Raw;
    SumIsRaw(job.members);
    var sizes := Sizes(job.members);
    assert forall i :: 0 <= i < |sizes| ==> sizes[i] == |job.members[i].data|;
  }

  /** Without a split, or below its target, there is one archive; else every archive stays within
      the target or holds a single member, none is empty, and none could have taken one more. */
  lemma SplitAsAsked(job: Job)
    requires PartsOf(job).Ok?
    ensures var cuts, m := Starts(PartsOf(job).value), job.members;
            var parts := |cuts| - 1;
            && Cuts(cuts, parts, |m|)
            && (job.split.None? || Raw(m) <= job.split.value.0 ==> parts == 1)
            && (job.split.Some? && Raw(m) > job.split.value.0 ==>
                  && (forall i :: 0 <= i < parts ==> WithinTarget(m, cuts, i, job.split.value.0))
                  && (forall i :: 0 <= i < parts - 1 ==> FullUpToNext(m, cuts, i, job.split.value.0)))
  {
    hide Partition.Split, Sum, Raw, Partition.PartSum, Partition.Start, Flatten;
    var parts, cuts, m := PartsOf(job).value, Starts(PartsOf(job).value), job.members;
    var sizes := Sizes(m);
    SumIsRaw(m);
    PartsCover(job);
    Partition.StartOfAll(parts, |m|);
    StartsZero(parts);
    forall i | 0 <= i < |parts|
      ensures PartIsStretch(parts[i], cuts, i, |m|) && cuts[i] <= cuts[i + 1]
    {
      Partition.PartIs(parts, |m|, i);
      Partition.StartMonotone(parts, i, i + 1);
    }
    if job.split.Some? && Raw(m) > job.split.value.0 {
      NoRaw(sizes);
      Partition.SplitIsGreedy(sizes, job.split.value.0, |sizes|);
      forall i | 0 <= i < |parts|
        ensures WithinTarget(m, cuts, i, job.split.value.0)
      {
        assert PartIsStretch(parts[i], cuts, i, |m|);
        RawOfRange(m, cuts[i], cuts[i + 1]);
        assert Partition.Fits(sizes, job.split.value.0, parts[i]) && parts[i] != [];
      }
      forall i | 0 <= i < |parts| - 1
        ensures FullUpToNext(m, cuts, i, job.split.value.0)
      {
        assert PartIsStretch(parts[i], cuts, i, |m|);
        RawOfRange(m, cuts[i], cuts[i + 1]);
        assert PartIsStretch(parts[i + 1], cuts, i + 1, |m|);
        assert parts[i + 1] != [] && parts[i + 1][0] == cuts[i + 1];
      }
    }
  }

  ghost predicate PartIsStretch(part: Partition.Part, cuts: seq<nat>, i: nat, n: nat) {
    i + 1 < |cuts| && cuts[i] <= cuts[i + 1] <= n && part == Partition.Indices(cuts[i], cuts[i + 1])
  }

  lemma StartsZero(parts: seq<Partition.Part>)
    ensures Partition.Start(parts, 0) == 0
  {
  }

  ghost predicate WithinTarget(m: seq<Member>, cuts: seq<nat>, i: nat, target: nat) {
    && i + 1 < |cuts| && cuts[i] < cuts[i + 1] <= |m|
    && (cuts[i + 1] == cuts[i] + 1 || Raw(m[cuts[i]..cuts[i + 1]]) <= target)
  }

  ghost predicate FullUpToNext(m: seq<Member>, cuts: seq<nat>, i: nat, target: nat) {
    && i + 1 < |cuts| && cuts[i] <= cuts[i + 1] < |m|
    && Raw(m[cuts[i]..cuts[i + 1]]) + |m[cuts[i + 1]].data| > target
  }

  // ---------------------------------------------------------------------------------------
  // On disk
  // ---------------------------------------------------------------------------------------

  ghost predicate NumberedName(job: Job, name: string, i: nat, digits: string) {
    && name == job.clip + ".part" + digits + "." + Container(job)
    && ParseUnsigned(10, i + 2, digits) == Some(i + 1) && |digits| >= 2 && (i < 99 ==> |digits| == 2)
  }

  /** One archive is named after the clip; several carry their number, counted from 1 and of two
      digits at least. */
  lemma NamesNumbered(job: Job, parts: nat, i: nat)
    requires i < parts
    ensures var name := ObjectName(job, parts, i);
            if parts == 1 then name == job.clip + "." + Container(job)
            else exists digits: string :: NumberedName(job, name, i, digits)
    ensures Container(job) == if job.level == None then "tar" else "tar.zst"
  {
    hide Padded, ParseUnsigned, Container;
    var digits := Padded(10, 2, i + 1);
    ParsePadded(10, 2, i + 1, i + 2);
    if i < 99 {
      TwoDigits();
      PaddedWidth(2, i + 1);
    }
    if parts != 1 {
      assert NumberedName(job, ObjectName(job, parts, i), i, digits);
    }
    ContainerNamed(job);
  }

  lemma TwoDigits()
    ensures Pow(10, 2) == 100
  {
    assert Pow(10, 2) == 10 * Pow(10, 1) && Pow(10, 1) == 10 * Pow(10, 0);
  }

  lemma ContainerNamed(job: Job)
    ensures Container(job) == if job.level == None then "tar" else "tar.zst"
  {
  }

  /** Every stretch of the members is on disk under its name. */
  ghost predicate Archived(files: Files, job: Job, archive: ArchiveFn, cuts: seq<nat>) {
    && |cuts| > 1 && Cuts(cuts, |cuts| - 1, |job.members|)
    && forall i :: 0 <= i < |cuts| - 1 ==> ArchivedStretch(files, job, archive, cuts, i)
  }

  ghost predicate ArchivedStretch(files: Files, job: Job, archive: ArchiveFn, cuts: seq<nat>, i: nat) {
    && i + 1 < |cuts| && cuts[i] <= cuts[i + 1] <= |job.members|
    && var name := ObjectName(job, |cuts| - 1, i);
       name in files && files[name] == archive(job.level, job.members[cuts[i]..cuts[i + 1]])
  }

  lemma FinishedIsArchived(files: Files, job: Job, archive: ArchiveFn, sha: ShaFn)
    requires PartsOf(job).Ok? && SameAsUninterrupted(files, job, archive, sha)
    ensures Archived(files, job, archive, Starts(PartsOf(job).value))
  {
    hide PartsOf, ManifestText, Utf8.Octets, ObjectName, Pick;
    var created: nat :| Finished(files, sha, PlanAt(job, archive, sha, created));
    ArchivesHoldMembers(job, archive, sha, created);
    PartsCover(job);
    var cuts, objects := Starts(PartsOf(job).value), PlanAt(job, archive, sha, created).objects;
    forall i | 0 <= i < |cuts| - 1
      ensures ArchivedStretch(files, job, archive, cuts, i)
    {
      assert StretchOf(job, archive, objects[i], cuts, i);
      assert objects[i].name in files && files[objects[i].name] == objects[i].bytes;
    }
  }

  /** However often a job was started and cut off, once a resumed run completes every member is in
      exactly one archive on disk, in its place. */
  lemma EveryMemberArchived(job: Job, archive: ArchiveFn, sha: ShaFn, runs: seq<Run>, last: Run, m: nat) returns (i: nat)
    requires PartsOf(job).Ok? && last.resume && m < |job.members|
    requires var before := AfterRuns(job, archive, sha, runs);
             last.crash.budget >= |Script(sha, before, PlanAt(job, archive, sha, last.created), true, last.force).0|
    ensures var cuts, after := Starts(PartsOf(job).value), AfterRuns(job, archive, sha, runs + [last]);
            Archived(after, job, archive, cuts) && Between(cuts, i, m) && forall j: nat :: Between(cuts, j, m) ==> j == i
  {
    hide PartsOf, PlanAt, Script, ArchivedStretch;
    ResumeEndsRight(job, archive, sha, runs, last);
    FinishedIsArchived(AfterRuns(job, archive, sha, runs + [last]), job, archive, sha);
    var cuts := Starts(PartsOf(job).value);
    i := InOneStretch(cuts, |cuts| - 1, |job.members|, m);
    CutsAscend(cuts, |cuts| - 1, |job.members|, i + 1, i + 1);
  }
}
