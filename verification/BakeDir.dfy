/** The bake of one clip as it runs (tool/src/bake.rs): reading the rows, laying out the parts,
    and the ordered writes, renames and removals in the output directory. */
module BakeDir {
  import opened Prelude
  import opened Bake
  import opened BakeRuns
  import opened BakeResume
  import Partition
  import Utf8

  // ---------------------------------------------------------------------------------------
  // Parts and plan
  // ---------------------------------------------------------------------------------------

  lemma {:induction false} SumSnoc(sizes: seq<nat>, x: nat)
    ensures Sum(sizes + [x]) == Sum(sizes) + x
  {
    if sizes == [] {
      assert [x][1..] == [];
    } else {
      assert (sizes + [x])[1..] == sizes[1..] + [x];
      SumSnoc(sizes[1..], x);
    }
  }

  method RowSizes(members: seq<Member>) returns (sizes: seq<nat>, raw: nat)
    ensures sizes == Sizes(members) && raw == Sum(Sizes(members))
  {
    sizes, raw := [], 0;
    for i := 0 to |members|
      invariant |sizes| == i && raw == Sum(sizes)
      invariant forall k :: 0 <= k < i ==> sizes[k] == |members[k].data|
    {
      SumSnoc(sizes, |members[i].data|);
      sizes := sizes + [|members[i].data|];
      raw := raw + |members[i].data|;
    }
    assert sizes == Sizes(members);
  }

  method Parts(job: Job) returns (r: Result<seq<Partition.Part>, Partition.PartitionError>)
    ensures r == PartsOf(job)
  {
    hide Sizes, Sum, Partition.Split;
    var sizes, raw := RowSizes(job.members);
    var all := Partition.Indices(0, |job.members|);
    match job.split {
      case None =>
        return Ok([all]);
      case Some((target, max)) =>
        if raw <= target {
          return Ok([all]);
        }
        r := Partition.PartitionFiles(sizes, target, max);
        FirstAboveIs(sizes, max, r);
    }
  }

  lemma FirstAboveIs(sizes: seq<nat>, max: nat, r: Result<seq<Partition.Part>, Partition.PartitionError>)
    requires r.Ok? ==> forall i :: 0 <= i < |sizes| ==> sizes[i] <= max
    requires r.Err? ==> var i := r.error.member; i < |sizes| && sizes[i] > max && forall j :: 0 <= j < i ==> sizes[j] <= max
    ensures r.Ok? ==> FirstAbove(sizes, max, 0) == None
    ensures r.Err? ==> FirstAbove(sizes, max, 0) == Some(r.error.member)
  {
    hide FirstAbove;
    var f := FirstAbove(sizes, max, 0);
  }

  // ---------------------------------------------------------------------------------------
  // The output directory
  // ---------------------------------------------------------------------------------------

  lemma BuildStep(sha: ShaFn, files: Files, plan: Plan, objects: seq<Object>, force: bool)
    requires objects != []
    ensures var o := objects[0];
            BuildFrom(sha, files, plan, objects, force)
            == if o.name in files && !force then ([], Refused(o.name))
               else
                 var first := Publish(ObjectTemp(o.name), o.name, o.bytes);
                 var (more, outcome) := BuildFrom(sha, ApplyAll(files, first), plan, objects[1..], force);
                 (first + more, outcome)
  {
    hide Publish, ObjectTemp, SidecarOps, ApplyAll;
    var o := objects[0];
    if !(o.name in files && !force) {
      var first := Publish(ObjectTemp(o.name), o.name, o.bytes);
      var mid := ApplyAll(files, first);
      var more := ObjectOps(mid, objects[1..], force).0;
      ApplyAppend(files, first, more);
      if ObjectOps(mid, objects[1..], force).1 == None {
        var manifestOps := Publish(plan.manifestTemp, plan.manifest, plan.manifestBytes);
        var rest := manifestOps + SidecarOps(sha, ApplyAll(ApplyAll(mid, more), manifestOps), plan.objects);
        assert (first + more) + rest == first + (more + rest);
      }
    }
  }

  lemma BuildEnd(sha: ShaFn, files: Files, plan: Plan, force: bool)
    ensures var manifestOps := Publish(plan.manifestTemp, plan.manifest, plan.manifestBytes);
            BuildFrom(sha, files, plan, [], force)
            == (manifestOps + SidecarOps(sha, ApplyAll(files, manifestOps), plan.objects), Baked)
  {
    hide Publish, SidecarOps;
    var manifestOps := Publish(plan.manifestTemp, plan.manifest, plan.manifestBytes);
    var rest := manifestOps + SidecarOps(sha, ApplyAll(files, manifestOps), plan.objects);
    assert ApplyAll(files, []) == files;
    assert [] + rest == rest;
  }

  lemma InterruptedStep(files: Files, op: Op, rest: seq<Op>, crash: Crash)
    ensures Interrupted(files, [op] + rest, crash)
            == if crash.budget == 0 then Torn(files, op, crash)
               else Interrupted(Apply(files, op), rest, crash.(budget := crash.budget - 1))
  {
    hide Torn, Apply;
    assert ([op] + rest)[1..] == rest;
  }

  /** The directory, and where the run will be cut off. */
  class OutputDir {
    var files: Files
    var crash: Crash
    var crashed: bool

    constructor (files: Files, crash: Crash)
      ensures this.files == files && this.crash == crash && !crashed
    {
      this.files, this.crash, this.crashed := files, crash, false;
    }

    method Perform(op: Op, ghost rest: seq<Op>)
      requires !crashed
      modifies this
      ensures crashed ==> files == Interrupted(old(files), [op] + rest, old(crash))
      ensures !crashed ==> files == Apply(old(files), op)
                           && Interrupted(files, rest, crash) == Interrupted(old(files), [op] + rest, old(crash))
    {
      hide Interrupted, Torn, Apply;
      InterruptedStep(files, op, rest, crash);
      if crash.budget == 0 {
        files := Torn(files, op, crash);
        crashed := true;
      } else {
        files := Apply(files, op);
        crash := crash.(budget := crash.budget - 1);
      }
    }

    /** Write the hidden temporary, then rename it into place. */
    method PublishFile(temp: string, name: string, bytes: seq<byte>, ghost rest: seq<Op>)
      requires !crashed
      modifies this
      ensures crashed ==> files == Interrupted(old(files), Publish(temp, name, bytes) + rest, old(crash))
      ensures !crashed ==> files == ApplyAll(old(files), Publish(temp, name, bytes))
                           && Interrupted(files, rest, crash) == Interrupted(old(files), Publish(temp, name, bytes) + rest, old(crash))
    {
      hide Interrupted, Torn, Apply;
      ghost var before := files;
      assert Publish(temp, name, bytes) + rest == [Write(temp, bytes)] + ([Rename(temp, name)] + rest);
      assert Publish(temp, name, bytes)[1..] == [Rename(temp, name)];
      Perform(Write(temp, bytes), [Rename(temp, name)] + rest);
      if crashed {
        return;
      }
      OneStep(files, Rename(temp, name));
      Perform(Rename(temp, name), rest);
    }

    method WriteSidecars(sha: ShaFn, plan: Plan)
      requires !crashed
      modifies this
      ensures files == Interrupted(old(files), SidecarOps(sha, old(files), plan.objects), old(crash))
    {
      hide Interrupted, Torn, Apply, ApplyAll, Publish, SidecarText, SidecarTemp, SidecarName, Utf8.Octets;
      ghost var total := Interrupted(files, SidecarOps(sha, files, plan.objects), crash);
      assert plan.objects[0..] == plan.objects;
      for i := 0 to |plan.objects|
        invariant !crashed && Interrupted(files, SidecarOps(sha, files, plan.objects[i..]), crash) == total
      {
        var name := plan.objects[i].name;
        assert plan.objects[i..][0] == plan.objects[i] && plan.objects[i..][1..] == plan.objects[i + 1..];
        var digest := sha(if name in files then files[name] else []);
        var bytes := Utf8.Octets(SidecarText(digest, name));
        ghost var rest := SidecarOps(sha, ApplyAll(files, Publish(SidecarTemp(name), SidecarName(name), bytes)), plan.objects[i + 1..]);
        PublishFile(SidecarTemp(name), SidecarName(name), bytes, rest);
        if crashed {
          return;
        }
      }
      NoSteps(files, crash);
      assert plan.objects[|plan.objects|..] == [];
    }

    method Build(sha: ShaFn, plan: Plan, force: bool) returns (outcome: Outcome)
      requires !crashed
      modifies this
      ensures files == Interrupted(old(files), BuildOps(sha, old(files), plan, force).0, old(crash))
      ensures !crashed ==> outcome == BuildOps(sha, old(files), plan, force).1
    {
      hide Interrupted, Torn, Apply, ApplyAll, Publish, ObjectTemp, SidecarOps, BuildFrom;
      ghost var total := Interrupted(files, BuildFrom(sha, files, plan, plan.objects, force).0, crash);
      ghost var verdict := BuildFrom(sha, files, plan, plan.objects, force).1;
      assert plan.objects[0..] == plan.objects;
      for i := 0 to |plan.objects|
        invariant !crashed && Interrupted(files, BuildFrom(sha, files, plan, plan.objects[i..], force).0, crash) == total
        invariant BuildFrom(sha, files, plan, plan.objects[i..], force).1 == verdict
      {
        var o := plan.objects[i];
        assert plan.objects[i..][0] == o && plan.objects[i..][1..] == plan.objects[i + 1..];
        BuildStep(sha, files, plan, plan.objects[i..], force);
        if o.name in files && !force {
          NoSteps(files, crash);
          return Refused(o.name);
        }
        ghost var rest := BuildFrom(sha, ApplyAll(files, Publish(ObjectTemp(o.name), o.name, o.bytes)), plan, plan.objects[i + 1..], force).0;
        PublishFile(ObjectTemp(o.name), o.name, o.bytes, rest);
        if crashed {
          return Baked;
        }
      }
      assert plan.objects[|plan.objects|..] == [];
      BuildEnd(sha, files, plan, force);
      ghost var rest := SidecarOps(sha, ApplyAll(files, Publish(plan.manifestTemp, plan.manifest, plan.manifestBytes)), plan.objects);
      PublishFile(plan.manifestTemp, plan.manifest, plan.manifestBytes, rest);
      if crashed {
        return Baked;
      }
      WriteSidecars(sha, plan);
      return Baked;
    }

    /** One run. A layout that fails touches nothing. */
    method BakeClip(job: Job, archive: ArchiveFn, sha: ShaFn, created: nat, resume: bool, force: bool)
      returns (r: Result<Outcome, Partition.PartitionError>)
      requires !crashed
      modifies this
      ensures match PlanOf(job, archive, sha, created)
              case Err(e) => r == Err(e) && files == old(files) && !crashed
              case Ok(plan) =>
                && files == Interrupted(old(files), Script(sha, old(files), plan, resume, force).0, old(crash))
                && (!crashed ==> r == Ok(Script(sha, old(files), plan, resume, force).1))
    {
      hide Interrupted, Torn, BuildOps, Completion, Stale, Temps, ManifestText, ObjectsFrom, PartsOf, Utf8.Octets;
      var parts := Parts(job);
      if parts.Err? {
        return Err(parts.error);
      }
      var objects := ObjectsFrom(job, archive, parts.value, 0);
      var text := ManifestText(job, sha, objects, created);
      var plan := Plan(objects, ManifestName(job), ManifestTemp(job), Utf8.Octets(text), |job.members|);
      ghost var before := files;
      if resume {
        ghost var cleaned := Apply(files, RemoveAll(Temps(files)));
        ghost var removed := Apply(cleaned, RemoveAll(Stale(objects)));
        ghost var build := BuildOps(sha, removed, plan, force).0;
        ghost var skipping := |objects| == 1 && Completion(sha, cleaned, objects[0].name, plan.manifest, plan.rows).Ok?;
        ghost var rest := if skipping then [] else [RemoveAll(Stale(objects))] + build;
        assert [RemoveAll(Temps(files))] + rest == Script(sha, files, plan, true, force).0;
        Perform(RemoveAll(Temps(files)), rest);
        if crashed {
          return Ok(Baked);
        }
        if |objects| == 1 {
          var done := Completion(sha, files, objects[0].name, plan.manifest, plan.rows);
          if done.Ok? {
            NoSteps(files, crash);
            return Ok(Skipped);
          }
        }
        Perform(RemoveAll(Stale(objects)), build);
        if crashed {
          return Ok(Baked);
        }
      }
      var outcome := Build(sha, plan, force);
      return Ok(outcome);
    }
  }
}
