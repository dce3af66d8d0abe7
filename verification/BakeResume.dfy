/** Resuming a bake (tool/src/bake.rs): a resumed run that is not cut off ends with the archive,
    the manifest and the sidecars of an uninterrupted one, whatever crashes came before; it
    skips only over an archive that its sidecar verifies. */
module BakeResume {
  import opened Prelude
  import opened Bake
  import opened BakeRuns
  import Utf8

  // ---------------------------------------------------------------------------------------
  // A run that builds
  // ---------------------------------------------------------------------------------------

  /** Everything the plan writes is in place. */
  ghost predicate Finished(files: Files, sha: ShaFn, plan: Plan) {
    && Present(files, plan.objects) && SidecarsPresent(files, sha, plan.objects)
    && plan.manifest in files && files[plan.manifest] == plan.manifestBytes
  }

  function Finals(plan: Plan): set<string> {
    Names(plan.objects) + SidecarNames(plan.objects) + {plan.manifest}
  }

  lemma ManifestApart(plan: Plan)
    requires Apart(plan)
    ensures !IsBakeTemp(plan.manifest) && plan.manifest !in SidecarNames(plan.objects) && plan.manifest !in Names(plan.objects)
  {
    hide IsBakeTemp, SidecarName;
    if IsBakeTemp(plan.manifest) {
      TempsEnd(plan.manifest);
    }
    forall i | 0 <= i < |plan.objects|
      ensures plan.manifest != plan.objects[i].name && plan.manifest != SidecarName(plan.objects[i].name)
    {
      SidecarEnds(plan.objects[i].name);
    }
    if plan.manifest in Names(plan.objects) {
      InNames(plan.objects, plan.manifest);
    }
    if plan.manifest in SidecarNames(plan.objects) {
      InSidecarNames(plan.objects, plan.manifest);
    }
  }

  lemma PresentThrough(before: Files, after: Files, plan: Plan, names: set<string>)
    requires Apart(plan) && Present(before, plan.objects) && Untouched(before, after, names)
    requires forall i :: 0 <= i < |plan.objects| ==> plan.objects[i].name !in names
    ensures Present(after, plan.objects)
  {
    hide IsBakeTemp;
    forall i | 0 <= i < |plan.objects|
      ensures plan.objects[i].name in after && after[plan.objects[i].name] == plan.objects[i].bytes
    {
      ObjectNotTemp(plan, i);
    }
  }

  lemma NotSidecars(plan: Plan, i: nat)
    requires Apart(plan) && i < |plan.objects|
    ensures plan.objects[i].name !in SidecarNames(plan.objects) && plan.objects[i].name != plan.manifest
  {
    hide SidecarName, IsBakeTemp;
    forall j | 0 <= j < |plan.objects|
      ensures SidecarName(plan.objects[j].name) != plan.objects[i].name
    {
      SidecarEnds(plan.objects[j].name);
    }
    if plan.objects[i].name in SidecarNames(plan.objects) {
      InSidecarNames(plan.objects, plan.objects[i].name);
    }
  }

  lemma WholePlan(plan: Plan)
    ensures Rest(plan, plan.objects)
  {
  }

  lemma BuildDone(sha: ShaFn, files: Files, plan: Plan, force: bool)
    requires Apart(plan) && BuildOps(sha, files, plan, force).1 == Baked
    ensures var after := ApplyAll(files, BuildOps(sha, files, plan, force).0);
            Finished(after, sha, plan) && Untouched(files, after, Finals(plan))
  {
    hide IsBakeTemp, SidecarName, Apart, Names, SidecarNames, Publish, ObjectOps, SidecarOps, ApplyAll, Present, Untouched, SidecarBytes, Rest;
    WholePlan(plan);
    ManifestApart(plan);
    var objectOps := ObjectOps(files, plan.objects, force).0;
    var s1 := ApplyAll(files, objectOps);
    ObjectsBuilt(files, plan, plan.objects, force);
    var manifestOps := Publish(plan.manifestTemp, plan.manifest, plan.manifestBytes);
    var s2 := ApplyAll(s1, manifestOps);
    ManifestTemporary(plan);
    PublishedUntouched(s1, plan.manifestTemp, plan.manifest, plan.manifestBytes);
    var sidecarOps := SidecarOps(sha, s2, plan.objects);
    var s3 := ApplyAll(s2, sidecarOps);
    forall i | 0 <= i < |plan.objects|
      ensures plan.objects[i].name !in SidecarNames(plan.objects) && plan.objects[i].name != plan.manifest
    {
      NotSidecars(plan, i);
    }
    PresentThrough(s1, s2, plan, {plan.manifest});
    SidecarsBuilt(s2, plan, plan.objects, sha);
    PresentThrough(s2, s3, plan, SidecarNames(plan.objects));
    KeptThrough(s2, s3, plan.manifest, SidecarNames(plan.objects));
    UntouchedChain(files, s1, s2, Names(plan.objects), {plan.manifest}, Finals(plan));
    UntouchedChain(files, s2, s3, Finals(plan), SidecarNames(plan.objects), Finals(plan));
    ApplyAppend(s1, manifestOps, sidecarOps);
    ApplyAppend(files, objectOps, manifestOps + sidecarOps);
  }

  lemma ManifestTemporary(plan: Plan)
    requires Apart(plan)
    ensures IsBakeTemp(plan.manifestTemp)
  {
  }

  lemma KeptThrough(before: Files, after: Files, name: string, names: set<string>)
    requires Untouched(before, after, names) && name !in names && !IsBakeTemp(name) && name in before
    ensures name in after && after[name] == before[name]
  {
    hide IsBakeTemp;
  }

  lemma BuildSound(sha: ShaFn, files: Files, plan: Plan, force: bool, crash: Crash, texts: iset<seq<byte>>)
    requires Apart(plan) && Sound(files, sha, plan, texts) && plan.manifestBytes in texts
    ensures Sound(Interrupted(files, BuildOps(sha, files, plan, force).0, crash), sha, plan, texts)
  {
    hide IsBakeTemp, SidecarName, Apart, Names, SidecarNames, Publish, ObjectOps, SidecarOps, ApplyAll, Interrupted, Present, Untouched, Sound, Rest,
      Okay;
    WholePlan(plan);
    var objectOps := ObjectOps(files, plan.objects, force).0;
    ObjectsSound(files, plan, plan.objects, force, crash, sha, texts);
    if ObjectOps(files, plan.objects, force).1 == None {
      var s1 := ApplyAll(files, objectOps);
      SoundWhenDone(files, plan, force, sha, texts);
      ObjectsBuilt(files, plan, plan.objects, force);
      ManifestApart(plan);
      ManifestTemporary(plan);
      ManifestOkay(sha, plan, texts);
      var manifestOps := Publish(plan.manifestTemp, plan.manifest, plan.manifestBytes);
      var s2 := ApplyAll(s1, manifestOps);
      var sidecarOps := SidecarOps(sha, s2, plan.objects);
      InterruptedAppend(files, objectOps, manifestOps + sidecarOps, crash);
      if crash.budget >= |objectOps| {
        var c1 := crash.(budget := crash.budget - |objectOps|);
        InterruptedAppend(s1, manifestOps, sidecarOps, c1);
        PublishSound(s1, plan.manifestTemp, plan.manifest, plan.manifestBytes, c1, sha, plan, texts);
        PublishComplete(s1, plan.manifestTemp, plan.manifest, plan.manifestBytes, sha, plan, texts);
        PublishedUntouched(s1, plan.manifestTemp, plan.manifest, plan.manifestBytes);
        forall i | 0 <= i < |plan.objects|
          ensures plan.objects[i].name !in {plan.manifest}
        {
          NotSidecars(plan, i);
        }
        PresentThrough(s1, s2, plan, {plan.manifest});
        if c1.budget >= |manifestOps| {
          SidecarsSound(s2, plan, plan.objects, c1.(budget := c1.budget - |manifestOps|), sha, texts);
        }
      }
    }
  }

  lemma SoundWhenDone(files: Files, plan: Plan, force: bool, sha: ShaFn, texts: iset<seq<byte>>)
    requires Apart(plan) && Sound(files, sha, plan, texts)
    ensures Sound(ApplyAll(files, ObjectOps(files, plan.objects, force).0), sha, plan, texts)
  {
    hide Apart, ObjectOps, ApplyAll, Interrupted, Sound;
    var ops := ObjectOps(files, plan.objects, force).0;
    var crash := Crash(|ops|, None, {});
    WholePlan(plan);
    ObjectsSound(files, plan, plan.objects, force, crash, sha, texts);
    Uninterrupted(files, ops, crash);
  }

  lemma ManifestOkay(sha: ShaFn, plan: Plan, texts: iset<seq<byte>>)
    requires Apart(plan) && plan.manifestBytes in texts
    ensures Okay(plan.manifest, plan.manifestBytes, sha, plan, texts)
  {
    hide IsBakeTemp, SidecarName, SidecarBytes;
    forall i | 0 <= i < |plan.objects|
      ensures plan.manifest != SidecarName(plan.objects[i].name)
    {
      SidecarEnds(plan.objects[i].name);
    }
  }

  // ---------------------------------------------------------------------------------------
  // A resumed run
  // ---------------------------------------------------------------------------------------

  lemma {:induction false} StaleIncludes(objects: seq<Object>)
    ensures forall i :: 0 <= i < |objects| ==> objects[i].name in Stale(objects) && SidecarName(objects[i].name) in Stale(objects)
    ensures Stale(objects) == Names(objects) + SidecarNames(objects)
  {
    hide SidecarName;
    if objects != [] {
      StaleIncludes(objects[1..]);
    }
  }

  /** With the objects gone nothing is refused. */
  lemma {:induction false} NothingRefused(files: Files, plan: Plan, objects: seq<Object>, force: bool)
    requires Apart(plan) && Rest(plan, objects) && forall i :: 0 <= i < |objects| ==> objects[i].name !in files
    ensures ObjectOps(files, objects, force).1 == None
    decreases |objects|
  {
    hide IsBakeTemp, ObjectTemp, Publish, Names;
    if objects != [] {
      RestFirst(plan, objects);
      var o := objects[0];
      var at := |plan.objects| - |objects|;
      var mid := ApplyAll(files, Publish(ObjectTemp(o.name), o.name, o.bytes));
      ObjectTempIs(o.name);
      ObjectNotTemp(plan, at);
      PublishedUntouched(files, ObjectTemp(o.name), o.name, o.bytes);
      FirstDiffers(plan, objects);
      forall i | 0 <= i < |objects[1..]|
        ensures objects[1..][i].name !in mid
      {
        assert objects[1..][i] == objects[i + 1] == plan.objects[at + 1 + i];
        ObjectNotTemp(plan, at + 1 + i);
      }
      NothingRefused(mid, plan, objects[1..], force);
    }
  }

  /** From any files whatever: a resumed run skips or bakes, never refuses; if it bakes and is
      not cut off, everything is in place, no temporary is left, and nothing else has changed. */
  lemma ResumeFinishes(sha: ShaFn, files: Files, plan: Plan, force: bool)
    requires Apart(plan)
    ensures var (ops, outcome) := Script(sha, files, plan, true, force);
            var after := ApplyAll(files, ops);
            && (outcome == Skipped || outcome == Baked)
            && (outcome == Baked ==> Finished(after, sha, plan))
            && Temps(after) == {}
            && forall n :: n !in Finals(plan) && !IsBakeTemp(n) ==> (n in after <==> n in files) && (n in files ==> after[n] == files[n])
  {
    hide IsBakeTemp, SidecarName, Apart, Names, SidecarNames, BuildOps, Completion, Finished, Stale;
    var cleaning := RemoveAll(Temps(files));
    var s := Apply(files, cleaning);
    var (ops, outcome) := Script(sha, files, plan, true, force);
    if |plan.objects| == 1 && Completion(sha, s, plan.objects[0].name, plan.manifest, plan.rows).Ok? {
      OneStep(files, cleaning);
    } else {
      var removing := RemoveAll(Stale(plan.objects));
      var s2 := Apply(s, removing);
      StaleIncludes(plan.objects);
      WholePlan(plan);
      NothingRefused(s2, plan, plan.objects, force);
      BuildsUnlessRefused(sha, s2, plan, force);
      BuildDone(sha, s2, plan, force);
      var build := BuildOps(sha, s2, plan, force).0;
      TwoSteps(files, cleaning, removing, build);
    }
  }

  lemma BuildsUnlessRefused(sha: ShaFn, files: Files, plan: Plan, force: bool)
    requires ObjectOps(files, plan.objects, force).1 == None
    ensures BuildOps(sha, files, plan, force).1 == Baked
  {
    hide ObjectOps, SidecarOps, ApplyAll;
  }

  lemma OneStep(files: Files, op: Op)
    ensures ApplyAll(files, [op]) == Apply(files, op)
  {
    assert [op][1..] == [];
  }

  lemma TwoSteps(files: Files, a: Op, b: Op, more: seq<Op>)
    ensures ApplyAll(files, [a, b] + more) == ApplyAll(Apply(Apply(files, a), b), more)
  {
    hide Apply;
    ApplyAppend(files, [a, b], more);
    assert [a, b][1..] == [b] && [b][1..] == [];
    assert ApplyAll(Apply(files, a), [b]) == Apply(Apply(files, a), b);
  }

  /** Whatever run it is and wherever it is cut off, no final name ever holds anything wrong. */
  lemma RunSound(sha: ShaFn, files: Files, plan: Plan, resume: bool, force: bool, crash: Crash, texts: iset<seq<byte>>)
    requires Apart(plan) && Sound(files, sha, plan, texts) && plan.manifestBytes in texts
    ensures Sound(Interrupted(files, Script(sha, files, plan, resume, force).0, crash), sha, plan, texts)
  {
    hide IsBakeTemp, SidecarName, Apart, BuildOps, Completion, Okay, Stale, Interrupted, Apply;
    if !resume {
      BuildSound(sha, files, plan, force, crash, texts);
    } else {
      var cleaning := RemoveAll(Temps(files));
      var removing := RemoveAll(Stale(plan.objects));
      var s := Apply(files, cleaning);
      var s2 := Apply(s, removing);
      RemovalSound(files, Temps(files), sha, plan, texts);
      RemovalSound(s, Stale(plan.objects), sha, plan, texts);
      CutOffRemoval(files, Temps(files), crash, sha, plan, texts);
      var build := BuildOps(sha, s2, plan, force).0;
      assert [cleaning, removing] + build == [cleaning] + ([removing] + build);
      InterruptedAppend(files, [cleaning], [removing] + build, crash);
      OneStep(files, cleaning);
      if crash.budget >= 1 {
        var c1 := crash.(budget := crash.budget - 1);
        CutOffRemoval(s, Stale(plan.objects), c1, sha, plan, texts);
        InterruptedAppend(s, [removing], build, c1);
        OneStep(s, removing);
        if c1.budget >= 1 {
          BuildSound(sha, s2, plan, force, c1.(budget := c1.budget - 1), texts);
        }
      }
    }
  }

  lemma RemovalSound(files: Files, names: set<string>, sha: ShaFn, plan: Plan, texts: iset<seq<byte>>)
    requires Sound(files, sha, plan, texts)
    ensures Sound(Apply(files, RemoveAll(names)), sha, plan, texts)
  {
    hide Okay;
  }

  lemma CutOffRemoval(files: Files, names: set<string>, crash: Crash, sha: ShaFn, plan: Plan, texts: iset<seq<byte>>)
    requires Sound(files, sha, plan, texts)
    ensures Sound(Interrupted(files, [RemoveAll(names)], crash), sha, plan, texts)
  {
    hide Okay;
    assert [RemoveAll(names)][1..] == [];
    if crash.budget > 0 {
      NoSteps(Apply(files, RemoveAll(names)), crash.(budget := crash.budget - 1));
    }
  }

  // ---------------------------------------------------------------------------------------
  // Any number of runs
  // ---------------------------------------------------------------------------------------

  /** One run of the job: its flags, its clock, and where it is cut off. */
  datatype Run = Run(resume: bool, force: bool, created: nat, crash: Crash)

  /** The job can be laid out, so every run of it has a plan. */
  function PlanAt(job: Job, archive: ArchiveFn, sha: ShaFn, created: nat): Plan
    requires PartsOf(job).Ok?
  {
    PlanOf(job, archive, sha, created).value
  }

  /** The output directory after runs of one job, starting fresh. */
  function AfterRuns(job: Job, archive: ArchiveFn, sha: ShaFn, runs: seq<Run>): Files
    requires PartsOf(job).Ok?
  {
    if runs == [] then map[]
    else
      var before, run := AfterRuns(job, archive, sha, runs[..|runs| - 1]), runs[|runs| - 1];
      Interrupted(before, Script(sha, before, PlanAt(job, archive, sha, run.created), run.resume, run.force).0, run.crash)
  }

  /** The manifests of the job: they differ in when they were created, and in nothing else. */
  ghost function Manifests(job: Job, archive: ArchiveFn, sha: ShaFn): iset<seq<byte>>
    requires PartsOf(job).Ok?
  {
    iset created: nat | true :: PlanAt(job, archive, sha, created).manifestBytes
  }

  /** Plans of one job differ in the manifest's bytes only. */
  lemma PlansAgree(job: Job, archive: ArchiveFn, sha: ShaFn, a: nat, b: nat)
    requires PartsOf(job).Ok?
    ensures PlanAt(job, archive, sha, b) == PlanAt(job, archive, sha, a).(manifestBytes := PlanAt(job, archive, sha, b).manifestBytes)
  {
    hide PartsOf, ManifestText, ObjectsFrom, Utf8.Octets;
  }

  lemma SoundForAll(files: Files, sha: ShaFn, plan: Plan, bytes: seq<byte>, texts: iset<seq<byte>>)
    requires Sound(files, sha, plan, texts)
    ensures Sound(files, sha, plan.(manifestBytes := bytes), texts)
  {
    hide SidecarBytes, SidecarName;
    var plan' := plan.(manifestBytes := bytes);
    forall n | n in files
      ensures Okay(n, files[n], sha, plan', texts)
    {
      assert Okay(n, files[n], sha, plan, texts);
    }
  }

  lemma {:induction false} EveryRunKeepsSound(job: Job, archive: ArchiveFn, sha: ShaFn, runs: seq<Run>, created: nat)
    requires PartsOf(job).Ok?
    ensures Sound(AfterRuns(job, archive, sha, runs), sha, PlanAt(job, archive, sha, created), Manifests(job, archive, sha))
  {
    hide PartsOf, PlanAt, Script, Okay, Interrupted, Apart;
    if runs != [] {
      var before, run := AfterRuns(job, archive, sha, runs[..|runs| - 1]), runs[|runs| - 1];
      var plan, plan' := PlanAt(job, archive, sha, run.created), PlanAt(job, archive, sha, created);
      EveryRunKeepsSound(job, archive, sha, runs[..|runs| - 1], run.created);
      PlanAtApart(job, archive, sha, run.created);
      ManifestMember(job, archive, sha, run.created);
      RunSound(sha, before, plan, run.resume, run.force, run.crash, Manifests(job, archive, sha));
      PlansAgree(job, archive, sha, run.created, created);
      SoundForAll(AfterRuns(job, archive, sha, runs), sha, plan, plan'.manifestBytes, Manifests(job, archive, sha));
    }
  }

  lemma PlanAtApart(job: Job, archive: ArchiveFn, sha: ShaFn, created: nat)
    requires PartsOf(job).Ok?
    ensures Apart(PlanAt(job, archive, sha, created))
  {
    hide PartsOf, Apart, ObjectsFrom;
    PlanApart(job, archive, sha, created);
  }

  lemma ManifestMember(job: Job, archive: ArchiveFn, sha: ShaFn, created: nat)
    requires PartsOf(job).Ok?
    ensures PlanAt(job, archive, sha, created).manifestBytes in Manifests(job, archive, sha)
  {
    hide PlanAt, PartsOf;
  }

  /** The same archive, sidecars and, apart from its date, manifest as an uninterrupted run. */
  ghost predicate SameAsUninterrupted(files: Files, job: Job, archive: ArchiveFn, sha: ShaFn)
    requires PartsOf(job).Ok?
  {
    exists created: nat :: Finished(files, sha, PlanAt(job, archive, sha, created))
  }

  /** However often the job was started and cut off, a resumed run that completes ends where an
      uninterrupted one would: the single archive was verified complete and is skipped, or
      everything is built anew. No temporary is left. */
  lemma ResumeEndsRight(job: Job, archive: ArchiveFn, sha: ShaFn, runs: seq<Run>, last: Run)
    requires PartsOf(job).Ok? && last.resume
    requires var before := AfterRuns(job, archive, sha, runs);
             last.crash.budget >= |Script(sha, before, PlanAt(job, archive, sha, last.created), true, last.force).0|
    ensures var after := AfterRuns(job, archive, sha, runs + [last]);
            SameAsUninterrupted(after, job, archive, sha) && Temps(after) == {}
  {
    hide PartsOf, PlanAt, Script, Okay, Interrupted, Apart, Finished, ApplyAll, IsBakeTemp, Manifests, Finals, Sound;
    var before, after := AfterRuns(job, archive, sha, runs), AfterRuns(job, archive, sha, runs + [last]);
    var plan := PlanAt(job, archive, sha, last.created);
    assert (runs + [last])[..|runs|] == runs;
    var (ops, outcome) := Script(sha, before, plan, true, last.force);
    Uninterrupted(before, ops, last.crash);
    PlanAtApart(job, archive, sha, last.created);
    ResumeFinishes(sha, before, plan, last.force);
    if outcome == Skipped {
      EveryRunKeepsSound(job, archive, sha, runs + [last], last.created);
      SkippedPresent(sha, before, plan, last.force);
      FinishedBy(after, sha, job, archive, plan, last.created);
    }
  }

  /** A skipped run found the archive, its sidecar and the manifest. */
  lemma SkippedPresent(sha: ShaFn, files: Files, plan: Plan, force: bool)
    requires Apart(plan) && Script(sha, files, plan, true, force).1 == Skipped
    ensures var after := ApplyAll(files, Script(sha, files, plan, true, force).0);
            && |plan.objects| == 1 && plan.objects[0].name in after && SidecarName(plan.objects[0].name) in after && plan.manifest in after
            && VerifyObjectSidecar(sha, after[plan.objects[0].name], after[SidecarName(plan.objects[0].name)]) == Ok(true)
  {
    hide IsBakeTemp, SidecarName, Apart, BuildOps, VerifyObjectSidecar, Stale;
    var s := Apply(files, RemoveAll(Temps(files)));
    OneStep(files, RemoveAll(Temps(files)));
    BuildNeverSkips(sha, Apply(s, RemoveAll(Stale(plan.objects))), plan, force);
  }

  lemma BuildNeverSkips(sha: ShaFn, files: Files, plan: Plan, force: bool)
    ensures BuildOps(sha, files, plan, force).1 != Skipped
  {
    hide ObjectOps, SidecarOps;
  }

  lemma FinishedBy(files: Files, sha: ShaFn, job: Job, archive: ArchiveFn, plan: Plan, created: nat)
    requires PartsOf(job).Ok? && plan == PlanAt(job, archive, sha, created) && Apart(plan)
    requires Sound(files, sha, plan, Manifests(job, archive, sha))
    requires |plan.objects| == 1 && plan.objects[0].name in files && SidecarName(plan.objects[0].name) in files && plan.manifest in files
    ensures SameAsUninterrupted(files, job, archive, sha)
  {
    hide PartsOf, PlanAt, Apart, SidecarName, SidecarBytes;
    var o := plan.objects[0];
    assert Okay(o.name, files[o.name], sha, plan, Manifests(job, archive, sha));
    assert Okay(SidecarName(o.name), files[SidecarName(o.name)], sha, plan, Manifests(job, archive, sha));
    assert Okay(plan.manifest, files[plan.manifest], sha, plan, Manifests(job, archive, sha));
    var c: nat :| PlanAt(job, archive, sha, c).manifestBytes == files[plan.manifest];
    PlansAgree(job, archive, sha, created, c);
    assert Finished(files, sha, PlanAt(job, archive, sha, c));
  }
}
