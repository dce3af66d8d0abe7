/** What interrupted and resumed bakes leave (tool/src/bake.rs): whatever the crash points, the
    files in place are the right ones, and a resumed run that completes ends where an
    uninterrupted one does. */
module BakeRuns {
  import opened Prelude
  import opened Positional
  import opened Numerals
  import opened Bake
  import Utf8

  // ---------------------------------------------------------------------------------------
  // Names do not collide
  // ---------------------------------------------------------------------------------------

  predicate LastIs(s: string, c: char) {
    s != "" && s[|s| - 1] == c
  }

  lemma TempsEnd(name: string)
    requires IsBakeTemp(name)
    ensures LastIs(name, 'p')
  {
    assert ".bake-tmp"[8] == 'p' && ".bake-manifest.tsv.tmp"[21] == 'p' && ".sha256.tmp"[10] == 'p' && ".reel-manifest.tsv.tmp"[21] == 'p';
  }

  lemma SuffixEnds(s: string, suffix: string)
    ensures EndsWith(s + suffix, suffix)
    ensures suffix != "" ==> LastIs(s + suffix, suffix[|suffix| - 1])
  {
    assert (s + suffix)[|s + suffix| - |suffix|..] == suffix;
  }

  lemma ObjectTempIs(name: string)
    ensures IsBakeTemp(ObjectTemp(name))
  {
    SuffixEnds("." + name, ".bake-tmp");
  }

  lemma SidecarTempIs(name: string)
    ensures IsBakeTemp(SidecarTemp(name))
  {
    SuffixEnds("." + name, ".sha256.tmp");
    assert "." <= "." + name + ".sha256.tmp";
  }

  lemma ManifestTempIs(job: Job)
    ensures IsBakeTemp(ManifestTemp(job))
  {
    SuffixEnds("." + job.clip, ".bake-manifest.tsv.tmp");
    assert "." <= "." + job.clip + ".bake-manifest.tsv.tmp";
  }

  lemma SidecarEnds(name: string)
    ensures LastIs(SidecarName(name), '6') && !IsBakeTemp(SidecarName(name))
  {
    SuffixEnds(name, ".sha256");
    assert ".sha256"[6] == '6';
    if IsBakeTemp(SidecarName(name)) {
      TempsEnd(SidecarName(name));
    }
  }

  predicate IsObjectName(name: string) {
    LastIs(name, 'r') || LastIs(name, 't')
  }

  /** Objects have names of their own; the manifest's is none of them, and its temporary is
      recognised as one. */
  ghost predicate Apart(plan: Plan) {
    && (forall i :: 0 <= i < |plan.objects| ==> IsObjectName(plan.objects[i].name))
    && (forall i, j :: 0 <= i < j < |plan.objects| ==> plan.objects[i].name != plan.objects[j].name)
    && LastIs(plan.manifest, 'v') && IsBakeTemp(plan.manifestTemp)
  }

  lemma ContainerEnds(job: Job)
    ensures LastIs(Container(job), 'r') || LastIs(Container(job), 't')
  {
    assert "tar.zst"[6] == 't' && "tar"[2] == 'r';
  }

  lemma ObjectNameEnds(job: Job, parts: nat, i: nat)
    ensures IsObjectName(ObjectName(job, parts, i))
  {
    hide Padded;
    ContainerEnds(job);
  }

  lemma ObjectNamesDiffer(job: Job, parts: nat, i: nat, j: nat)
    requires i < j < parts
    ensures ObjectName(job, parts, i) != ObjectName(job, parts, j)
  {
    hide Padded, Value, Container;
    var head, tail := job.clip + ".part", "." + Container(job);
    var p, q := Padded(10, 2, i + 1), Padded(10, 2, j + 1);
    var a, b := head + p + tail, head + q + tail;
    assert ObjectName(job, parts, i) == a && ObjectName(job, parts, j) == b;
    PaddedValue(10, 2, i + 1);
    PaddedValue(10, 2, j + 1);
    assert a[|head|..|a| - |tail|] == p && b[|head|..|b| - |tail|] == q;
  }

  lemma PlanApart(job: Job, archive: ArchiveFn, sha: ShaFn, created: nat)
    requires PlanOf(job, archive, sha, created).Ok?
    ensures Apart(PlanOf(job, archive, sha, created).value)
  {
    hide PartsOf, ManifestText, ObjectName, IsBakeTemp, Utf8.Octets;
    var parts := PartsOf(job).value;
    var objects := ObjectsFrom(job, archive, parts, 0);
    forall i | 0 <= i < |objects|
      ensures IsObjectName(objects[i].name)
    {
      ObjectNameEnds(job, |parts|, i);
    }
    forall i, j | 0 <= i < j < |objects|
      ensures objects[i].name != objects[j].name
    {
      ObjectNamesDiffer(job, |parts|, i, j);
    }
    SuffixEnds(job.clip, ".bake-manifest.tsv");
    assert ".bake-manifest.tsv"[17] == 'v';
    ManifestTempIs(job);
  }

  // ---------------------------------------------------------------------------------------
  // Steps and crashes
  // ---------------------------------------------------------------------------------------

  lemma {:induction false} ApplyAppend(files: Files, a: seq<Op>, b: seq<Op>)
    ensures ApplyAll(files, a + b) == ApplyAll(ApplyAll(files, a), b)
    decreases |a|
  {
    if a == [] {
      assert a + b == b;
    } else {
      assert (a + b)[1..] == a[1..] + b;
      ApplyAppend(Apply(files, a[0]), a[1..], b);
    }
  }

  /** A crash strikes in the first steps or in the rest. */
  lemma {:induction false} InterruptedAppend(files: Files, a: seq<Op>, b: seq<Op>, crash: Crash)
    ensures Interrupted(files, a + b, crash)
            == if crash.budget < |a| then Interrupted(files, a, crash)
               else Interrupted(ApplyAll(files, a), b, crash.(budget := crash.budget - |a|))
    decreases |a|
  {
    hide Apply, Torn;
    if a == [] {
      assert a + b == b;
    } else {
      assert (a + b)[0] == a[0] && (a + b)[1..] == a[1..] + b;
      if crash.budget > 0 {
        InterruptedAppend(Apply(files, a[0]), a[1..], b, crash.(budget := crash.budget - 1));
      }
    }
  }

  lemma {:induction false} Uninterrupted(files: Files, ops: seq<Op>, crash: Crash)
    requires crash.budget >= |ops|
    ensures Interrupted(files, ops, crash) == ApplyAll(files, ops)
    decreases |ops|
  {
    if ops != [] {
      Uninterrupted(Apply(files, ops[0]), ops[1..], crash.(budget := crash.budget - 1));
    }
  }

  lemma Published(files: Files, temp: string, name: string, bytes: seq<byte>)
    requires temp != name
    ensures ApplyAll(files, Publish(temp, name, bytes)) == (files - {temp})[name := bytes]
  {
    var ops := Publish(temp, name, bytes);
    var written := files[temp := bytes];
    assert ops[1..] == [Rename(temp, name)] && ops[1..][1..] == [];
    assert ApplyAll(written, ops[1..]) == Apply(written, Rename(temp, name));
    assert written - {temp} == files - {temp};
  }

  // ---------------------------------------------------------------------------------------
  // What the final names may hold
  // ---------------------------------------------------------------------------------------

  /** Objects hold their bytes, sidecars the objects' digests, the manifest one of `texts`. */
  ghost predicate Okay(name: string, bytes: seq<byte>, sha: ShaFn, plan: Plan, texts: iset<seq<byte>>) {
    && (forall i :: 0 <= i < |plan.objects| && name == plan.objects[i].name ==> bytes == plan.objects[i].bytes)
    && (forall i :: 0 <= i < |plan.objects| && name == SidecarName(plan.objects[i].name) ==> bytes == SidecarBytes(sha, plan.objects[i]))
    && (name == plan.manifest ==> bytes in texts)
  }

  function SidecarBytes(sha: ShaFn, o: Object): seq<byte> {
    Utf8.Octets(SidecarText(sha(o.bytes), o.name))
  }

  ghost predicate Sound(files: Files, sha: ShaFn, plan: Plan, texts: iset<seq<byte>>) {
    forall n :: n in files ==> Okay(n, files[n], sha, plan, texts)
  }

  lemma TempOkay(name: string, bytes: seq<byte>, sha: ShaFn, plan: Plan, texts: iset<seq<byte>>)
    requires Apart(plan) && IsBakeTemp(name)
    ensures Okay(name, bytes, sha, plan, texts)
  {
    hide IsBakeTemp, SidecarName, SidecarText, Utf8.Octets;
    TempsEnd(name);
    forall i | 0 <= i < |plan.objects|
      ensures name != plan.objects[i].name && name != SidecarName(plan.objects[i].name)
    {
      SidecarEnds(plan.objects[i].name);
    }
  }

  /** Publishing acceptable bytes keeps every final name right, wherever it is cut off. */
  lemma PublishSound(files: Files, temp: string, name: string, bytes: seq<byte>, crash: Crash, sha: ShaFn, plan: Plan, texts: iset<seq<byte>>)
    requires Apart(plan) && Sound(files, sha, plan, texts) && IsBakeTemp(temp) && !IsBakeTemp(name) && Okay(name, bytes, sha, plan, texts)
    ensures Sound(Interrupted(files, Publish(temp, name, bytes), crash), sha, plan, texts)
  {
    hide IsBakeTemp, Okay, Apart;
    var ops := Publish(temp, name, bytes);
    if crash.budget >= 2 {
      Uninterrupted(files, ops, crash);
      Published(files, temp, name, bytes);
    } else {
      assert ops[1..] == [Rename(temp, name)];
      if crash.torn.Some? {
        TempOkay(temp, crash.torn.value, sha, plan, texts);
      }
      TempOkay(temp, bytes, sha, plan, texts);
    }
  }

  lemma ObjectOkay(sha: ShaFn, plan: Plan, texts: iset<seq<byte>>, i: nat)
    requires Apart(plan) && i < |plan.objects|
    ensures var o := plan.objects[i];
            && !IsBakeTemp(o.name) && Okay(o.name, o.bytes, sha, plan, texts)
            && !IsBakeTemp(SidecarName(o.name)) && Okay(SidecarName(o.name), SidecarBytes(sha, o), sha, plan, texts)
  {
    hide IsBakeTemp, SidecarName, SidecarText, Utf8.Octets, SidecarBytes;
    var o := plan.objects[i];
    if IsBakeTemp(o.name) {
      TempsEnd(o.name);
    }
    SidecarEnds(o.name);
    forall j | 0 <= j < |plan.objects|
      ensures o.name != SidecarName(plan.objects[j].name) && SidecarName(o.name) != plan.objects[j].name
      ensures SidecarName(o.name) == SidecarName(plan.objects[j].name) ==> i == j
    {
      SidecarEnds(plan.objects[j].name);
      SidecarInjective(o.name, plan.objects[j].name);
    }
  }

  lemma SidecarInjective(a: string, b: string)
    ensures SidecarName(a) == SidecarName(b) ==> a == b
  {
    if SidecarName(a) == SidecarName(b) {
      assert a == SidecarName(a)[..|a|] && b == SidecarName(b)[..|b|];
    }
  }

  // ---------------------------------------------------------------------------------------
  // The objects and the sidecars
  // ---------------------------------------------------------------------------------------

  /** The remaining objects of a plan. */
  ghost predicate Rest(plan: Plan, objects: seq<Object>) {
    |objects| <= |plan.objects| && objects == plan.objects[|plan.objects| - |objects|..]
  }

  lemma RestFirst(plan: Plan, objects: seq<Object>)
    requires Rest(plan, objects) && objects != []
    ensures |objects| <= |plan.objects| && objects[0] == plan.objects[|plan.objects| - |objects|] && Rest(plan, objects[1..])
  {
  }

  /** What happens to everything that is neither one of `names` nor a temporary: nothing. */
  ghost predicate Untouched(before: Files, after: Files, names: set<string>) {
    && (forall n :: n !in names && !IsBakeTemp(n) ==> (n in after <==> n in before) && (n in before ==> after[n] == before[n]))
    && (forall n :: n in after && IsBakeTemp(n) ==> n in before)
  }

  lemma UntouchedChain(a: Files, b: Files, c: Files, s: set<string>, t: set<string>, u: set<string>)
    requires Untouched(a, b, s) && Untouched(b, c, t) && s <= u && t <= u
    ensures Untouched(a, c, u)
  {
    hide IsBakeTemp;
  }

  lemma PublishedUntouched(files: Files, temp: string, name: string, bytes: seq<byte>)
    requires IsBakeTemp(temp) && !IsBakeTemp(name)
    ensures var after := ApplyAll(files, Publish(temp, name, bytes));
            name in after && after[name] == bytes && Untouched(files, after, {name})
  {
    hide IsBakeTemp, ApplyAll;
    Published(files, temp, name, bytes);
  }

  function Names(objects: seq<Object>): (r: set<string>)
    ensures forall i :: 0 <= i < |objects| ==> objects[i].name in r
  {
    if objects == [] then {} else {objects[0].name} + Names(objects[1..])
  }

  function SidecarNames(objects: seq<Object>): (r: set<string>)
    ensures forall i :: 0 <= i < |objects| ==> SidecarName(objects[i].name) in r
  {
    if objects == [] then {} else {SidecarName(objects[0].name)} + SidecarNames(objects[1..])
  }

  lemma {:induction false} InNames(objects: seq<Object>, n: string)
    requires n in Names(objects)
    ensures exists i :: 0 <= i < |objects| && objects[i].name == n
  {
    if n != objects[0].name {
      InNames(objects[1..], n);
      var i :| 0 <= i < |objects[1..]| && objects[1..][i].name == n;
      assert objects[i + 1].name == n;
    }
  }

  lemma {:induction false} InSidecarNames(objects: seq<Object>, n: string)
    requires n in SidecarNames(objects)
    ensures exists i :: 0 <= i < |objects| && SidecarName(objects[i].name) == n
  {
    hide SidecarName;
    if n != SidecarName(objects[0].name) {
      InSidecarNames(objects[1..], n);
      var i :| 0 <= i < |objects[1..]| && SidecarName(objects[1..][i].name) == n;
      assert SidecarName(objects[i + 1].name) == n;
    }
  }

  ghost predicate Present(files: Files, objects: seq<Object>) {
    forall i :: 0 <= i < |objects| ==> objects[i].name in files && files[objects[i].name] == objects[i].bytes
  }

  lemma PresentCons(files: Files, objects: seq<Object>)
    requires objects != [] && Present(files, objects[1..]) && objects[0].name in files && files[objects[0].name] == objects[0].bytes
    ensures Present(files, objects)
  {
    assert forall i :: 1 <= i < |objects| ==> objects[i] == objects[1..][i - 1];
  }

  lemma KeepsFirst(mid: Files, after: Files, names: set<string>, name: string)
    requires Untouched(mid, after, names) && name !in names && !IsBakeTemp(name) && name in mid
    ensures name in after && after[name] == mid[name]
  {
    hide IsBakeTemp;
  }

  /** The objects that are built are in place, and nothing else has changed. */
  lemma {:induction false} ObjectsBuilt(files: Files, plan: Plan, objects: seq<Object>, force: bool)
    requires Apart(plan) && Rest(plan, objects) && ObjectOps(files, objects, force).1 == None
    ensures var after := ApplyAll(files, ObjectOps(files, objects, force).0);
            Present(after, objects) && Untouched(files, after, Names(objects))
    decreases |objects|
  {
    if objects == [] {
      assert ObjectOps(files, objects, force).0 == [];
    } else {
      hide IsBakeTemp, ObjectTemp, Publish, SidecarName, ApplyAll, Present, Untouched, Apart, Rest;
      RestFirst(plan, objects);
      var o := objects[0];
      var at := |plan.objects| - |objects|;
      var first := Publish(ObjectTemp(o.name), o.name, o.bytes);
      var mid := ApplyAll(files, first);
      ObjectTempIs(o.name);
      ObjectNotTemp(plan, at);
      PublishedUntouched(files, ObjectTemp(o.name), o.name, o.bytes);
      var more := ObjectOps(mid, objects[1..], force).0;
      ObjectsBuilt(mid, plan, objects[1..], force);
      ApplyAppend(files, first, more);
      var after := ApplyAll(mid, more);
      UntouchedChain(files, mid, after, {o.name}, Names(objects[1..]), Names(objects));
      NotAgain(plan, objects);
      KeepsFirst(mid, after, Names(objects[1..]), o.name);
      PresentCons(after, objects);
    }
  }

  lemma ObjectNotTemp(plan: Plan, i: nat)
    requires Apart(plan) && i < |plan.objects|
    ensures !IsBakeTemp(plan.objects[i].name)
  {
    hide IsBakeTemp;
    if IsBakeTemp(plan.objects[i].name) {
      TempsEnd(plan.objects[i].name);
    }
  }

  lemma FirstDiffers(plan: Plan, objects: seq<Object>)
    requires Apart(plan) && Rest(plan, objects) && objects != []
    ensures forall i :: 0 <= i < |objects[1..]| ==> objects[1..][i].name != objects[0].name
  {
    var at := |plan.objects| - |objects|;
    assert plan.objects[at] == objects[0];
    forall i | 0 <= i < |objects[1..]|
      ensures objects[1..][i].name != objects[0].name
    {
      assert plan.objects[at + 1 + i] == objects[1..][i];
    }
  }

  lemma NotAgain(plan: Plan, objects: seq<Object>)
    requires Apart(plan) && Rest(plan, objects) && objects != []
    ensures objects[0].name !in Names(objects[1..])
  {
    FirstDiffers(plan, objects);
    if objects[0].name in Names(objects[1..]) {
      InNames(objects[1..], objects[0].name);
    }
  }

  /** Wherever building the objects is cut off, what is in place is right. */
  lemma {:induction false} ObjectsSound(files: Files, plan: Plan, objects: seq<Object>, force: bool, crash: Crash, sha: ShaFn, texts: iset<seq<byte>>)
    requires Apart(plan) && Rest(plan, objects) && Sound(files, sha, plan, texts)
    ensures Sound(Interrupted(files, ObjectOps(files, objects, force).0, crash), sha, plan, texts)
    decreases |objects|
  {
    hide IsBakeTemp, ObjectTemp, Publish, Okay, Sound, Interrupted, ApplyAll;
    if objects == [] || (objects[0].name in files && !force) {
      NoSteps(files, crash);
    } else {
      RestFirst(plan, objects);
      var o := objects[0];
      var first := Publish(ObjectTemp(o.name), o.name, o.bytes);
      var mid := ApplyAll(files, first);
      ObjectTempIs(o.name);
      ObjectOkay(sha, plan, texts, |plan.objects| - |objects|);
      PublishSound(files, ObjectTemp(o.name), o.name, o.bytes, crash, sha, plan, texts);
      PublishComplete(files, ObjectTemp(o.name), o.name, o.bytes, sha, plan, texts);
      var more := ObjectOps(mid, objects[1..], force).0;
      InterruptedAppend(files, first, more, crash);
      if crash.budget >= |first| {
        ObjectsSound(mid, plan, objects[1..], force, crash.(budget := crash.budget - |first|), sha, texts);
      }
    }
  }

  lemma NoSteps(files: Files, crash: Crash)
    ensures Interrupted(files, [], crash) == files == ApplyAll(files, [])
  {
  }

  lemma PublishComplete(files: Files, temp: string, name: string, bytes: seq<byte>, sha: ShaFn, plan: Plan, texts: iset<seq<byte>>)
    requires Apart(plan) && Sound(files, sha, plan, texts) && IsBakeTemp(temp) && !IsBakeTemp(name) && Okay(name, bytes, sha, plan, texts)
    ensures Sound(ApplyAll(files, Publish(temp, name, bytes)), sha, plan, texts)
  {
    hide IsBakeTemp, Okay, Apart, Sound, Interrupted, ApplyAll;
    var crash := Crash(2, None, {});
    PublishSound(files, temp, name, bytes, crash, sha, plan, texts);
    Uninterrupted(files, Publish(temp, name, bytes), crash);
  }

  ghost predicate SidecarsPresent(files: Files, sha: ShaFn, objects: seq<Object>) {
    forall i :: 0 <= i < |objects| ==>
      SidecarName(objects[i].name) in files && files[SidecarName(objects[i].name)] == SidecarBytes(sha, objects[i])
  }

  lemma SidecarsCons(files: Files, sha: ShaFn, objects: seq<Object>)
    requires objects != [] && SidecarsPresent(files, sha, objects[1..])
    requires SidecarName(objects[0].name) in files && files[SidecarName(objects[0].name)] == SidecarBytes(sha, objects[0])
    ensures SidecarsPresent(files, sha, objects)
  {
    hide SidecarName, SidecarBytes;
    assert forall i :: 1 <= i < |objects| ==> objects[i] == objects[1..][i - 1];
  }

  /** The sidecars over objects in place are in place, and nothing else has changed. */
  lemma {:induction false} SidecarsBuilt(files: Files, plan: Plan, objects: seq<Object>, sha: ShaFn)
    requires Apart(plan) && Rest(plan, objects) && Present(files, plan.objects)
    ensures var after := ApplyAll(files, SidecarOps(sha, files, objects));
            SidecarsPresent(after, sha, objects) && Untouched(files, after, SidecarNames(objects))
    decreases |objects|
  {
    if objects == [] {
      assert SidecarOps(sha, files, objects) == [];
    } else {
      hide IsBakeTemp, SidecarTemp, Publish, SidecarName, SidecarText, Utf8.Octets, ApplyAll, Untouched, Apart, Rest, SidecarsPresent;
      RestFirst(plan, objects);
      var o := objects[0];
      var name, bytes := SidecarName(o.name), SidecarBytes(sha, o);
      var first := Publish(SidecarTemp(o.name), name, bytes);
      var mid := ApplyAll(files, first);
      SidecarTempIs(o.name);
      SidecarEnds(o.name);
      PublishedUntouched(files, SidecarTemp(o.name), name, bytes);
      StillPresent(files, mid, plan, {name}, o.name);
      SidecarsBuilt(mid, plan, objects[1..], sha);
      var more := SidecarOps(sha, mid, objects[1..]);
      ApplyAppend(files, first, more);
      var after := ApplyAll(mid, more);
      UntouchedChain(files, mid, after, {name}, SidecarNames(objects[1..]), SidecarNames(objects));
      SidecarNotAgain(plan, objects);
      KeepsFirst(mid, after, SidecarNames(objects[1..]), name);
      SidecarsCons(after, sha, objects);
    }
  }

  lemma StillPresent(before: Files, after: Files, plan: Plan, names: set<string>, obj: string)
    requires Apart(plan) && Present(before, plan.objects) && Untouched(before, after, names) && names == {SidecarName(obj)}
    ensures Present(after, plan.objects)
  {
    hide IsBakeTemp, SidecarName;
    SidecarEnds(obj);
    forall i | 0 <= i < |plan.objects|
      ensures plan.objects[i].name in after && after[plan.objects[i].name] == plan.objects[i].bytes
    {
      ObjectNotTemp(plan, i);
    }
  }

  lemma SidecarNotAgain(plan: Plan, objects: seq<Object>)
    requires Apart(plan) && Rest(plan, objects) && objects != []
    ensures SidecarName(objects[0].name) !in SidecarNames(objects[1..])
  {
    hide SidecarName;
    FirstDiffers(plan, objects);
    forall i | 0 <= i < |objects[1..]|
      ensures SidecarName(objects[1..][i].name) != SidecarName(objects[0].name)
    {
      SidecarInjective(objects[1..][i].name, objects[0].name);
    }
    if SidecarName(objects[0].name) in SidecarNames(objects[1..]) {
      InSidecarNames(objects[1..], SidecarName(objects[0].name));
    }
  }

  lemma {:induction false} SidecarsSound(files: Files, plan: Plan, objects: seq<Object>, crash: Crash, sha: ShaFn, texts: iset<seq<byte>>)
    requires Apart(plan) && Rest(plan, objects) && Present(files, plan.objects) && Sound(files, sha, plan, texts)
    ensures Sound(Interrupted(files, SidecarOps(sha, files, objects), crash), sha, plan, texts)
    decreases |objects|
  {
    hide IsBakeTemp, SidecarTemp, Publish, Okay, Sound, Interrupted, ApplyAll, SidecarName, SidecarText, Utf8.Octets;
    if objects == [] {
      NoSteps(files, crash);
    } else {
      RestFirst(plan, objects);
      var o := objects[0];
      var name, bytes := SidecarName(o.name), SidecarBytes(sha, o);
      var first := Publish(SidecarTemp(o.name), name, bytes);
      var mid := ApplyAll(files, first);
      SidecarTempIs(o.name);
      ObjectOkay(sha, plan, texts, |plan.objects| - |objects|);
      PublishSound(files, SidecarTemp(o.name), name, bytes, crash, sha, plan, texts);
      PublishComplete(files, SidecarTemp(o.name), name, bytes, sha, plan, texts);
      PublishedUntouched(files, SidecarTemp(o.name), name, bytes);
      StillPresent(files, mid, plan, {name}, o.name);
      var more := SidecarOps(sha, mid, objects[1..]);
      InterruptedAppend(files, first, more, crash);
      if crash.budget >= |first| {
        SidecarsSound(mid, plan, objects[1..], crash.(budget := crash.budget - |first|), sha, texts);
      }
    }
  }
}
