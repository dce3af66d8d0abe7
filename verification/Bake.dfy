/** The resumable bake of one clip (tool/src/bake.rs): the archive objects, the manifest and the
    object sidecars, each written to a hidden temporary and renamed, and the completion check
    that lets a resumed run skip. The archive builder and SHA-256 are parameters. */
module Bake {
  import opened Prelude
  import opened Xml
  import opened TextLines
  import opened Numerals
  import Partition
  import Utf8

  type Files = map<string, seq<byte>>

  predicate IsLowerHex(c: char) {
    '0' <= c <= '9' || 'a' <= c <= 'f'
  }

  /** A SHA-256 digest in lower-case hexadecimal. */
  type Hex = s: string | |s| == 64 && forall i :: 0 <= i < 64 ==> IsLowerHex(s[i]) witness seq(64, _ => '0')

  type ShaFn = seq<byte> -> Hex

  // ---------------------------------------------------------------------------------------
  // The job and its parts
  // ---------------------------------------------------------------------------------------

  datatype Member = Member(rel: string, data: seq<byte>, mtime: nat, mode: nat)

  /** The container's bytes, from the compression level and the members in order. */
  type ArchiveFn = (Option<nat>, seq<Member>) -> seq<byte>

  datatype Versions = Versions(tool: string, tar: string, zstd: string, host: string)

  datatype Job = Job(clip: string, codec: string, level: Option<nat>, members: seq<Member>, split: Option<(nat, nat)>, versions: Versions)

  function Container(job: Job): string {
    if job.level.Some? then "tar.zst" else "tar"
  }

  function Sizes(members: seq<Member>): (r: seq<nat>)
    ensures |r| == |members| && forall i :: 0 <= i < |r| ==> r[i] == |members[i].data|
  {
    if members == [] then [] else [|members[0].data|] + Sizes(members[1..])
  }

  function Sum(sizes: seq<nat>): nat {
    if sizes == [] then 0 else sizes[0] + Sum(sizes[1..])
  }

  function FirstAbove(sizes: seq<nat>, max: nat, i: nat): (r: Option<nat>)
    requires i <= |sizes|
    ensures r.Some? ==> i <= r.value < |sizes| && sizes[r.value] > max && forall j :: i <= j < r.value ==> sizes[j] <= max
    ensures r.None? ==> forall j :: i <= j < |sizes| ==> sizes[j] <= max
    decreases |sizes| - i
  {
    if i == |sizes| then None else if sizes[i] > max then Some(i) else FirstAbove(sizes, max, i + 1)
  }

  /** One part, unless a split is asked for and the raw bytes exceed its target. */
  function PartsOf(job: Job): Result<seq<Partition.Part>, Partition.PartitionError> {
    var sizes := Sizes(job.members);
    var n := |sizes|;
    match job.split
    case None => Ok([Partition.Indices(0, n)])
    case Some((target, max)) =>
      if Sum(sizes) <= target then Ok([Partition.Indices(0, n)])
      else
        match FirstAbove(sizes, max, 0)
        case Some(i) => Err(Partition.MemberTooLarge(i))
        case None => Ok(Partition.Split(sizes, target, n))
  }

  function Pick(members: seq<Member>, part: Partition.Part): seq<Member> {
    if part == [] then []
    else (if part[0] < |members| then [members[part[0]]] else []) + Pick(members, part[1..])
  }

  /** An archive object: its file name and its bytes. */
  datatype Object = Object(name: string, bytes: seq<byte>)

  function ObjectName(job: Job, parts: nat, i: nat): string {
    if parts > 1 then job.clip + ".part" + Padded(10, 2, i + 1) + "." + Container(job) else job.clip + "." + Container(job)
  }

  function ObjectsFrom(job: Job, archive: ArchiveFn, parts: seq<Partition.Part>, i: nat): (r: seq<Object>)
    requires i <= |parts|
    ensures |r| == |parts| - i
    ensures forall k :: 0 <= k < |r| ==> r[k].name == ObjectName(job, |parts|, i + k)
    decreases |parts| - i
  {
    hide ObjectName;
    if i == |parts| then []
    else [Object(ObjectName(job, |parts|, i), archive(job.level, Pick(job.members, parts[i])))] + ObjectsFrom(job, archive, parts, i + 1)
  }

  // ---------------------------------------------------------------------------------------
  // Names and texts
  // ---------------------------------------------------------------------------------------

  function ManifestName(job: Job): string {
    job.clip + ".bake-manifest.tsv"
  }

  function SidecarName(obj: string): string {
    obj + ".sha256"
  }

  function ObjectTemp(obj: string): string {
    "." + obj + ".bake-tmp"
  }

  function ManifestTemp(job: Job): string {
    "." + job.clip + ".bake-manifest.tsv.tmp"
  }

  function SidecarTemp(obj: string): string {
    "." + obj + ".sha256.tmp"
  }

  predicate EndsWith(s: string, suffix: string) {
    |s| >= |suffix| && s[|s| - |suffix|..] == suffix
  }

  /** The leftovers of an interrupted run. */
  predicate IsBakeTemp(name: string) {
    || EndsWith(name, ".bake-tmp")
    || ("." <= name && (EndsWith(name, ".bake-manifest.tsv.tmp") || EndsWith(name, ".sha256.tmp") || EndsWith(name, ".reel-manifest.tsv.tmp")))
  }

  function JoinNames(objects: seq<Object>): string {
    if objects == [] then ""
    else if |objects| == 1 then objects[0].name
    else objects[0].name + ", " + JoinNames(objects[1..])
  }

  function RowsText(sha: ShaFn, members: seq<Member>): string {
    if members == [] then ""
    else members[0].rel + "\t" + Dec(|members[0].data|) + "\t" + sha(members[0].data) + "\n" + RowsText(sha, members[1..])
  }

  /** The header lines before the file count. */
  function ManifestHead(job: Job, created: nat): seq<string> {
    ["# frameprism bake manifest", "clip: " + job.clip, "created: " + Dec(created) + " (unix seconds, UTC)",
     "tool_version: " + job.versions.tool, "codec: " + job.codec, "container: " + Container(job),
     "zstd_level: " + (if job.level.Some? then Dec(job.level.value) else "none")]
  }

  /** What follows the file count; the archives are listed only when there are several. */
  function ManifestTail(job: Job, sha: ShaFn, objects: seq<Object>): string {
    var archives := if |objects| > 1 then ["archive: " + JoinNames(objects)] else [];
    LinesText(archives + ["tar_version: " + job.versions.tar, "zstd_version: " + job.versions.zstd,
                          "host: " + job.versions.host, "relpath\tsize\tsha256"],
              RowsText(sha, job.members))
  }

  function LinesText(lines: seq<string>, rest: string): string {
    if lines == [] then rest else lines[0] + "\n" + LinesText(lines[1..], rest)
  }

  function ManifestText(job: Job, sha: ShaFn, objects: seq<Object>, created: nat): string {
    LinesText(ManifestHead(job, created), "file_count: " + Dec(|job.members|) + "\n" + ManifestTail(job, sha, objects))
  }

  function SidecarText(sha: Hex, obj: string): string {
    sha + "  " + obj + "\n"
  }

  /** Everything a run writes. */
  datatype Plan = Plan(objects: seq<Object>, manifest: string, manifestTemp: string, manifestBytes: seq<byte>, rows: nat)

  function PlanOf(job: Job, archive: ArchiveFn, sha: ShaFn, created: nat): Result<Plan, Partition.PartitionError> {
    var parts :- PartsOf(job);
    var objects := ObjectsFrom(job, archive, parts, 0);
    Ok(Plan(objects, ManifestName(job), ManifestTemp(job), Utf8.Octets(ManifestText(job, sha, objects, created)), |job.members|))
  }

  // ---------------------------------------------------------------------------------------
  // The completion check
  // ---------------------------------------------------------------------------------------

  datatype Incomplete =
    | NoObject | NoSidecar | NoManifest | SidecarUnreadable | SidecarEmpty | BadShaField | ShaDiffers
    | ManifestUnreadable | NoFileCount | OtherFileCount(n: nat)

  function FirstNonBlank(lines: seq<string>): Option<string> {
    if lines == [] then None else if Trim(lines[0]) != "" then Some(lines[0]) else FirstNonBlank(lines[1..])
  }

  predicate IsHexDigit(c: char) {
    '0' <= c <= '9' || 'a' <= c <= 'f' || 'A' <= c <= 'F'
  }

  function LowerCase(s: string): (r: string)
    ensures |r| == |s| && forall i :: 0 <= i < |s| ==> r[i] == if 'A' <= s[i] <= 'Z' then s[i] - 'A' + 'a' else s[i]
  {
    seq(|s|, i requires 0 <= i < |s| => if 'A' <= s[i] <= 'Z' then s[i] - 'A' + 'a' else s[i])
  }

  /** Does the object have the digest its sidecar records? */
  function VerifyObjectSidecar(sha: ShaFn, obj: seq<byte>, sidecar: seq<byte>): Result<bool, Incomplete> {
    match Utf8.Text(sidecar)
    case None => Err(SidecarUnreadable)
    case Some(text) =>
      match FirstNonBlank(LinesOf(text))
      case None => Err(SidecarEmpty)
      case Some(line) =>
        var field := Trim(line[..Find(line, "  ")]);
        if |field| != 64 || exists i :: 0 <= i < |field| && !IsHexDigit(field[i]) then Err(BadShaField)
        else Ok(sha(obj) == LowerCase(field))
  }

  function TrimPrefix(s: string, prefix: string): string
    requires prefix != ""
  {
    if prefix <= s then TrimPrefix(s[|prefix|..], prefix) else s
  }

  const COUNT_KEY := "file_count:"

  /** The file count of the first line that announces one. */
  function FileCount(lines: seq<string>): Option<nat> {
    if lines == [] then None
    else if COUNT_KEY <= lines[0] then ParseUnsigned(10, 0x1_0000_0000_0000_0000, Trim(TrimPrefix(lines[0], COUNT_KEY)))
    else FileCount(lines[1..])
  }

  function Completion(sha: ShaFn, files: Files, obj: string, manifest: string, rows: nat): Result<(), Incomplete> {
    var sidecar := SidecarName(obj);
    if obj !in files then Err(NoObject)
    else if sidecar !in files then Err(NoSidecar)
    else if manifest !in files then Err(NoManifest)
    else
      var same :- VerifyObjectSidecar(sha, files[obj], files[sidecar]);
      if !same then Err(ShaDiffers)
      else
        match Utf8.Text(files[manifest])
        case None => Err(ManifestUnreadable)
        case Some(text) =>
          match FileCount(LinesOf(text))
          case None => Err(NoFileCount)
          case Some(n) => if n == rows then Ok(()) else Err(OtherFileCount(n))
  }

  // ---------------------------------------------------------------------------------------
  // The steps of a run, and where it can be cut off
  // ---------------------------------------------------------------------------------------

  datatype Op = Write(name: string, bytes: seq<byte>) | Rename(from: string, to: string) | RemoveAll(names: set<string>)

  function Apply(files: Files, op: Op): Files {
    match op
    case Write(name, bytes) => files[name := bytes]
    case Rename(from, to) => if from in files then (files - {from})[to := files[from]] else files
    case RemoveAll(names) => files - names
  }

  function ApplyAll(files: Files, ops: seq<Op>): Files
    decreases |ops|
  {
    if ops == [] then files else ApplyAll(Apply(files, ops[0]), ops[1..])
  }

  /** Being cut off after `budget` steps: the next write leaves nothing or any bytes, the next
      removal has removed some of its files, a rename has not happened. */
  datatype Crash = Crash(budget: nat, torn: Option<seq<byte>>, gone: set<string>)

  function Torn(files: Files, op: Op, crash: Crash): Files {
    match op
    case Write(name, _) => if crash.torn.Some? then files[name := crash.torn.value] else files
    case Rename(_, _) => files
    case RemoveAll(names) => files - (names * crash.gone)
  }

  function Interrupted(files: Files, ops: seq<Op>, crash: Crash): Files
    decreases |ops|
  {
    if ops == [] then files
    else if crash.budget == 0 then Torn(files, ops[0], crash)
    else Interrupted(Apply(files, ops[0]), ops[1..], crash.(budget := crash.budget - 1))
  }

  /** To a hidden temporary, then into place. */
  function Publish(temp: string, name: string, bytes: seq<byte>): seq<Op> {
    [Write(temp, bytes), Rename(temp, name)]
  }

  datatype Outcome = Skipped | Baked | Refused(name: string)

  /** The archive objects in order, up to one that exists and may not be overwritten. */
  function ObjectOps(files: Files, objects: seq<Object>, force: bool): (seq<Op>, Option<string>)
    decreases |objects|
  {
    if objects == [] then ([], None)
    else if objects[0].name in files && !force then ([], Some(objects[0].name))
    else
      var first := Publish(ObjectTemp(objects[0].name), objects[0].name, objects[0].bytes);
      var (more, refused) := ObjectOps(ApplyAll(files, first), objects[1..], force);
      (first + more, refused)
  }

  /** The sidecars, over the objects as they stand on disk. */
  function SidecarOps(sha: ShaFn, files: Files, objects: seq<Object>): seq<Op>
    decreases |objects|
  {
    if objects == [] then []
    else
      var name := objects[0].name;
      var digest := sha(if name in files then files[name] else []);
      var first := Publish(SidecarTemp(name), SidecarName(name), Utf8.Octets(SidecarText(digest, name)));
      first + SidecarOps(sha, ApplyAll(files, first), objects[1..])
  }

  function Temps(files: Files): set<string> {
    set n | n in files && IsBakeTemp(n)
  }

  function Stale(objects: seq<Object>): set<string> {
    if objects == [] then {} else {objects[0].name, SidecarName(objects[0].name)} + Stale(objects[1..])
  }

  /** Building: the given objects, then the manifest, then all sidecars. */
  function BuildFrom(sha: ShaFn, files: Files, plan: Plan, objects: seq<Object>, force: bool): (seq<Op>, Outcome) {
    var (objectOps, refused) := ObjectOps(files, objects, force);
    match refused
    case Some(name) => (objectOps, Refused(name))
    case None =>
      var manifestOps := Publish(plan.manifestTemp, plan.manifest, plan.manifestBytes);
      var s := ApplyAll(ApplyAll(files, objectOps), manifestOps);
      (objectOps + (manifestOps + SidecarOps(sha, s, plan.objects)), Baked)
  }

  function BuildOps(sha: ShaFn, files: Files, plan: Plan, force: bool): (seq<Op>, Outcome) {
    BuildFrom(sha, files, plan, plan.objects, force)
  }

  /** The steps of a run from `files`. A resumed run clears the leftovers, skips if the single
      archive is verified complete, and otherwise removes the objects and sidecars first. */
  function Script(sha: ShaFn, files: Files, plan: Plan, resume: bool, force: bool): (seq<Op>, Outcome) {
    if !resume then BuildOps(sha, files, plan, force)
    else
      var cleaning := RemoveAll(Temps(files));
      var s := Apply(files, cleaning);
      if |plan.objects| == 1 && Completion(sha, s, plan.objects[0].name, plan.manifest, plan.rows).Ok? then ([cleaning], Skipped)
      else
        var removing := RemoveAll(Stale(plan.objects));
        var (ops, outcome) := BuildOps(sha, Apply(s, removing), plan, force);
        ([cleaning, removing] + ops, outcome)
  }
}
