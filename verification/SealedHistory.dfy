/** The history and the scope together (tool/src/ascmhl.rs): what a completed run sealed is what
    a later verification selects, reads and finds unchanged. */
module SealedHistory {
  import opened Seal
  import opened SealSoundness
  import opened Manifest
  import opened ScopeOnDisk
  import opened VerifyExactly
  import opened WriteThenVerify
  import opened Chain
  import opened History
  import opened HistoryRuns

  /** After any runs and crashes, if the last completed run recorded a scope that has not changed
      since but for its history folder and its times, then the manifest that is selected reads
      back, and verifying the scope against it passes in every row and both roots. */
  lemma HistoryVerifies(h: HashFn, states: seq<Store>, gens: seq<nat>, runs: seq<Run>, k: nat,
                        mtime: nat, kids: seq<Kid>, hostname: string, toolVersion: string, mtime': nat, kids': seq<Kid>)
    requires Execution(h, states, gens, runs) && k < |runs| < U32_LIMIT
    requires runs[k].outcome.Completed? && forall i :: k < i < |runs| ==> !runs[i].outcome.Completed?
    requires runs[k].xml == ManifestText(ScopeManifest(h, runs[k].folder, mtime, kids, runs[k].created, hostname, toolVersion))
    requires Sealable(h, runs[k].folder, mtime, kids, runs[k].created, hostname, toolVersion) && CanonicalKids(kids')
    requires SameKids(WithoutName(kids, "ascmhl"), WithoutName(kids', "ascmhl"))
    ensures var files := states[|runs|].files;
            var selected := SelectManifest(h, files);
            && selected.Ok? && selected.value in files
            && ParseHashlist(files[selected.value]).Ok?
            && PassesAll(h, ParseHashlist(files[selected.value]).value, runs[k].folder, mtime', kids')
  {
    hide StepOf, Sealable, SelectManifest, ScopeManifest, ManifestText, ParseHashlist, PassesAll, CanonicalKids, SameKids, WithoutName, ManifestName;
    LastCompletedSelected(h, states, gens, runs, k);
    WriteThenVerify.WriteThenVerify(h, runs[k].folder, mtime, kids, runs[k].created, hostname, toolVersion, mtime', kids');
  }
}
