/** What every run of the history writer keeps, over any sequence of runs and crashes
    (tool/src/ascmhl.rs). */
module HistoryRuns {
  import opened Prelude
  import opened Positional
  import opened Numerals
  import opened Xml
  import opened TextLines
  import opened C4Id
  import opened Seal
  import opened Manifest
  import opened ManifestRoundTrip
  import opened Chain
  import opened History
  import Utf8

  // ---------------------------------------------------------------------------------------
  // The invariant
  // ---------------------------------------------------------------------------------------

  /** The chain is the text of `rs`; the records ascend strictly, and each names a manifest of
      its number whose bytes have the recorded identifier. */
  ghost predicate Inv(h: HashFn, s: Store, rs: seq<Record>) {
    && (s.present || s.files == map[])
    && (if rs == [] then CHAIN_NAME !in s.files else CHAIN_NAME in s.files && s.files[CHAIN_NAME] == ChainText(rs))
    && (forall i :: 0 <= i < |rs| ==> Recorded(h, s.files, rs[i]))
    && (forall i, j :: 0 <= i < j < |rs| ==> rs[i].nr < rs[j].nr)
  }

  ghost predicate Recorded(h: HashFn, files: map<string, string>, r: Record) {
    && RecordOk(r) && NamedBy(r.name, r.nr)
    && r.name in files && r.c4 == C4(h, Utf8.Octets(files[r.name]))
  }

  /** A manifest's name of generation `g`, for some folder and time. */
  ghost predicate NamedBy(name: string, g: nat) {
    exists folder: string, created: nat :: name == ManifestName(folder, created, g)
  }

  // ---------------------------------------------------------------------------------------
  // Names
  // ---------------------------------------------------------------------------------------

  /** What a manifest's name carries besides its number: the folder and the stamp. */
  function Label(folder: string, created: nat): string {
    folder + "_" + UtcFilenameStamp(created)
  }

  /** The parts of a manifest's name. */
  lemma NameParts(folder: string, created: nat, g: nat)
    ensures var name, p := ManifestName(folder, created, g), Padded(10, 4, g);
            && name == p + "_" + Label(folder, created) + MHL
            && |name| > |p| + 4 && name[..|p|] == p && name[|p|] == '_' && HasSuffix(name, MHL) && name != CHAIN_NAME
  {
    hide Padded, UtcFilenameStamp;
    var name, p := ManifestName(folder, created, g), Padded(10, 4, g);
    assert name == p + "_" + Label(folder, created) + MHL;
    assert name[..|p|] == p;
    assert name[|name| - 4..] == MHL;
    assert name[|name| - 4..][2] == 'h' && CHAIN_NAME[|CHAIN_NAME| - 2] == 'm';
  }

  /** A name belongs to one number and one label: the underscore ends the number. */
  lemma NameDetermines(folder: string, created: nat, g: nat, folder': string, created': nat, g': nat)
    ensures ManifestName(folder, created, g) == ManifestName(folder', created', g')
            <==> g == g' && Label(folder, created) == Label(folder', created')
  {
    hide Padded, Label, ManifestName, Value;
    var name, p := ManifestName(folder, created, g), Padded(10, 4, g);
    var name', p' := ManifestName(folder', created', g'), Padded(10, 4, g');
    NameParts(folder, created, g);
    NameParts(folder', created', g');
    if name == name' {
      NumberEnds(name, p, p', g, g');
      PaddedValue(10, 4, g);
      PaddedValue(10, 4, g');
      assert name[|p| + 1..|name| - 4] == Label(folder, created);
      assert name[|p| + 1..|name| - 4] == Label(folder', created');
    }
  }

  lemma NumberEnds(name: string, p: string, p': string, g: nat, g': nat)
    requires p == Padded(10, 4, g) && p' == Padded(10, 4, g')
    requires |p| < |name| && name[..|p|] == p && name[|p|] == '_'
    requires |p'| < |name| && name[..|p'|] == p' && name[|p'|] == '_'
    ensures p == p'
  {
    hide Padded;
    PaddedDigits(4, g);
    PaddedDigits(4, g');
    forall i | 0 <= i < |p|
      ensures name[i] != '_'
    {
      assert name[i] == p[i] && p[i] in p;
    }
    forall i | 0 <= i < |p'|
      ensures name[i] != '_'
    {
      assert name[i] == p'[i] && p'[i] in p';
    }
  }

  /** A name that numbers a record is neither the chain's nor blank. */
  lemma NameUsable(folder: string, created: nat, g: nat)
    ensures ManifestName(folder, created, g) != CHAIN_NAME && Trim(ManifestName(folder, created, g)) != ""
  {
    hide Padded, Trim, ManifestName, HasSuffix, Label;
    PaddedDigits(4, g);
    NameParts(folder, created, g);
    var p := Padded(10, 4, g);
    var name := ManifestName(folder, created, g);
    assert name[0] == p[0] && p[0] in p;
    NotBlank(name, 0);
  }

  /** Up to 9999 the number is read back from the name. */
  lemma NumberedName(folder: string, created: nat, g: nat)
    requires g <= 9999
    ensures GenerationOf(ManifestName(folder, created, g)) == Some(g)
  {
    TenThousand();
    hide Pow, Padded, Value, ManifestName, HasSuffix, Label;
    PaddedWidth(4, g);
    PaddedValue(10, 4, g);
    NameParts(folder, created, g);
  }

  lemma TenThousand()
    ensures Pow(10, 4) == 10000
  {
  }

  lemma {:induction false} FourDigits(name: string)
    ensures GenerationOf(name).Some? ==> GenerationOf(name).value <= 9999
  {
    if GenerationOf(name).Some? {
      var digits := CharDigits(name[..4]);
      ValueBound(10, digits);
      assert Pow(10, 4) == 10000;
    }
  }

  lemma ChainIsNoManifest()
    ensures GenerationOf(CHAIN_NAME) == None
  {
    assert CHAIN_NAME[|CHAIN_NAME| - 3] == 'x';
    assert MHL[1] == 'm';
  }

  lemma C4NotBlank(h: HashFn, data: seq<byte>)
    ensures Trim(C4(h, data)) != ""
  {
    hide Encode, Trim;
    EncodeWellFormed(h(data));
    CheckC4Accepts(C4(h, data));
  }

  // ---------------------------------------------------------------------------------------
  // The number a run takes
  // ---------------------------------------------------------------------------------------

  lemma KnownUnderInv(h: HashFn, s: Store, rs: seq<Record>)
    requires Inv(h, s, rs)
    ensures KnownRecords(s) == rs
  {
    hide ChainText, ReadChain, RecordOk;
    if rs != [] {
      ChainReadsBack(rs);
    }
  }

  lemma {:induction false} MaxNrBound(rs: seq<Record>, m: nat)
    requires forall i :: 0 <= i < |rs| ==> rs[i].nr <= m
    ensures MaxNr(rs) <= m
    ensures forall i :: 0 <= i < |rs| ==> rs[i].nr <= MaxNr(rs)
  {
    if rs != [] {
      MaxNrBound(rs[1..], m);
      assert forall i :: 0 < i < |rs| ==> rs[i] == rs[1..][i - 1];
    }
  }

  /** A directory has one next number. */
  lemma NextNumberUnique(s: Store, g: nat, g': nat)
    requires Numbered(s, g) && Numbered(s, g')
    ensures g == g'
  {
    hide IsFloor;
    if s.present {
      var m: nat :| IsFloor(s, m) && g == (m + 1) % U32_LIMIT;
      var m': nat :| IsFloor(s, m') && g' == (m' + 1) % U32_LIMIT;
      FloorUnique(s, m, m');
    }
  }

  /** Unless the number wrapped to 0, it is one above the floor, and the floor is below it. */
  lemma NumberAboveFloor(h: HashFn, s: Store, rs: seq<Record>, g: nat)
    requires Inv(h, s, rs) && Numbered(s, g) && g != 0
    ensures IsFloor(s, g - 1) && g < U32_LIMIT
    ensures forall i :: 0 <= i < |rs| ==> rs[i].nr < g
    ensures forall n :: n in s.files && GenerationOf(n).Some? ==> GenerationOf(n).value < g
  {
    hide GenerationOf, ReadChain, ChainText, MaxNr, KnownRecords, Trim, NamedBy;
    KnownUnderInv(h, s, rs);
    forall i | 0 <= i < |rs|
      ensures rs[i].nr <= U32_LIMIT - 1
    {
      assert Recorded(h, s.files, rs[i]);
    }
    MaxNrBound(rs, U32_LIMIT - 1);
    if s.present {
      var k: nat :| IsFloor(s, k) && g == (k + 1) % U32_LIMIT;
      if exists n :: n in s.files && GenerationOf(n) == Some(k) {
        var n :| n in s.files && GenerationOf(n) == Some(k);
        FourDigits(n);
      }
      assert k < U32_LIMIT;
    } else {
      NoRecordsNoNumber();
    }
  }

  lemma NoRecordsNoNumber()
    ensures MaxNr([]) == 0
  {
  }

  /** The record a completed run appends. */
  function NewRecord(h: HashFn, g: nat, folder: string, created: nat, xml: string): Record {
    Record(g, ManifestName(folder, created, g), C4(h, Utf8.Octets(xml)))
  }

  function After(h: HashFn, rs: seq<Record>, g: nat, folder: string, created: nat, xml: string, outcome: Outcome): seq<Record> {
    if outcome.Completed? then rs + [NewRecord(h, g, folder, created, xml)] else rs
  }

  // ---------------------------------------------------------------------------------------
  // One run
  // ---------------------------------------------------------------------------------------

  /** The run got as far as its manifest. */
  predicate Wrote(outcome: Outcome) {
    !outcome.CrashedBeforeManifest?
  }

  /** What a run numbered `g` does to the files: it writes its own, leaves every chained manifest
      and every other file alone, and only lengthens the chain in front of its closing tag. A
      file of its name can have been there only past generation 9999. */
  ghost predicate RunLeaves(s: Store, s': Store, rs: seq<Record>, g: nat, name: string, xml: string, outcome: Outcome) {
    && name != CHAIN_NAME
    && (if Wrote(outcome) then name in s'.files && s'.files[name] == xml else s' == Store(true, s.files))
    && (g <= 9999 ==> name !in s.files)
    && (forall i :: 0 <= i < |rs| ==> rs[i].nr < g && rs[i].name != name && rs[i].name != CHAIN_NAME)
    && (forall n :: n in s.files && n != CHAIN_NAME && n != name ==> n in s'.files && s'.files[n] == s.files[n])
    && (forall n :: n in s'.files ==> n in s.files || n == name || n == CHAIN_NAME)
    && (CHAIN_NAME in s.files ==> CHAIN_NAME in s'.files && ChainLengthens(s.files[CHAIN_NAME], s'.files[CHAIN_NAME]))
  }

  /** A run keeps the invariant whether or not it crashes; it succeeds, under a number above every
      chained one. */
  lemma RunKeepsInv(h: HashFn, s: Store, rs: seq<Record>, g: nat, folder: string, created: nat, xml: string, outcome: Outcome)
    requires Inv(h, s, rs) && Numbered(s, g) && g != 0
    ensures var (s', r) := WriteSteps(h, s, g, folder, created, xml, outcome);
            var name := ManifestName(folder, created, g);
            && Inv(h, s', After(h, rs, g, folder, created, xml, outcome))
            && r == Ok(name) && RunLeaves(s, s', rs, g, name, xml, outcome)
  {
    hide Inv, RunLeaves, WriteSteps, After, ManifestName, GenerationOf, StoreAfter;
    NumberAboveFloor(h, s, rs, g);
    NameUsable(folder, created, g);
    if g <= 9999 {
      NumberedName(folder, created, g);
    }
    StepsUnderInv(h, s, rs, g, folder, created, xml, outcome);
    ChainedApart(h, s, rs, g, folder, created);
    InvAfter(h, s, rs, g, folder, created, xml, outcome);
    LeavesAfter(h, s, rs, g, folder, created, xml, outcome);
  }

  lemma ChainedApart(h: HashFn, s: Store, rs: seq<Record>, g: nat, folder: string, created: nat)
    requires Inv(h, s, rs) && forall i :: 0 <= i < |rs| ==> rs[i].nr < g
    ensures forall i :: 0 <= i < |rs| ==> rs[i].name != ManifestName(folder, created, g) && rs[i].name != CHAIN_NAME
  {
    hide ChainText, RecordOk, C4, Utf8.Octets, ManifestName, NamedBy;
    forall i | 0 <= i < |rs|
      ensures rs[i].name != ManifestName(folder, created, g) && rs[i].name != CHAIN_NAME
    {
      assert Recorded(h, s.files, rs[i]);
      OtherNumberOtherName(rs[i].name, rs[i].nr, folder, created, g);
    }
  }

  lemma InvAfter(h: HashFn, s: Store, rs: seq<Record>, g: nat, folder: string, created: nat, xml: string, outcome: Outcome)
    requires Inv(h, s, rs) && g < U32_LIMIT && ManifestName(folder, created, g) != CHAIN_NAME
    requires forall i :: 0 <= i < |rs| ==>
               rs[i].nr < g && rs[i].name != ManifestName(folder, created, g) && rs[i].name != CHAIN_NAME
    ensures var rs' := After(h, rs, g, folder, created, xml, outcome);
            Inv(h, StoreAfter(s, rs', ManifestName(folder, created, g), xml, outcome), rs')
  {
    hide ChainText, RecordOk, C4, Utf8.Octets, ManifestName, NamedBy;
    var rs' := After(h, rs, g, folder, created, xml, outcome);
    var s' := StoreAfter(s, rs', ManifestName(folder, created, g), xml, outcome);
    NewRecordOk(h, g, folder, created, xml);
    forall i | 0 <= i < |rs'|
      ensures Recorded(h, s'.files, rs'[i])
    {
      if i < |rs| {
        assert rs'[i] == rs[i] && Recorded(h, s.files, rs[i]);
      }
    }
  }

  lemma LeavesAfter(h: HashFn, s: Store, rs: seq<Record>, g: nat, folder: string, created: nat, xml: string, outcome: Outcome)
    requires Inv(h, s, rs) && ManifestName(folder, created, g) != CHAIN_NAME
    requires g <= 9999 ==> ManifestName(folder, created, g) !in s.files
    requires forall i :: 0 <= i < |rs| ==>
               rs[i].nr < g && rs[i].name != ManifestName(folder, created, g) && rs[i].name != CHAIN_NAME
    ensures var name, rs' := ManifestName(folder, created, g), After(h, rs, g, folder, created, xml, outcome);
            RunLeaves(s, StoreAfter(s, rs', name, xml, outcome), rs, g, name, xml, outcome)
  {
    hide ChainText, Recorded, NewRecord, ManifestName, ChainLengthens;
    if rs != [] {
      LengthensAfter(h, rs, g, folder, created, xml, outcome);
      LengthensAfter(h, rs, g, folder, created, xml, CrashedAfterManifest);
    }
  }

  /** The directory after a run over a readable history whose chain then holds `rs'`. */
  function StoreAfter(s: Store, rs': seq<Record>, name: string, xml: string, outcome: Outcome): Store {
    match outcome
    case CrashedBeforeManifest => Store(true, s.files)
    case CrashedAfterManifest => Store(true, s.files[name := xml])
    case Completed => Store(true, s.files[name := xml][CHAIN_NAME := ChainText(rs')])
  }

  lemma StepsUnderInv(h: HashFn, s: Store, rs: seq<Record>, g: nat, folder: string, created: nat, xml: string, outcome: Outcome)
    requires Inv(h, s, rs) && ManifestName(folder, created, g) != CHAIN_NAME
    ensures var name := ManifestName(folder, created, g);
            WriteSteps(h, s, g, folder, created, xml, outcome)
            == (StoreAfter(s, After(h, rs, g, folder, created, xml, outcome), name, xml, outcome), Ok(name))
  {
    hide ChainText, RenderChain, Recorded, C4, Utf8.Octets, ManifestName, Footer;
    var rec := NewRecord(h, g, folder, created, xml);
    AppendExtends(rs, rec);
    assert [] + [rec] == [rec];
  }

  lemma LengthensAfter(h: HashFn, rs: seq<Record>, g: nat, folder: string, created: nat, xml: string, outcome: Outcome)
    ensures ChainLengthens(ChainText(rs), ChainText(After(h, rs, g, folder, created, xml, outcome)))
  {
    hide ChainText, Footer, NewRecord, RenderChain;
    AppendExtends(rs, NewRecord(h, g, folder, created, xml));
    ChainEnds(rs);
    ChainEnds(After(h, rs, g, folder, created, xml, outcome));
  }

  lemma OtherNumberOtherName(name: string, nr: nat, folder: string, created: nat, g: nat)
    requires NamedBy(name, nr) && nr != g
    ensures name != ManifestName(folder, created, g) && name != CHAIN_NAME
  {
    hide ManifestName, Trim;
    var f: string, c: nat :| name == ManifestName(f, c, nr);
    NameDetermines(f, c, nr, folder, created, g);
    NameUsable(f, c, nr);
  }

  lemma NewRecordOk(h: HashFn, g: nat, folder: string, created: nat, xml: string)
    requires g < U32_LIMIT
    ensures var r := NewRecord(h, g, folder, created, xml); RecordOk(r) && NamedBy(r.name, g)
  {
    hide Trim, ManifestName, C4;
    NameUsable(folder, created, g);
    C4NotBlank(h, Utf8.Octets(xml));
  }

  /** The number that follows: one more, unless the run crashed before its manifest, or past
      9999, where the name it left no longer tells its number. */
  function NumberAfter(g: nat, outcome: Outcome): nat {
    if outcome.CrashedBeforeManifest? || (outcome.CrashedAfterManifest? && g >= 10000) then g else g + 1
  }

  lemma MaxAfter(h: HashFn, rs: seq<Record>, g: nat, folder: string, created: nat, xml: string, outcome: Outcome)
    requires forall i :: 0 <= i < |rs| ==> rs[i].nr < g
    ensures MaxNr(After(h, rs, g, folder, created, xml, outcome)) == if outcome.Completed? then g else MaxNr(rs)
  {
    hide MaxNr, C4, Utf8.Octets, ManifestName;
    if outcome.Completed? {
      var rs' := After(h, rs, g, folder, created, xml, outcome);
      MaxNrBound(rs', g);
      assert rs'[|rs|].nr == g;
    }
  }

  /** The next run's number is decided by this run's number and outcome alone. */
  lemma NextNumber(h: HashFn, s: Store, rs: seq<Record>, g: nat, folder: string, created: nat, xml: string, outcome: Outcome)
    requires Inv(h, s, rs) && Numbered(s, g) && g != 0
    ensures forall g' :: Numbered(WriteSteps(h, s, g, folder, created, xml, outcome).0, g')
                         <==> g' == NumberAfter(g, outcome) % U32_LIMIT
  {
    hide Inv, After, WriteSteps, GenerationOf, MaxNr, KnownRecords, ManifestName, ChainLengthens, IsFloor;
    var s' := WriteSteps(h, s, g, folder, created, xml, outcome).0;
    var name, next := ManifestName(folder, created, g), NumberAfter(g, outcome);
    RunKeepsInv(h, s, rs, g, folder, created, xml, outcome);
    KnownUnderInv(h, s, rs);
    KnownUnderInv(h, s', After(h, rs, g, folder, created, xml, outcome));
    MaxAfter(h, rs, g, folder, created, xml, outcome);
    NumberAboveFloor(h, s, rs, g);
    ChainIsNoManifest();
    FourDigits(name);
    if g <= 9999 {
      NumberedName(folder, created, g);
    }
    if Wrote(outcome) {
      FloorMoves(s, s', g, name, outcome);
    } else {
      FloorStays(s, s', g - 1);
    }
    NowPresent(h, s, g, folder, created, xml, outcome);
    assert Numbered(s', next % U32_LIMIT);
    forall g' | Numbered(s', g')
      ensures g' == next % U32_LIMIT
    {
      NextNumberUnique(s', g', next % U32_LIMIT);
    }
  }

  lemma FloorStays(s: Store, s': Store, m: nat)
    requires IsFloor(s, m) && s'.files == s.files
    ensures IsFloor(s', m)
  {
    hide GenerationOf, MaxNr, ReadChain;
  }

  lemma NowPresent(h: HashFn, s: Store, g: nat, folder: string, created: nat, xml: string, outcome: Outcome)
    ensures WriteSteps(h, s, g, folder, created, xml, outcome).0.present
  {
    hide ManifestName, RenderChain, C4, Utf8.Octets;
  }

  lemma FloorMoves(s: Store, s': Store, g: nat, name: string, outcome: Outcome)
    requires g != 0 && IsFloor(s, g - 1) && GenerationOf(CHAIN_NAME) == None && Wrote(outcome)
    requires forall n :: n in s.files && GenerationOf(n).Some? ==> GenerationOf(n).value < g
    requires if g <= 9999 then GenerationOf(name) == Some(g) else GenerationOf(name).Some? ==> GenerationOf(name).value <= 9999
    requires if outcome.Completed? then MaxNr(KnownRecords(s')) == g else MaxNr(KnownRecords(s')) == MaxNr(KnownRecords(s))
    requires name in s'.files
    requires forall n :: n in s.files && n != CHAIN_NAME && n != name ==> n in s'.files
    requires forall n :: n in s'.files ==> n in s.files || n == name || n == CHAIN_NAME
    ensures IsFloor(s', NumberAfter(g, outcome) - 1)
  {
    hide GenerationOf, MaxNr, KnownRecords;
    if outcome.CrashedAfterManifest? && g >= 10000 && g - 1 != MaxNr(KnownRecords(s)) {
      var n :| n in s.files && GenerationOf(n) == Some(g - 1);
      assert n in s'.files;
    }
  }

  /** The new chain starts with everything of the old one but its closing tag. */
  ghost predicate ChainLengthens(old_: string, new_: string) {
    |Footer()| <= |old_| <= |new_| && old_[..|old_| - |Footer()|] <= new_ && HasSuffix(new_, Footer())
  }

  lemma ChainEnds(rs: seq<Record>)
    ensures HasSuffix(ChainText(rs), Footer())
  {
    hide Footer, Header, ChainText;
    ChainPieces(rs);
  }

  // ---------------------------------------------------------------------------------------
  // Selection
  // ---------------------------------------------------------------------------------------

  lemma {:induction false} RecordsCheckOut(h: HashFn, files: map<string, string>, rs: seq<Record>)
    requires forall i :: 0 <= i < |rs| ==> Recorded(h, files, rs[i])
    ensures CheckRecords(h, files, rs) == Ok(())
  {
    if rs != [] {
      hide C4, RecordOk, Utf8.Octets, NamedBy;
      assert Recorded(h, files, rs[0]);
      RecordsCheckOut(h, files, rs[1..]);
    }
  }

  /** Whatever crashed in between, the manifest selected is the last one chained. */
  lemma SelectsLastChained(h: HashFn, s: Store, rs: seq<Record>)
    requires Inv(h, s, rs) && rs != []
    ensures SelectManifest(h, s.files) == Ok(rs[|rs| - 1].name)
  {
    hide ChainText, ReadChain, Recorded;
    KnownUnderInv(h, s, rs);
    assert forall i :: 0 <= i < |rs| ==> Recorded(h, s.files, rs[i]);
    ReadsUnderInv(h, s, rs);
    RecordsCheckOut(h, s.files, rs);
  }

  lemma ReadsUnderInv(h: HashFn, s: Store, rs: seq<Record>)
    requires Inv(h, s, rs) && rs != []
    ensures ReadChain(s.files[CHAIN_NAME]) == Ok(rs)
  {
    hide ChainText, ReadChain, RecordOk;
    ChainReadsBack(rs);
  }

  // ---------------------------------------------------------------------------------------
  // Any number of runs
  // ---------------------------------------------------------------------------------------

  datatype Run = Run(folder: string, created: nat, xml: string, outcome: Outcome)

  /** `states` are the directory before, between and after the runs, which took `gens`,
      starting without a directory. */
  ghost predicate Execution(h: HashFn, states: seq<Store>, gens: seq<nat>, runs: seq<Run>) {
    && |states| == |runs| + 1 && |gens| == |runs| && states[0] == Store(false, map[])
    && forall i :: 0 <= i < |runs| ==> StepOf(h, states[i], gens[i], runs[i], states[i + 1])
  }

  ghost predicate StepOf(h: HashFn, s: Store, g: nat, r: Run, s': Store) {
    Numbered(s, g) && WriteSteps(h, s, g, r.folder, r.created, r.xml, r.outcome).0 == s'
  }

  /** The records chained by a sequence of runs: those of the completed ones, in order. */
  function Chained(h: HashFn, gens: seq<nat>, runs: seq<Run>): seq<Record>
    requires |gens| == |runs|
  {
    if runs == [] then []
    else
      var n := |runs| - 1;
      var r := runs[n];
      After(h, Chained(h, gens[..n], runs[..n]), gens[n], r.folder, r.created, r.xml, r.outcome)
  }

  /** The number that follows a sequence of runs. */
  function Next(gens: seq<nat>, runs: seq<Run>): nat
    requires |gens| == |runs|
  {
    if runs == [] then 1 else NumberAfter(gens[|runs| - 1], runs[|runs| - 1].outcome)
  }

  /** The name run `k` writes its manifest under. */
  function NameOf(gens: seq<nat>, runs: seq<Run>, k: nat): string
    requires k < |gens| == |runs|
  {
    ManifestName(runs[k].folder, runs[k].created, gens[k])
  }

  /** Through fewer than 2^32 runs, any of which may crash: the chain always reads as exactly
      the completed runs, its numbers ascend strictly, every record matches the bytes of its
      manifest, and the next number follows from the last run's number and outcome. */
  lemma {:induction false} EveryReachableHistory(h: HashFn, states: seq<Store>, gens: seq<nat>, runs: seq<Run>)
    requires Execution(h, states, gens, runs) && |runs| < U32_LIMIT
    ensures Inv(h, states[|runs|], Chained(h, gens, runs))
    ensures 1 <= Next(gens, runs) <= |runs| + 1
    ensures forall g :: Numbered(states[|runs|], g) <==> g == Next(gens, runs) % U32_LIMIT
    decreases |runs|
  {
    hide WriteSteps, Numbered, After, Inv, ManifestName, ChainLengthens;
    if runs == [] {
      StartInv(h);
    } else {
      var n := |runs| - 1;
      EveryReachableHistory(h, states[..n + 1], gens[..n], runs[..n]);
      var r := runs[n];
      assert StepOf(h, states[n], gens[n], r, states[n + 1]);
      assert gens[n] == Next(gens[..n], runs[..n]);
      var rs := Chained(h, gens[..n], runs[..n]);
      RunKeepsInv(h, states[n], rs, gens[n], r.folder, r.created, r.xml, r.outcome);
      NextNumber(h, states[n], rs, gens[n], r.folder, r.created, r.xml, r.outcome);
    }
  }

  lemma StartInv(h: HashFn)
    ensures Inv(h, Store(false, map[]), [])
    ensures forall g :: Numbered(Store(false, map[]), g) <==> g == 1
  {
  }

  /** What the runs before run `k` leave it, and what it does. */
  lemma RunAt(h: HashFn, states: seq<Store>, gens: seq<nat>, runs: seq<Run>, k: nat)
    requires Execution(h, states, gens, runs) && k < |runs| < U32_LIMIT
    ensures var rs := Chained(h, gens[..k], runs[..k]);
            && Inv(h, states[k], rs) && Numbered(states[k], gens[k])
            && gens[k] == Next(gens[..k], runs[..k]) && 1 <= gens[k] <= k + 1
            && states[k + 1] == WriteSteps(h, states[k], gens[k], runs[k].folder, runs[k].created, runs[k].xml, runs[k].outcome).0
            && Chained(h, gens[..k + 1], runs[..k + 1])
               == After(h, rs, gens[k], runs[k].folder, runs[k].created, runs[k].xml, runs[k].outcome)
  {
    hide WriteSteps, Inv, Numbered, After;
    EveryReachableHistory(h, states[..k + 1], gens[..k], runs[..k]);
    assert StepOf(h, states[k], gens[k], runs[k], states[k + 1]);
    assert gens[..k + 1][..k] == gens[..k] && runs[..k + 1][..k] == runs[..k];
  }

  /** Any runs have an execution. */
  lemma {:induction false} ExecutionExists(h: HashFn, runs: seq<Run>)
    requires |runs| < U32_LIMIT
    ensures exists states: seq<Store>, gens: seq<nat> :: Execution(h, states, gens, runs)
  {
    hide WriteSteps, Inv, Numbered, Chained;
    if runs == [] {
      assert Execution(h, [Store(false, map[])], [], runs);
    } else {
      var n := |runs| - 1;
      ExecutionExists(h, runs[..n]);
      var states: seq<Store>, gens: seq<nat> :| Execution(h, states, gens, runs[..n]);
      EveryReachableHistory(h, states, gens, runs[..n]);
      var g := Next(gens, runs[..n]) % U32_LIMIT;
      var r := runs[n];
      var s := WriteSteps(h, states[n], g, r.folder, r.created, r.xml, r.outcome).0;
      var states', gens' := states + [s], gens + [g];
      forall i | 0 <= i < |runs|
        ensures StepOf(h, states'[i], gens'[i], runs[i], states'[i + 1])
      {
        if i < n {
          assert StepOf(h, states[i], gens[i], runs[..n][i], states[i + 1]);
        }
      }
      assert Execution(h, states', gens', runs);
    }
  }

  /** Runs `j` to `k - 1` all leave the number where run `j` found it. */
  ghost predicate AllStay(gens: seq<nat>, runs: seq<Run>, j: nat, k: nat)
    requires j < k < |gens| == |runs|
  {
    forall i :: j <= i < k ==> runs[i].outcome.CrashedBeforeManifest? || (runs[i].outcome.CrashedAfterManifest? && gens[j] >= 10000)
  }

  /** Numbers never fall, and stay only over runs that crashed, before their manifests or past
      9999. */
  lemma {:induction false} SameNumber(h: HashFn, states: seq<Store>, gens: seq<nat>, runs: seq<Run>, j: nat, k: nat)
    requires Execution(h, states, gens, runs) && j < k < |runs| < U32_LIMIT
    ensures gens[j] <= gens[k]
    ensures gens[j] == gens[k] <==> AllStay(gens, runs, j, k)
    decreases k
  {
    hide Inv, Numbered, Chained, WriteSteps, After;
    RunAt(h, states, gens, runs, k);
    if j < k - 1 {
      SameNumber(h, states, gens, runs, j, k - 1);
      assert AllStay(gens, runs, j, k) ==> AllStay(gens, runs, j, k - 1);
    }
  }

  /** Run `j` wrote its manifest under the name that run `k` takes. */
  ghost predicate SameManifest(gens: seq<nat>, runs: seq<Run>, j: nat, k: nat)
    requires j < |gens| == |runs| && k < |gens|
  {
    Wrote(runs[j].outcome) && gens[j] == gens[k] && Label(runs[j].folder, runs[j].created) == Label(runs[k].folder, runs[k].created)
  }

  /** Run `j` wrote the file `n`. */
  ghost predicate WroteFile(gens: seq<nat>, runs: seq<Run>, j: nat, n: string)
    requires j < |gens| == |runs|
  {
    Wrote(runs[j].outcome) && NameOf(gens, runs, j) == n
  }

  /** The files are the chain and the manifests of the runs so far. */
  lemma {:induction false} FilesAreRuns(h: HashFn, states: seq<Store>, gens: seq<nat>, runs: seq<Run>, k: nat, n: string)
    requires Execution(h, states, gens, runs) && k <= |runs| < U32_LIMIT && n != CHAIN_NAME
    ensures n in states[k].files <==> exists j: nat :: j < k && WroteFile(gens, runs, j, n)
    decreases k
  {
    hide Inv, Numbered, Chained, WriteSteps, After, ManifestName, ChainLengthens;
    if k > 0 {
      var r := runs[k - 1];
      FilesAreRuns(h, states, gens, runs, k - 1, n);
      RunAt(h, states, gens, runs, k - 1);
      RunKeepsInv(h, states[k - 1], Chained(h, gens[..k - 1], runs[..k - 1]), gens[k - 1], r.folder, r.created, r.xml, r.outcome);
      assert NameOf(gens, runs, k - 1) == ManifestName(r.folder, r.created, gens[k - 1]);
      assert WroteFile(gens, runs, k - 1, n) ==> n in states[k].files;
    }
  }

  /** Before run `k` it is known that run `j`, past 9999 and for the same folder and stamp, left
      its manifest unchained, and that no run since has completed. */
  ghost predicate LeftBehind(gens: seq<nat>, runs: seq<Run>, j: nat, k: nat)
    requires j < k < |gens| == |runs|
  {
    && gens[j] >= 10000 && runs[j].outcome.CrashedAfterManifest? && (forall i :: j <= i < k ==> !runs[i].outcome.Completed?)
    && Label(runs[j].folder, runs[j].created) == Label(runs[k].folder, runs[k].created)
  }

  /** A run finds a manifest of its name, and overwrites it if it gets so far, exactly when an
      earlier run left one behind: that run took the same number with the same folder and stamp.
      No chained manifest is ever lost. */
  lemma OverwritesExactly(h: HashFn, states: seq<Store>, gens: seq<nat>, runs: seq<Run>, k: nat)
    requires Execution(h, states, gens, runs) && k < |runs| < U32_LIMIT
    ensures NameOf(gens, runs, k) in states[k].files <==> exists j: nat :: j < k && LeftBehind(gens, runs, j, k)
    ensures forall j: nat :: j < k ==> (LeftBehind(gens, runs, j, k) <==> SameManifest(gens, runs, j, k))
  {
    hide StepOf, ManifestName, Label;
    var name := NameOf(gens, runs, k);
    NameUsable(runs[k].folder, runs[k].created, gens[k]);
    FilesAreRuns(h, states, gens, runs, k, name);
    forall j: nat | j < k
      ensures WroteFile(gens, runs, j, name) <==> LeftBehind(gens, runs, j, k)
      ensures LeftBehind(gens, runs, j, k) <==> SameManifest(gens, runs, j, k)
    {
      NameDetermines(runs[j].folder, runs[j].created, gens[j], runs[k].folder, runs[k].created, gens[k]);
      SameNumber(h, states, gens, runs, j, k);
      if Wrote(runs[j].outcome) {
        StaysUnchained(gens, runs, j, k);
      }
    }
  }

  lemma StaysUnchained(gens: seq<nat>, runs: seq<Run>, j: nat, k: nat)
    requires j < k < |gens| == |runs| && Wrote(runs[j].outcome)
    ensures AllStay(gens, runs, j, k)
            <==> gens[j] >= 10000 && runs[j].outcome.CrashedAfterManifest? && forall i :: j <= i < k ==> !runs[i].outcome.Completed?
  {
    if AllStay(gens, runs, j, k) {
      assert runs[j].outcome.CrashedAfterManifest?;
    }
  }

  /** Between any two moments of a history: the records chained stay and lead the later ones,
      their manifests do not change, the chain only grows in front of its closing tag, and any
      other manifest changes only where a later run takes its name. */
  lemma {:induction false} HistoryOnlyGrows(h: HashFn, states: seq<Store>, gens: seq<nat>, runs: seq<Run>, at: nat, end: nat)
    requires Execution(h, states, gens, runs) && at <= end <= |runs| < U32_LIMIT
    ensures Chained(h, gens[..at], runs[..at]) <= Chained(h, gens[..end], runs[..end])
    ensures forall r :: r in Chained(h, gens[..at], runs[..at])
              ==> r.name in states[at].files && r.name in states[end].files && states[end].files[r.name] == states[at].files[r.name]
    ensures forall n :: n in states[at].files && n != CHAIN_NAME
              ==> && n in states[end].files
                  && (states[end].files[n] == states[at].files[n] || exists k: nat :: at <= k < end && NameOf(gens, runs, k) == n)
    ensures CHAIN_NAME in states[at].files ==>
              CHAIN_NAME in states[end].files && ChainLengthens(states[at].files[CHAIN_NAME], states[end].files[CHAIN_NAME])
    decreases end
  {
    hide StepOf, WriteSteps, Inv, Chained, Numbered, After, ChainLengthens, ManifestName;
    if at == end {
      InvAt(h, states, gens, runs, at);
    } else {
      var k, r := end - 1, runs[end - 1];
      HistoryOnlyGrows(h, states, gens, runs, at, k);
      RunAt(h, states, gens, runs, k);
      var rs := Chained(h, gens[..k], runs[..k]);
      RunKeepsInv(h, states[k], rs, gens[k], r.folder, r.created, r.xml, r.outcome);
      AfterExtends(h, rs, gens[k], r.folder, r.created, r.xml, r.outcome);
      assert NameOf(gens, runs, k) == ManifestName(r.folder, r.created, gens[k]);
      if CHAIN_NAME in states[at].files {
        LengthensTransitive(states[at].files[CHAIN_NAME], states[k].files[CHAIN_NAME], states[end].files[CHAIN_NAME]);
      }
      forall q | q in Chained(h, gens[..at], runs[..at])
        ensures q.name in states[end].files && states[end].files[q.name] == states[at].files[q.name]
      {
        assert q in rs;
      }
    }
  }

  lemma AfterExtends(h: HashFn, rs: seq<Record>, g: nat, folder: string, created: nat, xml: string, outcome: Outcome)
    ensures rs <= After(h, rs, g, folder, created, xml, outcome)
  {
    hide C4, Utf8.Octets, ManifestName;
  }

  lemma InvAt(h: HashFn, states: seq<Store>, gens: seq<nat>, runs: seq<Run>, at: nat)
    requires Execution(h, states, gens, runs) && at <= |runs| < U32_LIMIT
    ensures var rs := Chained(h, gens[..at], runs[..at]);
            && Inv(h, states[at], rs) && (forall r :: r in rs ==> r.name in states[at].files)
            && (CHAIN_NAME in states[at].files ==> ChainLengthens(states[at].files[CHAIN_NAME], states[at].files[CHAIN_NAME]))
  {
    hide WriteSteps, Numbered, Chained, ChainText, ChainLengthens, RecordOk, C4, Utf8.Octets, NamedBy;
    EveryReachableHistory(h, states[..at + 1], gens[..at], runs[..at]);
    var rs := Chained(h, gens[..at], runs[..at]);
    InvChainEnds(h, states[at], rs);
    forall r | r in rs
      ensures r.name in states[at].files
    {
      var i :| 0 <= i < |rs| && rs[i] == r;
      assert Recorded(h, states[at].files, rs[i]);
    }
  }

  lemma InvChainEnds(h: HashFn, s: Store, rs: seq<Record>)
    requires Inv(h, s, rs)
    ensures CHAIN_NAME in s.files ==> ChainLengthens(s.files[CHAIN_NAME], s.files[CHAIN_NAME])
  {
    hide Footer, ChainText, Recorded;
    ChainEnds(rs);
  }

  lemma LengthensTransitive(a: string, b: string, c: string)
    requires ChainLengthens(a, b) && ChainLengthens(b, c)
    ensures ChainLengthens(a, c)
  {
    hide Footer;
    var n := |Footer()|;
    var x, y := a[..|a| - n], b[..|b| - n];
    assert x == b[..|x|] == y[..|x|] == c[..|x|];
  }

  lemma {:induction false} CrashesChainNothing(h: HashFn, gens: seq<nat>, runs: seq<Run>, k: nat, n: nat)
    requires |gens| == |runs| && k <= n <= |runs| && forall i :: k <= i < n ==> !runs[i].outcome.Completed?
    ensures Chained(h, gens[..n], runs[..n]) == Chained(h, gens[..k], runs[..k])
    decreases n
  {
    hide NewRecord;
    if k < n {
      assert gens[..n][..n - 1] == gens[..n - 1] && runs[..n][..n - 1] == runs[..n - 1];
      CrashesChainNothing(h, gens, runs, k, n - 1);
    }
  }

  /** The manifest selected is the one the last completed run wrote, with the text it wrote. */
  lemma LastCompletedSelected(h: HashFn, states: seq<Store>, gens: seq<nat>, runs: seq<Run>, k: nat)
    requires Execution(h, states, gens, runs) && k < |runs| < U32_LIMIT
    requires runs[k].outcome.Completed? && forall i :: k < i < |runs| ==> !runs[i].outcome.Completed?
    ensures var files, name := states[|runs|].files, NameOf(gens, runs, k);
            SelectManifest(h, files) == Ok(name) && name in files && files[name] == runs[k].xml
  {
    hide StepOf, WriteSteps, Inv, Chained, Numbered, ChainLengthens, ManifestName, SelectManifest, C4, Utf8.Octets;
    var n := |runs|;
    var rs := Chained(h, gens[..k + 1], runs[..k + 1]);
    RunAt(h, states, gens, runs, k);
    WroteAt(h, states, gens, runs, k);
    var name := NameOf(gens, runs, k);
    assert rs[|rs| - 1].name == name && rs[|rs| - 1] in rs;
    HistoryOnlyGrows(h, states, gens, runs, k + 1, n);
    CrashesChainNothing(h, gens, runs, k + 1, n);
    InvAt(h, states, gens, runs, n);
    SelectsLastChained(h, states[n], rs);
  }

  /** The first 10000 runs that get as far as a manifest are numbered in order. */
  lemma {:induction false} NumberedInOrder(h: HashFn, states: seq<Store>, gens: seq<nat>, runs: seq<Run>, k: nat)
    requires Execution(h, states, gens, runs) && k < |runs| < U32_LIMIT && k <= 9999
    requires forall i :: 0 <= i < k ==> Wrote(runs[i].outcome)
    ensures gens[k] == k + 1
  {
    hide Inv, Numbered, Chained, WriteSteps, After;
    RunAt(h, states, gens, runs, k);
    if k > 0 {
      NumberedInOrder(h, states, gens, runs, k - 1);
    }
  }

  /** The confusion is reached: if the 10000th run crashes before it chains its manifest, the
      next run takes 10000 again and, for the same folder and stamp, writes over it. */
  lemma TenThousandthIsOverwritten(h: HashFn, states: seq<Store>, gens: seq<nat>, runs: seq<Run>)
    requires Execution(h, states, gens, runs) && 10000 < |runs| < U32_LIMIT
    requires (forall i :: 0 <= i < 10001 ==> Wrote(runs[i].outcome)) && runs[9999].outcome.CrashedAfterManifest?
    requires Label(runs[9999].folder, runs[9999].created) == Label(runs[10000].folder, runs[10000].created)
    ensures var name := NameOf(gens, runs, 10000);
            && gens[10000] == 10000
            && name in states[10000].files && states[10000].files[name] == runs[9999].xml
            && name in states[10001].files && states[10001].files[name] == runs[10000].xml
  {
    hide StepOf, WriteSteps, Inv, Chained, Numbered, After, ChainLengthens, ManifestName, Label;
    NumberedInOrder(h, states, gens, runs, 9999);
    WroteAt(h, states, gens, runs, 9999);
    WroteAt(h, states, gens, runs, 10000);
    NameDetermines(runs[9999].folder, runs[9999].created, 10000, runs[10000].folder, runs[10000].created, 10000);
  }

  /** A run's manifest is there with its text when it ends, under a number that decides the next. */
  lemma WroteAt(h: HashFn, states: seq<Store>, gens: seq<nat>, runs: seq<Run>, k: nat)
    requires Execution(h, states, gens, runs) && k < |runs| < U32_LIMIT && Wrote(runs[k].outcome)
    ensures var name := NameOf(gens, runs, k);
            name != CHAIN_NAME && name in states[k + 1].files && states[k + 1].files[name] == runs[k].xml
    ensures k + 1 < |runs| ==> gens[k + 1] == NumberAfter(gens[k], runs[k].outcome)
  {
    hide StepOf, WriteSteps, Inv, Chained, Numbered, After, ChainLengthens, ManifestName;
    var r := runs[k];
    RunAt(h, states, gens, runs, k);
    RunKeepsInv(h, states[k], Chained(h, gens[..k], runs[..k]), gens[k], r.folder, r.created, r.xml, r.outcome);
    if k + 1 < |runs| {
      RunAt(h, states, gens, runs, k + 1);
    }
  }
}
