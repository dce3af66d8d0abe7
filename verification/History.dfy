/** The append-only history of tool/src/ascmhl.rs: generation numbering, the write order of a
    run, what a crash leaves behind, and the selection of the latest record. */
module History {
  import opened Prelude
  import opened Positional
  import opened Numerals
  import opened Seal
  import opened Manifest
  import opened Chain
  import Utf8

  const CHAIN_NAME := "ascmhl_chain.xml"
  const MHL := ".mhl"

  /** The ascmhl directory: whether it exists, and its files. */
  datatype Store = Store(present: bool, files: map<string, string>)

  datatype HistoryError =
    | ChainUnreadable(chain: ChainError) | NoRecords | MissingManifest(name: string) | CorruptRecord(name: string)
    | NoManifest | Ambiguous | AppendRefused(refusal: ChainError)

  // ---------------------------------------------------------------------------------------
  // Generation numbers
  // ---------------------------------------------------------------------------------------

  predicate HasSuffix(s: string, suffix: string) {
    |s| >= |suffix| && s[|s| - |suffix|..] == suffix
  }

  /** The number a manifest's file name carries: its first four characters, if they are digits. */
  function GenerationOf(name: string): Option<nat> {
    if !HasSuffix(name, MHL) then None
    else
      var digits := CharDigits(name[..4]);
      if forall i :: 0 <= i < 4 ==> digits[i] < 10 then Some(Value(10, digits)) else None
  }

  function Max(a: nat, b: nat): nat {
    if a < b then b else a
  }

  function MaxNr(rs: seq<Record>): nat {
    if rs == [] then 0 else Max(rs[0].nr, MaxNr(rs[1..]))
  }

  /** The records a run can learn from the chain: none if it is absent or does not parse. */
  function KnownRecords(s: Store): seq<Record> {
    if CHAIN_NAME !in s.files then []
    else
      match ReadChain(s.files[CHAIN_NAME])
      case Ok(rs) => rs
      case Err(_) => []
  }

  /** `m` is the largest number among the chain's records and the manifests' names, or 0. */
  ghost predicate IsFloor(s: Store, m: nat) {
    && MaxNr(KnownRecords(s)) <= m
    && (forall n :: n in s.files && GenerationOf(n).Some? ==> GenerationOf(n).value <= m)
    && (m == MaxNr(KnownRecords(s)) || exists n :: n in s.files && GenerationOf(n) == Some(m))
  }

  lemma FloorUnique(s: Store, m: nat, n: nat)
    requires IsFloor(s, m) && IsFloor(s, n)
    ensures m == n
  {
    if m != MaxNr(KnownRecords(s)) {
      var f :| f in s.files && GenerationOf(f) == Some(m);
    }
    if n != MaxNr(KnownRecords(s)) {
      var f :| f in s.files && GenerationOf(f) == Some(n);
    }
  }

  // ---------------------------------------------------------------------------------------
  // The writer and the selection, over the files of the directory
  // ---------------------------------------------------------------------------------------

  /** Where a run stops: not at all, between the manifest write and the chain write, or before
      either with no more than the directory made. */
  datatype Outcome = Completed | CrashedAfterManifest | CrashedBeforeManifest

  class HistoryDir {
    var present: bool
    var files: map<string, string>

    constructor ()
      ensures Contents() == Store(false, map[])
    {
      present, files := false, map[];
    }

    function Contents(): Store
      reads this
    {
      Store(present, files)
    }

    /** The largest sequence number of a chain that can be read. */
    method ChainFloor() returns (max: nat)
      ensures max == MaxNr(KnownRecords(Contents()))
    {
      hide ReadChain, GenerationOf;
      max := 0;
      if CHAIN_NAME in files {
        var records := ReadChain(files[CHAIN_NAME]);
        if records.Ok? {
          for i := 0 to |records.value|
            invariant Max(max, MaxNr(records.value[i..])) == MaxNr(records.value)
          {
            assert records.value[i..][1..] == records.value[i + 1..];
            max := Max(max, records.value[i].nr);
          }
        }
      }
    }

    /** The next generation: one more than the floor, in 32 bits. */
    method NextGeneration() returns (g: nat)
      ensures Numbered(Contents(), g)
    {
      hide ReadChain, GenerationOf, MaxNr, KnownRecords;
      if !present {
        return 1;
      }
      var max := ChainFloor();
      ghost var known := max;
      var names := files.Keys;
      while names != {}
        invariant names <= files.Keys && known <= max
        invariant forall n :: n in files && n !in names && GenerationOf(n).Some? ==> GenerationOf(n).value <= max
        invariant max == known || exists n :: n in files && GenerationOf(n) == Some(max)
        decreases names
      {
        var name :| name in names;
        var g := GenerationOf(name);
        if g.Some? {
          max := Max(max, g.value);
        }
        names := names - {name};
      }
      assert IsFloor(Contents(), max);
      return (max + 1) % U32_LIMIT;
    }

    /** One run: number, write the manifest, then append its record to the chain. A crash stops
        before either or between the two writes; a chain that cannot be appended to is refused, with the manifest
        already written. */
    method WriteHistory(h: HashFn, folder: string, created: nat, xml: string, outcome: Outcome)
      returns (r: Result<string, HistoryError>)
      modifies this
      ensures exists g :: Numbered(old(Contents()), g) && WriteSteps(h, old(Contents()), g, folder, created, xml, outcome) == (Contents(), r)
    {
      hide Numbered, RenderChain, ManifestName, C4, Utf8.Octets;
      ghost var before := Contents();
      var g := NextGeneration();
      var name := ManifestName(folder, created, g);
      present := true;
      if outcome.CrashedBeforeManifest? {
        r := Ok(name);
        assert WriteSteps(h, before, g, folder, created, xml, outcome) == (Contents(), r);
        return;
      }
      files := files[name := xml];
      if outcome.CrashedAfterManifest? {
        r := Ok(name);
        assert WriteSteps(h, before, g, folder, created, xml, outcome) == (Contents(), r);
        return;
      }
      var c4 := C4(h, Utf8.Octets(xml));
      var existing := if CHAIN_NAME in files then files[CHAIN_NAME] else "";
      var chain := RenderChain(existing, Record(g, name, c4));
      if chain.Err? {
        r := Err(AppendRefused(chain.error));
        assert WriteSteps(h, before, g, folder, created, xml, outcome) == (Contents(), r);
        return;
      }
      files := files[CHAIN_NAME := chain.value];
      r := Ok(name);
      assert WriteSteps(h, before, g, folder, created, xml, outcome) == (Contents(), r);
    }
  }

  ghost predicate Numbered(s: Store, g: nat) {
    if s.present then exists m: nat :: IsFloor(s, m) && g == (m + 1) % U32_LIMIT else g == 1
  }

  /** The effect of a run that was given the number `g`. */
  function WriteSteps(h: HashFn, s: Store, g: nat, folder: string, created: nat, xml: string, outcome: Outcome)
    : (Store, Result<string, HistoryError>)
  {
    var name := ManifestName(folder, created, g);
    var s1 := Store(true, s.files[name := xml]);
    if outcome.CrashedBeforeManifest? then (Store(true, s.files), Ok(name))
    else if outcome.CrashedAfterManifest? then (s1, Ok(name))
    else
      var existing := if CHAIN_NAME in s1.files then s1.files[CHAIN_NAME] else "";
      match RenderChain(existing, Record(g, name, C4(h, Utf8.Octets(xml))))
      case Err(e) => (s1, Err(AppendRefused(e)))
      case Ok(chain) => (Store(true, s1.files[CHAIN_NAME := chain]), Ok(name))
  }

  /** Every record names a file with the recorded identifier. */
  function CheckRecords(h: HashFn, files: map<string, string>, rs: seq<Record>): Result<(), HistoryError> {
    if rs == [] then Ok(())
    else if rs[0].name !in files then Err(MissingManifest(rs[0].name))
    else if C4(h, Utf8.Octets(files[rs[0].name])) != rs[0].c4 then Err(CorruptRecord(rs[0].name))
    else CheckRecords(h, files, rs[1..])
  }

  function Manifests(files: map<string, string>): set<string> {
    set n | n in files && HasSuffix(n, MHL)
  }

  /** The manifest to verify against: the chain's last record once every record checks out;
      without a chain, the only manifest there is. */
  ghost function SelectManifest(h: HashFn, files: map<string, string>): Result<string, HistoryError> {
    if CHAIN_NAME in files then
      match ReadChain(files[CHAIN_NAME])
      case Err(e) => Err(ChainUnreadable(e))
      case Ok(rs) =>
        if rs == [] then Err(NoRecords)
        else
          var _ :- CheckRecords(h, files, rs);
          Ok(rs[|rs| - 1].name)
    else
      var ms := Manifests(files);
      if ms == {} then Err(NoManifest)
      else if |ms| > 1 then Err(Ambiguous)
      else Ok(TheOnly(ms))
  }

  ghost function TheOnly(ms: set<string>): string
    requires |ms| == 1
  {
    var x :| x in ms;
    x
  }
}
