/** The scope re-verify of tool/src/ascmhl.rs: the recorded files one by one, in chunks on as
    many workers as asked for, and the root hashes over the whole scope. */
module VerifyScope {
  import opened Prelude
  import opened Seal
  import opened Manifest
  import opened Scope

  /** What a recorded path stands for on disk. */
  datatype Stat = Absent | StatFails | NonFile | ReadFails(size: nat) | Regular(data: seq<byte>)

  datatype Verdict = Ok_ | Missing | SizeMismatch | C4Mismatch

  datatype MhlRow = MhlRow(path: string, verdict: Verdict)
  datatype RootVerdict = RootVerdict(contentMatch: bool, structureMatch: bool)
  datatype VerifyResult = VerifyResult(rows: seq<MhlRow>, root: RootVerdict)

  /** A present entry that cannot be examined stops the sweep. */
  datatype VerifyError = CannotStat(path: string) | CannotRead(path: string)

  function CheckOne(h: HashFn, stat: string -> Stat, f: HashFile): Result<MhlRow, VerifyError> {
    match stat(f.path)
    case Absent => Ok(MhlRow(f.path, Missing))
    case StatFails => Err(CannotStat(f.path))
    case NonFile => Ok(MhlRow(f.path, Missing))
    case ReadFails(size) =>
      if size != f.size then Ok(MhlRow(f.path, SizeMismatch)) else Err(CannotRead(f.path))
    case Regular(data) =>
      if |data| != f.size then Ok(MhlRow(f.path, SizeMismatch))
      else if C4(h, data) != f.c4 then Ok(MhlRow(f.path, C4Mismatch))
      else Ok(MhlRow(f.path, Ok_))
  }

  /** The sequential sweep: rows in the manifest's order, or the first error. */
  function Sweep(h: HashFn, stat: string -> Stat, files: seq<HashFile>): Result<seq<MhlRow>, VerifyError> {
    if files == [] then Ok([])
    else
      var row :- CheckOne(h, stat, files[0]);
      var rest :- Sweep(h, stat, files[1..]);
      Ok([row] + rest)
  }

  /** What remains after the rows found so far. */
  function SweepFrom(rows: seq<MhlRow>, rest: Result<seq<MhlRow>, VerifyError>): Result<seq<MhlRow>, VerifyError> {
    match rest
    case Ok(more) => Ok(rows + more)
    case Err(e) => Err(e)
  }

  lemma SweepStep(h: HashFn, stat: string -> Stat, rows: seq<MhlRow>, files: seq<HashFile>)
    requires files != [] && CheckOne(h, stat, files[0]).Ok?
    ensures SweepFrom(rows, Sweep(h, stat, files))
            == SweepFrom(rows + [CheckOne(h, stat, files[0]).value], Sweep(h, stat, files[1..]))
  {
    hide CheckOne;
    var row, rest := CheckOne(h, stat, files[0]).value, Sweep(h, stat, files[1..]);
    if rest.Ok? {
      assert rows + ([row] + rest.value) == rows + [row] + rest.value;
    }
  }

  lemma SweepEnd(rows: seq<MhlRow>, r: Result<seq<MhlRow>, VerifyError>)
    ensures SweepFrom(rows, Ok([])) == Ok(rows)
    ensures SweepFrom([], r) == r
  {
    assert rows + [] == rows;
    if r.Ok? {
      assert [] + r.value == r.value;
    }
  }

  /** The workers' sweep: `jobs` chunks of consecutive rows, each worker storing its results
      under absolute indices; the rows are then taken in order. */
  method SweepChunks(h: HashFn, stat: string -> Stat, files: seq<HashFile>, n: nat) returns (r: Result<seq<MhlRow>, VerifyError>)
    requires 1 < n <= |files|
    ensures r == Sweep(h, stat, files)
  {
    hide CheckOne, Sweep, SweepFrom;
    var results := new Option<Result<MhlRow, VerifyError>>[|files|](_ => None);
    var chunk := (|files| + n - 1) / n;
    assert chunk >= 1;
    var ci := 0;
    while ci * chunk < |files|
      invariant forall k :: 0 <= k < ci * chunk && k < |files| ==> results[k] == Some(CheckOne(h, stat, files[k]))
      decreases |files| - ci * chunk
    {
      var start := ci * chunk;
      NextChunk(ci, chunk);
      var size := if start + chunk <= |files| then chunk else |files| - start;
      var part := files[start..start + size];
      for i := 0 to size
        invariant forall k :: 0 <= k < start + i ==> results[k] == Some(CheckOne(h, stat, files[k]))
      {
        results[start + i] := Some(CheckOne(h, stat, part[i]));
      }
      ci := ci + 1;
    }
    var rows: seq<MhlRow> := [];
    SweepEnd([], Sweep(h, stat, files));
    for k := 0 to |files|
      invariant forall k :: 0 <= k < |files| ==> results[k] == Some(CheckOne(h, stat, files[k]))
      invariant SweepFrom(rows, Sweep(h, stat, files[k..])) == Sweep(h, stat, files)
    {
      var one := results[k].value;
      assert files[k..][0] == files[k] && files[k..][1..] == files[k + 1..];
      if one.Err? {
        FirstError(h, stat, rows, files[k..]);
        return Err(one.error);
      }
      SweepStep(h, stat, rows, files[k..]);
      rows := rows + [one.value];
    }
    SweepNothing(h, stat);
    SweepEnd(rows, Ok([]));
    assert files[|files|..] == [];
    return Ok(rows);
  }

  lemma NextChunk(ci: nat, chunk: nat)
    ensures (ci + 1) * chunk == ci * chunk + chunk
  {
  }

  lemma SweepNothing(h: HashFn, stat: string -> Stat)
    ensures Sweep(h, stat, []) == Ok([])
  {
  }

  lemma FirstError(h: HashFn, stat: string -> Stat, rows: seq<MhlRow>, files: seq<HashFile>)
    requires files != [] && CheckOne(h, stat, files[0]).Err?
    ensures SweepFrom(rows, Sweep(h, stat, files)) == Err(CheckOne(h, stat, files[0]).error)
  {
    hide CheckOne;
  }

  /** One worker after the other, for any number of jobs (0 asks for all `cores`). */
  method SweepFiles(h: HashFn, stat: string -> Stat, files: seq<HashFile>, jobs: nat, cores: nat)
    returns (r: Result<seq<MhlRow>, VerifyError>)
    ensures r == Sweep(h, stat, files)
  {
    hide CheckOne, Sweep, SweepFrom;
    var want := if jobs == 0 then cores else jobs;
    var atLeast := if want < 1 then 1 else want;
    var most := if |files| < 1 then 1 else |files|;
    var n := if atLeast < most then atLeast else most;
    if n > 1 {
      r := SweepChunks(h, stat, files, n);
      return;
    }
    var rows: seq<MhlRow> := [];
    SweepEnd([], Sweep(h, stat, files));
    for k := 0 to |files|
      invariant SweepFrom(rows, Sweep(h, stat, files[k..])) == Sweep(h, stat, files)
    {
      var one := CheckOne(h, stat, files[k]);
      assert files[k..][0] == files[k] && files[k..][1..] == files[k + 1..];
      if one.Err? {
        FirstError(h, stat, rows, files[k..]);
        return Err(one.error);
      }
      SweepStep(h, stat, rows, files[k..]);
      rows := rows + [one.value];
    }
    SweepNothing(h, stat);
    SweepEnd(rows, Ok([]));
    assert files[|files|..] == [];
    return Ok(rows);
  }

  /** The recomputed root hashes under the manifest's own ignore patterns. */
  function RootHashes(h: HashFn, name: string, mtime: nat, kids: seq<Kid>, patterns: seq<string>): (string, string) {
    DirHashes(h, Walk(h, name, mtime, kids, Ignores(patterns)))
  }

  function Verify(h: HashFn, stat: string -> Stat, name: string, mtime: nat, kids: seq<Kid>, hl: Hashlist)
    : Result<VerifyResult, VerifyError>
  {
    var rows :- Sweep(h, stat, hl.files);
    var (content, structure) := RootHashes(h, name, mtime, kids, hl.ignore);
    Ok(VerifyResult(rows, RootVerdict(content == hl.rootContent, structure == hl.rootStructure)))
  }

  method VerifyScope(h: HashFn, stat: string -> Stat, name: string, mtime: nat, kids: seq<Kid>, hl: Hashlist, jobs: nat, cores: nat)
    returns (r: Result<VerifyResult, VerifyError>)
    ensures r == Verify(h, stat, name, mtime, kids, hl)
  {
    hide Sweep, RootHashes;
    var rows := SweepFiles(h, stat, hl.files, jobs, cores);
    if rows.Err? {
      return Err(rows.error);
    }
    var (content, structure) := RootHashes(h, name, mtime, kids, hl.ignore);
    return Ok(VerifyResult(rows.value, RootVerdict(content == hl.rootContent, structure == hl.rootStructure)));
  }
}
