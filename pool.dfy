/** The file pool of `generateRandomFilePool`: for i = 0 .. layerCount - 1,
    append the i-th path to the list; leave an existing file alone; fill a
    missing one with `randBytes(1024 * layerSizeKB)`; stop at the first
    failure. */
module Pool {
  import opened Types
  import opened Letters
  import opened Paths
  import opened FileSystem

  /** `1024 * int(layerSizeKB)` in Go's 64-bit `int`. */
  function ByteLen(sizeKB: Uint): (n: Int64)
    ensures sizeKB < 0x20_0000_0000_0000 ==> n == 1024 * sizeKB
  {
    WrapInt64(1024 * WrapInt64(sizeKB))
  }

  /** The pool paths of one run, in index order. */
  function PoolPaths(dir: Path, sizeKB: Uint, count: Uint): (ps: seq<Path>)
    ensures |ps| == count
    ensures forall i :: 0 <= i < count ==> ps[i] == FilePath(dir, sizeKB, i)
  {
    seq(count, i requires 0 <= i < count => FilePath(dir, sizeKB, i))
  }

  /** How many pool paths were appended to the list (always the first ones,
      in index order), the files afterwards, the number of draws consumed,
      and the error that stopped the loop. */
  datatype PoolResult = PoolResult(appended: nat, files: map<Path, Bytes>, used: nat, err: Option<Error>)

  /** Put the effect of a earlier iterations, which drew d times, in front
      of `r`. None stands for a source that ran out of draws. */
  function Extend(a: nat, d: nat, r: Option<PoolResult>): Option<PoolResult> {
    if r.None? then None
    else Some(r.value.(appended := a + r.value.appended, used := d + r.value.used))
  }

  /** Nothing in front leaves a result as it is. */
  lemma ExtendZero(r: Option<PoolResult>)
    ensures Extend(0, 0, r) == r
  {
  }

  /** What an iteration does with the path p it has just appended. */
  datatype Step =
    | Skip                          // the file exists: nothing written, nothing drawn
    | Fill(data: Bytes, d: nat)     // written with `data`, which took d draws
    | Stop(err: Error, d: nat)      // the run fails after taking d draws
    | Exhausted                     // the source has too few draws left

  /** The draws a step takes. */
  function Drawn(s: Step): nat {
    match s
    case Fill(_, d) => d
    case Stop(_, d) => d
    case _ => 0
  }

  /** The files after a step at path p. */
  function After(s: Step, p: Path, files: map<Path, Bytes>): map<Path, Bytes> {
    if s.Fill? then files[p := s.data] else files
  }

  function StepAt(sizeKB: Uint, p: Path, files: map<Path, Bytes>, faults: set<(Op, Path)>, ds: seq<nat>): (s: Step)
    ensures s.Skip? <==> StatOf(files, faults, p).Exists?
    ensures s.Fill? ==> s.d <= |ds| && |s.data| == ByteLen(sizeKB) && AllLetters(s.data) && p !in files
    ensures s.Fill? ==> (Write, p) !in faults
    ensures s.Stop? ==> s.d <= |ds|
    ensures s.Stop? ==> (Stat, p) in faults || ByteLen(sizeKB) < 0 || (Write, p) in faults
    ensures s.Stop? && s.err.Failed? ==> s.err.path == p
  {
    match StatOf(files, faults, p)
    case Exists(_) => Skip
    case StatError => Stop(Failed(Stat, p), 0)
    case NotExist =>
      var n := ByteLen(sizeKB);
      if n < 0 then Stop(LengthOutOfRange(n), 0)
      else if !Enough(ds, n) then Exhausted
      else if (Write, p) in faults then Stop(Failed(Write, p), DrawsUsed(ds, n))
      else
        RandBytesAreLetters(ds, n);
        Fill(RandBytes(ds, n), DrawsUsed(ds, n))
  }

  /** The iterations i .. |ps| - 1 of the loop over the pool paths `ps`,
      starting from `files` with the source about to yield `ds`. */
  function PoolFrom(ps: seq<Path>, sizeKB: Uint, i: nat,
                    files: map<Path, Bytes>, faults: set<(Op, Path)>, ds: seq<nat>): (r: Option<PoolResult>)
    requires i <= |ps|
    ensures r.Some? ==> i + r.value.appended <= |ps| && r.value.used <= |ds|
    decreases |ps| - i
  {
    if i == |ps| then Some(PoolResult(0, files, 0, None))
    else
      match StepAt(sizeKB, ps[i], files, faults, ds)
      case Skip => Extend(1, 0, PoolFrom(ps, sizeKB, i + 1, files, faults, ds))
      case Fill(data, d) => Extend(1, d, PoolFrom(ps, sizeKB, i + 1, files[ps[i] := data], faults, ds[d..]))
      case Stop(err, d) => Some(PoolResult(1, files, d, Some(err)))
      case Exhausted => None
  }

  /** The state of the loop before iteration i, over a source whose values
      are `tape`: the run started at position p0, the iterations so far
      moved it to `pos` and left `files`, and the rest of the loop completes
      the whole result `total`. */
  ghost predicate PoolLoop(ps: seq<Path>, sizeKB: Uint, faults: set<(Op, Path)>, tape: seq<nat>, p0: nat,
                           i: nat, files: map<Path, Bytes>, pos: nat, total: Option<PoolResult>) {
    i <= |ps| && p0 <= pos <= |tape| && total.Some? &&
    total == Extend(i, pos - p0, PoolFrom(ps, sizeKB, i, files, faults, tape[pos..]))
  }

  /** One iteration at path i: the source holds the draws it needs, and
      either the loop moves on to path i + 1 over the files the step leaves,
      or the step's error ends the run with path i appended. */
  lemma PoolStep(ps: seq<Path>, sizeKB: Uint, faults: set<(Op, Path)>, tape: seq<nat>, p0: nat,
                 i: nat, files: map<Path, Bytes>, pos: nat, total: Option<PoolResult>)
    requires PoolLoop(ps, sizeKB, faults, tape, p0, i, files, pos, total) && i < |ps|
    ensures var s := StepAt(sizeKB, ps[i], files, faults, tape[pos..]);
      && !s.Exhausted?
      && (!s.Stop? ==> PoolLoop(ps, sizeKB, faults, tape, p0, i + 1, After(s, ps[i], files), pos + Drawn(s), total))
      && (s.Stop? ==> total == Some(PoolResult(i + 1, files, pos - p0 + s.d, Some(s.err))))
  {
    var s := StepAt(sizeKB, ps[i], files, faults, tape[pos..]);
    if s.Fill? {
      DropDrop(tape, pos, s.d);
    }
  }

  /** The list holds its first `g0` entries followed by the first i pool paths. */
  ghost predicate Listed(list: seq<Path>, g0: seq<Path>, ps: seq<Path>, i: nat) {
    i <= |ps| && list == g0 + ps[..i]
  }

  /** Appending path i extends the listed prefix by one. */
  lemma ListedStep(list: seq<Path>, g0: seq<Path>, ps: seq<Path>, i: nat)
    requires Listed(list, g0, ps, i) && i < |ps|
    ensures Listed(list + [ps[i]], g0, ps, i + 1)
  {
    assert ps[..i + 1] == ps[..i] + [ps[i]];
  }

  /** Past the last path the loop has produced the whole result. */
  lemma PoolEnd(ps: seq<Path>, sizeKB: Uint, faults: set<(Op, Path)>, tape: seq<nat>, p0: nat,
                files: map<Path, Bytes>, pos: nat, total: Option<PoolResult>)
    requires PoolLoop(ps, sizeKB, faults, tape, p0, |ps|, files, pos, total)
    ensures total == Some(PoolResult(|ps|, files, pos - p0, None))
  {
  }

  /** The whole of `generateRandomFilePool`: create the directory, then the loop. */
  function PoolRun(dir: Path, sizeKB: Uint, count: Uint,
                   files: map<Path, Bytes>, faults: set<(Op, Path)>, ds: seq<nat>): (r: Option<PoolResult>)
    ensures r.Some? ==> r.value.appended <= count && r.value.used <= |ds|
  {
    if (Mkdir, dir) in faults then Some(PoolResult(0, files, 0, Some(Failed(Mkdir, dir))))
    else PoolFrom(PoolPaths(dir, sizeKB, count), sizeKB, 0, files, faults, ds)
  }

  /** A loop that finished appended every remaining path, none of which
      failed to be stated. */
  lemma {:induction false} PoolFromDone(ps: seq<Path>, sizeKB: Uint, i: nat,
                                        files: map<Path, Bytes>, faults: set<(Op, Path)>, ds: seq<nat>)
    requires i <= |ps| && PoolFrom(ps, sizeKB, i, files, faults, ds).Some?
    requires PoolFrom(ps, sizeKB, i, files, faults, ds).value.err.None?
    ensures PoolFrom(ps, sizeKB, i, files, faults, ds).value.appended == |ps| - i
    ensures forall k :: i <= k < |ps| ==> (Stat, ps[k]) !in faults
    decreases |ps| - i
  {
    if i < |ps| {
      match StepAt(sizeKB, ps[i], files, faults, ds)
      case Skip =>
        PoolFromDone(ps, sizeKB, i + 1, files, faults, ds);
      case Fill(data, d) =>
        PoolFromDone(ps, sizeKB, i + 1, files[ps[i] := data], faults, ds[d..]);
    }
  }

  /** A loop that failed appended at least one path, and, when an operation
      failed, the path it failed on last. */
  lemma {:induction false} PoolFromStop(ps: seq<Path>, sizeKB: Uint, i: nat,
                                        files: map<Path, Bytes>, faults: set<(Op, Path)>, ds: seq<nat>)
    requires i <= |ps| && PoolFrom(ps, sizeKB, i, files, faults, ds).Some?
    requires PoolFrom(ps, sizeKB, i, files, faults, ds).value.err.Some?
    ensures var r := PoolFrom(ps, sizeKB, i, files, faults, ds).value;
      r.appended > 0 && (r.err.value.Failed? ==> r.err.value.path == ps[i + r.appended - 1])
    decreases |ps| - i
  {
    assert i < |ps|;
    match StepAt(sizeKB, ps[i], files, faults, ds)
    case Skip =>
      PoolFromStop(ps, sizeKB, i + 1, files, faults, ds);
    case Fill(data, d) =>
      PoolFromStop(ps, sizeKB, i + 1, files[ps[i] := data], faults, ds[d..]);
    case Stop(_, _) =>
  }

  /** Files that existed are left exactly as they were, and every file the
      loop created is at one of the appended paths and holds ByteLen(sizeKB)
      letters a-z, A-Z. */
  lemma {:induction false} PoolFromFiles(ps: seq<Path>, sizeKB: Uint, i: nat,
                                         files: map<Path, Bytes>, faults: set<(Op, Path)>, ds: seq<nat>)
    requires i <= |ps| && PoolFrom(ps, sizeKB, i, files, faults, ds).Some?
    ensures var r := PoolFrom(ps, sizeKB, i, files, faults, ds).value;
      && (forall p :: p in files ==> p in r.files && r.files[p] == files[p])
      && (forall p :: p in r.files && p !in files ==>
            (exists k :: i <= k < i + r.appended && ps[k] == p) && (Write, p) !in faults
            && |r.files[p]| == ByteLen(sizeKB) && AllLetters(r.files[p]))
    decreases |ps| - i
  {
    if i < |ps| {
      match StepAt(sizeKB, ps[i], files, faults, ds)
      case Skip =>
        PoolFromFiles(ps, sizeKB, i + 1, files, faults, ds);
      case Fill(data, d) =>
        PoolFromFiles(ps, sizeKB, i + 1, files[ps[i] := data], faults, ds[d..]);
      case Stop(_, _) =>
    }
  }

  /** A finished loop leaves a file at every pool path. */
  lemma {:induction false} PoolFromComplete(ps: seq<Path>, sizeKB: Uint, i: nat,
                                            files: map<Path, Bytes>, faults: set<(Op, Path)>, ds: seq<nat>)
    requires i <= |ps| && PoolFrom(ps, sizeKB, i, files, faults, ds).Some?
    requires PoolFrom(ps, sizeKB, i, files, faults, ds).value.err.None?
    ensures forall k :: i <= k < |ps| ==> ps[k] in PoolFrom(ps, sizeKB, i, files, faults, ds).value.files
    decreases |ps| - i
  {
    if i < |ps| {
      match StepAt(sizeKB, ps[i], files, faults, ds)
      case Skip =>
        PoolFromComplete(ps, sizeKB, i + 1, files, faults, ds);
        PoolFromFiles(ps, sizeKB, i + 1, files, faults, ds);
      case Fill(data, d) =>
        PoolFromComplete(ps, sizeKB, i + 1, files[ps[i] := data], faults, ds[d..]);
        PoolFromFiles(ps, sizeKB, i + 1, files[ps[i] := data], faults, ds[d..]);
    }
  }

  /** When every remaining pool file exists and can be stated, the loop
      writes nothing and consumes no randomness, whatever the source holds. */
  lemma {:induction false} PoolFromAllPresent(ps: seq<Path>, sizeKB: Uint, i: nat,
                                              files: map<Path, Bytes>, faults: set<(Op, Path)>, ds: seq<nat>)
    requires i <= |ps|
    requires forall k :: i <= k < |ps| ==> ps[k] in files && (Stat, ps[k]) !in faults
    ensures PoolFrom(ps, sizeKB, i, files, faults, ds) == Some(PoolResult(|ps| - i, files, 0, None))
    decreases |ps| - i
  {
    if i < |ps| {
      PoolFromAllPresent(ps, sizeKB, i + 1, files, faults, ds);
      assert StepAt(sizeKB, ps[i], files, faults, ds) == Skip;
    }
  }

  /** A successful run appended all count pool paths, kept every existing
      file and filled each missing one with ByteLen(sizeKB) letters; a failed
      run appended the paths up to and including the one it failed on. */
  lemma PoolRunOutcome(dir: Path, sizeKB: Uint, count: Uint,
                       files: map<Path, Bytes>, faults: set<(Op, Path)>, ds: seq<nat>)
    requires PoolRun(dir, sizeKB, count, files, faults, ds).Some?
    ensures var r := PoolRun(dir, sizeKB, count, files, faults, ds).value;
      && (forall p :: p in files ==> p in r.files && r.files[p] == files[p])
      && (forall p :: p in r.files && p !in files ==>
            (exists k :: 0 <= k < r.appended && FilePath(dir, sizeKB, k) == p) && (Write, p) !in faults
            && |r.files[p]| == ByteLen(sizeKB) && AllLetters(r.files[p]))
      && (r.err.None? ==> r.appended == count && forall k :: 0 <= k < count ==> FilePath(dir, sizeKB, k) in r.files)
      && (r.err.Some? && r.err.value.Failed? && r.err.value.op != Mkdir ==>
            r.appended > 0 && r.err.value.path == FilePath(dir, sizeKB, r.appended - 1))
  {
    var ps := PoolPaths(dir, sizeKB, count);
    if (Mkdir, dir) !in faults {
      PoolFromFiles(ps, sizeKB, 0, files, faults, ds);
      var r := PoolRun(dir, sizeKB, count, files, faults, ds).value;
      if r.err.None? {
        PoolFromDone(ps, sizeKB, 0, files, faults, ds);
        PoolFromComplete(ps, sizeKB, 0, files, faults, ds);
      } else {
        PoolFromStop(ps, sizeKB, 0, files, faults, ds);
      }
    }
  }

  /** Path p passes its iteration over `files`: it can be stated, and if it
      is missing, the length is valid and writing it does not fail. */
  predicate Passes(sizeKB: Uint, p: Path, files: map<Path, Bytes>, faults: set<(Op, Path)>) {
    (Stat, p) !in faults && (p !in files ==> ByteLen(sizeKB) >= 0 && (Write, p) !in faults)
  }

  /** Over distinct paths, the loop finishes exactly when every remaining
      path passes its iteration over the files it started from; in
      particular a stat error, a negative length or a write error on any of
      them ends the loop with an error. */
  lemma {:induction false} PoolFromSucceeds(ps: seq<Path>, sizeKB: Uint, i: nat,
                                            files: map<Path, Bytes>, faults: set<(Op, Path)>, ds: seq<nat>)
    requires i <= |ps| && PoolFrom(ps, sizeKB, i, files, faults, ds).Some?
    requires forall a, b :: i <= a < b < |ps| ==> ps[a] != ps[b]
    ensures PoolFrom(ps, sizeKB, i, files, faults, ds).value.err.None? <==>
      forall k :: i <= k < |ps| ==> Passes(sizeKB, ps[k], files, faults)
    decreases |ps| - i
  {
    if i < |ps| {
      match StepAt(sizeKB, ps[i], files, faults, ds)
      case Skip =>
        PoolFromSucceeds(ps, sizeKB, i + 1, files, faults, ds);
      case Fill(data, d) =>
        PoolFromSucceeds(ps, sizeKB, i + 1, files[ps[i] := data], faults, ds[d..]);
        assert forall k :: i < k < |ps| ==> (ps[k] in files[ps[i] := data] <==> ps[k] in files);
      case Stop(_, _) =>
        assert !Passes(sizeKB, ps[i], files, faults);
    }
  }

  /** `generateRandomFilePool` returns nil exactly when the directory can be
      created and every pool path passes its iteration: an error from
      `MkdirAll`, `os.Stat` or `ioutil.WriteFile` on any of them, or a
      negative length for a missing one, makes the run fail. */
  lemma PoolRunSucceeds(dir: Path, sizeKB: Uint, count: Uint,
                        files: map<Path, Bytes>, faults: set<(Op, Path)>, ds: seq<nat>)
    requires PoolRun(dir, sizeKB, count, files, faults, ds).Some?
    ensures PoolRun(dir, sizeKB, count, files, faults, ds).value.err.None? <==>
      (Mkdir, dir) !in faults && forall k :: 0 <= k < count ==> Passes(sizeKB, FilePath(dir, sizeKB, k), files, faults)
  {
    if (Mkdir, dir) !in faults {
      var ps := PoolPaths(dir, sizeKB, count);
      forall a, b | 0 <= a < b < |ps|
        ensures ps[a] != ps[b]
      {
        if ps[a] == ps[b] {
          FilePathInjective(dir, sizeKB, a, b);
        }
      }
      PoolFromSucceeds(ps, sizeKB, 0, files, faults, ds);
    }
  }

  /** A write error on a missing pool path makes the run fail. */
  lemma PoolRunWriteFault(dir: Path, sizeKB: Uint, count: Uint,
                          files: map<Path, Bytes>, faults: set<(Op, Path)>, ds: seq<nat>, k: nat)
    requires PoolRun(dir, sizeKB, count, files, faults, ds).Some?
    requires k < count && FilePath(dir, sizeKB, k) !in files && (Write, FilePath(dir, sizeKB, k)) in faults
    ensures PoolRun(dir, sizeKB, count, files, faults, ds).value.err.Some?
  {
    PoolRunSucceeds(dir, sizeKB, count, files, faults, ds);
    assert !Passes(sizeKB, FilePath(dir, sizeKB, k), files, faults);
  }

  /** Running the pool again over the files a successful run left behind
      writes nothing and consumes no randomness, whatever the source holds. */
  lemma PoolRunIdempotent(dir: Path, sizeKB: Uint, count: Uint,
                          files: map<Path, Bytes>, faults: set<(Op, Path)>, ds: seq<nat>, ds2: seq<nat>)
    requires PoolRun(dir, sizeKB, count, files, faults, ds).Some?
    requires PoolRun(dir, sizeKB, count, files, faults, ds).value.err.None?
    ensures var r := PoolRun(dir, sizeKB, count, files, faults, ds).value;
      PoolRun(dir, sizeKB, count, r.files, faults, ds2) == Some(PoolResult(r.appended, r.files, 0, None))
  {
    var ps := PoolPaths(dir, sizeKB, count);
    var r := PoolRun(dir, sizeKB, count, files, faults, ds).value;
    PoolFromDone(ps, sizeKB, 0, files, faults, ds);
    PoolFromComplete(ps, sizeKB, 0, files, faults, ds);
    PoolFromAllPresent(ps, sizeKB, 0, r.files, faults, ds2);
  }
}
