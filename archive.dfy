/** The archive `createArchive` writes: for each path in order, a header
    (name, mode 0600, the size `os.Stat` reports) and the file's bytes; the
    first failing step ends the archive. */
module Archive {
  import opened Types
  import opened FileSystem

  datatype ArchiveResult = ArchiveResult(entries: seq<Entry>, err: Option<Error>)

  /** The complete entry the loop writes for a readable file. */
  function EntryOf(files: map<Path, Bytes>, p: Path): Entry
    requires p in files
  {
    Entry(p, ENTRY_MODE, |files[p]|, files[p])
  }

  /** All four steps for path p succeed: stat, read, header, body. */
  predicate EntryOk(files: map<Path, Bytes>, faults: set<(Op, Path)>, p: Path) {
    StatOf(files, faults, p).Exists?
    && (Read, p) !in faults && (WriteHeader, p) !in faults && (WriteBody, p) !in faults
  }

  /** The entries written for `ps` and the error that stopped the loop; a
      failed body write leaves its header behind, with an empty body. */
  function WriteEntries(files: map<Path, Bytes>, faults: set<(Op, Path)>, ps: seq<Path>): (r: ArchiveResult)
    ensures |r.entries| <= |ps| && (r.err.None? ==> |r.entries| == |ps|)
    ensures r.err.Some? ==> r.err.value.Failed? && r.err.value.path in ps
  {
    if ps == [] then ArchiveResult([], None)
    else
      var p := ps[0];
      match StatOf(files, faults, p)
      case StatError => ArchiveResult([], Some(Failed(Stat, p)))
      case NotExist => ArchiveResult([], Some(Failed(Stat, p)))
      case Exists(size) =>
        if (Read, p) in faults then ArchiveResult([], Some(Failed(Read, p)))
        else if (WriteHeader, p) in faults then ArchiveResult([], Some(Failed(WriteHeader, p)))
        else if (WriteBody, p) in faults then ArchiveResult([Entry(p, ENTRY_MODE, size, [])], Some(Failed(WriteBody, p)))
        else
          var rest := WriteEntries(files, faults, ps[1..]);
          ArchiveResult([EntryOf(files, p)] + rest.entries, rest.err)
  }

  /** The state of the `createArchive` loop before path k: `done` holds the
      entries written so far, and the paths from k on write the rest of the
      final result `w`. */
  ghost predicate ArchiveLoop(files: map<Path, Bytes>, faults: set<(Op, Path)>, ps: seq<Path>,
                              k: nat, done: seq<Entry>, w: ArchiveResult) {
    k <= |ps| &&
    var rest := WriteEntries(files, faults, ps[k..]);
    w == ArchiveResult(done + rest.entries, rest.err)
  }

  /** One pass of the loop at path k: the step that fails decides the final
      result, and when all four pass the loop moves on to path k + 1 with the
      complete entry appended. */
  lemma ArchiveStep(files: map<Path, Bytes>, faults: set<(Op, Path)>, ps: seq<Path>,
                    k: nat, done: seq<Entry>, w: ArchiveResult)
    requires ArchiveLoop(files, faults, ps, k, done, w) && k < |ps|
    ensures var p := ps[k];
      if !StatOf(files, faults, p).Exists? then w == ArchiveResult(done, Some(Failed(Stat, p)))
      else if (Read, p) in faults then w == ArchiveResult(done, Some(Failed(Read, p)))
      else if (WriteHeader, p) in faults then w == ArchiveResult(done, Some(Failed(WriteHeader, p)))
      else if (WriteBody, p) in faults then
        w == ArchiveResult(done + [Entry(p, ENTRY_MODE, |files[p]|, [])], Some(Failed(WriteBody, p)))
      else ArchiveLoop(files, faults, ps, k + 1, done + [EntryOf(files, p)], w)
  {
    var p := ps[k];
    assert ps[k..][0] == p && ps[k..][1..] == ps[k + 1..];
    assert done + [] == done;
    if EntryOk(files, faults, p) {
      var next := WriteEntries(files, faults, ps[k + 1..]);
      assert done + ([EntryOf(files, p)] + next.entries) == (done + [EntryOf(files, p)]) + next.entries;
    }
  }

  /** Past the last path the loop has written the whole result. */
  lemma ArchiveEnd(files: map<Path, Bytes>, faults: set<(Op, Path)>, ps: seq<Path>,
                   done: seq<Entry>, w: ArchiveResult)
    requires ArchiveLoop(files, faults, ps, |ps|, done, w)
    ensures w == ArchiveResult(done, None)
  {
    assert ps[|ps|..] == [];
    assert done + [] == done;
  }

  /** Whatever the outcome, the k-th entry written is a header for the k-th
      path, with mode 0600. */
  lemma {:induction false} WriteEntriesNames(files: map<Path, Bytes>, faults: set<(Op, Path)>, ps: seq<Path>)
    ensures var es := WriteEntries(files, faults, ps).entries;
      forall k :: 0 <= k < |es| ==> es[k].name == ps[k] && es[k].mode == ENTRY_MODE
  {
    if ps != [] && EntryOk(files, faults, ps[0]) {
      WriteEntriesNames(files, faults, ps[1..]);
      var es, rest := WriteEntries(files, faults, ps).entries, WriteEntries(files, faults, ps[1..]).entries;
      assert forall k :: 1 <= k < |es| ==> es[k] == rest[k - 1] && ps[k] == ps[1..][k - 1];
    }
  }

  /** The archives after `createArchive(name, ps)`, and its error. */
  datatype ArchiveRun = ArchiveRun(archives: map<Path, seq<Entry>>, err: Option<Error>)

  /** `os.Create(name)` truncates the archive `name` and the loop writes its
      entries; no other archive changes, and a create failure changes none. */
  function CreateArchive(files: map<Path, Bytes>, archives: map<Path, seq<Entry>>,
                         faults: set<(Op, Path)>, name: Path, ps: seq<Path>): (r: ArchiveRun)
    ensures (Create, name) in faults ==> r.archives == archives && r.err == Some(Failed(Create, name))
    ensures (Create, name) !in faults ==> name in r.archives && |r.archives[name]| <= |ps|
  {
    if (Create, name) in faults then ArchiveRun(archives, Some(Failed(Create, name)))
    else
      var r := WriteEntries(files, faults, ps);
      ArchiveRun(archives[name := r.entries], r.err)
  }

  /** No archive but `name` changes, and none appears besides it. */
  lemma CreateArchiveFrame(files: map<Path, Bytes>, archives: map<Path, seq<Entry>>,
                           faults: set<(Op, Path)>, name: Path, ps: seq<Path>)
    ensures var r := CreateArchive(files, archives, faults, name, ps);
      && (forall n :: n in archives && n != name ==> n in r.archives && r.archives[n] == archives[n])
      && (forall n :: n in r.archives ==> n in archives || n == name)
  {
  }

  /** The archive is complete exactly when every path passes all four steps,
      and then it holds one entry per path, in order, recording the path as
      its name, mode 0600, and a size equal to the number of body bytes. */
  lemma {:induction false} WriteEntriesComplete(files: map<Path, Bytes>, faults: set<(Op, Path)>, ps: seq<Path>)
    ensures WriteEntries(files, faults, ps).err.None? <==> forall k :: 0 <= k < |ps| ==> EntryOk(files, faults, ps[k])
    ensures WriteEntries(files, faults, ps).err.None? ==>
      var es := WriteEntries(files, faults, ps).entries;
      |es| == |ps| &&
      forall k :: 0 <= k < |ps| ==> ps[k] in files && es[k] == EntryOf(files, ps[k])
  {
    if ps != [] {
      WriteEntriesComplete(files, faults, ps[1..]);
      var r := WriteEntries(files, faults, ps);
      if EntryOk(files, faults, ps[0]) {
        var rest := WriteEntries(files, faults, ps[1..]);
        assert r.err == rest.err;
        assert forall k :: 1 <= k < |ps| ==> ps[k] == ps[1..][k - 1];
      }
    }
  }

  /** The index of the first path that does not pass all four steps, or
      |ps| when all of them pass. */
  function FirstBad(files: map<Path, Bytes>, faults: set<(Op, Path)>, ps: seq<Path>): (k: nat)
    ensures k <= |ps|
    ensures forall j :: 0 <= j < k ==> EntryOk(files, faults, ps[j])
    ensures k < |ps| ==> !EntryOk(files, faults, ps[k])
  {
    if ps == [] || !EntryOk(files, faults, ps[0]) then 0
    else
      var k := 1 + FirstBad(files, faults, ps[1..]);
      assert forall j :: 1 <= j < |ps| ==> ps[j] == ps[1..][j - 1];
      k
  }

  /** A failed archive names the first path that did not pass, and holds the
      complete entries of the paths before it, plus the header of the failing
      path when only its body write failed. */
  lemma {:induction false} WriteEntriesFirstFailure(files: map<Path, Bytes>, faults: set<(Op, Path)>, ps: seq<Path>)
    requires WriteEntries(files, faults, ps).err.Some?
    ensures var r, k := WriteEntries(files, faults, ps), FirstBad(files, faults, ps);
      && k < |ps| && r.err.value.Failed? && r.err.value.path == ps[k]
      && |r.entries| == (if r.err.value.op == WriteBody then k + 1 else k)
      && (forall j :: 0 <= j < k ==> r.entries[j] == EntryOf(files, ps[j]))
      && (r.err.value.op == WriteBody ==>
            ps[k] in files && r.entries[k] == Entry(ps[k], ENTRY_MODE, |files[ps[k]]|, []))
  {
    if EntryOk(files, faults, ps[0]) {
      WriteEntriesFirstFailure(files, faults, ps[1..]);
      var r, rest := WriteEntries(files, faults, ps), WriteEntries(files, faults, ps[1..]);
      var k := FirstBad(files, faults, ps[1..]);
      assert r.err == rest.err && r.entries == [EntryOf(files, ps[0])] + rest.entries;
      assert FirstBad(files, faults, ps) == k + 1;
      forall j | 0 <= j < k + 1 ensures r.entries[j] == EntryOf(files, ps[j]) {
        if j > 0 { assert ps[j] == ps[1..][j - 1] && r.entries[j] == rest.entries[j - 1]; }
      }
      assert ps[k + 1] == ps[1..][k];
      if r.err.value.op == WriteBody {
        assert r.entries[k + 1] == rest.entries[k];
      }
    }
  }
}
