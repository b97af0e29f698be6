/** `GenerateImage`, up to and including the archive of the build context:
    fill the file pool, shuffle the list of pool files, write the manifest,
    then archive the listed files followed by the manifest. */
module Image {
  import opened Types
  import opened Letters
  import opened Paths
  import opened Shuffle
  import opened Manifest
  import opened Archive
  import opened Pool

  /** The list of pool files afterwards, the files and archives, the number
      of draws consumed, and the error that ended the run. */
  datatype ImageResult = ImageResult(list: seq<Path>, files: map<Path, Bytes>, archives: map<Path, seq<Entry>>,
                                     used: nat, err: Option<Error>)

  /** A run of `GenerateImage` over image directory `dir`, starting with the
      list `list0`, the source about to yield `ds`, and the archive written
      to `tarFile`. None stands for a source that ran out of draws. */
  function ImageRun(dir: Path, list0: seq<Path>, sizeKB: Uint, count: Uint, files: map<Path, Bytes>,
                    archives: map<Path, seq<Entry>>, faults: set<(Op, Path)>, ds: seq<nat>,
                    tarFile: Path): (r: Option<ImageResult>)
    ensures r.Some? ==> r.value.used <= |ds|
  {
    match PoolRun(dir, sizeKB, count, files, faults, ds)
    case None => None
    case Some(pr) =>
      var list1 := list0 + PoolPaths(dir, sizeKB, count)[..pr.appended];
      if pr.err.Some? then Some(ImageResult(list1, pr.files, archives, pr.used, pr.err))
      else
        match ImageTail(list1, pr.files, archives, faults, ds[pr.used..], tarFile)
        case None => None
        case Some(t) => Some(t.(used := pr.used + t.used))
  }

  /** The stages after the pool, over the list `list1`: shuffle it with one
      draw per path from `ds`, write the manifest, then archive the list
      followed by the manifest. None stands for a source that ran out of
      draws. */
  function ImageTail(list1: seq<Path>, files: map<Path, Bytes>, archives: map<Path, seq<Entry>>,
                     faults: set<(Op, Path)>, ds: seq<nat>, tarFile: Path): (r: Option<ImageResult>)
    ensures r.Some? <==> |list1| <= |ds|
    ensures r.Some? ==> r.value.used == |list1| && multiset(r.value.list) == multiset(list1)
  {
    if |list1| > |ds| then None
    else
      var list2 := Shuffled(list1, Choices(ds, |list1|), |list1|);
      ShuffledIsPermutation(list1, Choices(ds, |list1|), |list1|);
      if (Write, DockerfilePath) in faults then
        Some(ImageResult(list2, files, archives, |list1|, Some(Failed(Write, DockerfilePath))))
      else
        var files2 := files[DockerfilePath := ManifestText(list2)];
        var a := Archive.CreateArchive(files2, archives, faults, tarFile, list2 + [DockerfilePath]);
        Some(ImageResult(list2, files2, a.archives, |list1|, a.err))
  }

  /** A run is the pool followed, when the pool succeeded, by the later
      stages over the list it left and the draws after its own. */
  lemma ImageRunSplit(dir: Path, list0: seq<Path>, sizeKB: Uint, count: Uint, files: map<Path, Bytes>,
                      archives: map<Path, seq<Entry>>, faults: set<(Op, Path)>, ds: seq<nat>, tarFile: Path)
    requires ImageRun(dir, list0, sizeKB, count, files, archives, faults, ds, tarFile).Some?
    ensures PoolRun(dir, sizeKB, count, files, faults, ds).Some?
    ensures var r := ImageRun(dir, list0, sizeKB, count, files, archives, faults, ds, tarFile).value;
      var pr := PoolRun(dir, sizeKB, count, files, faults, ds).value;
      var list1 := list0 + PoolPaths(dir, sizeKB, count)[..pr.appended];
      && (pr.err.Some? ==> r == ImageResult(list1, pr.files, archives, pr.used, pr.err))
      && (pr.err.None? ==>
            var t := ImageTail(list1, pr.files, archives, faults, ds[pr.used..], tarFile);
            && t.Some? && r.used == pr.used + |list1|
            && r.list == t.value.list && r.files == t.value.files && r.archives == t.value.archives
            && r.err == t.value.err)
  {
  }

  /** The later stages keep every file but the manifest. */
  lemma TailFiles(list1: seq<Path>, files: map<Path, Bytes>, archives: map<Path, seq<Entry>>,
                  faults: set<(Op, Path)>, ds: seq<nat>, tarFile: Path)
    requires ImageTail(list1, files, archives, faults, ds, tarFile).Some?
    ensures var t := ImageTail(list1, files, archives, faults, ds, tarFile).value;
      && (forall p :: p in files && p != DockerfilePath ==> p in t.files && t.files[p] == files[p])
      && (forall p :: p in t.files && p != DockerfilePath ==> p in files)
  {
  }

  /** When the later stages succeed, only `tarFile` changes among the
      archives: it holds an entry for each listed file, in list order, then
      one for the manifest, each with mode 0600, the file's bytes and their
      number as its size; the manifest entry holds the ADD directives. */
  lemma TailArchive(list1: seq<Path>, files: map<Path, Bytes>, archives: map<Path, seq<Entry>>,
                    faults: set<(Op, Path)>, ds: seq<nat>, tarFile: Path)
    requires ImageTail(list1, files, archives, faults, ds, tarFile).Some?
    requires ImageTail(list1, files, archives, faults, ds, tarFile).value.err.None?
    ensures var t := ImageTail(list1, files, archives, faults, ds, tarFile).value;
      var names := t.list + [DockerfilePath];
      && tarFile in t.archives && t.archives == archives[tarFile := t.archives[tarFile]]
      && |t.archives[tarFile]| == |names| == |list1| + 1
      && (forall k :: 0 <= k < |names| ==>
            var e := t.archives[tarFile][k];
            e.name == names[k] && e.mode == ENTRY_MODE && e.name in t.files
            && e.body == t.files[e.name] && e.size == |e.body|)
      && t.archives[tarFile][|names| - 1].body == ManifestText(t.list)
  {
    var t := ImageTail(list1, files, archives, faults, ds, tarFile).value;
    WriteEntriesComplete(t.files, faults, t.list + [DockerfilePath]);
  }

  /** The list afterwards is a permutation of the starting list followed by
      the pool paths the pool loop appended, which are all of them when the
      run succeeds. */
  lemma ImageRunList(dir: Path, list0: seq<Path>, sizeKB: Uint, count: Uint, files: map<Path, Bytes>,
                     archives: map<Path, seq<Entry>>, faults: set<(Op, Path)>, ds: seq<nat>, tarFile: Path)
    requires ImageRun(dir, list0, sizeKB, count, files, archives, faults, ds, tarFile).Some?
    ensures var r := ImageRun(dir, list0, sizeKB, count, files, archives, faults, ds, tarFile).value;
      var a := PoolRun(dir, sizeKB, count, files, faults, ds).value.appended;
      && multiset(r.list) == multiset(list0 + PoolPaths(dir, sizeKB, count)[..a])
      && (r.err.None? ==> a == count)
  {
    ImageRunSplit(dir, list0, sizeKB, count, files, archives, faults, ds, tarFile);
    PoolRunOutcome(dir, sizeKB, count, files, faults, ds);
  }

  /** A successful run leaves one archive changed, `tarFile`: it holds an
      entry for each listed file, in list order, then one for the manifest,
      each with mode 0600, the file's bytes and their number as its size;
      the manifest entry holds the ADD directives of the list. */
  lemma ImageRunArchive(dir: Path, list0: seq<Path>, sizeKB: Uint, count: Uint, files: map<Path, Bytes>,
                        archives: map<Path, seq<Entry>>, faults: set<(Op, Path)>, ds: seq<nat>, tarFile: Path)
    requires ImageRun(dir, list0, sizeKB, count, files, archives, faults, ds, tarFile).Some?
    requires ImageRun(dir, list0, sizeKB, count, files, archives, faults, ds, tarFile).value.err.None?
    ensures var r := ImageRun(dir, list0, sizeKB, count, files, archives, faults, ds, tarFile).value;
      var names := r.list + [DockerfilePath];
      && tarFile in r.archives && r.archives == archives[tarFile := r.archives[tarFile]]
      && |r.archives[tarFile]| == |names| == |list0| + count + 1
      && (forall k :: 0 <= k < |names| ==>
            var e := r.archives[tarFile][k];
            e.name == names[k] && e.mode == ENTRY_MODE && e.name in r.files
            && e.body == r.files[e.name] && e.size == |e.body|)
      && r.archives[tarFile][|names| - 1].body == ManifestText(r.list)
  {
    ImageRunSplit(dir, list0, sizeKB, count, files, archives, faults, ds, tarFile);
    PoolRunOutcome(dir, sizeKB, count, files, faults, ds);
    var pr := PoolRun(dir, sizeKB, count, files, faults, ds).value;
    var list1 := list0 + PoolPaths(dir, sizeKB, count)[..pr.appended];
    TailArchive(list1, pr.files, archives, faults, ds[pr.used..], tarFile);
  }

  /** Whatever the outcome, files other than the manifest that existed are
      kept as they were, and every other file is a pool path holding
      ByteLen(sizeKB) letters a-z, A-Z. */
  lemma ImageRunFiles(dir: Path, list0: seq<Path>, sizeKB: Uint, count: Uint, files: map<Path, Bytes>,
                      archives: map<Path, seq<Entry>>, faults: set<(Op, Path)>, ds: seq<nat>, tarFile: Path)
    requires ImageRun(dir, list0, sizeKB, count, files, archives, faults, ds, tarFile).Some?
    ensures var r := ImageRun(dir, list0, sizeKB, count, files, archives, faults, ds, tarFile).value;
      && (forall p :: p in files && p != DockerfilePath ==> p in r.files && r.files[p] == files[p])
      && (forall p :: p in r.files && p !in files && p != DockerfilePath ==>
            (exists k :: 0 <= k < count && FilePath(dir, sizeKB, k) == p)
            && |r.files[p]| == ByteLen(sizeKB) && AllLetters(r.files[p]))
  {
    ImageRunSplit(dir, list0, sizeKB, count, files, archives, faults, ds, tarFile);
    PoolRunOutcome(dir, sizeKB, count, files, faults, ds);
    var pr := PoolRun(dir, sizeKB, count, files, faults, ds).value;
    if pr.err.None? {
      var list1 := list0 + PoolPaths(dir, sizeKB, count)[..pr.appended];
      TailFiles(list1, pr.files, archives, faults, ds[pr.used..], tarFile);
    }
  }

  /** The first run of a factory archives no name twice: the pool paths of
      its image directory are distinct and differ from the manifest's path. */
  lemma ImageRunDistinct(seed: Int64, sizeKB: Uint, count: Uint, files: map<Path, Bytes>,
                         archives: map<Path, seq<Entry>>, faults: set<(Op, Path)>, ds: seq<nat>, tarFile: Path)
    requires ImageRun(ImageDir(seed), [], sizeKB, count, files, archives, faults, ds, tarFile).Some?
    requires ImageRun(ImageDir(seed), [], sizeKB, count, files, archives, faults, ds, tarFile).value.err.None?
    ensures var r := ImageRun(ImageDir(seed), [], sizeKB, count, files, archives, faults, ds, tarFile).value;
      Distinct(r.list + [DockerfilePath])
  {
    var dir := ImageDir(seed);
    var ps := PoolPaths(dir, sizeKB, count);
    var pr := PoolRun(dir, sizeKB, count, files, faults, ds).value;
    ImageRunList(dir, [], sizeKB, count, files, archives, faults, ds, tarFile);
    assert [] + ps[..pr.appended] == ps;
    ShuffledPoolDistinct(seed, sizeKB, count, Choices(ds[pr.used..], count));
  }

  /** Any shuffle of the pool paths of an image directory, followed by the
      manifest's path, holds no name twice. */
  lemma ShuffledPoolDistinct(seed: Int64, sizeKB: Uint, count: Uint, js: seq<nat>)
    requires ValidChoices(js, count) && |js| == count
    ensures Distinct(Shuffled(PoolPaths(ImageDir(seed), sizeKB, count), js, count) + [DockerfilePath])
  {
    var dir := ImageDir(seed);
    var ps := PoolPaths(dir, sizeKB, count);
    forall i, j | 0 <= i < j < |ps|
      ensures ps[i] != ps[j]
    {
      if ps[i] == ps[j] {
        FilePathInjective(dir, sizeKB, i, j);
      }
    }
    var list := Shuffled(ps, js, count);
    ShuffledDistinct(ps, js, count);
    ShuffledIsPermutation(ps, js, count);
    forall k | 0 <= k < |list|
      ensures list[k] != DockerfilePath
    {
      assert list[k] in multiset(ps);
      var m :| 0 <= m < |ps| && ps[m] == list[k];
      FilePathIsNotDockerfile(seed, sizeKB, m);
    }
    var names := list + [DockerfilePath];
    forall i, j | 0 <= i < j < |names|
      ensures names[i] != names[j]
    {
      if j < |list| {
        assert names[i] == list[i] && names[j] == list[j];
      }
    }
  }

  /** The first run of a factory over a directory holding none of its pool
      files: the archive holds `layerCount` pool entries of ByteLen(sizeKB)
      letters each, then the manifest. */
  lemma ImageRunFreshEntries(seed: Int64, sizeKB: Uint, count: Uint, files: map<Path, Bytes>,
                             archives: map<Path, seq<Entry>>, faults: set<(Op, Path)>, ds: seq<nat>, tarFile: Path)
    requires forall k :: 0 <= k < count ==> FilePath(ImageDir(seed), sizeKB, k) !in files
    requires ImageRun(ImageDir(seed), [], sizeKB, count, files, archives, faults, ds, tarFile).Some?
    requires ImageRun(ImageDir(seed), [], sizeKB, count, files, archives, faults, ds, tarFile).value.err.None?
    ensures var r := ImageRun(ImageDir(seed), [], sizeKB, count, files, archives, faults, ds, tarFile).value;
      var es := r.archives[tarFile];
      && |es| == count + 1
      && (forall k :: 0 <= k < count ==> es[k].size == ByteLen(sizeKB) && AllLetters(es[k].body))
      && es[count].name == DockerfilePath && es[count].body == ManifestText(r.list)
  {
    var dir := ImageDir(seed);
    var ps := PoolPaths(dir, sizeKB, count);
    var r := ImageRun(dir, [], sizeKB, count, files, archives, faults, ds, tarFile).value;
    ImageRunList(dir, [], sizeKB, count, files, archives, faults, ds, tarFile);
    ImageRunArchive(dir, [], sizeKB, count, files, archives, faults, ds, tarFile);
    ImageRunFiles(dir, [], sizeKB, count, files, archives, faults, ds, tarFile);
    var es := r.archives[tarFile];
    assert [] + ps[..count] == ps;
    forall k | 0 <= k < count
      ensures es[k].size == ByteLen(sizeKB) && AllLetters(es[k].body)
    {
      var p := r.list[k];
      assert p in multiset(ps);
      var m :| 0 <= m < |ps| && ps[m] == p;
      FilePathIsNotDockerfile(seed, sizeKB, m);
      assert es[k].name == (r.list + [DockerfilePath])[k] == p;
    }
  }
}
