/** `RandomImageFactory`: the image directory fixed by the seed, the seeded
    generator, and the list of pool files that every run appends to. */
module Factory {
  import opened Types
  import opened Letters
  import opened Paths
  import opened FileSystem
  import opened Source
  import opened Shuffle
  import opened Manifest
  import opened Archive
  import opened Pool
  import opened Image

  /** The state of `randBytes(n)` over the draws `ds` (chunk stream `xs`):
      `drawn` draws taken, `remain` chunks left in `cache`, c chunks read,
      the letters `ls` accepted so far, and index i the next to fill. */
  ghost predicate Sampler(ds: seq<nat>, xs: seq<nat>, n: nat, i: int, drawn: nat, remain: int,
                          c: int, cache: int, ls: seq<char>) {
    && xs == Chunks(ds) && -1 <= i < n
    && 1 <= drawn <= |ds| && 0 <= remain <= 10 && c == 10 * drawn - remain
    && (remain == 10 ==> c == 0)
    && cache == Shifted(ds[drawn - 1], 10 - remain)
    && ls == Collected(xs, 0, c) && |ls| == n - 1 - i
    && AcceptedFrom(xs, c) >= i + 1
    && (n > 0 && i == -1 ==> c > 0 && Accepted(xs[c - 1]))
    && (n == 0 ==> c == 0)
  }

  /** The state just before chunk c is read: the cache holds at least one
      unread chunk. */
  ghost predicate Ready(ds: seq<nat>, xs: seq<nat>, n: nat, i: int, drawn: nat, remain: int,
                        c: int, cache: int, ls: seq<char>) {
    && xs == Chunks(ds) && 0 <= i < n
    && 1 <= drawn <= |ds| && 1 <= remain <= 10 && c == 10 * drawn - remain
    && cache == Shifted(ds[drawn - 1], 10 - remain)
    && ls == Collected(xs, 0, c) && |ls| == n - 1 - i
    && AcceptedFrom(xs, c) >= i + 1
  }

  /** A spent cache is refilled from the next draw, which exists because
      an accepted chunk is still ahead. */
  lemma SamplerRefill(ds: seq<nat>, xs: seq<nat>, n: nat, i: int, drawn: nat, remain: int,
                      c: int, cache: int, ls: seq<char>)
    requires Sampler(ds, xs, n, i, drawn, remain, c, cache, ls) && i >= 0 && remain == 0
    ensures drawn < |ds| && Ready(ds, xs, n, i, drawn + 1, 10, c, ds[drawn], ls)
  {
  }

  lemma SamplerKeep(ds: seq<nat>, xs: seq<nat>, n: nat, i: int, drawn: nat, remain: int,
                    c: int, cache: int, ls: seq<char>)
    requires Sampler(ds, xs, n, i, drawn, remain, c, cache, ls) && i >= 0 && remain > 0
    ensures Ready(ds, xs, n, i, drawn, remain, c, cache, ls)
  {
  }

  /** Reading chunk c: its value is the low six bits of the cache; an
      accepted chunk fills index i. */
  lemma SamplerRead(ds: seq<nat>, xs: seq<nat>, n: nat, i: int, drawn: nat, remain: int,
                    c: int, cache: int, ls: seq<char>)
    requires Ready(ds, xs, n, i, drawn, remain, c, cache, ls)
    ensures c < |xs| && cache % 64 == xs[c]
    ensures Accepted(xs[c]) ==>
      Sampler(ds, xs, n, i - 1, drawn, remain - 1, c + 1, cache / 64, ls + [Letter(xs[c])])
    ensures !Accepted(xs[c]) ==>
      Sampler(ds, xs, n, i, drawn, remain - 1, c + 1, cache / 64, ls)
  {
    assert c == 10 * (drawn - 1) + (10 - remain);
    ChunkOf(ds, drawn - 1, 10 - remain);
    CollectedSnoc(xs, 0, c);
  }

  /** When every byte is filled, the letters read are those of the scan, in
      reverse order, and the draws taken are those the scan needs. */
  lemma SamplerDone(ds: seq<nat>, xs: seq<nat>, n: nat, drawn: nat, remain: int,
                    c: int, cache: int, ls: seq<char>)
    requires Sampler(ds, xs, n, -1, drawn, remain, c, cache, ls)
    ensures Enough(ds, n) && DrawsUsed(ds, n) == drawn
    ensures RandBytes(ds, n) == Placed(ls, n)
  {
    CollectedIsTake(xs, 0, c, n);
  }

  class RandomImageFactory {
    const imageDir: Path
    const src: Rand
    var allGeneratedFiles: seq<Path>

    /** `NewRandomImageFactory(seed)`, with `tape` the values the generator
        seeded with `seed` hands out. */
    constructor (seed: Int64, tape: seq<Draw>)
      ensures imageDir == ImageDir(seed) && allGeneratedFiles == []
      ensures fresh(src) && src.Valid() && src.tape == tape && src.pos == 0
    {
      imageDir := ImageDir(seed);
      src := new Rand(tape);
      allGeneratedFiles := [];
    }

    /** `randBytes(n)`: one draw up front, then ten 6-bit chunks per draw,
        lowest bits first; a chunk below 52 is stored as a letter, filling
        the buffer from its last byte to its first. */
    method RandBytes(n: nat) returns (b: array<char>)
      requires src.Valid() && Enough(src.tape[src.pos..], n)
      modifies src`pos
      ensures src.Valid() && fresh(b)
      ensures b[..] == Letters.RandBytes(old(src.tape[src.pos..]), n)
      ensures src.pos == old(src.pos) + DrawsUsed(old(src.tape[src.pos..]), n)
    {
      ghost var ds: seq<nat> := src.tape[src.pos..];
      ghost var xs := Chunks(ds);
      ghost var p0 := src.pos;
      b := new char[n](_ => 0 as char);
      var i: int := n - 1;
      var cache: int := src.Int63();
      var remain: int := LetterIdxMax;
      ghost var drawn: nat := 1;
      ghost var c: int := 0;
      ghost var ls: seq<char> := [];
      LetterBytesAreLetters();
      while i >= 0
        invariant Sampler(ds, xs, n, i, drawn, remain, c, cache, ls)
        invariant src.pos == p0 + drawn && src.Valid()
        invariant b[..] == Placed(ls, n)
        decreases 10 * |ds| - c
      {
        if remain == 0 {
          SamplerRefill(ds, xs, n, i, drawn, remain, c, cache, ls);
          cache := src.Int63();
          remain := LetterIdxMax;
          drawn := drawn + 1;
          assert cache == ds[drawn - 1];
        } else {
          SamplerKeep(ds, xs, n, i, drawn, remain, c, cache, ls);
        }
        var idx := cache % 64;
        SamplerRead(ds, xs, n, i, drawn, remain, c, cache, ls);
        if idx < |LetterBytes| {
          PlacedStep(ls, n, Letter(idx));
          b[i] := Letter(idx);
          ls := ls + [Letter(idx)];
          i := i - 1;
        }
        cache := cache / 64;
        remain := remain - 1;
        c := c + 1;
      }
      SamplerDone(ds, xs, n, drawn, remain, c, cache, ls);
    }

    /** `shuffleGeneratedFilePaths`: for each index i in turn, swap the
        element at i with the one at `Intn(i + 1)`. */
    method ShuffleGeneratedFilePaths()
      requires src.Valid() && src.pos + |allGeneratedFiles| <= |src.tape|
      modifies this`allGeneratedFiles, src`pos
      ensures src.Valid() && src.pos == old(src.pos) + |old(allGeneratedFiles)|
      ensures var s, n := old(allGeneratedFiles), |old(allGeneratedFiles)|;
        allGeneratedFiles == Shuffled(s, Choices(old(src.tape[src.pos..]), n), n)
      ensures multiset(allGeneratedFiles) == multiset(old(allGeneratedFiles))
    {
      ghost var s0 := allGeneratedFiles;
      ghost var ds: seq<nat> := src.tape[src.pos..];
      ghost var js := Choices(ds, |s0|);
      ghost var p0 := src.pos;
      var i := 0;
      while i < |allGeneratedFiles|
        invariant 0 <= i <= |s0| == |allGeneratedFiles|
        invariant src.pos == p0 + i && src.Valid()
        invariant allGeneratedFiles == Shuffled(s0, js, i)
      {
        assert src.tape[src.pos] == ds[i] && js[i] == ds[i] % (i + 1);
        var j := src.Intn(i + 1);
        allGeneratedFiles := Swap(allGeneratedFiles, i, j);
        i := i + 1;
      }
      ShuffledIsPermutation(s0, js, |s0|);
    }

    /** The body of the `generateRandomFilePool` loop for one path: keep an
        existing file, fail on a stat error or a negative length, and
        otherwise write `randBytes(1024 * layerSizeKB)` to it. */
    method FillPoolFile(fs: FS, filePath: Path, sizeKB: Uint, ghost s: Step) returns (err: Option<Error>)
      requires src.Valid() && s == StepAt(sizeKB, filePath, fs.files, fs.faults, src.tape[src.pos..]) && !s.Exhausted?
      modifies src`pos, fs`files
      ensures src.Valid()
      ensures fs.files == After(s, filePath, old(fs.files)) && src.pos == old(src.pos) + Drawn(s)
      ensures err == if s.Stop? then Some(s.err) else None
    {
      var st := fs.Stat(filePath);
      if st.Exists? {
        return None;
      } else if st.StatError? {
        return Some(Failed(Stat, filePath));
      }
      var n := ByteLen(sizeKB);
      if n < 0 {
        return Some(LengthOutOfRange(n));
      }
      var b := RandBytes(n);
      var data := b[..];
      var ok := fs.WriteFile(filePath, data);
      if !ok {
        return Some(Failed(Write, filePath));
      }
      return None;
    }

    /** One pass of the `generateRandomFilePool` loop, for index i: append
        the pool path to the list and fill its file; the loop moves on to
        index i + 1 or has reached its final result. */
    method PoolIteration(fs: FS, sizeKB: Uint, i: Uint, ghost ps: seq<Path>, ghost p0: nat,
                         ghost total: Option<PoolResult>) returns (err: Option<Error>)
      requires src.Valid() && i < |ps| && ps[i] == FilePath(imageDir, sizeKB, i)
      requires PoolLoop(ps, sizeKB, fs.faults, src.tape, p0, i, fs.files, src.pos, total)
      modifies this`allGeneratedFiles, src`pos, fs`files
      ensures src.Valid() && p0 <= src.pos && allGeneratedFiles == old(allGeneratedFiles) + [ps[i]]
      ensures err.None? ==> PoolLoop(ps, sizeKB, fs.faults, src.tape, p0, i + 1, fs.files, src.pos, total)
      ensures err.Some? ==> total == Some(PoolResult(i + 1, fs.files, src.pos - p0, err))
    {
      var filePath := FilePath(imageDir, sizeKB, i);
      allGeneratedFiles := allGeneratedFiles + [filePath];
      PoolStep(ps, sizeKB, fs.faults, src.tape, p0, i, fs.files, src.pos, total);
      ghost var s := StepAt(sizeKB, filePath, fs.files, fs.faults, src.tape[src.pos..]);
      err := FillPoolFile(fs, filePath, sizeKB, s);
    }

    /** The `generateRandomFilePool` loop over the pool paths `ps`, once the
        image directory exists; `total` is the result the loop is to reach. */
    method FillRandomFilePool(fs: FS, sizeKB: Uint, count: Uint, ghost ps: seq<Path>,
                              ghost total: Option<PoolResult>) returns (err: Option<Error>)
      requires src.Valid() && ps == PoolPaths(imageDir, sizeKB, count)
      requires PoolLoop(ps, sizeKB, fs.faults, src.tape, src.pos, 0, fs.files, src.pos, total)
      modifies this`allGeneratedFiles, src`pos, fs`files
      ensures src.Valid() && old(src.pos) <= src.pos && total.Some?
      ensures allGeneratedFiles == old(allGeneratedFiles) + ps[..total.value.appended]
      ensures total == Some(PoolResult(total.value.appended, fs.files, src.pos - old(src.pos), err))
    {
      ghost var p0, g0 := src.pos, allGeneratedFiles;
      var i: int := 0;
      while i < count
        invariant 0 <= i <= count && src.Valid()
        invariant Listed(allGeneratedFiles, g0, ps, i)
        invariant PoolLoop(ps, sizeKB, fs.faults, src.tape, p0, i, fs.files, src.pos, total)
      {
        ListedStep(allGeneratedFiles, g0, ps, i);
        err := PoolIteration(fs, sizeKB, i, ps, p0, total);
        if err.Some? {
          return;
        }
        i := i + 1;
      }
      PoolEnd(ps, sizeKB, fs.faults, src.tape, p0, fs.files, src.pos, total);
      assert ps[..i] == ps;
      return None;
    }

    /** `generateRandomFilePool(layerSizeKB, layerCount)`: create the image
        directory, then for each index append the pool path to the list, keep
        the file when it exists, and otherwise fill it with
        `randBytes(1024 * layerSizeKB)`; the first failure ends the run. */
    method GenerateRandomFilePool(fs: FS, sizeKB: Uint, count: Uint) returns (err: Option<Error>)
      requires src.Valid() && PoolRun(imageDir, sizeKB, count, fs.files, fs.faults, src.tape[src.pos..]).Some?
      modifies this`allGeneratedFiles, src`pos, fs`files
      ensures src.Valid()
      ensures var r := PoolRun(imageDir, sizeKB, count, old(fs.files), fs.faults, old(src.tape[src.pos..])).value;
        && allGeneratedFiles == old(allGeneratedFiles) + PoolPaths(imageDir, sizeKB, count)[..r.appended]
        && fs.files == r.files && src.pos == old(src.pos) + r.used && err == r.err
    {
      var ok := fs.MkdirAll(imageDir);
      if !ok {
        return Some(Failed(Mkdir, imageDir));
      }
      ghost var ps := PoolPaths(imageDir, sizeKB, count);
      ghost var total := PoolFrom(ps, sizeKB, 0, fs.files, fs.faults, src.tape[src.pos..]);
      ExtendZero(total);
      err := FillRandomFilePool(fs, sizeKB, count, ps, total);
    }

    /** `generateDockerfile(filePaths)`: the header line and one ADD line per
        path, written to ./dockerfile.generated; on a failed write the name
        returned is empty. */
    method GenerateDockerfile(fs: FS, filePaths: seq<Path>) returns (name: Path, err: Option<Error>)
      modifies fs`files
      ensures (Write, DockerfilePath) !in fs.faults ==>
        name == DockerfilePath && err.None? && fs.files == old(fs.files)[DockerfilePath := ManifestText(filePaths)]
      ensures (Write, DockerfilePath) in fs.faults ==>
        name == "" && err == Some(Failed(Write, DockerfilePath)) && fs.files == old(fs.files)
    {
      var filename := DockerfilePath;
      var dockerFile := Header;
      var k := 0;
      while k < |filePaths|
        invariant 0 <= k <= |filePaths|
        invariant dockerFile == Header + Directives(filePaths[..k])
      {
        assert filePaths[..k + 1][..k] == filePaths[..k];
        dockerFile := dockerFile + Directive(filePaths[k]);
        k := k + 1;
      }
      assert filePaths[..k] == filePaths;
      var ok := fs.WriteFile(filename, dockerFile);
      if !ok {
        return "", Some(Failed(Write, filename));
      }
      return filename, None;
    }

    /** `createArchive(name, filePaths)`: create the archive, then for each
        path stat it, read it, write its header and its body, returning at
        the first failure. */
    method CreateArchive(fs: FS, name: Path, filePaths: seq<Path>) returns (err: Option<Error>)
      modifies fs`archives
      ensures var r := Archive.CreateArchive(fs.files, old(fs.archives), fs.faults, name, filePaths);
        fs.archives == r.archives && err == r.err
    {
      var ok := fs.Create(name);
      if !ok {
        return Some(Failed(Create, name));
      }
      ghost var files, faults, arch0 := fs.files, fs.faults, old(fs.archives);
      ghost var w := WriteEntries(files, faults, filePaths);
      ghost var done: seq<Entry> := [];
      var k := 0;
      assert filePaths[0..] == filePaths;
      while k < |filePaths|
        invariant fs.files == files
        invariant fs.archives == arch0[name := done]
        invariant ArchiveLoop(files, faults, filePaths, k, done, w)
      {
        var p := filePaths[k];
        ArchiveStep(files, faults, filePaths, k, done, w);
        var st := fs.Stat(p);
        if !st.Exists? {
          return Some(Failed(Stat, p));
        }
        var bs := fs.ReadFile(p);
        if bs.None? {
          return Some(Failed(Read, p));
        }
        ok := fs.WriteHeader(name, p, ENTRY_MODE, st.size);
        if !ok {
          return Some(Failed(WriteHeader, p));
        }
        var header := Entry(p, ENTRY_MODE, st.size, []);
        UpdateTwice(arch0, name, done, done + [header]);
        FilledLast(done, header, bs.value);
        ok := fs.WriteBody(name, bs.value);
        if !ok {
          return Some(Failed(WriteBody, p));
        }
        UpdateTwice(arch0, name, done + [header], done + [EntryOf(files, p)]);
        done := done + [EntryOf(files, p)];
        k := k + 1;
      }
      ArchiveEnd(files, faults, filePaths, done, w);
      return None;
    }

    /** `GenerateImage(layerSizeKB, layerCount)` up to the archive of the
        build context: fill the pool, shuffle the list, write the manifest,
        then archive the list followed by the manifest to `tarFile`. */
    method GenerateImage(fs: FS, sizeKB: Uint, count: Uint, tarFile: Path) returns (err: Option<Error>)
      requires src.Valid()
      requires ImageRun(imageDir, allGeneratedFiles, sizeKB, count, fs.files, fs.archives, fs.faults,
                        src.tape[src.pos..], tarFile).Some?
      modifies this`allGeneratedFiles, src`pos, fs`files, fs`archives
      ensures src.Valid()
      ensures var r := ImageRun(imageDir, old(allGeneratedFiles), sizeKB, count, old(fs.files), old(fs.archives),
                                fs.faults, old(src.tape[src.pos..]), tarFile).value;
        && allGeneratedFiles == r.list && fs.files == r.files && fs.archives == r.archives
        && src.pos == old(src.pos) + r.used && err == r.err
    {
      ghost var ds: seq<nat> := src.tape[src.pos..];
      ghost var p0 := src.pos;
      ghost var pr := PoolRun(imageDir, sizeKB, count, fs.files, fs.faults, ds).value;
      err := GenerateRandomFilePool(fs, sizeKB, count);
      if err.Some? {
        return;
      }
      DropDrop(src.tape, p0, pr.used);
      err := BuildContext(fs, tarFile);
    }

    /** Lines 75-84 of `GenerateImage`, once the pool is ready: shuffle the
        list, write the manifest, and archive the list followed by the
        manifest. */
    method BuildContext(fs: FS, tarFile: Path) returns (err: Option<Error>)
      requires src.Valid() && src.pos + |allGeneratedFiles| <= |src.tape|
      modifies this`allGeneratedFiles, src`pos, fs`files, fs`archives
      ensures src.Valid()
      ensures var r := ImageTail(old(allGeneratedFiles), old(fs.files), old(fs.archives), fs.faults,
                                 old(src.tape[src.pos..]), tarFile).value;
        && allGeneratedFiles == r.list && fs.files == r.files && fs.archives == r.archives
        && src.pos == old(src.pos) + r.used && err == r.err
    {
      ShuffleGeneratedFilePaths();
      var dockerfilePath;
      dockerfilePath, err := GenerateDockerfile(fs, allGeneratedFiles);
      if err.Some? {
        return;
      }
      var files := allGeneratedFiles + [dockerfilePath];
      err := CreateArchive(fs, tarFile, files);
    }
  }
}
