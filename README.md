# Random image generator: a Dafny model

This project models the file-pool pipeline of the random Docker image
generator (`pkg/image/random.go`). A `RandomImageFactory` is created from a
seed. Its image directory is `generated-files/<seed>`, and it holds a seeded
random generator and the list `allGeneratedFiles`. `GenerateImage` then runs
five steps:

- it fills a pool of files named `random_<size>KB_<i>.txt` with random
  letters, keeping files that already exist;
- it shuffles the list of pool files with the inside-out Fisher–Yates
  shuffle;
- it writes a build manifest (`FROM scratch` plus one `ADD <path> /opt` line
  per file) to `./dockerfile.generated`;
- it archives the listed files, followed by the manifest;
- it hands the archive to the Docker daemon.

Each step is modelled up to the archive.

The structure follows the source:

- **The factory.** `Factory.RandomImageFactory` is a class with the factory's fields. Its methods carry the loops of the source, and every method is proved against a value-level function.
- **The generator.** `Source.Rand` is the prefix of values the seeded generator hands out, `tape`. Each `Int63` or `Intn` call consumes one of them.
- **The operating system.** `FileSystem.FS` is a class holding the files (path to bytes) and the archives (a path to an ordered list of entries). Its `const faults` set says which operations fail on which paths.
- **Value-level functions.** These are `Letters.RandBytes` (the letter sampler), `Shuffle.Shuffled`/`Choices`, `Pool.PoolRun`, `Manifest.ManifestText`, `Archive.CreateArchive`, `Image.ImageTail` (the steps after the pool) and `Image.ImageRun`. Each states what one step of the source computes, and the lemmas next to each state its properties.

Every method's precondition allows every input the source accepts, with one
exception: it requires the tape to hold enough values for the run. The
value-level functions return `None` when it does not.

## Model

| member | source | states |
|---|---|---|
| Letters.LetterBytesAreLetters | pkg/image/random.go:22 | the alphabet has 52 characters, each a letter a-z or A-Z |
| Letters.Letter | pkg/image/random.go:232 | an accepted chunk selects a letter a-z or A-Z |
| Letters.LetterIsLetterBytes | pkg/image/random.go:231-232 | an accepted chunk x selects the character `letterBytes[x]` |
| Letters.Shifted | pkg/image/random.go:235 | shifting a draw right by `letterIdxBits` r times divides it by 64^r |
| Letters.Chunk | pkg/image/random.go:231-235 | chunk r of a draw d is the 6-bit value `(d / 64^r) % 64`: bits 6r to 6r + 5, what `cache & letterIdxMask` reads after r shifts by `letterIdxBits` |
| Letters.Chunks | pkg/image/random.go:227-236 | the stream holds ten chunks per draw, each at most `letterIdxMask` |
| Letters.ChunkOf | pkg/image/random.go:227-236 | chunk r of draw d, `(d >> 6r) & 63`, is read as the (10d + r)-th chunk of the stream: ten chunks per draw, lowest bits first |
| Letters.Take | pkg/image/random.go:227-237 | scanning for n letters gives exactly n letters, and reads at least n and at most all remaining chunks |
| Letters.TakeStopAccepted | pkg/image/random.go:231-234 | the last chunk the scan reads is an accepted one: the loop stops right after filling index 0 |
| Letters.TakeStopRest | pkg/image/random.go:227-237 | the chunks left unread hold exactly the accepted chunks not needed |
| Letters.RandBytes | pkg/image/random.go:225 | `randBytes(n)` returns exactly n bytes |
| Letters.RandBytesAreLetters | pkg/image/random.go:231-232 | every byte `randBytes` returns is one of the 52 letters |
| Letters.Placed | pkg/image/random.go:225 | the buffer `make([]byte, n)` being filled has n bytes |
| Letters.PlacedStep | pkg/image/random.go:232-233 | storing the next letter writes the byte just before those already stored: the buffer fills from index n-1 down to 0 |
| Letters.DrawsUsed | pkg/image/random.go:227-236 | `randBytes(n)` takes at least ceil(n/10) draws, each giving at most ten chunks, and exactly one draw when n = 0 |
| Letters.CollectedIsTake | pkg/image/random.go:227-237 | a chunk prefix ending in an accepted chunk, and holding exactly m accepted chunks, is what the scan for m letters reads |
| Factory.RandomImageFactory.RandBytes | pkg/image/random.go:224-240 | the buffer returned equals `Letters.RandBytes` of the remaining draws, and the source advances by exactly `DrawsUsed` draws |
| Source.Rand.Int63 | pkg/image/random.go:227-229 | returns the next value of the tape and advances by one |
| Source.Rand.Intn | pkg/image/random.go:159 | returns a value in [0, n) taken from the next value of the tape, and advances by one |
| Shuffle.Swap | pkg/image/random.go:160 | the simultaneous swap keeps the list's length |
| Shuffle.SwapPermutes | pkg/image/random.go:160 | the simultaneous swap keeps the multiset of elements |
| Shuffle.Shuffled | pkg/image/random.go:157-162 | the shuffle keeps the list's length |
| Shuffle.ShuffledKeepsTail | pkg/image/random.go:158-160 | after the first k swaps, positions k onwards hold their original elements: swap i only exchanges i with a partner at most i |
| Shuffle.Choices | pkg/image/random.go:158-159 | the i-th swap partner lies in [0, i], with exactly one partner per element |
| Shuffle.ShuffledIsPermutation | pkg/image/random.go:157-162 | for any valid partners, the shuffled list is a permutation of the input |
| Shuffle.SwapKeepsDistinct | pkg/image/random.go:160 | a swap of a list without repeats leaves none |
| Shuffle.ShuffledDistinct | pkg/image/random.go:157-162 | shuffling a list without repeats leaves none |
| Factory.RandomImageFactory.ShuffleGeneratedFilePaths | pkg/image/random.go:157-162 | the list becomes `Shuffled` with partners `Intn(i + 1)` for each i, it is a permutation of the old list, and one draw is consumed per element |
| Paths.Decimal | pkg/image/random.go:171 | `%d` of a natural number is a non-empty string of digits, without a leading zero |
| Paths.DecimalInjective | pkg/image/random.go:171 | distinct numbers print differently |
| Paths.FormatInt | pkg/image/random.go:45 | `%d` of an integer starts with '-' exactly when it is negative |
| Paths.FormatIntInjective | pkg/image/random.go:45 | distinct seeds print differently |
| Paths.ImageDir | pkg/image/random.go:45 | the image directory is `generated-files/` followed by the seed in decimal: `path.Join` drops the leading `./` of the base directory |
| Paths.ImageDirInjective | pkg/image/random.go:45 | distinct seeds give distinct image directories |
| Paths.FileName | pkg/image/random.go:171 | a pool file name starts with `random_`, ends with `.txt`, and holds no `/` |
| Paths.FilePath | pkg/image/random.go:171 | a pool path is the directory, a `/`, then a name with no further `/`: the file lies directly in the directory |
| Paths.FilePathInjective | pkg/image/random.go:171 | within one directory and layer size, distinct indices give distinct pool paths |
| Paths.FilePathIsNotDockerfile | pkg/image/random.go:171 | no pool path under an image directory is the manifest's path |
| Factory.RandomImageFactory.constructor | pkg/image/random.go:42-55 | the image directory is `ImageDir(seed)`, the list is empty, and the source starts at the first value of its tape |
| Types.WrapInt64 | pkg/image/random.go:181 | Go's conversion to `int`: the result is congruent to the input modulo 2^64 and equals it when it fits |
| Pool.ByteLen | pkg/image/random.go:181 | `1024*int(layerSizeKB)` is 1024 times the size whenever that product fits in 64 bits |
| Pool.PoolPaths | pkg/image/random.go:170-171 | there are exactly `layerCount` pool paths, and the i-th is `FilePath(imageDir, layerSizeKB, i)` |
| FileSystem.StatOf | pkg/image/random.go:174-177 | a stat error is exactly a stat fault; "not exist" is exactly a missing path without one; otherwise the size is the file's length |
| Pool.StepAt | pkg/image/random.go:174-184 | an iteration skips exactly when the file exists; a filled file is new, has no write fault and holds `ByteLen` letters; it stops only on a stat error, a negative length or a write error; drawn values stay within the source; a failure names the path |
| Pool.PoolFrom | pkg/image/random.go:170-185 | the remaining iterations append no more paths than are left and use no more draws than there are |
| Pool.PoolRun | pkg/image/random.go:164-188 | a run appends at most `layerCount` paths and uses at most the draws available |
| Pool.PoolStep | pkg/image/random.go:171-184 | one iteration at path i either moves the loop to i + 1, over the files it leaves and the draws it took, or ends the run with its error |
| Pool.ListedStep | pkg/image/random.go:172 | appending path i extends the listed prefix of pool paths by one |
| Pool.PoolFromDone | pkg/image/random.go:170-185 | a loop that did not fail appended every remaining path, and none had a stat fault |
| Pool.PoolFromStop | pkg/image/random.go:172-184 | a failed loop appended at least one path, and an operation failure names the last path appended |
| Pool.PoolFromFiles | pkg/image/random.go:174-184 | existing files are left unchanged; each new file is at an appended pool path with no write fault and holds `ByteLen(sizeKB)` letters |
| Pool.PoolFromSucceeds | pkg/image/random.go:174-184 | over distinct paths, the loop finishes if and only if every remaining path can be stated and, when missing, has a valid length and no write fault |
| Pool.PoolFromComplete | pkg/image/random.go:170-185 | a loop that did not fail leaves a file at every pool path |
| Pool.PoolFromAllPresent | pkg/image/random.go:174-176 | when every pool file exists, the loop writes nothing and consumes no randomness, whatever the source holds |
| Pool.PoolRunOutcome | pkg/image/random.go:164-188 | (1) existing files are kept, and new files are appended pool paths with no write fault holding `ByteLen` letters; (2) success appends all `layerCount` paths and leaves every pool file present; (3) a failure after the mkdir names the last path appended |
| Pool.PoolRunSucceeds | pkg/image/random.go:164-188 | the pool returns nil if and only if `MkdirAll` succeeds and every pool path can be stated and, when missing, has a valid length and can be written |
| Pool.PoolRunWriteFault | pkg/image/random.go:181-184 | a write error on a missing pool path makes the run fail |
| Pool.PoolRunIdempotent | pkg/image/random.go:164-188 | a second run over the files a successful run left writes nothing and draws nothing |
| Factory.RandomImageFactory.FillPoolFile | pkg/image/random.go:174-184 | one iteration's effect on the files, the source and the error is exactly that of `StepAt` |
| Factory.RandomImageFactory.PoolIteration | pkg/image/random.go:171-184 | appends the i-th pool path, then keeps the loop state on course for its final result, or ends with that result's error |
| Factory.RandomImageFactory.FillRandomFilePool | pkg/image/random.go:170-187 | the loop reaches the result of the pool iterations: the paths appended, the files, the draws used and the error |
| Factory.RandomImageFactory.GenerateRandomFilePool | pkg/image/random.go:164-188 | the list gains the first pool paths `PoolRun` appends; the files, draws used and error are those of `PoolRun` |
| Manifest.Directives | pkg/image/random.go:194-196 | the loop's text for n paths is at least 10n characters long, 10 per `ADD <path> /opt` line plus the path |
| Manifest.ManifestText | pkg/image/random.go:192-196 | the manifest is at least 13 + 10n characters long for n paths: the header plus one directive per path |
| Manifest.ManifestFrame | pkg/image/random.go:192-196 | the manifest starts with the line `FROM scratch` and ends with a newline |
| Manifest.EachDirectiveAppend | pkg/image/random.go:194-196 | the directives of consecutive lists concatenate (reference reading) |
| Manifest.DirectivesInOrder | pkg/image/random.go:194-196 | the text the loop accumulates equals the reference: the directive of each path, first path first |
| Manifest.DirectivesAppend | pkg/image/random.go:194-196 | the loop's text for consecutive lists concatenates |
| Manifest.Directive | pkg/image/random.go:195 | the line `ADD <path> /opt` and its newline are 10 bytes longer than the path |
| Manifest.DirectiveLine | pkg/image/random.go:195 | the directive for a path without a newline is one line, 10 bytes longer than the path |
| Manifest.HeaderLine | pkg/image/random.go:192-193 | the header `FROM scratch` is one line |
| Manifest.ManifestLines | pkg/image/random.go:192-196 | for paths without newlines, the manifest has one line per path plus the header |
| Manifest.ManifestLength | pkg/image/random.go:192-196 | for any paths, the manifest's length is the header's plus 10 plus each path's length |
| Factory.RandomImageFactory.GenerateDockerfile | pkg/image/random.go:190-204 | without a write fault, writes `ManifestText(filePaths)` to `./dockerfile.generated` and returns that name; with one, returns "" and the write error and changes nothing |
| FileSystem.FS.MkdirAll | pkg/image/random.go:165 | succeeds exactly when no mkdir fault is set for the directory |
| FileSystem.FS.Stat | pkg/image/random.go:174 | the outcome is `StatOf` of the current files |
| FileSystem.FS.ReadFile | pkg/image/random.go:132 | succeeds exactly when the file exists and no read fault is set, and returns its bytes |
| FileSystem.FS.WriteFile | pkg/image/random.go:181 | replaces the whole file with the data unless a write fault is set, which leaves the files unchanged |
| FileSystem.FS.Create | pkg/image/random.go:116 | an empty archive replaces any old one, unless a create fault is set |
| FileSystem.FS.WriteHeader | pkg/image/random.go:137-143 | appends an entry with the header's fields and an empty body, unless a header fault is set |
| FileSystem.FS.WriteBody | pkg/image/random.go:148 | fills in the body of the entry just started, unless a body fault is set for it |
| Archive.WriteEntries | pkg/image/random.go:126-152 | the loop writes at most one entry per path, exactly one per path when it completes, and a failure is tagged with one of the paths (the program's header and body errors name no entry; see Caveats) |
| Archive.WriteEntriesNames | pkg/image/random.go:137-143 | whatever the outcome, the k-th entry written is the header for the k-th path, with mode 0600 |
| Archive.ArchiveStep | pkg/image/random.go:126-151 | one pass of the archive loop: the first failing step fixes the result, a body failure keeping the header; otherwise the loop moves on with the complete entry appended |
| Archive.WriteEntriesComplete | pkg/image/random.go:126-154 | the archive completes exactly when every path passes stat, read, header and body; it then holds one entry per path, in order, with name = path, mode 0600, size = the file's length and body = its bytes |
| Archive.FirstBad | pkg/image/random.go:126-152 | the index of the first path that does not pass all four steps: every earlier path passes |
| Archive.WriteEntriesFirstFailure | pkg/image/random.go:126-152 | a failed archive is tagged with the first failing path (in the program only its stat, read and create errors name it) and holds the complete entries of the paths before it, plus that path's header when only its body write failed |
| Archive.CreateArchive | pkg/image/random.go:115-155 | a create failure changes no archive and reports the create error; otherwise the archive `name` exists and holds at most one entry per path |
| Archive.CreateArchiveFrame | pkg/image/random.go:115-155 | no archive other than `name` changes, and none other appears |
| Factory.RandomImageFactory.CreateArchive | pkg/image/random.go:115-155 | the archives and error after the call are those of `Archive.CreateArchive` |
| Image.ImageRun | pkg/image/random.go:70-87 | a run uses no more draws than the source holds |
| Image.ImageTail | pkg/image/random.go:75-84 | the stages after the pool need one draw per listed path: they run exactly when the source holds that many, use that many, and leave a permutation of the list |
| Image.ImageRunSplit | pkg/image/random.go:70-84 | a run is the pool, then, when the pool succeeded, the later stages over the list it left and the draws after its own |
| Image.TailFiles | pkg/image/random.go:77-84 | the later stages keep every file except the manifest, and add no other |
| Image.TailArchive | pkg/image/random.go:82-84 | when the later stages succeed, only `tarFile` changes; it holds the listed files in order, then the manifest with its ADD directives, each entry with mode 0600, the file's bytes and their count as size |
| Image.ImageRunList | pkg/image/random.go:70-83 | the list afterwards is a permutation of the old list plus the appended pool paths, which are all `layerCount` of them on success |
| Image.ImageRunArchive | pkg/image/random.go:82-84 | on success only `tarFile` changes; it holds old list + `layerCount` + 1 entries: the listed files in order, then the manifest with its ADD directives; every entry has mode 0600, the file's bytes and their count as size |
| Image.ImageRunFiles | pkg/image/random.go:70-87 | whatever the outcome, existing files other than the manifest are kept; every other new file is a pool path holding `ByteLen` letters |
| Image.ImageRunDistinct | pkg/image/random.go:83-84 | the first run of a factory archives no name twice |
| Image.ShuffledPoolDistinct | pkg/image/random.go:157-171 | any shuffle of an image directory's pool paths, followed by the manifest's path, holds no name twice |
| Image.ImageRunFreshEntries | pkg/image/random.go:70-84 | the first run over a directory holding none of its pool files archives `layerCount` entries of `ByteLen(layerSizeKB)` letters each, then the manifest |
| Factory.RandomImageFactory.GenerateImage | pkg/image/random.go:66-87 | the list, files, archives, draws used and error afterwards are those of `Image.ImageRun` |
| Factory.RandomImageFactory.BuildContext | pkg/image/random.go:75-84 | the list, files, archives, draws used and error afterwards are those of `Image.ImageTail` |

## Caveats

- The pool step keeps any file that already exists at a pool path, whatever its length or content (pkg/image/random.go:174-176). So after the pool step a pool file holds `1024*layerSizeKB` generated letters only if the step wrote it. `Pool.PoolRunOutcome` states exactly this: new files have that length, and existing files are kept. `Image.ImageRunFreshEntries` gives the full sizes for a directory that held none of the pool files.
- The image directory includes the seed (pkg/image/random.go:45), and `Paths.ImageDirInjective` shows that distinct seeds never share a directory. Pool files from a run with another seed are therefore never reused. Files at a pool path that were modified outside the program are still reused as they are.
- The archive's header and body errors name no entry (pkg/image/random.go:145, 150): their messages name only the archive file, through the wrapped I/O error of `tar.Writer`. Its stat and read errors name the entry's file (lines 129, 134), and the program's other errors name the path they failed on (lines 118, 167, 200). When a header or body write fails, the program's error does not say which entry it was writing.

## Left out

- The Docker part of `GenerateImage` is left out because it is a call into the Docker daemon: the client (`getDockerClient`), opening the archive, `ImageBuild` and reading the response (pkg/image/random.go:89-110, 206-219). The model stops once the archive is written.
- Logging (`WithLogger`, the default logger) is left out. It does not affect any result.
- The seeded generator is modelled as a finite tape of the values `Int63` returns. Its algorithm is not modelled, and neither is how `rand.NewSource(seed)` fixes the tape.
- Source.Rand.Intn: returns the next tape value modulo n and consumes exactly one value. Go's `Intn` reduction can reject values and draw again, so which value it returns and how many it consumes are not modelled.
- Every method requires the tape to hold enough values for the run. Go's generator never runs out; the value-level functions mark a too-short tape with `None`.
- The archive is an ordered list of entry records: name, mode, size, body. The tar byte format, padding and the deferred `tw.Close()` are not modelled. A body write that fails leaves its header with an empty body.
- File permissions (0700, 0644) are not modelled. Neither are directories: `MkdirAll` only succeeds or fails.
- Partial writes are not modelled. Neither are changes that other processes make between `os.Stat` and `ioutil.ReadFile`. An archive entry's size is the file's length at the time of the stat, which equals the bytes read.
- Paths are compared as strings, with no normalisation. The program only uses clean pool paths and `./dockerfile.generated`, so no two of its paths name one file.
- Failures are a fixed set of (operation, path) pairs, chosen when the filesystem is created. Error messages are reduced to the failing operation and path. `createArchive`'s header and body errors name no entry in the program, but the model tags them with the entry's path so that the failing entry can be named.
- On the `append` on line 83: when it writes into spare capacity of `allGeneratedFiles`, that is not visible through the field, whose length is unchanged. The model computes a new sequence.
- `allGeneratedFiles` keeps growing across calls of `GenerateImage` on one factory, and the model keeps that. `Image.ImageRunDistinct` is stated for the first call only, because a second call with the same layer size lists each pool path twice.
- `cmd/build.go` is not part of this model. It is command-line wiring that does not match the package's current signatures.
- Factory.RandomImageFactory.FillPoolFile and Factory.RandomImageFactory.PoolIteration: together they are the source's loop body, split into two methods. One method handles a single path, and the other appends the path and keeps the loop state.
- Factory.RandomImageFactory.BuildContext: it holds lines 75-84 of `GenerateImage`, the steps after the pool, as a method of its own. `GenerateImage` calls it once the pool step has succeeded, so the order of steps and their early returns are those of the source.
- Pool.ByteLen: its `ensures` states the value only when `1024*layerSizeKB` fits in 64 bits; for larger sizes its definition spells out Go's two's-complement wrap-around. A negative length is a runtime panic of `make` in Go, modelled as the error `LengthOutOfRange`.
- Archives are kept in `FileSystem.FS.archives`, apart from `FileSystem.FS.files`. In the program, `context.tar` is an ordinary file that `os.Create` recreates on every run after the first. So `Image.ImageRunFiles` says nothing about the archive's own file. `GenerateImage` takes `tarFile` as a parameter, while the program always uses `$PWD/context.tar` (pkg/image/random.go:82); `os.Getenv("PWD")` is left out.
