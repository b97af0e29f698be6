/** The part of the operating system the generator uses: regular files as a
    map from path to contents, archives (the tar files being written) as
    their entry lists, and a fixed set of operations that fail. */
module FileSystem {
  import opened Types

  /** `os.Stat(p)`: an error when it is set to fail, otherwise the size of the
      file or "does not exist". */
  function StatOf(files: map<Path, Bytes>, faults: set<(Op, Path)>, p: Path): (s: StatResult)
    ensures s.Exists? ==> p in files && s.size == |files[p]|
    ensures s.NotExist? <==> (Stat, p) !in faults && p !in files
    ensures s.StatError? <==> (Stat, p) in faults
  {
    if (Stat, p) in faults then StatError
    else if p in files then Exists(|files[p]|)
    else NotExist
  }

  /** The entries `es` with the body of the last one set to `body`. */
  function Filled(es: seq<Entry>, body: Bytes): (r: seq<Entry>)
    requires |es| > 0
    ensures |r| == |es| && r[|es| - 1] == es[|es| - 1].(body := body)
    ensures forall k :: 0 <= k < |es| - 1 ==> r[k] == es[k]
  {
    es[..|es| - 1] + [es[|es| - 1].(body := body)]
  }

  /** Filling the entry just appended leaves the earlier ones as they were. */
  lemma FilledLast(es: seq<Entry>, e: Entry, body: Bytes)
    ensures Filled(es + [e], body) == es + [e.(body := body)]
  {
    assert (es + [e])[..|es|] == es;
  }

  class FS {
    var files: map<Path, Bytes>
    var archives: map<Path, seq<Entry>>
    /** The (operation, path) pairs that fail. */
    const faults: set<(Op, Path)>

    constructor (files: map<Path, Bytes>, faults: set<(Op, Path)>)
      ensures this.files == files && this.faults == faults && archives == map[]
    {
      this.files := files;
      this.faults := faults;
      archives := map[];
    }

    /** `os.MkdirAll(dir, 0700)`; directories themselves are not modelled. */
    method MkdirAll(dir: Path) returns (ok: bool)
      ensures ok <==> (Op.Mkdir, dir) !in faults
    {
      ok := (Op.Mkdir, dir) !in faults;
    }

    method Stat(p: Path) returns (s: StatResult)
      ensures s == StatOf(files, faults, p)
    {
      s := StatOf(files, faults, p);
    }

    /** `ioutil.ReadFile(p)`. */
    method ReadFile(p: Path) returns (r: Option<Bytes>)
      ensures r.Some? <==> p in files && (Op.Read, p) !in faults
      ensures r.Some? ==> r.value == files[p]
    {
      if p in files && (Op.Read, p) !in faults {
        r := Some(files[p]);
      } else {
        r := None;
      }
    }

    /** `ioutil.WriteFile(p, data, perm)`: replaces the whole file, or fails
        leaving the filesystem as it was. */
    method WriteFile(p: Path, data: Bytes) returns (ok: bool)
      modifies this`files
      ensures ok <==> (Op.Write, p) !in faults
      ensures files == if ok then old(files)[p := data] else old(files)
    {
      ok := (Op.Write, p) !in faults;
      if ok {
        files := files[p := data];
      }
    }

    /** `os.Create(name)` for an archive: an empty archive replaces any old one. */
    method Create(name: Path) returns (ok: bool)
      modifies this`archives
      ensures ok <==> (Op.Create, name) !in faults
      ensures archives == if ok then old(archives)[name := []] else old(archives)
    {
      ok := (Op.Create, name) !in faults;
      if ok {
        archives := archives[name := []];
      }
    }

    /** `tw.WriteHeader(hdr)`: starts an entry with an empty body. */
    method WriteHeader(name: Path, entryName: Path, mode: int, size: nat) returns (ok: bool)
      requires name in archives
      modifies this`archives
      ensures ok <==> (Op.WriteHeader, entryName) !in faults
      ensures archives == if ok then old(archives)[name := old(archives)[name] + [Entry(entryName, mode, size, [])]]
                          else old(archives)
    {
      ok := (Op.WriteHeader, entryName) !in faults;
      if ok {
        archives := archives[name := archives[name] + [Entry(entryName, mode, size, [])]];
      }
    }

    /** `tw.Write(body)`: fills in the body of the entry just started. */
    method WriteBody(name: Path, body: Bytes) returns (ok: bool)
      requires name in archives && |archives[name]| > 0
      modifies this`archives
      ensures var es := old(archives)[name];
        ok <==> (Op.WriteBody, es[|es| - 1].name) !in faults
      ensures archives == if ok then old(archives)[name := Filled(old(archives)[name], body)]
                          else old(archives)
    {
      var es := archives[name];
      ok := (Op.WriteBody, es[|es| - 1].name) !in faults;
      if ok {
        archives := archives[name := Filled(es, body)];
      }
    }
  }
}
