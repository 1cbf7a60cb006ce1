/**
 * The document store of mgdb.go: a `Driver` that keeps each collection as a
 * directory under its root and each resource as `<resource>.json` in it,
 * with a registry of per-collection locks.  Each operation is specified by a
 * function from the old file system to the new one and the error returned.
 */
module Mgdb {
  import opened Wrappers
  import opened FileTree
  import Os

  datatype DbError =
    | MissingCollection     // an empty collection name
    | MissingResource       // an empty resource name
    | MarshalFailed         // the value has no JSON encoding
    | NotFound(name: Path)  // Delete found neither the path nor path + ".json"
    | Io(cause: OsError)    // an error of the operating system, returned as it is

  const JsonExt: string := ".json"
  const TmpExt: string := ".tmp"
  const Newline: byte := 10

  /** `filepath.Join` of a path and one name: an empty name adds nothing. */
  function Join(p: Path, name: string): (r: Path)
    ensures p <= r && |r| == |p| + (if name == "" then 0 else 1)
    ensures name != "" ==> r[|p|] == name
  {
    if name == "" then p else p + [name]
  }

  function CollectionDir(root: Path, collection: string): Path
  {
    Join(root, collection)
  }

  /** Where a resource is stored. */
  function ResourceFile(root: Path, collection: string, resource: string): (r: Path)
    ensures r != [] && Parent(r) == CollectionDir(root, collection)
    ensures r[|r| - 1] == resource + JsonExt
  {
    Join(CollectionDir(root, collection), resource + JsonExt)
  }

  /** Where Write stages a resource before renaming it into place. */
  function TmpFile(root: Path, collection: string, resource: string): (r: Path)
    ensures r != [] && Parent(r) == CollectionDir(root, collection)
    ensures r[|r| - 1] == resource + JsonExt + TmpExt
  {
    Suffixed(ResourceFile(root, collection, resource), TmpExt)
  }

  lemma TmpFileDiffers(root: Path, collection: string, resource: string)
    ensures TmpFile(root, collection, resource) != ResourceFile(root, collection, resource)
  {
    var file := ResourceFile(root, collection, resource);
    var tmp := TmpFile(root, collection, resource);
    assert |tmp[|file| - 1]| == |file[|file| - 1]| + |TmpExt|;
  }

  /**
   * `stat`: the entry at `path` if there is one, otherwise the entry at
   * `path + ".json"`; only "does not exist" falls back.
   */
  function Resolve(fs: FileSystem, path: Path): (r: Result<Entry, OsError>)
    requires Tree(fs)
    ensures path in fs ==> r == Ok(fs[path])
    ensures path !in fs ==> (r.Ok? <==> Suffixed(path, JsonExt) in fs)
    ensures path !in fs && r.Ok? ==> r.value == fs[Suffixed(path, JsonExt)]
  {
    UnderFileSuffixed(fs, path, JsonExt);
    assert UnderFile(fs, path) ==> Suffixed(path, JsonExt) !in fs by {
      if UnderFile(fs, path) {
        NothingUnderFile(fs, Suffixed(path, JsonExt));
      }
    }
    var r := FileTree.Stat(fs, path);
    if r == Err(NotExist) then FileTree.Stat(fs, Suffixed(path, JsonExt)) else r
  }

  /**
   * The lock registry's get-or-insert: the lock registered for `name`, or
   * `candidate` newly registered for it.
   */
  function Register<L>(registry: map<string, L>, name: string, candidate: L): (r: (map<string, L>, L))
    ensures name in r.0 && r.1 == r.0[name]
    ensures name in registry ==> r == (registry, registry[name])
    ensures name !in registry ==> r == (registry[name := candidate], candidate)
  {
    if name in registry then (registry, registry[name]) else (registry[name := candidate], candidate)
  }

  /** What `New` does to the file system. */
  function Opened(fs: FileSystem, directory: Path): (r: (FileSystem, Option<OsError>))
    ensures directory in fs ==> r == (fs, None)
    ensures r.1.None? ==> directory in r.0
    ensures directory !in fs && r.1.None? ==> r.0[directory] == Dir
    ensures r.1.Some? ==> r.0 == fs
    ensures Tree(fs) ==> Tree(r.0)
  {
    if FileTree.Stat(fs, directory).Ok? then (fs, None)
    else Os.Effect(MkdirAll(fs, directory), fs)
  }

  /**
   * `Write`: validate the names, create the collection directory, encode,
   * write `<resource>.json.tmp`, rename it onto `<resource>.json`.  Each
   * failing step returns the state the earlier steps left.
   */
  function WriteSteps(fs: FileSystem, root: Path, collection: string, resource: string,
                      encoded: Option<Bytes>): (r: (FileSystem, Option<DbError>))
    ensures collection == "" ==> r == (fs, Some(MissingCollection))
    ensures collection != "" && resource == "" ==> r == (fs, Some(MissingResource))
    ensures r.1.None? ==> collection != "" && resource != "" && encoded.Some?
    ensures r.1.None? ==>
      var file := ResourceFile(root, collection, resource);
      file in r.0 && r.0[file] == File(encoded.value + [Newline]) &&
      TmpFile(root, collection, resource) !in r.0
    ensures Tree(fs) ==> Tree(r.0)
  {
    if collection == "" then (fs, Some(MissingCollection))
    else if resource == "" then (fs, Some(MissingResource))
    else
      var dir := CollectionDir(root, collection);
      var file := ResourceFile(root, collection, resource);
      var tmp := TmpFile(root, collection, resource);
      match MkdirAll(fs, dir)
      case Err(e) => (fs, Some(Io(e)))
      case Ok(fs1) =>
        if encoded.None? then (fs1, Some(MarshalFailed))
        else
          match WriteFile(fs1, tmp, encoded.value + [Newline])
          case Err(e) => (fs1, Some(Io(e)))
          case Ok(fs2) =>
            TmpFileDiffers(root, collection, resource);
            match Rename(fs2, tmp, file)
            case Err(e) => (fs2, Some(Io(e)))
            case Ok(fs3) => (fs3, None)
  }

  /**
   * `Read`, up to the bytes it hands to the JSON decoder: it resolves the
   * record path with `stat` (Resolve) but then always reads `<record>.json`.
   */
  function ReadResult(fs: FileSystem, root: Path, collection: string, resource: string): (r: Result<Bytes, DbError>)
    requires Tree(fs)
    ensures collection == "" ==> r == Err(MissingCollection)
    ensures collection != "" && resource == "" ==> r == Err(MissingResource)
    ensures r.Ok? <==>
      var file := ResourceFile(root, collection, resource);
      collection != "" && resource != "" && file in fs && fs[file].File?
    ensures r.Ok? ==> r.value == fs[ResourceFile(root, collection, resource)].data
    ensures var file := ResourceFile(root, collection, resource);
      collection != "" && resource != "" && file !in fs && !UnderFile(fs, file) ==> r == Err(Io(NotExist))
  {
    if collection == "" then Err(MissingCollection)
    else if resource == "" then Err(MissingResource)
    else
      var record := Join(Join(root, collection), resource);
      assert Suffixed(record, JsonExt) == ResourceFile(root, collection, resource);
      UnderFileSuffixed(fs, record, JsonExt);
      match Resolve(fs, record)
      case Err(e) => Err(Io(e))
      case Ok(_) =>
        match FileTree.ReadFile(fs, Suffixed(record, JsonExt))
        case Err(e) => Err(Io(e))
        case Ok(data) => Ok(data)
  }

  predicate IsFile(fs: FileSystem, p: Path)
  {
    p in fs && fs[p].File?
  }

  /**
   * `ReadAll`'s loop: the contents of `dir/name` for each name in order,
   * stopping at the first that cannot be read.
   */
  function ReadEach(fs: FileSystem, dir: Path, names: seq<string>): (r: Result<seq<Bytes>, DbError>)
    ensures r.Ok? ==> |r.value| == |names|
    ensures r.Err? ==> r.error.Io?
    decreases |names|
  {
    if names == [] then Ok([])
    else
      match FileTree.ReadFile(fs, dir + [names[0]])
      case Err(e) => Err(Io(e))
      case Ok(data) =>
        match ReadEach(fs, dir, names[1..])
        case Err(e) => Err(e)
        case Ok(rest) => Ok([data] + rest)
  }

  /** Records read so far in front of the outcome of the rest. */
  function Prefixed(records: seq<Bytes>, rest: Result<seq<Bytes>, DbError>): Result<seq<Bytes>, DbError>
  {
    match rest
    case Ok(more) => Ok(records + more)
    case Err(e) => Err(e)
  }

  /** One turn of `ReadAll`'s loop. */
  lemma ReadEachStep(fs: FileSystem, dir: Path, names: seq<string>, i: nat, records: seq<Bytes>)
    requires i < |names|
    ensures var read := FileTree.ReadFile(fs, dir + [names[i]]);
      Prefixed(records, ReadEach(fs, dir, names[i..])) ==
        if read.Err? then Err(Io(read.error))
        else Prefixed(records + [read.value], ReadEach(fs, dir, names[i + 1..]))
  {
    assert names[i..][0] == names[i] && names[i..][1..] == names[i + 1..];
    var read := FileTree.ReadFile(fs, dir + [names[i]]);
    if read.Ok? {
      var rest := ReadEach(fs, dir, names[i + 1..]);
      if rest.Ok? {
        assert records + ([read.value] + rest.value) == records + [read.value] + rest.value;
      }
    }
  }

  /**
   * `ReadAll`: resolve the collection directory with `stat` (Resolve), list it
   * (discarding the listing's error) and read every entry.
   */
  ghost function ReadAllResult(fs: FileSystem, root: Path, collection: string): (r: Result<seq<Bytes>, DbError>)
    requires Tree(fs)
    ensures collection == "" ==> r == Err(MissingCollection)
    ensures var dir := CollectionDir(root, collection);
      collection != "" && dir !in fs && Suffixed(dir, JsonExt) !in fs ==> r.Err?
    ensures var dir := CollectionDir(root, collection);
      collection != "" && dir !in fs && Suffixed(dir, JsonExt) !in fs && !UnderFile(fs, dir) ==>
        r == Err(Io(NotExist))
  {
    SuffixedUnderFile(fs, CollectionDir(root, collection), JsonExt);
    if collection == "" then Err(MissingCollection)
    else
      var dir := CollectionDir(root, collection);
      var st := Resolve(fs, dir);
      if st.Err? then Err(Io(st.error)) else ReadEach(fs, dir, Listing(fs, dir))
  }

  /** The state and the error after the last step of an operation, the OS error passed on as it is. */
  function Returned(r: Result<FileSystem, OsError>, fs: FileSystem): (FileSystem, Option<DbError>)
  {
    var (after, e) := Os.Effect(r, fs);
    (after, if e.Some? then Some(Io(e.value)) else None)
  }

  /** What Delete removes, relative to the root: names are joined without any check. */
  function DeleteTarget(collection: string, resource: string): (r: Path)
    ensures r == [] <==> collection == "" && resource == ""
    ensures |r| == (if collection == "" then 0 else 1) + (if resource == "" then 0 else 1)
    ensures collection != "" ==> r[0] == collection
    ensures resource != "" ==> r[|r| - 1] == resource
  {
    Join(Join([], collection), resource)
  }

  /**
   * `Delete`: resolve the target with `stat` (Resolve); a directory is removed with
   * everything below it, and for a regular file `<target>.json` is removed.
   */
  function DeleteSteps(fs: FileSystem, root: Path, collection: string, resource: string): (r: (FileSystem, Option<DbError>))
    requires Tree(fs)
    ensures var target := root + DeleteTarget(collection, resource);
      r.1.Some? <==> target !in fs && Suffixed(target, JsonExt) !in fs
    ensures r.1.Some? ==> r == (fs, Some(NotFound(DeleteTarget(collection, resource))))
    ensures var target := root + DeleteTarget(collection, resource);
      target in fs && fs[target].Dir? ==> r.0 == Prune(fs, target)
    ensures var target := root + DeleteTarget(collection, resource);
      target in fs && fs[target].File? ==> r.0 == Prune(fs, Suffixed(target, JsonExt))
    ensures var target := root + DeleteTarget(collection, resource);
      var ext := Suffixed(target, JsonExt);
      target !in fs && ext in fs ==> r.0 == if fs[ext].Dir? then fs else fs - {ext}
    ensures Tree(r.0)
  {
    var file := DeleteTarget(collection, resource);
    var dir := root + file;
    var ext := Suffixed(dir, JsonExt);
    UnderFileSuffixed(fs, dir, JsonExt);
    match Resolve(fs, dir)
    case Err(_) => (fs, Some(NotFound(file)))
    case Ok(Dir) =>
      assert !UnderFile(fs, dir) && (dir !in fs ==> Prune(fs, dir) == fs) by {
        if dir in fs {
          NotUnderFile(fs, dir, JsonExt);
        } else {
          NotUnderFile(fs, ext, JsonExt);
          PruneAbsent(fs, dir);
        }
      }
      Returned(RemoveAll(fs, dir), fs)
    case Ok(File(_)) =>
      assert !UnderFile(fs, ext) && (dir !in fs ==> Prune(fs, ext) == fs - {ext}) by {
        if dir in fs {
          NotUnderFile(fs, dir, JsonExt);
        } else {
          NotUnderFile(fs, ext, JsonExt);
          PruneFile(fs, ext);
        }
      }
      Returned(RemoveAll(fs, ext), fs)
  }

  /** A `sync.Mutex`; locking has no effect in a sequential model, only its identity matters. */
  class Mutex {
    constructor ()
    {
    }
  }

  class Driver {
    const directory: Path
    const disk: Os.Disk
    var mutexes: map<string, Mutex>

    constructor Init(directory: Path, disk: Os.Disk)
      ensures this.directory == directory && this.disk == disk
      ensures mutexes == map[]
    {
      this.directory := directory;
      this.disk := disk;
      mutexes := map[];
    }

    /** `New`: a driver with an empty lock registry; the root is created unless something is there. */
    static method New(directory: Path, disk: Os.Disk) returns (d: Driver, err: Option<OsError>)
      requires disk.Valid()
      modifies disk
      ensures fresh(d) && d.directory == directory && d.disk == disk && d.mutexes == map[]
      ensures disk.Valid()
      ensures (disk.entries, err) == Opened(old(disk.entries), directory)
    {
      d := new Driver.Init(directory, disk);
      if FileTree.Stat(disk.entries, directory).Ok? {
        return d, None;
      }
      err := disk.MkdirAll(directory);
    }

    /** `getOrCreateMutex` */
    method GetOrCreateMutex(collection: string) returns (m: Mutex)
      modifies this
      ensures (mutexes, m) == Register(old(mutexes), collection, m)
      ensures collection !in old(mutexes) ==> fresh(m)
    {
      if collection in mutexes {
        m := mutexes[collection];
      } else {
        m := new Mutex();
        mutexes := mutexes[collection := m];
      }
    }

    /** `Write`, with `marshal` standing for `json.MarshalIndent` (None: it failed). */
    method Write<V>(collection: string, resource: string, v: V, marshal: V -> Option<Bytes>)
      returns (err: Option<DbError>)
      requires disk.Valid()
      modifies this, disk
      ensures disk.Valid()
      ensures (disk.entries, err) == WriteSteps(old(disk.entries), directory, collection, resource, marshal(v))
      ensures collection == "" || resource == "" ==> mutexes == old(mutexes)
      ensures collection != "" && resource != "" ==>
        collection in mutexes && mutexes == Register(old(mutexes), collection, mutexes[collection]).0
    {
      if collection == "" {
        return Some(MissingCollection);
      }
      if resource == "" {
        return Some(MissingResource);
      }
      var mutex := GetOrCreateMutex(collection);

      var dir := Join(directory, collection);
      var file := Join(dir, resource + JsonExt);
      var tmpFile := Suffixed(file, TmpExt);

      var e := disk.MkdirAll(dir);
      if e.Some? {
        return Some(Io(e.value));
      }
      var bytes := marshal(v);
      if bytes.None? {
        return Some(MarshalFailed);
      }
      var data := bytes.value + [Newline];
      e := disk.WriteFile(tmpFile, data);
      if e.Some? {
        return Some(Io(e.value));
      }
      TmpFileDiffers(directory, collection, resource);
      e := disk.Rename(tmpFile, file);
      if e.Some? {
        return Some(Io(e.value));
      }
      return None;
    }

    /** `Read`, up to the bytes given to `json.Unmarshal`. */
    method Read(collection: string, resource: string) returns (r: Result<Bytes, DbError>)
      requires disk.Valid()
      ensures r == ReadResult(disk.entries, directory, collection, resource)
    {
      r := ReadResult(disk.entries, directory, collection, resource);
    }

    /** `ReadAll` */
    method ReadAll(collection: string) returns (r: Result<seq<Bytes>, DbError>)
      requires disk.Valid()
      ensures r == ReadAllResult(disk.entries, directory, collection)
    {
      if collection == "" {
        return Err(MissingCollection);
      }
      var dir := Join(directory, collection);
      var info := Resolve(disk.entries, dir);
      if info.Err? {
        return Err(Io(info.error));
      }
      var files, ignored := disk.ReadDir(dir);
      ghost var fs := disk.entries;
      assert ReadAllResult(fs, directory, collection) == ReadEach(fs, dir, files);
      var records: seq<Bytes> := [];
      assert files[0..] == files;
      assert Prefixed(records, ReadEach(fs, dir, files)) == ReadEach(fs, dir, files) by {
        var all := ReadEach(fs, dir, files);
        if all.Ok? {
          assert records + all.value == all.value;
        }
      }
      for i := 0 to |files|
        invariant ReadEach(fs, dir, files) == Prefixed(records, ReadEach(fs, dir, files[i..]))
      {
        ReadEachStep(fs, dir, files, i, records);
        var bytes := FileTree.ReadFile(disk.entries, dir + [files[i]]);
        if bytes.Err? {
          return Err(Io(bytes.error));
        }
        records := records + [bytes.value];
      }
      assert files[|files|..] == [] && records + [] == records;
      return Ok(records);
    }

    /** `Delete`: takes the collection's lock even for empty names. */
    method Delete(collection: string, resource: string) returns (err: Option<DbError>)
      requires disk.Valid()
      modifies this, disk
      ensures disk.Valid()
      ensures (disk.entries, err) == DeleteSteps(old(disk.entries), directory, collection, resource)
      ensures collection in mutexes && mutexes == Register(old(mutexes), collection, mutexes[collection]).0
    {
      var file := Join(Join([], collection), resource);
      var mutex := GetOrCreateMutex(collection);
      var dir := directory + file;
      var info := Resolve(disk.entries, dir);
      if info.Err? {
        return Some(NotFound(file));
      }
      var e;
      if info.value.Dir? {
        e := disk.RemoveAll(dir);
      } else {
        e := disk.RemoveAll(Suffixed(dir, JsonExt));
      }
      if e.Some? {
        return Some(Io(e.value));
      }
      return None;
    }
  }
}
