/**
 * Properties of the store that relate its operations to each other and to
 * the file system: what Write leaves behind, what Read and ReadAll return,
 * what Delete removes, and how the lock registry evolves.
 */
module MgdbProperties {
  import opened Wrappers
  import opened FileTree
  import opened Mgdb

  lemma JsonNamesDiffer(a: string, b: string)
    ensures a != b ==> a + JsonExt != b + JsonExt
  {
    if a + JsonExt == b + JsonExt {
      assert |a| == |b|;
      assert a == (a + JsonExt)[..|a|] && b == (b + JsonExt)[..|b|];
    }
  }

  // ---------------------------------------------------------------- Write

  /**
   * Write changes no entry other than the staging file and the target, and
   * creates nothing else than the collection directory and its missing
   * ancestors.
   */
  lemma WriteFrame(fs: FileSystem, root: Path, collection: string, resource: string, encoded: Option<Bytes>)
    ensures var fs' := WriteSteps(fs, root, collection, resource, encoded).0;
      var file := ResourceFile(root, collection, resource);
      var tmp := TmpFile(root, collection, resource);
      && (forall p :: p in fs && p != file && p != tmp ==> p in fs' && fs'[p] == fs[p])
      && (forall p :: p in fs' && p !in fs ==>
            p == file || p == tmp || (p <= CollectionDir(root, collection) && fs'[p] == Dir))
  {
  }

  /** Under the names Write was given, Read returns exactly the bytes Write stored. */
  lemma WriteThenRead(fs: FileSystem, root: Path, collection: string, resource: string, encoded: Option<Bytes>)
    requires Tree(fs)
    requires WriteSteps(fs, root, collection, resource, encoded).1 == None
    ensures var fs' := WriteSteps(fs, root, collection, resource, encoded).0;
      Tree(fs') && ReadResult(fs', root, collection, resource) == Ok(encoded.value + [Newline])
  {
  }

  /**
   * With valid names and an encodable value, Write fails exactly when the
   * collection directory cannot be created, or the staging path or the
   * target is a directory.
   */
  lemma WriteSucceeds(fs: FileSystem, root: Path, collection: string, resource: string, encoded: Option<Bytes>)
    requires Tree(fs) && collection != "" && resource != "" && encoded.Some?
    ensures var dir := CollectionDir(root, collection);
      var file := ResourceFile(root, collection, resource);
      var tmp := TmpFile(root, collection, resource);
      WriteSteps(fs, root, collection, resource, encoded).1.None? <==>
        && !UnderFile(fs, dir) && !IsFile(fs, dir)
        && !(tmp in fs && fs[tmp].Dir?)
        && !(file in fs && fs[file].Dir?)
  {
    var dir := CollectionDir(root, collection);
    var file := ResourceFile(root, collection, resource);
    var tmp := TmpFile(root, collection, resource);
    MkdirAllFails(fs, dir);
    if MkdirAll(fs, dir).Ok? {
      var fs1 := MkdirAll(fs, dir).value;
      assert !(tmp <= dir) && !(file <= dir);
      assert Parent(tmp) == dir && Parent(file) == dir;
      TmpFileDiffers(root, collection, resource);
    }
  }

  /**
   * The target keeps its previous entry (or stays absent) through every
   * step before the rename: readers see the old version or the new one.
   */
  lemma WriteReplacesTargetAtOnce(fs: FileSystem, root: Path, collection: string, resource: string,
                                  data: Bytes, fs1: FileSystem, fs2: FileSystem)
    requires collection != ""
    requires MkdirAll(fs, CollectionDir(root, collection)) == Ok(fs1)
    requires WriteFile(fs1, TmpFile(root, collection, resource), data) == Ok(fs2)
    ensures var file := ResourceFile(root, collection, resource);
      && (file in fs1 <==> file in fs) && (file in fs2 <==> file in fs)
      && (file in fs ==> fs1[file] == fs[file] && fs2[file] == fs[file])
  {
    var file := ResourceFile(root, collection, resource);
    assert !(file <= CollectionDir(root, collection));
    TmpFileDiffers(root, collection, resource);
  }

  /** A value that cannot be encoded still leaves the collection directory created. */
  lemma MarshalFailureKeepsDirectory(fs: FileSystem, root: Path, collection: string, resource: string)
    requires collection != "" && resource != ""
    requires MkdirAll(fs, CollectionDir(root, collection)).Ok?
    ensures var r := WriteSteps(fs, root, collection, resource, None);
      r.1 == Some(MarshalFailed) && CollectionDir(root, collection) in r.0 &&
      r.0[CollectionDir(root, collection)] == Dir
  {
  }

  /** A directory in the target's place makes the rename fail and leaves the staging file behind. */
  lemma RenameFailureLeavesTmp(fs: FileSystem, root: Path, collection: string, resource: string, encoded: Option<Bytes>)
    requires Tree(fs) && collection != "" && resource != "" && encoded.Some?
    requires !UnderFile(fs, CollectionDir(root, collection)) && !IsFile(fs, CollectionDir(root, collection))
    requires TmpFile(root, collection, resource) !in fs
    requires ResourceFile(root, collection, resource) in fs && fs[ResourceFile(root, collection, resource)].Dir?
    ensures var r := WriteSteps(fs, root, collection, resource, encoded);
      r.1 == Some(Io(Exists)) &&
      TmpFile(root, collection, resource) in r.0 &&
      r.0[TmpFile(root, collection, resource)] == File(encoded.value + [Newline])
  {
    var dir := CollectionDir(root, collection);
    var tmp := TmpFile(root, collection, resource);
    var file := ResourceFile(root, collection, resource);
    MkdirAllFails(fs, dir);
    assert !(tmp <= dir) && !(file <= dir);
    assert Parent(tmp) == dir;
    TmpFileDiffers(root, collection, resource);
  }

  // ----------------------------------------------------------------- Read

  /**
   * Read resolves "x.json" to the stored file, yet reads "x.json.json": a
   * resource cannot be read under its file name.
   */
  lemma ReadOfExtendedName(fs: FileSystem, root: Path, collection: string, name: string)
    requires Tree(fs) && collection != "" && name != ""
    requires IsFile(fs, ResourceFile(root, collection, name))
    requires ResourceFile(root, collection, name + JsonExt) !in fs
    ensures Resolve(fs, root + [collection, name + JsonExt]).Ok?
    ensures ReadResult(fs, root, collection, name + JsonExt) == Err(Io(NotExist))
  {
    var stored := ResourceFile(root, collection, name);
    assert root + [collection, name + JsonExt] == stored;
    assert Suffixed(stored, JsonExt) == ResourceFile(root, collection, name + JsonExt);
    NotUnderFile(fs, stored, JsonExt);
  }

  // -------------------------------------------------------------- ReadAll

  /** ReadAll's loop: all entries or the first failure, never a partial list. */
  lemma {:induction false} ReadEachContents(fs: FileSystem, dir: Path, names: seq<string>)
    ensures var r := ReadEach(fs, dir, names);
      && (r.Ok? <==> forall i :: 0 <= i < |names| ==> IsFile(fs, dir + [names[i]]))
      && (r.Ok? ==> (|r.value| == |names| &&
            forall i :: 0 <= i < |names| ==> r.value[i] == fs[dir + [names[i]]].data))
      && (r.Err? ==> exists i :: (0 <= i < |names| && !IsFile(fs, dir + [names[i]]) &&
            (forall j :: 0 <= j < i ==> IsFile(fs, dir + [names[j]])) &&
            r.error == Io(FileTree.ReadFile(fs, dir + [names[i]]).error)))
    decreases |names|
  {
    if names != [] {
      var tail := names[1..];
      ReadEachContents(fs, dir, tail);
      assert forall i :: 0 < i < |names| ==> names[i] == tail[i - 1];
      var r := ReadEach(fs, dir, names);
      var rest := ReadEach(fs, dir, tail);
      if IsFile(fs, dir + [names[0]]) && rest.Err? {
        var i :| 0 <= i < |tail| && !IsFile(fs, dir + [tail[i]]) &&
          (forall j :: 0 <= j < i ==> IsFile(fs, dir + [tail[j]])) &&
          rest.error == Io(FileTree.ReadFile(fs, dir + [tail[i]]).error);
        assert !IsFile(fs, dir + [names[i + 1]]);
        assert forall j :: 0 <= j < i + 1 ==> IsFile(fs, dir + [names[j]]);
      }
    }
  }

  /**
   * ReadAll succeeds exactly when the collection resolves and every listed
   * entry is a regular file, and then returns one record per entry, in
   * listing order, holding that entry's bytes.
   */
  lemma ReadAllContents(fs: FileSystem, root: Path, collection: string)
    requires Tree(fs)
    ensures var dir := CollectionDir(root, collection);
      var names := Listing(fs, dir);
      var r := ReadAllResult(fs, root, collection);
      && (r.Ok? <==> (collection != "" && (dir in fs || Suffixed(dir, JsonExt) in fs) &&
            forall i :: 0 <= i < |names| ==> IsFile(fs, dir + [names[i]])))
      && (r.Ok? ==> (|r.value| == |names| &&
            forall i :: 0 <= i < |names| ==> r.value[i] == fs[dir + [names[i]]].data))
  {
    ReadEachContents(fs, CollectionDir(root, collection), Listing(fs, CollectionDir(root, collection)));
  }

  /** Every entry of the collection directory, a stale ".tmp" file included, is among the records. */
  lemma ReadAllReturnsEveryEntry(fs: FileSystem, root: Path, collection: string, name: string)
    requires Tree(fs)
    requires ReadAllResult(fs, root, collection).Ok?
    requires CollectionDir(root, collection) + [name] in fs
    ensures var data := fs[CollectionDir(root, collection) + [name]];
      data.File? && data.data in ReadAllResult(fs, root, collection).value
  {
    var dir := CollectionDir(root, collection);
    var names := Listing(fs, dir);
    ReadAllContents(fs, root, collection);
    assert InDirectory(fs, dir + [name]) && Parent(dir + [name]) == dir;
    var i :| 0 <= i < |names| && names[i] == name;
  }

  /** A collection directory holding a single regular file reads as that one record. */
  lemma OnlyRecord(fs: FileSystem, root: Path, collection: string, name: string, data: Bytes)
    requires Tree(fs) && collection != ""
    requires var dir := CollectionDir(root, collection);
      dir + [name] in fs && fs[dir + [name]] == File(data) &&
      forall n :: dir + [n] in fs ==> n == name
    ensures ReadAllResult(fs, root, collection) == Ok([data])
  {
    var dir := CollectionDir(root, collection);
    assert InDirectory(fs, dir + [name]) && Parent(dir + [name]) == dir;
    NameOrder.SortedUnique([name], Listing(fs, dir));
    var names := Listing(fs, dir);
    assert names == [name];
    assert dir in fs && forall i :: 0 <= i < |names| ==> IsFile(fs, dir + [names[i]]);
    ReadAllContents(fs, root, collection);
    var r := ReadAllResult(fs, root, collection);
    assert r.Ok?;
    assert |r.value| == 1 && r.value[0] == data;
    assert r.value == [data];
  }

  /**
   * The first Write into a collection that did not exist makes ReadAll
   * return exactly that one record.
   */
  lemma WriteThenReadAll(fs: FileSystem, root: Path, collection: string, resource: string, encoded: Option<Bytes>)
    requires Tree(fs) && CollectionDir(root, collection) !in fs
    requires WriteSteps(fs, root, collection, resource, encoded).1 == None
    ensures ReadAllResult(WriteSteps(fs, root, collection, resource, encoded).0, root, collection) ==
      Ok([encoded.value + [Newline]])
  {
    var dir := CollectionDir(root, collection);
    var fs' := WriteSteps(fs, root, collection, resource, encoded).0;
    var name := resource + JsonExt;
    assert ResourceFile(root, collection, resource) == dir + [name];
    assert TmpFile(root, collection, resource) == dir + [name + TmpExt];
    WriteFrame(fs, root, collection, resource, encoded);
    forall n | dir + [n] in fs'
      ensures n == name
    {
      assert Parent(dir + [n]) == dir && !(dir + [n] <= dir);
      assert dir + [n] in fs ==> InDirectory(fs, dir + [n]);
    }
    OnlyRecord(fs', root, collection, name, encoded.value + [Newline]);
  }

  /** A subdirectory in the collection makes the whole ReadAll fail. */
  lemma ReadAllFailsOnSubdirectory(fs: FileSystem, root: Path, collection: string, name: string)
    requires Tree(fs)
    requires CollectionDir(root, collection) + [name] in fs
    requires fs[CollectionDir(root, collection) + [name]].Dir?
    ensures ReadAllResult(fs, root, collection).Err?
  {
    var dir := CollectionDir(root, collection);
    var names := Listing(fs, dir);
    ReadAllContents(fs, root, collection);
    assert InDirectory(fs, dir + [name]) && Parent(dir + [name]) == dir;
    var i :| 0 <= i < |names| && names[i] == name;
    assert !IsFile(fs, dir + [names[i]]);
  }

  /**
   * When the collection resolves to a regular file (`<collection>` or
   * `<collection>.json`), listing it fails silently and ReadAll returns no
   * records.
   */
  lemma ReadAllOfNonDirectory(fs: FileSystem, root: Path, collection: string)
    requires Tree(fs) && collection != ""
    requires var dir := CollectionDir(root, collection);
      !(dir in fs && fs[dir].Dir?) && (dir in fs || Suffixed(dir, JsonExt) in fs)
    ensures ReadAllResult(fs, root, collection) == Ok([])
  {
  }

  // --------------------------------------------------------------- Delete

  /** Deleting with an empty resource name removes the collection, after which ReadAll fails. */
  lemma DeleteCollection(fs: FileSystem, root: Path, collection: string)
    requires Tree(fs) && collection != ""
    requires var dir := CollectionDir(root, collection);
      dir in fs && fs[dir].Dir? && Suffixed(dir, JsonExt) !in fs
    ensures var dir := CollectionDir(root, collection);
      var r := DeleteSteps(fs, root, collection, "");
      && r.1.None?
      && (forall p :: p in r.0 <==> p in fs && !(dir <= p))
      && ReadAllResult(r.0, root, collection) == Err(Io(NotExist))
  {
    var dir := CollectionDir(root, collection);
    assert DeleteTarget(collection, "") == [collection];
    var after := DeleteSteps(fs, root, collection, "").0;
    NotUnderFile(fs, dir, JsonExt);
    UnderFileOfSubset(after, fs, dir);
    assert !(dir <= Suffixed(dir, JsonExt)) by {
      assert |Suffixed(dir, JsonExt)| == |dir|;
    }
  }

  /**
   * With `<collection>.json` beside the collection directory, ReadAll after
   * deleting the collection resolves to that file: no records and no error.
   */
  lemma DeleteCollectionBesideJsonFile(fs: FileSystem, root: Path, collection: string)
    requires Tree(fs) && collection != ""
    requires var dir := CollectionDir(root, collection);
      dir in fs && fs[dir].Dir? && Suffixed(dir, JsonExt) in fs
    ensures var r := DeleteSteps(fs, root, collection, "");
      r.1.None? && ReadAllResult(r.0, root, collection) == Ok([])
  {
    var dir := CollectionDir(root, collection);
    assert DeleteTarget(collection, "") == [collection];
    assert !(dir <= Suffixed(dir, JsonExt)) by {
      assert |Suffixed(dir, JsonExt)| == |dir|;
    }
  }

  /** Deleting a stored resource removes its file and nothing else; it no longer reads. */
  lemma DeleteResource(fs: FileSystem, root: Path, collection: string, resource: string)
    requires Tree(fs) && collection != "" && resource != ""
    requires IsFile(fs, ResourceFile(root, collection, resource))
    requires root + [collection, resource] in fs ==> fs[root + [collection, resource]].File?
    ensures DeleteSteps(fs, root, collection, resource) == (fs - {ResourceFile(root, collection, resource)}, None)
    ensures ReadResult(fs - {ResourceFile(root, collection, resource)}, root, collection, resource) == Err(Io(NotExist))
  {
    var target := root + [collection, resource];
    var file := ResourceFile(root, collection, resource);
    NotUnderFile(fs, file, "");
    UnderFileOfSubset(fs - {file}, fs, file);
    assert DeleteTarget(collection, resource) == [collection, resource];
    assert Suffixed(target, JsonExt) == file;
    var r := DeleteSteps(fs, root, collection, resource);
    if target in fs {
      PruneFile(fs, file);
      assert r.0 == fs - {file};
    } else {
      assert r.0 == fs - {file};
    }
    assert r.1.None?;
  }

  /** Removing one resource's file leaves every other resource of the collection reading as before. */
  lemma DeleteKeepsOtherResources(fs: FileSystem, root: Path, collection: string, resource: string, other: string)
    requires Tree(fs) && Tree(fs - {ResourceFile(root, collection, resource)})
    requires other != resource
    ensures var fs' := fs - {ResourceFile(root, collection, resource)};
      && (ReadResult(fs', root, collection, other).Ok? <==> ReadResult(fs, root, collection, other).Ok?)
      && (ReadResult(fs, root, collection, other).Ok? ==>
            ReadResult(fs', root, collection, other) == ReadResult(fs, root, collection, other))
  {
    JsonNamesDiffer(other, resource);
    var dir := CollectionDir(root, collection);
    assert ResourceFile(root, collection, other) == dir + [other + JsonExt];
    assert ResourceFile(root, collection, resource) == dir + [resource + JsonExt];
    assert (dir + [other + JsonExt])[|dir|] != (dir + [resource + JsonExt])[|dir|];
  }

  /**
   * A directory named like the resource, beside its file, is what Delete
   * removes: the record stays and still reads.
   */
  lemma DeleteResourceBesideDirectory(fs: FileSystem, root: Path, collection: string, resource: string)
    requires Tree(fs) && collection != "" && resource != ""
    requires IsFile(fs, ResourceFile(root, collection, resource))
    requires root + [collection, resource] in fs && fs[root + [collection, resource]].Dir?
    ensures var r := DeleteSteps(fs, root, collection, resource);
      && r == (Prune(fs, root + [collection, resource]), None)
      && ReadResult(r.0, root, collection, resource) == Ok(fs[ResourceFile(root, collection, resource)].data)
  {
    var target := root + [collection, resource];
    var file := ResourceFile(root, collection, resource);
    assert DeleteTarget(collection, resource) == [collection, resource];
    assert file == root + [collection, resource + JsonExt];
    assert !(target <= file) by {
      assert |resource + JsonExt| != |resource|;
      assert file[|root| + 1] != target[|root| + 1];
    }
  }

  /**
   * Deleting "x.json" finds the stored "x.json" but removes "x.json.json":
   * it reports success and nothing changes.
   */
  lemma DeleteOfExtendedName(fs: FileSystem, root: Path, collection: string, name: string)
    requires Tree(fs) && collection != "" && name != ""
    requires IsFile(fs, ResourceFile(root, collection, name))
    requires ResourceFile(root, collection, name + JsonExt) !in fs
    ensures DeleteSteps(fs, root, collection, name + JsonExt) == (fs, None)
  {
    var target := root + [collection, name + JsonExt];
    assert DeleteTarget(collection, name + JsonExt) == [collection, name + JsonExt];
    assert target == ResourceFile(root, collection, name);
    assert Suffixed(target, JsonExt) == ResourceFile(root, collection, name + JsonExt);
    PruneAbsent(fs, Suffixed(target, JsonExt));
  }

  /**
   * When only `<target>.json` exists and it is a directory, Delete resolves
   * it, removes the absent `<target>` and reports success: nothing changes.
   */
  lemma DeleteOfJsonDirectory(fs: FileSystem, root: Path, collection: string, resource: string)
    requires Tree(fs)
    requires var target := root + DeleteTarget(collection, resource);
      target !in fs && Suffixed(target, JsonExt) in fs && fs[Suffixed(target, JsonExt)].Dir?
    ensures DeleteSteps(fs, root, collection, resource) == (fs, None)
  {
  }

  /** Delete checks no names: with both empty it removes the store's root directory. */
  lemma DeleteWithoutNames(fs: FileSystem, root: Path)
    requires Tree(fs) && root in fs && fs[root].Dir?
    ensures var r := DeleteSteps(fs, root, "", "");
      r.1.None? && forall p :: p in r.0 <==> p in fs && !(root <= p)
  {
    assert DeleteTarget("", "") == [];
    assert root + [] == root;
  }

  // -------------------------------------------------------- lock registry

  /** A run of `getOrCreateMutex` calls, each with the lock it would allocate. */
  function Registrations<L>(registry: map<string, L>, calls: seq<(string, L)>): map<string, L>
    decreases |calls|
  {
    if calls == [] then registry
    else Registrations(Register(registry, calls[0].0, calls[0].1).0, calls[1..])
  }

  predicate Called<L>(calls: seq<(string, L)>, name: string)
  {
    exists i :: 0 <= i < |calls| && calls[i].0 == name
  }

  /**
   * Over any run of calls the registry gains exactly the names asked for,
   * and no entry is ever removed or replaced.
   */
  lemma {:induction false} RegistryOnlyGrows<L>(registry: map<string, L>, calls: seq<(string, L)>)
    ensures var r := Registrations(registry, calls);
      && (forall k :: k in registry ==> k in r && r[k] == registry[k])
      && (forall k :: k in r <==> k in registry || Called(calls, k))
    decreases |calls|
  {
    if calls != [] {
      var next := Register(registry, calls[0].0, calls[0].1).0;
      RegistryOnlyGrows(next, calls[1..]);
      forall k
        ensures Called(calls, k) <==> k == calls[0].0 || Called(calls[1..], k)
      {
        if Called(calls, k) && k != calls[0].0 {
          var i :| 0 <= i < |calls| && calls[i].0 == k;
          assert calls[1..][i - 1].0 == k;
        }
        if Called(calls[1..], k) {
          var i :| 0 <= i < |calls[1..]| && calls[1..][i].0 == k;
          assert calls[i + 1].0 == k;
        }
      }
    }
  }

  /** Asking again for a registered name returns the same lock and changes nothing. */
  lemma RegisterIdempotent<L>(registry: map<string, L>, name: string, first: L, second: L)
    ensures var (r1, m1) := Register(registry, name, first);
      Register(r1, name, second) == (r1, m1)
  {
  }
}
