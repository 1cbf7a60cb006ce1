/**
 * The operating system's file system as one mutable object: the store's
 * calls into the `os` and `io/ioutil` packages change or read its entries.
 */
module Os {
  import opened Wrappers
  import opened FileTree
  import NameOrder

  /** The state a failing call leaves (unchanged) and the error it returns. */
  function Effect(r: Result<FileSystem, OsError>, fs: FileSystem): (FileSystem, Option<OsError>)
  {
    match r
    case Ok(fs') => (fs', None)
    case Err(e) => (fs, Some(e))
  }

  class Disk {
    var entries: FileSystem

    ghost predicate Valid()
      reads this
    {
      Tree(entries)
    }

    constructor (entries: FileSystem)
      requires Tree(entries)
      ensures Valid() && this.entries == entries
    {
      this.entries := entries;
    }

    method MkdirAll(p: Path) returns (err: Option<OsError>)
      requires Valid()
      modifies this
      ensures Valid()
      ensures (entries, err) == Effect(FileTree.MkdirAll(old(entries), p), old(entries))
    {
      var r := FileTree.MkdirAll(entries, p);
      var (after, e) := Effect(r, entries);
      entries, err := after, e;
    }

    method WriteFile(p: Path, data: Bytes) returns (err: Option<OsError>)
      requires Valid()
      modifies this
      ensures Valid()
      ensures (entries, err) == Effect(FileTree.WriteFile(old(entries), p, data), old(entries))
    {
      var r := FileTree.WriteFile(entries, p, data);
      var (after, e) := Effect(r, entries);
      entries, err := after, e;
    }

    method Rename(from: Path, to: Path) returns (err: Option<OsError>)
      requires Valid()
      requires from in entries ==> entries[from].File?
      modifies this
      ensures Valid()
      ensures (entries, err) == Effect(FileTree.Rename(old(entries), from, to), old(entries))
    {
      var r := FileTree.Rename(entries, from, to);
      var (after, e) := Effect(r, entries);
      entries, err := after, e;
    }

    method RemoveAll(p: Path) returns (err: Option<OsError>)
      requires Valid()
      modifies this
      ensures Valid()
      ensures (entries, err) == Effect(FileTree.RemoveAll(old(entries), p), old(entries))
    {
      var r := FileTree.RemoveAll(entries, p);
      var (after, e) := Effect(r, entries);
      entries, err := after, e;
    }

    /**
     * `ioutil.ReadDir`: reads the directory's entries in whatever order and
     * sorts them by name; fails on anything that is not a directory.
     */
    method ReadDir(dir: Path) returns (names: seq<string>, err: Option<OsError>)
      ensures names == Listing(entries, dir)
      ensures err.None? <==> dir in entries && entries[dir].Dir?
    {
      if dir !in entries {
        return [], Some(Missing(entries, dir));
      }
      if entries[dir].File? {
        return [], Some(NotADirectory);
      }
      var children := Children(entries, dir);
      var pending := children;
      names := [];
      while pending != {}
        invariant pending <= children
        invariant NameOrder.StrictlySorted(names)
        invariant forall n :: n in names <==> n in children && n !in pending
        decreases pending
      {
        var n :| n in pending;
        names := NameOrder.Insert(names, n);
        pending := pending - {n};
      }
      NameOrder.SortedUnique(names, Listing(entries, dir));
      err := None;
    }
  }
}
