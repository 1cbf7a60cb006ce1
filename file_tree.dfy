/**
 * An abstract file system: a map from absolute paths to entries, and the
 * calls of Go's `os` and `io/ioutil` packages that the store makes, as pure
 * functions from the old map to the new one or to an error.  Only the error
 * conditions that the shape of the tree decides are modelled.
 */
module FileTree {
  import opened Wrappers
  import NameOrder

  newtype byte = b: int | 0 <= b < 256

  type Bytes = seq<byte>

  /** An absolute path as its segments; `[]` is the root "/". */
  type Path = seq<string>

  datatype Entry = Dir | File(data: Bytes)

  type FileSystem = map<Path, Entry>

  /** ENOENT, ENOTDIR, EISDIR and EEXIST. */
  datatype OsError = NotExist | NotADirectory | IsADirectory | Exists

  function Parent(p: Path): Path
    requires p != []
  {
    p[..|p| - 1]
  }

  /**
   * `p + suffix` on the path's string: the suffix extends the last segment
   * ("/" + ".json" names the entry ".json" under the root).
   */
  function Suffixed(p: Path, suffix: string): (r: Path)
    ensures r != []
    ensures |r| == if p == [] then 1 else |p|
    ensures p != [] ==> Parent(r) == Parent(p) && r[|p| - 1] == p[|p| - 1] + suffix
  {
    if p == [] then [suffix] else p[..|p| - 1] + [p[|p| - 1] + suffix]
  }

  /** `p` is the root or sits in a directory that exists. */
  predicate InDirectory(fs: FileSystem, p: Path)
  {
    p != [] ==> Parent(p) in fs && fs[Parent(p)].Dir?
  }

  /**
   * The root is a directory and every other entry sits in a directory that
   * exists.  The quantifier fires only on `InDirectory` terms, so proofs
   * name the entry whose parent they need.
   */
  ghost predicate Tree(fs: FileSystem)
  {
    && ([] in fs ==> fs[[]].Dir?)
    && forall p {:trigger InDirectory(fs, p)} :: p in fs ==> InDirectory(fs, p)
  }

  /** Setting one entry keeps a tree a tree when the entry has a parent and hides no children. */
  lemma UpdateKeepsTree(fs: FileSystem, p: Path, e: Entry)
    requires Tree(fs) && InDirectory(fs, p)
    requires e.File? ==> p != [] && (p in fs ==> fs[p].File?)
    ensures Tree(fs[p := e])
  {
    var r := fs[p := e];
    forall q | q in r
      ensures InDirectory(r, q)
    {
      if q != p {
        assert InDirectory(fs, q);
        if q != [] && Parent(q) == p {
          assert p in fs && fs[p].Dir?;
        }
      }
    }
  }

  /** Removing a regular file keeps a tree a tree. */
  lemma RemoveFileKeepsTree(fs: FileSystem, p: Path)
    requires Tree(fs) && p in fs && fs[p].File?
    ensures Tree(fs - {p})
  {
    var r := fs - {p};
    forall q | q in r
      ensures InDirectory(r, q)
    {
      assert InDirectory(fs, q);
    }
  }

  /** Some proper prefix of `p` is a regular file. */
  predicate UnderFile(fs: FileSystem, p: Path)
  {
    exists k :: 0 <= k < |p| && p[..k] in fs && fs[p[..k]].File?
  }

  /** The error a lookup of an absent path reports. */
  function Missing(fs: FileSystem, p: Path): OsError
  {
    if UnderFile(fs, p) then NotADirectory else NotExist
  }

  /** A new entry at `p` would sit in an existing directory. */
  predicate CanCreate(fs: FileSystem, p: Path)
  {
    p != [] && Parent(p) in fs && fs[Parent(p)].Dir?
  }

  lemma {:induction false} TreeAncestors(fs: FileSystem, p: Path, k: nat)
    requires Tree(fs) && p in fs && k < |p|
    ensures p[..k] in fs && fs[p[..k]].Dir?
    decreases |p|
  {
    assert InDirectory(fs, p);
    if k < |p| - 1 {
      TreeAncestors(fs, Parent(p), k);
      assert Parent(p)[..k] == p[..k];
    } else {
      assert p[..k] == Parent(p);
    }
  }

  /** In a tree nothing exists below a regular file. */
  lemma NothingUnderFile(fs: FileSystem, p: Path)
    requires Tree(fs) && UnderFile(fs, p)
    ensures p !in fs
  {
    var k :| 0 <= k < |p| && p[..k] in fs && fs[p[..k]].File?;
    if p in fs {
      TreeAncestors(fs, p, k);
    }
  }

  /** Nothing above an existing entry, or above its suffixed sibling, is a regular file. */
  lemma NotUnderFile(fs: FileSystem, p: Path, suffix: string)
    requires Tree(fs) && p in fs
    ensures !UnderFile(fs, p) && !UnderFile(fs, Suffixed(p, suffix))
  {
    forall k | 0 <= k < |p| ensures p[..k] in fs && fs[p[..k]].Dir? {
      TreeAncestors(fs, p, k);
    }
    var s := Suffixed(p, suffix);
    forall k | 0 <= k < |s| && s[..k] in fs ensures fs[s[..k]].Dir? {
      if p != [] {
        assert s[..k] == p[..k];
      }
    }
  }

  lemma UnderFileSuffixed(fs: FileSystem, p: Path, suffix: string)
    ensures UnderFile(fs, p) ==> UnderFile(fs, Suffixed(p, suffix))
  {
    if UnderFile(fs, p) {
      var k :| 0 <= k < |p| && p[..k] in fs && fs[p[..k]].File?;
      assert Suffixed(p, suffix)[..k] == p[..k];
    }
  }

  /** In a tree, a prefix of a suffixed path is a regular file only when one of the path's is. */
  lemma SuffixedUnderFile(fs: FileSystem, p: Path, suffix: string)
    requires Tree(fs)
    ensures UnderFile(fs, Suffixed(p, suffix)) ==> UnderFile(fs, p)
  {
    var s := Suffixed(p, suffix);
    if UnderFile(fs, s) {
      var k :| 0 <= k < |s| && s[..k] in fs && fs[s[..k]].File?;
      if p != [] {
        assert s[..k] == p[..k];
      }
    }
  }

  /** A file system whose entries all appear unchanged in another hides no more paths under files. */
  lemma UnderFileOfSubset(sub: FileSystem, fs: FileSystem, p: Path)
    requires forall q :: q in sub ==> q in fs && sub[q] == fs[q]
    ensures UnderFile(sub, p) ==> UnderFile(fs, p)
  {
    if UnderFile(sub, p) {
      var k :| 0 <= k < |p| && p[..k] in sub && sub[p[..k]].File?;
      assert p[..k] in fs && fs[p[..k]].File?;
    }
  }

  lemma AncestorExists(fs: FileSystem, q: Path, p: Path)
    requires Tree(fs) && q in fs
    ensures p <= q ==> p in fs
    ensures p <= q && p != q ==> fs[p].Dir?
  {
    if p <= q && p != q {
      assert q[..|p|] == p;
      TreeAncestors(fs, q, |p|);
    }
  }

  /** In a tree nothing exists below an absent path. */
  lemma PruneAbsent(fs: FileSystem, p: Path)
    requires Tree(fs) && p !in fs
    ensures Prune(fs, p) == fs
  {
    forall q | q in fs ensures !(p <= q) {
      AncestorExists(fs, q, p);
    }
  }

  /** Removing a regular file removes that entry alone. */
  lemma PruneFile(fs: FileSystem, p: Path)
    requires Tree(fs) && p in fs && fs[p].File?
    ensures Prune(fs, p) == fs - {p}
  {
    forall q | q in fs ensures !(p <= q && p != q) {
      AncestorExists(fs, q, p);
    }
  }

  /** `os.Stat` */
  function Stat(fs: FileSystem, p: Path): (r: Result<Entry, OsError>)
    ensures r.Ok? <==> p in fs
    ensures r.Ok? ==> r.value == fs[p]
    ensures r.Err? ==> r.error == NotExist || r.error == NotADirectory
  {
    if p in fs then Ok(fs[p]) else Err(Missing(fs, p))
  }

  /** `ioutil.ReadFile` */
  function ReadFile(fs: FileSystem, p: Path): (r: Result<Bytes, OsError>)
    ensures r.Ok? <==> p in fs && fs[p].File?
    ensures r.Ok? ==> r.value == fs[p].data
    ensures p in fs && fs[p].Dir? ==> r == Err(IsADirectory)
  {
    if p !in fs then Err(Missing(fs, p))
    else match fs[p]
      case File(data) => Ok(data)
      case Dir => Err(IsADirectory)
  }

  /**
   * `os.MkdirAll`: succeeds at once on an existing directory, fails on an
   * existing regular file, and otherwise creates the parent first.
   */
  function MkdirAll(fs: FileSystem, p: Path): (r: Result<FileSystem, OsError>)
    ensures r.Ok? ==> p in r.value && r.value[p] == Dir
    ensures r.Ok? ==> forall q :: q in fs ==> q in r.value && r.value[q] == fs[q]
    ensures r.Ok? ==> forall q :: q in r.value && q !in fs ==> q <= p && r.value[q] == Dir
    ensures r.Err? ==> r.error == NotADirectory
    ensures Tree(fs) && r.Ok? ==> Tree(r.value)
    decreases |p|
  {
    if p in fs then
      if fs[p].Dir? then Ok(fs) else Err(NotADirectory)
    else if p == [] then
      assert Tree(fs) ==> Tree(fs[p := Dir]) by {
        if Tree(fs) {
          UpdateKeepsTree(fs, p, Dir);
        }
      }
      Ok(fs[p := Dir])
    else
      match MkdirAll(fs, Parent(p))
      case Err(e) => Err(e)
      case Ok(fs1) =>
        assert Tree(fs) ==> Tree(fs1[p := Dir]) by {
          if Tree(fs) {
            UpdateKeepsTree(fs1, p, Dir);
          }
        }
        Ok(fs1[p := Dir])
  }

  lemma UnderFileStep(fs: FileSystem, p: Path)
    requires p != []
    ensures UnderFile(fs, p) <==> UnderFile(fs, Parent(p)) || (Parent(p) in fs && fs[Parent(p)].File?)
  {
    var q := Parent(p);
    if UnderFile(fs, q) {
      var k :| 0 <= k < |q| && q[..k] in fs && fs[q[..k]].File?;
      assert p[..k] == q[..k];
    }
    if q in fs && fs[q].File? {
      assert p[..|p| - 1] == q;
    }
    if UnderFile(fs, p) {
      var k :| 0 <= k < |p| && p[..k] in fs && fs[p[..k]].File?;
      if k < |q| {
        assert q[..k] == p[..k];
      } else {
        assert p[..k] == q;
      }
    }
  }

  /** In a tree, MkdirAll fails exactly when the path or a prefix of it is a regular file. */
  lemma {:induction false} MkdirAllFails(fs: FileSystem, p: Path)
    requires Tree(fs)
    ensures MkdirAll(fs, p).Err? <==> UnderFile(fs, p) || (p in fs && fs[p].File?)
    decreases |p|
  {
    if p in fs {
      NotUnderFile(fs, p, "");
    } else if p != [] {
      MkdirAllFails(fs, Parent(p));
      UnderFileStep(fs, p);
    }
  }

  /** `ioutil.WriteFile`: creates or truncates a regular file. */
  function WriteFile(fs: FileSystem, p: Path, data: Bytes): (r: Result<FileSystem, OsError>)
    ensures r.Ok? <==> (p in fs && fs[p].File?) || (p !in fs && CanCreate(fs, p))
    ensures r.Ok? ==> r.value == fs[p := File(data)]
    ensures p in fs && fs[p].Dir? ==> r == Err(IsADirectory)
    ensures Tree(fs) && r.Ok? ==> Tree(r.value)
  {
    assert Tree(fs) && ((p in fs && fs[p].File?) || (p !in fs && CanCreate(fs, p))) ==>
      Tree(fs[p := File(data)]) by {
      if Tree(fs) && p in fs && fs[p].File? {
        assert InDirectory(fs, p);
        UpdateKeepsTree(fs, p, File(data));
      } else if Tree(fs) && p !in fs && CanCreate(fs, p) {
        UpdateKeepsTree(fs, p, File(data));
      }
    }
    if p in fs then
      if fs[p].Dir? then Err(IsADirectory) else Ok(fs[p := File(data)])
    else if CanCreate(fs, p) then
      Ok(fs[p := File(data)])
    else
      Err(Missing(fs, p))
  }

  /**
   * `os.Rename` of a regular file: Go refuses an existing directory as the
   * new name with EEXIST; otherwise the entry moves, replacing any file
   * there.  Renaming directories is not modelled.
   */
  function Rename(fs: FileSystem, from: Path, to: Path): (r: Result<FileSystem, OsError>)
    requires from in fs ==> fs[from].File?
    ensures r.Ok? <==> from in fs && ((to in fs && fs[to].File?) || (to !in fs && CanCreate(fs, to)))
    ensures r.Ok? && from != to ==> r.value == (fs - {from})[to := fs[from]]
    ensures r.Ok? && from == to ==> r.value == fs
    ensures from in fs && to in fs && fs[to].Dir? ==> r == Err(Exists)
    ensures Tree(fs) && r.Ok? ==> Tree(r.value)
  {
    if to in fs && fs[to].Dir? then
      if from !in fs then Err(Missing(fs, from)) else Err(Exists)
    else if from !in fs then
      Err(Missing(fs, from))
    else if to !in fs && !CanCreate(fs, to) then
      Err(Missing(fs, to))
    else if from == to then
      Ok(fs)
    else
      assert Tree(fs) ==> Tree((fs - {from})[to := fs[from]]) by {
        if Tree(fs) {
          RemoveFileKeepsTree(fs, from);
          var rest := fs - {from};
          if to in fs {
            assert InDirectory(fs, to);
          }
          assert InDirectory(rest, to);
          UpdateKeepsTree(rest, to, fs[from]);
        }
      }
      Ok((fs - {from})[to := fs[from]])
  }

  /** The file system without `p` and everything below it. */
  function Prune(fs: FileSystem, p: Path): (r: FileSystem)
    ensures forall q :: q in r <==> q in fs && !(p <= q)
    ensures forall q :: q in r ==> r[q] == fs[q]
    ensures Tree(fs) ==> Tree(r)
  {
    var r := map q | q in fs && !(p <= q) :: fs[q];
    assert Tree(fs) ==> Tree(r) by {
      forall q | Tree(fs) && q in r
        ensures InDirectory(r, q)
      {
        assert InDirectory(fs, q);
        if q != [] {
          assert p <= Parent(q) ==> p <= q;
        }
      }
    }
    r
  }

  /**
   * `os.RemoveAll`: an absent path is no error, unless a proper prefix is a
   * regular file (ENOTDIR).
   */
  function RemoveAll(fs: FileSystem, p: Path): (r: Result<FileSystem, OsError>)
    ensures r.Ok? <==> !UnderFile(fs, p)
    ensures r.Ok? ==> r.value == Prune(fs, p)
    ensures r.Err? ==> r.error == NotADirectory
  {
    if UnderFile(fs, p) then Err(NotADirectory) else Ok(Prune(fs, p))
  }

  /** The names of the entries directly inside `dir`. */
  function Children(fs: FileSystem, dir: Path): (r: set<string>)
    ensures forall n :: n in r <==> dir + [n] in fs
  {
    var r := set q | q in fs && |q| == |dir| + 1 && q[..|dir|] == dir :: q[|dir|];
    forall n ensures n in r <==> dir + [n] in fs {
      if dir + [n] in fs {
        var q := dir + [n];
        assert q[..|dir|] == dir && q[|dir|] == n;
      }
      if n in r {
        var q :| q in fs && |q| == |dir| + 1 && q[..|dir|] == dir && q[|dir|] == n;
        assert q == dir + [n];
      }
    }
    r
  }

  /**
   * What `ioutil.ReadDir` lists: the entry names of a directory sorted by
   * name; nothing for anything that is not a directory.
   */
  ghost function Listing(fs: FileSystem, dir: Path): (r: seq<string>)
    ensures NameOrder.StrictlySorted(r)
    ensures forall n :: n in r <==> dir in fs && fs[dir].Dir? && dir + [n] in fs
  {
    if dir in fs && fs[dir].Dir? then NameOrder.SortedOf(Children(fs, dir)) else []
  }
}
