# mgdb: a verified model of the JSON-file document store

mgdb keeps records as JSON files under a root directory. Each collection is a
subdirectory of the root. Each resource is a file `<resource>.json` in its
collection's directory. A `Driver` holds the root path and a registry that maps
each collection name to a lock. It offers these operations:

- `New` opens the root, creating it when nothing is there.
- `Write` stages the encoded value in `<resource>.json.tmp`, then renames that file onto `<resource>.json`.
- `Read` returns one record.
- `ReadAll` returns every entry of a collection, in name order.
- `Delete` removes a collection directory or one record file.
- `getOrCreateMutex` returns the lock registered for a collection, creating it on first use.
- `stat` looks a path up as it is, then with `.json` appended.

The model has six modules:

- `Wrappers`: `Option` and `Result`.
- `NameOrder`: the byte-wise order `ioutil.ReadDir` sorts names by. It defines the sorted listing of a set of names and proves that listing unique.
- `FileTree`: the file system as a map from paths to entries. It also models the `os` calls the store makes, as functions that return the new file system or the OS error. The invariant `Tree` says that every entry sits in an existing directory.
- `Os`: the file system as one mutable object, `Os.Disk`. Its methods change `entries` exactly as the `FileTree` functions say. `ReadDir` builds the sorted listing with a loop.
- `Mgdb`: the `Driver` class, with its `directory`, its `disk` and its lock registry `mutexes`. Each operation is a method, proved equal to a specification function. Each function gives the new file system and the error, or the bytes read.
- `MgdbProperties`: lemmas that relate the operations to each other.

The model follows the code, including where it differs from the store's own
description:

- `Read` accepts a name only through `stat`. It then always reads `<record>.json`, so reading `x.json` reads `x.json.json` (`ReadOfExtendedName`).
- `Delete` checks no names, so empty names delete the collection or the whole root (`DeleteWithoutNames`). For a regular file it removes `<target>.json`. Deleting `x.json` therefore succeeds and changes nothing (`DeleteOfExtendedName`). When only `<target>.json` exists and it is a directory, Delete removes the absent `<target>`, succeeds and changes nothing (`DeleteOfJsonDirectory`).
- `ReadAll` discards the error of `ioutil.ReadDir`. When the collection resolves to anything but its own directory (a regular file, or `<collection>.json`), it returns no records and no error (`ReadAllOfNonDirectory`).
- `ReadAll` reads every listed entry. A stale `.tmp` file comes back as a record (`ReadAllReturnsEveryEntry`), and a subdirectory fails the whole call (`ReadAllFailsOnSubdirectory`).
- Deleting a collection removes only its directory. When `<collection>.json` sits beside it, ReadAll then resolves to that file and returns no records and no error (`DeleteCollectionBesideJsonFile`).
- Deleting a resource removes a directory named like the resource when one sits beside `<resource>.json`, and the record stays readable (`DeleteResourceBesideDirectory`).
- A value that cannot be encoded still leaves the collection directory created (`MarshalFailureKeepsDirectory`).
- A failed rename leaves the `.tmp` file behind (`RenameFailureLeavesTmp`).

Modelling decisions:

- Paths are sequences of names, and `[]` is `/`.
- `filepath.Join` drops empty names (`Mgdb.Join`).
- Appending `.json` or `.tmp` extends the last name (`FileTree.Suffixed`).
- An OS error is one of `NotExist`, `NotADirectory` (ENOTDIR), `IsADirectory` and `Exists` (EEXIST).

## Model

| member | source | states |
|---|---|---|
| NameOrder.Insert | mgdb.go:134 | inserting a new name into a strictly sorted list keeps it strictly sorted and adds exactly that name |
| NameOrder.SortedOf | mgdb.go:134 | every finite set of names has a strictly sorted listing with exactly its members |
| NameOrder.SortedUnique | mgdb.go:134 | two strictly sorted lists with the same members are equal, so a directory's listing does not depend on the order entries are read in |
| NameOrder.HeadIsLeast | mgdb.go:134 | the head of a strictly sorted list precedes every later name and does not recur |
| FileTree.Suffixed | mgdb.go:187 | appending an extension to a path keeps its length and parent and extends only its last name |
| FileTree.NothingUnderFile | mgdb.go:186 | in a tree nothing exists below a regular file, so ENOTDIR never hides an entry from `os.Stat` |
| FileTree.NotUnderFile | mgdb.go:186-187 | no prefix of an existing entry, or of that entry with an extension, is a regular file |
| FileTree.SuffixedUnderFile | mgdb.go:187 | in a tree, a path with an extension appended lies under a regular file only when the path itself does |
| FileTree.UnderFileOfSubset | mgdb.go:163 | removing entries never puts a path under a regular file |
| FileTree.UpdateKeepsTree | mgdb.go:93 | setting an entry whose parent is a directory keeps every entry inside a directory, unless that would hide children under a file |
| FileTree.RemoveFileKeepsTree | mgdb.go:97 | removing a regular file keeps every entry inside a directory |
| FileTree.Stat | mgdb.go:186 | `os.Stat` succeeds exactly on existing paths, returns their entry, and fails with NotExist or NotADirectory |
| FileTree.ReadFile | mgdb.go:115 | `ioutil.ReadFile` succeeds exactly on regular files, returns their bytes, and fails with IsADirectory on a directory |
| FileTree.MkdirAll | mgdb.go:82 | on success the path is a directory, every old entry is kept, and every new entry is a directory on the way to the path; a tree stays a tree |
| FileTree.MkdirAllFails | mgdb.go:82-84 | in a tree `os.MkdirAll` fails exactly when the path or one of its prefixes is a regular file |
| FileTree.WriteFile | mgdb.go:93 | `ioutil.WriteFile` succeeds exactly on an existing regular file or a new name in an existing directory, and then sets that file's bytes and nothing else |
| FileTree.Rename | mgdb.go:97 | renaming a file succeeds exactly when the source exists and the target is a regular file or a new name in a directory; the source moves and replaces the target; a directory target gives EEXIST |
| FileTree.Prune | mgdb.go:163 | the file system without the path and everything below it, with the other entries unchanged; a tree stays a tree |
| FileTree.PruneAbsent | mgdb.go:163 | in a tree, pruning an absent path changes nothing |
| FileTree.PruneFile | mgdb.go:166 | in a tree, pruning a regular file removes that one entry |
| FileTree.RemoveAll | mgdb.go:163 | `os.RemoveAll` fails exactly when a proper prefix is a regular file, and otherwise prunes the path, absent or not |
| FileTree.Children | mgdb.go:134 | a name is a child of a directory exactly when the directory joined with it exists |
| FileTree.Listing | mgdb.go:134 | the listing is strictly sorted and holds exactly the children of a directory, and nothing for anything else |
| Os.Disk.MkdirAll | mgdb.go:82 | the disk's new entries and the error are those of `FileTree.MkdirAll`; a failed call changes nothing |
| Os.Disk.WriteFile | mgdb.go:93 | the disk's new entries and the error are those of `FileTree.WriteFile` |
| Os.Disk.Rename | mgdb.go:97 | the disk's new entries and the error are those of `FileTree.Rename` |
| Os.Disk.RemoveAll | mgdb.go:163 | the disk's new entries and the error are those of `FileTree.RemoveAll` |
| Os.Disk.ReadDir | mgdb.go:134 | the loop returns the sorted listing of the directory, and an error exactly when the path is not a directory |
| Mgdb.Join | mgdb.go:78 | `filepath.Join` of a path and a name extends the path by that name, and by nothing when the name is empty |
| Mgdb.ResourceFile | mgdb.go:79 | a resource is stored in its collection's directory under the name `<resource>.json` |
| Mgdb.TmpFile | mgdb.go:80 | the staging file sits in the collection's directory under the name `<resource>.json.tmp` |
| Mgdb.TmpFileDiffers | mgdb.go:80 | the staging file is never the target file |
| Mgdb.Resolve | mgdb.go:185-190 | `stat` returns the entry at the path when there is one, and otherwise succeeds exactly when the path with `.json` exists, returning that entry |
| Mgdb.Register | mgdb.go:175-182 | a registered name keeps its lock and the registry is unchanged; a new name is registered with the new lock |
| Mgdb.Opened | mgdb.go:56-62 | opening keeps an existing root untouched and otherwise creates it as a directory; a failure changes nothing |
| Mgdb.WriteSteps | mgdb.go:65-98 | empty names fail with nothing changed; success needs both names and an encoding, leaves `<resource>.json` holding the encoding plus a newline, and leaves no `.tmp` file; a tree stays a tree |
| Mgdb.ReadResult | mgdb.go:100-121 | empty names fail; `Read` succeeds exactly when `<resource>.json` is a regular file, and returns its bytes; a missing `<resource>.json` with no regular file above it fails with NotExist |
| Mgdb.ReadEach | mgdb.go:138-145 | the loop's outcome: on success one record per name, and every failure is an OS error |
| Mgdb.ReadEachStep | mgdb.go:138-145 | one turn of the loop: a failed read ends the call with its error; otherwise the bytes join the records and the loop goes on |
| Mgdb.ReadAllResult | mgdb.go:123-147 | an empty collection name fails; a collection absent with and without `.json` fails, with NotExist when no regular file lies above it |
| Mgdb.DeleteTarget | mgdb.go:151 | the collection and resource joined, each dropped when empty, so empty names target the collection or the root |
| Mgdb.DeleteSteps | mgdb.go:149-169 | it fails with the joined name exactly when neither the target nor the target with `.json` exists; a directory is pruned; for a regular file `<target>.json` is pruned; a tree stays a tree |
| Mgdb.Driver.Init | mgdb.go:50-54 | a driver starts with its root and an empty lock registry |
| Mgdb.Driver.New | mgdb.go:37-63 | `New` returns a fresh driver with an empty registry, and the disk and error are those of `Opened` |
| Mgdb.Driver.GetOrCreateMutex | mgdb.go:171-183 | the registry and the returned lock are those of `Register`; a lock created for a new name is fresh |
| Mgdb.Driver.Write | mgdb.go:65-98 | the disk and error are those of `WriteSteps` on the encoding; valid names register the collection's lock, and empty names leave the registry alone |
| Mgdb.Driver.Read | mgdb.go:100-121 | the result is `ReadResult` of the disk |
| Mgdb.Driver.ReadAll | mgdb.go:123-147 | the loop's result is `ReadAllResult` of the disk |
| Mgdb.Driver.Delete | mgdb.go:149-169 | the disk and error are those of `DeleteSteps`, and the collection's lock is registered even for empty names |
| MgdbProperties.JsonNamesDiffer | mgdb.go:79 | different resource names give different file names |
| MgdbProperties.WriteFrame | mgdb.go:78-97 | `Write` changes no entry but the target and the staging file, and creates only those and directories on the way to the collection |
| MgdbProperties.WriteThenRead | mgdb.go:91-97 | after a successful `Write`, `Read` with the same names returns the encoding plus a newline |
| MgdbProperties.WriteSucceeds | mgdb.go:82-97 | with valid names and an encoding, `Write` succeeds exactly when no prefix of the collection directory is a file, it is not a file, and neither the staging file nor the target is a directory |
| MgdbProperties.WriteReplacesTargetAtOnce | mgdb.go:82-97 | through creating the directory and writing the staging file, the target keeps its previous entry or stays absent |
| MgdbProperties.MarshalFailureKeepsDirectory | mgdb.go:82-89 | a value without an encoding fails `Write` after the collection directory was created |
| MgdbProperties.RenameFailureLeavesTmp | mgdb.go:93-97 | a directory in the target's place fails the rename with EEXIST and leaves the staging file holding the encoding |
| MgdbProperties.ReadOfExtendedName | mgdb.go:109-115 | `stat` resolves `x.json` to the stored file, yet `Read` of `x.json` fails with NotExist |
| MgdbProperties.ReadEachContents | mgdb.go:138-145 | the loop succeeds exactly when every entry is a regular file, and then returns each entry's bytes in order; otherwise it fails with the error of the first unreadable entry |
| MgdbProperties.ReadAllContents | mgdb.go:128-146 | `ReadAll` succeeds exactly when the collection resolves and every listed entry is a regular file, and then returns one record per entry in name order |
| MgdbProperties.ReadAllReturnsEveryEntry | mgdb.go:134-144 | every entry of the collection directory, a `.tmp` file included, is among the records |
| MgdbProperties.ReadAllFailsOnSubdirectory | mgdb.go:139-142 | a subdirectory inside the collection fails the whole `ReadAll` |
| MgdbProperties.ReadAllOfNonDirectory | mgdb.go:130-134 | a collection that resolves to anything but its own directory gives no records and no error |
| MgdbProperties.OnlyRecord | mgdb.go:134-146 | a collection directory holding a single regular file reads as that one record |
| MgdbProperties.WriteThenReadAll | mgdb.go:78-97 | the first `Write` into a new collection makes `ReadAll` return exactly that record |
| MgdbProperties.DeleteCollection | mgdb.go:156-163 | when no `<collection>.json` sits beside the collection directory, deleting with an empty resource name removes the directory and everything below it, after which `ReadAll` fails with NotExist |
| MgdbProperties.DeleteCollectionBesideJsonFile | mgdb.go:130-134 | when `<collection>.json` sits beside the collection directory, `ReadAll` after deleting the collection returns no records and no error |
| MgdbProperties.DeleteResource | mgdb.go:165-166 | when no directory named `<resource>` sits beside `<resource>.json`, deleting the resource removes its file and nothing else, and Read then fails with NotExist |
| MgdbProperties.DeleteResourceBesideDirectory | mgdb.go:162-163 | when a directory named `<resource>` sits beside `<resource>.json`, Delete removes that directory and the record still reads |
| MgdbProperties.DeleteKeepsOtherResources | mgdb.go:166 | removing one resource's file leaves every other resource of the collection reading as before |
| MgdbProperties.DeleteOfExtendedName | mgdb.go:158-166 | deleting `x.json` of a stored `x` reports success and changes nothing |
| MgdbProperties.DeleteOfJsonDirectory | mgdb.go:158-163 | when only `<target>.json` exists and it is a directory, Delete reports success and changes nothing |
| MgdbProperties.DeleteWithoutNames | mgdb.go:151-163 | deleting with both names empty removes the store's root and everything below it |
| MgdbProperties.RegistryOnlyGrows | mgdb.go:175-180 | over any run of lookups the registry gains exactly the names asked for and never loses or replaces a lock |
| MgdbProperties.RegisterIdempotent | mgdb.go:175-182 | asking again for a registered name returns the same lock and changes nothing |

## Left out

- Locking: `Mutex` has no behaviour; concurrency and blocking are not modelled, only which locks the registry holds.
- The logger and `Options` (mgdb.go:40-48) only print messages and are not part of this model.
- JSON: `json.MarshalIndent` is the `marshal` parameter of `Write`, and `json.Unmarshal` is not part of this model.
- Mgdb.Driver.Read: returns the bytes it would decode, not a decoded value.
- Mgdb.Driver.ReadAll: returns records as bytes; Go's conversion to `string` is not modelled.
- `filepath.Clean`: names holding `/`, `.` or `..` are not modelled. Each name is one path element, and the root is taken as already clean.
- File permissions, disk-full and other I/O failures are not modelled, and neither are symbolic links. Each call fails only for the reasons the tree shape gives.
- Mgdb.DeleteSteps: treats every entry that is not a directory as a regular file. Devices, pipes and sockets (the case where `Delete` returns nil without removing anything) are not modelled.
- FileTree.Rename: models renaming a regular file only, the one kind `Write` renames. Renaming a directory is not modelled.
- Crashes are not modelled. Atomicity is stated as `MgdbProperties.WriteReplacesTargetAtOnce`: the target is unchanged by every step before the rename.
- NameOrder.Less: orders names by code point, which is the byte order of their UTF-8 encoding; invalid UTF-8 names are not modelled.
