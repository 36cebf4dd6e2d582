# godocfs, modelled in Dafny

godocfs is a read-only FUSE filesystem. It mirrors the `src` tree of the
first `GOPATH` entry and adds one synthetic file named `godoc` to every
directory. Reading that file gives the output of `go doc` for the package
that the directory holds. This project models the node logic of `main.go`
and proves properties of it:

- the inode scheme;
- directory listing (`Dir.ReadDirAll`) and name resolution (`Dir.Lookup`);
- how a document path is turned into a package identifier (`File.ReadAll`);
- the synthetic file node (`File.Attr`, `File.Open`, `File.Read`).

Modules:

- `Fuse` (fuse.dfy): the protocol values the nodes exchange. These are
  `uint64`/`uint32` ranges, file modes as `bv32`, `Dirent`, errno values,
  attribute records and open flags. It also has the byte window of
  `fuseutil.HandleRead`. `Reply<T>` is a node's answer: `Ok`, `Fail(errno)`,
  or `Exit` when the process ends in `log.Fatal` or `panic`.
- `Inodes` (inodes.dfy): the root inode 1 and the slots of a directory.
  The document of directory `d` has inode `d*100`; the entry at scan index
  `i` has `d*100 + (i+1)`. Both use explicit `uint64` wrap-around.
- `GoPaths` (gopaths.dfy): the Go library operations the code calls, with
  their Unix semantics:
  - `strings.Replace(s, pat, "", -1)`, as `RemoveAll`;
  - `filepath.Clean`, `filepath.Join` and `filepath.Dir`;
  - `strings.HasPrefix(s, "/")` followed by `s[1:]`, as `TrimLeadingSlash`.

  `Split` and `JoinParts` are the model's own way of cutting a path into
  the pieces between separators, on which `Clean` is defined; the code does
  not call them.
- `PackageIds` (package_ids.dfy): the source root `Join(base, "src")` and
  the package identifier derived from a document's full path.
- `FileNodes` (file_node.dfy): `class File`. Its identity fields are
  constants and `content` is a mutable byte buffer. The `go doc` run is a
  parameter `render: string -> Rendered`.
- `DirNodes` (dir_node.dfy): the `Dir` value and the scan of a directory,
  which is `ioutil.ReadDir`'s result passed in as a parameter. Also here:
  - the specification functions `Listing` and `LookupTarget`;
  - the methods `ReadDirAll` and `Lookup`, each proved against its function
    with a loop invariant;
  - lemmas relating listing, lookup, inodes and package identifiers.

Behaviour a reader of the code might not expect. The model follows the
code in each case:

- `File.Attr` runs the generator again on every call and overwrites
  `content` each time. `Read` never renders: a node that has had no `Attr`
  serves empty content.
- A generator failure or a failed directory scan ends the whole process
  (`log.Fatal`). No error is returned to the caller.
- Lookup does not hide `.git`; only the listing does.
- A lookup of `godoc` never reads the scan. A real directory named `godoc`
  is still listed, but it cannot be reached by lookup.
- The package identifier removes every occurrence of `godoc` from the path,
  not only the final file name. The document in `a/godocfs` therefore asks
  for package `a/fs` (`PackageIdDropsInnerDocName`).
- The root directory's mode is the directory bit with no permission bits.
  Looked-up directories get `0555`.
- The entry at scan index 99 gets the inode of the document of the directory
  whose inode is one higher (`HundredthEntryCollides`).

## Model

| member | source | states |
|---|---|---|
| Fuse.HandleRead | main.go:256 | a read returns the bytes of content from offset on: at most size of them, fewer at the end, none past it |
| Fuse.HandleReadConsecutive | main.go:254-257 | two adjacent reads return the same bytes as one read over both ranges |
| Fuse.HandleReadWhole | main.go:254-257 | a read of the full range returns the whole content |
| Inodes.Wrap | main.go:114 | uint64 arithmetic: the value itself when in range, otherwise congruent to it modulo 2^64 |
| Inodes.SyntheticInode | main.go:114 | the document inode is parent*100 modulo 2^64, and exactly parent*100 when that fits |
| Inodes.ChildInode | main.go:133 | the inode of scan index i is parent*100 + i + 1 modulo 2^64, and exactly that when it fits |
| Inodes.ChildInodeNoWrap | main.go:133 | without overflow the entry at scan index i has inode parent*100 + i + 1 and the document has parent*100 |
| Inodes.ChildInodesDistinct | main.go:171 | within one directory no two scan slots share an inode, and none takes the document's inode, even with wrap-around |
| Inodes.InodeDeterminesParentAndSlot | main.go:162-171 | across the tree, when nothing wraps and a directory uses fewer than 100 slots, an inode determines its parent and its slot |
| Inodes.HundredthEntryCollides | main.go:171 | the entry at scan index 99 takes the document inode of the directory with the next inode |
| GoPaths.Split | main.go:224 | cuts a path into the pieces between separators, the first step of filepath.Clean: at least one piece, and no piece holds a separator |
| GoPaths.JoinSplit | main.go:224 | joining the pieces of a split with "/" gives the string back |
| GoPaths.SplitJoin | main.go:224 | splitting a join of separator-free pieces gives the pieces back |
| GoPaths.JoinPartsConcat | main.go:140 | joining two lists of pieces joins their joins with one separator |
| GoPaths.Clean | main.go:224 | filepath.Clean never returns the empty string |
| GoPaths.CleanRootedNames | main.go:224 | an absolute path made of plain names is already clean |
| GoPaths.CleanRootedNamesTrailing | main.go:224 | Clean removes a trailing separator from an absolute path of names |
| GoPaths.Join | main.go:140 | filepath.Join is empty exactly when both of its elements are empty |
| GoPaths.JoinName | main.go:140 | filepath.Join of an absolute path of names and a name appends "/" and the name |
| GoPaths.Dir | main.go:224 | filepath.Dir never returns the empty string, and gives "." for a path without a separator |
| GoPaths.RemoveAll | main.go:221 | replacing every occurrence by nothing never lengthens the string |
| GoPaths.RemoveAllUnchangedIffAbsent | main.go:223 | the replacement leaves the string unchanged exactly when the pattern does not occur in it |
| GoPaths.RemoveAllLeading | main.go:221 | a leading occurrence is removed and the scan continues right after it |
| GoPaths.RemoveAllAfter | main.go:223 | when the first occurrence in x+pat+y is that pat, the result is x followed by the replacement applied to y |
| GoPaths.TrimLeadingSlash | main.go:225-227 | the result is the input, or the input with exactly one leading "/" removed |
| PackageIds.SourceRoot | main.go:87 | the source root is never empty, so it is a real pattern for the replacement to remove |
| PackageIds.PackageId | main.go:220-227 | the derivation itself: every source root removed, then every "godoc", then the directory part, less one leading "/"; its results are stated by the lemmas below |
| PackageIds.PackageIdOfPlainPath | main.go:220-227 | a path holding neither the source root nor "godoc" only loses its last element and one leading "/" |
| PackageIds.RemoveSourceRoot | main.go:221 | a path that starts with the source root, and has no other occurrence of it, loses exactly that prefix |
| PackageIds.RemoveDocName | main.go:223 | removing "godoc" from "/" + p + "/godoc" leaves "/" + p + "/" when p holds no "godoc" |
| PackageIds.DirOfTrailing | main.go:224 | the directory part of "/" + p + "/" is "/" + p |
| PackageIds.DirOfSlash | main.go:224 | the directory part of "/" is "/" |
| PackageIds.PackageIdOfSubdir | main.go:220-227 | the document of first/p documents package p when p is made of names, p holds no "godoc", and the source root does not occur in "/" + p + "/godoc" |
| PackageIds.PackageIdOfSourceRoot | main.go:220-227 | the document of the source root itself documents the empty identifier |
| PackageIds.RemoveInnerDocName | main.go:223 | removing "godoc" from "/" + p + "/godoc" + c + "/godoc" removes both occurrences, when neither p nor c holds "godoc" |
| PackageIds.PackageIdDropsInnerDocName | main.go:223 | every "godoc" in the path is removed: the document of p/godoc<c> documents p/<c> |
| FileNodes.File.constructor | main.go:115-123 | a new document node has the given identity, an empty location and empty content |
| FileNodes.File.Package | main.go:218-227 | the package a node documents is PackageId of the source root of the workspace root and the node's full path |
| FileNodes.File.ReadAll | main.go:216-240 | a node named "godoc" yields the generator's output for its package, or ends the process when generation fails; any other node yields empty content; no error is returned |
| FileNodes.File.Attr | main.go:200-214 | renders again, stores the result as content and reports inode parentInode*100, mode 0444 and size \|content\|; ends the process with content unchanged when rendering fails |
| FileNodes.File.Open | main.go:242-248 | EACCES unless the access mode is read-only; otherwise the node itself is the handle and keep-cache is added to the response flags |
| FileNodes.File.Read | main.go:254-257 | serves the HandleRead window of whatever content holds now; a full-range read returns all of it |
| FileNodes.StatThenRead | main.go:204-209 | after a successful Attr, a read of the reported size returns exactly that many bytes, the generator's output |
| DirNodes.RootDir | main.go:82-90 | the root has inode 1, the bare directory mode, uid and gid 0, and path Join(base, "src") |
| DirNodes.Attr | main.go:102-108 | a directory reports its own inode, mode, uid and gid; their values are stated by DirectoryAttrs |
| DirNodes.DirectoryAttrs | main.go:102-108 | directory attributes carry the directory bit; the root has no permission bits; a looked-up directory has 0555, the process's ids and its slot inode |
| DirNodes.ReadDirAll | main.go:153-185 | the listing is Listing(d, entries) for a readable directory; an unreadable one ends the process |
| DirNodes.Listing | main.go:162-168 | the listing always starts with the document entry (type file, inode d*100), whatever the scan holds |
| DirNodes.ListingMembers | main.go:169-183 | after the document, the listing holds exactly the scanned directories not named ".git", each under its own slot inode; regular files never appear |
| DirNodes.ListingSlots | main.go:171 | every entry after the document carries the slot inode and the name of a scanned entry |
| DirNodes.ListedIndices | main.go:169-173 | the scan indices of the directories other than ".git", strictly increasing and each below the scan's length |
| DirNodes.ListingFollowsScan | main.go:169-183 | entry k + 1 of the listing is the scanned directory at the k-th listed index, so the listing keeps scan order even when inodes wrap |
| DirNodes.ListingInScanOrder | main.go:162-183 | without wrap-around the listing's inodes strictly increase: document first, then directories in scan order |
| DirNodes.ListingInodesDistinct | main.go:162-183 | no two entries of one listing share an inode, even with wrap-around |
| DirNodes.FirstMatch | main.go:131-136 | returns the first index at or after from whose entry is a directory with the name, or the length when there is none |
| DirNodes.LookupTarget | main.go:110-150 | "godoc" is the document whatever the scan holds; otherwise the first matching directory, ".git" included; not found exactly when no scanned directory has the name, a file of that name included; a failed scan ends the process |
| DirNodes.Lookup | main.go:110-150 | for "godoc" a fresh document node of d (inode d*100, parent d, mode 0444, path Join(d.path, "godoc"), empty content); for a found directory a node with its slot inode, mode dir\|0555 and path Join(d.path, name); otherwise ENOENT, or process exit on a failed scan |
| DirNodes.SubdirNode | main.go:137-144 | the directory node a lookup builds: slot inode, mode dir\|0555, the process's ids and path Join(d.path, name); DirectoryAttrs and SubdirPath state its values |
| DirNodes.ReadBeforeAttr | main.go:112-125 | a document node fresh from lookup serves no bytes before an Attr |
| DirNodes.ListedEntryResolves | main.go:131-144 | with unique scan names, every listed directory other than "godoc" resolves by lookup to a directory node with the inode the listing shows |
| DirNodes.ResolvedSubdirListed | main.go:169-180 | a lookup that resolves to a directory other than ".git" finds one the listing shows under the same inode |
| DirNodes.GitDirHiddenButReachable | main.go:173 | ".git" never appears in a listing, yet a lookup of ".git" resolves to the first scanned ".git" directory |
| DirNodes.DocumentShadowsSubdir | main.go:112-125 | a real directory named "godoc" is listed beside the document, but a lookup of "godoc" always yields the document |
| DirNodes.DocumentMatchesListing | main.go:114-118 | the document node from lookup has the name and inode of the listing's first entry, and Attr reports that inode |
| DirNodes.RootPath | main.go:87 | the root's path is the workspace root's names followed by "src" |
| DirNodes.SubdirPath | main.go:140 | a looked-up directory's path is its parent's path with its name appended |
| DirNodes.SourceRootOf | main.go:87 | for a workspace root made of names, the source root is those names followed by "src" |
| DirNodes.RootDocumentPath | main.go:122 | the root directory's document path is the source root followed by "/godoc" |
| DirNodes.SourceRootNotInDocPath | main.go:221 | a source root made of names does not occur in "/godoc", so removing it leaves "/godoc" intact |
| DirNodes.NestedDocumentPath | main.go:122 | the document path of a directory whose path is the source root followed by names ps is the source root, then ps, then "/godoc" |
| DirNodes.RootDocumentPackage | main.go:220-227 | the root directory's document documents the root package "" |
| DirNodes.NestedDocumentPackage | main.go:220-227 | the document of a directory whose path is the source root followed by names ps documents package ps joined by "/", when "godoc" does not occur in ps and the source root does not occur in "/" + ps + "/godoc" |
| DirNodes.Reach | main.go:137-144 | the directory reached from a directory by a chain of successful lookups, each resolving to the given scan slot |
| DirNodes.ReachStep | main.go:140 | one more lookup appends its name to the reached directory's path |
| DirNodes.ReachPath | main.go:140 | a directory reached from the root by looking up names ps has the source root followed by ps as its path |
| DirNodes.ReachedDocumentPackage | main.go:220-227 | the document of the directory reached from the root by looking up names ps documents package ps joined by "/", under the same premises |

## Left out

- `main`, `usage`, flag parsing, `fuse.Mount`, `fs.Serve` and the wait for the mount (main.go:22-64) are not modelled. They are process bootstrap and FUSE transport I/O.
- `NewFS`, `FS.Root` and the `GOPATH` lookups (main.go:71-81, 218-220) are not modelled. The first workspace root is the parameter `base`. With an empty `GOPATH` the code indexes an empty list and panics; that path is not modelled.
- `ioutil.ReadDir` is not modelled. Its result is the parameter `Scan`: the entries in order, or a failure. The entries of one directory have distinct names, because a directory cannot hold two entries with the same name; that is the unique-names premise of `ListedEntryResolves`. The model does not require the scan to be sorted.
- `exec.Command("go", "doc", pkg)` and the capture of its output are not modelled. They are the parameter `render`; any run error is `GenerationFailed`.
- `log.Fatal` and `panic` are modelled as the reply `Exit`. The process's later fate is not modelled.
- `os.Getuid` and `os.Getgid` are the parameter `Credentials`. `context.Context` is unused by the code and left out.
- Go strings are byte strings; names and paths are modelled as Dafny `string`, sequences of characters. The two agree for paths that are valid UTF-8; names that are not valid UTF-8 cannot be represented.
- Concurrent FUSE requests are not modelled. Each operation is a single call.
- Paths are not modelled as OS objects. `filepath.Clean`, `Join` and `Dir` are modelled lexically, with Unix separators. `filepath.ToSlash` is the identity there.
- FileNodes.File.Read: offset and size are natural numbers. The kernel's signed 64-bit offset and the request's size limit are not modelled.
- DirNodes.ListingInScanOrder: stated only when no slot inode of the directory wraps. With wrap-around, inode order no longer follows scan order; scan order itself still holds (`ListingFollowsScan`), and so does distinctness (`ListingInodesDistinct`).
- DirNodes.ListedEntryResolves: stated only for scans with unique names. With duplicate names, lookup returns the first matching directory.
- PackageIds.PackageIdOfSubdir: stated only for paths made of plain names in which "godoc" does not occur and the source root does not occur in "/" + p + "/godoc". Other paths are mangled by the replace-all; `PackageIdDropsInnerDocName` shows one such case.
