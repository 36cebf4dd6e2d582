/** Directory nodes: the root and every directory below it, listed and
    resolved against a scan of the mirrored directory. A directory's listing
    and lookups are functions of that scan; the scan itself (ioutil.ReadDir,
    sorted by name) is an input. */
module DirNodes {
  import opened Fuse
  import opened Inodes
  import opened GoPaths
  import opened PackageIds
  import opened FileNodes

  /** A directory node; a value, copied freely. */
  datatype Dir = Dir(inode: Inode, mode: FileMode, name: string, gid: U32, uid: U32, path: string)

  /** One entry of a directory scan. */
  datatype ScanEntry = ScanEntry(name: string, isDir: bool)

  /** The scan of a directory's path: its entries, or a failure to read it. */
  datatype Scan = Scanned(entries: seq<ScanEntry>) | ScanFailed

  /** The one directory name the listing hides. */
  const GIT_DIR: string := ".git"

  /** rootDir: inode 1, a bare directory mode, owned by uid and gid 0, over
      the workspace root joined with "src". */
  function RootDir(base: string): (d: Dir)
    ensures d.inode == ROOT_INODE && d.path == SourceRoot(base)
    ensures d.mode == MODE_DIR && d.uid == 0 && d.gid == 0
  {
    Dir(ROOT_INODE, MODE_DIR, "GOPATH", 0, 0, SourceRoot(base))
  }

  /** Dir.Attr: the fields the node reports about itself. */
  function Attr(d: Dir): DirAttr {
    DirAttr(d.inode, d.mode, d.uid, d.gid)
  }

  /** Every directory node reports itself as a directory. The root carries
      no permission bits at all; a looked-up directory is r-xr-xr-x, owned by
      the serving process, with the inode of its scan slot. */
  lemma DirectoryAttrs(base: string, d: Dir, name: string, i: nat, ids: Credentials)
    ensures Attr(RootDir(base)).inode == ROOT_INODE
    ensures Attr(RootDir(base)).mode & MODE_DIR == MODE_DIR
    ensures Attr(RootDir(base)).mode & PERM_BITS == 0
    ensures Attr(SubdirNode(d, name, i, ids)).inode == ChildInode(d.inode, i)
    ensures Attr(SubdirNode(d, name, i, ids)).mode & MODE_DIR == MODE_DIR
    ensures Attr(SubdirNode(d, name, i, ids)).mode & PERM_BITS == PERM_READ_EXEC
    ensures Attr(SubdirNode(d, name, i, ids)).uid == ids.uid
    ensures Attr(SubdirNode(d, name, i, ids)).gid == ids.gid
  {
  }

  // ---------------------------------------------------------------- listing

  /** A scanned entry that shows up in the listing. */
  predicate Listed(e: ScanEntry) {
    e.isDir && e.name != GIT_DIR
  }

  /** The listing entry of the synthetic document. */
  function SyntheticEntry(d: Dir): Dirent {
    Dirent(SyntheticInode(d.inode), DT_File, DOC_NAME)
  }

  /** The listing entry of the directory at scan index i. */
  function SubdirEntry(d: Dir, i: nat, name: string): Dirent {
    Dirent(ChildInode(d.inode, i), DT_Dir, name)
  }

  /** The listing of d over the scanned entries es: the synthetic document,
      then each listed entry in scan order. */
  function Listing(d: Dir, es: seq<ScanEntry>): (r: seq<Dirent>)
    ensures |r| >= 1 && r[0] == SyntheticEntry(d)
  {
    if es == [] then [SyntheticEntry(d)]
    else
      var n := |es| - 1;
      Listing(d, es[..n]) + if Listed(es[n]) then [SubdirEntry(d, n, es[n].name)] else []
  }

  /** Dir.ReadDirAll: the synthetic entry, then the scanned directories other
      than ".git", each with the inode of its scan slot. A failed scan ends
      the process. */
  method ReadDirAll(d: Dir, scan: Scan) returns (r: Reply<seq<Dirent>>)
    ensures scan.ScanFailed? ==> r == Exit
    ensures scan.Scanned? ==> r == Ok(Listing(d, scan.entries))
  {
    if scan.ScanFailed? {
      return Exit;
    }
    var files := scan.entries;
    var entries := [Dirent(SyntheticInode(d.inode), DT_File, DOC_NAME)];
    for i := 0 to |files|
      invariant entries == Listing(d, files[..i])
    {
      assert files[..i + 1][..i] == files[..i];
      if files[i].isDir {
        if files[i].name != GIT_DIR {
          entries := entries + [Dirent(ChildInode(d.inode, i), DT_Dir, files[i].name)];
        }
      }
    }
    assert files[..|files|] == files;
    r := Ok(entries);
  }

  /** e is the listing entry of some listed scan entry of es. */
  predicate ListsScanned(d: Dir, es: seq<ScanEntry>, e: Dirent) {
    exists i :: 0 <= i < |es| && Listed(es[i]) && e == SubdirEntry(d, i, es[i].name)
  }

  /** An entry listed from a prefix of the scan is listed from the whole scan. */
  lemma ListsScannedPrefix(d: Dir, es: seq<ScanEntry>, n: nat, e: Dirent)
    requires n <= |es| && ListsScanned(d, es[..n], e)
    ensures ListsScanned(d, es, e)
  {
    var i :| 0 <= i < n && Listed(es[..n][i]) && e == SubdirEntry(d, i, es[..n][i].name);
    assert es[..n][i] == es[i];
  }

  /** The listing of a scan is the listing of all but its last entry, then
      that entry when it is listed. */
  lemma ListingLast(d: Dir, es: seq<ScanEntry>)
    requires es != []
    ensures Listing(d, es)[1..] == Listing(d, es[..|es| - 1])[1..] +
              if Listed(es[|es| - 1]) then [SubdirEntry(d, |es| - 1, es[|es| - 1].name)] else []
  {
  }

  /** After the synthetic entry, the listing holds exactly the listed scan
      entries, each under the inode of its own scan slot: no regular file and
      no ".git" appears, and no listed directory is missing. */
  lemma {:induction false} ListingMembers(d: Dir, es: seq<ScanEntry>)
    ensures forall e :: e in Listing(d, es)[1..] <==> ListsScanned(d, es, e)
    decreases |es|
  {
    if es != [] {
      var n := |es| - 1;
      var front := es[..n];
      ListingMembers(d, front);
      ListingLast(d, es);
      forall e ensures e in Listing(d, es)[1..] <==> ListsScanned(d, es, e) {
        if e in Listing(d, front)[1..] {
          ListsScannedPrefix(d, es, n, e);
        }
        if ListsScanned(d, es, e) {
          var i :| 0 <= i < |es| && Listed(es[i]) && e == SubdirEntry(d, i, es[i].name);
          if i < n {
            assert front[i] == es[i];
            assert ListsScanned(d, front, e);
          }
        }
      }
    }
  }

  /** The scan indices of the listed entries, in scan order. */
  function ListedIndices(es: seq<ScanEntry>): (idx: seq<nat>)
    ensures forall k :: 0 <= k < |idx| ==> idx[k] < |es| && Listed(es[idx[k]])
    ensures forall k, l :: 0 <= k < l < |idx| ==> idx[k] < idx[l]
  {
    if es == [] then []
    else
      var n := |es| - 1;
      ListedIndices(es[..n]) + if Listed(es[n]) then [n] else []
  }

  /** Entry k + 1 of the listing is the listed scan entry at the k-th of the
      strictly increasing listed indices: the listing keeps scan order
      whether or not inodes wrap around. */
  lemma {:induction false} ListingFollowsScan(d: Dir, es: seq<ScanEntry>)
    ensures |Listing(d, es)| == 1 + |ListedIndices(es)|
    ensures forall k :: 0 <= k < |ListedIndices(es)| ==>
              Listing(d, es)[k + 1] == SubdirEntry(d, ListedIndices(es)[k], es[ListedIndices(es)[k]].name)
    decreases |es|
  {
    if es != [] {
      var n := |es| - 1;
      var front := es[..n];
      ListingFollowsScan(d, front);
      var idx := ListedIndices(es);
      var fidx := ListedIndices(front);
      var l := Listing(d, es);
      var lf := Listing(d, front);
      forall k | 0 <= k < |idx|
        ensures l[k + 1] == SubdirEntry(d, idx[k], es[idx[k]].name)
      {
        if k < |fidx| {
          assert idx[k] == fidx[k] && l[k + 1] == lf[k + 1];
          assert front[fidx[k]] == es[fidx[k]];
        }
      }
    }
  }

  /** Every entry after the synthetic one carries the inode of a slot below
      the scan's length, and its name. */
  lemma {:induction false} ListingSlots(d: Dir, es: seq<ScanEntry>)
    ensures forall k :: 1 <= k < |Listing(d, es)| ==>
              exists i :: 0 <= i < |es| && Listing(d, es)[k] == SubdirEntry(d, i, es[i].name)
  {
    var l := Listing(d, es);
    ListingMembers(d, es);
    forall k | 1 <= k < |l|
      ensures exists i :: 0 <= i < |es| && l[k] == SubdirEntry(d, i, es[i].name)
    {
      assert l[k] == l[1..][k - 1];
      assert l[k] in l[1..];
      var i :| 0 <= i < |es| && Listed(es[i]) && l[k] == SubdirEntry(d, i, es[i].name);
    }
  }

  /** When no inode of d's slots wraps, the listing's inodes strictly
      increase: the document comes first and the directories follow in scan
      order. */
  lemma {:induction false} ListingInScanOrder(d: Dir, es: seq<ScanEntry>)
    requires d.inode * SLOTS + |es| < TWO_64
    ensures forall k, l :: 0 <= k < l < |Listing(d, es)| ==>
              Listing(d, es)[k].inode < Listing(d, es)[l].inode
    decreases |es|
  {
    if es != [] {
      var n := |es| - 1;
      var front := es[..n];
      ListingInScanOrder(d, front);
      ListingSlots(d, front);
      var l := Listing(d, es);
      var lf := Listing(d, front);
      assert SyntheticInode(d.inode) == d.inode * SLOTS;
      forall k | 1 <= k < |lf| ensures lf[k].inode < d.inode * SLOTS + n + 1 {
        var i :| 0 <= i < |front| && lf[k] == SubdirEntry(d, i, front[i].name);
        ChildInodeNoWrap(d.inode, i);
      }
      if Listed(es[n]) {
        ChildInodeNoWrap(d.inode, n);
        assert l == lf + [SubdirEntry(d, n, es[n].name)];
      }
    }
  }

  /** No two entries of one listing share an inode, even where d's slots
      wrap around, as long as the scan has fewer than 2^64 - 1 entries. */
  lemma {:induction false} ListingInodesDistinct(d: Dir, es: seq<ScanEntry>)
    requires |es| < TWO_64 - 1
    ensures forall k, l :: 0 <= k < l < |Listing(d, es)| ==>
              Listing(d, es)[k].inode != Listing(d, es)[l].inode
    decreases |es|
  {
    if es != [] {
      var n := |es| - 1;
      var front := es[..n];
      ListingInodesDistinct(d, front);
      ListingSlots(d, front);
      var l := Listing(d, es);
      var lf := Listing(d, front);
      if Listed(es[n]) {
        assert l == lf + [SubdirEntry(d, n, es[n].name)];
        ChildInodesDistinct(d.inode, n, n + 1);
        forall k | 1 <= k < |lf| ensures lf[k].inode != ChildInode(d.inode, n) {
          var i :| 0 <= i < |front| && lf[k] == SubdirEntry(d, i, front[i].name);
          ChildInodesDistinct(d.inode, i, n);
        }
      }
    }
  }

  // ---------------------------------------------------------------- lookup

  /** A scanned entry that a lookup of name resolves to. */
  predicate Matches(e: ScanEntry, name: string) {
    e.name == name && e.isDir
  }

  /** i is the first scan index whose entry a lookup of name resolves to. */
  predicate IsFirstMatch(es: seq<ScanEntry>, name: string, i: nat) {
    i < |es| && Matches(es[i], name) && forall j :: 0 <= j < i ==> !Matches(es[j], name)
  }

  /** The first index at or after from whose entry matches name; |es| if none. */
  function FirstMatch(es: seq<ScanEntry>, name: string, from: nat): (i: nat)
    requires from <= |es|
    ensures from <= i <= |es|
    ensures i < |es| ==> Matches(es[i], name)
    ensures forall j :: from <= j < i ==> !Matches(es[j], name)
    decreases |es| - from
  {
    if from == |es| then from
    else if Matches(es[from], name) then from
    else FirstMatch(es, name, from + 1)
  }

  /** What a lookup of a name in a directory resolves to. */
  datatype Target = Document | Subdir(index: nat) | NotFound | ScanError

  /** Dir.Lookup's decision: "godoc" is the document whatever the scan holds;
      any other name is the first matching scanned directory, ".git"
      included, or not found when there is none, and an unreadable directory
      ends the process. */
  function LookupTarget(name: string, scan: Scan): (t: Target)
    ensures t.Document? <==> name == DOC_NAME
    ensures t.ScanError? <==> name != DOC_NAME && scan.ScanFailed?
    ensures t.NotFound? <==>
              (name != DOC_NAME && scan.Scanned? &&
               forall i :: 0 <= i < |scan.entries| ==> !Matches(scan.entries[i], name))
    ensures t.Subdir? ==> scan.Scanned? && IsFirstMatch(scan.entries, name, t.index)
  {
    if name == DOC_NAME then Document
    else if scan.ScanFailed? then ScanError
    else
      var i := FirstMatch(scan.entries, name, 0);
      if i == |scan.entries| then NotFound else Subdir(i)
  }

  /** The directory node a lookup of name builds for scan index i. */
  function SubdirNode(d: Dir, name: string, i: nat, ids: Credentials): Dir {
    Dir(ChildInode(d.inode, i), MODE_DIR | PERM_READ_EXEC, name, ids.gid, ids.uid, Join(d.path, name))
  }

  /** f is the document node of d as a lookup makes it: before any Attr its
      content is empty. */
  predicate IsDocumentOf(f: File, d: Dir, ids: Credentials)
    reads f
  {
    f.inode == SyntheticInode(d.inode) && f.parentInode == d.inode &&
    f.name == DOC_NAME && f.mode == PERM_READ &&
    f.gid == ids.gid && f.uid == ids.uid &&
    f.fullPath == Join(d.path, DOC_NAME) && f.location == "" && f.content == []
  }

  /** A node a lookup hands back. */
  datatype Node = DirNode(dir: Dir) | FileNode(file: File)

  /** Dir.Lookup: a new document node for "godoc" without reading the scan;
      otherwise the first scanned directory of that name, or ENOENT. */
  method Lookup(d: Dir, name: string, scan: Scan, ids: Credentials) returns (r: Reply<Node>)
    ensures match LookupTarget(name, scan)
      case Document => r.Ok? && r.value.FileNode? && fresh(r.value.file) &&
                       IsDocumentOf(r.value.file, d, ids)
      case Subdir(i) => r == Ok(DirNode(SubdirNode(d, name, i, ids)))
      case NotFound => r == Fail(ENOENT)
      case ScanError => r == Exit
  {
    if name == DOC_NAME {
      var f := new File(SyntheticInode(d.inode), d.inode, DOC_NAME, PERM_READ,
                        ids.gid, ids.uid, Join(d.path, DOC_NAME));
      return Ok(FileNode(f));
    }
    if scan.ScanFailed? {
      return Exit;
    }
    var files := scan.entries;
    for i := 0 to |files|
      invariant forall j :: 0 <= j < i ==> !Matches(files[j], name)
    {
      var inode := ChildInode(d.inode, i);
      if files[i].name == name {
        if files[i].isDir {
          return Ok(DirNode(Dir(inode, MODE_DIR | PERM_READ_EXEC, name, ids.gid, ids.uid,
                                Join(d.path, name))));
        }
      }
    }
    return Fail(ENOENT);
  }

  /** A document node fresh from a lookup serves nothing until an Attr has
      rendered it. */
  method ReadBeforeAttr(d: Dir, scan: Scan, ids: Credentials, offset: nat, size: nat)
    returns (data: seq<Byte>)
    ensures data == []
  {
    var r := Lookup(d, DOC_NAME, scan, ids);
    data := r.value.file.Read(offset, size);
  }

  // ---------------------------------------------------------------- agreement

  /** Scan names are unique, as in a directory read from disk. */
  predicate UniqueNames(es: seq<ScanEntry>) {
    forall i, j :: 0 <= i < j < |es| ==> es[i].name != es[j].name
  }

  /** Every directory the listing shows, unless it is named "godoc", resolves
      by lookup to a directory node with the inode the listing gave it. */
  lemma ListedEntryResolves(d: Dir, es: seq<ScanEntry>, k: nat, ids: Credentials)
    requires UniqueNames(es)
    requires 1 <= k < |Listing(d, es)| && Listing(d, es)[k].name != DOC_NAME
    ensures LookupTarget(Listing(d, es)[k].name, Scanned(es)).Subdir?
    ensures Attr(SubdirNode(d, Listing(d, es)[k].name,
                            LookupTarget(Listing(d, es)[k].name, Scanned(es)).index, ids)).inode
            == Listing(d, es)[k].inode
  {
    var l := Listing(d, es);
    var name := l[k].name;
    ListingMembers(d, es);
    assert l[k] in l[1..] by {
      assert l[k] == l[1..][k - 1];
    }
    var i :| 0 <= i < |es| && Listed(es[i]) && l[k] == SubdirEntry(d, i, es[i].name);
    assert Matches(es[i], name);
    var t := LookupTarget(name, Scanned(es));
    assert t.Subdir?;
    assert es[t.index].name == es[i].name;
  }

  /** Conversely, a lookup that resolves to a directory other than ".git"
      finds one the listing shows under the same inode. */
  lemma ResolvedSubdirListed(d: Dir, es: seq<ScanEntry>, name: string, ids: Credentials)
    requires LookupTarget(name, Scanned(es)).Subdir? && name != GIT_DIR
    ensures SubdirEntry(d, LookupTarget(name, Scanned(es)).index, name) in Listing(d, es)
    ensures Attr(SubdirNode(d, name, LookupTarget(name, Scanned(es)).index, ids)).inode
            == SubdirEntry(d, LookupTarget(name, Scanned(es)).index, name).inode
  {
    var i := LookupTarget(name, Scanned(es)).index;
    ListingMembers(d, es);
    assert Listed(es[i]) && SubdirEntry(d, i, name) == SubdirEntry(d, i, es[i].name);
    var l := Listing(d, es);
    assert l == [l[0]] + l[1..];
  }

  /** ".git" is hidden from the listing but not from lookup. */
  lemma GitDirHiddenButReachable(d: Dir, es: seq<ScanEntry>, i: nat)
    requires IsFirstMatch(es, GIT_DIR, i)
    ensures LookupTarget(GIT_DIR, Scanned(es)) == Subdir(i)
    ensures forall e :: e in Listing(d, es) ==> e.name != GIT_DIR
  {
    var l := Listing(d, es);
    ListingMembers(d, es);
    assert l == [l[0]] + l[1..];
    var t := LookupTarget(GIT_DIR, Scanned(es));
    assert t.Subdir?;
  }

  /** A real directory named "godoc" is listed beside the synthetic document
      under its own inode, but a lookup of "godoc" always yields the
      document. */
  lemma DocumentShadowsSubdir(d: Dir, es: seq<ScanEntry>, i: nat)
    requires i < |es| && es[i] == ScanEntry(DOC_NAME, true)
    ensures LookupTarget(DOC_NAME, Scanned(es)) == Document
    ensures Listing(d, es)[0].name == DOC_NAME
    ensures SubdirEntry(d, i, DOC_NAME) in Listing(d, es)
  {
    var l := Listing(d, es);
    ListingMembers(d, es);
    assert SubdirEntry(d, i, DOC_NAME) in l[1..];
    assert l == [l[0]] + l[1..];
  }

  /** The document a lookup makes is the listing's first entry: same name,
      same inode, and the inode its Attr reports. */
  lemma DocumentMatchesListing(f: File, d: Dir, ids: Credentials, es: seq<ScanEntry>)
    requires IsDocumentOf(f, d, ids)
    ensures Listing(d, es)[0] == Dirent(f.inode, DT_File, f.name)
    ensures SyntheticInode(f.parentInode) == f.inode
  {
  }

  // ---------------------------------------------------------------- paths

  lemma SrcIsName()
    ensures IsName("src") && IsName(DOC_NAME)
  {
  }

  lemma NamesThenSrc(bparts: seq<string>)
    requires AllNames(bparts)
    ensures AllNames(bparts + ["src"])
  {
    SrcIsName();
  }

  /** The source root of a workspace root made of names. */
  lemma SourceRootOf(bparts: seq<string>)
    requires |bparts| >= 1 && AllNames(bparts)
    ensures SourceRoot("/" + JoinParts(bparts)) == "/" + JoinParts(bparts + ["src"])
    ensures SourceRoot("/" + JoinParts(bparts)) == "/" + JoinParts(bparts) + "/" + "src"
  {
    SrcIsName();
    JoinName(bparts, "src");
  }

  /** The root directory's path, for a workspace root made of names. */
  lemma RootPath(bparts: seq<string>)
    requires |bparts| >= 1 && AllNames(bparts)
    ensures RootDir("/" + JoinParts(bparts)).path == "/" + JoinParts(bparts + ["src"])
  {
    SourceRootOf(bparts);
  }

  /** A looked-up directory's path is its parent's path with its name added. */
  lemma SubdirPath(d: Dir, qs: seq<string>, name: string, i: nat, ids: Credentials)
    requires |qs| >= 1 && AllNames(qs) && IsName(name)
    requires d.path == "/" + JoinParts(qs)
    ensures SubdirNode(d, name, i, ids).path == "/" + JoinParts(qs + [name])
  {
    JoinName(qs, name);
  }

  /** The directory reached from root by successful lookups of names, the
      k-th of them resolving to scan index slots[k]. */
  function Reach(root: Dir, names: seq<string>, slots: seq<nat>, ids: Credentials): Dir
    requires |slots| == |names|
    decreases |names|
  {
    if names == [] then root
    else
      var n := |names| - 1;
      SubdirNode(Reach(root, names[..n], slots[..n], ids), names[n], slots[n], ids)
  }

  lemma SnocNames(bparts: seq<string>, ps: seq<string>)
    requires |ps| >= 1
    ensures (bparts + ["src"] + ps[..|ps| - 1]) + [ps[|ps| - 1]] == bparts + ["src"] + ps
  {
    assert ps == ps[..|ps| - 1] + [ps[|ps| - 1]];
  }

  /** One more lookup appends its name to the reached directory's path. */
  lemma ReachStep(bparts: seq<string>, ps: seq<string>, slots: seq<nat>, ids: Credentials)
    requires |bparts| >= 1 && AllNames(bparts) && AllNames(ps) && |slots| == |ps| >= 1
    requires Reach(RootDir("/" + JoinParts(bparts)), ps[..|ps| - 1], slots[..|ps| - 1], ids).path
          == "/" + JoinParts(bparts + ["src"] + ps[..|ps| - 1])
    ensures Reach(RootDir("/" + JoinParts(bparts)), ps, slots, ids).path
         == "/" + JoinParts(bparts + ["src"] + ps)
  {
    var n := |ps| - 1;
    var qs := bparts + ["src"] + ps[..n];
    assert AllNames(qs) by {
      NamesThenSrc(bparts);
    }
    SnocNames(bparts, ps);
    SubdirPath(Reach(RootDir("/" + JoinParts(bparts)), ps[..n], slots[..n], ids), qs, ps[n], slots[n], ids);
  }

  /** A directory reached from the root by looking up names ps has the path
      of the source root followed by ps. */
  lemma {:induction false} ReachPath(bparts: seq<string>, ps: seq<string>, slots: seq<nat>, ids: Credentials)
    requires |bparts| >= 1 && AllNames(bparts) && AllNames(ps) && |slots| == |ps|
    ensures Reach(RootDir("/" + JoinParts(bparts)), ps, slots, ids).path
         == "/" + JoinParts(bparts + ["src"] + ps)
    decreases |ps|
  {
    if ps == [] {
      RootPath(bparts);
      assert bparts + ["src"] + ps == bparts + ["src"];
    } else {
      var n := |ps| - 1;
      ReachPath(bparts, ps[..n], slots[..n], ids);
      ReachStep(bparts, ps, slots, ids);
    }
  }

  /** A character of pat that s lacks rules out every occurrence. */
  lemma AbsentChar(pat: string, s: string, c: char)
    requires c in pat && c !in s
    ensures !Occurs(pat, s)
  {
    forall k | 0 <= k <= |s| - |pat| ensures !OccursAt(pat, s, k) {
      var m :| 0 <= m < |pat| && pat[m] == c;
      assert k + m < |s| ==> s[k..k + |pat|][m] == s[k + m];
    }
  }

  /** The root directory's document sits directly below the source root. */
  lemma RootDocumentPath(bparts: seq<string>)
    requires |bparts| >= 1 && AllNames(bparts)
    ensures Join(RootDir("/" + JoinParts(bparts)).path, DOC_NAME)
         == SourceRoot("/" + JoinParts(bparts)) + "/" + DOC_NAME
  {
    SourceRootOf(bparts);
    NamesThenSrc(bparts);
    SrcIsName();
    JoinRooted(SourceRoot("/" + JoinParts(bparts)), bparts + ["src"], DOC_NAME);
  }

  /** A path ending in "/src" does not occur in "/godoc". */
  lemma SrcPathNotInDocPath(p: string, first: string)
    requires first == p + "/" + "src"
    ensures !Occurs(first, "/" + DOC_NAME)
  {
    assert first[|first| - 3] == 's';
    AbsentChar(first, "/" + DOC_NAME, 's');
  }

  /** The source root of a workspace root made of names does not occur in
      "/godoc". */
  lemma SourceRootNotInDocPath(bparts: seq<string>)
    requires |bparts| >= 1 && AllNames(bparts)
    ensures !Occurs(SourceRoot("/" + JoinParts(bparts)), "/" + DOC_NAME)
  {
    SourceRootOf(bparts);
    SrcPathNotInDocPath("/" + JoinParts(bparts), SourceRoot("/" + JoinParts(bparts)));
  }

  /** The root directory's document documents the root package "". */
  lemma RootDocumentPackage(bparts: seq<string>)
    requires |bparts| >= 1 && AllNames(bparts)
    ensures PackageId(SourceRoot("/" + JoinParts(bparts)),
                      Join(RootDir("/" + JoinParts(bparts)).path, DOC_NAME)) == ""
  {
    RootDocumentPath(bparts);
    SourceRootNotInDocPath(bparts);
    PackageIdOfSourceRoot(SourceRoot("/" + JoinParts(bparts)));
  }

  lemma RegroupRooted(a: string, b: string, c: string)
    ensures "/" + (a + "/" + b) + "/" + c == ("/" + a) + "/" + b + "/" + c
  {
  }

  /** The document path of the directory reached by looking up ps from the
      root is the source root, then ps, then "godoc". */
  lemma NestedDocumentPath(bparts: seq<string>, ps: seq<string>, path: string)
    requires |bparts| >= 1 && AllNames(bparts) && |ps| >= 1 && AllNames(ps)
    requires path == "/" + JoinParts(bparts + ["src"] + ps)
    ensures Join(path, DOC_NAME)
         == SourceRoot("/" + JoinParts(bparts)) + "/" + JoinParts(ps) + "/" + DOC_NAME
  {
    var fs := bparts + ["src"];
    assert SourceRoot("/" + JoinParts(bparts)) == "/" + JoinParts(fs) by {
      SourceRootOf(bparts);
    }
    assert Join(path, DOC_NAME) == "/" + JoinParts(fs + ps) + "/" + DOC_NAME by {
      assert AllNames(fs + ps);
      JoinName(fs + ps, DOC_NAME);
    }
    assert JoinParts(fs + ps) == JoinParts(fs) + "/" + JoinParts(ps) by {
      JoinPartsConcat(fs, ps);
    }
    RegroupRooted(JoinParts(fs), JoinParts(ps), DOC_NAME);
  }

  /** The document of the directory reached from the root by looking up the
      names ps documents the package JoinParts(ps), as long as neither
      "godoc" nor the source root occurs again in the path. */
  lemma NestedDocumentPackage(bparts: seq<string>, ps: seq<string>, d: Dir)
    requires |bparts| >= 1 && AllNames(bparts) && |ps| >= 1 && AllNames(ps)
    requires d.path == "/" + JoinParts(bparts + ["src"] + ps)
    requires !Occurs(DOC_NAME, JoinParts(ps))
    requires !Occurs(SourceRoot("/" + JoinParts(bparts)), "/" + JoinParts(ps) + "/" + DOC_NAME)
    ensures PackageId(SourceRoot("/" + JoinParts(bparts)), Join(d.path, DOC_NAME)) == JoinParts(ps)
  {
    NestedDocumentPath(bparts, ps, d.path);
    PackageIdOfSubdir(SourceRoot("/" + JoinParts(bparts)), ps);
  }

  /** The document of the directory reached from the root by looking up the
      names ps documents the package ps joined by "/", as long as neither
      "godoc" nor the source root occurs again in the path. */
  lemma ReachedDocumentPackage(bparts: seq<string>, ps: seq<string>, slots: seq<nat>, ids: Credentials)
    requires |bparts| >= 1 && AllNames(bparts) && |ps| >= 1 && AllNames(ps) && |slots| == |ps|
    requires !Occurs(DOC_NAME, JoinParts(ps))
    requires !Occurs(SourceRoot("/" + JoinParts(bparts)), "/" + JoinParts(ps) + "/" + DOC_NAME)
    ensures PackageId(SourceRoot("/" + JoinParts(bparts)),
                      Join(Reach(RootDir("/" + JoinParts(bparts)), ps, slots, ids).path, DOC_NAME))
         == JoinParts(ps)
  {
    var d := Reach(RootDir("/" + JoinParts(bparts)), ps, slots, ids);
    ReachPath(bparts, ps, slots, ids);
    NestedDocumentPackage(bparts, ps, d);
  }
}
