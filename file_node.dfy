/** The synthetic document node: one per directory, read-only, whose content
    is the generator's output for the directory's package. Its identity and
    path are fixed when the node is made; its content buffer is overwritten
    by every attribute query and served by reads. */
module FileNodes {
  import opened Fuse
  import opened Inodes
  import opened PackageIds

  /** What the documentation generator (`go doc <package>`) produced: its
      standard output, or a failure to start or a non-zero exit. */
  datatype Rendered = Rendered(out: seq<Byte>) | GenerationFailed

  class File {
    const inode: Inode
    const mode: FileMode
    const location: string
    const fullPath: string
    const name: string
    const parentInode: Inode
    const gid: U64
    const uid: U64
    var content: seq<Byte>

    /** A node as a composite literal makes it: location and content unset. */
    constructor (inode: Inode, parentInode: Inode, name: string, mode: FileMode,
                 gid: U64, uid: U64, fullPath: string)
      ensures this.inode == inode && this.parentInode == parentInode
      ensures this.name == name && this.mode == mode
      ensures this.gid == gid && this.uid == uid && this.fullPath == fullPath
      ensures location == "" && content == []
    {
      this.inode := inode;
      this.parentInode := parentInode;
      this.name := name;
      this.mode := mode;
      this.gid := gid;
      this.uid := uid;
      this.fullPath := fullPath;
      location := "";
      content := [];
    }

    /** The package this node documents, for the workspace root base. */
    function Package(base: string): string {
      PackageId(SourceRoot(base), fullPath)
    }

    /** File.ReadAll: a node named "godoc" runs the generator on its package
        and returns the output verbatim, and a generator failure ends the
        process (log.Fatal); any other node has empty content. */
    function ReadAll(base: string, render: string -> Rendered): (r: Reply<seq<Byte>>)
      ensures !r.Fail?
      ensures name != DOC_NAME ==> r == Ok([])
      ensures name == DOC_NAME ==> (r.Exit? <==> render(Package(base)).GenerationFailed?)
      ensures name == DOC_NAME && r.Ok? ==> r.value == render(Package(base)).out
    {
      if name == DOC_NAME then
        match render(Package(base))
        case Rendered(out) => Ok(out)
        case GenerationFailed => Exit
      else
        Ok([])
    }

    /** File.Attr: renders the content again on every call, stores it, and
        reports the inode parentInode * 100, mode 0444 and the content's
        length. If rendering fails the process ends before content changes. */
    method Attr(base: string, render: string -> Rendered) returns (r: Reply<FileAttr>)
      modifies this
      ensures ReadAll(base, render).Exit? ==> r == Exit && content == old(content)
      ensures ReadAll(base, render).Ok? ==> content == ReadAll(base, render).value
      ensures ReadAll(base, render).Ok? ==>
                r == Ok(FileAttr(SyntheticInode(parentInode), PERM_READ, |content|))
    {
      var bb := ReadAll(base, render);
      if !bb.Ok? {
        return Exit;
      }
      content := bb.value;
      r := Ok(FileAttr(SyntheticInode(parentInode), PERM_READ, |bb.value|));
    }

    /** File.Open: only a read-only open succeeds; it hands back this node as
        the handle and asks the kernel to keep its cache. */
    method Open(flags: OpenFlags, respFlags: OpenResponseFlags) returns (r: Reply<File>, respFlags': OpenResponseFlags)
      ensures IsReadOnly(flags) ==> r == Ok(this) && respFlags' == respFlags | OPEN_KEEP_CACHE
      ensures !IsReadOnly(flags) ==> r == Fail(EACCES) && respFlags' == respFlags
      ensures r.Ok? ==> respFlags' & OPEN_KEEP_CACHE == OPEN_KEEP_CACHE
    {
      if !IsReadOnly(flags) {
        return Fail(EACCES), respFlags;
      }
      respFlags' := respFlags | OPEN_KEEP_CACHE;
      r := Ok(this);
    }

    /** File.Read: the requested range of whatever content holds now; the
        generator is not run again. */
    method Read(offset: nat, size: nat) returns (data: seq<Byte>)
      ensures data == HandleRead(content, offset, size)
      ensures offset == 0 && size == |content| ==> data == content
    {
      data := HandleRead(content, offset, size);
      HandleReadWhole(content);
    }
  }

  /** The kernel's stat followed by a read of as many bytes as the stat
      reported: the bytes read are exactly the generator's output, and their
      number is the size the stat reported. */
  method StatThenRead(f: File, base: string, render: string -> Rendered) returns (attr: Reply<FileAttr>, data: seq<Byte>)
    modifies f
    ensures attr.Ok? <==> f.ReadAll(base, render).Ok?
    ensures attr.Ok? ==> |data| == attr.value.size && data == f.ReadAll(base, render).value
    ensures attr.Ok? && f.name == DOC_NAME ==> data == render(f.Package(base)).out
  {
    attr := f.Attr(base, render);
    data := [];
    if attr.Ok? {
      data := f.Read(0, attr.value.size);
    }
  }
}
