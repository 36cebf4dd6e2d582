/** The slice of the FUSE node protocol the filesystem implements: fixed-width
    integers, file modes, directory entries, error numbers, attribute records,
    open flags and the byte-range reply helper. */
module Fuse {

  /** Go's uint64 and uint32, as ranges of the unbounded integers. */
  const TWO_64: int := 0x1_0000_0000_0000_0000
  type U64 = x: int | 0 <= x < TWO_64
  type U32 = x: int | 0 <= x < 0x1_0000_0000

  type Byte = bv8

  /** os.FileMode is a uint32; the directory bit is the top bit. */
  type FileMode = bv32
  const MODE_DIR: FileMode := 0x8000_0000
  /** Permission bits 0555 (r-xr-xr-x) and 0444 (r--r--r--). */
  const PERM_READ_EXEC: FileMode := 0x16D
  const PERM_READ: FileMode := 0x124
  /** The nine permission bits of a mode (0777). */
  const PERM_BITS: FileMode := 0x1FF

  datatype DirentType = DT_Dir | DT_File

  /** One entry of a directory listing, as fuse.Dirent. */
  datatype Dirent = Dirent(inode: U64, kind: DirentType, name: string)

  /** The error numbers the nodes return (2 and 13 on Linux). */
  datatype Errno = ENOENT | EACCES

  /** What a node operation hands back to the transport: a value, an error
      number, or nothing at all because the process ended (log.Fatal, panic). */
  datatype Reply<T> = Ok(value: T) | Fail(errno: Errno) | Exit

  /** The user and group ids of the serving process (os.Getuid, os.Getgid). */
  datatype Credentials = Credentials(uid: U32, gid: U32)

  /** The attribute fields a directory node fills in. */
  datatype DirAttr = DirAttr(inode: U64, mode: FileMode, uid: U32, gid: U32)

  /** The attribute fields the synthetic file node fills in. */
  datatype FileAttr = FileAttr(inode: U64, mode: FileMode, size: nat)

  /** Open flags as the kernel sends them; the access mode is the low two bits. */
  type OpenFlags = bv32
  const O_RDONLY: OpenFlags := 0
  const O_ACCMODE: OpenFlags := 3

  predicate IsReadOnly(flags: OpenFlags) {
    flags & O_ACCMODE == O_RDONLY
  }

  /** Flags of an open response; FOPEN_KEEP_CACHE asks the kernel to keep
      cached pages of the file across opens. */
  type OpenResponseFlags = bv32
  const OPEN_KEEP_CACHE: OpenResponseFlags := 2

  function Min(a: nat, b: nat): nat {
    if a <= b then a else b
  }

  /** fuseutil.HandleRead: the part of data that a read of size bytes at
      offset returns; short at the end of data and empty past it. */
  function HandleRead(data: seq<Byte>, offset: nat, size: nat): (w: seq<Byte>)
    ensures |w| == if offset >= |data| then 0 else Min(size, |data| - offset)
    ensures forall k :: 0 <= k < |w| ==> w[k] == data[offset + k]
  {
    if offset >= |data| then []
    else
      var rest := data[offset..];
      if |rest| > size then rest[..size] else rest
  }

  /** Two consecutive reads return the same bytes as one read over both ranges. */
  lemma HandleReadConsecutive(data: seq<Byte>, offset: nat, a: nat, b: nat)
    ensures HandleRead(data, offset, a) + HandleRead(data, offset + a, b) == HandleRead(data, offset, a + b)
  {
    var x, y, z := HandleRead(data, offset, a), HandleRead(data, offset + a, b), HandleRead(data, offset, a + b);
    assert |x + y| == |z|;
    forall k | 0 <= k < |z| ensures (x + y)[k] == z[k] {
      if k >= |x| {
        assert |x| == a;
      }
    }
  }

  /** A read from offset 0 of exactly as many bytes as there are returns them all. */
  lemma HandleReadWhole(data: seq<Byte>)
    ensures HandleRead(data, 0, |data|) == data
  {
  }
}
