/** The node identity scheme: every inode is computed from the parent's inode
    and a slot number, in uint64 arithmetic that wraps around. Slot 0 of a
    directory is its synthetic document; the directory entry at scan index i
    takes slot i + 1. */
module Inodes {
  import opened Fuse

  type Inode = U64

  /** The root directory's inode. */
  const ROOT_INODE: Inode := 1

  /** Each directory owns the inodes parent * SLOTS + 0 .. parent * SLOTS + 99. */
  const SLOTS: nat := 100

  /** Go's uint64 wrap-around. */
  function Wrap(x: int): (r: Inode)
    ensures 0 <= x < TWO_64 ==> r == x
    ensures (x - r) % TWO_64 == 0
  {
    x % TWO_64
  }

  /** Inode of the synthetic document of the directory with inode parent. */
  function SyntheticInode(parent: Inode): (n: Inode)
    ensures (n - parent * SLOTS) % TWO_64 == 0
    ensures parent * SLOTS < TWO_64 ==> n == parent * SLOTS
  {
    Wrap(parent * SLOTS)
  }

  /** Inode of the entry at scan index i of the directory with inode parent:
      Go's (parent * 100) + uint64(i + 1), each operation wrapping. */
  function ChildInode(parent: Inode, i: nat): (n: Inode)
    ensures (n - (parent * SLOTS + i + 1)) % TWO_64 == 0
    ensures parent * SLOTS + i + 1 < TWO_64 ==> n == parent * SLOTS + i + 1
  {
    Wrap(SyntheticInode(parent) + Wrap(i + 1))
  }

  /** A wrapped sum of two values below 2^64 is the sum, or the sum less 2^64. */
  lemma WrapSum(x: Inode, y: Inode)
    ensures Wrap(x + y) == if x + y < TWO_64 then x + y else x + y - TWO_64
  {
  }

  /** The child inode is the sum itself as long as it does not wrap. */
  lemma ChildInodeNoWrap(parent: Inode, i: nat)
    requires parent * SLOTS + i + 1 < TWO_64
    ensures ChildInode(parent, i) == parent * SLOTS + i + 1
    ensures SyntheticInode(parent) == parent * SLOTS
  {
  }

  /** Within one directory no two slots share an inode, even with wrap-around,
      as long as there are fewer than 2^64 slots. */
  lemma ChildInodesDistinct(parent: Inode, i: nat, j: nat)
    requires i < j < TWO_64 - 1
    ensures ChildInode(parent, i) != ChildInode(parent, j)
    ensures ChildInode(parent, i) != SyntheticInode(parent)
  {
    var b := SyntheticInode(parent);
    WrapSum(b, i + 1);
    WrapSum(b, j + 1);
  }

  /** Across the whole tree, when nothing wraps and a directory uses at most
      99 child slots, an inode determines its parent and its slot. */
  lemma InodeDeterminesParentAndSlot(p: Inode, s: nat, q: Inode, t: nat)
    requires s < SLOTS && t < SLOTS
    requires p * SLOTS + s < TWO_64 && q * SLOTS + t < TWO_64
    requires Wrap(p * SLOTS + s) == Wrap(q * SLOTS + t)
    ensures p == q && s == t
  {
  }

  /** The limitation of the scheme: the 100th entry of a directory takes the
      inode of the synthetic document of the directory whose inode is one higher. */
  lemma HundredthEntryCollides(parent: Inode)
    requires (parent + 1) * SLOTS < TWO_64
    ensures ChildInode(parent, 99) == SyntheticInode(parent + 1)
  {
  }
}
