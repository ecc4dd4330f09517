/** Paths in the inode block tree (driver/logfs/tree.c, lfs_block_to_path): 12 direct
    pointers, then a single, a double and a triple indirect block of 256 pointers each. */
module LfsPath {

  const NDIR := 12
  const N_BLOCKS := 15
  const PTRS := 256
  /** Number of logical blocks that the tree can address. */
  const MAX_BLOCKS := NDIR + 256 + 65536 + 16777216

  /** Pointers on the way from slot `slot` of the inode to a data block. */
  function Height(slot: nat): nat {
    if slot < NDIR then 1 else slot - NDIR + 2
  }

  /** A chain of pointers that starts in the inode; it may stop at an index block. */
  predicate IsNode(q: seq<nat>) {
    0 < |q| && q[0] < N_BLOCKS && |q| <= Height(q[0]) && forall k | 1 <= k < |q| :: q[k] < PTRS
  }

  predicate IsLeaf(q: seq<nat>) {
    IsNode(q) && |q| == Height(q[0])
  }

  predicate IsIndex(q: seq<nat>) {
    IsNode(q) && |q| < Height(q[0])
  }

  /** The logical block at the end of a full path. */
  function BlockOf(q: seq<nat>): nat
    requires IsLeaf(q)
  {
    if |q| == 1 then q[0]
    else if |q| == 2 then NDIR + q[1]
    else if |q| == 3 then NDIR + 256 + 256 * q[1] + q[2]
    else NDIR + 256 + 65536 + 65536 * q[1] + 256 * q[2] + q[3]
  }

  /** The path of a logical block, empty when the block is out of range. */
  function PathOf(i: int): (q: seq<nat>)
    ensures 0 <= i < MAX_BLOCKS ==> IsLeaf(q)
  {
    if i < 0 || i >= MAX_BLOCKS then []
    else if i < NDIR then [i]
    else if i < NDIR + 256 then [NDIR, i - NDIR]
    else if i < NDIR + 256 + 65536 then
      var r := i - NDIR - 256;
      [NDIR + 1, r / 256, r % 256]
    else
      var r := i - NDIR - 256 - 65536;
      [NDIR + 2, r / 256 / 256, r / 256 % 256, r % 256]
  }

  lemma PathThenBlock(i: int)
    requires 0 <= i < MAX_BLOCKS
    ensures BlockOf(PathOf(i)) == i
  {
    if NDIR + 256 + 65536 <= i {
      var r := i - NDIR - 256 - 65536;
      assert r == 256 * (r / 256) + r % 256;
      assert r / 256 == 256 * (r / 256 / 256) + r / 256 % 256;
    }
  }

  lemma BlockThenPath(q: seq<nat>)
    requires IsLeaf(q)
    ensures BlockOf(q) < MAX_BLOCKS && PathOf(BlockOf(q)) == q
  {
    if |q| == 3 {
      var r := 256 * q[1] + q[2];
      assert r / 256 == q[1] && r % 256 == q[2];
    } else if |q| == 4 {
      var r := 65536 * q[1] + 256 * q[2] + q[3];
      assert r / 256 == 256 * q[1] + q[2] && r % 256 == q[3];
      assert r / 256 / 256 == q[1] && r / 256 % 256 == q[2];
    }
  }

  /** Different blocks have different paths, and no path is a prefix of another. */
  lemma PathsDiverge(i: int, j: int)
    requires 0 <= i < MAX_BLOCKS && 0 <= j < MAX_BLOCKS && i != j
    ensures !(PathOf(i) <= PathOf(j))
  {
    var p, q := PathOf(i), PathOf(j);
    if p <= q {
      assert p[0] == q[0] && |p| == |q|;
      assert p == q;
      PathThenBlock(i);
      PathThenBlock(j);
    }
  }

  /** The block's pointer is the last one in its index block, or the last direct pointer. */
  predicate LastPointer(q: seq<nat>) {
    |q| > 0 && q[|q| - 1] == (if |q| == 1 then NDIR else PTRS) - 1
  }

  /** Two consecutive blocks have neighbouring pointers unless the first one's is the last of its place. */
  lemma LastHasNoNeighbour(i: int)
    requires 0 <= i < MAX_BLOCKS
    ensures var q := PathOf(i);
            LastPointer(q) <==> i == MAX_BLOCKS - 1 || PathOf(i + 1) != q[..|q| - 1] + [q[|q| - 1] + 1]
  {
    var q := PathOf(i);
    var next := q[..|q| - 1] + [q[|q| - 1] + 1];
    PathThenBlock(i);
    if LastPointer(q) && i < MAX_BLOCKS - 1 {
      var p := PathOf(i + 1);
      assert |p| == |q| ==> p[|q| - 1] < if |q| == 1 then NDIR else PTRS;
      assert |next| == |q| && next[|q| - 1] == if |q| == 1 then NDIR else PTRS;
    } else if !LastPointer(q) {
      assert IsLeaf(next) && BlockOf(next) == i + 1;
      BlockThenPath(next);
    }
  }

  /** Fills `offsets`, returns the path length and the boundary flag.  The arithmetic works on
      a signed long: an out-of-range block keeps `final` at 0. */
  method BlockToPath(iBlock: int, offsets: array<nat>) returns (n: nat, boundary: bool)
    requires offsets.Length == 4
    modifies offsets
    ensures n <= 4 && offsets[..n] == PathOf(iBlock)
    ensures n == 0 <==> !(0 <= iBlock < MAX_BLOCKS)
    ensures boundary <==> LastPointer(PathOf(iBlock))
  {
    var ptrs := PTRS;
    var b, final := iBlock, 0;
    n := 0;
    if b < 0 {
    } else if b < NDIR {
      offsets[0], n := b, 1;
      final := NDIR;
    } else {
      b := b - NDIR;
      if b < ptrs {
        offsets[0], offsets[1], n := NDIR, b, 2;
        final := ptrs;
      } else {
        b := b - ptrs;
        if b < 65536 {
          offsets[0], offsets[1], offsets[2], n := NDIR + 1, b / 256, b % 256, 3;
          final := ptrs;
        } else {
          b := b - 65536;
          if b / 65536 < ptrs {
            DivTwice(b);
            offsets[0], offsets[1], offsets[2], offsets[3], n := NDIR + 2, b / 65536, b / 256 % 256, b % 256, 4;
            final := ptrs;
          }
        }
      }
    }
    boundary := b % 256 == final - 1;
  }

  lemma DivTwice(b: nat)
    ensures b / 65536 == b / 256 / 256
  {
    var q, r, q', r' := b / 256, b % 256, b / 256 / 256, b / 256 % 256;
    assert b == 65536 * q' + (256 * r' + r);
  }
}
