/** Disk blocks of the log-structured file system: 1024 bytes, read either as bytes or as
    256 little-endian 32-bit words.  `At` reads the block cache, where a block that was never
    touched reads as zeros. */
module LfsDisk {
  import opened Bytes

  const BSIZE := 1024
  const ADDR_PER_BLOCK := 256
  const SEG_BLOCKS := 512
  const SEG_START := 4
  /** Block numbers pass through a C `int` on their way into an index block. */
  const DEVICE_LIMIT := 0x8000_0000

  type Block = s: seq<Byte> | |s| == BSIZE witness Zeros(BSIZE)

  const ZERO_BLOCK: Block := Zeros(BSIZE)

  /** The block cache, the current segment's first block, the next block the log will hand
      out, and the blocks that belong to the segment usage table. */
  datatype Store = Store(blocks: map<nat, Block>, start: nat, frontier: nat, usage: set<nat>)

  function At(blocks: map<nat, Block>, b: nat): Block {
    if b in blocks then blocks[b] else ZERO_BLOCK
  }

  /** The first block of every segment holds the segment summary. */
  predicate IsSummary(b: nat) {
    b % SEG_BLOCKS == SEG_START
  }

  function ToLE(v: U32): (s: seq<Byte>)
    ensures |s| == 4 && FromLE(s) == v
  {
    var v1: int := v / 256;
    var v2: int := v1 / 256;
    [v % 256, v1 % 256, v2 % 256, v2 / 256]
  }

  function FromLE(s: seq<Byte>): U32
    requires |s| == 4
  {
    var b0: int, b1: int, b2: int, b3: int := s[0], s[1], s[2], s[3];
    b0 + 256 * (b1 + 256 * (b2 + 256 * b3))
  }

  /** A block is exactly 256 words. */
  lemma BlockIsWords()
    ensures 4 * ADDR_PER_BLOCK == BSIZE == 1024
  {
  }

  function Word(b: Block, x: nat): U32
    requires x < ADDR_PER_BLOCK
  {
    FromLE(b[4 * x..4 * x + 4])
  }

  function SetWord(b: Block, x: nat, v: U32): (r: Block)
    requires x < ADDR_PER_BLOCK
    ensures Word(r, x) == v
    ensures forall y | 0 <= y < ADDR_PER_BLOCK && y != x :: Word(r, y) == Word(b, y)
  {
    var r := b[..4 * x] + ToLE(v) + b[4 * x + 4..];
    assert r[4 * x..4 * x + 4] == ToLE(v);
    assert forall y | 0 <= y < ADDR_PER_BLOCK && y != x :: r[4 * y..4 * y + 4] == b[4 * y..4 * y + 4];
    r
  }

  lemma ZeroWord(x: nat)
    requires x < ADDR_PER_BLOCK
    ensures Word(ZERO_BLOCK, x) == 0
  {
    assert ZERO_BLOCK[4 * x..4 * x + 4] == [0, 0, 0, 0];
  }

  /** `memcpy` of `data` into a block at byte `off`. */
  function Overlay(b: Block, off: nat, data: seq<Byte>): (r: Block)
    requires off + |data| <= BSIZE
  {
    b[..off] + data + b[off + |data|..]
  }

  /** After the copy the data reads back, and the bytes around it are as before. */
  lemma OverlayReads(b: Block, off: nat, data: seq<Byte>)
    requires off + |data| <= BSIZE
    ensures var r := Overlay(b, off, data);
            && r[off..off + |data|] == data
            && r[..off] == b[..off]
            && r[off + |data|..] == b[off + |data|..]
  {
  }
}
