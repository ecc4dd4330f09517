/** The append-only segment log (driver/logfs/segment.c).  Segments follow each other on the
    device; block 0 of each is its summary, and the log head hands out the others in order. */
module LfsLog {
  import opened Bytes
  import opened LfsDisk

  /** From s0 to s1 nothing changed except blocks of the usage table, blocks the usage table
      appended, and summaries of the segment that was current and of later ones. */
  ghost predicate Beside(s0: Store, s1: Store) {
    && s0.start <= s1.start
    && s0.frontier <= s1.frontier
    && s0.usage <= s1.usage
    && (forall b | b in s1.usage && b !in s0.usage :: s0.frontier <= b)
    && (forall b | b !in s1.usage && !(IsSummary(b) && s0.start <= b) ::
          At(s1.blocks, b) == At(s0.blocks, b))
  }

  ghost predicate Increasing(s: seq<nat>) {
    forall i, j | 0 <= i < j < |s| :: s[i] < s[j]
  }

  /** From lo up to hi there are only summaries and blocks of the usage table: no block was skipped. */
  ghost predicate NoGap(usage: set<nat>, lo: nat, hi: nat) {
    forall b | lo <= b < hi :: IsSummary(b) || b in usage
  }

  lemma NoGapYet(usage: set<nat>, lo: nat)
    ensures NoGap(usage, lo, lo)
  {
  }

  lemma NoGapOn(usage: set<nat>, lo: nat, mid: nat, more: set<nat>, hi: nat)
    requires NoGap(usage, lo, mid) && NoGap(more, mid + 1, hi) && usage <= more
    ensures NoGap(more + {mid}, lo, hi)
  {
  }

  lemma NoGapFrom(usage: set<nat>, start: nat, offset: nat)
    requires IsSummary(start) && NoGap(usage, start + 1, start + offset)
    ensures NoGap(usage, start, start + offset)
  {
  }

  lemma AppendIncreasing(s: seq<nat>, x: nat)
    requires Increasing(s) && forall i | 0 <= i < |s| :: s[i] < x
    ensures Increasing(s + [x])
  {
  }

  class Log {
    var blocks: map<nat, Block>  // the block cache
    var start: nat               // first block of the current segment
    var end: nat
    var offset: nat              // next free block, relative to start
    var usage: set<nat>          // blocks of the segment usage table
    ghost var handed: seq<nat>   // every block number handed out so far, in order

    ghost predicate Valid()
      reads this
    {
      Shape() && HandedBelow(start + offset)
    }

    /** The current segment is aligned, its head is inside it, and the usage table is on disk. */
    ghost predicate Shape()
      reads this
    {
      && IsSummary(start)
      && end == start + SEG_BLOCKS
      && 1 <= offset
      && start + offset < end
      && (forall u | u in usage :: u < start + offset && !IsSummary(u))
    }

    /** Block numbers were handed out in strictly increasing order, never a summary block. */
    ghost predicate HandedBelow(limit: nat)
      reads this
    {
      && Increasing(handed)
      && (forall i | 0 <= i < |handed| :: handed[i] < limit && !IsSummary(handed[i]))
    }

    ghost function State(): Store
      reads this
    {
      Store(blocks, start, start + offset, usage)
    }

    constructor (firstSegment: nat)
      requires IsSummary(firstSegment)
      ensures Valid() && start == firstSegment && offset == 1 && handed == [] && usage == {}
    {
      blocks, start, end, offset := map[], firstSegment, firstSegment + SEG_BLOCKS, 1;
      usage, handed := {}, [];
    }

    predicate Contains(b: nat)
      reads this
    {
      start <= b < end
    }

    /** The current segment holds the blocks with its segment number. */
    lemma ContainsIsSegment(b: nat)
      requires Valid()
      ensures Contains(b) <==> b >= 4 && (b - 4) / 512 == (start - 4) / 512
    {
    }

    /** Looks for the buffer of `blk` among the four buffers of its page; the buffers form a
        ring, and the search starts after the ring's head. */
    method SegmentGetBh(blk: nat) returns (found: bool, bh: nat)
      requires Valid()
      ensures found == Contains(blk)
      ensures found ==> bh == blk
    {
      if !Contains(blk) {
        return false, 0;
      }
      var index := (blk - start) / 4;
      var head := start + index * 4;
      bh := head + 1;
      while bh != blk && bh != head
        invariant head <= bh < head + 4
        invariant if bh == head then blk == head else blk == head || bh <= blk
        decreases if bh == head then 0 else head + 4 - bh
      {
        bh := if bh + 1 == head + 4 then head else bh + 1;
      }
      found := bh == blk;
    }

    /** Writes the summary of the full segment and makes the next one current; the usage
        table records both segments, which appends to the new one. */
    method SegmentAllocateNew()
      requires Shape() && start + offset == end - 1 && HandedBelow(end)
      modifies this
      ensures Valid()
      ensures start == old(end)
      ensures forall b | b in usage && b !in old(usage) :: start < b
      ensures NoGap(usage, start, start + offset)
      ensures Beside(old(State()), State())
      ensures old(handed) <= handed
    {
      var summary: Block := *;
      blocks := blocks[start := summary];
      start := end;
      end := start + SEG_BLOCKS;
      offset := 1;
      UsageInFreshSegment();
      NoGapFrom(usage, start, offset);
    }

    /** What the usage table may do to a segment that was just allocated: rewrite its own
        blocks and append some, without filling the segment. */
    method UsageInFreshSegment()
      requires Valid()
      modifies this
      ensures Valid()
      ensures start == old(start)
      ensures Beside(old(State()), State())
      ensures old(handed) <= handed
      ensures old(offset) <= offset && NoGap(usage, start + old(offset), start + offset)
    {
      var n: nat := *;
      NoGapYet(usage, start + offset);
      while n > 0 && start + offset + 1 < end
        invariant Valid()
        invariant start == old(start) && end == old(end)
        invariant Beside(old(State()), State())
        invariant old(handed) <= handed
        invariant old(offset) <= offset && NoGap(usage, start + old(offset), start + offset)
        decreases n
      {
        UsageBlock();
        n := n - 1;
      }
    }

    /** The usage table rewrites one of its blocks or appends one, without filling the segment. */
    method UsageBlock()
      requires Valid() && start + offset + 1 < end
      modifies this
      ensures Valid() && start == old(start) && end == old(end)
      ensures Beside(old(State()), State()) && old(handed) <= handed
      ensures old(offset) <= offset && NoGap(usage, start + old(offset), start + offset)
    {
      hide Increasing;
      var data: Block, b: nat := *, *;
      if b !in usage {
        b := start + offset;
        offset := offset + 1;
        usage := usage + {b};
        AppendIncreasing(handed, b);
        handed := handed + [b];
      }
      blocks := blocks[b := data];
    }

    /** One update of the usage table: it rewrites blocks of its own and appends others. */
    method UsageUpdate(max: nat)
      requires Valid()
      modifies this
      ensures Valid()
      ensures Beside(old(State()), State())
      ensures old(handed) <= handed
      ensures start <= old(start) + max * SEG_BLOCKS
      ensures NoGap(usage, old(start + offset), start + offset)
    {
      hide NoGap, IsSummary;
      var n: nat :| n <= max;
      NoGapYet(usage, start + offset);
      ghost var limit := n;
      while n > 0
        invariant n <= limit
        invariant Valid()
        invariant Beside(old(State()), State())
        invariant old(handed) <= handed
        invariant start <= old(start) + (limit - n) * SEG_BLOCKS
        invariant NoGap(usage, old(start + offset), start + offset) && old(start + offset) <= start + offset
      {
        var data: Block, b: nat := *, *;
        if b in usage {
          blocks := blocks[b := data];
        } else {
          ghost var before := usage;
          var blk := WriteAtHead(data);
          NoGapOn(before, old(start + offset), blk, usage, start + offset);
          usage := usage + {blk};
        }
        n := n - 1;
      }
    }

    method SegmentGetNextBlock() returns (blk: nat)
      requires Valid()
      modifies this
      ensures Valid()
      ensures blk == old(start + offset) && blk < start + offset
      ensures NoGap(usage, blk + 1, start + offset)
      ensures !IsSummary(blk) && blk !in usage
      ensures Beside(old(State()), State())
      ensures old(handed) + [blk] <= handed
      ensures start <= old(start) + SEG_BLOCKS
    {
      hide Increasing, NoGap;
      blk := start + offset;
      AppendIncreasing(handed, blk);
      handed := handed + [blk];
      if start + offset == end - 1 {
        SegmentAllocateNew();
      } else {
        offset := offset + 1;
        NoGapYet(usage, blk + 1);
      }
    }

    /** `__segment_write_block`: writes at the log head and returns the block number. */
    method WriteAtHead(data: seq<Byte>) returns (blk: nat)
      requires Valid() && |data| <= BSIZE
      modifies this
      ensures Valid()
      ensures blk == old(start + offset) && blk < start + offset
      ensures NoGap(usage, blk + 1, start + offset)
      ensures !IsSummary(blk) && blk !in usage
      ensures At(blocks, blk) == Overlay(old(At(blocks, blk)), 0, data)
      ensures forall b | b != blk && b !in usage && !(IsSummary(b) && old(start) <= b) ::
                At(blocks, b) == old(At(blocks, b))
      ensures forall b | b in usage && b !in old(usage) :: blk < b
      ensures old(usage) <= usage && old(start) <= start <= old(start) + SEG_BLOCKS
      ensures start == old(start) ==> blocks == old(blocks)[blk := Overlay(old(At(blocks, blk)), 0, data)]
                                      && offset == old(offset) + 1 && usage == old(usage)
      ensures old(handed) + [blk] <= handed
    {
      hide Increasing, Overlay, NoGap;
      blk := start + offset;
      blocks := blocks[blk := Overlay(At(blocks, blk), 0, data)];
      AppendIncreasing(handed, blk);
      handed := handed + [blk];
      if blk == end - 1 {
        SegmentAllocateNew();
      } else {
        offset := offset + 1;
        NoGapYet(usage, blk + 1);
      }
    }

    method SegmentWriteBlock(data: seq<Byte>, off: nat, blocknr: nat) returns (newblock: nat)
      requires Valid()
      requires if blocknr != 0 && Contains(blocknr) then off + |data| <= BSIZE
               else off == 0 && |data| <= BSIZE
      modifies this
      ensures Valid()
      ensures newblock == if blocknr != 0 && old(Contains(blocknr)) then blocknr else old(start + offset)
      ensures At(blocks, newblock) == Overlay(old(At(blocks, newblock)), off, data)
      ensures start == old(start) ==> blocks == old(blocks)[newblock := At(blocks, newblock)]
      ensures forall b: nat | b < old(start) && b !in usage :: At(blocks, b) == old(At(blocks, b))
      ensures forall b | b != newblock && b !in usage && !(IsSummary(b) && old(start) <= b) ::
                At(blocks, b) == old(At(blocks, b))
      ensures forall b | b in usage && b !in old(usage) :: newblock < b
      ensures newblock == blocknr || old(handed) + [newblock] <= handed
      ensures old(start) <= start && old(start + offset) <= start + offset && old(usage) <= usage
      ensures newblock == blocknr ==> usage == old(usage)
    {
      if blocknr != 0 && Contains(blocknr) {
        blocks := blocks[blocknr := Overlay(At(blocks, blocknr), off, data)];
        newblock := blocknr;
      } else {
        newblock := WriteAtHead(data);
      }
    }

    /** Changes part of a buffer that the caller holds.  The buffer itself is changed even
        when its block lies in an older segment; the log then receives a copy. */
    method SegmentWriteBlockFromBh(data: seq<Byte>, off: nat, blocknr: nat) returns (newblock: nat)
      requires Valid() && off + |data| <= BSIZE && blocknr < start + offset
      modifies this
      ensures Valid()
      ensures newblock == if old(Contains(blocknr)) then blocknr else old(start + offset)
      ensures At(blocks, newblock) == Overlay(old(At(blocks, blocknr)), off, data)
      ensures forall b | b != newblock && b != blocknr && b !in usage
                         && !(IsSummary(b) && old(start) <= b) ::
                At(blocks, b) == old(At(blocks, b))
      ensures newblock == blocknr || old(handed) + [newblock] <= handed
    {
      blocks := blocks[blocknr := Overlay(At(blocks, blocknr), off, data)];
      if Contains(blocknr) {
        newblock := blocknr;
      } else {
        newblock := WriteAtHead(At(blocks, blocknr));
      }
    }
  }
}
