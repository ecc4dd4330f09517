/** Segment summaries (driver/logfs/segsum.c): the in-memory record of what a segment holds,
    its image in the segment's first block, and the parser of that image. */
module LfsSegsum {
  import opened Bytes
  import opened LfsDisk

  const SEGSUM_SIZE := 28   // seven 32-bit words
  const FINFOSIZE := 16     // four 32-bit words, without the two array pointers
  const DADDRT_SIZE := 4
  const MAX_FIS := 64
  const MAX_FI_BLOCKS := 511
  const MAX_INO_BLOCKS := 511

  /** The blocks of one file in this segment: parallel arrays of logical and disk numbers. */
  datatype FInfo = FInfo(version: U32, ino: U32, lastLength: U32, lbn: seq<U32>, blocks: seq<U32>) {
    predicate Valid() {
      |lbn| == |blocks| <= MAX_FI_BLOCKS
    }
  }

  datatype Header = Header(sumSum: U32, dataSum: U32, magic: U32, next: U32, create: U32)

  datatype Summary = Summary(header: Header, inos: seq<U32>, finfos: seq<FInfo>) {
    predicate Valid() {
      |inos| <= MAX_INO_BLOCKS && |finfos| <= MAX_FIS && AllValid(finfos)
    }
  }

  predicate AllValid(fs: seq<FInfo>) {
    forall i | 0 <= i < |fs| :: fs[i].Valid()
  }

  // ---- the image of a summary ----

  function Words(ws: seq<U32>): (s: seq<Byte>)
    ensures |s| == 4 * |ws|
  {
    if ws == [] then [] else ToLE(ws[0]) + Words(ws[1..])
  }

  function HeaderWords(s: Summary): seq<U32>
    requires s.Valid()
  {
    [s.header.sumSum, s.header.dataSum, s.header.magic, s.header.next, s.header.create, |s.finfos|, |s.inos|]
  }

  function FInfoWords(f: FInfo): seq<U32>
    requires f.Valid()
  {
    [|f.lbn|, f.version, f.ino, f.lastLength]
  }

  function FInfoImage(f: FInfo): (s: seq<Byte>)
    requires f.Valid()
    ensures |s| == FINFOSIZE + 2 * DADDRT_SIZE * |f.lbn|
  {
    Words(FInfoWords(f)) + Words(f.lbn) + Words(f.blocks)
  }

  function FInfosImage(fs: seq<FInfo>): seq<Byte>
    requires AllValid(fs)
  {
    if fs == [] then [] else FInfosImage(fs[..|fs| - 1]) + FInfoImage(fs[|fs| - 1])
  }

  function Image(s: Summary): seq<Byte>
    requires s.Valid()
  {
    Words(HeaderWords(s)) + Words(s.inos) + FInfosImage(s.finfos)
  }

  /** Number of file blocks that the summary records. */
  function Recorded(fs: seq<FInfo>): nat {
    if fs == [] then 0 else Recorded(fs[..|fs| - 1]) + |fs[|fs| - 1].lbn|
  }

  /** The size of the image, and so the condition under which it fits into one block. */
  lemma {:induction false} ImageSize(s: Summary)
    requires s.Valid()
    ensures |Image(s)|
            == SEGSUM_SIZE + DADDRT_SIZE * |s.inos| + FINFOSIZE * |s.finfos| + 2 * DADDRT_SIZE * Recorded(s.finfos)
  {
    FInfosSize(s.finfos);
  }

  lemma {:induction false} FInfosSize(fs: seq<FInfo>)
    requires AllValid(fs)
    ensures |FInfosImage(fs)| == FINFOSIZE * |fs| + 2 * DADDRT_SIZE * Recorded(fs)
  {
    hide FInfoImage;
    if fs != [] {
      var rest := fs[..|fs| - 1];
      FInfosSize(rest);
      assert |FInfosImage(fs)| == |FInfosImage(rest)| + |FInfoImage(fs[|fs| - 1])|;
    }
  }

  /** A segment has 511 blocks besides its summary, but a summary that records more than 122
      file blocks does not fit into one block. */
  lemma FullSegmentDoesNotFit(s: Summary)
    requires s.Valid() && Recorded(s.finfos) > 122
    ensures |Image(s)| > BSIZE
  {
    hide Image;
    ImageSize(s);
  }

  // ---- writing and reading the image piece by piece ----

  lemma OverlayMore(b: Block, at: nat, x: seq<Byte>, y: seq<Byte>)
    requires at + |x| + |y| <= BSIZE
    ensures Overlay(Overlay(b, at, x), at + |x|, y) == Overlay(b, at, x + y)
  {
  }

  /** The image up to the n-th file entry, and how that entry extends it. */
  function Front(s: Summary, n: nat): seq<Byte>
    requires s.Valid() && n <= |s.finfos|
  {
    Words(HeaderWords(s)) + Words(s.inos) + FInfosImage(s.finfos[..n])
  }

  lemma FrontNext(s: Summary, n: nat)
    requires s.Valid() && n < |s.finfos|
    ensures Front(s, n + 1) == Front(s, n) + FInfoImage(s.finfos[n])
  {
    assert s.finfos[..n + 1][..n] == s.finfos[..n];
  }

  lemma {:induction false} FrontPrefix(s: Summary, n: nat)
    requires s.Valid() && n <= |s.finfos|
    ensures Front(s, n) <= Image(s)
    ensures Front(s, 0) == Words(HeaderWords(s)) + Words(s.inos) && Front(s, |s.finfos|) == Image(s)
    decreases |s.finfos| - n
  {
    assert s.finfos[..0] == [] && s.finfos[..|s.finfos|] == s.finfos;
    if n < |s.finfos| {
      FrontNext(s, n);
      FrontPrefix(s, n + 1);
    }
  }

  /** A buffer starts with `image` and continues with `part`. */
  lemma PartOf(b: seq<Byte>, image: seq<Byte>, part: seq<Byte>)
    requires image + part <= b
    ensures b[|image|..|image| + |part|] == part
  {
    assert (image + part)[|image|..] == part;
  }

  // ---- the list of files ----

  function IndexOf(fs: seq<FInfo>, ino: U32): (i: nat)
    ensures i <= |fs|
    ensures i < |fs| ==> fs[i].ino == ino
    ensures forall k | 0 <= k < i :: fs[k].ino != ino
  {
    if fs == [] || fs[0].ino == ino then 0 else 1 + IndexOf(fs[1..], ino)
  }

  ghost predicate DistinctInos(fs: seq<FInfo>) {
    forall i, j | 0 <= i < j < |fs| :: fs[i].ino != fs[j].ino
  }

  /** The logical and disk numbers recorded for a file, in order. */
  function BlocksOf(fs: seq<FInfo>, ino: U32): (seq<U32>, seq<U32>) {
    var i := IndexOf(fs, ino);
    if i < |fs| then (fs[i].lbn, fs[i].blocks) else ([], [])
  }

  /** One more block for a file: at the end of its entry, or in a new entry. */
  function Record(fs: seq<FInfo>, ino: U32, lbn: U32, block: U32, lastLength: U32): seq<FInfo> {
    var i := IndexOf(fs, ino);
    if i < |fs| then fs[i := fs[i].(lbn := fs[i].lbn + [lbn], blocks := fs[i].blocks + [block])]
    else fs + [FInfo(1, ino, lastLength, [lbn], [block])]
  }

  /** Recording appends to the one file and leaves every other file's list alone. */
  lemma RecordAppends(fs: seq<FInfo>, ino: U32, lbn: U32, block: U32, lastLength: U32, other: U32)
    requires DistinctInos(fs)
    ensures var next := Record(fs, ino, lbn, block, lastLength);
            && DistinctInos(next)
            && BlocksOf(next, other)
               == if other == ino then (BlocksOf(fs, ino).0 + [lbn], BlocksOf(fs, ino).1 + [block])
                  else BlocksOf(fs, other)
  {
    var next := Record(fs, ino, lbn, block, lastLength);
    var i, k, k' := IndexOf(fs, ino), IndexOf(fs, other), IndexOf(next, other);
    assert forall j | 0 <= j < |fs| :: next[j].ino == fs[j].ino;
    if k < |fs| {
      assert k' == k;
    } else if other == ino {
      assert next[|fs|].ino == ino;
      assert k' == |fs|;
      assert BlocksOf(fs, ino).0 + [lbn] == [lbn] && BlocksOf(fs, ino).1 + [block] == [block];
    } else {
      assert k' == |next|;
    }
  }

  lemma RecordGrows(fs: seq<FInfo>, ino: U32, lbn: U32, block: U32)
    ensures forall last: U32 :: Record(fs, ino, lbn, block, last) != fs
  {
    var i := IndexOf(fs, ino);
    forall last: U32 ensures Record(fs, ino, lbn, block, last) != fs {
      if i < |fs| {
        assert |Record(fs, ino, lbn, block, last)[i].lbn| == |fs[i].lbn| + 1;
      }
    }
  }

  /** The driver remembers, for all segments of all mounted file systems together, the segment
      number it recorded for last and a pointer to the entry it touched. */
  class FinfoCache {
    var snum: int
    var owner: SegSum?   // the summary whose entries `store` points into
    var store: nat

    constructor ()
      ensures snum == -1 && owner == null
    {
      snum, owner, store := -1, null, 0;
    }

    function Owners(): set<SegSum>
      reads this
    {
      if owner == null then {} else {owner}
    }
  }

  /** A segment summary in memory.  A new file entry keeps whatever length the array slot held. */
  class SegSum {
    var segnum: int
    var header: Header
    var inos: seq<U32>
    var fis: seq<FInfo>

    constructor (segnum: int, header: Header)
      ensures View() == Summary(header, [], []) && this.segnum == segnum
    {
      this.segnum, this.header, inos, fis := segnum, header, [], [];
    }

    function View(): Summary
      reads this
    {
      Summary(header, inos, fis)
    }

    /** The pointer in the cache points to an entry. */
    ghost predicate Consistent(cache: FinfoCache)
      reads this, cache, cache.owner
    {
      && DistinctInos(fis) && View().Valid()
      && (cache.owner != null ==>
            DistinctInos(cache.owner.fis) && cache.owner.View().Valid() && cache.store < |cache.owner.fis|)
    }

    predicate Hit(cache: FinfoCache, ino: U32)
      reads this, cache, cache.owner
      requires cache.owner != null ==> cache.store < |cache.owner.fis|
    {
      cache.owner != null && cache.snum == segnum && cache.owner.fis[cache.store].ino == ino
    }

    /** The cache matches segment number and file, but points into another summary: that of a
        segment with the same number on another mounted file system. */
    predicate Foreign(cache: FinfoCache, ino: U32)
      reads this, cache, cache.owner
      requires cache.owner != null ==> cache.store < |cache.owner.fis|
    {
      Hit(cache, ino) && cache.owner != this
    }

    /** The summary that the next block of a file is recorded in. */
    function Target(cache: FinfoCache, ino: U32): SegSum
      reads this, cache, cache.owner
      requires cache.owner != null ==> cache.store < |cache.owner.fis|
    {
      if Hit(cache, ino) then cache.owner else this
    }

    /** The arrays have room for one more block of a file. */
    predicate HasRoom(ino: U32)
      reads this
    {
      if IndexOf(fis, ino) < |fis| then |BlocksOf(fis, ino).0| < MAX_FI_BLOCKS else |fis| < MAX_FIS
    }

    /** Records one more block of a file, searching only when the cached entry is another's.  The
        block is recorded in this segment exactly when the cache is not foreign; otherwise the
        other file system's summary receives it and this one stays as it is. */
    method UpdateFinfo(cache: FinfoCache, ino: U32, lbn: U32, block: U32) returns (ghost lastLength: U32)
      requires Consistent(cache) && Target(cache, ino).HasRoom(ino)
      modifies this`fis, cache, cache.Owners()`fis
      ensures Consistent(cache) && cache.snum == segnum && cache.owner == old(Target(cache, ino))
      ensures cache.owner.fis == Record(old(Target(cache, ino).fis), ino, lbn, block, lastLength)
      ensures cache.owner.fis[cache.store].ino == ino
      ensures !old(Foreign(cache, ino)) <==> fis == Record(old(fis), ino, lbn, block, lastLength)
      ensures old(Foreign(cache, ino)) ==> fis == old(fis)
      ensures forall o | o in old(cache.Owners()) && o != cache.owner :: o.fis == old(o.fis)
    {
      hide Record, IndexOf;
      RecordGrows(fis, ino, lbn, block);
      if Hit(cache, ino) {
        lastLength := 0;
        cache.owner.AppendTo(cache.store, ino, lbn, block, lastLength);
        cache.snum := segnum;
      } else {
        var i;
        i, lastLength := SearchAndAppend(ino, lbn, block);
        cache.owner, cache.store, cache.snum := this, i, segnum;
      }
    }

    /** Without the cache: looks for the file's entry and appends to it or adds one. */
    method SearchAndAppend(ino: U32, lbn: U32, block: U32) returns (i: nat, ghost lastLength: U32)
      requires DistinctInos(fis) && View().Valid() && HasRoom(ino)
      modifies this`fis
      ensures fis == Record(old(fis), ino, lbn, block, lastLength)
      ensures DistinctInos(fis) && View().Valid() && i < |fis| && fis[i].ino == ino
    {
      i := 0;
      while i < |fis| && fis[i].ino != ino
        invariant i <= |fis| && forall k | 0 <= k < i :: fis[k].ino != ino
      {
        i := i + 1;
      }
      ghost var before := fis;
      assert i == IndexOf(before, ino);
      var slot: U32 := *;
      lastLength := slot;
      RecordAppends(fis, ino, lbn, block, lastLength, ino);
      if i < |fis| {
        AppendTo(i, ino, lbn, block, lastLength);
      } else {
        fis := fis + [FInfo(1, ino, slot, [lbn], [block])];
      }
    }

    /** Appends to an entry that was found. */
    method AppendTo(i: nat, ino: U32, lbn: U32, block: U32, ghost last: U32)
      requires DistinctInos(fis) && View().Valid() && HasRoom(ino) && i < |fis| && fis[i].ino == ino
      modifies this`fis
      ensures fis == Record(old(fis), ino, lbn, block, last)
      ensures DistinctInos(fis) && View().Valid() && i < |fis| && fis[i].ino == ino
    {
      assert i == IndexOf(fis, ino);
      RecordAppends(fis, ino, lbn, block, last, ino);
      fis := fis[i := fis[i].(lbn := fis[i].lbn + [lbn], blocks := fis[i].blocks + [block])];
    }

    /** Records an inode block, once. */
    method AddInob(block: U32)
      requires |inos| < MAX_INO_BLOCKS
      modifies this`inos
      ensures inos == if block in old(inos) then old(inos) else old(inos) + [block]
    {
      for i := 0 to |inos|
        invariant block !in inos[..i]
      {
        if inos[i] == block {
          return;
        }
      }
      inos := inos + [block];
    }

    /** Writes the summary to the front of its block; the rest of the block is kept. */
    method Write(data: array<Byte>)
      requires data.Length == BSIZE && View().Valid() && |Image(View())| <= BSIZE
      modifies data
      ensures data[..] == Overlay(old(data[..]), 0, Image(View()))
    {
      hide Words, Overlay, FInfoImage;
      ghost var was, s := data[..], View();
      FrontPrefix(s, 0);
      var p := CopyWords(data, 0,
                         [header.sumSum, header.dataSum, header.magic, header.next, header.create, |fis|, |inos|]);
      p := CopyWords(data, p, inos);
      OverlayMore(was, 0, Words(HeaderWords(s)), Words(inos));
      for i := 0 to |fis|
        invariant p == |Front(s, i)| <= BSIZE
        invariant data[..] == Overlay(was, 0, Front(s, i))
      {
        FrontPrefix(s, i + 1);
        FrontNext(s, i);
        OverlayMore(was, 0, Front(s, i), FInfoImage(fis[i]));
        p := WriteFInfo(data, p, fis[i]);
      }
    }

    /** Restores the summary from a block that holds the image of s. */
    method Read(data: array<Byte>, ghost s: Summary)
      requires s.Valid() && Image(s) <= data[..]
      modifies this
      ensures View() == s && segnum == old(segnum)
    {
      hide Words, FInfoImage, Image, FInfosImage;
      FrontPrefix(s, 0);
      PartOf(data[..], [], Words(HeaderWords(s)));
      var h := ReadWords(data, 0, 7, HeaderWords(s));
      header := Header(h[0], h[1], h[2], h[3], h[4]);
      var nfi, nino := h[5], h[6];
      PartOf(data[..], Words(HeaderWords(s)), Words(s.inos));
      inos := ReadWords(data, SEGSUM_SIZE, nino, s.inos);
      var p := SEGSUM_SIZE + DADDRT_SIZE * nino;
      fis := ReadFInfos(data, p, nfi, s);
    }
  }

  /** The parser's loop over the file infos. */
  method ReadFInfos(data: array<Byte>, p0: nat, nfi: nat, ghost s: Summary) returns (fis: seq<FInfo>)
    requires s.Valid() && nfi == |s.finfos| && Image(s) <= data[..] && p0 == |Front(s, 0)|
    ensures fis == s.finfos
  {
    hide Words, FInfoImage, Front, Image;
    var p := p0;
    fis := [];
    for i := 0 to nfi
      invariant fis == s.finfos[..i] && p == |Front(s, i)|
    {
      FrontPrefix(s, i + 1);
      FrontNext(s, i);
      PartOf(data[..], Front(s, i), FInfoImage(s.finfos[i]));
      var f;
      f, p := ReadFInfo(data, p, s.finfos[i]);
      fis := fis + [f];
    }
  }

  /** A summary that was written to a block is restored from it in full. */
  method WriteThenRead(a: SegSum, b: SegSum, data: array<Byte>)
    requires a != b && data.Length == BSIZE && a.View().Valid() && |Image(a.View())| <= BSIZE
    modifies b, data
    ensures b.View() == a.View()
  {
    a.Write(data);
    b.Read(data, a.View());
  }

  predicate HoldsOneFile(fs: seq<FInfo>, n: nat) {
    if n == 0 then fs == [] else |fs| == 1 && fs[0].ino == 5 && |fs[0].lbn| == |fs[0].blocks| == n
  }

  lemma OneFile(fs: seq<FInfo>, n: nat)
    requires HoldsOneFile(fs, n)
    ensures IndexOf(fs, 5) == 0 && DistinctInos(fs)
  {
  }

  lemma OneFileMore(fs: seq<FInfo>, n: nat, lbn: U32, block: U32, last: U32)
    requires HoldsOneFile(fs, n)
    ensures HoldsOneFile(Record(fs, 5, lbn, block, last), n + 1)
  {
    OneFile(fs, n);
  }

  /** Records blocks of one file in a new summary, as many as its entry has room for. */
  method RecordOneFile(header: Header, count: nat) returns (sum: SegSum)
    requires count <= MAX_FI_BLOCKS
    ensures fresh(sum) && sum.View().Valid() && sum.inos == [] && HoldsOneFile(sum.fis, count)
  {
    hide Image, IndexOf, DistinctInos;
    sum := new SegSum(1, header);
    var cache := new FinfoCache();
    var n := 0;
    OneFile(sum.fis, 0);
    while n < count
      invariant n <= count && fresh(sum) && fresh(cache) && fresh(cache.Owners()) && sum.Consistent(cache)
      invariant cache.owner == if n == 0 then null else sum
      invariant HoldsOneFile(sum.fis, n) && sum.inos == []
    {
      ghost var before := sum.fis;
      OneFile(before, n);
      ghost var last := sum.UpdateFinfo(cache, 5, n, n);
      OneFileMore(before, n, n, n, last);
      n := n + 1;
    }
  }

  /** Recording 123 blocks of one file, which a segment has room for, is enough to outgrow the
      summary's block. */
  method OutgrowsItsBlock(header: Header) returns (sum: SegSum)
    ensures sum.View().Valid() && |sum.View().finfos| == 1 && |Image(sum.View())| > BSIZE
  {
    hide Image;
    sum := RecordOneFile(header, 123);
    assert sum.fis[..0] == [];
    FullSegmentDoesNotFit(sum.View());
  }

  /** After 511 blocks of one file its entry has no room for another one. */
  method FillsItsEntry(header: Header) returns (sum: SegSum)
    ensures sum.View().Valid() && |sum.fis| == 1 && !sum.HasRoom(5)
  {
    hide Image, IndexOf;
    sum := RecordOneFile(header, MAX_FI_BLOCKS);
    OneFile(sum.fis, MAX_FI_BLOCKS);
  }

  predicate HoldsFiles(fs: seq<FInfo>, n: nat) {
    |fs| == n && forall k | 0 <= k < n :: fs[k].ino == k
  }

  lemma FilesMore(fs: seq<FInfo>, n: nat, lbn: U32, block: U32, last: U32)
    requires HoldsFiles(fs, n) && n < MAX_FIS
    ensures IndexOf(fs, n) == n && HoldsFiles(Record(fs, n, lbn, block, last), n + 1)
  {
  }

  /** One block each of 64 files, far fewer than a segment holds, leaves no room for any other file. */
  method FillsItsTable(header: Header) returns (sum: SegSum)
    ensures sum.View().Valid() && |sum.fis| == MAX_FIS && forall ino: U32 | ino >= MAX_FIS :: !sum.HasRoom(ino)
  {
    hide Image, IndexOf, DistinctInos;
    sum := new SegSum(1, header);
    var n := 0;
    assert DistinctInos(sum.fis) by { OneFile(sum.fis, 0); }
    while n < MAX_FIS
      invariant n <= MAX_FIS && fresh(sum) && sum.View().Valid() && DistinctInos(sum.fis)
      invariant HoldsFiles(sum.fis, n)
    {
      ghost var before := sum.fis;
      FilesMore(before, n, 0, n, 0);
      var i;
      ghost var last;
      i, last := sum.SearchAndAppend(n, 0, n);
      FilesMore(before, n, 0, n, last);
      n := n + 1;
    }
    forall ino: U32 | ino >= MAX_FIS ensures !sum.HasRoom(ino) {
      assert IndexOf(sum.fis, ino) == |sum.fis|;
    }
  }

  /** Two file systems whose current segments have the same number: the second one's block is
      recorded in the summary of the first, and its own summary misses it. */
  method ForeignCacheHit(header: Header) returns (first: SegSum, second: SegSum)
    ensures |first.fis| == 1 && first.fis[0].blocks == [10, 20] && second.fis == []
  {
    first := new SegSum(7, header);
    second := new SegSum(7, header);
    var cache := new FinfoCache();
    ghost var last := first.UpdateFinfo(cache, 5, 0, 10);
    last := second.UpdateFinfo(cache, 5, 1, 20);
  }

  /** A block holds the image of at most one summary. */
  lemma ImageDetermines(b: Block, s: Summary, t: Summary)
    requires s.Valid() && t.Valid() && Image(s) <= b && Image(t) <= b
    ensures s == t
  {
    hide Words, FInfoImage, Image;
    var hs, ht := HeaderWords(s), HeaderWords(t);
    FrontPrefix(s, 0);
    FrontPrefix(t, 0);
    PartOf(b, [], Words(hs));
    PartOf(b, [], Words(ht));
    SameWords(hs, ht);
    assert hs[5] == |s.finfos| && hs[6] == |s.inos|;
    PartOf(b, Words(hs), Words(s.inos));
    PartOf(b, Words(hs), Words(t.inos));
    SameWords(s.inos, t.inos);
    assert hs[0] == s.header.sumSum && hs[1] == s.header.dataSum && hs[2] == s.header.magic;
    assert hs[3] == s.header.next && hs[4] == s.header.create;
    SameFInfos(b, s, t, |s.finfos|);
    assert s.finfos[..|s.finfos|] == s.finfos && t.finfos[..|s.finfos|] == t.finfos;
  }

  lemma {:induction false} SameFInfos(b: Block, s: Summary, t: Summary, n: nat)
    requires s.Valid() && t.Valid() && Image(s) <= b && Image(t) <= b
    requires s.header == t.header && s.inos == t.inos && n <= |s.finfos| == |t.finfos|
    ensures s.finfos[..n] == t.finfos[..n]
  {
    hide Words, FInfoImage, FInfosImage, Image, Front, HeaderWords, FInfoWords;
    if n > 0 {
      SameFInfos(b, s, t, n - 1);
      FrontPrefix(s, n);
      FrontPrefix(t, n);
      FrontNext(s, n - 1);
      FrontNext(t, n - 1);
      var front, f, g := Front(s, n - 1), s.finfos[n - 1], t.finfos[n - 1];
      assert front == Front(t, n - 1) by { SameFront(s, t, n - 1); }
      PartOf(b, front, FInfoImage(f));
      PartOf(b, front, FInfoImage(g));
      SameFInfo(b, |front|, f, g);
      assert s.finfos[..n] == s.finfos[..n - 1] + [f] && t.finfos[..n] == t.finfos[..n - 1] + [g];
    }
  }

  lemma SameFront(s: Summary, t: Summary, n: nat)
    requires s.Valid() && t.Valid() && s.header == t.header && s.inos == t.inos
    requires n <= |s.finfos| == |t.finfos| && s.finfos[..n] == t.finfos[..n]
    ensures Front(s, n) == Front(t, n)
  {
  }

  lemma SameFInfo(b: Block, at: nat, f: FInfo, g: FInfo)
    requires f.Valid() && g.Valid() && at + |FInfoImage(f)| <= BSIZE && at + |FInfoImage(g)| <= BSIZE
    requires b[at..at + |FInfoImage(f)|] == FInfoImage(f) && b[at..at + |FInfoImage(g)|] == FInfoImage(g)
    ensures f == g
  {
    hide Words;
    Pieces(b, at, Words(FInfoWords(f)), Words(f.lbn), Words(f.blocks));
    Pieces(b, at, Words(FInfoWords(g)), Words(g.lbn), Words(g.blocks));
    SameWords(FInfoWords(f), FInfoWords(g));
    assert FInfoWords(f)[0] == |f.lbn| && FInfoWords(f)[1] == f.version && FInfoWords(f)[2] == f.ino
           && FInfoWords(f)[3] == f.lastLength;
    SameWords(f.lbn, g.lbn);
    SameWords(f.blocks, g.blocks);
  }

  lemma SameWords(ws: seq<U32>, vs: seq<U32>)
    requires |ws| == |vs| && Words(ws) == Words(vs)
    ensures ws == vs
  {
    forall i | 0 <= i < |ws| ensures ws[i] == vs[i] {
      WordsCell(ws, i);
      WordsCell(vs, i);
      assert FromLE(ToLE(ws[i])) == ws[i];
    }
  }

  method WriteFInfo(data: array<Byte>, at: nat, f: FInfo) returns (next: nat)
    requires data.Length == BSIZE && f.Valid() && at + |FInfoImage(f)| <= BSIZE
    modifies data
    ensures next == at + |FInfoImage(f)|
    ensures data[..] == Overlay(old(data[..]), at, FInfoImage(f))
  {
    hide Words, Overlay;
    ghost var was, head := data[..], Words(FInfoWords(f));
    OverlayMore(was, at, head, Words(f.lbn));
    OverlayMore(was, at, head + Words(f.lbn), Words(f.blocks));
    next := CopyWords(data, at, [|f.lbn|, f.version, f.ino, f.lastLength]);
    next := CopyWords(data, next, f.lbn);
    next := CopyWords(data, next, f.blocks);
  }

  method ReadFInfo(data: array<Byte>, at: nat, ghost f: FInfo) returns (r: FInfo, next: nat)
    requires f.Valid() && at + |FInfoImage(f)| <= data.Length
    requires data[at..at + |FInfoImage(f)|] == FInfoImage(f)
    ensures r == f && next == at + |FInfoImage(f)|
  {
    hide Words;
    Pieces(data[..], at, Words(FInfoWords(f)), Words(f.lbn), Words(f.blocks));
    var fi := ReadWords(data, at, 4, FInfoWords(f));
    var lbn := ReadWords(data, at + FINFOSIZE, fi[0], f.lbn);
    var blocks := ReadWords(data, at + FINFOSIZE + DADDRT_SIZE * fi[0], fi[0], f.blocks);
    r := FInfo(fi[1], fi[2], fi[3], lbn, blocks);
    next := at + FINFOSIZE + 2 * DADDRT_SIZE * fi[0];
  }

  lemma SliceOfSlice(b: seq<Byte>, at: nat, n: nat, p: nat, q: nat)
    requires at + n <= |b| && p <= q <= n
    ensures b[at + p..at + q] == b[at..at + n][p..q]
  {
    var s, t := b[at + p..at + q], b[at..at + n][p..q];
    forall k | 0 <= k < q - p ensures s[k] == t[k] {
      assert s[k] == b[at + (p + k)] == b[at..at + n][p + k];
    }
  }

  lemma Pieces(b: seq<Byte>, at: nat, x: seq<Byte>, y: seq<Byte>, z: seq<Byte>)
    requires at + |x + y + z| <= |b| && b[at..at + |x + y + z|] == x + y + z
    ensures b[at..at + |x|] == x
    ensures b[at + |x|..at + |x| + |y|] == y
    ensures b[at + |x| + |y|..at + |x| + |y| + |z|] == z
  {
    var image := b[at..at + |x + y + z|];
    assert image[..|x|] == x && image[|x|..|x| + |y|] == y && image[|x| + |y|..] == z;
    SliceOfSlice(b, at, |image|, |x|, |x| + |y|);
    SliceOfSlice(b, at, |image|, |x| + |y|, |image|);
  }

  /** `memcpy` of an array of 32-bit words; returns the cursor behind it. */
  method CopyWords(data: array<Byte>, at: nat, ws: seq<U32>) returns (next: nat)
    requires data.Length == BSIZE && at + 4 * |ws| <= BSIZE
    modifies data
    ensures next == at + 4 * |ws|
    ensures data[..] == Overlay(old(data[..]), at, Words(ws))
  {
    hide Words, Overlay;
    ghost var was := data[..];
    next := at;
    WordsPrefix(ws, 0);
    assert Overlay(was, at, Words(ws[..0])) == was by { NothingCopied(was, at); }
    for i := 0 to |ws|
      invariant next == at + 4 * i
      invariant data[..] == Overlay(was, at, Words(ws[..i]))
    {
      WordsPrefix(ws, i);
      OverlayMore(was, at, Words(ws[..i]), ToLE(ws[i]));
      CopyBytes(data, next, ToLE(ws[i]));
      next := next + 4;
    }
    assert ws[..|ws|] == ws;
  }

  lemma NothingCopied(b: Block, at: nat)
    requires at <= BSIZE
    ensures Overlay(b, at, []) == b
  {
  }

  method CopyBytes(data: array<Byte>, at: nat, s: seq<Byte>)
    requires data.Length == BSIZE && at + |s| <= BSIZE
    modifies data
    ensures data[..] == Overlay(old(data[..]), at, s)
  {
    for i := 0 to |s|
      invariant data[..at] == old(data[..at]) && data[at..at + i] == s[..i]
      invariant data[at + i..] == old(data[at + i..])
    {
      data[at + i] := s[i];
    }
  }

  lemma {:induction false} WordsPrefix(ws: seq<U32>, i: nat)
    requires i <= |ws|
    ensures Words(ws[..0]) == []
    ensures i < |ws| ==> Words(ws[..i + 1]) == Words(ws[..i]) + ToLE(ws[i])
  {
    if 0 < i < |ws| {
      WordsPrefix(ws[1..], i - 1);
      assert ws[..i + 1][1..] == ws[1..][..i] && ws[..i][1..] == ws[1..][..i - 1];
    }
  }

  lemma {:induction false} WordsCell(ws: seq<U32>, i: nat)
    requires i < |ws|
    ensures Words(ws)[4 * i..4 * i + 4] == ToLE(ws[i])
  {
    if i > 0 {
      WordsCell(ws[1..], i - 1);
      assert Words(ws)[4 * i..4 * i + 4] == Words(ws[1..])[4 * (i - 1)..4 * (i - 1) + 4];
    }
  }

  method ReadWords(data: array<Byte>, at: nat, n: nat, ghost expected: seq<U32>) returns (ws: seq<U32>)
    requires n == |expected| && at + 4 * n <= data.Length && data[at..at + 4 * n] == Words(expected)
    ensures ws == expected
  {
    ws := [];
    for i := 0 to n
      invariant ws == expected[..i]
    {
      WordsCell(expected, i);
      assert data[at + 4 * i..at + 4 * i + 4] == data[at..at + 4 * n][4 * i..4 * i + 4];
      ws := ws + [FromLE(data[at + 4 * i..at + 4 * i + 4])];
    }
  }
}
