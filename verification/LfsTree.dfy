/** The inode block tree (driver/logfs/tree.c) on top of the log.  An update changes the buffers of
    the index blocks on its path; the copy of one from an older segment goes to the log, where the
    path is linked to it, and the old block, changed or not, is abandoned. */
module LfsTree {
  import opened Bytes
  import opened LfsDisk
  import opened LfsLog
  import opened LfsPath

  const EIO := 5

  /** The pointer at the end of the chain q, zero when a block on the way is missing. */
  function Key(blocks: map<nat, Block>, data: seq<U32>, q: seq<nat>): U32
    requires |data| == N_BLOCKS && IsNode(q)
    decreases |q|
  {
    if |q| == 1 then data[q[0]]
    else
      var p := Key(blocks, data, q[..|q| - 1]);
      if p == 0 then 0 else Word(At(blocks, p), q[|q| - 1])
  }

  /** What the file's logical block i is mapped to. */
  function Lookup(s: Store, data: seq<U32>, i: nat): U32
    requires |data| == N_BLOCKS && i < MAX_BLOCKS
  {
    Key(s.blocks, data, PathOf(i))
  }

  /** Index blocks lie in handed-out space, and no index block is shared. */
  ghost predicate TreeOk(s: Store, data: seq<U32>) {
    && |data| == N_BLOCKS
    && (forall q | IsIndex(q) && Key(s.blocks, data, q) != 0 ::
          OnLog(s, Key(s.blocks, data, q)))
    && (forall q, r | IsIndex(q) && IsIndex(r) && Key(s.blocks, data, q) != 0
                      && Key(s.blocks, data, q) == Key(s.blocks, data, r) :: q == r)
  }

  ghost predicate OnLog(s: Store, b: nat) {
    b < s.frontier && !IsSummary(b) && b !in s.usage
  }

  /** The index block behind the pointer k, all zeros when there is none. */
  function Base(s: Store, k: nat): Block {
    if k == 0 then ZERO_BLOCK else At(s.blocks, k)
  }

  /** `was` are the keys along a path before an update.  From level lo down the path has been
      rebuilt: its keys are `now`, each index block is its old content with one pointer
      replaced, either in place or in a fresh block, and nothing else was touched. */
  ghost predicate Grafted(s0: Store, s1: Store, path: seq<nat>, was: seq<U32>, now: seq<U32>, lo: nat)
    requires IsLeaf(path) && |path| == |was| == |now|
  {
    && s0.start <= s1.start && s0.frontier <= s1.frontier && s0.usage <= s1.usage
    && (forall b | b in s1.usage && b !in s0.usage :: s0.frontier <= b)
    && (forall j | lo <= j < |path| - 1 ::
          && OnLog(s1, now[j]) && now[j] != 0
          && (now[j] == was[j] || s0.frontier <= now[j])
          && At(s1.blocks, now[j]) == SetWord(Base(s0, was[j]), path[j + 1], now[j + 1]))
    && (forall j, k | lo <= j < k < |path| - 1 :: now[j] != now[k])
    && (forall b: nat | b < s0.frontier && b !in s1.usage && !(IsSummary(b) && s0.start <= b)
                   && (forall j | lo <= j < |path| - 1 :: b != was[j]) ::
          At(s1.blocks, b) == At(s0.blocks, b))
  }

  lemma NothingGrafted(s: Store, path: seq<nat>, was: seq<U32>, now: seq<U32>)
    requires IsLeaf(path) && |path| == |was| == |now|
    ensures Grafted(s, s, path, was, now, |path| - 1)
  {
  }

  /** From s1 to s2 the index block k received `content`; it may have replaced the block
      `retired`.  Otherwise only the log head, the usage table and summaries moved on. */
  ghost predicate Placed(s1: Store, s2: Store, k: nat, content: Block, retired: nat) {
    && s1.start <= s2.start && s1.frontier <= s2.frontier && s1.usage <= s2.usage
    && (forall b | b in s2.usage && b !in s1.usage :: s1.frontier <= b)
    && OnLog(s2, k) && k != 0
    && (k == retired || s1.frontier <= k)
    && At(s2.blocks, k) == content
    && (forall b: nat | b != k && (b == 0 || b != retired) && b !in s2.usage && !(IsSummary(b) && s1.start <= b) ::
          At(s2.blocks, b) == At(s1.blocks, b))
  }

  /** Placing one more index block, k, extends the rebuilt part of the path by one level. */
  lemma GraftOneMore(s0: Store, s1: Store, s2: Store, path: seq<nat>, was: seq<U32>, now: seq<U32>, i: nat, k: U32)
    requires IsLeaf(path) && |path| == |was| == |now| && i < |path| - 1
    requires Grafted(s0, s1, path, was, now, i + 1)
    requires Placed(s1, s2, k, SetWord(Base(s0, was[i]), path[i + 1], now[i + 1]), was[i])
    requires was[i] == 0 || (was[i] < s0.frontier && forall j | i < j < |path| - 1 :: was[j] != was[i])
    ensures Grafted(s0, s2, path, was, now[i := k], i)
  {
    hide SetWord, Base, IsSummary;
    var next := now[i := k];
    forall j | i <= j < |path| - 1
      ensures OnLog(s2, next[j]) && next[j] != 0
      ensures next[j] == was[j] || s0.frontier <= next[j]
      ensures At(s2.blocks, next[j]) == SetWord(Base(s0, was[j]), path[j + 1], next[j + 1])
      ensures j > i ==> next[j] != k
    {
    }
    forall b: nat | b < s0.frontier && b !in s2.usage && !(IsSummary(b) && s0.start <= b)
                    && (forall j | i <= j < |path| - 1 :: b != was[j])
      ensures At(s2.blocks, b) == At(s0.blocks, b)
    {
    }
  }

  /** Along the rebuilt path the keys are `now`. */
  lemma {:induction false} GraftedOnPath(s0: Store, d0: seq<U32>, s1: Store, path: seq<nat>, was: seq<U32>,
                                         now: seq<U32>, n: nat)
    requires TreeOk(s0, d0) && IsLeaf(path) && |path| == |was| == |now|
    requires Grafted(s0, s1, path, was, now, 0)
    requires 0 < n <= |path|
    ensures Key(s1.blocks, d0[path[0] := now[0]], path[..n]) == now[n - 1]
  {
    if n > 1 {
      GraftedOnPath(s0, d0, s1, path, was, now, n - 1);
      assert path[..n][..n - 1] == path[..n - 1];
    }
  }

  /** Leaving the rebuilt path at level n: the pointer beside the replaced one is kept. */
  lemma GraftedSidestep(s0: Store, s1: Store, path: seq<nat>, was: seq<U32>, now: seq<U32>, n: nat, x: nat)
    requires IsLeaf(path) && |path| == |was| == |now| && 0 < n < |path|
    requires Grafted(s0, s1, path, was, now, 0)
    requires x < PTRS && x != path[n]
    ensures now[n - 1] != 0
    ensures Word(At(s1.blocks, now[n - 1]), x) == if was[n - 1] == 0 then 0 else Word(At(s0.blocks, was[n - 1]), x)
  {
    assert At(s1.blocks, now[n - 1]) == SetWord(Base(s0, was[n - 1]), path[n], now[n]);
    ZeroWord(x);
  }

  /** An index block off the rebuilt path was not touched. */
  lemma GraftedElsewhere(s0: Store, d0: seq<U32>, s1: Store, path: seq<nat>, was: seq<U32>, now: seq<U32>, r: seq<nat>)
    requires KeysOf(s0, d0, path, was) && |now| == |path|
    requires Grafted(s0, s1, path, was, now, 0)
    requires IsIndex(r) && !(r <= path) && Key(s0.blocks, d0, r) != 0
    ensures At(s1.blocks, Key(s0.blocks, d0, r)) == At(s0.blocks, Key(s0.blocks, d0, r))
  {
    var p := Key(s0.blocks, d0, r);
    forall j | 0 <= j < |path| - 1 ensures p != was[j] {
      assert IsIndex(path[..j + 1]);
    }
    assert OnLog(s0, p);
  }

  /** A node that leaves the rebuilt path with its last step. */
  lemma GraftedBranchOff(s0: Store, d0: seq<U32>, s1: Store, path: seq<nat>, was: seq<U32>, now: seq<U32>, n: nat,
                         x: nat)
    requires KeysOf(s0, d0, path, was) && |now| == |path|
    requires Grafted(s0, s1, path, was, now, 0)
    requires 0 < n < |path| && x < PTRS && x != path[n] && IsNode(path[..n] + [x])
    ensures Key(s1.blocks, d0[path[0] := now[0]], path[..n] + [x]) == Key(s0.blocks, d0, path[..n] + [x])
  {
    hide Grafted, TreeOk;
    var q, d1 := path[..n] + [x], d0[path[0] := now[0]];
    assert q[..|q| - 1] == path[..n];
    GraftedOnPath(s0, d0, s1, path, was, now, n);
    assert was[n - 1] == Key(s0.blocks, d0, path[..n - 1 + 1]);
    GraftedSidestep(s0, s1, path, was, now, n, x);
    KeyStep(s0.blocks, d0, q);
    KeyStep(s1.blocks, d1, q);
  }

  lemma KeyStep(blocks: map<nat, Block>, data: seq<U32>, q: seq<nat>)
    requires |data| == N_BLOCKS && IsNode(q) && |q| > 1
    ensures var p := Key(blocks, data, q[..|q| - 1]);
            Key(blocks, data, q) == if p == 0 then 0 else Word(At(blocks, p), q[|q| - 1])
  {
  }

  /** Off the rebuilt path every key is what it was. */
  lemma {:induction false} GraftedOffPath(s0: Store, d0: seq<U32>, s1: Store, path: seq<nat>, was: seq<U32>,
                                          now: seq<U32>, q: seq<nat>)
    requires KeysOf(s0, d0, path, was) && |now| == |path|
    requires Grafted(s0, s1, path, was, now, 0)
    requires IsNode(q) && !(q <= path)
    ensures Key(s1.blocks, d0[path[0] := now[0]], q) == Key(s0.blocks, d0, q)
    decreases |q|
  {
    hide Grafted, TreeOk, Key, Word;
    if |q| == 1 {
      KeyStart(s0.blocks, d0, q);
      KeyStart(s1.blocks, d0[path[0] := now[0]], q);
    } else {
      var r, x := q[..|q| - 1], q[|q| - 1];
      assert q == r + [x];
      if r <= path {
        assert r == path[..|r|] && |r| < |path| && x != path[|r|];
        GraftedBranchOff(s0, d0, s1, path, was, now, |r|, x);
      } else {
        GraftedOffPath(s0, d0, s1, path, was, now, r);
        if Key(s0.blocks, d0, r) != 0 {
          GraftedElsewhere(s0, d0, s1, path, was, now, r);
        }
        KeyStep(s0.blocks, d0, q);
        KeyStep(s1.blocks, d0[path[0] := now[0]], q);
      }
    }
  }

  lemma KeyStart(blocks: map<nat, Block>, data: seq<U32>, q: seq<nat>)
    requires |data| == N_BLOCKS && IsNode(q) && |q| == 1
    ensures Key(blocks, data, q) == data[q[0]]
  {
  }

  /** A rebuilt path leaves the tree unshared and on the log. */
  lemma GraftedTreeOk(s0: Store, d0: seq<U32>, s1: Store, path: seq<nat>, was: seq<U32>, now: seq<U32>)
    requires KeysOf(s0, d0, path, was) && |now| == |path|
    requires Grafted(s0, s1, path, was, now, 0)
    ensures TreeOk(s1, d0[path[0] := now[0]])
    ensures forall q | IsIndex(q) :: SameOrFresh(s0, d0, s1, d0[path[0] := now[0]], q)
  {
    var d1 := d0[path[0] := now[0]];
    forall q | IsIndex(q)
      ensures q <= path ==>
                |q| < |path| && Key(s1.blocks, d1, q) == now[|q| - 1] && Key(s0.blocks, d0, q) == was[|q| - 1]
      ensures !(q <= path) ==> Key(s1.blocks, d1, q) == Key(s0.blocks, d0, q)
    {
      if q <= path {
        assert q == path[..|q|];
        GraftedOnPath(s0, d0, s1, path, was, now, |q|);
        assert was[|q| - 1] == Key(s0.blocks, d0, path[..|q| - 1 + 1]);
      } else {
        GraftedOffPath(s0, d0, s1, path, was, now, q);
      }
    }
    forall q, r | IsIndex(q) && IsIndex(r) && Key(s1.blocks, d1, q) != 0
                  && Key(s1.blocks, d1, q) == Key(s1.blocks, d1, r)
      ensures q == r
    {
      if q <= path && r <= path {
        assert q == path[..|q|] && r == path[..|r|];
      }
    }
  }

  /** After a rebuilt path: the target block is mapped to its new place, every other block of
      the file to its old one. */
  lemma GraftedLookup(s0: Store, d0: seq<U32>, s1: Store, i: nat, was: seq<U32>, now: seq<U32>)
    requires i < MAX_BLOCKS && KeysOf(s0, d0, PathOf(i), was) && |now| == |was|
    requires Grafted(s0, s1, PathOf(i), was, now, 0)
    ensures Lookup(s1, d0[PathOf(i)[0] := now[0]], i) == now[|now| - 1]
    ensures forall j | 0 <= j < MAX_BLOCKS && j != i ::
              Lookup(s1, d0[PathOf(i)[0] := now[0]], j) == Lookup(s0, d0, j)
  {
    var path := PathOf(i);
    assert path[..|path|] == path;
    GraftedOnPath(s0, d0, s1, path, was, now, |path|);
    forall j | 0 <= j < MAX_BLOCKS && j != i
      ensures Lookup(s1, d0[path[0] := now[0]], j) == Lookup(s0, d0, j)
    {
      PathsDiverge(j, i);
      GraftedOffPath(s0, d0, s1, path, was, now, PathOf(j));
    }
  }

  /** The file's mapping was updated at logical block i only, and its tree is still in order.
      Blocks outside this tree, the usage table and open summaries are as they were. */
  ghost predicate Updated(s0: Store, d0: seq<U32>, s1: Store, d1: seq<U32>, i: nat, block: U32)
    requires |d0| == N_BLOCKS && i < MAX_BLOCKS
  {
    && TreeOk(s1, d1)
    && Lookup(s1, d1, i) == block
    && (forall j | 0 <= j < MAX_BLOCKS && j != i :: Lookup(s1, d1, j) == Lookup(s0, d0, j))
    && (forall q | IsIndex(q) :: SameOrFresh(s0, d0, s1, d1, q))
    && s0.start <= s1.start && s0.frontier <= s1.frontier && s0.usage <= s1.usage
    && (forall b | b in s1.usage && b !in s0.usage :: s0.frontier <= b)
    && (forall b: nat | b < s0.frontier && b !in s1.usage && !(IsSummary(b) && s0.start <= b)
                        && (forall q | IsIndex(q) :: Key(s0.blocks, d0, q) != b) ::
          At(s1.blocks, b) == At(s0.blocks, b))
  }

  /** An index block stays where it is or moves to a block the log handed out since. */
  ghost predicate SameOrFresh(s0: Store, d0: seq<U32>, s1: Store, d1: seq<U32>, q: seq<nat>)
    requires |d0| == |d1| == N_BLOCKS && IsNode(q)
  {
    Key(s1.blocks, d1, q) == Key(s0.blocks, d0, q) || s0.frontier <= Key(s1.blocks, d1, q)
  }

  /** The index blocks of two files have nothing in common. */
  ghost predicate Apart(s: Store, d: seq<U32>, e: seq<U32>)
    requires |d| == |e| == N_BLOCKS
  {
    forall q, r | IsIndex(q) && IsIndex(r) && Key(s.blocks, d, q) != 0 :: Key(s.blocks, d, q) != Key(s.blocks, e, r)
  }

  /** An update of one file leaves the mapping and the tree of every other file alone. */
  lemma OtherFileKept(s0: Store, d0: seq<U32>, s1: Store, d1: seq<U32>, i: nat, block: U32, e: seq<U32>)
    requires i < MAX_BLOCKS && TreeOk(s0, d0) && TreeOk(s0, e) && Apart(s0, d0, e)
    requires Updated(s0, d0, s1, d1, i, block)
    ensures TreeOk(s1, e) && Apart(s1, d1, e)
    ensures forall j | 0 <= j < MAX_BLOCKS :: Lookup(s1, e, j) == Lookup(s0, e, j)
  {
    OtherUpdateIsAside(s0, d0, s1, d1, i, block, e);
    AsideKeeps(s0, s1, e);
    forall q | IsNode(q) ensures Key(s1.blocks, e, q) == Key(s0.blocks, e, q) {
      UntouchedKey(s0, s1, e, q);
    }
    forall q, r | IsIndex(q) && IsIndex(r) && Key(s1.blocks, d1, q) != 0
      ensures Key(s1.blocks, d1, q) != Key(s1.blocks, e, r)
    {
      assert SameOrFresh(s0, d0, s1, d1, q);
    }
  }

  lemma LookupIsKey(s: Store, data: seq<U32>, j: nat)
    requires |data| == N_BLOCKS && j < MAX_BLOCKS
    ensures Lookup(s, data, j) == Key(s.blocks, data, PathOf(j))
  {
  }

  /** A new inode maps nothing. */
  lemma {:induction false} NewInodeEmpty(s: Store, data: seq<U32>, q: seq<nat>)
    requires |data| == N_BLOCKS && (forall k | 0 <= k < N_BLOCKS :: data[k] == 0) && IsNode(q)
    ensures Key(s.blocks, data, q) == 0
  {
    MissingBelow(s.blocks, data, q, 1);
  }

  /** Something happened beside a file: the log and the usage table may have grown, but none of the
      file's index blocks was touched. */
  ghost predicate Aside(s0: Store, s1: Store, data: seq<U32>)
    requires |data| == N_BLOCKS
  {
    && s0.start <= s1.start && s0.frontier <= s1.frontier && s0.usage <= s1.usage
    && (forall b | b in s1.usage && b !in s0.usage :: s0.frontier <= b)
    && (forall r | IsIndex(r) && Key(s0.blocks, data, r) != 0 ::
          At(s1.blocks, Key(s0.blocks, data, r)) == At(s0.blocks, Key(s0.blocks, data, r)))
  }

  /** What happens beside a file keeps its tree and its whole mapping. */
  lemma AsideKeeps(s0: Store, s1: Store, data: seq<U32>)
    requires TreeOk(s0, data) && Aside(s0, s1, data)
    ensures TreeOk(s1, data)
    ensures forall j | 0 <= j < MAX_BLOCKS :: Lookup(s1, data, j) == Lookup(s0, data, j)
  {
    hide Lookup;
    forall q | IsNode(q) ensures Key(s1.blocks, data, q) == Key(s0.blocks, data, q) {
      UntouchedKey(s0, s1, data, q);
    }
    forall j | 0 <= j < MAX_BLOCKS ensures Lookup(s1, data, j) == Lookup(s0, data, j) {
      LookupIsKey(s0, data, j);
      LookupIsKey(s1, data, j);
    }
  }

  /** An update of another file happens beside this one. */
  lemma OtherUpdateIsAside(s0: Store, d0: seq<U32>, s1: Store, d1: seq<U32>, i: nat, block: U32, e: seq<U32>)
    requires i < MAX_BLOCKS && TreeOk(s0, d0) && TreeOk(s0, e) && Apart(s0, d0, e)
    requires Updated(s0, d0, s1, d1, i, block)
    ensures Aside(s0, s1, e)
  {
    forall r | IsIndex(r) && Key(s0.blocks, e, r) != 0
      ensures At(s1.blocks, Key(s0.blocks, e, r)) == At(s0.blocks, Key(s0.blocks, e, r))
    {
      assert OnLog(s0, Key(s0.blocks, e, r));
    }
  }

  /** Writing data to the log, in place or at its head, happens beside every file, unless it
      overwrites an index block. */
  method WriteData(log: Log, data: seq<Byte>, off: nat, blocknr: nat, ghost file: seq<U32>) returns (newblock: nat)
    requires log.Valid() && TreeOk(log.State(), file)
    requires if blocknr != 0 && log.Contains(blocknr) then off + |data| <= BSIZE else off == 0 && |data| <= BSIZE
    requires forall r | IsIndex(r) :: Key(log.blocks, file, r) != blocknr || blocknr == 0
    modifies log
    ensures log.Valid() && Aside(old(log.State()), log.State(), file)
    ensures At(log.blocks, newblock) == Overlay(old(At(log.blocks, newblock)), off, data)
  {
    ghost var s0 := log.State();
    newblock := log.SegmentWriteBlock(data, off, blocknr);
    forall r | IsIndex(r) && Key(s0.blocks, file, r) != 0
      ensures At(log.blocks, Key(s0.blocks, file, r)) == At(s0.blocks, Key(s0.blocks, file, r))
    {
      assert OnLog(s0, Key(s0.blocks, file, r));
    }
  }

  /** A point in the life of a file: what the log looks like and what the inode holds. */
  datatype Point = Point(store: Store, data: seq<U32>)

  /** What happens between two points: an update of the file, or anything beside it. */
  datatype Act = Update(i: nat, block: U32) | Other

  /** Each point follows from the one before by one act. */
  ghost predicate IsHistory(points: seq<Point>, acts: seq<Act>) {
    && |points| == |acts| + 1
    && TreeOk(points[0].store, points[0].data)
    && (forall k | 0 <= k < |acts| :: |points[k].data| == N_BLOCKS && Follows(points[k], acts[k], points[k + 1]))
  }

  ghost predicate Follows(p: Point, act: Act, p': Point)
    requires |p.data| == N_BLOCKS
  {
    match act
    case Update(i, block) => i < MAX_BLOCKS && Updated(p.store, p.data, p'.store, p'.data, i, block)
    case Other => p'.data == p.data && Aside(p.store, p'.store, p.data)
  }

  /** The mapping as a plain map: the last update wins. */
  function LastUpdate(acts: seq<Act>, j: nat, initial: U32): U32 {
    if |acts| == 0 then initial
    else
      var act := acts[|acts| - 1];
      if act.Update? && act.i == j then act.block else LastUpdate(acts[..|acts| - 1], j, initial)
  }

  /** Over any run of updates, among log writes and updates of other files, the tree behaves like a
      map from logical to disk blocks. */
  lemma {:induction false} HistoryIsMap(points: seq<Point>, acts: seq<Act>, j: nat)
    requires IsHistory(points, acts) && j < MAX_BLOCKS
    ensures TreeOk(points[|acts|].store, points[|acts|].data)
    ensures Lookup(points[|acts|].store, points[|acts|].data, j)
            == LastUpdate(acts, j, Lookup(points[0].store, points[0].data, j))
  {
    hide Lookup, TreeOk, Updated, Aside, Follows;
    var n := |acts|;
    if n > 0 {
      var prior := acts[..n - 1];
      assert IsHistory(points[..n], prior);
      HistoryIsMap(points[..n], prior, j);
      var k := n - 1;
      assert Follows(points[k], acts[k], points[k + 1]);
      OneAct(points[k], acts[k], points[k + 1], j);
    }
  }

  lemma OneAct(p: Point, act: Act, p': Point, j: nat)
    requires TreeOk(p.store, p.data) && Follows(p, act, p') && j < MAX_BLOCKS
    ensures TreeOk(p'.store, p'.data)
    ensures Lookup(p'.store, p'.data, j)
            == if act.Update? && act.i == j then act.block else Lookup(p.store, p.data, j)
  {
    if act.Other? {
      AsideKeeps(p.store, p'.store, p.data);
    }
  }

  lemma GraftedUpdated(s0: Store, d0: seq<U32>, s1: Store, i: nat, was: seq<U32>, now: seq<U32>)
    requires i < MAX_BLOCKS && KeysOf(s0, d0, PathOf(i), was) && |now| == |was|
    requires Grafted(s0, s1, PathOf(i), was, now, 0)
    ensures Updated(s0, d0, s1, d0[PathOf(i)[0] := now[0]], i, now[|now| - 1])
  {
    GraftedLookup(s0, d0, s1, i, was, now);
    GraftedTreeOk(s0, d0, s1, PathOf(i), was, now);
    forall b: nat | b < s0.frontier && b !in s1.usage && !(IsSummary(b) && s0.start <= b)
                    && (forall q | IsIndex(q) :: Key(s0.blocks, d0, q) != b)
      ensures At(s1.blocks, b) == At(s0.blocks, b)
    {
      forall j | 0 <= j < |was| - 1 ensures b != was[j] {
        assert IsIndex(PathOf(i)[..j + 1]);
      }
    }
  }

  /** A file whose index blocks were not touched keeps its whole mapping. */
  lemma {:induction false} UntouchedKey(s0: Store, s1: Store, data: seq<U32>, q: seq<nat>)
    requires |data| == N_BLOCKS && IsNode(q)
    requires forall r | IsIndex(r) && Key(s0.blocks, data, r) != 0 ::
               At(s1.blocks, Key(s0.blocks, data, r)) == At(s0.blocks, Key(s0.blocks, data, r))
    ensures Key(s1.blocks, data, q) == Key(s0.blocks, data, q)
    decreases |q|
  {
    if |q| > 1 {
      UntouchedKey(s0, s1, data, q[..|q| - 1]);
      assert IsIndex(q[..|q| - 1]);
    }
  }

  /** The first n entries of the chain are the keys along the path. */
  ghost predicate KeysUpTo(blocks: map<nat, Block>, data: seq<U32>, path: seq<nat>, chain: seq<U32>, n: nat)
    requires |data| == N_BLOCKS && IsNode(path) && n <= |path| && n <= |chain|
  {
    forall k | 0 <= k < n :: chain[k] == Key(blocks, data, path[..k + 1])
  }

  lemma FirstKey(blocks: map<nat, Block>, data: seq<U32>, path: seq<nat>, chain: seq<U32>)
    requires |data| == N_BLOCKS && IsNode(path) && 0 < |chain| && chain[0] == data[path[0]]
    ensures KeysUpTo(blocks, data, path, chain, 1)
  {
  }

  lemma NextKey(blocks: map<nat, Block>, data: seq<U32>, path: seq<nat>, before: seq<U32>, chain: seq<U32>, n: nat)
    requires |data| == N_BLOCKS && IsNode(path) && 0 < n < |path| && n < |chain| == |before|
    requires KeysUpTo(blocks, data, path, before, n) && before[n - 1] != 0
    requires chain == before[n := Word(At(blocks, before[n - 1]), path[n])]
    ensures KeysUpTo(blocks, data, path, chain, n + 1)
  {
    assert path[..n + 1][..n] == path[..n - 1 + 1];
  }

  /** The index blocks along a path lie in a segment or behind it. */
  ghost predicate Recent(s: Store, data: seq<U32>, path: seq<nat>, start: nat)
    requires |data| == N_BLOCKS && IsLeaf(path)
  {
    forall n | 1 <= n < |path| :: start <= Key(s.blocks, data, path[..n])
  }

  /** A rebuilt path has left the old segments: what is not in the current segment is copied. */
  lemma GraftedRecent(s0: Store, d0: seq<U32>, s1: Store, path: seq<nat>, was: seq<U32>, now: seq<U32>)
    requires |d0| == N_BLOCKS && IsLeaf(path) && |path| == |was| == |now| && Grafted(s0, s1, path, was, now, 0)
    requires TreeOk(s0, d0) && forall k | 0 <= k < |path| - 1 :: s0.start <= now[k]
    ensures Recent(s1, d0[path[0] := now[0]], path, s0.start)
  {
    hide Grafted, TreeOk;
    forall n | 1 <= n < |path| ensures s0.start <= Key(s1.blocks, d0[path[0] := now[0]], path[..n]) {
      GraftedOnPath(s0, d0, s1, path, was, now, n);
    }
  }

  class Inode {
    const iData: array<U32>

    constructor ()
      ensures fresh(iData) && iData.Length == N_BLOCKS
      ensures forall k | 0 <= k < N_BLOCKS :: iData[k] == 0
    {
      iData := new U32[N_BLOCKS](_ => 0);
    }

    /** Reads the chain of pointers along `offsets`; `partial` is the first zero one, or -1. */
    method GetBranch(log: Log, depth: nat, offsets: array<nat>, chain: array<U32>) returns (partial: int)
      requires iData.Length == N_BLOCKS && offsets.Length == 4 && chain.Length == 4
      requires chain != iData && 1 <= depth <= 4 && IsLeaf(offsets[..depth])
      modifies chain
      ensures -1 <= partial < depth
      ensures KeysUpTo(log.blocks, iData[..], offsets[..depth], chain[..], if partial == -1 then depth else partial + 1)
      ensures forall k | 0 <= k < (if partial == -1 then depth else partial) :: chain[k] != 0
      ensures partial != -1 ==> chain[partial] == 0
    {
      hide Key, KeysUpTo, Word;
      var p := 0;
      ghost var path := offsets[..depth];
      chain[0] := iData[offsets[0]];
      FirstKey(log.blocks, iData[..], path, chain[..]);
      if chain[0] == 0 {
        return 0;
      }
      while p + 1 < depth
        invariant 0 <= p < depth
        invariant offsets[..depth] == path
        invariant KeysUpTo(log.blocks, iData[..], path, chain[..], p + 1)
        invariant forall k | 0 <= k <= p :: chain[k] != 0
      {
        p := p + 1;
        ghost var before := chain[..];
        chain[p] := Word(At(log.blocks, chain[p - 1]), offsets[p]);
        NextKey(log.blocks, iData[..], path, before, chain[..], p);
        if chain[p] == 0 {
          return p;
        }
      }
      partial := -1;
    }

    /** The disk block of a logical block, zero when it has none. */
    method DiskBlock(log: Log, iblock: nat) returns (b: U32)
      requires iData.Length == N_BLOCKS && iblock < MAX_BLOCKS
      ensures b == Lookup(log.State(), iData[..], iblock)
    {
      var offsets, chain := new nat[4](_ => 0), new U32[4](_ => 0);
      var depth, boundary := BlockToPath(iblock, offsets);
      var partial := GetBranch(log, depth, offsets, chain);
      if partial == -1 {
        assert offsets[..depth][..depth - 1 + 1] == PathOf(iblock);
        return chain[depth - 1];
      }
      MissingBelow(log.blocks, iData[..], PathOf(iblock), partial + 1);
      b := 0;
    }

    /** Takes the next block of the log as a new index block that holds one pointer. */
    method NewIndexBlock(log: Log, cell: nat, key: U32, maxUsage: nat) returns (nr: nat)
      requires log.Valid() && cell < PTRS
      modifies log
      ensures log.Valid() && log.start <= old(log.start) + Advance(1, maxUsage)
      ensures Placed(old(log.State()), log.State(), nr, SetWord(ZERO_BLOCK, cell, key), 0)
      ensures nr < old(log.end) && nr == old(log.start + log.offset)
    {
      nr := log.SegmentGetNextBlock();
      log.UsageUpdate(maxUsage);
      log.blocks := log.blocks[nr := SetWord(ZERO_BLOCK, cell, key)];
    }

    /** Replaces one pointer of the index block b: in place when b lies in the current
        segment, otherwise in a copy appended to the log. */
    method RelinkIndexBlock(log: Log, b: nat, cell: nat, key: U32, maxUsage: nat) returns (nr: nat)
      requires log.Valid() && cell < PTRS && OnLog(log.State(), b) && b != 0
      modifies log
      ensures log.Valid() && log.start <= old(log.start) + Advance(1, maxUsage)
      ensures Placed(old(log.State()), log.State(), nr, SetWord(old(At(log.blocks, b)), cell, key), b)
      ensures nr < old(log.end) && nr == if old(log.Contains(b)) then b else old(log.start + log.offset)
    {
      var inSegment := log.Contains(b);
      var buf := SetWord(At(log.blocks, b), cell, key);
      log.blocks := log.blocks[b := buf];
      nr := b;
      if !inSegment {
        nr := log.WriteAtHead(buf);
        assert At(log.blocks, nr) == buf;
        log.UsageUpdate(maxUsage);
      }
    }

    /** Allocates the missing index blocks of a path, from the data block upwards: each is
        zeroed except for the pointer to the one below it.  The branch starts at chain[base];
        the pointer to its topmost block is left there. */
    method AllocBranch(log: Log, num: nat, goal: U32, path: seq<nat>, base: nat, chain: array<U32>, maxUsage: nat,
                       ghost was: seq<U32>)
      requires log.Valid() && chain.Length == 4
      requires 1 <= num && base + num == |path| == |was| <= 4 && IsLeaf(path)
      requires forall k | base <= k < |path| - 1 :: was[k] == 0
      requires log.end + Advance(num - 1, maxUsage) <= DEVICE_LIMIT
      modifies log, chain
      ensures log.Valid() && log.start <= old(log.start) + Advance(num - 1, maxUsage)
      ensures chain[..base] == old(chain[..base]) && chain[|path| - 1] == goal
      ensures Grafted(old(log.State()), log.State(), path, was, chain[..|path|], base)
      ensures old(log.start) <= log.start && forall k | base <= k < |path| - 1 :: old(log.start) <= chain[k]
    {
      hide Grafted;
      ghost var s0 := log.State();
      var n := num - 1;
      chain[base + n] := goal;
      NothingGrafted(s0, path, was, chain[..|path|]);
      while n > 0
        invariant 0 <= n < num && log.Valid()
        invariant log.start + Advance(n, maxUsage) <= s0.start + Advance(num - 1, maxUsage)
        invariant chain[..base] == old(chain[..base]) && chain[|path| - 1] == goal
        invariant Grafted(s0, log.State(), path, was, chain[..|path|], base + n)
        invariant s0.start <= log.start && forall k | base + n <= k < |path| - 1 :: s0.start <= chain[k]
      {
        AllocLevel(log, path, base + n, chain, maxUsage, s0, was);
        n := n - 1;
      }
    }

    /** One round of the loop above: a new index block for level j - 1. */
    method AllocLevel(log: Log, path: seq<nat>, j: nat, chain: array<U32>, maxUsage: nat, ghost s0: Store,
                      ghost was: seq<U32>)
      requires log.Valid() && chain.Length == 4
      requires 0 < j < |path| == |was| <= 4 && IsLeaf(path) && was[j - 1] == 0
      requires log.end <= DEVICE_LIMIT
      requires Grafted(s0, log.State(), path, was, chain[..|path|], j)
      modifies log, chain
      ensures log.Valid() && log.start <= old(log.start) + Advance(1, maxUsage)
      ensures chain[..] == old(chain[..])[j - 1 := chain[j - 1]]
      ensures Grafted(s0, log.State(), path, was, chain[..|path|], j - 1)
      ensures old(log.start) <= log.start && old(log.start) <= chain[j - 1]
    {
      ghost var s1, now := log.State(), chain[..|path|];
      var nr := NewIndexBlock(log, path[j], chain[j], maxUsage);
      chain[j - 1] := nr;
      GraftOneMore(s0, s1, log.State(), path, was, now, j - 1, nr);
      assert chain[..|path|] == now[j - 1 := nr];
    }

    /** Re-links the existing index blocks above chain[top], from the bottom up. */
    method LinkBranch(log: Log, top: nat, path: seq<nat>, chain: array<U32>, maxUsage: nat,
                      ghost s0: Store, ghost d0: seq<U32>, ghost was: seq<U32>)
      requires log.Valid() && chain.Length == 4
      requires top < |path| == |was| <= 4 && IsLeaf(path)
      requires KeysOf(s0, d0, path, was) && chain[..top] == was[..top] && 0 !in was[..top]
      requires Grafted(s0, log.State(), path, was, chain[..|path|], top)
      requires log.end + Advance(top, maxUsage) <= DEVICE_LIMIT
      modifies log, chain
      ensures log.Valid()
      ensures chain[top..] == old(chain[top..])
      ensures Grafted(s0, log.State(), path, was, chain[..|path|], 0)
      ensures forall k | 0 <= k < top :: old(log.start) <= chain[k]
    {
      hide Grafted, KeysOf;
      var i: int := top;
      while i > 0
        invariant 0 <= i <= top && log.Valid()
        invariant log.start + Advance(i, maxUsage) <= old(log.start) + Advance(top, maxUsage)
        invariant chain[..i] == was[..i] && chain[top..] == old(chain[top..])
        invariant old(log.start) <= log.start && forall k | i <= k < top :: old(log.start) <= chain[k]
        invariant Grafted(s0, log.State(), path, was, chain[..|path|], i)
      {
        i := i - 1;
        LinkLevel(log, i, path, chain, maxUsage, s0, d0, was);
      }
    }

    /** One round of the re-linking loop: the index block at level i points to chain[i + 1]. */
    method LinkLevel(log: Log, i: nat, path: seq<nat>, chain: array<U32>, maxUsage: nat,
                     ghost s0: Store, ghost d0: seq<U32>, ghost was: seq<U32>)
      requires log.Valid() && chain.Length == 4
      requires i + 1 < |path| == |was| <= 4 && IsLeaf(path)
      requires KeysOf(s0, d0, path, was) && chain[i] == was[i] != 0
      requires Grafted(s0, log.State(), path, was, chain[..|path|], i + 1)
      requires log.end <= DEVICE_LIMIT
      modifies log, chain
      ensures log.Valid() && log.start <= old(log.start) + Advance(1, maxUsage)
      ensures chain[..] == old(chain[..])[i := chain[i]]
      ensures Grafted(s0, log.State(), path, was, chain[..|path|], i)
      ensures old(log.start) <= log.start && old(log.start) <= chain[i]
    {
      ghost var s1, now := log.State(), chain[..|path|];
      OldLevel(s0, d0, s1, path, was, now, i);
      var nr := RelinkIndexBlock(log, chain[i], path[i + 1], chain[i + 1], maxUsage);
      chain[i] := nr;
      GraftOneMore(s0, s1, log.State(), path, was, now, i, nr);
      assert chain[..|path|] == now[i := nr];
    }

    /** Maps logical block `iblock` to disk block `block`, growing the tree as needed.  The
        usage table may append up to maxUsage blocks after each block that is allocated. */
    method UpdateInode(log: Log, iblock: int, block: U32, maxUsage: nat) returns (err: int)
      requires log.Valid() && iData.Length == N_BLOCKS && TreeOk(log.State(), iData[..])
      requires log.end + Advance(4, maxUsage) <= DEVICE_LIMIT
      modifies log, iData
      ensures log.Valid()
      ensures !(0 <= iblock < MAX_BLOCKS) ==>
                err == -5 && log.State() == old(log.State()) && iData[..] == old(iData[..])
      ensures 0 <= iblock < MAX_BLOCKS ==>
                err == 0 && Updated(old(log.State()), old(iData[..]), log.State(), iData[..], iblock, block)
      ensures 0 <= iblock < MAX_BLOCKS ==> Recent(log.State(), iData[..], PathOf(iblock), old(log.start))
    {
      hide Grafted, Updated, TreeOk;
      var offsets, chain := new nat[4](_ => 0), new U32[4](_ => 0);
      var depth, boundary := BlockToPath(iblock, offsets);
      if depth == 0 {
        return -EIO;
      }
      var path := offsets[..depth];
      ghost var s0, d0 := log.State(), iData[..];
      ghost var was := KeysAlong(s0.blocks, d0, path);
      var partial := GetBranch(log, depth, offsets, chain);
      if path[0] < NDIR {
        iData[path[0]] := block;
        GraftedUpdated(s0, d0, s0, iblock, was, [block]);
        return 0;
      }
      BranchKeys(s0, d0, path, was, chain[..], partial);
      if partial == -1 {
        partial := depth - 1;
      }
      Rebuild(log, path, partial, block, chain, maxUsage, d0, was);
      iData[path[0]] := chain[0];
      GraftedUpdated(s0, d0, log.State(), iblock, was, chain[..depth]);
      assert iData[..] == d0[path[0] := chain[0]];
      GraftedRecent(s0, d0, log.State(), path, was, chain[..depth]);
      err := 0;
    }

    /** Allocates what is missing below chain[partial] and re-links what exists above it. */
    method Rebuild(log: Log, path: seq<nat>, partial: nat, block: U32, chain: array<U32>, maxUsage: nat,
                   ghost d0: seq<U32>, ghost was: seq<U32>)
      requires log.Valid() && chain.Length == 4 && partial < |path| == |was| <= 4
      requires KeysOf(log.State(), d0, path, was)
      requires chain[..partial] == was[..partial] && 0 !in was[..partial]
      requires forall k | partial <= k < |path| - 1 :: was[k] == 0
      requires log.end + Advance(4, maxUsage) <= DEVICE_LIMIT
      modifies log, chain
      ensures log.Valid() && chain[|path| - 1] == block
      ensures Grafted(old(log.State()), log.State(), path, was, chain[..|path|], 0)
      ensures forall k | 0 <= k < |path| - 1 :: old(log.start) <= chain[k]
    {
      hide Grafted, TreeOk;
      ghost var s0 := log.State();
      AllocBranch(log, |path| - partial, block, path, partial, chain, maxUsage, was);
      LinkBranch(log, partial, path, chain, maxUsage, s0, d0, was);
    }
  }

  /** `was` are the keys along a full path of a tree that is in order. */
  ghost predicate KeysOf(s: Store, data: seq<U32>, path: seq<nat>, was: seq<U32>) {
    && |data| == N_BLOCKS && TreeOk(s, data) && IsLeaf(path) && |was| == |path|
    && forall k | 0 <= k < |path| :: was[k] == Key(s.blocks, data, path[..k + 1])
  }

  /** What GetBranch leaves in the chain, compared with all the keys along the path. */
  lemma BranchKeys(s: Store, data: seq<U32>, path: seq<nat>, was: seq<U32>, chain: seq<U32>, partial: int)
    requires KeysOf(s, data, path, was) && |path| <= |chain| && -1 <= partial < |path|
    requires KeysUpTo(s.blocks, data, path, chain, if partial == -1 then |path| else partial + 1)
    requires forall k | 0 <= k < (if partial == -1 then |path| else partial) :: chain[k] != 0
    requires partial != -1 ==> chain[partial] == 0
    ensures var top := if partial == -1 then |path| - 1 else partial;
            && chain[..top] == was[..top] && 0 !in was[..top]
            && forall k | top <= k < |path| - 1 :: was[k] == 0
  {
    if partial != -1 {
      forall k | partial <= k < |path| - 1 ensures was[k] == 0 {
        assert path[..k + 1][..partial + 1] == path[..partial + 1];
        MissingBelow(s.blocks, data, path[..k + 1], partial + 1);
      }
    }
  }

  /** How far `n` allocations and the usage updates after them can push the log. */
  function Advance(n: nat, maxUsage: nat): nat {
    if n == 0 then 0 else SEG_BLOCKS + maxUsage * SEG_BLOCKS + Advance(n - 1, maxUsage)
  }

  function KeysAlong(blocks: map<nat, Block>, data: seq<U32>, path: seq<nat>): (was: seq<U32>)
    requires |data| == N_BLOCKS && IsNode(path)
    ensures |was| == |path|
    ensures forall k | 0 <= k < |path| :: was[k] == Key(blocks, data, path[..k + 1])
    decreases |path|
  {
    if |path| == 1 then
      assert path[..1] == path;
      [Key(blocks, data, path)]
    else
      var rest := path[..|path| - 1];
      assert forall k {:trigger rest[..k + 1]} | 0 <= k < |rest| :: path[..k + 1] == rest[..k + 1];
      assert path[..|path|] == path;
      KeysAlong(blocks, data, rest) + [Key(blocks, data, path)]
  }

  /** While the levels below are rebuilt, the index block at level i still has its content. */
  lemma OldLevel(s0: Store, d0: seq<U32>, s1: Store, path: seq<nat>, was: seq<U32>, now: seq<U32>, i: nat)
    requires KeysOf(s0, d0, path, was) && |now| == |path| && i < |path| - 1
    requires was[i] != 0 && Grafted(s0, s1, path, was, now, i + 1)
    ensures OnLog(s1, was[i]) && was[i] < s0.frontier && At(s1.blocks, was[i]) == At(s0.blocks, was[i])
    ensures forall j | i < j < |path| - 1 :: was[j] != was[i]
  {
    assert IsIndex(path[..i + 1]) && OnLog(s0, was[i]);
    forall j | i < j < |path| - 1 ensures was[j] != was[i] {
      assert IsIndex(path[..j + 1]);
    }
  }

  /** Below a zero pointer every pointer reads as zero. */
  lemma {:induction false} MissingBelow(blocks: map<nat, Block>, data: seq<U32>, q: seq<nat>, n: nat)
    requires |data| == N_BLOCKS && IsNode(q) && 0 < n <= |q|
    requires Key(blocks, data, q[..n]) == 0
    ensures Key(blocks, data, q) == 0
    decreases |q|
  {
    if n < |q| {
      assert q[..|q| - 1][..n] == q[..n];
      MissingBelow(blocks, data, q[..|q| - 1], n);
    } else {
      assert q[..n] == q;
    }
  }
}
