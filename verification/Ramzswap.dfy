/** The compressed RAM swap device (driver/compcache/ramzswap.c): a table with one slot per
    page that points to a heap buffer with the page, compressed when that makes it smaller. */
module Ramzswap {
  import opened Bytes

  const PAGE_SIZE := 4096
  const SECTORS_PER_PAGE := 8
  const SECTOR_SIZE := 512
  const DEFAULT_DISKSIZE_PERC_RAM := 25

  type Page = s: seq<Byte> | |s| == PAGE_SIZE witness Zeros(PAGE_SIZE)
  type Ptr = nat

  const ZERO_PAGE: Page := Zeros(PAGE_SIZE)

  /** The compressor as the driver sees it.  Either call may fail; what was compressed
      decompresses to itself. */
  datatype Lzo = Lzo(compress: Page -> Option<seq<Byte>>, decompress: seq<Byte> -> Option<Page>) {
    ghost predicate Inverse() {
      forall p: Page :: compress(p).Some? ==> decompress(compress(p).value) == Some(p)
    }
  }

  datatype Slot = Slot(pagepos: Ptr, inUse: bool, uncompressed: bool, size: nat)

  datatype Direction = Read | Write

  /** A block I/O request: one segment of one page is all the device serves. */
  datatype Bio = Bio(sector: nat, vcnt: nat, size: nat, offset: nat, dir: Direction, page: Page)

  /** How a request ended: with an error, or with the page that was read or written. */
  datatype Outcome = IoError | Done(page: Page)

  /** The disk size in bytes: the module parameter or a share of the memory, in whole pages. */
  function DiskSize(disksizeKb: nat, totalRamBytes: nat): (size: nat)
    ensures size % 4096 == 0
    ensures disksizeKb != 0 ==> size <= 1024 * disksizeKb < size + 4096
    ensures disksizeKb == 0 ==> 100 * size <= 25 * totalRamBytes < 100 * size + 100 * 4096 + 2500
  {
    var bytes := if disksizeKb != 0 then disksizeKb * 1024 else DEFAULT_DISKSIZE_PERC_RAM * (totalRamBytes / 100);
    bytes - bytes % PAGE_SIZE
  }

  // ---- the device as an array of pages ----

  /** A page is stored if it compresses and there is memory for it. */
  predicate Stored(lzo: Lzo, page: Page, memory: bool) {
    lzo.compress(page).Some? && memory
  }

  /** What a request does to the pages, given whether there is memory.  A write that fails leaves the
      page empty. */
  function Serve(lzo: Lzo, pages: seq<Page>, bio: Bio, memory: bool): (seq<Page>, Outcome) {
    if !ValidRequest(bio, |pages| * PAGE_SIZE) then (pages, IoError)
    else
      var index := bio.sector / SECTORS_PER_PAGE;
      IndexInTable(bio, |pages| * PAGE_SIZE);
      if bio.dir.Read? then (pages, Done(pages[index]))
      else if Stored(lzo, bio.page, memory) then (pages[index := bio.page], Done(bio.page))
      else (pages[index := ZERO_PAGE], IoError)
  }

  predicate ValidRequest(bio: Bio, disksize: nat) {
    && bio.sector < disksize / SECTOR_SIZE
    && bio.sector % SECTORS_PER_PAGE == 0
    && bio.vcnt == 1
    && bio.size == PAGE_SIZE
    && bio.offset == 0
  }

  /** A request is valid exactly if it is about the whole of one page of the disk, as one segment;
      so it addresses a slot of the table. */
  lemma IndexInTable(bio: Bio, disksize: nat)
    requires disksize % PAGE_SIZE == 0
    ensures ValidRequest(bio, disksize) <==>
              exists index: nat | index < disksize / 4096 ::
                bio == Bio(8 * index, 1, 4096, 0, bio.dir, bio.page) && bio.sector / SECTORS_PER_PAGE == index
    ensures ValidRequest(bio, disksize) ==>
              bio.sector / SECTORS_PER_PAGE < disksize / PAGE_SIZE && bio.sector == 8 * (bio.sector / SECTORS_PER_PAGE)
  {
    var index := bio.sector / SECTORS_PER_PAGE;
    assert disksize / SECTOR_SIZE == 8 * (disksize / 4096);
    if ValidRequest(bio, disksize) {
      assert bio == Bio(8 * index, 1, 4096, 0, bio.dir, bio.page) && index < disksize / 4096;
    }
  }

  /** The pages after a run of requests. */
  function Run(lzo: Lzo, pages: seq<Page>, bios: seq<Bio>, memory: seq<bool>): seq<Page>
    requires |bios| == |memory|
  {
    if bios == [] then pages
    else
      var n := |bios| - 1;
      Serve(lzo, Run(lzo, pages, bios[..n], memory[..n]), bios[n], memory[n]).0
  }

  /** The content of a page after a run: that of the last valid write to it, zeros if that
      write failed, its first content if there was none. */
  function LastWritten(lzo: Lzo, initial: Page, size: nat, bios: seq<Bio>, memory: seq<bool>, index: nat): Page
    requires |bios| == |memory|
  {
    if bios == [] then initial
    else
      var n := |bios| - 1;
      var bio := bios[n];
      if ValidRequest(bio, size * PAGE_SIZE) && bio.dir.Write? && bio.sector / SECTORS_PER_PAGE == index then
        if Stored(lzo, bio.page, memory[n]) then bio.page else ZERO_PAGE
      else LastWritten(lzo, initial, size, bios[..n], memory[..n], index)
  }

  lemma {:induction false} RunIsLastWritten(lzo: Lzo, pages: seq<Page>, bios: seq<Bio>, memory: seq<bool>, index: nat)
    requires |bios| == |memory| && index < |pages|
    ensures |Run(lzo, pages, bios, memory)| == |pages|
    ensures Run(lzo, pages, bios, memory)[index] == LastWritten(lzo, pages[index], |pages|, bios, memory, index)
  {
    if bios != [] {
      var n := |bios| - 1;
      RunIsLastWritten(lzo, pages, bios[..n], memory[..n], index);
    }
  }

  /** What the i-th request of a run answers: an invalid one fails, a read gets the page that was
      last written, and a write succeeds exactly if it could be stored. */
  ghost predicate Answers(lzo: Lzo, initial: seq<Page>, bios: seq<Bio>, memory: seq<bool>, i: nat, outcome: Outcome)
    requires i < |bios| == |memory|
  {
    var bio := bios[i];
    if !ValidRequest(bio, |initial| * PAGE_SIZE) then outcome == IoError
    else
      IndexInTable(bio, |initial| * PAGE_SIZE);
      var index := bio.sector / SECTORS_PER_PAGE;
      if bio.dir.Read? then
        outcome == Done(LastWritten(lzo, initial[index], |initial|, bios[..i], memory[..i], index))
      else outcome == if Stored(lzo, bio.page, memory[i]) then Done(bio.page) else IoError
  }

  /** Serving a request after those before it answers as promised. */
  lemma RunAnswers(lzo: Lzo, initial: seq<Page>, bios: seq<Bio>, memory: seq<bool>, i: nat)
    requires i < |bios| == |memory|
    ensures Answers(lzo, initial, bios, memory, i,
                    Serve(lzo, Run(lzo, initial, bios[..i], memory[..i]), bios[i], memory[i]).1)
  {
    var bio := bios[i];
    if ValidRequest(bio, |initial| * PAGE_SIZE) {
      IndexInTable(bio, |initial| * PAGE_SIZE);
      RunIsLastWritten(lzo, initial, bios[..i], memory[..i], bio.sector / SECTORS_PER_PAGE);
    } else if |initial| > 0 {
      RunIsLastWritten(lzo, initial, bios[..i], memory[..i], 0);
    } else {
      RunIsEmpty(lzo, bios[..i], memory[..i]);
    }
  }

  lemma {:induction false} RunIsEmpty(lzo: Lzo, bios: seq<Bio>, memory: seq<bool>)
    requires |bios| == |memory|
    ensures Run(lzo, [], bios, memory) == []
  {
    if bios != [] {
      var n := |bios| - 1;
      RunIsEmpty(lzo, bios[..n], memory[..n]);
    }
  }

  lemma NothingRun(lzo: Lzo, initial: seq<Page>)
    ensures Run(lzo, initial, [], []) == initial
  {
  }

  lemma RunOn(lzo: Lzo, initial: seq<Page>, bios: seq<Bio>, memory: seq<bool>, i: nat, ok: bool)
    requires |memory| == i < |bios|
    ensures Run(lzo, initial, bios[..i + 1], memory + [ok])
            == Serve(lzo, Run(lzo, initial, bios[..i], memory), bios[i], ok).0
  {
    assert bios[..i + 1][..i] == bios[..i] && (memory + [ok])[..i] == memory;
  }

  // ---- the driver ----

  /** A slot's buffer is on the heap and holds a page, compressed only if that makes it smaller. */
  ghost predicate Holds(lzo: Lzo, heap: map<Ptr, seq<Byte>>, s: Slot) {
    && s.pagepos in heap
    && if s.uncompressed then |heap[s.pagepos]| == PAGE_SIZE
       else s.size == |heap[s.pagepos]| < PAGE_SIZE && lzo.decompress(heap[s.pagepos]).Some?
  }

  /** The page that a slot stands for; zeros when it is not in use. */
  ghost function PageOf(lzo: Lzo, heap: map<Ptr, seq<Byte>>, s: Slot): Page
    requires s.inUse ==> Holds(lzo, heap, s)
  {
    if !s.inUse then ZERO_PAGE
    else if s.uncompressed then heap[s.pagepos]
    else lzo.decompress(heap[s.pagepos]).value
  }

  ghost predicate Consistent(lzo: Lzo, table: seq<Slot>, heap: map<Ptr, seq<Byte>>, owner: map<Ptr, nat>) {
    && owner.Keys == heap.Keys
    && (forall p | p in heap :: owner[p] < |table| && table[owner[p]].inUse && table[owner[p]].pagepos == p)
    && (forall i | 0 <= i < |table| && table[i].inUse :: Holds(lzo, heap, table[i]) && owner[table[i].pagepos] == i)
  }

  /** Filling a slot that is not in use, with a fresh buffer. */
  lemma FillConsistent(lzo: Lzo, table: seq<Slot>, heap: map<Ptr, seq<Byte>>, owner: map<Ptr, nat>, index: nat, s: Slot,
                       data: seq<Byte>)
    requires Consistent(lzo, table, heap, owner) && index < |table| && !table[index].inUse && s.inUse
    requires s.pagepos !in heap && Holds(lzo, heap[s.pagepos := data], s)
    ensures Consistent(lzo, table[index := s], heap[s.pagepos := data], owner[s.pagepos := index])
    ensures forall i | 0 <= i < |table| && i != index && table[i].inUse ::
              PageOf(lzo, heap[s.pagepos := data], table[i]) == PageOf(lzo, heap, table[i])
  {
  }

  /** Freeing the buffer of a slot, if it has one. */
  lemma ReleaseConsistent(lzo: Lzo, table: seq<Slot>, heap: map<Ptr, seq<Byte>>, owner: map<Ptr, nat>, index: nat,
                          s: Slot)
    requires Consistent(lzo, table, heap, owner) && index < |table| && !s.inUse
    ensures var freed := if table[index].inUse then {table[index].pagepos} else {};
            && Consistent(lzo, table[index := s], heap - freed, owner - freed)
            && forall i | 0 <= i < |table| && i != index && table[i].inUse ::
                 Holds(lzo, heap - freed, table[i])
                 && PageOf(lzo, heap - freed, table[i]) == PageOf(lzo, heap, table[i])
  {
  }

  class Device {
    const lzo: Lzo
    const disksize: nat
    var table: seq<Slot>
    var heap: map<Ptr, seq<Byte>>   // buffers allocated for pages
    ghost var owner: map<Ptr, nat>  // the slot that each buffer belongs to

    /** The buffers on the heap are exactly those of the slots in use, one each, and every one
        of them holds a page. */
    ghost predicate Valid()
      reads this
    {
      && lzo.Inverse() && disksize % PAGE_SIZE == 0 && |table| == disksize / PAGE_SIZE
      && Consistent(lzo, table, heap, owner)
    }

    ghost function Pages(): (ps: seq<Page>)
      reads this
      requires Valid()
      ensures |ps| == |table|
      ensures forall i | 0 <= i < |table| :: ps[i] == PageOf(lzo, heap, table[i])
    {
      PagesUpTo(|table|)
    }

    lemma PagesAre(ps: seq<Page>)
      requires Valid() && |ps| == |table| && forall i | 0 <= i < |table| :: ps[i] == PageOf(lzo, heap, table[i])
      ensures Pages() == ps
    {
    }

    ghost function PagesUpTo(n: nat): (ps: seq<Page>)
      reads this
      requires Valid() && n <= |table|
      ensures |ps| == n
      ensures forall i | 0 <= i < n :: ps[i] == PageOf(lzo, heap, table[i])
    {
      if n == 0 then [] else PagesUpTo(n - 1) + [PageOf(lzo, heap, table[n - 1])]
    }

    /** A new device: page 0 holds the swap header, uncompressed, and no other page is in use. */
    constructor (lzo: Lzo, disksize: nat, header: Page, p: Ptr)
      requires lzo.Inverse() && disksize % PAGE_SIZE == 0 && disksize > 0
      ensures Valid() && this.disksize == disksize && this.lzo == lzo
      ensures Pages()[0] == header && forall i | 1 <= i < disksize / PAGE_SIZE :: Pages()[i] == ZERO_PAGE
    {
      this.lzo, this.disksize := lzo, disksize;
      table := [Slot(p, true, true, 0)] + seq(disksize / PAGE_SIZE - 1, _ => Slot(0, false, false, 0));
      heap, owner := map[p := header], map[p := 0];
    }

    /** Serves a read: a page that is not in use reads as zeros. */
    method ReadPage(bio: Bio) returns (outcome: Outcome)
      requires Valid() && ValidRequest(bio, disksize)
      ensures bio.sector / 8 < |Pages()|
      ensures outcome == Done(Pages()[bio.sector / 8])
    {
      var index := bio.sector / SECTORS_PER_PAGE;
      IndexInTable(bio, disksize);
      var s := table[index];
      if !s.inUse {
        return Done(ZERO_PAGE);
      }
      if s.uncompressed {
        return Done(heap[s.pagepos]);
      }
      var page := lzo.decompress(heap[s.pagepos][..s.size]);
      assert heap[s.pagepos][..s.size] == heap[s.pagepos];
      if page.None? {
        return IoError;
      }
      outcome := Done(page.value);
    }

    /** Allocates a buffer at any address that is free, if there is memory. */
    method Kmalloc(memory: bool) returns (p: Option<Ptr>)
      ensures p.Some? <==> memory
      ensures p.Some? ==> p.value !in heap
    {
      if !memory {
        return None;
      }
      var at: Ptr := *;
      ghost var above := heap.Keys;
      while at in heap
        invariant forall q | q in heap && at <= q :: q in above
        decreases above
      {
        above := above - {at};
        at := at + 1;
      }
      p := Some(at);
    }

    /** Releases the slot's buffer, if any; the page is empty from here on. */
    method Release(index: nat)
      requires Valid() && index < |table|
      modifies this
      ensures Valid() && !table[index].inUse && Pages() == old(Pages())[index := ZERO_PAGE]
      ensures |table| == |old(table)|
    {
      hide Device.Pages, Device.PagesUpTo, ZERO_PAGE, Lzo.Inverse, Zeros, Consistent;
      ghost var after := Pages()[index := ZERO_PAGE];
      ReleaseConsistent(lzo, table, heap, owner, index, table[index].(inUse := false, uncompressed := false));
      if table[index].inUse {
        var p := table[index].pagepos;
        heap := heap - {p};
        owner := owner - {p};
      } else {
        assert heap - {} == heap && owner - {} == owner;
      }
      table := table[index := table[index].(inUse := false, uncompressed := false)];
      PagesAre(after);
    }

    /** Serves a write: the old buffer is freed first.  The page is stored exactly if it compresses and
        there is memory for it; otherwise it is empty. */
    method WritePage(bio: Bio, memory: bool) returns (outcome: Outcome)
      requires Valid() && ValidRequest(bio, disksize)
      modifies this
      ensures Valid() && bio.sector / 8 < |old(Pages())|
      ensures if lzo.compress(bio.page).Some? && memory then
                outcome == Done(bio.page) && Pages() == old(Pages())[bio.sector / 8 := bio.page]
              else
                outcome == IoError && Pages() == old(Pages())[bio.sector / 8 := ZERO_PAGE]
      ensures lzo.compress(bio.page).Some? && memory ==>
                var s, n := table[bio.sector / 8], |lzo.compress(bio.page).value|;
                s.inUse && (s.uncompressed <==> n >= 4096) && s.size == if n < 4096 then n else 4096
    {
      var index := bio.sector / SECTORS_PER_PAGE;
      IndexInTable(bio, disksize);
      ghost var before := Pages();
      Release(index);
      var c := lzo.compress(bio.page);
      if c.None? {
        return IoError;
      }
      var data := c.value;
      var uncompressed := false;
      if |data| >= PAGE_SIZE {
        uncompressed, data := true, bio.page;
      }
      var p := Kmalloc(memory);
      if p.None? {
        return IoError;
      }
      Fill(index, p.value, uncompressed, data, bio.page);
      assert Pages() == before[index := bio.page];
      return Done(bio.page);
    }

    /** Puts a page into a fresh buffer of a slot that is not in use. */
    method Fill(index: nat, p: Ptr, uncompressed: bool, data: seq<Byte>, ghost page: Page)
      requires Valid() && index < |table| && !table[index].inUse && p !in heap
      requires if uncompressed then data == page else |data| < PAGE_SIZE && lzo.decompress(data) == Some(page)
      modifies this
      ensures Valid() && Pages() == old(Pages())[index := page]
      ensures |table| == |old(table)| && table[index] == Slot(p, true, uncompressed, |data|)
    {
      hide Device.Pages, Device.PagesUpTo, ZERO_PAGE, Lzo.Inverse, Zeros, Consistent;
      ghost var after := Pages()[index := page];
      FillConsistent(lzo, table, heap, owner, index, Slot(p, true, uncompressed, |data|), data);
      heap := heap[p := data];
      owner := owner[p := index];
      table := table[index := Slot(p, true, uncompressed, |data|)];
      assert PageOf(lzo, heap, table[index]) == page;
      PagesAre(after);
    }

    /** The request handler: invalid requests fail and change nothing. */
    method MakeRequest(bio: Bio, memory: bool) returns (outcome: Outcome)
      requires Valid()
      modifies this
      ensures Valid()
      ensures (Pages(), outcome) == Serve(lzo, old(Pages()), bio, memory)
    {
      if !ValidRequest(bio, disksize) {
        return IoError;
      }
      IndexInTable(bio, disksize);
      match bio.dir
      case Read => outcome := ReadPage(bio);
      case Write => outcome := WritePage(bio, memory);
    }

    /** A whole run of requests; `memory` says for each of them whether there is memory for a page.
        The pages end up as the run leaves them, and every request is answered as promised. */
    method ServeAll(bios: seq<Bio>, memory: seq<bool>) returns (outcomes: seq<Outcome>)
      requires Valid() && |memory| == |bios|
      modifies this
      ensures Valid() && |outcomes| == |bios| && Pages() == Run(lzo, old(Pages()), bios, memory)
      ensures forall i | 0 <= i < |bios| :: Answers(lzo, old(Pages()), bios, memory, i, outcomes[i])
    {
      hide Run, Serve, Answers, ValidRequest, Device.Pages, Consistent;
      ghost var initial := Pages();
      outcomes := [];
      NothingRun(lzo, initial);
      assert bios[..0] == [] && memory[..0] == [];
      for i := 0 to |bios|
        invariant Valid() && |outcomes| == i && Pages() == Run(lzo, initial, bios[..i], memory[..i])
        invariant forall k | 0 <= k < i ::
                    outcomes[k] == Serve(lzo, Run(lzo, initial, bios[..k], memory[..k]), bios[k], memory[k]).1
      {
        var outcome := MakeRequest(bios[i], memory[i]);
        RunOn(lzo, initial, bios, memory[..i], i, memory[i]);
        assert memory[..i] + [memory[i]] == memory[..i + 1];
        outcomes := outcomes + [outcome];
      }
      assert bios[..|bios|] == bios && memory[..|bios|] == memory;
      forall i | 0 <= i < |bios| ensures Answers(lzo, initial, bios, memory, i, outcomes[i]) {
        RunAnswers(lzo, initial, bios, memory, i);
      }
    }

    /** The buffers on the heap are in one-to-one correspondence with the slots in use. */
    lemma HeapIsExact(p: Ptr)
      requires Valid()
      ensures p in heap <==> exists i :: 0 <= i < |table| && table[i].inUse && table[i].pagepos == p
      ensures forall i, j | 0 <= i < |table| && 0 <= j < |table| && table[i].inUse && table[j].inUse
                            && table[i].pagepos == table[j].pagepos :: i == j
    {
      if p in heap {
        var i := owner[p];
        assert table[i].inUse && table[i].pagepos == p;
      }
    }
  }

  /** A request for the whole of one page. */
  function Whole(dir: Direction, index: nat, page: Page): Bio {
    Bio(8 * index, 1, 4096, 0, dir, page)
  }

  /** A page stays as it was stored until the next valid write to it. */
  lemma {:induction false} StaysWritten(lzo: Lzo, initial: Page, size: nat, bios: seq<Bio>, memory: seq<bool>,
                                        index: nat, i: nat, page: Page)
    requires i < |bios| == |memory| && index < size && bios[i] == Whole(Write, index, page)
    requires Stored(lzo, page, memory[i])
    requires forall k, p: Page | i < k < |bios| :: bios[k] != Whole(Write, index, p)
    ensures LastWritten(lzo, initial, size, bios, memory, index) == page
    decreases |bios|
  {
    var n := |bios| - 1;
    var bio := bios[n];
    IndexInTable(bio, size * PAGE_SIZE);
    if i < n {
      assert bio != Whole(Write, index, bio.page);
      StaysWritten(lzo, initial, size, bios[..n], memory[..n], index, i, page);
    } else {
      assert bio == Bio(8 * index, 1, 4096, 0, bio.dir, bio.page) && bio.sector / SECTORS_PER_PAGE == index;
    }
  }

  /** A page that was never written is as it was. */
  lemma {:induction false} NeverWritten(lzo: Lzo, initial: Page, size: nat, bios: seq<Bio>, memory: seq<bool>,
                                        index: nat)
    requires |bios| == |memory| && index < size
    requires forall k, p: Page | 0 <= k < |bios| :: bios[k] != Whole(Write, index, p)
    ensures LastWritten(lzo, initial, size, bios, memory, index) == initial
    decreases |bios|
  {
    if bios != [] {
      var n := |bios| - 1;
      var bio := bios[n];
      IndexInTable(bio, size * PAGE_SIZE);
      assert bio != Whole(Write, index, bio.page);
      NeverWritten(lzo, initial, size, bios[..n], memory[..n], index);
    }
  }

  /** What a request of a run on a new device is answered.  A write of a whole page is stored exactly
      if the page compresses and there is memory; a read returns what was stored last, the swap header
      if it is the untouched page 0, and zeros otherwise; no other request succeeds. */
  ghost predicate NewDeviceAnswers(lzo: Lzo, size: nat, header: Page, bios: seq<Bio>, memory: seq<bool>, k: nat,
                                   outcome: Outcome)
    requires k < |bios| == |memory|
  {
    && (forall index: nat, p: Page | index < size && bios[k] == Whole(Write, index, p) ::
          outcome == if lzo.compress(p).Some? && memory[k] then Done(p) else IoError)
    && (forall index: nat, p: Page, i: nat, q: Page |
          && index < size && bios[k] == Whole(Read, index, p) && i < k && bios[i] == Whole(Write, index, q)
          && lzo.compress(q).Some? && memory[i]
          && (forall j, r: Page | i < j < k :: bios[j] != Whole(Write, index, r)) ::
          outcome == Done(q))
    && (forall index: nat, p: Page |
          && index < size && bios[k] == Whole(Read, index, p)
          && (forall j, r: Page | 0 <= j < k :: bios[j] != Whole(Write, index, r)) ::
          outcome == Done(if index == 0 then header else Zeros(4096)))
    && ((forall index: nat, dir: Direction, p: Page | index < size :: bios[k] != Whole(dir, index, p)) ==>
          outcome == IoError)
  }

  /** A new device serves any run of requests. */
  method NewDeviceServes(lzo: Lzo, disksize: nat, header: Page, p: Ptr, bios: seq<Bio>, memory: seq<bool>)
    returns (outcomes: seq<Outcome>)
    requires lzo.Inverse() && disksize % PAGE_SIZE == 0 && disksize > 0 && |memory| == |bios|
    ensures |outcomes| == |bios|
    ensures forall k | 0 <= k < |bios| ::
              NewDeviceAnswers(lzo, disksize / 4096, header, bios, memory, k, outcomes[k])
  {
    var device := new Device(lzo, disksize, header, p);
    ghost var initial := device.Pages();
    outcomes := device.ServeAll(bios, memory);
    hide NewDeviceAnswers, Answers, ValidRequest, ZERO_PAGE, Run;
    forall k | 0 <= k < |bios|
      ensures NewDeviceAnswers(lzo, disksize / 4096, header, bios, memory, k, outcomes[k])
    {
      AnswersOfNew(lzo, initial, header, bios, memory, k, outcomes[k]);
    }
  }

  lemma AnswersOfNew(lzo: Lzo, initial: seq<Page>, header: Page, bios: seq<Bio>, memory: seq<bool>, k: nat,
                     outcome: Outcome)
    requires |initial| > 0 && initial[0] == header && forall i | 1 <= i < |initial| :: initial[i] == ZERO_PAGE
    requires k < |bios| == |memory| && Answers(lzo, initial, bios, memory, k, outcome)
    ensures NewDeviceAnswers(lzo, |initial|, header, bios, memory, k, outcome)
  {
    hide ValidRequest, LastWritten, Zeros;
    var bio, size := bios[k], |initial|;
    IndexInTable(bio, size * PAGE_SIZE);
    assert size * PAGE_SIZE / 4096 == size;
    forall index: nat, dir: Direction, p: Page | index < size && bio == Whole(dir, index, p)
      ensures ValidRequest(bio, size * PAGE_SIZE) && bio.sector / SECTORS_PER_PAGE == index
    {
      assert bio == Bio(8 * index, 1, 4096, 0, bio.dir, bio.page) && bio.sector / SECTORS_PER_PAGE == index;
    }
    forall index: nat, p: Page, i: nat, q: Page |
      && index < size && bio == Whole(Read, index, p) && i < k && bios[i] == Whole(Write, index, q)
      && lzo.compress(q).Some? && memory[i]
      && (forall j, r: Page | i < j < k :: bios[j] != Whole(Write, index, r))
      ensures outcome == Done(q)
    {
      StaysWritten(lzo, initial[index], size, bios[..k], memory[..k], index, i, q);
    }
    forall index: nat, p: Page |
      && index < size && bio == Whole(Read, index, p)
      && (forall j, r: Page | 0 <= j < k :: bios[j] != Whole(Write, index, r))
      ensures outcome == Done(if index == 0 then header else Zeros(4096))
    {
      NeverWritten(lzo, initial[index], size, bios[..k], memory[..k], index);
      assert ZERO_PAGE == Zeros(4096);
    }
    if ValidRequest(bio, size * PAGE_SIZE) {
      var index := bio.sector / SECTORS_PER_PAGE;
      assert bio == Whole(Read, index, bio.page) || bio == Whole(Write, index, bio.page);
    }
  }
}
