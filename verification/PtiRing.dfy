/** The DMA ring of the transport driver (driver/pti/pti_main.c, process_pti_dma): every poll
    hands the packets between the read pointer and the hardware's write pointer to the
    injector as one work item, or as two when the write pointer has wrapped around. */
module PtiRing {
  import opened Bytes
  import opened PtiDemux

  const RING_PACKETS := 4096
  const RING_SIZE := PACKET_SIZE * RING_PACKETS

  /** The ring holds 4096 packets of 194 bytes each, with their headers. */
  lemma RingBytes()
    ensures RING_SIZE == 794624 == 4096 * 194 && HEADER_SIZE + PAYLOAD == 194
  {
  }

  /** A work item: where its packets start in the ring, and how many there are. */
  datatype Item = Item(offset: nat, count: nat) {
    /** The item starts on a packet and ends inside the ring. */
    predicate Inside() {
      offset % PACKET_SIZE == 0 && offset + count * PACKET_SIZE <= RING_SIZE
    }
  }

  /** Packet slots from `first` on. */
  function Range(first: nat, n: nat): (r: seq<nat>)
    ensures |r| == n
  {
    if n == 0 then [] else Range(first, n - 1) + [first + n - 1]
  }

  /** The packet slots that the items cover, in order. */
  function Slots(items: seq<Item>): seq<nat> {
    if items == [] then []
    else
      var last := items[|items| - 1];
      Slots(items[..|items| - 1]) + Range(last.offset / PACKET_SIZE, last.count)
  }

  /** The first n packets in the order in which the hardware fills the ring, lap after lap. */
  function Laps(n: nat): (r: seq<nat>)
    ensures |r| == n
  {
    if n == 0 then [] else Laps(n - 1) + [(n - 1) % RING_PACKETS]
  }

  function Sum(s: seq<nat>): nat {
    if s == [] then 0 else Sum(s[..|s| - 1]) + s[|s| - 1]
  }

  lemma SlotsAppend(items: seq<Item>, item: Item)
    ensures Slots(items + [item]) == Slots(items) + Range(item.offset / PACKET_SIZE, item.count)
  {
    assert (items + [item])[..|items|] == items;
  }

  lemma SumAppend(s: seq<nat>, x: nat)
    ensures Sum(s + [x]) == Sum(s) + x
  {
    assert (s + [x])[..|s|] == s;
  }

  /** Packets up to the end of the ring continue the current lap. */
  lemma {:induction false} LapsContinue(total: nat, n: nat)
    requires total % RING_PACKETS + n <= RING_PACKETS
    ensures Laps(total + n) == Laps(total) + Range(total % RING_PACKETS, n)
    decreases n
  {
    if n > 0 {
      LapsContinue(total, n - 1);
      assert (total + n - 1) % RING_PACKETS == total % RING_PACKETS + (n - 1) by {
        ModAdd(total, n - 1);
      }
    }
  }

  lemma ModAdd(total: nat, k: nat)
    requires total % RING_PACKETS + k < RING_PACKETS
    ensures (total + k) % RING_PACKETS == total % RING_PACKETS + k
  {
  }

  /** Aligning the write pointer down to a packet. */
  lemma Align(d: nat)
    requires d < RING_SIZE
    ensures d - d % PACKET_SIZE == PACKET_SIZE * (d / PACKET_SIZE) && d / PACKET_SIZE < RING_PACKETS
  {
  }

  lemma Between(r: nat, w: nat)
    requires r < RING_PACKETS && w < RING_PACKETS
    ensures r <= w ==> (PACKET_SIZE * w - PACKET_SIZE * r) / PACKET_SIZE == w - r
    ensures ((RING_SIZE - PACKET_SIZE * r) + PACKET_SIZE * w) / PACKET_SIZE == RING_PACKETS - r + w
    ensures (RING_SIZE - PACKET_SIZE * r) / PACKET_SIZE == RING_PACKETS - r
  {
  }

  lemma AheadIs(r: nat, w: nat)
    requires r < RING_PACKETS && w < RING_PACKETS
    ensures (w + RING_PACKETS - r) % RING_PACKETS == if r <= w then w - r else RING_PACKETS - r + w
  {
  }

  /** Packets from slot r up to slot w, without wrapping. */
  lemma Forward(total: nat, w: nat, items: seq<Item>)
    requires total % RING_PACKETS <= w < RING_PACKETS && Slots(items) == Laps(total)
    ensures var r := total % RING_PACKETS;
            && (w + RING_PACKETS - r) % RING_PACKETS == w - r
            && (total + (w - r)) % RING_PACKETS == w
            && Item(PACKET_SIZE * r, w - r).Inside()
            && Slots(items + [Item(PACKET_SIZE * r, w - r)]) == Laps(total + (w - r))
  {
    hide Slots, Laps, Range;
    var r := total % RING_PACKETS;
    ModAdd(total, w - r);
    LapsContinue(total, w - r);
    SlotsAppend(items, Item(PACKET_SIZE * r, w - r));
    assert PACKET_SIZE * r / PACKET_SIZE == r;
  }

  lemma LapEnds(total: nat)
    ensures (total + (RING_PACKETS - total % RING_PACKETS)) % RING_PACKETS == 0
  {
  }

  /** Packets from slot r to the end of the ring and on to slot w. */
  lemma Around(total: nat, w: nat, items: seq<Item>)
    requires w < total % RING_PACKETS && Slots(items) == Laps(total)
    ensures var r := total % RING_PACKETS;
            var first, second := Item(PACKET_SIZE * r, RING_PACKETS - r), Item(0, w);
            && (w + RING_PACKETS - r) % RING_PACKETS == RING_PACKETS - r + w
            && (total + (RING_PACKETS - r + w)) % RING_PACKETS == w
            && first.Inside() && second.Inside()
            && Slots(items + [first] + [second]) == Laps(total + (RING_PACKETS - r + w))
  {
    hide Slots, Laps, Range;
    var r := total % RING_PACKETS;
    var first, second := Item(PACKET_SIZE * r, RING_PACKETS - r), Item(0, w);
    var turn := total + (RING_PACKETS - r);
    LapEnds(total);
    ModAdd(turn, w);
    LapsContinue(total, RING_PACKETS - r);
    LapsContinue(turn, w);
    SlotsAppend(items, first);
    SlotsAppend(items + [first], second);
    assert PACKET_SIZE * r / PACKET_SIZE == r;
  }

  class Poller {
    const base: int              // buffer addresses; the pointers are unsigned
    var rp: int                  // where the driver reads next
    var pread: nat               // packets the firmware has not acknowledged yet
    var enqueued: seq<Item>      // work items, in order
    var told: seq<nat>           // packet counts reported to the firmware
    var loopCount: nat
    var loopCount2: nat
    var packetCount: nat
    ghost var total: nat         // packets handed over so far

    /** Everything handed over so far tiles the ring, lap after lap, without gap or overlap. */
    ghost predicate Valid()
      reads this
    {
      && 0 <= base && base + RING_SIZE < 0x1_0000_0000
      && rp == base + PACKET_SIZE * (total % RING_PACKETS)
      && (forall k | 0 <= k < |enqueued| :: enqueued[k].Inside())
      && Slots(enqueued) == Laps(total)
      && Sum(told) == total
    }

    constructor (base: int)
      requires 0 <= base && base + RING_SIZE < 0x1_0000_0000
      ensures Valid() && total == 0 && enqueued == [] && pread == 0
      ensures loopCount == loopCount2 == packetCount == 0
    {
      this.base, rp, pread := base, base, 0;
      enqueued, told, total := [], [], 0;
      loopCount, loopCount2, packetCount := 0, 0, 0;
    }

    /** The firmware has taken note of the packets that were read. */
    method Acknowledge()
      requires Valid()
      modifies this`pread
      ensures Valid() && pread == 0
    {
      pread := 0;
    }

    ghost function Ahead(wp: int): nat
      reads this
      requires base <= wp < base + RING_SIZE
    {
      ((wp - base) / PACKET_SIZE + RING_PACKETS - total % RING_PACKETS) % RING_PACKETS
    }

    /** One poll; `wp` is the hardware's write pointer, and no packets were discarded. */
    method Poll(wp0: int)
      requires Valid() && base <= wp0 < base + RING_SIZE
      modifies this
      ensures Valid()
      ensures old(pread) != 0 || old(Ahead(wp0)) == 0 ==>
                rp == old(rp) && enqueued == old(enqueued) && told == old(told)
                && pread == old(pread) && total == old(total)
      ensures old(pread) == 0 && old(Ahead(wp0)) > 0 ==>
                && total == old(total) + old(Ahead(wp0)) && pread == old(Ahead(wp0)) && told == old(told) + [pread]
                && rp == base + (wp0 - base) / PACKET_SIZE * PACKET_SIZE
                && old(enqueued) <= enqueued && 1 <= |enqueued| - |old(enqueued)| <= 2
      ensures var handed, wraps := pread != old(pread), (wp0 - base) / PACKET_SIZE < old(total) % RING_PACKETS;
              && loopCount == old(loopCount) + (if handed then 1 else 0)
              && loopCount2 == old(loopCount2) + (if wraps then 1 else 0)
              && packetCount == (if wraps then 0 else old(packetCount)) + (if handed then pread else 0)
    {
      hide Slots, Laps, Sum, Item.Inside;
      ghost var r, w := total % RING_PACKETS, (wp0 - base) / PACKET_SIZE;
      Align(wp0 - base);
      Between(r, w);
      AheadIs(r, w);
      var top := base + RING_SIZE;
      var wp := wp0 - (wp0 - base) % PACKET_SIZE;
      var round := false;
      rp := if rp / 16 == top / 16 then base else rp;
      var num: nat;
      if rp <= wp {
        assert wp - rp == PACKET_SIZE * w - PACKET_SIZE * r;
        num := (wp - rp) / PACKET_SIZE;
      } else {
        assert (top - rp) + (wp - base) == (RING_SIZE - PACKET_SIZE * r) + PACKET_SIZE * w;
        num := ((top - rp) + (wp - base)) / PACKET_SIZE;
        loopCount2 := loopCount2 + 1;
        packetCount := 0;
        round := true;
      }
      if num != 0 && pread == 0 {
        HandOver(w, wp, num, round);
      }
    }

    /** Tells the firmware and queues the new packets: slots up to w, around the end of the ring if
        the write pointer has wrapped. */
    method HandOver(ghost w: nat, wp: int, num: nat, round: bool)
      requires Valid() && w < RING_PACKETS && wp == base + PACKET_SIZE * w
      requires round == (w < total % RING_PACKETS)
      requires num == w - total % RING_PACKETS + if round then RING_PACKETS else 0
      modifies this`rp, this`pread, this`enqueued, this`told, this`total, this`loopCount, this`packetCount
      ensures Valid() && total == old(total) + num && pread == num && told == old(told) + [num] && rp == wp
      ensures old(enqueued) <= enqueued && 1 <= |enqueued| - |old(enqueued)| <= 2
      ensures loopCount == old(loopCount) + 1 && packetCount == old(packetCount) + num
    {
      hide Slots, Laps, Sum, Item.Inside;
      ghost var r := total % RING_PACKETS;
      Between(r, w);
      loopCount := loopCount + 1;
      packetCount := packetCount + num;
      pread := num;
      SumAppend(told, num);
      told := told + [num];
      if round {
        Around(total, w, enqueued);
        var top := base + RING_SIZE;
        assert top - rp == RING_SIZE - PACKET_SIZE * r;
        var num1 := (top - rp) / PACKET_SIZE;
        enqueued := enqueued + [Item(rp - base, num1)];
        enqueued := enqueued + [Item(0, num - num1)];
      } else {
        Forward(total, w, enqueued);
        enqueued := enqueued + [Item(rp - base, num)];
      }
      rp := wp;
      total := total + num;
    }

    /** One poll after the hardware has written this many bytes since it was started.  Unless it
        has gone a full lap ahead, exactly its complete packets are handed over. */
    method PollWritten(written: nat)
      requires Valid() && pread == 0 && total <= written / PACKET_SIZE < total + RING_PACKETS
      modifies this
      ensures Valid() && total == written / PACKET_SIZE && old(enqueued) <= enqueued
      ensures forall k | 0 <= k < |enqueued| :: Start(enqueued, k) + enqueued[k].count <= written / PACKET_SIZE
    {
      hide Slots, Laps, Sum, Item.Inside, Start;
      WrittenAhead(total, written);
      Poll(base + written % RING_SIZE);
      forall k | 0 <= k < |enqueued|
        ensures Start(enqueued, k) + enqueued[k].count <= total
      {
        ItemPlace(enqueued, total, k);
      }
    }
  }

  /** The write pointer tells how many packets are new. */
  lemma WrittenAhead(total: nat, written: nat)
    requires total <= written / PACKET_SIZE < total + RING_PACKETS
    ensures (written % RING_SIZE / PACKET_SIZE + RING_PACKETS - total % RING_PACKETS) % RING_PACKETS
            == written / PACKET_SIZE - total
  {
    var n := written / PACKET_SIZE;
    InRing(written);
    var turns := n / RING_PACKETS - total / RING_PACKETS;
    assert n % RING_PACKETS + RING_PACKETS - total % RING_PACKETS == n - total + RING_PACKETS * (1 - turns);
  }

  lemma InRing(written: nat)
    ensures written % RING_SIZE / PACKET_SIZE == written / PACKET_SIZE % RING_PACKETS
  {
    var laps, rest := written / RING_SIZE, written % RING_SIZE;
    assert written == PACKET_SIZE * (RING_PACKETS * laps) + rest;
    assert written / PACKET_SIZE == RING_PACKETS * laps + rest / PACKET_SIZE;
  }

  // ---- where the items lie ----

  /** The number of packets that the items before item k cover. */
  function Start(items: seq<Item>, k: nat): nat
    requires k <= |items|
  {
    if k == 0 then 0 else Start(items, k - 1) + items[k - 1].count
  }

  lemma {:induction false} StartOfPrefix(items: seq<Item>, n: nat, k: nat)
    requires k <= n <= |items|
    ensures Start(items[..n], k) == Start(items, k)
  {
    if k > 0 {
      StartOfPrefix(items, n, k - 1);
    }
  }

  lemma {:induction false} RangeAt(first: nat, n: nat, i: nat)
    requires i < n
    ensures Range(first, n)[i] == first + i
  {
    if i < n - 1 {
      RangeAt(first, n - 1, i);
    }
  }

  lemma {:induction false} LapsAt(n: nat, i: nat)
    requires i < n
    ensures Laps(n)[i] == i % RING_PACKETS
  {
    if i < n - 1 {
      LapsAt(n - 1, i);
    }
  }

  lemma {:induction false} SlotsLength(items: seq<Item>)
    ensures |Slots(items)| == Start(items, |items|)
  {
    if items != [] {
      var prior := items[..|items| - 1];
      SlotsLength(prior);
      StartOfPrefix(items, |prior|, |prior|);
    }
  }

  lemma {:induction false} SlotsOfPrefix(items: seq<Item>, n: nat)
    requires n <= |items|
    ensures Slots(items[..n]) <= Slots(items)
  {
    if n < |items| {
      SlotsOfPrefix(items[..|items| - 1], n);
      assert items[..|items| - 1][..n] == items[..n];
    } else {
      assert items[..n] == items;
    }
  }

  /** Where the first packet of item k is found among the slots. */
  lemma SlotsAt(items: seq<Item>, k: nat)
    requires k < |items| && items[k].count > 0
    ensures Start(items, k) + items[k].count <= |Slots(items)|
    ensures Slots(items)[Start(items, k)] == items[k].offset / PACKET_SIZE
  {
    var upTo, prior := items[..k + 1], items[..k];
    assert upTo == prior + [items[k]];
    SlotsAppend(prior, items[k]);
    SlotsLength(prior);
    StartOfPrefix(items, k, k);
    RangeAt(items[k].offset / PACKET_SIZE, items[k].count, 0);
    SlotsOfPrefix(items, k + 1);
    assert Slots(items)[Start(items, k)] == Slots(upTo)[Start(items, k)];
  }

  /** When the items tile the ring lap after lap, item k holds the packets from number
      Start(items, k) on, in their slots, without reaching beyond the end of the ring. */
  lemma ItemPlace(items: seq<Item>, total: nat, k: nat)
    requires Slots(items) == Laps(total) && k < |items| && items[k].Inside()
    ensures Start(items, k) + items[k].count <= total
    ensures items[k].count > 0 ==>
              && items[k].offset == PACKET_SIZE * (Start(items, k) % RING_PACKETS)
              && Start(items, k) % RING_PACKETS + items[k].count <= RING_PACKETS
  {
    hide Slots, Laps;
    if items[k].count > 0 {
      SlotsAt(items, k);
      LapsAt(total, Start(items, k));
    } else {
      StartGrows(items, k, |items|);
      SlotsLength(items);
    }
  }

  lemma {:induction false} StartGrows(items: seq<Item>, i: nat, k: nat)
    requires i <= k <= |items|
    ensures Start(items, i) <= Start(items, k)
    decreases k
  {
    if i < k {
      StartGrows(items, i, k - 1);
    }
  }
}
