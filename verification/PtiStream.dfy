/** From the hardware to the demultiplexers (driver/pti/pti_main.c): the hardware writes a stream of
    packets around the ring, polls turn them into work items, the items pass through the queue,
    and the injector sorts each of them while the hardware goes on writing. */
module PtiStream {
  import opened Bytes
  import opened PtiDemux
  import opened PtiRing
  import Queue = PtiQueue

  type Ring = r: seq<Byte> | |r| == RING_SIZE witness Zeros(RING_SIZE)

  // ---- the hardware ----

  /** The ring after the hardware has written all of `written`, byte after byte and lap after lap. */
  function RingAfter(ring: Ring, written: seq<Byte>): Ring {
    if written == [] then ring
    else
      var n := |written| - 1;
      RingAfter(ring, written[..n])[n % RING_SIZE := written[n]]
  }

  /** The last ring's length of bytes is found in the ring. */
  lemma {:induction false} RingHolds(ring: Ring, written: seq<Byte>, j: nat)
    requires j < |written| <= j + RING_SIZE
    ensures RingAfter(ring, written)[j % RING_SIZE] == written[j]
  {
    var n := |written| - 1;
    if j < n {
      RingHolds(ring, written[..n], j);
      Apart(j, n);
    }
  }

  lemma Apart(j: nat, n: nat)
    requires j < n < j + RING_SIZE
    ensures j % RING_SIZE != n % RING_SIZE
  {
    var a, b := j / RING_SIZE, n / RING_SIZE;
    assert n - j == RING_SIZE * (b - a) + (n % RING_SIZE - j % RING_SIZE);
  }

  /** A packet stays in its slot until the hardware comes round to that slot again. */
  lemma SlotHolds(ring: Ring, written: seq<Byte>, n: nat)
    requires PACKET_SIZE * (n + 1) <= |written| <= PACKET_SIZE * n + RING_SIZE
    ensures var at := PACKET_SIZE * (n % RING_PACKETS);
            && at + PACKET_SIZE <= RING_SIZE
            && RingAfter(ring, written)[at..at + PACKET_SIZE] == written[PACKET_SIZE * n..PACKET_SIZE * (n + 1)]
  {
    hide RingAfter;
    var at := PACKET_SIZE * (n % RING_PACKETS);
    var a, b := RingAfter(ring, written)[at..at + PACKET_SIZE], written[PACKET_SIZE * n..PACKET_SIZE * (n + 1)];
    forall i | 0 <= i < PACKET_SIZE ensures a[i] == b[i] {
      RingHolds(ring, written, PACKET_SIZE * n + i);
      InSlot(n, i);
    }
  }

  lemma InSlot(n: nat, i: nat)
    requires i < PACKET_SIZE
    ensures (PACKET_SIZE * n + i) % RING_SIZE == PACKET_SIZE * (n % RING_PACKETS) + i
  {
    var laps, slot := n / RING_PACKETS, n % RING_PACKETS;
    assert PACKET_SIZE * n + i == RING_SIZE * laps + (PACKET_SIZE * slot + i);
  }

  // ---- one item ----

  /** An item that is processed before the hardware comes round to it holds the packets that the
      hardware wrote, from number `start` on. */
  lemma {:induction false} ItemIntact(ring: Ring, written: seq<Byte>, start: nat, count: nat, t: nat)
    requires start % RING_PACKETS + count <= RING_PACKETS
    requires PACKET_SIZE * (start + count) <= |written| <= PACKET_SIZE * start + RING_SIZE
    ensures PACKET_SIZE * (start % RING_PACKETS) + count * PACKET_SIZE <= RING_SIZE
    ensures Payloads(RingAfter(ring, written), PACKET_SIZE * (start % RING_PACKETS), count, t)
            == Payloads(written, PACKET_SIZE * start, count, t)
    decreases count
  {
    hide RingAfter, Part, Payloads;
    var after, at := RingAfter(ring, written), PACKET_SIZE * (start % RING_PACKETS);
    if count == 0 {
      PayloadsStart(after, at, t);
      PayloadsStart(written, PACKET_SIZE * start, t);
    } else {
      var n := start + (count - 1);
      ItemIntact(ring, written, start, count - 1, t);
      ModAdd(start, count - 1);
      SlotHolds(ring, written, n);
      SamePart(after, PACKET_SIZE * (n % RING_PACKETS), written, PACKET_SIZE * n, t);
      PayloadsStep(after, at, count, t);
      PayloadsStep(written, PACKET_SIZE * start, count, t);
    }
  }

  lemma PayloadsStart(s: seq<Byte>, at: nat, t: nat)
    requires at <= |s|
    ensures Payloads(s, at, 0, t) == []
  {
  }

  lemma PayloadsStep(s: seq<Byte>, at: nat, n: nat, t: nat)
    requires 0 < n && at + n * PACKET_SIZE <= |s|
    ensures Payloads(s, at, n, t) == Payloads(s, at, n - 1, t) + Part(s, at + (n - 1) * PACKET_SIZE, t)
  {
  }

  lemma SamePart(a: seq<Byte>, i: nat, b: seq<Byte>, j: nat, t: nat)
    requires i + PACKET_SIZE <= |a| && j + PACKET_SIZE <= |b| && a[i..i + PACKET_SIZE] == b[j..j + PACKET_SIZE]
    ensures Part(a, i, t) == Part(b, j, t)
  {
    var p := a[i..i + PACKET_SIZE];
    assert p[0] == a[i] && p[0] == b[j];
    assert p[HEADER_SIZE..] == a[i + HEADER_SIZE..i + PACKET_SIZE] == b[j + HEADER_SIZE..j + PACKET_SIZE];
  }

  // ---- all items ----

  /** The calls for all items, in order. */
  function AllCalls(calls: seq<seq<Call>>): seq<Call> {
    if calls == [] then [] else AllCalls(calls[..|calls| - 1]) + calls[|calls| - 1]
  }

  lemma {:induction false} BatchesConcat(a: seq<Call>, b: seq<Call>, t: nat)
    ensures Batches(a + b, t) == Batches(a, t) + Batches(b, t)
    decreases |b|
  {
    hide Batches;
    if b == [] {
      assert a + b == a;
      NoBatches(b, t);
    } else {
      var prior, last := b[..|b| - 1], b[|b| - 1];
      BatchesConcat(a, prior, t);
      assert a + b == (a + prior) + [last] && b == prior + [last];
      BatchesAppend(a + prior, last, t);
      BatchesAppend(prior, last, t);
    }
  }

  lemma NoBatches(calls: seq<Call>, t: nat)
    requires calls == []
    ensures Batches(calls, t) == []
  {
  }

  lemma {:induction false} FlattenConcat(a: seq<seq<Byte>>, b: seq<seq<Byte>>)
    ensures Flatten(a + b) == Flatten(a) + Flatten(b)
    decreases |b|
  {
    if b == [] {
      assert a + b == a;
    } else {
      var prior, last := b[..|b| - 1], b[|b| - 1];
      FlattenConcat(a, prior);
      assert a + b == (a + prior) + [last] && b == prior + [last];
      FlattenAppend(a + prior, last);
      FlattenAppend(prior, last);
    }
  }

  lemma {:induction false} PayloadsConcat(s: seq<Byte>, n: nat, m: nat, t: nat)
    requires PACKET_SIZE * (n + m) <= |s|
    ensures Payloads(s, 0, n + m, t) == Payloads(s, 0, n, t) + Payloads(s, PACKET_SIZE * n, m, t)
    decreases m
  {
    hide Part;
    if m > 0 {
      PayloadsConcat(s, n, m - 1, t);
    }
  }

  lemma {:induction false} PayloadsOfPrefix(s: seq<Byte>, len: nat, at: nat, n: nat, t: nat)
    requires at + n * PACKET_SIZE <= len <= |s|
    ensures Payloads(s[..len], at, n, t) == Payloads(s, at, n, t)
    decreases n
  {
    hide Part, Payloads;
    if n == 0 {
      PayloadsStart(s[..len], at, t);
      PayloadsStart(s, at, t);
    } else {
      PayloadsOfPrefix(s, len, at, n - 1, t);
      var i := at + (n - 1) * PACKET_SIZE;
      assert s[..len][i..i + PACKET_SIZE] == s[i..i + PACKET_SIZE];
      SamePart(s[..len], i, s, i, t);
      PayloadsStep(s[..len], at, n, t);
      PayloadsStep(s, at, n, t);
    }
  }

  /** moments[k] is the number of bytes that the hardware had written when item k was processed: all
      of the item, and not so much that it came round to the item again. */
  ghost predicate InTime(items: seq<Item>, moments: seq<nat>, stream: seq<Byte>) {
    && |moments| == |items|
    && forall k | 0 <= k < |items| ::
         && PACKET_SIZE * (Start(items, k) + items[k].count) <= moments[k] <= |stream|
         && moments[k] <= PACKET_SIZE * Start(items, k) + RING_SIZE
  }

  /** The calls that the injector makes for item k, with the ring as it was at that moment. */
  ghost predicate Injected(ring: Ring, stream: seq<Byte>, item: Item, moment: nat, demux: seq<bool>, calls: seq<Call>)
    requires moment <= |stream| && item.Inside() && |demux| == TAG_COUNT
  {
    forall t | 0 <= t < TAG_COUNT ::
      Complete(calls, demux, t, Payloads(RingAfter(ring, stream[..moment]), item.offset, item.count, t))
  }

  /** What one item contributes to stream t. */
  lemma ItemDelivers(ring: Ring, stream: seq<Byte>, items: seq<Item>, total: nat, k: nat, moment: nat, demux: seq<bool>,
                     calls: seq<Call>, t: nat)
    requires Slots(items) == Laps(total) && k < |items| && items[k].Inside() && |demux| == TAG_COUNT && t < TAG_COUNT
    requires PACKET_SIZE * (Start(items, k) + items[k].count) <= moment <= |stream|
    requires moment <= PACKET_SIZE * Start(items, k) + RING_SIZE
    requires Injected(ring, stream, items[k], moment, demux, calls)
    ensures Flatten(Batches(calls, t))
            == if demux[t] then Payloads(stream, PACKET_SIZE * Start(items, k), items[k].count, t) else []
  {
    hide Slots, Laps, RingAfter, Start, Batches, Part;
    var start, count := Start(items, k), items[k].count;
    var payloads := Payloads(RingAfter(ring, stream[..moment]), items[k].offset, count, t);
    assert Complete(calls, demux, t, payloads);
    ItemPlace(items, total, k);
    if count > 0 {
      ItemIntact(ring, stream[..moment], start, count, t);
      PayloadsOfPrefix(stream, moment, PACKET_SIZE * start, count, t);
    }
  }

  /** For each item, which demultiplexers exist while it is processed. */
  predicate AllDemuxes(demuxes: seq<seq<bool>>) {
    forall k | 0 <= k < |demuxes| :: |demuxes[k]| == TAG_COUNT
  }

  /** The payloads of stream t in the first n items, without the items for which it has no
      demultiplexer. */
  function Wanted(stream: seq<Byte>, items: seq<Item>, n: nat, demuxes: seq<seq<bool>>, t: nat): seq<Byte>
    requires n <= |items| && n <= |demuxes| && AllDemuxes(demuxes) && t < TAG_COUNT
    requires PACKET_SIZE * Start(items, n) <= |stream|
  {
    if n == 0 then []
    else
      var m := n - 1;
      StartGrows(items, m, n);
      Wanted(stream, items, m, demuxes, t) + WantedOf(stream, items, m, demuxes[m], t)
  }

  /** What item k holds of stream t, if there is a demultiplexer for it. */
  function WantedOf(stream: seq<Byte>, items: seq<Item>, k: nat, demux: seq<bool>, t: nat): seq<Byte>
    requires k < |items| && |demux| == TAG_COUNT && t < TAG_COUNT
    requires PACKET_SIZE * Start(items, k + 1) <= |stream|
  {
    if demux[t] then Payloads(stream, PACKET_SIZE * Start(items, k), items[k].count, t) else []
  }

  /** A stream with a demultiplexer throughout wants all its payloads. */
  lemma {:induction false} AllWanted(stream: seq<Byte>, items: seq<Item>, n: nat, demuxes: seq<seq<bool>>, t: nat)
    requires n <= |items| && n <= |demuxes| && AllDemuxes(demuxes) && t < TAG_COUNT
    requires PACKET_SIZE * Start(items, n) <= |stream| && forall k | 0 <= k < n :: demuxes[k][t]
    ensures Wanted(stream, items, n, demuxes, t) == Payloads(stream, 0, Start(items, n), t)
    decreases n
  {
    hide Payloads;
    if n == 0 {
      NothingDelivered([], stream, t);
    } else {
      var m := n - 1;
      StartGrows(items, m, n);
      AllWanted(stream, items, m, demuxes, t);
      PayloadsConcat(stream, Start(items, m), items[m].count, t);
    }
  }

  /** Every stream receives the payloads of its packets in the items that were processed while it had
      a demultiplexer, each once and in the order in which the hardware wrote them. */
  lemma {:induction false} ItemsDeliverStream(ring: Ring, stream: seq<Byte>, items: seq<Item>, total: nat, n: nat,
                                              moments: seq<nat>, demuxes: seq<seq<bool>>, calls: seq<seq<Call>>, t: nat)
    requires Slots(items) == Laps(total) && n <= |items| && (forall k | 0 <= k < |items| :: items[k].Inside())
    requires InTime(items[..n], moments, stream) && |calls| == |demuxes| == n && AllDemuxes(demuxes) && t < TAG_COUNT
    requires forall k | 0 <= k < n :: Injected(ring, stream, items[k], moments[k], demuxes[k], calls[k])
    ensures PACKET_SIZE * Start(items, n) <= |stream|
    ensures Flatten(Batches(AllCalls(calls), t)) == Wanted(stream, items, n, demuxes, t)
    decreases n
  {
    hide Slots, Laps, RingAfter, Batches, Flatten, Item.Inside, Injected, Payloads, InTime, AllCalls;
    if n == 0 {
      NothingDelivered(calls, stream, t);
    } else {
      var m := n - 1;
      InTimeShorter(items, n, moments, stream);
      ItemsDeliverStream(ring, stream, items, total, m, moments[..m], demuxes[..m], calls[..m], t);
      ItemDelivers(ring, stream, items, total, m, moments[m], demuxes[m], calls[m], t);
      OneMoreItem(calls, t);
      SameWanted(stream, items, m, demuxes[..m], demuxes, t);
    }
  }

  lemma {:induction false} SameWanted(stream: seq<Byte>, items: seq<Item>, n: nat, a: seq<seq<bool>>, b: seq<seq<bool>>,
                                      t: nat)
    requires n <= |items| && n <= |a| && n <= |b| && AllDemuxes(a) && AllDemuxes(b) && t < TAG_COUNT
    requires PACKET_SIZE * Start(items, n) <= |stream| && forall k | 0 <= k < n :: a[k] == b[k]
    ensures Wanted(stream, items, n, a, t) == Wanted(stream, items, n, b, t)
    decreases n
  {
    hide Payloads;
    if n > 0 {
      StartGrows(items, n - 1, n);
      SameWanted(stream, items, n - 1, a, b, t);
    }
  }

  lemma OneMoreItem(calls: seq<seq<Call>>, t: nat)
    requires calls != []
    ensures var m := |calls| - 1;
            Flatten(Batches(AllCalls(calls), t))
            == Flatten(Batches(AllCalls(calls[..m]), t)) + Flatten(Batches(calls[m], t))
  {
    hide Batches, Flatten;
    var m := |calls| - 1;
    BatchesConcat(AllCalls(calls[..m]), calls[m], t);
    FlattenConcat(Batches(AllCalls(calls[..m]), t), Batches(calls[m], t));
  }

  lemma NothingDelivered(calls: seq<seq<Call>>, stream: seq<Byte>, t: nat)
    requires calls == []
    ensures Flatten(Batches(AllCalls(calls), t)) == [] && Payloads(stream, 0, 0, t) == []
  {
  }

  lemma InTimeShorter(items: seq<Item>, n: nat, moments: seq<nat>, stream: seq<Byte>)
    requires 0 < n <= |items| && InTime(items[..n], moments, stream)
    ensures var m := n - 1;
            && InTime(items[..m], moments[..m], stream) && |moments| == n
            && PACKET_SIZE * (Start(items, m) + items[m].count) <= moments[m] <= |stream|
            && moments[m] <= PACKET_SIZE * Start(items, m) + RING_SIZE
  {
    hide Start;
    var m := n - 1;
    StartOfPrefix(items, n, m);
    assert items[..n][m] == items[m];
    forall k | 0 <= k < m ensures Start(items[..m], k) == Start(items[..n], k) && items[..m][k] == items[..n][k] {
      StartOfPrefix(items, m, k);
      StartOfPrefix(items, n, k);
    }
  }

  lemma {:induction false} SameItems(stream: seq<Byte>, a: seq<Item>, b: seq<Item>, n: nat, m: nat,
                                     demuxes: seq<seq<bool>>, t: nat)
    requires n <= m <= |b| && n <= |demuxes| && AllDemuxes(demuxes) && t < TAG_COUNT && a == b[..m]
    requires PACKET_SIZE * Start(b, n) <= |stream|
    ensures Start(a, n) == Start(b, n) && Wanted(stream, a, n, demuxes, t) == Wanted(stream, b, n, demuxes, t)
    decreases n
  {
    hide Payloads, Start;
    StartOfPrefix(b, m, n);
    if n > 0 {
      StartOfPrefix(b, m, n - 1);
      StartGrows(b, n - 1, n);
      SameItems(stream, a, b, n - 1, m, demuxes, t);
    }
  }

  /** What the injector did in some state of the queue: it processed each of its items in time, with
      the demultiplexers that existed then. */
  ghost predicate Processed(s: Queue.State, ring: Ring, stream: seq<Byte>, moments: seq<nat>, demuxes: seq<seq<bool>>,
                            calls: seq<seq<Call>>) {
    && |calls| == |demuxes| == |s.consumed| && AllDemuxes(demuxes) && InTime(s.consumed, moments, stream)
    && forall k | 0 <= k < |s.consumed| ::
         s.consumed[k].Inside() && Injected(ring, stream, s.consumed[k], moments[k], demuxes[k], calls[k])
  }

  /** The whole way.  In any state of any run of the queue with fewer than 400 outstanding items, in
      which the poller enters its items in order and the injector processes each of them in time,
      stream t has received exactly the payloads of its packets among those processed, in order,
      except for the items that were processed while it had no demultiplexer. */
  lemma EndToEnd(p: Poller, run: seq<Queue.State>, ring: Ring, stream: seq<Byte>, moments: seq<nat>,
                 demuxes: seq<seq<bool>>, calls: seq<seq<Call>>, t: nat)
    requires p.Valid() && Queue.IsRun(run) && t < TAG_COUNT
    requires var s := run[|run| - 1];
             && s.peak < Queue.QUEUE_SIZE && s.produced <= p.enqueued
             && Processed(s, ring, stream, moments, demuxes, calls)
    ensures var s := run[|run| - 1];
            var n := |s.consumed|;
            && Start(s.consumed, n) <= p.total && PACKET_SIZE * Start(s.consumed, n) <= |stream|
            && Flatten(Batches(AllCalls(calls), t)) == Wanted(stream, s.consumed, n, demuxes, t)
            && ((forall k | 0 <= k < n :: demuxes[k][t]) ==>
                  Flatten(Batches(AllCalls(calls), t)) == Payloads(stream, 0, Start(s.consumed, n), t))
  {
    hide Slots, Laps, RingAfter, Batches, Flatten, Item.Inside, Injected, Payloads, InTime, Wanted;
    var s := run[|run| - 1];
    Queue.RunIsSafe(run, |run| - 1);
    var n := |s.consumed|;
    assert s.consumed == p.enqueued[..n];
    ItemsDeliverStream(ring, stream, p.enqueued, p.total, n, moments, demuxes, calls, t);
    StartOfPrefix(p.enqueued, n, n);
    StartGrows(p.enqueued, n, |p.enqueued|);
    SlotsLength(p.enqueued);
    SameItems(stream, s.consumed, p.enqueued, n, n, demuxes, t);
    if forall k | 0 <= k < n :: demuxes[k][t] {
      AllWanted(stream, s.consumed, n, demuxes, t);
    }
  }
}
