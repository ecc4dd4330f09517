/** The injector's demultiplexing of one work item (driver/pti/pti_main.c, stream_injector):
    packets are sorted by their tag, stripped of the 6-byte header, collected in one buffer
    per tag and handed over in batches of up to twenty. */
module PtiDemux {
  import opened Bytes

  const TAG_COUNT := 4
  const AUX_COUNT := 20
  const HEADER_SIZE := 6
  const PACKET_SIZE := 194
  const PAYLOAD := 188
  const BATCH := PAYLOAD * AUX_COUNT

  /** One call of the demultiplexer: the stream and the packets passed to it. */
  datatype Call = Call(tag: nat, data: seq<Byte>, count: nat)

  /** The tag in bits 2 to 5 of the first header byte. */
  function Tag(first: Byte): nat {
    first / 4 % 16
  }

  /** Which first bytes belong to a tag: four in every 64. */
  lemma TagIs(first: Byte, t: nat)
    ensures Tag(first) == t <==> 4 * t <= first % 64 < 4 * t + 4
  {
    var laps, rest := first / 64, first % 64;
    assert first / 4 == 16 * laps + rest / 4;
    assert (16 * laps + rest / 4) % 16 == rest / 4;
  }

  /** What a packet contributes to stream t: its 188 bytes after the header, if the low six bits of its
      first byte are those of the stream. */
  function Part(buffer: seq<Byte>, at: nat, t: nat): seq<Byte>
    requires at + PACKET_SIZE <= |buffer|
  {
    if 4 * t <= buffer[at] % 64 < 4 * t + 4 then buffer[at + 6..at + 194] else []
  }

  /** The payloads of stream t among n packets, in order. */
  function Payloads(buffer: seq<Byte>, offset: nat, n: nat, t: nat): seq<Byte>
    requires offset + n * PACKET_SIZE <= |buffer|
  {
    if n == 0 then []
    else Payloads(buffer, offset, n - 1, t) + Part(buffer, offset + (n - 1) * PACKET_SIZE, t)
  }

  /** The buffers passed on for stream t, in order. */
  function Batches(calls: seq<Call>, t: nat): seq<seq<Byte>> {
    if calls == [] then []
    else
      var last := calls[|calls| - 1];
      Batches(calls[..|calls| - 1], t) + if last.tag == t then [last.data] else []
  }

  function Flatten(bs: seq<seq<Byte>>): seq<Byte> {
    if bs == [] then [] else Flatten(bs[..|bs| - 1]) + bs[|bs| - 1]
  }

  /** A call is for an existing demultiplexer and carries between one and twenty packets. */
  predicate GoodCall(c: Call, demux: seq<bool>) {
    c.tag < |demux| && demux[c.tag] && 1 <= c.count <= 20 && |c.data| == 188 * c.count
  }

  /** What arrives at stream t is complete and in order, in batches of twenty packets; only the last
      batch may be short. */
  ghost predicate Delivered(calls: seq<Call>, t: nat, expected: seq<Byte>) {
    var bs := Batches(calls, t);
    Flatten(bs) == expected && forall k | 0 <= k < |bs| - 1 :: |bs[k]| == 20 * 188
  }

  lemma BatchesAppend(calls: seq<Call>, c: Call, t: nat)
    ensures Batches(calls + [c], t) == Batches(calls, t) + if c.tag == t then [c.data] else []
  {
    assert (calls + [c])[..|calls|] == calls;
  }

  lemma FlattenAppend(bs: seq<seq<Byte>>, b: seq<Byte>)
    ensures Flatten(bs + [b]) == Flatten(bs) + b
  {
    assert (bs + [b])[..|bs|] == bs;
  }

  /** While packets are being sorted: full batches were passed on, the rest is collected. */
  ghost predicate Collected(calls: seq<Call>, t: nat, collected: seq<Byte>, expected: seq<Byte>) {
    var bs := Batches(calls, t);
    Flatten(bs) + collected == expected && forall k | 0 <= k < |bs| :: |bs[k]| == BATCH
  }

  lemma CollectMore(calls: seq<Call>, t: nat, collected: seq<Byte>, expected: seq<Byte>, part: seq<Byte>)
    requires Collected(calls, t, collected, expected)
    ensures Collected(calls, t, collected + part, expected + part)
  {
  }

  /** Passing on what was collected for tag c.tag. */
  lemma PassOn(calls: seq<Call>, c: Call, t: nat, collected: seq<Byte>, expected: seq<Byte>)
    requires Collected(calls, t, collected, expected)
    requires t == c.tag ==> c.data == collected
    ensures t == c.tag ==> Delivered(calls + [c], t, expected)
    ensures t == c.tag && |c.data| == BATCH ==> Collected(calls + [c], t, [], expected)
    ensures t != c.tag ==> Collected(calls + [c], t, collected, expected)
  {
    BatchesAppend(calls, c, t);
    FlattenAppend(Batches(calls, t), c.data);
    assert Batches(calls, t) + [] == Batches(calls, t);
  }

  // ---- sorting, on values ----

  /** The calls made so far, and per tag the payloads collected and their number. */
  datatype Sorter = Sorter(calls: seq<Call>, held: seq<seq<Byte>>, counts: seq<nat>) {
    predicate Shape() {
      |held| == |counts| == TAG_COUNT
    }

    /** One more payload for a tag; a full buffer is passed on. */
    function Store(tag: nat, part: seq<Byte>): Sorter
      requires Shape() && tag < TAG_COUNT
    {
      var more, n := held[tag] + part, counts[tag] + 1;
      if n >= AUX_COUNT then Sorter(calls + [Call(tag, more, n)], held[tag := []], counts[tag := 0])
      else Sorter(calls, held[tag := more], counts[tag := n])
    }

    /** Passes on what is left for a tag. */
    function FlushTag(tag: nat, demux: seq<bool>): Sorter
      requires Shape() && |demux| == TAG_COUNT && tag < TAG_COUNT
    {
      if counts[tag] > 0 && demux[tag] then Sorter(calls + [Call(tag, held[tag], counts[tag])], held, counts) else this
    }

    ghost predicate GoodCalls(demux: seq<bool>) {
      forall k | 0 <= k < |calls| :: GoodCall(calls[k], demux)
    }

    /** What holds for stream t after packets with the payloads `expected` were sorted. */
    ghost predicate Stream(demux: seq<bool>, t: nat, expected: seq<Byte>)
      requires Shape() && |demux| == TAG_COUNT && t < TAG_COUNT
    {
      && counts[t] < AUX_COUNT && |held[t]| == PAYLOAD * counts[t]
      && if demux[t] then Collected(calls, t, held[t], expected) else Batches(calls, t) == [] && counts[t] == 0
    }

    ghost predicate Sorted(demux: seq<bool>, buffer: seq<Byte>, offset: nat, n: nat)
      requires offset + n * PACKET_SIZE <= |buffer|
    {
      && Shape() && |demux| == TAG_COUNT && GoodCalls(demux)
      && forall t | 0 <= t < TAG_COUNT :: Stream(demux, t, Payloads(buffer, offset, n, t))
    }
  }

  /** Storing a payload keeps every stream in order. */
  lemma StoreKeeps(s: Sorter, demux: seq<bool>, tag: nat, part: seq<Byte>, t: nat, expected: seq<Byte>)
    requires s.Shape() && |demux| == TAG_COUNT && tag < TAG_COUNT && t < TAG_COUNT
    requires demux[tag] && |part| == PAYLOAD && s.GoodCalls(demux)
    requires s.counts[tag] < AUX_COUNT && |s.held[tag]| == PAYLOAD * s.counts[tag]
    requires s.Stream(demux, t, expected)
    ensures s.Store(tag, part).Stream(demux, t, if t == tag then expected + part else expected)
    ensures s.Store(tag, part).GoodCalls(demux)
  {
    hide Batches, Flatten;
    var more, n := s.held[tag] + part, s.counts[tag] + 1;
    if t == tag {
      CollectMore(s.calls, t, s.held[tag], expected, part);
      PassOn(s.calls, Call(tag, more, n), t, more, expected + part);
    } else if demux[t] {
      PassOn(s.calls, Call(tag, more, n), t, s.held[t], expected);
    } else {
      BatchesAppend(s.calls, Call(tag, more, n), t);
    }
  }

  /** Sorting one packet of the buffer. */
  function SortOne(s: Sorter, buffer: seq<Byte>, at: nat, demux: seq<bool>): Sorter
    requires s.Shape() && |demux| == TAG_COUNT && at + PACKET_SIZE <= |buffer|
  {
    var tag := Tag(buffer[at]);
    if tag < TAG_COUNT && demux[tag] then s.Store(tag, buffer[at + HEADER_SIZE..at + PACKET_SIZE]) else s
  }

  /** One more packet keeps one stream in order. */
  lemma SortOneStream(s: Sorter, demux: seq<bool>, buffer: seq<Byte>, offset: nat, n: nat, t: nat)
    requires offset + (n + 1) * PACKET_SIZE <= |buffer| && s.Sorted(demux, buffer, offset, n) && t < TAG_COUNT
    ensures var next := SortOne(s, buffer, offset + n * PACKET_SIZE, demux);
            next.Shape() && next.GoodCalls(demux) && next.Stream(demux, t, Payloads(buffer, offset, n + 1, t))
  {
    hide Sorter.Stream, Sorter.GoodCalls, Sorter.Store, Tag;
    var at := offset + n * PACKET_SIZE;
    var tag := Tag(buffer[at]);
    TagIs(buffer[at], t);
    StoreShape(s, demux, tag, at, buffer);
    var expected, part := Payloads(buffer, offset, n, t), Part(buffer, at, t);
    assert expected + [] == expected;
    StreamRoom(s, demux, t, expected);
    if tag < TAG_COUNT && demux[tag] {
      StreamRoom(s, demux, tag, Payloads(buffer, offset, n, tag));
      StoreKeeps(s, demux, tag, buffer[at + HEADER_SIZE..at + PACKET_SIZE], t, expected);
    } else if t == tag {
      AbsentStream(s, demux, t, expected, expected + part);
    }
  }

  lemma SortOneKeeps(s: Sorter, demux: seq<bool>, buffer: seq<Byte>, offset: nat, n: nat)
    requires offset + (n + 1) * PACKET_SIZE <= |buffer| && s.Sorted(demux, buffer, offset, n)
    ensures SortOne(s, buffer, offset + n * PACKET_SIZE, demux).Sorted(demux, buffer, offset, n + 1)
  {
    hide Sorter.Stream, Sorter.GoodCalls, SortOne, Payloads;
    var next, m := SortOne(s, buffer, offset + n * PACKET_SIZE, demux), n + 1;
    SortOneStream(s, demux, buffer, offset, n, 0);
    forall t | 0 <= t < TAG_COUNT ensures next.Stream(demux, t, Payloads(buffer, offset, m, t)) {
      SortOneStream(s, demux, buffer, offset, n, t);
    }
  }

  lemma StoreShape(s: Sorter, demux: seq<bool>, tag: nat, at: nat, buffer: seq<Byte>)
    requires s.Shape() && |demux| == TAG_COUNT && at + PACKET_SIZE <= |buffer| && tag == Tag(buffer[at])
    ensures SortOne(s, buffer, at, demux).Shape()
  {
  }

  lemma StreamRoom(s: Sorter, demux: seq<bool>, t: nat, expected: seq<Byte>)
    requires s.Shape() && |demux| == TAG_COUNT && t < TAG_COUNT && s.Stream(demux, t, expected)
    ensures s.counts[t] < AUX_COUNT && |s.held[t]| == PAYLOAD * s.counts[t]
  {
  }

  lemma AbsentStream(s: Sorter, demux: seq<bool>, t: nat, expected: seq<Byte>, other: seq<Byte>)
    requires s.Shape() && |demux| == TAG_COUNT && t < TAG_COUNT && !demux[t] && s.Stream(demux, t, expected)
    ensures s.Stream(demux, t, other)
  {
  }

  /** The remainders of the first n tags are passed on. */
  ghost predicate Flushed(s: Sorter, demux: seq<bool>, buffer: seq<Byte>, offset: nat, count: nat, n: nat)
    requires offset + count * PACKET_SIZE <= |buffer| && n <= TAG_COUNT
  {
    && s.Shape() && |demux| == TAG_COUNT && s.GoodCalls(demux)
    && (forall t | 0 <= t < n :: Complete(s.calls, demux, t, Payloads(buffer, offset, count, t)))
    && (forall t | n <= t < TAG_COUNT :: s.Stream(demux, t, Payloads(buffer, offset, count, t)))
  }

  /** Stream t received all of its payloads, and nothing when it has no demultiplexer. */
  ghost predicate Complete(calls: seq<Call>, demux: seq<bool>, t: nat, expected: seq<Byte>)
    requires t < |demux|
  {
    if demux[t] then Delivered(calls, t, expected) else Batches(calls, t) == []
  }

  lemma FlushTagKeeps(s: Sorter, demux: seq<bool>, tag: nat, t: nat, expected: seq<Byte>)
    requires s.Shape() && |demux| == TAG_COUNT && tag < TAG_COUNT && t < TAG_COUNT && s.GoodCalls(demux)
    requires s.counts[tag] < AUX_COUNT && |s.held[tag]| == PAYLOAD * s.counts[tag]
    ensures s.FlushTag(tag, demux).GoodCalls(demux)
    ensures t == tag && s.Stream(demux, t, expected) ==> Complete(s.FlushTag(tag, demux).calls, demux, t, expected)
    ensures t != tag && s.Stream(demux, t, expected) ==> s.FlushTag(tag, demux).Stream(demux, t, expected)
    ensures t != tag && Complete(s.calls, demux, t, expected) ==>
              Complete(s.FlushTag(tag, demux).calls, demux, t, expected)
  {
    hide Batches, Flatten;
    var c := Call(tag, s.held[tag], s.counts[tag]);
    BatchesAppend(s.calls, c, t);
    assert Batches(s.calls, t) + [] == Batches(s.calls, t);
    if s.counts[tag] > 0 && demux[tag] {
      if s.Stream(demux, t, expected) && demux[t] {
        PassOn(s.calls, c, t, s.held[t], expected);
      }
    } else {
      assert Flatten(Batches(s.calls, t)) + [] == Flatten(Batches(s.calls, t));
      if s.Stream(demux, t, expected) && s.counts[t] == 0 {
        assert s.held[t] == [];
      }
    }
  }

  lemma FlushOneKeeps(s: Sorter, demux: seq<bool>, buffer: seq<Byte>, offset: nat, count: nat, n: nat)
    requires offset + count * PACKET_SIZE <= |buffer| && n < TAG_COUNT && Flushed(s, demux, buffer, offset, count, n)
    ensures Flushed(s.FlushTag(n, demux), demux, buffer, offset, count, n + 1)
  {
    hide Sorter.Stream, Sorter.GoodCalls, Complete;
    StreamRoom(s, demux, n, Payloads(buffer, offset, count, n));
    forall t | 0 <= t < TAG_COUNT
      ensures s.FlushTag(n, demux).GoodCalls(demux)
      ensures t <= n ==> Complete(s.FlushTag(n, demux).calls, demux, t, Payloads(buffer, offset, count, t))
      ensures t > n ==> s.FlushTag(n, demux).Stream(demux, t, Payloads(buffer, offset, count, t))
    {
      FlushTagKeeps(s, demux, n, t, Payloads(buffer, offset, count, t));
    }
  }

  // ---- sorting, in place ----

  /** The static buffers, one per tag. */
  ghost predicate AuxOk(aux: seq<array<Byte>>) {
    && |aux| == TAG_COUNT
    && (forall t | 0 <= t < TAG_COUNT :: aux[t].Length == BATCH)
    && (forall t, u | 0 <= t < u < TAG_COUNT :: aux[t] != aux[u])
  }

  /** The sorter that the buffers, the cursors and the counters stand for. */
  ghost predicate Holds(s: Sorter, aux: seq<array<Byte>>, pTo: array<nat>, count1: array<nat>)
    reads aux, pTo, count1
  {
    && AuxOk(aux) && s.Shape() && pTo.Length == count1.Length == TAG_COUNT && s.counts == count1[..]
    && forall t | 0 <= t < TAG_COUNT ::
         count1[t] < AUX_COUNT && pTo[t] == PAYLOAD * count1[t] && aux[t][..pTo[t]] == s.held[t]
  }

  /** Sorts and passes on the packets of one work item; `demux` says which demultiplexers
      exist.  Returns the calls that were made. */
  method Inject(back: array<Byte>, offset: nat, count: nat, demux: seq<bool>, aux: seq<array<Byte>>)
    returns (calls: seq<Call>)
    requires offset + count * PACKET_SIZE <= back.Length
    requires |demux| == TAG_COUNT && AuxOk(aux) && back !in aux
    modifies aux
    ensures forall k | 0 <= k < |calls| :: GoodCall(calls[k], demux)
    ensures forall t | 0 <= t < TAG_COUNT :: Complete(calls, demux, t, Payloads(back[..], offset, count, t))
  {
    hide Holds, Sorter.Sorted, SortOne, Flushed, Complete, Payloads;
    ghost var buffer := back[..];
    var pTo, count1 := new nat[TAG_COUNT](_ => 0), new nat[TAG_COUNT](_ => 0);
    calls := [];
    ghost var s := Sorter([], [[], [], [], []], [0, 0, 0, 0]);
    NothingSorted(s, demux, buffer, offset);
    NothingHeld(s, aux, pTo, count1);
    var from := offset;
    for n := 0 to count
      invariant from == offset + n * PACKET_SIZE
      invariant back[..] == buffer && s.Shape() && s.calls == calls
      invariant Holds(s, aux, pTo, count1) && s.Sorted(demux, buffer, offset, n)
    {
      SortOneKeeps(s, demux, buffer, offset, n);
      SortedShape(SortOne(s, buffer, from, demux), demux, buffer, offset, n + 1);
      calls := SortPacket(back, from, demux, aux, pTo, count1, calls, s);
      s := SortOne(s, buffer, from, demux);
      from := from + PACKET_SIZE;
    }
    SortedFlushed(s, demux, buffer, offset, count);
    for n := 0 to TAG_COUNT
      invariant back[..] == buffer && s.Shape() && s.calls == calls
      invariant Holds(s, aux, pTo, count1) && Flushed(s, demux, buffer, offset, count, n)
    {
      FlushOneKeeps(s, demux, buffer, offset, count, n);
      HeldPart(s, aux, pTo, count1, n);
      if count1[n] > 0 && demux[n] {
        calls := calls + [Call(n, aux[n][..PAYLOAD * count1[n]], count1[n])];
      }
      StillHeld(s, s.FlushTag(n, demux), aux, pTo, count1);
      s := s.FlushTag(n, demux);
    }
    AllFlushed(s, demux, buffer, offset, count);
  }

  lemma NothingSorted(s: Sorter, demux: seq<bool>, buffer: seq<Byte>, offset: nat)
    requires offset <= |buffer| && |demux| == TAG_COUNT && s == Sorter([], [[], [], [], []], [0, 0, 0, 0])
    ensures s.Sorted(demux, buffer, offset, 0)
  {
  }

  lemma NothingHeld(s: Sorter, aux: seq<array<Byte>>, pTo: array<nat>, count1: array<nat>)
    requires AuxOk(aux) && s == Sorter([], [[], [], [], []], [0, 0, 0, 0]) && pTo.Length == count1.Length == TAG_COUNT
    requires forall t | 0 <= t < TAG_COUNT :: pTo[t] == 0 && count1[t] == 0
    ensures Holds(s, aux, pTo, count1)
  {
  }

  lemma SortedShape(s: Sorter, demux: seq<bool>, buffer: seq<Byte>, offset: nat, n: nat)
    requires offset + n * PACKET_SIZE <= |buffer| && s.Sorted(demux, buffer, offset, n)
    ensures s.Shape()
  {
  }

  lemma SortedFlushed(s: Sorter, demux: seq<bool>, buffer: seq<Byte>, offset: nat, count: nat)
    requires offset + count * PACKET_SIZE <= |buffer| && s.Sorted(demux, buffer, offset, count)
    ensures Flushed(s, demux, buffer, offset, count, 0)
  {
  }

  lemma AllFlushed(s: Sorter, demux: seq<bool>, buffer: seq<Byte>, offset: nat, count: nat)
    requires offset + count * PACKET_SIZE <= |buffer| && Flushed(s, demux, buffer, offset, count, TAG_COUNT)
    ensures |demux| == TAG_COUNT && s.GoodCalls(demux)
    ensures forall t | 0 <= t < TAG_COUNT :: Complete(s.calls, demux, t, Payloads(buffer, offset, count, t))
  {
  }

  lemma HeldPart(s: Sorter, aux: seq<array<Byte>>, pTo: array<nat>, count1: array<nat>, t: nat)
    requires Holds(s, aux, pTo, count1) && t < TAG_COUNT
    ensures AuxOk(aux) && s.Shape() && count1.Length == TAG_COUNT && count1[t] == s.counts[t] < AUX_COUNT
    ensures aux[t][..PAYLOAD * count1[t]] == s.held[t]
  {
  }

  lemma StillHeld(s: Sorter, s': Sorter, aux: seq<array<Byte>>, pTo: array<nat>, count1: array<nat>)
    requires Holds(s, aux, pTo, count1) && s'.held == s.held && s'.counts == s.counts
    ensures Holds(s', aux, pTo, count1)
  {
  }

  /** One round of the sorting loop. */
  method SortPacket(back: array<Byte>, from: nat, demux: seq<bool>, aux: seq<array<Byte>>, pTo: array<nat>,
                    count1: array<nat>, calls0: seq<Call>, ghost s: Sorter)
    returns (calls: seq<Call>)
    requires from + PACKET_SIZE <= back.Length && |demux| == TAG_COUNT
    requires back !in aux && pTo != count1
    requires forall a: object | a in aux || a == back :: a != pTo && a != count1
    requires s.Shape() && s.calls == calls0 && Holds(s, aux, pTo, count1)
    modifies aux, pTo, count1
    ensures back[..] == old(back[..])
    ensures Holds(SortOne(s, back[..], from, demux), aux, pTo, count1)
    ensures calls == SortOne(s, back[..], from, demux).calls
  {
    calls := calls0;
    var tag := Tag(back[from]);
    if tag < TAG_COUNT && demux[tag] {
      CopyTo(aux[tag], pTo[tag], back[from + HEADER_SIZE..from + PACKET_SIZE]);
      pTo[tag] := pTo[tag] + PAYLOAD;
      count1[tag] := count1[tag] + 1;
      if count1[tag] >= AUX_COUNT {
        calls := calls + [Call(tag, aux[tag][..PAYLOAD * count1[tag]], count1[tag])];
        pTo[tag] := 0;
        count1[tag] := 0;
      }
    }
  }

  method CopyTo(a: array<Byte>, at: nat, s: seq<Byte>)
    requires at + |s| <= a.Length
    modifies a
    ensures a[..at + |s|] == old(a[..at]) + s
    ensures a[at + |s|..] == old(a[at + |s|..])
  {
    for i := 0 to |s|
      invariant a[..at + i] == old(a[..at]) + s[..i]
      invariant a[at + i..] == old(a[at + i..])
    {
      a[at + i] := s[i];
    }
  }
}
