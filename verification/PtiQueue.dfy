/** The work queue between the polling timer and the injector thread (driver/pti/pti_main.c):
    400 slots, a write index, a read index and a counting semaphore, but no check that the
    queue is full.  Every access to shared data is a step of its own, in any interleaving. */
module PtiQueue {
  import opened PtiRing

  const QUEUE_SIZE := 400

  /** Where the poller is between two items. */
  datatype Poll = Idle | Offset(item: Item) | Count(item: Item) | Advance(item: Item) | Up

  /** Where the injector is: waiting for the semaphore, woken, past the check for an empty
      queue, holding the offset, holding both, or ended by a signal. */
  datatype Inject = Waiting | Woken | Checked | HasOffset(offset: nat) | HasItem(offset: nat, count: nat) | Ended

  datatype State = State(
    offsets: seq<nat>, counts: seq<nat>, writeIndex: nat, readIndex: nat, sem: nat,
    poll: Poll, inject: Inject,
    produced: seq<Item>,   // history: items entered into the queue
    consumed: seq<Item>,   // history: items processed
    discarded: nat,        // history: wake-ups that found the indices equal
    peak: nat              // history: the most items ever outstanding
  )

  predicate Init(s: State) {
    && |s.offsets| == |s.counts| == QUEUE_SIZE
    && s.writeIndex == s.readIndex == s.sem == s.discarded == s.peak == 0
    && s.poll == Idle && s.inject == Waiting && s.produced == [] && s.consumed == []
  }

  /** Steps of the poller: fill in the slot, advance the write index, signal. */
  predicate PollStep(s: State, s': State) {
    match s.poll
    case Idle => s'.poll.Offset? && s' == s.(poll := s'.poll)
    case Offset(item) =>
      s.writeIndex < |s.offsets| &&
      s' == s.(offsets := s.offsets[s.writeIndex := item.offset], poll := Count(item))
    case Count(item) =>
      s.writeIndex < |s.counts| &&
      s' == s.(counts := s.counts[s.writeIndex := item.count], poll := Advance(item))
    case Advance(item) =>
      var out := |s.produced| + 1 - |s.consumed|;
      s' == s.(writeIndex := (s.writeIndex + 1) % QUEUE_SIZE, poll := Up,
               produced := s.produced + [item], peak := if out > s.peak then out else s.peak)
    case Up => s' == s.(sem := s.sem + 1, poll := Idle)
  }

  /** Steps of the injector: wait, check, read the slot, process, advance the read index. */
  predicate InjectStep(s: State, s': State) {
    match s.inject
    case Waiting =>
      || (s.sem > 0 && s' == s.(sem := s.sem - 1, inject := Woken))
      || s' == s.(inject := Ended)
    case Woken =>
      if s.writeIndex == s.readIndex then s' == s.(inject := Waiting, discarded := s.discarded + 1)
      else s' == s.(inject := Checked)
    case Checked =>
      s.readIndex < |s.offsets| && s' == s.(inject := HasOffset(s.offsets[s.readIndex]))
    case HasOffset(offset) =>
      s.readIndex < |s.counts| && s' == s.(inject := HasItem(offset, s.counts[s.readIndex]))
    case HasItem(offset, count) =>
      s' == s.(readIndex := (s.readIndex + 1) % QUEUE_SIZE, inject := Waiting,
               consumed := s.consumed + [Item(offset, count)])
    case Ended => false
  }

  ghost predicate IsRun(run: seq<State>) {
    && |run| > 0 && Init(run[0])
    && forall k | 0 <= k < |run| - 1 :: PollStep(run[k], run[k + 1]) || InjectStep(run[k], run[k + 1])
  }

  function Outstanding(s: State): int {
    |s.produced| - |s.consumed|
  }

  /** The item that the injector has claimed by passing its check, if any. */
  function Claimed(s: State): nat {
    if s.inject.Checked? || s.inject.HasOffset? || s.inject.HasItem? then 1 else 0
  }

  /** The wake-up that the injector has taken and not yet used up. */
  function Taken(s: State): nat {
    if s.inject.Woken? then 1 else Claimed(s)
  }

  /** The item that was entered but not yet signalled. */
  function Unsignalled(s: State): nat {
    if s.poll.Up? then 1 else 0
  }

  /** The largest number of whole laps of the queue that fit into n items. */
  function WholeLaps(n: nat): nat {
    QUEUE_SIZE * (n / QUEUE_SIZE)
  }

  /** Wake-ups account exactly for items and discards; a discard needs a full lap of items. */
  predicate Balanced(s: State) {
    && |s.offsets| == |s.counts| == QUEUE_SIZE
    && s.writeIndex == |s.produced| % QUEUE_SIZE
    && s.readIndex == |s.consumed| % QUEUE_SIZE
    && 0 <= Outstanding(s) - Claimed(s) && Outstanding(s) <= s.peak
    && s.sem + Unsignalled(s) + Taken(s) + s.discarded == Outstanding(s)
    && s.discarded <= WholeLaps(Outstanding(s) - Claimed(s))
  }

  lemma WholeLapsGrow(a: nat, b: nat)
    requires a <= b
    ensures WholeLaps(a) <= WholeLaps(b) <= b
  {
  }

  lemma ModSame(a: nat, b: nat)
    requires b <= a
    ensures a % QUEUE_SIZE == b % QUEUE_SIZE ==> WholeLaps(a - b) == a - b
    ensures a % QUEUE_SIZE != b % QUEUE_SIZE ==> a > b && WholeLaps(a - b - 1) == WholeLaps(a - b)
  {
    var q, r, q', r' := a / QUEUE_SIZE, a % QUEUE_SIZE, b / QUEUE_SIZE, b % QUEUE_SIZE;
    assert a - b == QUEUE_SIZE * (q - q') + (r - r');
  }

  lemma NextIndex(n: nat)
    ensures (n + 1) % QUEUE_SIZE == (n % QUEUE_SIZE + 1) % QUEUE_SIZE
  {
  }

  lemma BalancedPoll(s: State, s': State)
    requires Balanced(s) && PollStep(s, s')
    ensures Balanced(s')
  {
    hide WholeLaps;
    if s.poll.Advance? {
      NextIndex(|s.produced|);
      WholeLapsGrow(Outstanding(s) - Claimed(s), Outstanding(s) + 1 - Claimed(s));
    }
  }

  lemma BalancedInject(s: State, s': State)
    requires Balanced(s) && InjectStep(s, s')
    ensures Balanced(s')
  {
    hide WholeLaps;
    ModSame(|s.produced|, |s.consumed|);
    NextIndex(|s.consumed|);
  }

  /** In every reachable state a nonempty queue has a wake-up pending: the semaphore, the item
      being signalled and the wake-up in the injector's hands cover the distance of the indices. */
  predicate WakeUpPending(s: State) {
    s.sem + Unsignalled(s) + Taken(s) >= (s.writeIndex - s.readIndex + QUEUE_SIZE) % QUEUE_SIZE
  }

  lemma BalancedWakesUp(s: State)
    requires Balanced(s)
    ensures WakeUpPending(s)
    ensures s.poll.Idle? && s.inject.Waiting? ==> s.sem >= (s.writeIndex - s.readIndex + QUEUE_SIZE) % QUEUE_SIZE
  {
    var w, r, d := |s.produced|, |s.consumed|, Outstanding(s);
    WholeLapsGrow(d - Claimed(s), d);
    Distance(w, r);
  }

  lemma Distance(w: nat, r: nat)
    requires r <= w
    ensures (w % QUEUE_SIZE - r % QUEUE_SIZE + QUEUE_SIZE) % QUEUE_SIZE == (w - r) - WholeLaps(w - r)
  {
    var q, q' := w / QUEUE_SIZE, r / QUEUE_SIZE;
    var x := w % QUEUE_SIZE - r % QUEUE_SIZE + QUEUE_SIZE;
    assert w - r == QUEUE_SIZE * (q - q' - 1) + x;
    ModOf(w - r, q - q' - 1, x);
  }

  lemma ModOf(n: nat, k: int, x: int)
    requires n == QUEUE_SIZE * k + x && 0 < x < 2 * QUEUE_SIZE
    ensures x % QUEUE_SIZE == n - WholeLaps(n)
  {
    if x < QUEUE_SIZE {
      assert n / QUEUE_SIZE == k;
    } else {
      assert n / QUEUE_SIZE == k + 1;
    }
  }

  // ---- first in, first out ----

  /** The slots that hold an item which is entered and not yet processed. */
  predicate SlotsHold(s: State)
    requires |s.offsets| == |s.counts| == QUEUE_SIZE
  {
    forall i | |s.consumed| <= i < |s.produced| ::
      s.offsets[i % QUEUE_SIZE] == s.produced[i].offset && s.counts[i % QUEUE_SIZE] == s.produced[i].count
  }

  /** Nothing was discarded, what was processed is what was entered, and what either side has
      in its hands belongs to the item it works on. */
  predicate Fifo(s: State)
    requires Balanced(s)
  {
    && s.discarded == 0
    && s.consumed <= s.produced
    && SlotsHold(s)
    && (s.poll.Count? ==> s.offsets[s.writeIndex] == s.poll.item.offset)
    && (s.poll.Advance? ==>
          s.offsets[s.writeIndex] == s.poll.item.offset && s.counts[s.writeIndex] == s.poll.item.count)
    && (s.inject.HasOffset? ==> s.inject.offset == s.produced[|s.consumed|].offset)
    && (s.inject.HasItem? ==> s.inject.offset == s.produced[|s.consumed|].offset
                              && s.inject.count == s.produced[|s.consumed|].count)
  }

  lemma OtherSlot(i: nat, w: nat)
    requires i < w && w - i < QUEUE_SIZE
    ensures i % QUEUE_SIZE != w % QUEUE_SIZE
  {
    ModSame(w, i);
    assert WholeLaps(w - i) == 0;
  }

  lemma FifoPoll(s: State, s': State)
    requires Balanced(s) && Balanced(s') && PollStep(s, s') && Fifo(s) && s'.peak < QUEUE_SIZE
    ensures Fifo(s')
  {
    forall i | |s.consumed| <= i < |s.produced|
      ensures i % QUEUE_SIZE != s.writeIndex
    {
      OtherSlot(i, |s.produced|);
    }
  }

  lemma FifoInject(s: State, s': State)
    requires Balanced(s) && Balanced(s') && InjectStep(s, s') && Fifo(s) && s'.peak < QUEUE_SIZE
    ensures Fifo(s')
  {
    ModSame(|s.produced|, |s.consumed|);
  }

  // ---- whole runs ----

  /** In every state of every run wake-ups are balanced and none is missing; as long as fewer
      than 400 items have ever been outstanding, items are processed once each and in order. */
  lemma {:induction false} RunIsSafe(run: seq<State>, k: nat)
    requires IsRun(run) && k < |run|
    ensures Balanced(run[k]) && WakeUpPending(run[k])
    ensures run[k].peak < QUEUE_SIZE ==> Fifo(run[k])
  {
    hide Balanced, Fifo, WakeUpPending;
    if k == 0 {
      RunStarts(run[0]);
    } else {
      RunIsSafe(run, k - 1);
      var s, s' := run[k - 1], run[k];
      assert PollStep(run[k - 1], run[k - 1 + 1]) || InjectStep(run[k - 1], run[k - 1 + 1]);
      PeakGrows(s, s');
      if PollStep(s, s') {
        BalancedPoll(s, s');
        if s'.peak < QUEUE_SIZE {
          FifoPoll(s, s');
        }
      } else {
        BalancedInject(s, s');
        if s'.peak < QUEUE_SIZE {
          FifoInject(s, s');
        }
      }
    }
    BalancedWakesUp(run[k]);
  }

  lemma RunStarts(s: State)
    requires Init(s)
    ensures Balanced(s) && Fifo(s)
  {
  }

  lemma PeakGrows(s: State, s': State)
    requires PollStep(s, s') || InjectStep(s, s')
    ensures s.peak <= s'.peak
  {
  }

  /** Without an overflow the semaphore equals the number of waiting items. */
  lemma SemaphoreCountsItems(s: State)
    requires Balanced(s) && s.peak < QUEUE_SIZE && Fifo(s)
    ensures s.sem + Unsignalled(s) + Taken(s) == Outstanding(s)
    ensures (s.writeIndex - s.readIndex + QUEUE_SIZE) % QUEUE_SIZE == Outstanding(s)
  {
    Distance(|s.produced|, |s.consumed|);
  }

  /** `peak` is the largest number of items that were outstanding in any state so far. */
  lemma {:induction false} PeakIsMaximum(run: seq<State>, k: nat) returns (at: nat)
    requires IsRun(run) && k < |run|
    ensures forall j | 0 <= j <= k :: |run[j].produced| - |run[j].consumed| <= run[k].peak
    ensures at <= k && |run[at].produced| - |run[at].consumed| == run[k].peak
  {
    if k == 0 {
      at := 0;
    } else {
      at := PeakIsMaximum(run, k - 1);
      assert PollStep(run[k - 1], run[k - 1 + 1]) || InjectStep(run[k - 1], run[k - 1 + 1]);
      if run[k].peak != run[k - 1].peak {
        at := k;
      }
    }
  }

  /** The step of an injector that goes on. */
  function InjectNext(s: State): State
    requires Balanced(s) && s.peak < QUEUE_SIZE && Fifo(s)
    requires s.poll.Idle? && !s.inject.Ended? && Outstanding(s) > 0
  {
    SemaphoreCountsItems(s);
    match s.inject
    case Waiting => s.(sem := s.sem - 1, inject := Woken)
    case Woken => s.(inject := Checked)
    case Checked => s.(inject := HasOffset(s.offsets[s.readIndex]))
    case HasOffset(offset) => s.(inject := HasItem(offset, s.counts[s.readIndex]))
    case HasItem(offset, count) =>
      s.(readIndex := (s.readIndex + 1) % QUEUE_SIZE, inject := Waiting, consumed := s.consumed + [Item(offset, count)])
  }

  function Phase(inject: Inject): nat {
    match inject
    case Waiting => 0
    case Woken => 1
    case Checked => 2
    case HasOffset(_) => 3
    case HasItem(_, _) => 4
    case Ended => 5
  }

  lemma InjectorGoesOn(s: State)
    requires Balanced(s) && s.peak < QUEUE_SIZE && Fifo(s)
    requires s.poll.Idle? && !s.inject.Ended? && Outstanding(s) > 0
    ensures InjectStep(s, InjectNext(s))
    ensures Balanced(InjectNext(s)) && Fifo(InjectNext(s)) && InjectNext(s).peak == s.peak
  {
    SemaphoreCountsItems(s);
    BalancedInject(s, InjectNext(s));
    FifoInject(s, InjectNext(s));
  }

  /** No item waits in vain: without an overflow, an injector that is left alone processes everything
      that has been queued. */
  lemma {:induction false} Drains(s: State) returns (steps: seq<State>)
    requires Balanced(s) && s.peak < QUEUE_SIZE && Fifo(s) && s.poll.Idle? && !s.inject.Ended?
    ensures |steps| > 0 && steps[0] == s && forall k | 0 <= k < |steps| - 1 :: InjectStep(steps[k], steps[k + 1])
    ensures steps[|steps| - 1].consumed == s.produced
    decreases 5 * Outstanding(s) - Phase(s.inject)
  {
    hide WholeLaps, SlotsHold;
    if Outstanding(s) == 0 {
      steps := [s];
    } else {
      InjectorGoesOn(s);
      var next := InjectNext(s);
      var rest := Drains(next);
      steps := [s] + rest;
      hide InjectStep, InjectNext;
      forall k | 0 <= k < |steps| - 1 ensures InjectStep(steps[k], steps[k + 1]) {
        if k > 0 {
          assert InjectStep(rest[k - 1], rest[k - 1 + 1]);
        }
      }
    }
  }

  lemma LossStays(s: State, s': State)
    requires Balanced(s) && (PollStep(s, s') || InjectStep(s, s'))
    requires Outstanding(s) - Claimed(s) >= QUEUE_SIZE
    ensures Outstanding(s') - Claimed(s') >= QUEUE_SIZE
  {
    ModSame(|s.produced|, |s.consumed|);
  }

  /** Once a full lap of 400 unclaimed items is in the queue, at least 400 items stay unprocessed
      in the rest of every run: the injector takes the queue for empty and throws their wake-ups
      away. */
  lemma {:induction false} LossIsForever(run: seq<State>, i: nat, k: nat)
    requires IsRun(run) && i <= k < |run| && Outstanding(run[i]) - Claimed(run[i]) >= QUEUE_SIZE
    ensures Outstanding(run[k]) - Claimed(run[k]) >= QUEUE_SIZE
    decreases k
  {
    if i < k {
      LossIsForever(run, i, k - 1);
      RunIsSafe(run, k - 1);
      assert PollStep(run[k - 1], run[k - 1 + 1]) || InjectStep(run[k - 1], run[k - 1 + 1]);
      LossStays(run[k - 1], run[k]);
    }
  }

  /** The queue after n polls that the injector did not get round to. */
  function Filled(n: nat, item: Item): (s: State)
    ensures |s.offsets| == |s.counts| == QUEUE_SIZE && s.sem == |s.produced| == n && s.writeIndex == n % QUEUE_SIZE
    ensures s.poll == Idle && s.inject == Waiting && s.readIndex == 0
    ensures s.discarded == 0 && s.peak == n && s.consumed == []
  {
    if n == 0 then
      var zeros := seq(QUEUE_SIZE, _ => 0);
      State(zeros, zeros, 0, 0, 0, Idle, Waiting, [], [], 0, 0)
    else
      var s := Filled(n - 1, item);
      NextIndex(n - 1);
      State(s.offsets[s.writeIndex := item.offset], s.counts[s.writeIndex := item.count], n % QUEUE_SIZE, 0, n,
            Idle, Waiting, s.produced + [item], [], 0, n)
  }

  /** The five steps of one more poll. */
  function PollSteps(n: nat, item: Item): seq<State> {
    var s := Filled(n, item);
    var s1 := s.(poll := Offset(item));
    var s2 := s1.(offsets := s.offsets[s.writeIndex := item.offset], poll := Count(item));
    var s3 := s2.(counts := s.counts[s.writeIndex := item.count], poll := Advance(item));
    var s4 := s3.(writeIndex := (s.writeIndex + 1) % QUEUE_SIZE, poll := Up,
                  produced := s.produced + [item], peak := n + 1);
    [s1, s2, s3, s4, s4.(sem := s.sem + 1, poll := Idle)]
  }

  lemma PollStepsFill(n: nat, item: Item)
    ensures var steps := PollSteps(n, item);
            && PollStep(Filled(n, item), steps[0])
            && PollStep(steps[0], steps[1]) && PollStep(steps[1], steps[2])
            && PollStep(steps[2], steps[3]) && PollStep(steps[3], steps[4]) && steps[4] == Filled(n + 1, item)
  {
    NextIndex(n);
  }

  lemma {:induction false} FilledReachable(n: nat, item: Item) returns (run: seq<State>)
    ensures IsRun(run) && run[|run| - 1] == Filled(n, item)
  {
    if n == 0 {
      run := [Filled(0, item)];
    } else {
      var before := FilledReachable(n - 1, item);
      PollStepsFill(n - 1, item);
      Prolonged(before, PollSteps(n - 1, item));
      run := before + PollSteps(n - 1, item);
    }
  }

  /** A run goes on with five steps of the poller. */
  lemma Prolonged(run: seq<State>, steps: seq<State>)
    requires IsRun(run) && |steps| == 5 && PollStep(run[|run| - 1], steps[0])
    requires forall k | 0 <= k < 4 :: PollStep(steps[k], steps[k + 1])
    ensures IsRun(run + steps)
  {
    hide PollStep, InjectStep, Init;
    var more := run + steps;
    forall k | 0 <= k < |more| - 1 ensures PollStep(more[k], more[k + 1]) || InjectStep(more[k], more[k + 1]) {
      if k < |run| - 1 {
        assert PollStep(run[k], run[k + 1]) || InjectStep(run[k], run[k + 1]);
      } else if k >= |run| {
        var m := k - |run|;
        assert PollStep(steps[m], steps[m + 1]);
      }
    }
  }

  /** The bound is tight: with 400 items outstanding the very next wake-up is discarded. */
  lemma OverflowDiscards(item: Item) returns (run: seq<State>)
    ensures IsRun(run) && run[|run| - 1].peak == QUEUE_SIZE && run[|run| - 1].discarded == 1
    ensures Outstanding(run[|run| - 1]) == QUEUE_SIZE
  {
    run := FilledReachable(QUEUE_SIZE, item);
    var s := Filled(QUEUE_SIZE, item);
    var s1 := s.(sem := s.sem - 1, inject := Woken);
    run := run + [s1, s1.(inject := Waiting, discarded := 1)];
  }

  /** A run in which at most n items were ever outstanding. */
  ghost predicate WithinPeak(run: seq<State>, n: nat) {
    IsRun(run) && run[|run| - 1].peak <= n
  }

  /** Runs with at most n outstanding items never throw a wake-up away, if and only if n is below
      400. */
  lemma DiscardThreshold(n: nat)
    ensures (forall run: seq<State> | WithinPeak(run, n) :: run[|run| - 1].discarded == 0) <==> n < 400
  {
    hide Balanced, Outstanding, WakeUpPending;
    if n < QUEUE_SIZE {
      forall run: seq<State> | WithinPeak(run, n) ensures run[|run| - 1].discarded == 0 {
        RunIsSafe(run, |run| - 1);
      }
    } else {
      var run := OverflowDiscards(Item(0, 0));
      assert WithinPeak(run, n);
    }
  }
}
