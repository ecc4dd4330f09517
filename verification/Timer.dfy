/** The timer of the recorder (apps/enigma2-nightly/timer.py and RecordTimer.py): two lists of
    entries, and a chain of calls that re-enters itself whenever a repeated entry comes round. */
module Timer {
  import opened Bytes
  import opened TimerEntry
  import opened TimerLists
  import opened TimerLife

  class RecordTimer {
    var timerList: seq<Entry>
    var processedTimers: seq<Entry>
    var lastActivation: real
    var next: real
    const clock: Clock
    ghost var entries: set<Entry>   // the entries that the timer knows
    ghost var work: Work            // how much it has done so far

    ghost function Book(): (b: Book)
      reads this`entries, entries
      ensures b.Keys == entries
    {
      map e | e in entries :: e.Data()
    }

    ghost function Now(): Moment
      reads this`entries, this`lastActivation, this`work, entries, clock
    {
      Moment(Book(), clock.now, clock.budget, lastActivation, work)
    }

    ghost predicate Holding(hand: multiset<Entry>)
      reads this`entries, this`timerList, this`processedTimers, entries
    {
      Placed(timerList, processedTimers, hand, Book())
    }

    /** The wake-up is no later than any pending activation. */
    ghost predicate WakesInTime()
      reads this`entries, this`timerList, this`next, entries
    {
      AllFrom(timerList, Book(), next)
    }

    /** The wake-up is the first pending activation, if that comes before the maximum wait, counted
        from some second between two moments. */
    ghost predicate Wakes(from: real, to: real)
      reads this`entries, this`timerList, this`next, entries
    {
      exists second: int :: from.Floor <= second <= to.Floor && next == WakeUp(timerList, Book(), second)
    }

    /** What holds whenever no operation is under way. */
    ghost predicate Valid()
      reads this, entries, clock
    {
      Holding(multiset{}) && WakesInTime() && Bounded(Now())
    }

    lemma BookAt(e: Entry)
      requires e in entries
      ensures Book()[e] == e.Data() && Key(Book(), e) == e.Data().Key()
    {
    }

    /** Only the fields of w have changed. */
    twostate lemma BookChange(w: Entry)
      requires w in entries && entries == old(entries) && forall e | e in entries && e != w :: unchanged(e)
      ensures Book() == old(Book())[w := w.Data()]
    {
    }

    /** An entry becomes known. */
    ghost method Welcome(w: Entry)
      modifies this`entries
      ensures entries == old(entries) + {w} && Book() == old(Book())[w := w.Data()]
    {
      entries := entries + {w};
    }

    /** An entry is known no more. */
    ghost method Forget(w: Entry)
      modifies this`entries
      ensures entries == old(entries) - {w} && Book() == old(Book()) - {w}
    {
      entries := entries - {w};
    }

    method InsortEntry(a: seq<Entry>, x: Entry) returns (b: seq<Entry>)
      requires x in entries && forall e | e in a :: e in entries
      ensures multiset(b) == multiset(a) + multiset{x}
      ensures Sorted(a, Book()) ==> Sorted(b, Book()) && Inserted(a, x, Book(), b)
    {
      b := Insort(a, x, Book());
    }

    constructor (clock: Clock)
      modifies clock
      ensures Valid() && entries == {} && timerList == [] && processedTimers == [] && this.clock == clock
    {
      timerList, processedTimers, entries := [], [], {};
      this.clock := clock;
      next := 0.0;
      lastActivation := 0.0;
      work := Work(0, 0, 0);
      new;
      lastActivation := clock.Time();
      CalcNextActivation();
      Nobody(timerList, processedTimers, Book());
    }

    method SetNextActivation(when: real)
      modifies this`next, clock
      ensures next == when && Elapsed(old(clock.now), old(clock.budget), clock.now, clock.budget)
    {
      var t := clock.Time();
      var delay := ((when - t) * 1000.0).Floor;   // starts the system timer
      next := when;
    }

    /** Files an entry that is in no list; `mid` is the moment at which it has been filed.  Unless it
        has ended, everything that is due is activated then. */
    method AddTimerEntry(entry: Entry, noRecalc: bool, ghost rest: multiset<Entry>) returns (ghost mid: Moment)
      requires entry in entries && Holding(multiset{entry} + rest) && (noRecalc || rest == multiset{})
      requires Bounded(Now())
      modifies this, entries, clock
      ensures Holding(rest) && entries == old(entries) && Bounded(Now())
      ensures Course(old(Now()), Now()) && FewRounds(old(Now()), Now())
      ensures FiledOnly(clock.zone, old(Now()), entry, old(entry.Data()), mid) && Evolves(clock.zone, mid, Now())
      ensures noRecalc || mid.book[entry].state == ENDED ==> mid == Now() && work == old(work)
      ensures !noRecalc ==>
                || (timerList == old(timerList) && mid.book[entry].state == ENDED)
                || (Settled(old(Now()), timerList) && AllFrom(timerList, Book(), Tick(old(clock.now))))
      ensures !noRecalc && old(WakesInTime()) ==> WakesInTime()
      ensures EndsAtOnce(old(entry.Data()), old(clock.now)) ==>
                entry.Data() == old(entry.Data()).(state := ENDED) && timerList == old(timerList)
      decreases SecondsLeft(clock.now, clock.budget), |Early(Book(), clock.now)|, if noRecalc then 0 else 5
    {
      hide Placed, Finishing, Early, Tick, Progress, Forward, Book, AllFrom, Settled, Elapsed, EndsAtOnce;
      hide Chances, Bounded, FewRounds, SecondsLeft, Filed, Evolves;
      ghost var m0 := Now();
      var pending := File(entry, rest);
      ghost var m1 := Now();
      mid := m1;
      BookAt(entry);
      EvolvesStill(clock.zone, m1, m1);
      Nearer(m0, m1);
      NoRounds(m0, m1);
      if pending && !noRecalc {
        ProgressParts(m0, m1);
        CalcNextActivation();
        SameRounds(m0, m1, Now(), Now());
        CourseChains(m0, m1, Now());
        FinishingIsDue(m0, Now(), timerList, m1.now);
        TickMonotone(m0.now, m1.now);
        AllFromEarlier(timerList, Book(), Tick(m1.now), Tick(m0.now));
      }
    }

    /** Sorts an entry into the list where it belongs. */
    method File(entry: Entry, ghost rest: multiset<Entry>) returns (pending: bool)
      requires entry in entries && Holding(multiset{entry} + rest)
      modifies this`timerList, this`processedTimers, entry, clock
      ensures Holding(rest) && Course(old(Now()), Now())
      ensures FiledOnly(clock.zone, old(Now()), entry, old(entry.Data()), Now())
      ensures pending <==> entry.Data().state != ENDED
      ensures pending <==> old(entry.state) != ENDED
                           && (old(entry.state) == WAITING ==> !old(entry.disabled) && clock.now < entry.end)
      ensures !pending ==> timerList == old(timerList) && (old(WakesInTime()) ==> WakesInTime())
      ensures EndsAtOnce(old(entry.Data()), old(clock.now)) ==>
                !pending && entry.Data() == old(entry.Data()).(state := ENDED)
    {
      hide Placed, Finishing, Early, Tick, Book, AllFrom, Elapsed, EndsAtOnce, Course, Repeated, Rec.Valid;
      hide Filed, FiledOnly, Holding, WakesInTime;
      ghost var m0 := Now();
      BookAt(entry);
      var skip := Prepare(entry, rest);
      ghost var m1 := Now();
      BookAt(entry);
      if skip {
        FileProcessed(entry, rest);
        CourseChains(m0, m1, Now());
      } else {
        FilePending(entry, rest);
      }
      BookAt(entry);
      PreparedFiles(clock.zone, m0, entry, m1, Now());
      pending := !skip;
    }

    method FileProcessed(entry: Entry, ghost rest: multiset<Entry>)
      requires entry in entries && Holding(multiset{entry} + rest)
      modifies this`processedTimers, entry
      ensures Holding(rest) && Course(old(Now()), Now())
      ensures Book() == old(Book())[entry := entry.Data()] && entry.Data() == old(entry.Data()).(state := ENDED)
      ensures old(WakesInTime()) ==> WakesInTime()
    {
      hide Placed, Finishing, Early, Tick, Progress, Forward, Book, AllFrom, Course;
      ghost var m0, done := Now(), processedTimers;
      PlacedKnown(timerList, done, multiset{entry} + rest, m0.book);
      BookAt(entry);
      PlacedHealthy(timerList, done, multiset{entry} + rest, m0.book, entry);
      processedTimers := InsortEntry(processedTimers, entry);
      entry.state := ENDED;
      BookChange(entry);
      Finish(timerList, done, rest, m0.book, entry, processedTimers);
      EndProgress(m0, entry);
      InHandFrom(timerList, done, rest, m0.book, entry, entry.Data(), next);
    }

    method FilePending(entry: Entry, ghost rest: multiset<Entry>)
      requires entry in entries && Holding(multiset{entry} + rest) && entry.Data().state < ENDED
      modifies this`timerList
      ensures Holding(rest) && Inserted(old(timerList), entry, Book(), timerList)
    {
      hide Placed, Book, Sorted, Inserted;
      ghost var list := timerList;
      PlacedKnown(timerList, processedTimers, multiset{entry} + rest, Book());
      BookAt(entry);
      timerList := InsortEntry(timerList, entry);
      Put(list, processedTimers, rest, Book(), entry, timerList);
    }

    /** Moves a repeated entry and decides whether it goes straight to the processed ones. */
    method Prepare(entry: Entry, ghost rest: multiset<Entry>) returns (skip: bool)
      requires entry in entries && Holding(multiset{entry} + rest)
      modifies entry, clock
      ensures Holding(multiset{entry} + rest) && Course(old(Now()), Now())
      ensures Book() == old(Book())[entry := entry.Data()]
      ensures entry.state == old(entry.state) && entry.disabled == old(entry.disabled)
      ensures skip <==> entry.state == ENDED || (entry.state == WAITING && (entry.disabled || entry.end <= clock.now))
      ensures !skip ==> entry.Data().state < ENDED
      ensures old(clock.now) <= clock.now && (old(WakesInTime()) ==> WakesInTime())
      ensures exists second: int :: Repeated(old(entry.Data()), second, clock.zone, true, entry.Data())
                                    && old(clock.now).Floor <= second <= clock.now.Floor
      ensures EndsAtOnce(old(entry.Data()), old(clock.now)) ==> skip && entry.Data() == old(entry.Data())
    {
      hide Placed, Finishing, Early, Tick, Progress, Forward, Book, AllFrom, Course;
      ghost var m0, list, done := Now(), timerList, processedTimers;
      BookAt(entry);
      PlacedHealthy(list, done, multiset{entry} + rest, m0.book, entry);
      entry.ProcessRepeated(clock, true);
      BookChange(entry);
      ghost var m1 := Now();
      RepeatedStep(m0.book[entry], m0.now, clock.zone, entry.Data(), m1.now);
      ChangeCourse(m0, entry, entry.Data(), m1.now, m1.budget);
      HandChange(list, done, rest, m0.book, entry, entry.Data());
      InHandFrom(list, done, rest, m0.book, entry, entry.Data(), next);
      var passed := entry.ShouldSkip(clock);
      BookChange(entry);
      ClockProgress(m1, clock.now, clock.budget);
      CourseChains(m0, m1, Now());
      skip := passed || entry.state == ENDED || (entry.state == WAITING && entry.disabled);
    }

    /** Activates what is due and computes the next wake-up.  The number of activations is bounded by
        the entries, the recurrences and the stuck activations, however the clock runs. */
    method CalcNextActivation()
      requires Holding(multiset{}) && Bounded(Now())
      modifies this, entries, clock
      ensures Valid() && entries == old(entries)
      ensures Course(old(Now()), Now()) && FewRounds(old(Now()), Now()) && Evolves(clock.zone, old(Now()), Now())
      ensures old(lastActivation) > clock.now ==> Reconsidered(clock.zone, old(Now()), old(processedTimers), Now())
      ensures work.recurs - old(work).recurs
              <= |old(Repeating(Book()))| * (1 + clock.now.Floor - old(clock.now).Floor)
      ensures AllFrom(timerList, Book(), Tick(old(clock.now)))
      ensures old(clock.now) <= lastActivation <= clock.now && Wakes(old(clock.now), clock.now)
      decreases SecondsLeft(clock.now, clock.budget), |Early(Book(), clock.now)|, 4
    {
      hide Placed, Finishing, Early, Tick, Step, Book, AllFrom, Chances, Bounded, FewRounds, SecondsLeft;
      hide Repeating, Elapsed, Wakes, Course, Evolves, Reconsidered;
      ghost var m0, done := Now(), processedTimers;
      LookBack();
      ghost var m1 := Now();
      CourseParts(m0, m1);
      assert m1.last == m0.last;
      ProcessActivation();
      ghost var m2 := Now();
      CourseChains(m0, m1, m2);
      SameRounds(m0, m1, m2, m2);
      TickMonotone(m0.now, m1.now);
      AllFromEarlier(timerList, m2.book, Tick(m1.now), Tick(m0.now));
      CourseParts(m1, m2);
      Conclude(m0);
      EvolvesStill(clock.zone, m2, Now());
      EvolvesChain(clock.zone, m1, m2, Now());
      EvolvesChain(clock.zone, m0, m1, Now());
      if m0.last > clock.now {
        ReconsideredOn(clock.zone, m0, done, m1, Now());
      }
    }

    /** The start of a recalculation: if the clock was set back, all processed entries start over. */
    method LookBack()
      requires Holding(multiset{}) && Bounded(Now())
      modifies this, entries, clock
      ensures Holding(multiset{}) && entries == old(entries) && work == old(work) && Course(old(Now()), Now())
      ensures Evolves(clock.zone, old(Now()), Now())
      ensures lastActivation > clock.now ==> Reconsidered(clock.zone, old(Now()), old(processedTimers), Now())
      ensures lastActivation <= old(clock.now) ==> Book() == old(Book())
      ensures lastActivation == old(lastActivation)
      decreases SecondsLeft(clock.now, clock.budget), |Early(Book(), clock.now)|, 3
    {
      hide Placed, Finishing, Early, Tick, Progress, Forward, Book, Chances, Bounded, SecondsLeft, Elapsed;
      hide Evolves, Reconsidered, AllStartedOver;
      ghost var m0, done := Now(), processedTimers;
      var t := clock.Time();
      ghost var m1 := Now();
      ClockProgress(m0, m1.now, m1.budget);
      Nearer(m0, m1);
      ProgressParts(m0, m1);
      EvolvesStill(clock.zone, m0, m1);
      if lastActivation > t {
        ProcessAgain();
        Backward(m0, m1, Now());
        StartedOverEarlier(clock.zone, m0, m1, done, Now());
        StartedOverEvolves(clock.zone, m0, done, Now());
        ReconsideredStart(clock.zone, m0, done, Now());
      }
    }

    /** The end of a recalculation. */
    method Conclude(ghost m0: Moment)
      requires Holding(multiset{}) && Course(m0, Now()) && FewRounds(m0, Now()) && Bounded(m0)
      modifies this`lastActivation, this`next, clock
      ensures Valid() && Book() == old(Book()) && Course(m0, Now()) && FewRounds(m0, Now())
      ensures work.recurs - m0.work.recurs <= |Repeating(m0.book)| * (1 + clock.now.Floor - m0.now.Floor)
      ensures m0.now <= lastActivation <= clock.now && Wakes(m0.now, clock.now) && old(clock.now) <= clock.now
    {
      hide Placed, Finishing, Early, Tick, Progress, Forward, Book, AllFrom, Chances, Bounded, FewRounds, SecondsLeft;
      hide Repeating;
      ghost var m3 := Now();
      RememberActivation();
      ghost var m4 := Now();
      CourseChains(m0, m3, m4);
      ComputeNext();
      CourseChains(m0, m4, Now());
      ProgressParts(m0, m3);
      ProgressParts(m4, Now());
      ProgressParts(m0, m4);
      FloorMonotone(m0.now, m4.now);
      SameRounds(m0, m0, m3, Now());
      RecurrencesBounded(m0, Now());
      Nearer(m0, Now());
    }

    method RememberActivation()
      modifies this`lastActivation, clock
      ensures Book() == old(Book()) && Course(old(Now()), Now())
      ensures old(clock.now) <= lastActivation <= clock.now
    {
      hide Progress, Forward, Book, Chances;
      ghost var m0 := Now();
      lastActivation := clock.Time();
      ClockProgress(m0, clock.now, clock.budget);
      ghost var m1 := m0.(now := clock.now, budget := clock.budget);
      LastProgress(m1, lastActivation);
      CourseChains(m0, m1, Now());
    }

    /** The next wake-up: the first pending activation, or after the maximum wait. */
    method ComputeNext()
      requires Holding(multiset{})
      modifies this`next, clock
      ensures Holding(multiset{}) && WakesInTime() && Book() == old(Book()) && Course(old(Now()), Now())
      ensures Wakes(old(clock.now), clock.now)
    {
      hide Placed, Finishing, Early, Tick, Progress, Forward, Book, AllFrom, Chances;
      ghost var m0 := Now();
      var t := clock.Time();
      var min := (t.Floor + MAX_WAIT_TIME) as real;
      if timerList != [] {
        var w := FirstActivation();
        AllFromEarlier(timerList, m0.book, w, if w < min then w else min);
        if w < min {
          min := w;
        }
      } else {
        NoneFrom(m0.book, min);
      }
      SetNextActivation(min);
      assert next == WakeUp(timerList, Book(), t.Floor);
      ClockProgress(m0, clock.now, clock.budget);
    }

    method FirstActivation() returns (w: real)
      requires Holding(multiset{}) && timerList != []
      ensures AllFrom(timerList, Book(), w) && w == Key(Book(), timerList[0])
    {
      hide Placed, AllFrom, Book;
      PlacedKnown(timerList, processedTimers, multiset{}, Book());
      BookAt(timerList[0]);
      FirstIsLeast(timerList, processedTimers, Book());
      w := timerList[0].GetNextActivation();
    }

    /** Gives the processed entries a chance to occur again, after the clock was set back. */
    method ProcessAgain()
      requires Holding(multiset{}) && Bounded(Now())
      modifies this, entries, clock
      ensures Holding(multiset{}) && entries == old(entries) && work == old(work)
      ensures Progress(old(Now()), Now()) && Chances(Now()) <= old(Chances(Now()))
      ensures AllStartedOver(clock.zone, old(Now()), old(processedTimers), Now())
      ensures lastActivation == old(lastActivation)
      decreases SecondsLeft(clock.now, clock.budget), |Early(Book(), clock.now)|, 2
    {
      hide Placed, Finishing, Early, Tick, Progress, Forward, Book, AllFrom, Chances, Bounded, FewRounds, SecondsLeft;
      hide AllStartedOver, StartedOver, Midway;
      ghost var m0, zone := Now(), clock.zone;
      MidwayStart(zone, m0, timerList, processedTimers);
      var tl := processedTimers;
      processedTimers := [];
      var i := 0;
      while i < |tl|
        invariant i <= |tl| && entries == old(entries) && work == old(work)
        invariant Midway(zone, m0, tl, i, Now()) && Holding(multiset(tl[i..]))
      {
        ghost var m1 := Now();
        ghost var rest := MidwayNow(zone, m0, tl, i, m1);
        ProcessNext(tl[i], rest);
        MidwayNext(zone, m0, tl, i, m1, Now());
        i := i + 1;
      }
      MidwayEnd(zone, m0, tl, Now());
    }

    /** Resets a processed entry and files it again. */
    method ProcessNext(x: Entry, ghost rest: multiset<Entry>)
      requires x in Book() && Book()[x].state == ENDED && Holding(multiset{x} + rest) && Bounded(Now())
      modifies this, entries, clock
      ensures entries == old(entries) && Holding(rest) && work == old(work)
      ensures Progress(old(Now()), Now()) && Chances(Now()) <= old(Chances(Now()))
      ensures x in Book() && Book() == old(Book())[x := Book()[x]] && x !in rest
      ensures old(clock.now) <= clock.now
      ensures StartedOver(clock.zone, old(Book()[x]), old(clock.now), Book()[x], clock.now)
      ensures lastActivation == old(lastActivation)
      decreases SecondsLeft(clock.now, clock.budget), |Early(Book(), clock.now)|, 1
    {
      hide Placed, Finishing, Early, Tick, Progress, Forward, Book, AllFrom, Chances, Bounded, FewRounds, SecondsLeft;
      hide Filed, Evolves;
      ghost var m1 := Now();
      InHand(timerList, processedTimers, rest, m1.book, x);
      BookAt(x);
      ResetEntry(x, rest);
      ghost var m2 := Now();
      assert m2 == m1.(book := m1.book[x := m1.book[x].Reset()]);
      ResetChances(m1, x);
      ghost var mid := AddTimerEntry(x, true, rest);
      BookAt(x);
      ProgressParts(m2, Now());
      ResetProgress(m1, Now(), x);
    }

    method ResetEntry(x: Entry, ghost rest: multiset<Entry>)
      requires x in entries && Holding(multiset{x} + rest)
      modifies x
      ensures Holding(multiset{x} + rest)
      ensures x.Data() == old(x.Data()).Reset() && Book() == old(Book())[x := x.Data()]
    {
      hide Placed, Book;
      ghost var book := Book();
      BookAt(x);
      PlacedHealthy(timerList, processedTimers, multiset{x} + rest, book, x);
      ResetHealthy(book[x]);
      x.ResetState();
      BookChange(x);
      HandChange(timerList, processedTimers, rest, book, x, x.Data());
    }

    /** Activates pending entries until the first one lies in the future. */
    method ProcessActivation()
      requires Holding(multiset{}) && Bounded(Now())
      modifies this, entries, clock
      ensures Holding(multiset{}) && entries == old(entries)
      ensures Course(old(Now()), Now()) && FewRounds(old(Now()), Now()) && Evolves(clock.zone, old(Now()), Now())
      ensures AllFrom(timerList, Book(), Tick(old(clock.now)))
      decreases SecondsLeft(clock.now, clock.budget), |Early(Book(), clock.now)|, 2
    {
      hide Placed, Finishing, Early, Tick, Progress, Forward, Book, AllFrom, Chances, Bounded, FewRounds, SecondsLeft;
      hide Potential, Debt, Evolves, Acted;
      ghost var m0 := Now();
      var now := clock.Time();
      var t := now.Floor + 1;
      EvolvesStill(clock.zone, m0, Now());
      ClockProgress(m0, clock.now, clock.budget);
      TickMonotone(m0.now, now);
      IsTick(now, t);
      SameDebt(m0, Now(), t as real);
      while timerList != [] && timerList[0].GetNextActivation() < t as real
        invariant Holding(multiset{}) && entries == old(entries)
        invariant Evolves(clock.zone, m0, Now())
        invariant Course(m0, Now()) && now <= clock.now && Debt(Now(), t as real) <= Debt(m0, t as real)
        decreases clock.budget.misses, Potential(Book(), t as real)
      {
        ghost var m1 := Now();
        Nearer(m0, m1);
        TickMonotone(now, clock.now);
        var answer := clock.Outside();
        ghost var stuck, mid := DoActivate(timerList[0], answer, t as real);
        ProgressParts(m1, Now());
        CourseChains(m0, m1, Now());
        EvolvesChain(clock.zone, m0, m1, Now());
      }
      ProgressParts(m0, Now());
      RoundsBounded(m0, Now(), t as real);
      if timerList != [] {
        PlacedKnown(timerList, processedTimers, multiset{}, Book());
        BookAt(timerList[0]);
        FirstIsLeast(timerList, processedTimers, Book());
        AllFromEarlier(timerList, Book(), Key(Book(), timerList[0]), Tick(m0.now));
      } else {
        NoneFrom(Book(), Tick(m0.now));
      }
    }

    /** Activates one entry that is due before t and files it again; `mid` is the moment at which it has
        been filed.  A repeated entry that has ended is then its next occurrence, and other entries may
        be activated after that.  Whatever the clock does, there is less to do before t afterwards,
        unless the entry is stuck.  An entry that waits for its preparation ends once the clock has
        reached its end.  It is stuck, because its service could not be found, only before: then
        nothing else has changed and the first pending entry is still as due as before, so that no
        such activation ends the activation loop. */
    method DoActivate(w: Entry, answer: Answer, ghost t: real) returns (ghost stuck: bool, ghost mid: Moment)
      requires Holding(multiset{}) && Bounded(Now()) && (Costs(answer) ==> clock.budget.misses > 0)
      requires timerList != [] && w == timerList[0] && w.Data().Key() < t <= Tick(clock.now)
      modifies this, entries, clock
      ensures Holding(multiset{}) && entries == old(entries) && work.rounds > old(work).rounds
      ensures Course(old(Now()), Now()) && Debt(Now(), t) <= old(Debt(Now(), t))
      ensures stuck ==> clock.budget.misses < old(clock.budget).misses
      ensures !stuck ==> Potential(Book(), t) < old(Potential(Book(), t))
      ensures Evolves(clock.zone, old(Now()), Now()) && Evolves(clock.zone, mid, Now())
      ensures ActedOnly(clock.zone, old(Now()), w, answer, stuck, mid)
      ensures work.recurs == old(work).recurs ==> mid == Now()
      ensures work.recurs > old(work).recurs ==>
                NextOccurrence(clock.zone, old(w.Data()), old(clock.now), mid.book[w], mid.now)
      ensures mid.book[w].state != ENDED && Tick(clock.now) <= mid.book[w].Key() ==>
                w.Data() == mid.book[w] && w in timerList
      ensures old(w.state) == WAITING ==> Retried(old(w.Data()), old(clock.now), stuck, mid.book[w])
      ensures stuck && old(w.state) == WAITING ==>
                mid == Now() && timerList != [] && Key(Book(), timerList[0]) <= old(w.Data().Key())
      decreases SecondsLeft(clock.now, clock.budget), |Early(Book(), clock.now)|, 1
    {
      hide Placed, Finishing, Early, Tick, Progress, Forward, Passed, Sorted, Later, Chances, Bounded, SecondsLeft;
      hide Book, AllFrom, Elapsed, Lived, FewRounds, Potential, Debt, Repeating, SameSettings, Settled, IsDue;
      hide Rec.Key, Step, Retried, Evolves, Acted, Renewed, NextOccurrence, ActedOnly;
      ghost var m0, list, zone := Now(), timerList, clock.zone;
      PlacedHead(list, processedTimers, m0.book);
      stuck := TakeOut(w, answer);
      ghost var m1 := Now();
      CourseParts(m0, m1);
      if m0.book[w].state == WAITING {
        OverEnds(m0.book[w], m0.now, answer, stuck, w.Data(), m1.now);
      }
      DueBefore(m0.book[w], t, m0.now);
      if w.state < ENDED {
        ActivationPays(m0, w, stuck, w.Data(), m1, t);
        PutBack(w, list);
        mid := Now();
        ActedPlain(zone, m0, w, answer, stuck, mid);
      } else if w.repeated != 0 {
        DueWeighs(m0.book[w], t);
        mid := Recur(w, m0, t);
        RepeatedRetried(m0.book[w], m0.now, mid.book[w]);
        PassedEnded(m0.book[w], m0.now, stuck, m1.book[w], m1.now);
        ActedRenewed(zone, m0, w, answer, stuck, m1.book[w], m1.now, mid, Now());
      } else {
        ActivationPays(m0, w, stuck, w.Data(), m1, t);
        PutAway(w);
        mid := Now();
        ActedPlain(zone, m0, w, answer, stuck, mid);
      }
      StillPending(mid, w);
    }

    /** What has been filed and is still not due is still pending. */
    lemma StillPending(mid: Moment, w: Entry)
      requires Holding(multiset{}) && w in mid.book && Evolves(clock.zone, mid, Now())
      ensures mid.book[w].state != ENDED && Tick(clock.now) <= mid.book[w].Key() ==>
                w in entries && w.Data() == mid.book[w] && w in timerList
    {
      hide Placed, Tick, Rec.Key, Lives, Book;
      if mid.book[w].state != ENDED && Tick(clock.now) <= mid.book[w].Key() {
        Untouched(clock.zone, mid, Now(), w);
        BookKeys();
        BookAt(w);
        PlacedHealthy(timerList, processedTimers, multiset{}, Book(), w);
        PendingIs(timerList, processedTimers, Book(), w);
      }
    }

    lemma BookKeys()
      ensures Book().Keys == entries
    {
    }

    /** The first entry goes back into the list. */
    method PutBack(w: Entry, ghost list: seq<Entry>)
      requires Holding(multiset{w}) && w in entries && w.state < ENDED && w in list && timerList == Without(list, w)
      modifies this`timerList
      ensures Holding(multiset{}) && timerList != [] && Key(Book(), timerList[0]) <= w.Data().Key()
    {
      hide Placed, Sorted, Book;
      BookAt(w);
      PlacedKnown(timerList, processedTimers, multiset{w}, Book());
      timerList := InsortEntry(timerList, w);
      Requeue(list, processedTimers, Book(), w, timerList);
      FirstIsNoLater(list, timerList, processedTimers, Book(), w);
    }

    method PutAway(w: Entry)
      requires Holding(multiset{w}) && w in entries && w.state == ENDED
      modifies this`processedTimers
      ensures Holding(multiset{})
    {
      hide Placed, Sorted, Book;
      ghost var done := processedTimers;
      BookAt(w);
      PlacedKnown(timerList, done, multiset{w}, Book());
      processedTimers := InsortEntry(processedTimers, w);
      Retire(timerList, done, Book(), w, processedTimers);
    }

    /** Skips or activates the first entry and takes it out of the list. */
    method TakeOut(w: Entry, answer: Answer) returns (ghost stuck: bool)
      requires Costs(answer) ==> clock.budget.misses > 0
      requires Holding(multiset{}) && timerList != [] && w == timerList[0] && w.Data().Key() < Tick(clock.now)
      modifies this`timerList, this`work, w, clock
      ensures Holding(multiset{w}) && w in entries && timerList == Without(old(timerList), w)
      ensures Book() == old(Book())[w := w.Data()] && Book()[w] == w.Data() && old(Book())[w] == old(w.Data())
      ensures Course(old(Now()), Now()) && Passed(old(w.Data()), old(clock.now), stuck, w.Data(), clock.now)
      ensures Lived(old(w.Data()), old(clock.now), answer, stuck, w.Data(), clock.now)
      ensures work.rounds == old(work).rounds + 1 && work.recurs == old(work).recurs
      ensures work.stucks == old(work).stucks + if stuck then 1 else 0
      ensures stuck ==> clock.budget.misses < old(clock.budget).misses && w.state < ENDED
      ensures w.Data().repeated == old(w.repeated) && w.Data().state <= ENDED
      ensures w.Data().state == ENDED ==>
                w.end == old(w.end) && (w.end < Tick(old(clock.now)) || w.end < Tick(clock.now))
    {
      hide Placed, Finishing, Early, Tick, Progress, Forward, Passed, Sorted, Book, Elapsed, Lived, Chances;
      ghost var m0, list, done := Now(), timerList, processedTimers;
      PlacedHead(list, done, m0.book);
      BookAt(w);
      stuck := Advance(w, answer);
      BookChange(w);
      work := work.(rounds := work.rounds + 1, stucks := work.stucks + if stuck then 1 else 0);
      PassProgress(m0, w, stuck, w.Data(), Now());
      Take(list, done, m0.book, w, w.Data());
      timerList := Without(timerList, w);
    }

    /** Skips or activates a due entry. */
    method Advance(w: Entry, answer: Answer) returns (ghost stuck: bool)
      requires Costs(answer) ==> clock.budget.misses > 0
      requires IsDue(w.Data(), clock.now) && WAITING <= w.state < ENDED
      modifies w, clock
      ensures Elapsed(old(clock.now), old(clock.budget), clock.now, clock.budget)
      ensures Passed(old(w.Data()), old(clock.now), stuck, w.Data(), clock.now)
      ensures Lived(old(w.Data()), old(clock.now), answer, stuck, w.Data(), clock.now)
      ensures stuck ==> clock.budget.misses < old(clock.budget).misses
    {
      hide Passed, Lived, IsDue, Tick, Activated, Rec.Valid, Rec.Key;
      ghost var r, now := w.Data(), clock.now;
      stuck := false;
      var skip := w.ShouldSkip(clock);
      if skip {
        w.state := ENDED;
        SkipPasses(r, now, answer, clock.now);
      } else {
        ghost var later := clock.now;
        stuck := ActivateAndAdvance(w, answer);
        ActivatedPasses(r, now, later, answer, stuck, w.Data(), clock.now);
      }
    }

    method ActivateAndAdvance(w: Entry, answer: Answer) returns (ghost stuck: bool)
      requires Costs(answer) ==> clock.budget.misses > 0
      requires WAITING <= w.state < ENDED
      modifies w, clock
      ensures Elapsed(old(clock.now), old(clock.budget), clock.now, clock.budget)
      ensures exists accepted: bool, ra: Rec ::
                && Activated(old(w.Data()), old(clock.now), answer, accepted, stuck, ra, clock.now)
                && w.Data() == if accepted then ra.(state := ra.state + 1) else ra
      ensures stuck ==> clock.budget.misses < old(clock.budget).misses
    {
      hide Activated, Elapsed;
      var accepted;
      accepted, stuck := w.Activate(clock, answer);
      ghost var ra := w.Data();
      if accepted {
        w.state := w.state + 1;
      }
      assert Activated(old(w.Data()), old(clock.now), answer, accepted, stuck, ra, clock.now);
      assert w.Data() == if accepted then ra.(state := ra.state + 1) else ra;
    }

    /** Moves a repeated entry that has ended to its next occurrence, which waits. */
    method Renew(w: Entry, ghost before: real)
      requires Holding(multiset{w}) && w in entries && w.repeated != 0
      requires before <= clock.now && (w.end < Tick(before) || w.end < Tick(clock.now))
      modifies w, clock, this`work
      ensures Holding(multiset{w} + multiset{}) && Course(old(Now()), Now())
      ensures Book() == old(Book())[w := w.Data()] && work == old(work).(recurs := old(work).recurs + 1)
      ensures Repeated(old(w.Data()), clock.now.Floor, clock.zone, true, w.Data().(state := old(w.state)))
      ensures w.state == WAITING
    {
      hide Placed, Finishing, Early, Tick, Progress, Forward, Book, Repeated;
      ghost var m0 := Now();
      BookAt(w);
      PlacedHealthy(timerList, processedTimers, multiset{w}, m0.book, w);
      assert multiset{w} == multiset{w} + multiset{};
      w.ProcessRepeated(clock, true);
      RepeatedStep(m0.book[w], m0.now, clock.zone, w.Data(), clock.now);
      ghost var moved := w.Data();
      w.state := WAITING;
      assert w.Data().(state := m0.book[w].state) == moved;
      BookChange(w);
      work := work.(recurs := work.recurs + 1);
      ghost var m1 := Now();
      RenewProgress(m0, before, w, w.Data(), m1);
      HandChange(timerList, processedTimers, multiset{}, m0.book, w, w.Data());
    }

    /** Files a repeated entry that has ended as its next occurrence, and activates what is due. */
    method Recur(w: Entry, ghost m0: Moment, ghost t: real) returns (ghost mid: Moment)
      requires Holding(multiset{w}) && w in entries && w.repeated != 0
      requires Course(m0, Now()) && Bounded(m0) && w in m0.book && Book() == m0.book[w := w.Data()]
      requires work == m0.work.(rounds := m0.work.rounds + 1) && lastActivation == m0.last
      requires Weight(m0.book[w], t) > 0 && t <= Tick(m0.now)
      requires w.end < Tick(m0.now) || w.end < Tick(clock.now)
      modifies this, entries, clock
      ensures Holding(multiset{}) && entries == old(entries) && work.rounds >= old(work).rounds
      ensures Course(m0, Now()) && Debt(Now(), t) <= Debt(m0, t) && Potential(Book(), t) < Potential(m0.book, t)
      ensures w in mid.book && mid.book == m0.book[w := mid.book[w]] && mid.last == m0.last && old(clock.now) <= mid.now
      ensures Renewed(clock.zone, old(w.Data()), old(clock.now), mid.book[w], mid.now)
      ensures Evolves(clock.zone, mid, Now()) && work.recurs > m0.work.recurs
      decreases SecondsLeft(clock.now, clock.budget), |Early(Book(), clock.now)|, 0
    {
      hide Placed, Finishing, Early, Tick, Step, Chances, Bounded, SecondsLeft, Course, Filed, Evolves, Repeated;
      hide Book, AllFrom, Elapsed, FewRounds, Potential, Debt, Repeating, SameSettings, Settled, Weight, EndsAtOnce;
      hide FiledOnly, Renewed;
      ghost var m1, r := Now(), w.Data();
      CourseParts(m0, m1);
      Renew(w, m0.now);
      ghost var m2 := Now();
      CourseParts(m1, m2);
      CourseChains(m0, m1, m2);
      TickMonotone(m0.now, m2.now);
      assert m2.book == m0.book[w := w.Data()];
      BookAt(w);
      mid := AddTimerEntry(w, false, multiset{});
      ghost var m3 := Now();
      FiledBook(clock.zone, m2, w, m2.book[w], mid);
      RenewedFiled(clock.zone, m0, w, r, m1.now, m2, mid);
      CourseParts(m2, m3);
      CourseChains(m0, m2, m3);
      RecurrencePays(m0, w, m2, timerList, processedTimers, m3, t);
    }

    // ---- operations from outside ----

    ghost predicate HoldingBut(w: Entry)
      reads this`entries, this`timerList, this`processedTimers, entries
    {
      PlacedBut(timerList, processedTimers, w, Book())
    }

    /** The wake-up is in time for all pending entries, except perhaps for w. */
    ghost predicate WakesBut(w: Entry)
      reads this`entries, this`timerList, this`next, entries
    {
      AllFrom(if w in timerList then Without(timerList, w) else timerList, Book(), next)
    }

    /** Adds a new entry; `mid` is the moment at which it has been filed. */
    method Record(entry: Entry) returns (ghost mid: Moment)
      requires Valid() && entry !in entries && entry.Data().Valid()
      requires entry.repeated == 0 || clock.budget.until.Some?
      modifies this, entries, entry, clock
      ensures Valid() && entries == old(entries) + {entry} && SettingsStay(old(Book()), Book(), {})
      ensures entry in mid.book && mid.book == old(Book())[entry := mid.book[entry]] && mid.now >= old(clock.now)
      ensures Filed(old(entry.Data()).Rescheduled(), old(clock.now).Floor, clock.zone, mid.book[entry], mid.now)
      ensures Evolves(clock.zone, mid, Now())
      ensures Ahead(old(entry.Data()).Rescheduled(), clock.now) ==>
                entry in timerList && entry.Data() == old(entry.Data()).Rescheduled()
      ensures clock.budget.until == old(clock.budget).until
    {
      hide Placed, Book, AllFrom, Rec.Valid, SettingsStay, Step, SameSettings, Evolves, Filed, FiledOnly;
      ghost var book, r := Book(), entry.Data();
      ScheduleHealthy(entry.Data());
      entry.TimeChanged();
      Arrive(timerList, processedTimers, book, entry, entry.Data());
      Welcome(entry);
      InHand(timerList, processedTimers, multiset{}, Book(), entry);
      AllFromFrame(timerList, book, Book(), entry, entry.Data(), next);
      ghost var m0 := Now();
      NewcomerStays(book, entry, entry.Data());
      mid := AddTimerEntry(entry, false, multiset{});
      StepKeeps(m0, Now());
      SettingsChain(book, m0.book, Book(), {}, {}, {});
      FiledNew(clock.zone, book, m0, entry, r.Rescheduled(), mid);
      FiledAhead(clock.zone, m0, entry, r.Rescheduled(), mid, Now());
      StillPending(mid, entry);
    }

    /** An entry was edited: it is taken out of its list and filed again; `mid` is the moment at which
        it has been filed.  An entry that has ended gets another chance. */
    method TimeChanged(timer: Entry) returns (ghost mid: Moment)
      requires timer in entries && HoldingBut(timer) && WakesBut(timer) && Bounded(Now())
      modifies this, entries, clock
      ensures Valid() && entries == old(entries) && clock.budget.until == old(clock.budget).until
      ensures old(timer.state) != ENDED ==> Step(old(Now()), Now())
      ensures old(timer.state) != ENDED ==> Unqueued(old(Now()), old(timerList), timerList)
      ensures old(timer.state) != ENDED && Aborted(old(timer.Data()), old(clock.now)) ==>
                timer !in timerList && Finishing(timer.Data(), clock.now)
      ensures SettingsStay(old(Book()), Book(), {timer})
      ensures FiledOnly(clock.zone, old(Now()), timer, Refreshed(old(timer.Data())), mid)
      ensures Evolves(clock.zone, mid, Now())
      ensures Ahead(Refreshed(old(timer.Data())), clock.now) ==>
                timer in timerList && timer.Data() == Refreshed(old(timer.Data()))
    {
      hide Placed, PlacedBut, Finishing, Early, Tick, Progress, Forward, Book, AllFrom, Settled;
      hide Elapsed, Aborted, Unqueued, EndsAtOnce, SameSettings, SettingsStay, Evolves, Filed, FiledOnly, Ahead;
      hide Bounded;
      ghost var m0, list, done := Now(), timerList, processedTimers;
      BookAt(timer);
      TakeChanged(list, done, m0.book, timer);
      Reschedule(timer);
      ghost var m1, list1 := Now(), timerList;
      SettingsOfOthers(m0.book, timer, timer.Data());
      BookAt(timer);
      ChangeBounded(m0, timer, timer.Data());
      mid := AddTimerEntry(timer, false, multiset{});
      FiledEarlier(clock.zone, m0, m1, timer, Refreshed(m0.book[timer]), mid);
      FiledAhead(clock.zone, m1, timer, Refreshed(m0.book[timer]), mid, Now());
      StillPending(mid, timer);
      StepKeeps(m1, Now());
      SettingsChain(m0.book, m1.book, Book(), {timer}, {}, {timer});
      if m0.book[timer].state != ENDED {
        RescheduledProgress(m0, timer);
        StepChains(m0, m1, Now());
        Subset(list, timer);
        StaysUnqueued(m0, list, m1, list1, timerList);
        if Aborted(m0.book[timer], m0.now) {
          AbortedLeaves(timer, m0.book[timer], m1, list1);
        }
      }
    }

    /** After an aborted entry was filed it is not pending. */
    lemma AbortedLeaves(timer: Entry, r: Rec, m1: Moment, list1: seq<Entry>)
      requires timer in entries && timer in m1.book && m1.book[timer] == r.Rescheduled()
      requires Aborted(r, m1.now) && timer !in list1 && Progress(m1, Now())
      requires timerList == list1 || Settled(m1, timerList)
      requires EndsAtOnce(r.Rescheduled(), m1.now) ==>
                 timer.Data() == r.Rescheduled().(state := ENDED) && timerList == list1
      ensures timer !in timerList && Finishing(timer.Data(), clock.now)
    {
      hide Finishing, Book, Progress, EndsAtOnce;
      AbortedEnds(r.Rescheduled(), m1.now);
      ProgressParts(m1, Now());
      BookAt(timer);
      if r.state == WAITING {
        FinishingLater(timer.Data(), m1.now, clock.now);
      } else {
        FinishingKept(m1, Now(), timer);
      }
    }

    /** Takes an entry out of its list, with its preparation planned anew. */
    method Reschedule(timer: Entry)
      requires timer in entries && HoldingBut(timer) && WakesBut(timer)
      modifies this`timerList, this`processedTimers, timer
      ensures Holding(multiset{timer} + multiset{}) && WakesInTime()
      ensures Book() == old(Book())[timer := timer.Data()]
      ensures timer.Data() == Refreshed(old(timer.Data()))
      ensures old(timer.state) != ENDED ==> timer in old(timerList) && timerList == Without(old(timerList), timer)
      ensures timer !in timerList
    {
      hide Placed, PlacedBut, Book, AllFrom, Rec.Valid;
      ghost var book, list, done := Book(), timerList, processedTimers;
      BookAt(timer);
      TakeChanged(list, done, book, timer);
      timer.TimeChanged();
      if timer.state == ENDED {
        processedTimers := Without(processedTimers, timer);
      } else {
        timerList := Without(timerList, timer);
      }
      if timer.state == ENDED {
        timer.state := WAITING;
      }
      BookChange(timer);
      PlacedHealthy(timerList, processedTimers, multiset{timer} + multiset{}, book, timer);
      ScheduleHealthy(book[timer]);
      HandChange(timerList, processedTimers, multiset{}, book, timer, timer.Data());
      InHand(timerList, processedTimers, multiset{}, book, timer);
      AllFromFrame(timerList, book, Book(), timer, timer.Data(), next);
    }

    /** Aborts an entry and forgets it.  At `m1` it has been aborted and filed, at `m2` it has ended, and at
        `m3` the steps `vs` have extended other recordings.  Nothing else happens to any entry. */
    method RemoveEntry(entry: Entry, dontSave: bool, answers: seq<Answer>)
      returns (ghost m1: Moment, ghost m2: Moment, ghost vs: seq<Visit>, ghost m3: Moment)
      requires Valid() && entry in entries
      modifies this, entries, clock
      ensures Valid() && entries == old(entries) - {entry} && clock.budget.until == old(clock.budget).until
      ensures entry !in timerList && entry !in processedTimers
      ensures SettingsStay(old(Book()), Book(), {})
      ensures entry in m1.book && m1.book == old(Book())[entry := m1.book[entry]] && Evolves(clock.zone, m1, m2)
      ensures VisitedAll(clock.zone, answers, vs, m2, m3) && (if dontSave then vs == [] else |timerList| <= |vs|)
      ensures Book() == m3.book - {entry}
    {
      hide Placed, PlacedBut, Finishing, Early, Tick, Progress, Forward, Book, AllFrom, Unqueued;
      hide SameSettings, SettingsStay, Step, Evolves, Visited;
      ghost var book := Book();
      Cancel(entry);
      ghost var m0 := Now();
      m1 := EndEntry(entry);
      assert m1.book == book[entry := m1.book[entry]];
      m2, vs := Now(), [];
      if !dontSave {
        vs := ExtendOthers(entry, answers);
        StepChains(m0, m2, Now());
      }
      m3 := Now();
      StepKeeps(m0, Now());
      SettingsChain(book, m0.book, Book(), {entry}, {}, {entry});
      SettingsWithout(book, Book(), entry);
      DropEntry(entry);
    }

    /** Lets an aborted entry run through its remaining states. */
    method EndEntry(entry: Entry) returns (ghost mid: Moment)
      requires entry in entries && HoldingBut(entry) && WakesBut(entry) && Aborted(entry.Data(), clock.now)
      requires Bounded(Now())
      modifies this, entries, clock
      ensures Valid() && entries == old(entries) && Step(old(Now()), Now())
      ensures entry !in timerList && Finishing(entry.Data(), clock.now)
      ensures entry in mid.book && mid.book == old(Book())[entry := mid.book[entry]] && Evolves(clock.zone, mid, Now())
    {
      ghost var m0 := Now();
      Still(m0);
      hide Placed, PlacedBut, Finishing, Progress, Forward, Book, AllFrom, Unqueued, SettingsStay, Step, Aborted;
      hide Evolves, Filed;
      BookAt(entry);
      if entry.state != ENDED {
        mid := TimeChanged(entry);
      } else {
        mid := m0;
        EvolvesStill(clock.zone, m0, m0);
        Ended(entry);
      }
    }

    /** The final removal: an entry that is not pending is among the processed ones. */
    method DropEntry(entry: Entry)
      requires Valid() && entry in entries && entry !in timerList
      modifies this
      ensures Valid() && entries == old(entries) - {entry} && Book() == old(Book()) - {entry}
      ensures timerList == old(timerList) && entry !in processedTimers
    {
      hide Placed, Book, AllFrom;
      ghost var book, done := Book(), processedTimers;
      PendingIs(timerList, done, book, entry);
      Drop(timerList, done, book, entry);
      AllFromDrop(timerList, book, entry, next);
      processedTimers := Without(processedTimers, entry);
      Forget(entry);
    }

    /** Ends an entry now and keeps it from recurring. */
    method Cancel(entry: Entry)
      requires Valid() && entry in entries
      modifies entry, clock
      ensures HoldingBut(entry) && WakesBut(entry) && Aborted(entry.Data(), clock.now)
      ensures Bounded(Now()) && clock.budget.until == old(clock.budget).until
      ensures Book() == old(Book())[entry := entry.Data()]
      ensures SettingsStay(old(Book()), Book(), {entry})
    {
      hide Placed, PlacedBut, Book, AllFrom, Aborted, Rec.Valid;
      ghost var book := Book();
      BookAt(entry);
      PlacedHealthy(timerList, processedTimers, multiset{}, book, entry);
      entry.repeated := 0;
      entry.autoincrease := false;
      entry.Abort(clock);
      BookChange(entry);
      SettingsOfOthers(book, entry, entry.Data());
      AbortedHealthy(book[entry], clock.now);
      Changed(timerList, processedTimers, book, entry, entry.Data());
      OthersFrom(timerList, processedTimers, book, entry, entry.Data(), next);
    }

    lemma Ended(entry: Entry)
      requires entry in entries && HoldingBut(entry) && WakesBut(entry) && entry.state == ENDED
      requires Aborted(entry.Data(), clock.now) && Bounded(Now())
      ensures Valid() && entry !in timerList && Finishing(entry.Data(), clock.now)
    {
      hide Placed, PlacedBut, Book, AllFrom;
      BookAt(entry);
      TakeChanged(timerList, processedTimers, Book(), entry);
      NotPending(timerList, processedTimers, entry, Book());
    }

    /** Extends the other open-ended recordings, where the removal makes room for them: asks for the k-th
        pending entry in step k, while there is one. */
    method ExtendOthers(ghost entry: Entry, answers: seq<Answer>) returns (ghost vs: seq<Visit>)
      requires Valid() && entry in entries && entry !in timerList && Finishing(entry.Data(), clock.now)
      modifies this, entries, clock
      ensures Valid() && entries == old(entries) && entry !in timerList && Step(old(Now()), Now())
      ensures VisitedAll(clock.zone, answers, vs, old(Now()), Now()) && |timerList| <= |vs|
    {
      ghost var m0 := Now();
      Still(m0);
      hide Step,  Placed, PlacedBut, Finishing, Early, Tick, Progress, Forward, Book, AllFrom, Unqueued;
      hide Visited, VisitedAll, Evolves, ExtendedOnly;
      var i := 0;
      vs := [];
      NotVisited(clock.zone, answers, m0);
      while i < |timerList|
        invariant Valid() && entries == old(entries) && entry !in timerList && |vs| == i
        invariant Finishing(entry.Data(), clock.now) && Step(m0, Now())
        invariant VisitedAll(clock.zone, answers, vs, m0, Now())
        decreases |entries| - i
      {
        ListBound(timerList, processedTimers, Book());
        ghost var m1, list, done := Now(), timerList, processedTimers;
        var answer := clock.Afford(if i < |answers| then answers[i] else Answer(true, false, None));
        ghost var mid := Extend(timerList[i], answer, entry);
        StepChains(m0, m1, Now());
        ghost var v := Visit(list, done, m1, mid, Now());
        VisitedIs(clock.zone, answers, i, v, answer);
        VisitedOneMore(clock.zone, answers, vs, m0, v);
        vs := vs + [v];
        i := i + 1;
      }
    }

    /** Extends a pending entry if there is room, and files it again. */
    method Extend(x: Entry, answer: Answer, ghost entry: Entry) returns (ghost mid: Moment)
      requires Valid() && x in timerList && entry in entries && (Costs(answer) ==> clock.budget.misses > 0)
      requires entry !in timerList && Finishing(entry.Data(), clock.now)
      modifies this, entries, clock
      ensures Valid() && entries == old(entries) && entry !in timerList
      ensures Finishing(entry.Data(), clock.now) && Step(old(Now()), Now())
      ensures ExtendedOnly(clock.zone, old(Now()), x, answer, mid) && Evolves(clock.zone, mid, Now())
    {
      hide Placed, PlacedBut, Finishing, Early, Tick, Progress, Forward, Book, AllFrom, Evolves, Filed;
      hide Unqueued, Stretched, Elapsed, Aborted;
      ghost var m0, list := Now(), timerList;
      PlacedKnown(timerList, processedTimers, multiset{}, m0.book);
      PendingIs(timerList, processedTimers, m0.book, x);
      PlacedHealthy(timerList, processedTimers, multiset{}, m0.book, x);
      BookAt(x);
      BookAt(entry);
      var extended := x.SetAutoincreaseEnd(clock, answer);
      BookChange(x);
      ghost var m1 := Now();
      StretchedExtends(m0.book[x], m0.now, answer, extended, x.Data(), m1.now);
      ElapsedForward(m0.now, m0.budget, m1.now, m1.budget);
      if extended {
        ExtendedProgress(m0, x, x.Data(), m1);
        ExtendedHealthy(m0.book[x], m1.now, x.Data());
        FinishingKept(m0, m1, entry);
        Changed(timerList, processedTimers, m0.book, x, x.Data());
        OthersFrom(timerList, processedTimers, m0.book, x, x.Data(), next);
        StaysBounded(m0, m1);
        mid := TimeChanged(x);
        ExtendedFiled(clock.zone, m0, x, answer, m1, mid);
        StepChains(m0, m1, Now());
        FinishingKept(m1, Now(), entry);
        BookAt(entry);
        UnqueuedAt(m1, list, timerList, entry);
      } else {
        assert m1.book == m0.book;
        mid := m1;
        NotExtended(clock.zone, m0, x, answer, m1);
        EvolvesStill(clock.zone, m1, m1);
        ClockProgress(m0, m1.now, m1.budget);
        StaysBounded(m0, m1);
        FinishingKept(m0, m1, entry);
      }
    }

    /** The two lists, as one. */
    function Known(): seq<Entry>
      reads this`timerList, this`processedTimers
    {
      timerList + processedTimers
    }

    /** What holds between the operations of a run. */
    ghost predicate Ready()
      reads this, entries, clock
    {
      Valid() && clock.budget.until.Some?
    }

    /** Any run of operations, with the clock set to anything between them, starts and ends in a
        quiescent state.  `named` tells which entry each operation was about.  The entries known at
        the end are those known before and those added, without those removed, one for each addition
        and removal; all others keep their settings unless they were edited. */
    method Run(ops: seq<Op>) returns (ghost named: seq<Option<Entry>>)
      requires Ready()
      modifies this, entries, clock
      ensures Ready() && |named| == |ops|
      ensures forall i | 0 <= i < |ops| :: Names(ops[i], Size(|old(entries)|, ops[..i]), named[i])
      ensures entries == old(entries) + AddedBy(ops, named) - RemovedBy(ops, named)
      ensures |entries| == Size(|old(entries)|, ops) && fresh(AddedBy(ops, named))
      ensures SettingsStay(old(Book()), Book(), EditedBy(ops, named))
    {
      hide Placed, Book, AllFrom, WakesInTime, Holding, Names, AllNamed, SameSettings, SettingsStay, Size, SizeAfter;
      hide AddedBy, RemovedBy, EditedBy, Accounted, Entries, RunSoFar;
      ghost var book, before, added := Book(), entries, {};
      named := [];
      NothingNamed(before, book, ops);
      for i := 0 to |ops|
        invariant Ready() && |named| == i && RunSoFar(before, book, ops, named, added, entries, Book()) && fresh(added)
        invariant entries <= before + added
      {
        ghost var news;
        named, news := RunOn(ops, i, before, book, named, added);
        added := added + news;
      }
      assert ops[..|ops|] == ops;
      RunEnds(before, book, ops, named, added, entries, Book());
    }

    /** The next operation of a run. */
    method RunOn(ops: seq<Op>, i: nat, ghost before: set<Entry>, ghost book: Book, ghost named0: seq<Option<Entry>>,
                 ghost added: set<Entry>)
      returns (ghost named: seq<Option<Entry>>, ghost news: set<Entry>)
      requires Ready() && |named0| == i < |ops| && RunSoFar(before, book, ops, named0, added, entries, Book())
      modifies this, entries, clock
      ensures Ready() && |named| == |named0| + 1 && fresh(news)
      ensures RunSoFar(before, book, ops, named, added + news, entries, Book()) && entries <= before + added + news
    {
      hide Placed, Book, AllFrom, WakesInTime, Holding, Names, AllNamed, SameSettings, SettingsStay, Size, SizeAfter;
      hide AddedBy, RemovedBy, EditedBy, Accounted, Entries;
      ghost var book1, entries1 := Book(), entries;
      AccountedSize(before, ops, i, named0, entries);
      ghost var op;
      op, news := Perform(ops[i], before + added);
      AccountedOn(before, ops, i, named0, entries1, op, entries);
      OneMore(ops, i, named0, op);
      assert forall e | e in before && e in entries :: e in entries1;
      SettingsChain(book, book1, Book(), EditedBy(ops[..i], named0), if ops[i].Edit? then Entries(op) else {},
                    EditedBy(ops[..i + 1], named0 + [op]));
      named := named0 + [op];
      AccountedSize(before, ops, i + 1, named, entries);
    }

    /** One operation.  An added entry is none of those known earlier; an edited or removed one is the k-th
        known entry. */
    method Perform(op: Op, ghost earlier: set<Entry>) returns (ghost named: Option<Entry>, ghost news: set<Entry>)
      requires Ready()
      modifies this, entries, clock
      ensures Ready() && Names(op, |old(entries)|, named)
      ensures news == (if op.Add? then Entries(named) else {}) && fresh(news) && news !! old(entries) + earlier
      ensures !op.Add? ==> Entries(named) <= old(entries)
      ensures entries == if op.Add? then old(entries) + Entries(named)
                         else if op.Remove? then old(entries) - Entries(named) else old(entries)
      ensures SettingsStay(old(Book()), Book(), if op.Edit? then Entries(named) else {})
      ensures (op.Edit? || op.Remove?) && op.k < |old(Known())| ==> named == Some(old(Known())[op.k])
      ensures op.Wake? ==> Evolves(clock.zone, old(Now()), Now()) && AllFrom(timerList, Book(), Tick(old(clock.now)))
      ensures op.SetClock? ==> Book() == old(Book()) && Known() == old(Known()) && clock.now == op.now
    {
      hide Placed, Book, AllFrom, SameSettings, SettingsStay, Step, Evolves, Tick;
      named, news := None, {};
      match op
      case Add(begin, end, disabled, justplay) =>
        named, news := AddNew(begin, end, disabled, justplay, earlier);
      case Wake =>
        ghost var m0 := Now();
        CalcNextActivation();
        StepKeeps(m0, Now());
      case Edit(k, begin, end, mask) =>
        named := EditNth(k, begin, end, mask);
      case Remove(k, dontSave, answers) =>
        named := RemoveNth(k, dontSave, answers);
      case SetClock(now, misses, until) =>
        SettingsSame(Book());
        clock.Adjust(now, Budget(misses, Some(until)));
    }

    method AddNew(begin: int, end: int, disabled: bool, justplay: bool, ghost earlier: set<Entry>)
      returns (ghost named: Option<Entry>, ghost news: set<Entry>)
      requires Ready()
      modifies this, entries, clock
      ensures Ready() && named.Some? && news == {named.value} && fresh(news) && news !! old(entries) + earlier
      ensures entries == old(entries) + news && SettingsStay(old(Book()), Book(), {})
      ensures !disabled && Tick(clock.now) <= begin as real - 20.0 && clock.now < end as real ==>
                var e := named.value;
                e in timerList && e.state == WAITING && e.begin == begin as real
                && e.end == (if end < begin then begin else end) as real
    {
      hide Placed, Book, AllFrom, SameSettings, SettingsStay, Evolves, Filed, Tick;
      var entry := new Entry(begin, end, disabled, justplay);
      ghost var r := entry.Data();
      ghost var mid := Record(entry);
      named, news := Some(entry), {entry};
    }

    method EditNth(k: nat, begin: int, end: int, mask: nat) returns (ghost named: Option<Entry>)
      requires Ready()
      modifies this, entries, clock
      ensures Ready() && entries == old(entries) && (named.Some? <==> k < |entries|) && Entries(named) <= entries
      ensures SettingsStay(old(Book()), Book(), Entries(named))
      ensures named == if k < |old(Known())| then Some(old(Known())[k]) else None
    {
      hide Placed, Book, AllFrom, SameSettings, SettingsStay, FiledOnly, Evolves, Ahead, Refreshed, Edited;
      named := None;
      KnownAre();
      SettingsSame(Book());
      if k < |Known()| {
        named := Some(Known()[k]);
        ghost var mid := Edit(Known()[k], begin, end, mask);
      }
    }

    method RemoveNth(k: nat, dontSave: bool, answers: seq<Answer>) returns (ghost named: Option<Entry>)
      requires Ready()
      modifies this, entries, clock
      ensures Ready() && (named.Some? <==> k < |old(entries)|) && Entries(named) <= old(entries)
      ensures entries == old(entries) - Entries(named) && SettingsStay(old(Book()), Book(), {})
      ensures named == if k < |old(Known())| then Some(old(Known())[k]) else None
    {
      hide Placed, Book, AllFrom, SameSettings, SettingsStay, Evolves, VisitedAll;
      named := None;
      KnownAre();
      SettingsSame(Book());
      if k < |Known()| {
        named := Some(Known()[k]);
        ghost var m1, m2, vs, m3 := RemoveEntry(Known()[k], dontSave, answers);
      }
    }

    lemma KnownAre()
      requires Valid()
      ensures |Known()| == |entries| && forall k | 0 <= k < |Known()| :: Known()[k] in entries
    {
      hide Placed, Book;
      ListBound(timerList, processedTimers, Book());
      PlacedKnown(timerList, processedTimers, multiset{}, Book());
    }

    /** The user changes an entry. */
    method Edit(entry: Entry, begin: int, end: int, mask: nat) returns (ghost mid: Moment)
      requires Valid() && entry in Known() && (mask % 128 == 0 || clock.budget.until.Some?)
      modifies this, entries, clock
      ensures Valid() && entries == old(entries) && clock.budget.until == old(clock.budget).until
      ensures SettingsStay(old(Book()), Book(), {entry})
      ensures var edited := Edited(old(entry.Data()), begin, end, mask);
              && FiledOnly(clock.zone, old(Now()), entry, Refreshed(edited), mid) && Evolves(clock.zone, mid, Now())
              && (Ahead(Refreshed(edited), clock.now) ==>
                    entry in timerList && entry.Data() == Refreshed(edited))
    {
      hide Placed, PlacedBut, Book, AllFrom, Rec.Valid, SameSettings, SettingsStay, Step, Evolves, Filed;
      hide FiledOnly, Ahead;
      ghost var m0 := Now();
      ghost var book := Book();
      PlacedKnown(timerList, processedTimers, multiset{}, book);
      BookAt(entry);
      PlacedHealthy(timerList, processedTimers, multiset{}, book, entry);
      entry.begin := begin as real;
      entry.end := end as real;
      entry.repeated := mask % 128;
      BookChange(entry);
      ghost var edited := Book();
      SettingsOfOthers(book, entry, entry.Data());
      EditedHealthy(book[entry], begin as real, end as real, mask % 128);
      Changed(timerList, processedTimers, book, entry, entry.Data());
      OthersFrom(timerList, processedTimers, book, entry, entry.Data(), next);
      assert mask % 128 == 0 || clock.budget.until.Some?;
      ghost var m1 := Now();
      BookAt(entry);
      mid := TimeChanged(entry);
      FiledEarlier(clock.zone, m0, m1, entry, Refreshed(m1.book[entry]), mid);
      SettingsChain(book, edited, Book(), {entry}, {entry}, {entry});
    }
  }

  /** What happens to the timer; an edit or a removal is about the k-th known entry. */
  datatype Op =
    | Add(begin: int, end: int, disabled: bool, justplay: bool)
    | Wake
    | Edit(k: nat, begin: int, end: int, mask: nat)
    | Remove(k: nat, dontSave: bool, answers: seq<Answer>)
    | SetClock(now: real, misses: nat, until: int)

  /** How many entries are known after some operations. */
  function Size(before: nat, ops: seq<Op>): nat {
    if ops == [] then before else SizeAfter(Size(before, ops[..|ops| - 1]), ops[|ops| - 1])
  }

  function SizeAfter(n: nat, op: Op): nat {
    match op
    case Add(_, _, _, _) => n + 1
    case Remove(k, _, _) => if k < n then n - 1 else n
    case _ => n
  }

  /** Whether an operation is about an entry, when n entries are known. */
  predicate Names(op: Op, n: nat, named: Option<Entry>) {
    match op
    case Add(_, _, _, _) => named.Some?
    case Edit(k, _, _, _) => named.Some? <==> k < n
    case Remove(k, _, _) => named.Some? <==> k < n
    case _ => named.None?
  }

  function Entries(named: Option<Entry>): set<Entry> {
    if named.Some? then {named.value} else {}
  }

  function AddedBy(ops: seq<Op>, named: seq<Option<Entry>>): set<Entry>
    requires |ops| == |named|
  {
    set i | 0 <= i < |ops| && ops[i].Add? && named[i].Some? :: named[i].value
  }

  function RemovedBy(ops: seq<Op>, named: seq<Option<Entry>>): set<Entry>
    requires |ops| == |named|
  {
    set i | 0 <= i < |ops| && ops[i].Remove? && named[i].Some? :: named[i].value
  }

  function EditedBy(ops: seq<Op>, named: seq<Option<Entry>>): set<Entry>
    requires |ops| == |named|
  {
    set i | 0 <= i < |ops| && ops[i].Edit? && named[i].Some? :: named[i].value
  }

  lemma OneMore(ops: seq<Op>, n: nat, named: seq<Option<Entry>>, last: Option<Entry>)
    requires |named| == n < |ops|
    ensures var op, more := ops[n], named + [last];
            && AddedBy(ops[..n + 1], more) == AddedBy(ops[..n], named) + (if op.Add? then Entries(last) else {})
            && RemovedBy(ops[..n + 1], more) == RemovedBy(ops[..n], named) + (if op.Remove? then Entries(last) else {})
            && EditedBy(ops[..n + 1], more) == EditedBy(ops[..n], named) + (if op.Edit? then Entries(last) else {})
  {
  }

  lemma SizeOn(before: nat, ops: seq<Op>, n: nat)
    requires n < |ops|
    ensures Size(before, ops[..n + 1]) == SizeAfter(Size(before, ops[..n]), ops[n])
  {
    assert ops[..n + 1][..n] == ops[..n];
  }

  ghost predicate AllNamed(before: nat, ops: seq<Op>, n: nat, named: seq<Option<Entry>>) {
    && n <= |ops| && |named| == n
    && forall k | 0 <= k < n :: Names(ops[k], Size(before, ops[..k]), named[k])
  }

  lemma NamesOn(before: nat, ops: seq<Op>, n: nat, named: seq<Option<Entry>>, last: Option<Entry>)
    requires n < |ops| && AllNamed(before, ops, n, named) && Names(ops[n], Size(before, ops[..n]), last)
    ensures AllNamed(before, ops, n + 1, named + [last])
  {
    hide Names, Size;
    var more := named + [last];
    forall k | 0 <= k < n + 1 ensures Names(ops[k], Size(before, ops[..k]), more[k]) {
      if k < n {
        assert more[k] == named[k];
      }
    }
  }

  /** After n operations: which entries are known, and how many. */
  ghost predicate Accounted(before: set<Entry>, ops: seq<Op>, n: nat, named: seq<Option<Entry>>, entries: set<Entry>) {
    && n <= |ops| && |named| == n && AllNamed(|before|, ops, n, named)
    && entries == before + AddedBy(ops[..n], named) - RemovedBy(ops[..n], named)
    && RemovedBy(ops[..n], named) <= before + AddedBy(ops[..n], named)
    && |entries| == Size(|before|, ops[..n])
  }

  lemma AccountedSize(before: set<Entry>, ops: seq<Op>, n: nat, named: seq<Option<Entry>>, entries: set<Entry>)
    requires Accounted(before, ops, n, named, entries)
    ensures n <= |ops| && |named| == n && entries <= before + AddedBy(ops[..n], named)
    ensures forall k | 0 <= k < n :: Names(ops[k], Size(|before|, ops[..k]), named[k])
    ensures entries == before + AddedBy(ops[..n], named) - RemovedBy(ops[..n], named)
    ensures |entries| == Size(|before|, ops[..n])
  {
  }

  /** What holds after the operations that `named` tells about, from entries `before` on. */
  ghost predicate RunSoFar(before: set<Entry>, book: Book, ops: seq<Op>, named: seq<Option<Entry>>, added: set<Entry>,
                           entries: set<Entry>, now: Book) {
    && |named| <= |ops| && book.Keys == before && Accounted(before, ops, |named|, named, entries)
    && SettingsStay(book, now, EditedBy(ops[..|named|], named)) && added == AddedBy(ops[..|named|], named)
  }

  lemma NothingNamed(before: set<Entry>, book: Book, ops: seq<Op>)
    requires book.Keys == before
    ensures RunSoFar(before, book, ops, [], {}, before, book)
  {
    assert ops[..0] == [];
  }

  lemma RunEnds(before: set<Entry>, book: Book, ops: seq<Op>, named: seq<Option<Entry>>, added: set<Entry>,
                entries: set<Entry>, now: Book)
    requires |named| == |ops| && RunSoFar(before, book, ops, named, added, entries, now)
    ensures forall k | 0 <= k < |ops| :: Names(ops[k], Size(|before|, ops[..k]), named[k])
    ensures entries == before + AddedBy(ops, named) - RemovedBy(ops, named) && |entries| == Size(|before|, ops)
    ensures SettingsStay(book, now, EditedBy(ops, named)) && added == AddedBy(ops, named)
  {
    hide Names, Size, AddedBy, RemovedBy, EditedBy, SettingsStay;
    assert ops[..|ops|] == ops;
  }

  /** One more operation, about an entry that was known before or, for an addition, about one that
      was never known. */
  lemma AccountedOn(before: set<Entry>, ops: seq<Op>, n: nat, named: seq<Option<Entry>>, entries: set<Entry>,
                    last: Option<Entry>, after: set<Entry>)
    requires n < |ops| && Accounted(before, ops, n, named, entries) && Names(ops[n], |entries|, last)
    requires ops[n].Add? ==> Entries(last) !! before + AddedBy(ops[..n], named)
    requires !ops[n].Add? ==> Entries(last) <= entries
    requires after == if ops[n].Add? then entries + Entries(last)
                      else if ops[n].Remove? then entries - Entries(last) else entries
    ensures Accounted(before, ops, n + 1, named + [last], after)
  {
    hide AddedBy, RemovedBy, EditedBy, Size, Names, AllNamed, SizeAfter, Entries;
    OneMore(ops, n, named, last);
    SizeOn(|before|, ops, n);
    SetsOn(before, AddedBy(ops[..n], named), RemovedBy(ops[..n], named), entries, ops[n], Entries(last));
    SizeOf(ops[n], entries, last, after);
    NamesOn(|before|, ops, n, named, last);
  }

  lemma SizeOf(op: Op, entries: set<Entry>, last: Option<Entry>, after: set<Entry>)
    requires Names(op, |entries|, last)
    requires op.Add? ==> Entries(last) !! entries
    requires !op.Add? ==> Entries(last) <= entries
    requires after == if op.Add? then entries + Entries(last)
                      else if op.Remove? then entries - Entries(last) else entries
    ensures |after| == SizeAfter(|entries|, op)
  {
  }

  lemma SetsOn(before: set<Entry>, added: set<Entry>, removed: set<Entry>, entries: set<Entry>, op: Op,
               some: set<Entry>)
    requires entries == before + added - removed && removed <= before + added
    requires op.Add? ==> some !! before + added
    requires !op.Add? ==> some <= entries
    ensures op.Add? ==> entries + some == before + (added + some) - removed && some !! entries
    ensures op.Remove? ==> entries - some == before + added - (removed + some) && removed + some <= before + added
  {
  }
}
