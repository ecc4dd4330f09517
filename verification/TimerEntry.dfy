/** Timer entries (apps/enigma2-nightly/timer.py and RecordTimer.py): the life of one recording
    event, and the clock that it reads. */
module TimerEntry {
  import opened Bytes
  import opened TimerRepeat

  const WAITING := 0
  const PREPARED := 1
  const RUNNING := 2
  const ENDED := 3

  const PREPARE_TIME := 20.0
  const AUTOINCREASE_TIME := 3600 * 24

  /** What the outside world may do during an operation.  A service cannot be found, or a recording
      is extended by less than a second, at most `misses` times.  If there is a second `until`, then
      the clock does not run beyond it; otherwise it may run on for ever. */
  datatype Budget = Budget(misses: nat, until: Option<int>)

  /** How the outside world takes an activation: whether the service is found, whether preparing or
      starting the recording fails, and when the first entry begins that would be in conflict with an
      extension. */
  datatype Answer = Answer(found: bool, failed: bool, conflict: Option<real>)

  /** Answers that can leave an entry due. */
  predicate Costs(answer: Answer) {
    !answer.found || (answer.conflict.Some? && answer.conflict.value.Floor as real != answer.conflict.value)
  }

  /** The system clock.  During an operation it does not run backwards.  Between operations the clock
      and the budget may be set to anything. */
  class Clock {
    var now: real
    var budget: Budget
    const zone: int

    constructor (now: real, budget: Budget, zone: int)
      ensures this.now == now && this.budget == budget && this.zone == zone
    {
      this.now, this.budget, this.zone := now, budget, zone;
    }

    method Time() returns (t: real)
      modifies this
      ensures t == now && budget == old(budget) && Elapsed(old(now), old(budget), now, budget)
    {
      var later: real := *;
      if Elapsed(now, budget, later, budget) {
        now := later;
      }
      t := now;
    }

    /** Any answer that the budget covers. */
    method Outside() returns (answer: Answer)
      ensures Costs(answer) ==> budget.misses > 0
    {
      var any: Answer := *;
      answer := Afford(any);
    }

    /** The answer itself, if the budget covers it. */
    method Afford(any: Answer) returns (answer: Answer)
      ensures answer == if Costs(any) && budget.misses == 0 then Answer(true, any.failed, None) else any
    {
      answer := any;
      if Costs(answer) && budget.misses == 0 {
        answer := Answer(true, answer.failed, None);
      }
    }

    method Miss()
      requires budget.misses > 0
      modifies this
      ensures now == old(now) && budget == old(budget).(misses := old(budget).misses - 1)
    {
      budget := budget.(misses := budget.misses - 1);
    }

    method Adjust(time: real, budget: Budget)
      modifies this
      ensures now == time && this.budget == budget
    {
      this.now, this.budget := time, budget;
    }
  }

  predicate Elapsed(now0: real, budget0: Budget, now1: real, budget1: Budget) {
    && now0 <= now1 && budget1.misses <= budget0.misses && budget1.until == budget0.until
    && (budget0.until.Some? ==> now1.Floor <= budget0.until.value || now1.Floor == now0.Floor)
  }

  /** The end of the second that the clock is in. */
  function Tick(now: real): (t: real)
    ensures now < t <= now + 1.0
  {
    (now.Floor + 1) as real
  }

  lemma WholeSecond(second: int, now: real)
    ensures second as real > now <==> second as real >= Tick(now)
  {
    var f := now.Floor;
    if second <= f {
      assert second as real <= f as real <= now;
    } else {
      assert (f + 1) as real <= second as real;
    }
  }

  /** The fields of an entry. */
  datatype Rec = Rec(begin: real, end: real, startPrepare: real, repeatedBegin: real, state: int, repeated: nat,
                     disabled: bool, cancelled: bool, autoincrease: bool, justplay: bool, firstTry: bool,
                     backoff: real)
  {
    predicate Valid() {
      && WAITING <= state <= ENDED
      && (repeated == 0 || exists d: nat :: d < 7 && Selected(repeated, d))
      && (backoff == 0.0 || backoff >= 5.0)
    }

    /** The moment at which the next state is due. */
    function Key(): real {
      if state == WAITING then startPrepare
      else if state == PREPARED then begin
      else end
    }

    function Rescheduled(): Rec {
      this.(startPrepare := begin - 20.0, backoff := 0.0)
    }

    function Reset(): Rec {
      this.(state := WAITING, cancelled := false, firstTry := true).Rescheduled()
    }

    function BackedOff(): (r: Rec)
      ensures Valid() ==> r.Valid() && r.backoff >= 5.0
      ensures r == this.(backoff := r.backoff) && (backoff <= 100.0 ==> r.backoff <= 100.0)
    {
      this.(backoff := if backoff == 0.0 then 5.0 else if backoff * 2.0 > 100.0 then 100.0 else backoff * 2.0)
    }
  }

  /** The search for the next occurrence of a repeated entry at a moment of second `second`. */
  function PlanOf(r: Rec, second: int, zone: int, running: bool): Plan {
    Plan(r.begin.Floor + zone, r.end.Floor + zone, r.repeatedBegin.Floor + zone, second + 1 + zone, r.repeated, running)
  }

  /** A repeated entry, moved by k days; `running` says whether a running event still counts. */
  predicate Moved(r: Rec, second: int, zone: int, running: bool, k: nat, r1: Rec) {
    var b, e := r.begin.Floor + k * DAY, r.end.Floor + k * DAY;
    FirstFit(PlanOf(r, second, zone, running), k)
    && r1 == r.(begin := b as real, end := (if b == e then e + 1 else e) as real).Rescheduled()
  }

  /** What processRepeated does to an entry, at some moment of second `second`. */
  ghost predicate Repeated(r: Rec, second: int, zone: int, running: bool, r1: Rec) {
    if r.repeated == 0 then r1 == r else exists k: nat :: Moved(r, second, zone, running, k, r1)
  }

  /** Up to when an open-ended recording may go on: thirty seconds before the first conflicting entry
      begins, or for a day. */
  ghost predicate RoomUntil(answer: Answer, now0: real, now1: real, until: real) {
    match answer.conflict
    case Some(begin) => until == begin - 30.0
    case None => exists second: int :: now0.Floor <= second <= now1.Floor && until == DayAfter(second)
  }

  function DayAfter(second: int): real {
    (second + 86400) as real
  }

  /** What extending does between two moments: an open-ended recording gets the room there is, if
      that is not over yet. */
  ghost predicate Stretched(r: Rec, now0: real, answer: Answer, extended: bool, r1: Rec, now1: real) {
    if !r.autoincrease then !extended && r1 == r
    else
      exists until: real ::
        && RoomUntil(answer, now0, now1, until) && (extended <==> now1 < until)
        && r1 == if extended then r.(end := until) else r
  }

  /** What activating an entry does between two moments: the entry accepts its next state, or it
      refuses and postpones itself, or it is extended and stays running.  It is stuck when its
      service could not be found, or when the extension does not reach the next second: then it
      stays due. */
  ghost predicate Activated(r: Rec, now0: real, answer: Answer, accepted: bool, stuck: bool, r1: Rec, now1: real) {
    if r.state == WAITING then
      if r.justplay || (answer.found && !answer.failed) then accepted && !stuck && r1 == r.(backoff := 0.0)
      else if !answer.found then !accepted && stuck && r1 == r.(firstTry := false)
      else
        && !accepted && !stuck && now0 <= r1.startPrepare - r1.backoff <= now1
        && r1 == r.BackedOff().(startPrepare := r1.startPrepare, firstTry := false)
    else if r.state == PREPARED then
      if r.cancelled || r.justplay || !answer.failed then accepted && !stuck && r1 == r
      else
        && !accepted && !stuck && now0 <= r1.begin - r1.backoff <= now1
        && r1 == r.BackedOff().(begin := r1.begin)
    else
      exists extended: bool, longer: Rec ::
        && accepted && Stretched(r, now0, answer, extended, longer, now1)
        && r1 == (if extended then longer.(state := r.state - 1) else longer)
        && (stuck <==> extended && longer.end < Tick(now1))
  }

  /** An extension ends later than now. */
  predicate Extended(r: Rec, now: real, r1: Rec) {
    r.autoincrease && now < r1.end && r1 == r.(end := r1.end)
  }

  class Entry {
    var begin: real
    var end: real
    var startPrepare: real
    var repeatedBegin: real
    var state: int
    var repeated: nat
    var disabled: bool
    var cancelled: bool
    var autoincrease: bool
    var justplay: bool
    var firstTry: bool
    var backoff: real

    ghost function Data(): Rec
      reads this
    {
      Rec(begin, end, startPrepare, repeatedBegin, state, repeated, disabled, cancelled, autoincrease, justplay,
          firstTry, backoff)
    }

    constructor (begin: int, end: int, disabled: bool, justplay: bool)
      ensures Data().Valid() && state == WAITING && repeated == 0 && !cancelled
      ensures this.begin == begin as real && this.end == (if end < begin then begin else end) as real
      ensures Data() == Data().Reset() && this.disabled == disabled
      ensures this.justplay == justplay && repeatedBegin == begin as real
    {
      this.begin, this.end := begin as real, (if end < begin then begin else end) as real;
      repeatedBegin := begin as real;
      repeated, autoincrease := 0, false;
      this.disabled, this.justplay := disabled, justplay;
      startPrepare, state, cancelled, firstTry, backoff := 0.0, WAITING, false, true, 0.0;
      new;
      ResetState();
    }

    function GetNextActivation(): (t: real)
      reads this
      ensures t == Data().Key()
    {
      if state == ENDED then end
      else if state == WAITING then startPrepare
      else if state == PREPARED then begin
      else end
    }

    method TimeChanged()
      modifies this
      ensures Data() == old(Data()).Rescheduled()
    {
      startPrepare := begin - PREPARE_TIME;
      backoff := 0.0;
    }

    method ResetState()
      modifies this
      ensures Data() == old(Data()).Reset()
    {
      state := WAITING;
      cancelled := false;
      firstTry := true;
      TimeChanged();
    }

    method ProcessRepeated(clock: Clock, findRunningEvent: bool)
      requires Data().Valid()
      modifies this, clock
      ensures Elapsed(old(clock.now), old(clock.budget), clock.now, clock.budget)
      ensures Data().Valid() && Repeated(old(Data()), clock.now.Floor, clock.zone, findRunningEvent, Data())
    {
      hide FirstFit, Selected;
      if repeated != 0 {
        var t := clock.Time();
        var now := t.Floor + 1;
        var p := Plan(begin.Floor + clock.zone, end.Floor + clock.zone, repeatedBegin.Floor + clock.zone,
                      now + clock.zone, repeated, findRunningEvent);
        assert p == PlanOf(old(Data()), t.Floor, clock.zone, findRunningEvent);
        var b, e, k := FindDay(p);
        begin := (b - clock.zone) as real;
        end := (e - clock.zone) as real;
        if begin == end {
          end := end + 1.0;
        }
        TimeChanged();
        assert Moved(old(Data()), t.Floor, clock.zone, findRunningEvent, k, Data());
      }
    }

    method ShouldSkip(clock: Clock) returns (skip: bool)
      modifies clock
      ensures Elapsed(old(clock.now), old(clock.budget), clock.now, clock.budget)
      ensures skip == (end <= clock.now && state == WAITING) && clock.budget == old(clock.budget)
    {
      var t := clock.Time();
      skip := end <= t && state == WAITING;
    }

    method Abort(clock: Clock)
      modifies this, clock
      ensures Elapsed(old(clock.now), old(clock.budget), clock.now, clock.budget)
      ensures Data() == old(Data()).(end := clock.now, cancelled := true,
                                     begin := if old(begin) > clock.now then clock.now else old(begin))
    {
      end := clock.Time();
      if begin > end {
        begin := end;
      }
      cancelled := true;
    }

    method DoBackoff()
      modifies this
      ensures Data() == old(Data()).BackedOff()
    {
      if backoff == 0.0 {
        backoff := 5.0;
      } else {
        backoff := backoff * 2.0;
        if backoff > 100.0 {
          backoff := 100.0;
        }
      }
    }

    /** Reserves the service for the recording; `missed` when no service was found. */
    method TryPrepare(clock: Clock, answer: Answer) returns (prepared: bool, ghost missed: bool)
      requires Costs(answer) ==> clock.budget.misses > 0
      modifies this, clock
      ensures Elapsed(old(clock.now), old(clock.budget), clock.now, clock.budget)
      ensures prepared <==> justplay || (answer.found && !answer.failed)
      ensures missed <==> !justplay && !answer.found
      ensures missed ==> clock.budget.misses < old(clock.budget).misses
      ensures prepared || missed ==> Data() == old(Data())
      ensures !prepared && !missed ==> startPrepare == clock.now + backoff
      ensures !prepared && !missed ==> Data() == old(Data()).BackedOff().(startPrepare := startPrepare)
    {
      if justplay {
        return true, false;
      }
      if !answer.found {
        clock.Miss();
        return false, true;
      }
      if answer.failed {
        DoBackoff();
        var t := clock.Time();
        startPrepare := t + backoff;
        return false, false;
      }
      return true, false;
    }

    /** The end up to which other entries leave room.  If it is no whole second, it may turn out to lie
        within the current one, which counts as a miss. */
    method FreeUntil(clock: Clock, answer: Answer) returns (newEnd: real)
      requires Costs(answer) ==> clock.budget.misses > 0
      modifies clock
      ensures Elapsed(old(clock.now), old(clock.budget), clock.now, clock.budget)
      ensures RoomUntil(answer, old(clock.now), clock.now, newEnd)
      ensures newEnd.Floor as real == newEnd || clock.budget.misses < old(clock.budget).misses
    {
      var t := clock.Time();
      newEnd := (t.Floor + AUTOINCREASE_TIME) as real;
      assert newEnd == DayAfter(t.Floor);
      if answer.conflict.Some? {
        newEnd := answer.conflict.value - 30.0;
        if Costs(answer) {
          clock.Miss();
        } else {
          WholeDifference(answer.conflict.value, 30);
        }
      }
    }

    /** Extends an open-ended recording as far as other entries allow. */
    method SetAutoincreaseEnd(clock: Clock, answer: Answer) returns (extended: bool)
      requires Costs(answer) ==> clock.budget.misses > 0
      modifies this, clock
      ensures Elapsed(old(clock.now), old(clock.budget), clock.now, clock.budget)
      ensures Stretched(old(Data()), old(clock.now), answer, extended, Data(), clock.now)
      ensures extended && end < Tick(clock.now) ==> clock.budget.misses < old(clock.budget).misses
    {
      if !autoincrease {
        return false;
      }
      var newEnd := FreeUntil(clock, answer);
      ghost var now := clock.now;
      var t := clock.Time();
      RoomLater(answer, old(clock.now), now, t, newEnd);
      WholeSecond(newEnd.Floor, t);
      hide Tick, Elapsed, RoomUntil;
      if newEnd <= t {
        return false;
      }
      end := newEnd;
      return true;
    }

    method Activate(clock: Clock, answer: Answer) returns (accepted: bool, ghost stuck: bool)
      requires WAITING <= state < ENDED && (Costs(answer) ==> clock.budget.misses > 0)
      modifies this, clock
      ensures Elapsed(old(clock.now), old(clock.budget), clock.now, clock.budget)
      ensures Activated(old(Data()), old(clock.now), answer, accepted, stuck, Data(), clock.now)
      ensures stuck ==> clock.budget.misses < old(clock.budget).misses
    {
      hide Tick, RoomUntil;
      stuck := false;
      var nextState := state + 1;
      if nextState == PREPARED {
        var prepared;
        prepared, stuck := TryPrepare(clock, answer);
        if prepared {
          backoff := 0.0;
          return true, stuck;
        }
        firstTry := false;
        return false, stuck;
      } else if nextState == RUNNING {
        if cancelled {
          return true, false;
        }
        if justplay {
          return true, false;
        }
        if answer.failed {
          DoBackoff();
          var t := clock.Time();
          begin := t + backoff;
          return false, false;
        }
        return true, false;
      } else {
        var extended := SetAutoincreaseEnd(clock, answer);
        ghost var longer := Data();
        if extended {
          stuck := end < Tick(clock.now);
          state := state - 1;
        }
        assert Stretched(old(Data()), old(clock.now), answer, extended, longer, clock.now);
        return true, stuck;
      }
    }
  }

  lemma WholeDifference(time: real, seconds: int)
    requires time.Floor as real == time
    ensures (time - seconds as real).Floor as real == time - seconds as real
  {
    assert time - seconds as real == (time.Floor - seconds) as real;
  }

  lemma RoomLater(answer: Answer, now0: real, now1: real, now2: real, until: real)
    requires RoomUntil(answer, now0, now1, until) && now1 <= now2
    ensures RoomUntil(answer, now0, now2, until)
  {
    assert now1.Floor <= now2.Floor;
  }

  // ---- what the steps mean for the schedule ----

  /** A refused activation leaves the current second, unless the service of the entry could not be
      found: then the entry is as due as before, and nothing but its first-try flag has changed. */
  lemma RefusalPostpones(r: Rec, now0: real, answer: Answer, stuck: bool, r1: Rec, now1: real)
    requires r.Valid() && WAITING <= r.state < ENDED && Activated(r, now0, answer, false, stuck, r1, now1)
    requires r.Key() < Tick(now0)
    ensures r1.state == r.state && r1.Valid()
    ensures Tick(now0) <= r1.Key() <==> !stuck
    ensures stuck <==> r.state == WAITING && !answer.found
    ensures stuck ==> r1 == r.(firstTry := false)
  {
  }

  /** A new entry whose preparation is due and whose service cannot be found may be tried any number
      of times, at any moment until it is over: every try leaves it as it is, and due. */
  method NeverFound() returns (entry: Entry)
    ensures var r := entry.Data();
            && r.Valid() && r.state == WAITING && r.end == 200.0
            && forall now: real, answer: Answer, first: bool | 90.0 <= now < 200.0 && !answer.found ::
                 && r.Key() < Tick(now)
                 && Activated(r.(firstTry := first), now, answer, false, true, r.(firstTry := false), now)
  {
    entry := new Entry(100, 200, false, false);
  }

  /** A moved entry lies after the moment of the move, on the earliest selected day. */
  lemma MovedEndsLater(r: Rec, second: int, zone: int, running: bool, k: nat, r1: Rec)
    requires Moved(r, second, zone, running, k, r1)
    ensures (if running then r1.end else r1.begin) >= (second + 1) as real
    ensures Selected(r.repeated, Weekday(r1.begin.Floor + zone))
    ensures r1.begin.Floor >= r.repeatedBegin.Floor && r1.begin != r1.end
    ensures forall j: nat | j < k ::
      || !Selected(r.repeated, Weekday(r.begin.Floor + zone + j * DAY))
      || r.begin.Floor + j * DAY < r.repeatedBegin.Floor
      || (if running then r.end.Floor else r.begin.Floor) + j * DAY <= second + (if j == 0 then 0 else 1)
  {
    hide Selected, Weekday;
    var p := PlanOf(r, second, zone, running);
    assert r1.begin.Floor == r.begin.Floor + k * DAY;
    forall j: nat | j < k
      ensures || !Selected(r.repeated, Weekday(r.begin.Floor + zone + j * DAY))
              || r.begin.Floor + j * DAY < r.repeatedBegin.Floor
              || (if running then r.end.Floor else r.begin.Floor) + j * DAY <= second + (if j == 0 then 0 else 1)
    {
      assert !Fits(p, j);
    }
  }

  /** A repeated entry always has a next occurrence. */
  lemma Occurs(r: Rec, second: int, zone: int) returns (r1: Rec)
    requires r.Valid() && r.repeated != 0
    ensures Repeated(r, second, zone, true, r1) && r1.end > second as real
    ensures r1.Valid() && r1.state == r.state && r1.repeated == r.repeated && r1.disabled == r.disabled
  {
    hide FirstFit, Selected;
    var k := FirstFitExists(PlanOf(r, second, zone, true));
    var b, e := r.begin.Floor + k * DAY, r.end.Floor + k * DAY;
    r1 := r.(begin := b as real, end := (if b == e then e + 1 else e) as real).Rescheduled();
    MovedEndsLater(r, second, zone, true, k, r1);
  }
}
