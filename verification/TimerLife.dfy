/** The life of the entries while the timer works (apps/enigma2-nightly/timer.py and RecordTimer.py):
    the stages that an entry may go through, and that it goes through no others. */
module TimerLife {
  import opened Bytes
  import opened TimerEntry
  import opened TimerLists
  import opened TimerRepeat

  // ---- stages ----

  /** A repeated entry that has ended is moved to its next occurrence and filed as waiting. */
  ghost predicate Renewed(zone: int, r: Rec, now0: real, r1: Rec, now1: real) {
    exists moved: Rec, when: real ::
      && Repeated(r, when.Floor, zone, true, moved) && now0 <= when <= now1
      && Filed(moved.(state := WAITING), when.Floor, zone, r1, now1)
  }

  /** A due entry is activated or skipped; a repeated one that has ended thereby is renewed. */
  ghost predicate Acted(zone: int, r: Rec, now0: real, answer: Answer, stuck: bool, r1: Rec, now1: real) {
    exists ra: Rec, when: real ::
      && Lived(r, now0, answer, stuck, ra, when) && now0 <= when <= now1
      && if ra.state == ENDED && r.repeated != 0 then Renewed(zone, ra, when, r1, now1) else r1 == ra
  }

  /** After the clock was set back an entry that has ended starts over. */
  ghost predicate StartedOver(zone: int, r: Rec, now0: real, r1: Rec, now1: real) {
    r.state == ENDED && now0 <= now1 && Filed(r.Reset(), now0.Floor, zone, r1, now1)
  }

  /** One stage of the life of an entry; `back` says whether the clock was set back before. */
  ghost predicate Stage(zone: int, back: bool, r: Rec, now0: real, r1: Rec, now1: real) {
    && now0 <= now1
    && ((IsDue(r, now0) && exists answer: Answer, stuck: bool :: Acted(zone, r, now0, answer, stuck, r1, now1))
        || (back && StartedOver(zone, r, now0, r1, now1)))
  }

  /** n stages, one after the other. */
  ghost predicate Stages(n: nat, zone: int, back: bool, r0: Rec, now0: real, r1: Rec, now1: real) {
    if n == 0 then r1 == r0 && now0 <= now1
    else
      exists r: Rec, now: real, when: real ::
        Stages(n - 1, zone, back, r0, now0, r, now) && Stage(zone, back, r, now, r1, when) && when <= now1
  }

  ghost predicate Lives(zone: int, back: bool, r0: Rec, now0: real, r1: Rec, now1: real) {
    exists n: nat :: Stages(n, zone, back, r0, now0, r1, now1)
  }

  lemma LivesStill(zone: int, back: bool, r: Rec, now0: real, now1: real)
    requires now0 <= now1
    ensures Lives(zone, back, r, now0, r, now1)
  {
    assert Stages(0, zone, back, r, now0, r, now1);
  }

  lemma LivesOne(zone: int, back: bool, r: Rec, now0: real, r1: Rec, now1: real)
    requires Stage(zone, back, r, now0, r1, now1)
    ensures Lives(zone, back, r, now0, r1, now1)
  {
    hide Stage;
    assert Stages(0, zone, back, r, now0, r, now0);
    assert Stages(1, zone, back, r, now0, r1, now1);
  }

  lemma {:induction false} StagesChain(n: nat, k: nat, zone: int, back: bool, back1: bool, r0: Rec, now0: real,
                                       r1: Rec, now1: real, r2: Rec, now2: real)
    requires Stages(n, zone, back, r0, now0, r1, now1) && Stages(k, zone, back1, r1, now1, r2, now2)
    requires back1 ==> back
    ensures Stages(n + k, zone, back, r0, now0, r2, now2)
    decreases k
  {
    hide Acted, StartedOver, IsDue;
    if k == 0 {
      StagesLater(n, zone, back, r0, now0, r1, now1, now2);
    } else {
      var r: Rec, now: real, when: real :|
        Stages(k - 1, zone, back1, r1, now1, r, now) && Stage(zone, back1, r, now, r2, when) && when <= now2;
      StagesChain(n, k - 1, zone, back, back1, r0, now0, r1, now1, r, now);
      assert Stage(zone, back, r, now, r2, when);
    }
  }

  lemma StagesLater(n: nat, zone: int, back: bool, r0: Rec, now0: real, r1: Rec, now1: real, now2: real)
    requires Stages(n, zone, back, r0, now0, r1, now1) && now1 <= now2
    ensures Stages(n, zone, back, r0, now0, r1, now2)
  {
    hide Stage;
  }

  lemma LivesChain(zone: int, back: bool, back1: bool, r0: Rec, now0: real, r1: Rec, now1: real, r2: Rec, now2: real)
    requires Lives(zone, back, r0, now0, r1, now1) && Lives(zone, back1, r1, now1, r2, now2) && (back1 ==> back)
    ensures Lives(zone, back, r0, now0, r2, now2)
  {
    hide Stages;
    var n: nat :| Stages(n, zone, back, r0, now0, r1, now1);
    var k: nat :| Stages(k, zone, back1, r1, now1, r2, now2);
    StagesChain(n, k, zone, back, back1, r0, now0, r1, now1, r2, now2);
  }

  /** An entry whose time has not come is left alone. */
  lemma {:induction false} NotYet(n: nat, zone: int, back: bool, r0: Rec, now0: real, r1: Rec, now1: real)
    requires Stages(n, zone, back, r0, now0, r1, now1)
    requires r0.state != ENDED && Tick(now1) <= r0.Key()
    ensures r1 == r0 && now0 <= now1
  {
    hide Acted, Tick, Rec.Key;
    if n > 0 {
      var r: Rec, now: real, when: real :|
        Stages(n - 1, zone, back, r0, now0, r, now) && Stage(zone, back, r, now, r1, when) && when <= now1;
      TickMonotone(now, now1);
      NotYet(n - 1, zone, back, r0, now0, r, now);
    }
  }

  // ---- all entries ----

  /** Between two moments every known entry goes through stages of its life, and nothing else happens
      to it. */
  ghost predicate Evolves(zone: int, m0: Moment, m1: Moment) {
    && m1.book.Keys == m0.book.Keys && m0.now <= m1.now && (m1.last > m1.now ==> m0.last > m0.now)
    && forall e | e in m0.book :: Lives(zone, m0.last > m0.now, m0.book[e], m0.now, m1.book[e], m1.now)
  }

  lemma EvolvesChain(zone: int, m0: Moment, m1: Moment, m2: Moment)
    requires Evolves(zone, m0, m1) && Evolves(zone, m1, m2)
    ensures Evolves(zone, m0, m2)
  {
    hide Lives;
    forall e | e in m0.book ensures Lives(zone, m0.last > m0.now, m0.book[e], m0.now, m2.book[e], m2.now) {
      LivesChain(zone, m0.last > m0.now, m1.last > m1.now, m0.book[e], m0.now, m1.book[e], m1.now, m2.book[e], m2.now);
    }
  }

  /** Nothing happens to the entries. */
  lemma EvolvesStill(zone: int, m0: Moment, m1: Moment)
    requires m1.book == m0.book && m0.now <= m1.now && (m1.last == m0.last || m1.last <= m1.now)
    ensures Evolves(zone, m0, m1)
  {
    hide Lives;
    forall e | e in m0.book ensures Lives(zone, m0.last > m0.now, m0.book[e], m0.now, m1.book[e], m1.now) {
      LivesStill(zone, m0.last > m0.now, m0.book[e], m0.now, m1.now);
    }
  }

  /** One entry goes through one stage. */
  lemma EvolvesOne(zone: int, m0: Moment, w: Entry, m1: Moment)
    requires w in m0.book && w in m1.book && m1.book == m0.book[w := m1.book[w]] && m1.last == m0.last
    requires Stage(zone, m0.last > m0.now, m0.book[w], m0.now, m1.book[w], m1.now)
    ensures Evolves(zone, m0, m1)
  {
    hide Lives, Acted, StartedOver, IsDue;
    forall e | e in m0.book ensures Lives(zone, m0.last > m0.now, m0.book[e], m0.now, m1.book[e], m1.now) {
      if e == w {
        LivesOne(zone, m0.last > m0.now, m0.book[w], m0.now, m1.book[w], m1.now);
      } else {
        LivesStill(zone, m0.last > m0.now, m0.book[e], m0.now, m1.now);
      }
    }
  }

  /** An unfinished entry that is still not due has not changed. */
  lemma Untouched(zone: int, m0: Moment, m1: Moment, e: Entry)
    requires Evolves(zone, m0, m1) && e in m0.book && m0.book[e].state != ENDED && Tick(m1.now) <= m0.book[e].Key()
    ensures e in m1.book && m1.book[e] == m0.book[e]
  {
    hide Stages;
    var n: nat :| Stages(n, zone, m0.last > m0.now, m0.book[e], m0.now, m1.book[e], m1.now);
    NotYet(n, zone, m0.last > m0.now, m0.book[e], m0.now, m1.book[e], m1.now);
  }

  /** A due entry has been activated and filed again, and nothing else has happened. */
  ghost predicate ActedOnly(zone: int, m0: Moment, w: Entry, answer: Answer, stuck: bool, mid: Moment) {
    && w in m0.book && w in mid.book && mid.book == m0.book[w := mid.book[w]] && mid.last == m0.last
    && Acted(zone, m0.book[w], m0.now, answer, stuck, mid.book[w], mid.now)
  }

  lemma ActedEvolves(zone: int, m0: Moment, w: Entry, answer: Answer, stuck: bool, mid: Moment)
    requires ActedOnly(zone, m0, w, answer, stuck, mid) && IsDue(m0.book[w], m0.now)
    ensures Evolves(zone, m0, mid)
  {
    hide IsDue, Evolves;
    ActedLater(zone, m0.book[w], m0.now, answer, stuck, mid.book[w], mid.now);
    EvolvesOne(zone, m0, w, mid);
  }

  lemma ActedLater(zone: int, r: Rec, now0: real, answer: Answer, stuck: bool, r1: Rec, now1: real)
    requires Acted(zone, r, now0, answer, stuck, r1, now1)
    ensures now0 <= now1
  {
    hide Lived, Renewed;
  }

  lemma ActedPlain(zone: int, m0: Moment, w: Entry, answer: Answer, stuck: bool, m1: Moment)
    requires w in m0.book && w in m1.book && m1.book == m0.book[w := m1.book[w]] && m1.last == m0.last
    requires Lived(m0.book[w], m0.now, answer, stuck, m1.book[w], m1.now) && m0.now <= m1.now
    requires IsDue(m0.book[w], m0.now) && (m1.book[w].state == ENDED ==> m0.book[w].repeated == 0)
    ensures ActedOnly(zone, m0, w, answer, stuck, m1) && Evolves(zone, m0, m1) && Evolves(zone, m1, m1)
  {
    hide Lived, IsDue, Evolves;
    ActedEvolves(zone, m0, w, answer, stuck, m1);
    EvolvesStill(zone, m1, m1);
  }

  lemma ActedRenewed(zone: int, m0: Moment, w: Entry, answer: Answer, stuck: bool, ra: Rec, when: real, mid: Moment,
                     m2: Moment)
    requires w in m0.book && w in mid.book && mid.book == m0.book[w := mid.book[w]] && mid.last == m0.last
    requires Lived(m0.book[w], m0.now, answer, stuck, ra, when) && m0.now <= when <= mid.now
    requires IsDue(m0.book[w], m0.now) && ra == m0.book[w].(state := ENDED) && ra.repeated != 0
    requires Renewed(zone, ra, when, mid.book[w], mid.now) && Evolves(zone, mid, m2)
    ensures ActedOnly(zone, m0, w, answer, stuck, mid) && Evolves(zone, m0, m2)
    ensures NextOccurrence(zone, m0.book[w], m0.now, mid.book[w], mid.now)
  {
    hide Lived, IsDue, Evolves, Renewed, Selected, Weekday;
    ActedEvolves(zone, m0, w, answer, stuck, mid);
    EvolvesChain(zone, m0, mid, m2);
    RenewedIsNext(zone, ra, when, mid.book[w], mid.now);
  }

  // ---- filing and starting over ----

  /** An entry has been filed, and nothing else has happened. */
  ghost predicate FiledOnly(zone: int, m0: Moment, w: Entry, r: Rec, mid: Moment) {
    && w in m0.book && w in mid.book && mid.book == m0.book[w := mid.book[w]] && mid.last == m0.last
    && m0.now <= mid.now && Filed(r, m0.now.Floor, zone, mid.book[w], mid.now)
  }

  /** The processed entries have started over, and nothing else has happened. */
  ghost predicate AllStartedOver(zone: int, m0: Moment, done: seq<Entry>, m1: Moment) {
    && m1.book.Keys == m0.book.Keys && m0.now <= m1.now && m1.last == m0.last
    && (forall e | e in m0.book && e !in done :: m1.book[e] == m0.book[e])
    && (forall e | e in m0.book && e in done :: StartsOver(zone, m0.book[e], m0.now, m1.book[e], m1.now))
  }

  ghost predicate StartsOver(zone: int, r: Rec, now0: real, r1: Rec, now1: real) {
    exists now: real, when: real :: now0 <= now && StartedOver(zone, r, now, r1, when) && when <= now1
  }

  lemma NoneStartedOver(zone: int, m0: Moment)
    ensures AllStartedOver(zone, m0, [], m0)
  {
  }

  /** One more entry starts over. */
  lemma OneMoreStartedOver(zone: int, m0: Moment, done: seq<Entry>, m1: Moment, x: Entry, m2: Moment)
    requires AllStartedOver(zone, m0, done, m1) && x in m0.book && x !in done
    requires x in m2.book && m2.book == m1.book[x := m2.book[x]] && m1.now <= m2.now && m2.last == m1.last
    requires StartedOver(zone, m0.book[x], m1.now, m2.book[x], m2.now)
    ensures AllStartedOver(zone, m0, done + [x], m2)
  {
    hide StartedOver;
    forall e | e in m0.book && e in done + [x] ensures StartsOver(zone, m0.book[e], m0.now, m2.book[e], m2.now) {
      if e != x {
        assert StartsOver(zone, m0.book[e], m0.now, m1.book[e], m1.now);
      }
    }
  }

  /** The same, counted from an earlier moment. */
  lemma StartedOverEarlier(zone: int, m0: Moment, m1: Moment, done: seq<Entry>, m2: Moment)
    requires AllStartedOver(zone, m1, done, m2) && m1.book == m0.book && m0.now <= m1.now && m1.last == m0.last
    ensures AllStartedOver(zone, m0, done, m2)
  {
    hide StartedOver;
    forall e | e in m0.book && e in done ensures StartsOver(zone, m0.book[e], m0.now, m2.book[e], m2.now) {
      assert StartsOver(zone, m1.book[e], m1.now, m2.book[e], m2.now);
    }
  }

  lemma StartedOverEvolves(zone: int, m0: Moment, done: seq<Entry>, m1: Moment)
    requires AllStartedOver(zone, m0, done, m1) && m0.last > m0.now
    ensures Evolves(zone, m0, m1)
  {
    hide Lives, StartedOver;
    forall e | e in m0.book ensures Lives(zone, true, m0.book[e], m0.now, m1.book[e], m1.now) {
      if e in done {
        var now: real, when: real :|
          m0.now <= now && StartedOver(zone, m0.book[e], now, m1.book[e], when) && when <= m1.now;
        StartedOverLives(zone, m0.book[e], m0.now, now, m1.book[e], when, m1.now);
      } else {
        LivesStill(zone, true, m0.book[e], m0.now, m1.now);
      }
    }
  }

  lemma StartedOverLives(zone: int, r: Rec, now0: real, now: real, r1: Rec, when: real, now1: real)
    requires now0 <= now && StartedOver(zone, r, now, r1, when) && when <= now1
    ensures Lives(zone, true, r, now0, r1, now1)
  {
    LivesStill(zone, true, r, now0, now);
    assert Stage(zone, true, r, now, r1, when);
    LivesOne(zone, true, r, now, r1, when);
    LivesStill(zone, true, r1, when, now1);
    hide Stage, Lives, StartedOver;
    LivesChain(zone, true, true, r, now, r1, when, r1, now1);
    LivesChain(zone, true, true, r, now0, r, now, r1, now1);
  }

  /** When the first i of the processed entries have been filed again. */
  ghost predicate Midway(zone: int, m0: Moment, tl: seq<Entry>, i: nat, m1: Moment) {
    && i <= |tl| && Progress(m0, m1) && Chances(m1) <= Chances(m0) && AllStartedOver(zone, m0, tl[..i], m1)
    && (forall j, k | 0 <= j < k < |tl| :: tl[j] != tl[k])
    && forall e | e in tl[i..] :: e in m1.book && e in m0.book && m1.book[e] == m0.book[e] && m0.book[e].state == ENDED
  }

  lemma MidwayStart(zone: int, m0: Moment, list: seq<Entry>, tl: seq<Entry>)
    requires Placed(list, tl, multiset{}, m0.book)
    ensures Midway(zone, m0, tl, 0, m0) && Placed(list, [], multiset(tl[0..]), m0.book)
  {
    hide Placed, Progress, Forward, Chances, AllStartedOver;
    NoneStartedOver(zone, m0);
    DoneDistinct(list, tl, m0.book);
    TakeAll(list, tl, m0.book);
    ClockProgress(m0, m0.now, m0.budget);
    assert tl[..0] == [] && tl[0..] == tl;
  }

  lemma MidwayNow(zone: int, m0: Moment, tl: seq<Entry>, i: nat, m1: Moment) returns (rest: multiset<Entry>)
    requires Midway(zone, m0, tl, i, m1) && i < |tl| && Bounded(m0)
    ensures rest == multiset(tl[i + 1..]) && multiset(tl[i..]) == multiset{tl[i]} + rest && Bounded(m1)
    ensures tl[i] in m1.book && m1.book[tl[i]].state == ENDED
    ensures SecondsLeft(m1.now, m1.budget) <= SecondsLeft(m0.now, m0.budget)
    ensures SecondsLeft(m1.now, m1.budget) == SecondsLeft(m0.now, m0.budget) ==>
              |Early(m1.book, m1.now)| <= |Early(m0.book, m0.now)|
  {
    hide Progress, Chances, AllStartedOver, SecondsLeft, Early, Bounded;
    rest := multiset(tl[i + 1..]);
    assert tl[i..] == [tl[i]] + tl[i + 1..];
    Nearer(m0, m1);
  }

  /** One more entry has been filed. */
  lemma MidwayNext(zone: int, m0: Moment, tl: seq<Entry>, i: nat, m1: Moment, m2: Moment)
    requires Midway(zone, m0, tl, i, m1) && i < |tl|
    requires var x := tl[i];
             && x in m1.book && x in m2.book && m2.book == m1.book[x := m2.book[x]]
             && m1.now <= m2.now && m2.last == m1.last
             && Progress(m1, m2) && Chances(m2) <= Chances(m1)
             && StartedOver(zone, m1.book[x], m1.now, m2.book[x], m2.now)
    ensures Midway(zone, m0, tl, i + 1, m2)
  {
    hide Progress, Chances, AllStartedOver, StartedOver;
    ProgressChains(m0, m1, m2);
    NotBefore(tl, i);
    assert tl[..i + 1] == tl[..i] + [tl[i]] && tl[i..] == [tl[i]] + tl[i + 1..];
    forall e | e in tl[i + 1..] ensures e in tl[i..] && e != tl[i] {
      var k :| i + 1 <= k < |tl| && tl[k] == e;
    }
    OneMoreStartedOver(zone, m0, tl[..i], m1, tl[i], m2);
  }

  lemma MidwayEnd(zone: int, m0: Moment, tl: seq<Entry>, m1: Moment)
    requires Midway(zone, m0, tl, |tl|, m1)
    ensures Progress(m0, m1) && Chances(m1) <= Chances(m0)
    ensures AllStartedOver(zone, m0, tl, m1) && m1.last == m0.last && multiset(tl[|tl|..]) == multiset{}
  {
    hide Progress, Chances;
    assert tl[|tl|..] == [] && tl[..|tl|] == tl;
  }

  /** An entry has started over and lived on from there. */
  ghost predicate LivesAgain(zone: int, r0: Rec, now0: real, r1: Rec, now1: real) {
    exists r: Rec, now: real :: StartsOver(zone, r0, now0, r, now) && Lives(zone, true, r, now, r1, now1)
  }

  /** All processed entries have started over and lived on from there. */
  ghost predicate Reconsidered(zone: int, m0: Moment, done: seq<Entry>, m1: Moment) {
    forall e | e in done && e in m0.book && e in m1.book ::
      LivesAgain(zone, m0.book[e], m0.now, m1.book[e], m1.now)
  }

  lemma ReconsideredStart(zone: int, m0: Moment, done: seq<Entry>, m1: Moment)
    requires AllStartedOver(zone, m0, done, m1)
    ensures Reconsidered(zone, m0, done, m1)
  {
    hide StartsOver, Lives;
    forall e | e in done && e in m0.book && e in m1.book
      ensures LivesAgain(zone, m0.book[e], m0.now, m1.book[e], m1.now)
    {
      assert StartsOver(zone, m0.book[e], m0.now, m1.book[e], m1.now);
      LivesStill(zone, true, m1.book[e], m1.now, m1.now);
    }
  }

  lemma ReconsideredOn(zone: int, m0: Moment, done: seq<Entry>, m1: Moment, m2: Moment)
    requires Reconsidered(zone, m0, done, m1) && Evolves(zone, m1, m2)
    ensures Reconsidered(zone, m0, done, m2)
  {
    hide StartsOver, Lives;
    forall e | e in done && e in m0.book && e in m2.book
      ensures LivesAgain(zone, m0.book[e], m0.now, m2.book[e], m2.now)
    {
      assert LivesAgain(zone, m0.book[e], m0.now, m1.book[e], m1.now);
      var r: Rec, now: real :|
        StartsOver(zone, m0.book[e], m0.now, r, now) && Lives(zone, true, r, now, m1.book[e], m1.now);
      LivesChain(zone, true, m1.last > m1.now, r, now, m1.book[e], m1.now, m2.book[e], m2.now);
    }
  }

  // ---- what is filed ----

  /** The next occurrence of a repeated entry: on a selected weekday and over only after the moment at
      which the last one ended.  It is pending unless it is disabled or already over. */
  predicate NextOccurrence(zone: int, r: Rec, now0: real, r1: Rec, now1: real) {
    && r1.repeated == r.repeated && r1.repeatedBegin == r.repeatedBegin && r1.disabled == r.disabled
    && Selected(r.repeated, Weekday(r1.begin.Floor + zone)) && r1.begin.Floor >= r.repeatedBegin.Floor
    && r1.startPrepare == r1.begin - 20.0 && r1.end > now0
    && r1.state == if r.disabled || r1.end <= now1 then ENDED else WAITING
  }

  lemma RenewedIsNext(zone: int, r: Rec, now0: real, r1: Rec, now1: real)
    requires Renewed(zone, r, now0, r1, now1) && r.repeated != 0
    ensures NextOccurrence(zone, r, now0, r1, now1)
  {
    hide Selected, Weekday, FirstFit;
    var moved: Rec, when: real :|
      && Repeated(r, when.Floor, zone, true, moved) && now0 <= when <= now1
      && Filed(moved.(state := WAITING), when.Floor, zone, r1, now1);
    var k: nat :| Moved(r, when.Floor, zone, true, k, moved);
    FiledIsNext(zone, moved.(state := WAITING), when, r1, now1);
    assert now0 < Tick(when) <= r1.end;
  }

  lemma FiledIsNext(zone: int, r: Rec, now0: real, r1: Rec, now1: real)
    requires r.repeated != 0 && r.state == WAITING && Filed(r, now0.Floor, zone, r1, now1)
    ensures NextOccurrence(zone, r, now0, r1, now1) && Tick(now0) <= r1.end
  {
    hide Selected, Weekday, FirstFit;
    var second: int, moved: Rec :|
      && Repeated(r, second, zone, true, moved) && now0.Floor <= second <= now1.Floor
      && r1 == if moved.state == ENDED || (moved.state == WAITING && (moved.disabled || moved.end <= now1))
               then moved.(state := ENDED) else moved;
    var k: nat :| Moved(r, second, zone, true, k, moved);
    MovedEndsLater(r, second, zone, true, k, moved);
    assert Tick(now0) <= (second + 1) as real <= moved.end;
  }

  /** An entry that is filed to wait for its preparation, and is enabled and not over, waits. */
  lemma FiledWaits(zone: int, r: Rec, from: int, r1: Rec, now1: real)
    requires Filed(r, from, zone, r1, now1) && r.repeated == 0
    requires r.state == WAITING && !r.disabled && now1 < r.end
    ensures r1 == r
  {
  }

  /** An entry whose time was changed: an ended one waits again. */
  function Refreshed(r: Rec): Rec {
    r.(startPrepare := r.begin - 20.0, backoff := 0.0, state := if r.state == ENDED then WAITING else r.state)
  }

  /** An entry whose times and weekdays were edited. */
  function Edited(r: Rec, begin: int, end: int, mask: nat): Rec {
    r.(begin := begin as real, end := end as real, repeated := mask % 128)
  }

  /** An enabled entry that waits and will not recur, with its preparation and its end ahead. */
  predicate Ahead(r: Rec, now: real) {
    r.repeated == 0 && !r.disabled && r.state == WAITING && Tick(now) <= r.startPrepare && now < r.end
  }

  lemma FiledAhead(zone: int, m0: Moment, w: Entry, r: Rec, mid: Moment, m1: Moment)
    requires FiledOnly(zone, m0, w, r, mid) && Evolves(zone, mid, m1)
    ensures w in mid.book
    ensures Ahead(r, m1.now) ==>
              mid.book[w] == r && mid.book[w].state != ENDED && Tick(m1.now) <= mid.book[w].Key()
  {
    hide Lives, Tick;
    if Ahead(r, m1.now) {
      FiledWaits(zone, r, m0.now.Floor, mid.book[w], mid.now);
    }
  }

  /** An entry was moved, if it is repeated, and then either ended or not. */
  lemma PreparedFiles(zone: int, m0: Moment, w: Entry, m1: Moment, m2: Moment)
    requires w in m0.book && w in m1.book && w in m2.book && m0.now <= m1.now == m2.now
    requires m1.book == m0.book[w := m1.book[w]] && m2.book == m1.book[w := m2.book[w]]
    requires m2.last == m1.last == m0.last
    requires exists second: int ::
               Repeated(m0.book[w], second, zone, true, m1.book[w]) && m0.now.Floor <= second <= m1.now.Floor
    requires var moved := m1.book[w];
             var over := moved.state == ENDED || (moved.state == WAITING && (moved.disabled || moved.end <= m1.now));
             m2.book[w] == if over then moved.(state := ENDED) else moved
    ensures FiledOnly(zone, m0, w, m0.book[w], m2)
  {
    hide Repeated;
  }

  lemma FiledBook(zone: int, m0: Moment, w: Entry, r: Rec, mid: Moment)
    requires FiledOnly(zone, m0, w, r, mid)
    ensures w in m0.book && w in mid.book && mid.book == m0.book[w := mid.book[w]] && mid.last == m0.last
    ensures m0.now <= mid.now && Filed(r, m0.now.Floor, zone, mid.book[w], mid.now)
  {
  }

  lemma FiledNew(zone: int, book: Book, m0: Moment, w: Entry, r: Rec, mid: Moment)
    requires FiledOnly(zone, m0, w, r, mid) && m0.book == book[w := m0.book[w]]
    ensures w in mid.book && mid.book == book[w := mid.book[w]] && m0.now <= mid.now
    ensures Filed(r, m0.now.Floor, zone, mid.book[w], mid.now)
  {
    hide Filed;
  }

  /** What is filed is filed from an earlier moment, at which only its own fields were different. */
  lemma FiledEarlier(zone: int, m0: Moment, m1: Moment, w: Entry, r: Rec, mid: Moment)
    requires FiledOnly(zone, m1, w, r, mid) && w in m0.book && m1 == m0.(book := m1.book)
    requires w in m1.book && m1.book == m0.book[w := m1.book[w]]
    ensures FiledOnly(zone, m0, w, r, mid)
  {
    hide Filed;
  }

  /** A repeated entry that ended was moved to wait again, and filed. */
  lemma RenewedFiled(zone: int, m0: Moment, w: Entry, r: Rec, now1: real, m2: Moment, mid: Moment)
    requires w in m0.book && w in m2.book && m2.book == m0.book[w := m2.book[w]] && m2.last == m0.last
    requires Repeated(r, m2.now.Floor, zone, true, m2.book[w].(state := r.state)) && m2.book[w].state == WAITING
    requires now1 <= m2.now && FiledOnly(zone, m2, w, m2.book[w], mid)
    ensures w in mid.book && mid.book == m0.book[w := mid.book[w]] && mid.last == m0.last && now1 <= mid.now
    ensures Renewed(zone, r, now1, mid.book[w], mid.now)
  {
    hide Repeated, Filed;
    var moved := m2.book[w].(state := r.state);
    assert moved.(state := WAITING) == m2.book[w];
  }

  // ---- extensions ----

  /** A pending entry was extended if there was room, and filed again, and nothing else has happened. */
  ghost predicate ExtendedOnly(zone: int, m0: Moment, x: Entry, answer: Answer, mid: Moment) {
    && x in m0.book && x in mid.book && mid.book == m0.book[x := mid.book[x]] && mid.last == m0.last
    && ExtendedAndFiled(zone, m0.book[x], m0.now, answer, mid.book[x], mid.now)
  }

  ghost predicate ExtendedAndFiled(zone: int, r: Rec, now0: real, answer: Answer, r1: Rec, now1: real) {
    exists extended: bool, longer: Rec, when: real ::
      && Stretched(r, now0, answer, extended, longer, when) && now0 <= when <= now1
      && if extended then Filed(Refreshed(longer), when.Floor, zone, r1, now1) else r1 == longer
  }

  lemma StretchedExtends(r: Rec, now0: real, answer: Answer, extended: bool, r1: Rec, now1: real)
    requires Stretched(r, now0, answer, extended, r1, now1)
    ensures if extended then Extended(r, now1, r1) else r1 == r
  {
  }

  lemma ElapsedForward(now0: real, budget0: Budget, now1: real, budget1: Budget)
    requires Elapsed(now0, budget0, now1, budget1)
    ensures now0 <= now1
  {
  }

  lemma ExtendedFiled(zone: int, m0: Moment, x: Entry, answer: Answer, m1: Moment, mid: Moment)
    requires x in m0.book && x in m1.book && m1.book == m0.book[x := m1.book[x]] && m1.last == m0.last
    requires Stretched(m0.book[x], m0.now, answer, true, m1.book[x], m1.now) && m0.now <= m1.now
    requires FiledOnly(zone, m1, x, Refreshed(m1.book[x]), mid)
    ensures ExtendedOnly(zone, m0, x, answer, mid)
  {
    hide Stretched, Filed;
  }

  lemma NotExtended(zone: int, m0: Moment, x: Entry, answer: Answer, m1: Moment)
    requires x in m0.book && m1.book == m0.book && m1.last == m0.last
    requires Stretched(m0.book[x], m0.now, answer, false, m1.book[x], m1.now) && m0.now <= m1.now
    ensures ExtendedOnly(zone, m0, x, answer, m1)
  {
    hide Stretched;
  }

  /** One step of the loop that extends other recordings: the lists and the entries before it, after the
      entry was filed, and after what was due has been activated. */
  datatype Visit = Visit(list: seq<Entry>, done: seq<Entry>, before: Moment, mid: Moment, after: Moment)

  /** The answer, if the budget covers it. */
  function Afforded(answer: Answer, misses: nat): Answer {
    if Costs(answer) && misses == 0 then Answer(true, answer.failed, None) else answer
  }

  function AnswerAt(answers: seq<Answer>, k: nat): Answer {
    if k < |answers| then answers[k] else Answer(true, false, None)
  }

  /** Step k is about the k-th pending entry. */
  ghost predicate Visited(zone: int, answers: seq<Answer>, k: nat, v: Visit) {
    && k < |v.list| && Placed(v.list, v.done, multiset{}, v.before.book)
    && ExtendedOnly(zone, v.before, v.list[k], Afforded(AnswerAt(answers, k), v.before.budget.misses), v.mid)
    && Evolves(zone, v.mid, v.after)
  }

  /** The whole loop, from one moment to another. */
  ghost predicate VisitedAll(zone: int, answers: seq<Answer>, vs: seq<Visit>, m0: Moment, m1: Moment) {
    && (if vs == [] then m1 == m0 else vs[0].before == m0 && vs[|vs| - 1].after == m1)
    && (forall k | 0 <= k < |vs| :: Visited(zone, answers, k, vs[k]))
    && (forall k | 0 < k < |vs| :: vs[k].before == vs[k - 1].after)
  }

  lemma NotVisited(zone: int, answers: seq<Answer>, m0: Moment)
    ensures VisitedAll(zone, answers, [], m0, m0)
  {
  }

  lemma VisitedIs(zone: int, answers: seq<Answer>, k: nat, v: Visit, answer: Answer)
    requires k < |v.list| && Placed(v.list, v.done, multiset{}, v.before.book)
    requires answer == Afforded(AnswerAt(answers, k), v.before.budget.misses)
    requires ExtendedOnly(zone, v.before, v.list[k], answer, v.mid) && Evolves(zone, v.mid, v.after)
    ensures Visited(zone, answers, k, v)
  {
    hide Placed, ExtendedOnly, Evolves;
  }

  lemma VisitedOneMore(zone: int, answers: seq<Answer>, vs: seq<Visit>, m0: Moment, v: Visit)
    requires VisitedAll(zone, answers, vs, m0, v.before) && Visited(zone, answers, |vs|, v)
    ensures VisitedAll(zone, answers, vs + [v], m0, v.after)
  {
    hide Visited;
  }
}
