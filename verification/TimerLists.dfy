/** The two lists of the timer, as values: where the entries are, what a step of the schedule does
    to them, and what makes the activation loop end. */
module TimerLists {
  import opened TimerEntry
  import opened TimerRepeat

  /** The fields of all entries. */
  type Book = map<Entry, Rec>

  /** How often entries were activated so far, how often an activated entry was stuck, and how often
      a repeated entry was moved to its next occurrence. */
  datatype Work = Work(rounds: nat, stucks: nat, recurs: nat)

  /** The entries, the clock, the last activation and the work done at one moment. */
  datatype Moment = Moment(book: Book, now: real, budget: Budget, last: real, work: Work)

  ghost function Key(book: Book, e: Entry): real {
    if e in book then book[e].Key() else 0.0
  }

  ghost predicate Sorted(a: seq<Entry>, book: Book) {
    forall i, j | 0 <= i < j < |a| :: Key(book, a[i]) <= Key(book, a[j])
  }

  // ---- lists ----

  /** The list without the first occurrence of x. */
  function Without(a: seq<Entry>, x: Entry): seq<Entry>
    requires x in a
  {
    if a[0] == x then a[1..] else [a[0]] + Without(a[1..], x)
  }

  lemma {:induction false} WithoutElements(a: seq<Entry>, x: Entry)
    requires x in a
    ensures multiset(Without(a, x)) == multiset(a) - multiset{x}
  {
    assert a == [a[0]] + a[1..];
    if a[0] != x {
      WithoutElements(a[1..], x);
    }
  }

  lemma {:induction false} WithoutAt(a: seq<Entry>, x: Entry) returns (i: nat)
    requires x in a
    ensures i < |a| && a[i] == x && Without(a, x) == a[..i] + a[i + 1..]
  {
    if a[0] == x {
      i := 0;
    } else {
      var j := WithoutAt(a[1..], x);
      i := j + 1;
      assert a[1..][..j] == a[1..i] && a[1..][j + 1..] == a[i + 1..] && [a[0]] + a[1..i] == a[..i];
    }
  }

  lemma WithoutSorted(a: seq<Entry>, x: Entry, book: Book)
    requires x in a && Sorted(a, book)
    ensures Sorted(Without(a, x), book)
  {
    hide Key, Without;
    var i := WithoutAt(a, x);
  }

  /** Where x goes into a sorted list. */
  lemma InsertedSorted(a: seq<Entry>, i: nat, x: Entry, book: Book)
    requires i <= |a| && Sorted(a, book)
    requires forall j | 0 <= j < i :: Key(book, a[j]) <= Key(book, x)
    requires forall j | i <= j < |a| :: Key(book, x) <= Key(book, a[j])
    ensures Sorted(a[..i] + [x] + a[i..], book)
  {
  }

  lemma InsertedElements(a: seq<Entry>, i: nat, x: Entry)
    requires i <= |a|
    ensures multiset(a[..i] + [x] + a[i..]) == multiset(a) + multiset{x}
  {
    assert a == a[..i] + a[i..];
  }

  lemma SortedFrame(a: seq<Entry>, b0: Book, b1: Book)
    requires Sorted(a, b0) && forall e | e in a :: Key(b0, e) == Key(b1, e)
    ensures Sorted(a, b1)
  {
  }

  lemma KeyIs(book: Book, e: Entry)
    requires e in book
    ensures Key(book, e) == book[e].Key()
  {
  }

  lemma SortedAround(a: seq<Entry>, mid: nat, book: Book)
    requires Sorted(a, book) && mid < |a|
    ensures forall j | 0 <= j <= mid :: Key(book, a[j]) <= Key(book, a[mid])
    ensures forall j | mid <= j < |a| :: Key(book, a[mid]) <= Key(book, a[j])
  {
    hide Key;
  }

  /** x stands behind the entries that are due no later and before those that are due later. */
  ghost predicate Inserted(a: seq<Entry>, x: Entry, book: Book, b: seq<Entry>) {
    exists i: nat | i <= |a| ::
      && b == a[..i] + [x] + a[i..]
      && (forall j | 0 <= j < i :: Key(book, a[j]) <= Key(book, x))
      && (forall j | i <= j < |a| :: Key(book, x) < Key(book, a[j]))
  }

  /** Inserts behind the entries that are due no later, by binary search. */
  method Insort(a: seq<Entry>, x: Entry, ghost book: Book) returns (b: seq<Entry>)
    requires forall e | e in a + [x] :: e in book && book[e] == e.Data()
    ensures multiset(b) == multiset(a) + multiset{x}
    ensures Sorted(a, book) ==> Sorted(b, book) && Inserted(a, x, book, b)
  {
    hide Sorted, Key;
    var lo, hi := 0, |a|;
    while lo < hi
      invariant 0 <= lo <= hi <= |a|
      invariant Sorted(a, book) ==> forall j | 0 <= j < lo :: Key(book, a[j]) <= Key(book, x)
      invariant Sorted(a, book) ==> forall j | hi <= j < |a| :: Key(book, x) < Key(book, a[j])
    {
      var mid := (lo + hi) / 2;
      KeyIs(book, a[mid]);
      KeyIs(book, x);
      if Sorted(a, book) {
        SortedAround(a, mid, book);
      }
      if x.GetNextActivation() < a[mid].GetNextActivation() {
        hi := mid;
      } else {
        lo := mid + 1;
      }
    }
    b := a[..lo] + [x] + a[lo..];
    InsertedElements(a, lo, x);
    if Sorted(a, book) {
      InsertedSorted(a, lo, x, book);
    }
  }

  // ---- where the entries are ----

  ghost predicate Healthy(book: Book) {
    forall e | e in book :: book[e].Valid()
  }

  ghost predicate States(list: seq<Entry>, done: seq<Entry>, book: Book) {
    && (forall e | e in list :: e in book && book[e].state < ENDED)
    && (forall e | e in done :: e in book && book[e].state == ENDED)
  }

  /** Every known entry is in exactly one place: pending, processed, or in the hand of the code
      that is moving it.  Pending entries are unfinished and in order, processed ones have ended. */
  ghost predicate Placed(list: seq<Entry>, done: seq<Entry>, hand: multiset<Entry>, book: Book) {
    && multiset(list) + multiset(done) + hand == multiset(book.Keys)
    && States(list, done, book) && Sorted(list, book) && Healthy(book)
  }

  /** In a quiescent state: each entry is in one list, once, and not in the other. */
  lemma ExactlyOnce(list: seq<Entry>, done: seq<Entry>, book: Book, e: Entry)
    requires Placed(list, done, multiset{}, book)
    ensures e in book <==> e in list || e in done
    ensures !(e in list && e in done)
    ensures forall i, j | 0 <= i < j < |list| :: list[i] != list[j]
    ensures forall i, j | 0 <= i < j < |done| :: done[i] != done[j]
  {
    assert multiset(book.Keys)[e] <= 1;
    assert e in multiset(book.Keys) <==> e in book;
    forall i, j | 0 <= i < j < |list| ensures list[i] != list[j] {
      Twice(list, done, book, i, j);
    }
    forall i, j | 0 <= i < j < |done| ensures done[i] != done[j] {
      Twice(done, list, book, i, j);
    }
  }

  lemma DoneDistinct(list: seq<Entry>, done: seq<Entry>, book: Book)
    requires Placed(list, done, multiset{}, book)
    ensures forall i, j | 0 <= i < j < |done| :: done[i] != done[j]
  {
    if done != [] {
      ExactlyOnce(list, done, book, done[0]);
    }
  }

  lemma NotBefore(a: seq<Entry>, i: nat)
    requires i < |a| && forall j, k | 0 <= j < k < |a| :: a[j] != a[k]
    ensures a[i] !in a[..i]
  {
  }

  lemma Twice(a: seq<Entry>, b: seq<Entry>, book: Book, i: nat, j: nat)
    requires i < j < |a| && multiset(a) + multiset(b) == multiset(book.Keys)
    ensures a[i] != a[j]
  {
    Occurrences(a, i, j);
    assert multiset(a)[a[i]] <= multiset(book.Keys)[a[i]] <= 1;
  }

  lemma Occurrences(a: seq<Entry>, i: nat, j: nat)
    requires i < j < |a|
    ensures a[i] == a[j] ==> multiset(a)[a[i]] >= 2
  {
    var front, back := a[..j], a[j..];
    assert a == front + back && front[i] == a[i] && back[0] == a[j];
    assert a[i] in multiset(front) && a[j] in multiset(back);
  }

  /** The entry in the hand is in no list. */
  lemma InHand(list: seq<Entry>, done: seq<Entry>, rest: multiset<Entry>, book: Book, w: Entry)
    requires Placed(list, done, multiset{w} + rest, book)
    ensures w in book && w !in list && w !in done && w !in rest
  {
    var all := multiset(book.Keys);
    assert all[w] == multiset(list)[w] + multiset(done)[w] + 1 + rest[w];
    assert all[w] <= 1;
    assert w in list ==> w in multiset(list);
    assert w in done ==> w in multiset(done);
  }

  /** Fields of the entry in the hand change. */
  lemma HandChange(list: seq<Entry>, done: seq<Entry>, rest: multiset<Entry>, book: Book, w: Entry, r1: Rec)
    requires Placed(list, done, multiset{w} + rest, book) && r1.Valid()
    ensures w in book && Placed(list, done, multiset{w} + rest, book[w := r1])
  {
    InHand(list, done, rest, book, w);
    assert book[w := r1].Keys == book.Keys;
    SortedFrame(list, book, book[w := r1]);
  }

  /** A pending entry, whose fields may have changed, is taken out of the list. */
  lemma Take(list: seq<Entry>, done: seq<Entry>, book: Book, w: Entry, r1: Rec)
    requires Placed(list, done, multiset{}, book) && w in list && r1.Valid()
    ensures Placed(Without(list, w), done, multiset{w}, book[w := r1])
  {
    WithoutElements(list, w);
    WithoutSorted(list, w, book);
    Subset(list, w);
    assert multiset{w} + multiset{} == multiset{w};
    assert Placed(Without(list, w), done, multiset{w} + multiset{}, book);
    HandChange(Without(list, w), done, multiset{}, book, w, r1);
  }

  lemma Subset(list: seq<Entry>, w: Entry)
    requires w in list
    ensures forall e | e in Without(list, w) :: e in list
  {
    WithoutElements(list, w);
    forall e | e in Without(list, w) ensures e in list {
      assert e in multiset(Without(list, w));
    }
  }

  lemma Put(list: seq<Entry>, done: seq<Entry>, rest: multiset<Entry>, book: Book, w: Entry, list1: seq<Entry>)
    requires Placed(list, done, multiset{w} + rest, book) && w in book && book[w].state < ENDED
    requires multiset(list1) == multiset(list) + multiset{w} && Sorted(list1, book)
    ensures Placed(list1, done, rest, book)
  {
    forall e | e in list1 ensures e in book && book[e].state < ENDED {
      assert e in multiset(list1);
    }
  }

  lemma Finish(list: seq<Entry>, done: seq<Entry>, rest: multiset<Entry>, book: Book, w: Entry, done1: seq<Entry>)
    requires Placed(list, done, multiset{w} + rest, book) && w in book
    requires multiset(done1) == multiset(done) + multiset{w}
    ensures Placed(list, done1, rest, book[w := book[w].(state := ENDED)])
  {
    var r1 := book[w].(state := ENDED);
    HandChange(list, done, rest, book, w, r1);
    forall e | e in done1 ensures e in book[w := r1] && book[w := r1][e].state == ENDED {
      assert e in multiset(done1);
    }
  }

  // ---- progress ----

  /** Repeated entries that end within the current second. */
  ghost function Early(book: Book, now: real): set<Entry> {
    set e | e in book && book[e].repeated != 0 && book[e].end < Tick(now)
  }

  /** An aborted entry: it only has to run through its remaining states. */
  predicate Finishing(r: Rec, now: real) {
    && r.repeated == 0 && !r.autoincrease && r.end <= now && r.begin <= now
    && r.state != WAITING && (r.state == PREPARED ==> r.cancelled)
  }

  /** The settings of an entry stay; its end moves only if it is repeated or open-ended, and its
      begin only if it is repeated or its recording can fail to start. */
  predicate SameSettings(r: Rec, r1: Rec) {
    && r1.repeated == r.repeated && r1.repeatedBegin == r.repeatedBegin && r1.disabled == r.disabled
    && r1.autoincrease == r.autoincrease && r1.justplay == r.justplay
    && (r.repeated == 0 && !r.autoincrease ==> r1.end == r.end)
    && (r.repeated == 0 && r.justplay ==> r1.begin == r.begin)
  }

  /** All entries known before and after, with some exceptions, keep their settings. */
  ghost predicate SettingsStay(b0: Book, b1: Book, except: set<Entry>) {
    forall e | e in b0 && e in b1 && e !in except :: SameSettings(b0[e], b1[e])
  }

  lemma SettingsChain(b0: Book, b1: Book, b2: Book, x: set<Entry>, y: set<Entry>, all: set<Entry>)
    requires SettingsStay(b0, b1, x) && SettingsStay(b1, b2, y) && forall e | e in b0 && e in b2 :: e in b1
    requires x <= all && y <= all
    ensures SettingsStay(b0, b2, all)
  {
  }

  lemma SettingsSame(book: Book)
    ensures SettingsStay(book, book, {})
  {
  }

  lemma NewcomerStays(b0: Book, w: Entry, r: Rec)
    requires w !in b0
    ensures SettingsStay(b0, b0[w := r], {})
  {
  }

  lemma SettingsOfOthers(b0: Book, w: Entry, r1: Rec)
    ensures SettingsStay(b0, b0[w := r1], {w})
  {
  }

  lemma SettingsWithout(b0: Book, b1: Book, w: Entry)
    requires SettingsStay(b0, b1, {w})
    ensures SettingsStay(b0, b1 - {w}, {})
  {
  }

  predicate Kept(r: Rec, now: real, r1: Rec, now1: real) {
    && SameSettings(r, r1)
    && (Finishing(r, now) ==> Finishing(r1, now1) && r1.begin == r.begin && r1.end == r.end)
  }

  /** What holds between two moments of an operation. */
  ghost predicate Progress(m0: Moment, m1: Moment) {
    && m1.book.Keys == m0.book.Keys
    && Elapsed(m0.now, m0.budget, m1.now, m1.budget)
    && (forall e | e in m0.book :: Kept(m0.book[e], m0.now, m1.book[e], m1.now))
    && m0.work.rounds <= m1.work.rounds && m0.work.recurs <= m1.work.recurs
    && m0.work.stucks <= m1.work.stucks <= m0.work.stucks + m0.budget.misses - m1.budget.misses
  }

  /** While the clock runs forward, no entry returns to an earlier state unless it is repeated. */
  ghost predicate Forward(m0: Moment, m1: Moment) {
    m0.last <= m0.now ==>
      && m1.last <= m1.now
      && forall e | e in m0.book && e in m1.book && m0.book[e].repeated == 0 :: m0.book[e].state <= m1.book[e].state
  }

  ghost predicate Step(m0: Moment, m1: Moment) {
    Progress(m0, m1) && Forward(m0, m1)
  }

  lemma StepChains(m0: Moment, m1: Moment, m2: Moment)
    requires Step(m0, m1) && Step(m1, m2)
    ensures Step(m0, m2)
  {
    hide Progress, Kept;
    ProgressChains(m0, m1, m2);
    ProgressParts(m0, m1);
    SettingsKept(m0, m1);
  }

  lemma SettingsKept(m0: Moment, m1: Moment)
    requires Progress(m0, m1)
    ensures forall e | e in m0.book :: e in m1.book && SameSettings(m0.book[e], m1.book[e])
  {
    forall e | e in m0.book ensures e in m1.book && SameSettings(m0.book[e], m1.book[e]) {
      assert Kept(m0.book[e], m0.now, m1.book[e], m1.now);
    }
  }

  lemma FloorMonotone(now0: real, now1: real)
    requires now0 <= now1
    ensures now0.Floor <= now1.Floor
  {
  }

  lemma TickMonotone(now0: real, now1: real)
    requires now0 <= now1
    ensures Tick(now0) <= Tick(now1)
  {
    assert now0.Floor <= now1.Floor;
  }

  lemma ProgressChains(m0: Moment, m1: Moment, m2: Moment)
    requires Progress(m0, m1) && Progress(m1, m2)
    ensures Progress(m0, m2)
  {
    hide Finishing, Early, Tick;
    forall e | e in m0.book ensures Kept(m0.book[e], m0.now, m2.book[e], m2.now) {
      assert Kept(m1.book[e], m1.now, m2.book[e], m2.now);
    }
  }

  lemma ProgressParts(m0: Moment, m1: Moment)
    requires Progress(m0, m1)
    ensures m1.book.Keys == m0.book.Keys && Elapsed(m0.now, m0.budget, m1.now, m1.budget)
  {
  }

  /** One entry changes: it does not end within the current second unless it did before. */
  predicate Later(r: Rec, r1: Rec, now1: real) {
    r1.repeated == r.repeated && (r1.end < Tick(now1) ==> r.end < Tick(now1))
  }

  lemma ChangeProgress(m0: Moment, w: Entry, r1: Rec, now1: real, budget1: Budget)
    requires w in m0.book && Elapsed(m0.now, m0.budget, now1, budget1)
    requires Kept(m0.book[w], m0.now, r1, now1)
    requires m0.book[w].repeated == 0 ==> m0.book[w].state <= r1.state
    ensures Step(m0, m0.(book := m0.book[w := r1], now := now1, budget := budget1))
  {
    var m1 := m0.(book := m0.book[w := r1], now := now1, budget := budget1);
    forall e | e in m0.book ensures Kept(m0.book[e], m0.now, m1.book[e], m1.now) {
    }
  }

  lemma ChangeCourse(m0: Moment, w: Entry, r1: Rec, now1: real, budget1: Budget)
    requires w in m0.book && Elapsed(m0.now, m0.budget, now1, budget1)
    requires Later(m0.book[w], r1, now1) && Kept(m0.book[w], m0.now, r1, now1)
    requires m0.book[w].repeated == 0 ==> m0.book[w].state <= r1.state
    ensures Course(m0, m0.(book := m0.book[w := r1], now := now1, budget := budget1))
  {
    hide Kept, Progress, Forward, Tick, Chances;
    ChangeProgress(m0, w, r1, now1, budget1);
    var m1 := m0.(book := m0.book[w := r1], now := now1, budget := budget1);
    if m1.now.Floor == m0.now.Floor {
      SameTick(m0.now, m1.now);
    }
    NoneRecurred(m0, m1);
  }

  /** Only the clock moves. */
  lemma ClockProgress(m0: Moment, now1: real, budget1: Budget)
    requires Elapsed(m0.now, m0.budget, now1, budget1)
    ensures Course(m0, m0.(now := now1, budget := budget1))
  {
    hide Tick, Chances;
    var m1 := m0.(now := now1, budget := budget1);
    if m1.now.Floor == m0.now.Floor {
      SameTick(m0.now, m1.now);
    }
    NoneRecurred(m0, m1);
  }

  lemma Still(m0: Moment)
    ensures Step(m0, m0)
  {
  }

  lemma StepKeeps(m0: Moment, m1: Moment)
    requires Step(m0, m1)
    ensures SettingsStay(m0.book, m1.book, {}) && m1.budget.until == m0.budget.until
  {
    hide SameSettings;
    SettingsKept(m0, m1);
  }

  lemma LastProgress(m0: Moment, last: real)
    requires last <= m0.now
    ensures Course(m0, m0.(last := last))
  {
  }

  /** After the clock was set back, entries may start over. */
  lemma Backward(m0: Moment, m1: Moment, m2: Moment)
    requires Step(m0, m1) && Progress(m1, m2) && m0.last > m0.now
    ensures Step(m0, m2)
  {
    hide Progress;
    ProgressChains(m0, m1, m2);
  }

  // ---- recurrences ----

  /** The entries that recur. */
  ghost function Repeating(book: Book): set<Entry> {
    set e | e in book && book[e].repeated != 0
  }

  /** The recurrences so far and those that may follow in the current second, above what the seconds
      allow: each second lets each repeated entry recur at most once. */
  ghost function Chances(m: Moment): int {
    m.work.recurs + |Early(m.book, m.now)| - |Repeating(m.book)| * m.now.Floor
  }

  /** A step in which repeated entries recur only when they may. */
  ghost predicate Course(m0: Moment, m1: Moment) {
    Step(m0, m1) && Chances(m1) <= Chances(m0)
  }

  lemma CourseChains(m0: Moment, m1: Moment, m2: Moment)
    requires Course(m0, m1) && Course(m1, m2)
    ensures Course(m0, m2)
  {
    hide Step, Chances;
    StepChains(m0, m1, m2);
  }

  lemma CourseParts(m0: Moment, m1: Moment)
    requires Course(m0, m1) && Bounded(m0)
    ensures m1.book.Keys == m0.book.Keys && m0.now <= m1.now && Bounded(m1)
    ensures SecondsLeft(m1.now, m1.budget) <= SecondsLeft(m0.now, m0.budget)
    ensures SecondsLeft(m1.now, m1.budget) == SecondsLeft(m0.now, m0.budget) ==>
              && |Early(m1.book, m1.now)| <= |Early(m0.book, m0.now)|
              && (m1.work.recurs > m0.work.recurs ==> |Early(m1.book, m1.now)| < |Early(m0.book, m0.now)|)
    ensures m0.work.rounds <= m1.work.rounds && m0.work.recurs <= m1.work.recurs
  {
    hide Early, Bounded, SecondsLeft, Kept, Chances;
    Nearer(m0, m1);
  }

  lemma SameTick(now0: real, now1: real)
    requires now0.Floor == now1.Floor
    ensures Tick(now0) == Tick(now1)
  {
  }

  lemma RepeatingKept(m0: Moment, m1: Moment)
    requires Progress(m0, m1)
    ensures Repeating(m1.book) == Repeating(m0.book)
  {
    hide SameSettings, Finishing, Progress;
    SettingsKept(m0, m1);
    ProgressParts(m0, m1);
    forall e ensures e in Repeating(m1.book) <==> e in Repeating(m0.book) {
      if e in m0.book {
        SettingsFixed(m0.book[e], m1.book[e]);
      }
    }
  }

  lemma SettingsFixed(r: Rec, r1: Rec)
    requires SameSettings(r, r1)
    ensures r1.repeated == r.repeated
  {
  }

  lemma EarlyRepeat(book: Book, now: real)
    ensures Early(book, now) <= Repeating(book) && |Early(book, now)| <= |Repeating(book)|
  {
    Larger(Early(book, now), Repeating(book));
  }

  lemma Larger(s: set<Entry>, t: set<Entry>)
    requires s <= t
    ensures |s| <= |t|
  {
    assert |t - s| == |t| - |s|;
  }

  lemma {:induction false} MoreSeconds(n: nat, f0: int, f1: int)
    requires f0 < f1
    ensures n * f0 + n <= n * f1
    decreases f1 - f0
  {
    var f := f1 - 1;
    assert n * (f + 1) == n * f + n;
    if f0 < f {
      MoreSeconds(n, f0, f);
    }
  }

  lemma NoneRecurred(m0: Moment, m1: Moment)
    requires Progress(m0, m1) && m1.work.recurs == m0.work.recurs
    requires m1.now.Floor == m0.now.Floor ==> Early(m1.book, m1.now) <= Early(m0.book, m0.now)
    ensures Chances(m1) <= Chances(m0)
  {
    hide Early, Repeating;
    RepeatingKept(m0, m1);
    if m1.now.Floor == m0.now.Floor {
      Larger(Early(m1.book, m1.now), Early(m0.book, m0.now));
    } else {
      EarlyRepeat(m1.book, m1.now);
      FloorMonotone(m0.now, m1.now);
      MoreSeconds(|Repeating(m0.book)|, m0.now.Floor, m1.now.Floor);
    }
  }

  /** A recurrence takes the entry out of the current second. */
  lemma OneRecurred(m0: Moment, m1: Moment, w: Entry)
    requires Progress(m0, m1) && m1.work.recurs == m0.work.recurs + 1
    requires w in Repeating(m0.book) && w !in Early(m1.book, m1.now)
    requires m1.now.Floor == m0.now.Floor ==>
               Early(m1.book, m1.now) <= Early(m0.book, m0.now) && w in Early(m0.book, m0.now)
    ensures Chances(m1) <= Chances(m0)
  {
    hide Early, Repeating;
    RepeatingKept(m0, m1);
    if m1.now.Floor == m0.now.Floor {
      Larger(Early(m1.book, m1.now) + {w}, Early(m0.book, m0.now));
    } else {
      EarlyRepeat(m1.book, m1.now);
      Larger(Early(m1.book, m1.now) + {w}, Repeating(m0.book));
      FloorMonotone(m0.now, m1.now);
      MoreSeconds(|Repeating(m0.book)|, m0.now.Floor, m1.now.Floor);
    }
  }

  /** The number of recurrences: for each repeated entry at most one, and one for each second. */
  lemma RecurrencesBounded(m0: Moment, m1: Moment)
    requires Course(m0, m1)
    ensures m1.work.recurs - m0.work.recurs <= |Repeating(m0.book)| * (1 + m1.now.Floor - m0.now.Floor)
  {
    hide Early, Repeating, Forward;
    RepeatingKept(m0, m1);
    EarlyRepeat(m0.book, m0.now);
    var n := |Repeating(m0.book)|;
    assert n * (1 + m1.now.Floor - m0.now.Floor) == n + n * m1.now.Floor - n * m0.now.Floor;
  }

  /** Either there is a last second, or no entry recurs. */
  ghost predicate Bounded(m: Moment) {
    m.budget.until.Some? || Repeating(m.book) == {}
  }

  function SecondsLeft(now: real, budget: Budget): nat {
    if budget.until.Some? && now.Floor < budget.until.value then budget.until.value - now.Floor else 0
  }

  /** One entry changes, and does not start to recur. */
  lemma ChangeBounded(m0: Moment, w: Entry, r1: Rec)
    requires Bounded(m0) && (r1.repeated == 0 || m0.budget.until.Some? || (w in m0.book && m0.book[w].repeated != 0))
    ensures Bounded(m0.(book := m0.book[w := r1]))
  {
  }

  lemma StaysBounded(m0: Moment, m1: Moment)
    requires Progress(m0, m1) && Bounded(m0)
    ensures Bounded(m1)
  {
    hide Repeating, Kept;
    RepeatingKept(m0, m1);
  }

  /** What makes the re-entrant calls end: a recurrence needs a new second, or one early entry. */
  lemma Nearer(m0: Moment, m1: Moment)
    requires Progress(m0, m1) && Chances(m1) <= Chances(m0) && Bounded(m0)
    ensures Bounded(m1) && SecondsLeft(m1.now, m1.budget) <= SecondsLeft(m0.now, m0.budget)
    ensures SecondsLeft(m1.now, m1.budget) == SecondsLeft(m0.now, m0.budget) ==>
              && |Early(m1.book, m1.now)| <= |Early(m0.book, m0.now)|
              && (m1.work.recurs > m0.work.recurs ==> |Early(m1.book, m1.now)| < |Early(m0.book, m0.now)|)
  {
    hide Early, Repeating, Kept;
    RepeatingKept(m0, m1);
    FloorMonotone(m0.now, m1.now);
    EarlyRepeat(m0.book, m0.now);
    EarlyRepeat(m1.book, m1.now);
  }

  /** A repeated entry leaves the current second when it is moved; no other entry changes. */
  lemma RepeatedStep(r: Rec, now0: real, zone: int, r1: Rec, now1: real)
    requires r.Valid() && Repeated(r, now1.Floor, zone, true, r1) && now0 <= now1
    ensures r1.Valid() && Later(r, r1, now1) && Kept(r, now0, r1, now1)
    ensures r1.state == r.state && (r.repeated == 0 ==> r1 == r)
    ensures r.repeated != 0 ==> r1.end >= Tick(now1)
  {
    if r.repeated != 0 {
      var k: nat :| Moved(r, now1.Floor, zone, true, k, r1);
      MovedEndsLater(r, now1.Floor, zone, true, k, r1);
    }
  }

  /** An entry that is filed among the processed ones without being activated. */
  predicate EndsAtOnce(r: Rec, now: real) {
    r.repeated == 0 && r.state == WAITING && r.end <= now
  }

  /** An ended entry starts over and, if it has passed, ends again. */
  lemma ResetProgress(m0: Moment, m1: Moment, e: Entry)
    requires e in m0.book && m0.book[e].state == ENDED
    requires Progress(m0.(book := m0.book[e := m0.book[e].Reset()]), m1)
    requires m0.book[e].repeated == 0 && m0.book[e].end <= m0.now ==>
               m1.book[e] == m0.book[e].Reset().(state := ENDED)
    ensures Progress(m0, m1)
  {
    hide Tick;
    var r := m0.book[e];
    var m := m0.(book := m0.book[e := r.Reset()]);
    forall x | x in m0.book ensures Kept(m0.book[x], m0.now, m1.book[x], m1.now) {
      assert Kept(m.book[x], m.now, m1.book[x], m1.now);
    }
  }

  lemma ResetHealthy(r: Rec)
    requires r.Valid()
    ensures r.Reset().Valid()
  {
  }

  lemma ResetChances(m0: Moment, e: Entry)
    requires e in m0.book
    ensures var m1 := m0.(book := m0.book[e := m0.book[e].Reset()]);
            Chances(m1) == Chances(m0) && Early(m1.book, m0.now) == Early(m0.book, m0.now)
            && (Bounded(m0) ==> Bounded(m1))
  {
    hide Tick;
    var book1 := m0.book[e := m0.book[e].Reset()];
    assert Early(book1, m0.now) == Early(m0.book, m0.now) && Repeating(book1) == Repeating(m0.book);
  }

  /** The processed entries are taken in the hand, to be filed again one by one. */
  lemma TakeAll(list: seq<Entry>, done: seq<Entry>, book: Book)
    requires Placed(list, done, multiset{}, book)
    ensures Placed(list, [], multiset(done), book)
    ensures forall e | e in done :: e in book && book[e].state == ENDED
  {
  }

  /** An aborted entry has no pending activation in a later second. */
  lemma FinishingIsDue(m0: Moment, m1: Moment, list: seq<Entry>, now: real)
    requires Progress(m0, m1) && m0.now <= now && AllFrom(list, m1.book, Tick(now))
    ensures Settled(m0, list)
  {
    TickMonotone(m0.now, now);
    forall e | e in m0.book && Finishing(m0.book[e], m0.now) ensures e !in list {
      assert Kept(m0.book[e], m0.now, m1.book[e], m1.now);
    }
  }

  /** No aborted entry is pending. */
  ghost predicate Settled(m0: Moment, list: seq<Entry>) {
    forall e | e in m0.book && Finishing(m0.book[e], m0.now) :: e !in list
  }

  lemma EndProgress(m0: Moment, w: Entry)
    requires w in m0.book && m0.book[w].state <= ENDED
    ensures Course(m0, m0.(book := m0.book[w := m0.book[w].(state := ENDED)]))
  {
    ChangeCourse(m0, w, m0.book[w].(state := ENDED), m0.now, m0.budget);
  }

  lemma PlacedHealthy(list: seq<Entry>, done: seq<Entry>, hand: multiset<Entry>, book: Book, e: Entry)
    requires Placed(list, done, hand, book) && e in book
    ensures book[e].Valid()
  {
  }

  /** No pending entry is due before t. */
  ghost predicate AllFrom(list: seq<Entry>, book: Book, t: real) {
    forall e | e in list :: t <= Key(book, e)
  }

  lemma FirstIsLeast(list: seq<Entry>, done: seq<Entry>, book: Book)
    requires Placed(list, done, multiset{}, book) && list != []
    ensures AllFrom(list, book, Key(book, list[0]))
  {
    forall e | e in list ensures Key(book, list[0]) <= Key(book, e) {
      var i :| 0 <= i < |list| && list[i] == e;
    }
  }

  const MAX_WAIT_TIME := 100

  /** When to look at the entries again. */
  ghost function WakeUp(list: seq<Entry>, book: Book, second: int): real {
    var latest := (second + MAX_WAIT_TIME) as real;
    if list != [] && Key(book, list[0]) < latest then Key(book, list[0]) else latest
  }

  lemma AllFromEarlier(list: seq<Entry>, book: Book, t: real, u: real)
    requires AllFrom(list, book, t) && u <= t
    ensures AllFrom(list, book, u)
  {
  }

  lemma NoneFrom(book: Book, t: real)
    ensures AllFrom([], book, t)
  {
  }

  lemma AllFromFrame(list: seq<Entry>, b0: Book, b1: Book, w: Entry, r1: Rec, t: real)
    requires AllFrom(list, b0, t) && w !in list && b1 == b0[w := r1]
    ensures AllFrom(list, b1, t)
  {
  }

  lemma InHandFrom(list: seq<Entry>, done: seq<Entry>, rest: multiset<Entry>, book: Book, w: Entry, r1: Rec, t: real)
    requires Placed(list, done, multiset{w} + rest, book)
    ensures AllFrom(list, book, t) ==> AllFrom(list, book[w := r1], t)
  {
    hide Placed;
    InHand(list, done, rest, book, w);
  }

  lemma PlacedKnown(list: seq<Entry>, done: seq<Entry>, hand: multiset<Entry>, book: Book)
    requires Placed(list, done, hand, book)
    ensures forall e | e in list || e in done :: e in book
    ensures Sorted(list, book)
  {
  }

  lemma Nobody(list: seq<Entry>, done: seq<Entry>, book: Book)
    requires Placed(list, done, multiset{}, book) && book.Keys == {}
    ensures list == [] && done == []
  {
    var all := multiset(list) + multiset(done);
    assert all == all + multiset{} == multiset(book.Keys);
    assert |all| == |list| + |done| == 0;
  }

  // ---- what makes the activation loop end ----

  /** The entries in a state that are due before t. */
  ghost function Due(book: Book, t: real, state: int): set<Entry> {
    set e | e in book && book[e].state == state && book[e].Key() < t
  }

  /** How many more activations the entry can take before t. */
  function Weight(r: Rec, t: real): nat {
    if r.Key() < t && WAITING <= r.state < ENDED then ENDED - r.state else 0
  }

  ghost function Potential(book: Book, t: real): nat {
    3 * |Due(book, t, WAITING)| + 2 * |Due(book, t, PREPARED)| + |Due(book, t, RUNNING)|
  }

  lemma PotentialBound(book: Book, t: real)
    ensures Potential(book, t) <= 3 * |book|
  {
    var w, p, r := Due(book, t, WAITING), Due(book, t, PREPARED), Due(book, t, RUNNING);
    assert w !! p && w !! r && p !! r && w + p + r <= book.Keys;
    assert |w + p + r| == |w| + |p| + |r|;
    Larger(w + p + r, book.Keys);
  }

  lemma DueChange(book: Book, t: real, w: Entry, r1: Rec, state: int)
    requires w in book
    ensures |Due(book[w := r1], t, state)| + (if w in Due(book, t, state) then 1 else 0)
            == |Due(book, t, state)| + (if r1.state == state && r1.Key() < t then 1 else 0)
  {
    hide Rec.Key;
    var s0, s1 := Due(book, t, state), Due(book[w := r1], t, state);
    assert s0 - {w} == s1 - {w};
    assert |s0 - {w}| == |s0| - if w in s0 then 1 else 0;
    assert |s1 - {w}| == |s1| - if w in s1 then 1 else 0;
  }

  lemma PotentialChange(book: Book, t: real, w: Entry, r1: Rec)
    requires w in book
    ensures Potential(book[w := r1], t) + Weight(book[w], t) == Potential(book, t) + Weight(r1, t)
  {
    DueChange(book, t, w, r1, WAITING);
    DueChange(book, t, w, r1, PREPARED);
    DueChange(book, t, w, r1, RUNNING);
  }

  /** When no pending entry is due before t, nothing is left to do before t. */
  lemma NothingLeft(list: seq<Entry>, done: seq<Entry>, book: Book, t: real, u: real)
    requires Placed(list, done, multiset{}, book) && AllFrom(list, book, u) && t <= u
    ensures Potential(book, t) == 0
  {
    forall e | e in book && book[e].state < ENDED ensures t <= book[e].Key() {
      PendingIs(list, done, book, e);
      assert u <= Key(book, e);
    }
    assert Due(book, t, WAITING) == {} && Due(book, t, PREPARED) == {} && Due(book, t, RUNNING) == {};
  }

  /** The activations so far and those that may follow before t, above what the recurrences and the
      stuck activations allow. */
  ghost function Debt(m: Moment, t: real): int {
    m.work.rounds + Potential(m.book, t) - 3 * |m.book| * m.work.recurs - m.work.stucks
  }

  lemma SameDebt(m0: Moment, m1: Moment, t: real)
    requires m0.book == m1.book && m0.work == m1.work
    ensures Debt(m0, t) == Debt(m1, t)
  {
  }

  /** A bound on the number of activations between two moments that does not depend on the clock. */
  ghost predicate FewRounds(m0: Moment, m1: Moment) {
    var recurs, stucks := m1.work.recurs - m0.work.recurs, m1.work.stucks - m0.work.stucks;
    m1.work.rounds - m0.work.rounds <= 3 * |m0.book| * (1 + recurs) + stucks
  }

  lemma RoundsBounded(m0: Moment, m1: Moment, t: real)
    requires Debt(m1, t) <= Debt(m0, t) && m1.book.Keys == m0.book.Keys
    ensures FewRounds(m0, m1)
  {
    hide Potential;
    PotentialBound(m0.book, t);
    assert |m0.book| == |m0.book.Keys| == |m1.book.Keys| == |m1.book|;
    var n := 3 * |m0.book|;
    assert n * (1 + m1.work.recurs - m0.work.recurs) == n + n * m1.work.recurs - n * m0.work.recurs;
  }

  lemma NoRounds(m0: Moment, m1: Moment)
    requires m0.work == m1.work
    ensures FewRounds(m0, m1)
  {
  }

  /** When no entry recurs: at most three activations for each entry, besides the stuck ones. */
  lemma PlainRounds(m0: Moment, m1: Moment)
    requires Course(m0, m1) && FewRounds(m0, m1) && Repeating(m0.book) == {}
    ensures m1.work.recurs == m0.work.recurs
    ensures m1.work.rounds - m0.work.rounds <= 3 * |m0.book| + m1.work.stucks - m0.work.stucks
    ensures m1.work.stucks - m0.work.stucks <= m0.budget.misses - m1.budget.misses
  {
    hide Repeating, Chances, Early, Kept;
    RecurrencesBounded(m0, m1);
  }

  /** The same bound when work was only done after m1 and before m2. */
  lemma SameRounds(m0: Moment, m1: Moment, m2: Moment, m3: Moment)
    requires m0.work == m1.work && m2.work == m3.work && m0.book.Keys == m1.book.Keys && FewRounds(m1, m2)
    ensures FewRounds(m0, m3)
  {
    assert |m0.book| == |m0.book.Keys| == |m1.book.Keys| == |m1.book|;
  }

  lemma IsTick(now: real, t: int)
    requires t == now.Floor + 1
    ensures t as real == Tick(now)
  {
  }

  /** What happens to a due entry: it is skipped if it is over before it began, and activated at
      some moment otherwise. */
  ghost predicate Lived(r: Rec, now0: real, answer: Answer, stuck: bool, r1: Rec, now1: real) {
    || (!stuck && r.state == WAITING && r.end <= now1 && r1 == r.(state := ENDED))
    || exists later: real, accepted: bool, ra: Rec ::
         && Activated(r, later, answer, accepted, stuck, ra, now1) && now0 <= later <= now1
         && (r.state == WAITING ==> later < r.end)
         && r1 == if accepted then ra.(state := ra.state + 1) else ra
  }

  /** What filing does to an entry: a repeated one is moved, at some second since `from`.  Then it is
      pending, unless it has ended, or waits but is disabled or over. */
  ghost predicate Filed(r: Rec, from: int, zone: int, r1: Rec, now1: real) {
    exists second: int, moved: Rec ::
      && Repeated(r, second, zone, true, moved) && from <= second <= now1.Floor
      && r1 == if moved.state == ENDED || (moved.state == WAITING && (moved.disabled || moved.end <= now1))
               then moved.(state := ENDED) else moved
  }

  /** What becomes of an entry that was due, at the end of its activation.  Unless it is stuck, it
      has left its state or the current second. */
  predicate Passed(r: Rec, now0: real, stuck: bool, r1: Rec, now1: real) {
    && r1.Valid() && Later(r, r1, now1) && Kept(r, now0, r1, now1)
    && (r1.state == r.state || r1.state == r.state + 1 || r1.state == ENDED) && (stuck ==> r1.state == r.state)
    && (r1.state == r.state && !stuck ==> r1.Key() >= Tick(now0))
    && (r1.state == ENDED ==> r1 == r.(state := ENDED) && (r.end < Tick(now0) || r.end < Tick(now1)))
  }

  predicate IsDue(r: Rec, now: real) {
    r.Valid() && WAITING <= r.state < ENDED && r.Key() < Tick(now)
  }

  lemma SkipPasses(r: Rec, now0: real, answer: Answer, now1: real)
    requires IsDue(r, now0) && now0 <= now1 && r.state == WAITING && r.end <= now1
    ensures Passed(r, now0, false, r.(state := ENDED), now1)
    ensures Lived(r, now0, answer, false, r.(state := ENDED), now1)
  {
  }

  lemma ActivationLives(r: Rec, now0: real, later: real, answer: Answer, accepted: bool, stuck: bool, r1: Rec,
                        now1: real)
    requires now0 <= later <= now1 && Activated(r, later, answer, accepted, stuck, r1, now1)
    requires r.state == WAITING ==> later < r.end
    ensures Lived(r, now0, answer, stuck, if accepted then r1.(state := r1.state + 1) else r1, now1)
  {
    hide Activated;
  }

  lemma PreparationPasses(r: Rec, now0: real, later: real, answer: Answer, accepted: bool, stuck: bool, r1: Rec,
                          now1: real)
    requires IsDue(r, now0) && r.state == WAITING
    requires now0 <= later <= now1 && Activated(r, later, answer, accepted, stuck, r1, now1)
    ensures Passed(r, now0, stuck, if accepted then r1.(state := r1.state + 1) else r1, now1)
  {
    TickMonotone(now0, later);
    TickMonotone(later, now1);
    if !accepted {
      RefusalPostpones(r, later, answer, stuck, r1, now1);
    }
  }

  lemma StartPasses(r: Rec, now0: real, later: real, answer: Answer, accepted: bool, stuck: bool, r1: Rec,
                    now1: real)
    requires IsDue(r, now0) && r.state == PREPARED
    requires now0 <= later <= now1 && Activated(r, later, answer, accepted, stuck, r1, now1)
    ensures Passed(r, now0, stuck, if accepted then r1.(state := r1.state + 1) else r1, now1)
  {
    TickMonotone(now0, later);
    TickMonotone(later, now1);
    if !accepted {
      RefusalPostpones(r, later, answer, stuck, r1, now1);
    }
  }

  lemma EndPasses(r: Rec, now0: real, later: real, answer: Answer, accepted: bool, stuck: bool, r1: Rec,
                  now1: real)
    requires IsDue(r, now0) && r.state == RUNNING
    requires now0 <= later <= now1 && Activated(r, later, answer, accepted, stuck, r1, now1)
    ensures Passed(r, now0, stuck, if accepted then r1.(state := r1.state + 1) else r1, now1)
  {
    TickMonotone(now0, later);
    TickMonotone(later, now1);
  }

  /** The entry is activated at some moment `later`, after it was found due. */
  lemma ActivationPasses(r: Rec, now0: real, later: real, answer: Answer, accepted: bool, stuck: bool, r1: Rec,
                         now1: real)
    requires IsDue(r, now0)
    requires now0 <= later <= now1 && Activated(r, later, answer, accepted, stuck, r1, now1)
    ensures Passed(r, now0, stuck, if accepted then r1.(state := r1.state + 1) else r1, now1)
  {
    hide Activated, Passed;
    if r.state == WAITING {
      PreparationPasses(r, now0, later, answer, accepted, stuck, r1, now1);
    } else if r.state == PREPARED {
      StartPasses(r, now0, later, answer, accepted, stuck, r1, now1);
    } else {
      EndPasses(r, now0, later, answer, accepted, stuck, r1, now1);
    }
  }

  lemma ActivatedPasses(r: Rec, now0: real, later: real, answer: Answer, stuck: bool, r1: Rec, now1: real)
    requires IsDue(r, now0) && now0 <= later <= now1 && (r.state == WAITING ==> later < r.end)
    requires exists accepted: bool, ra: Rec ::
               && Activated(r, later, answer, accepted, stuck, ra, now1)
               && r1 == if accepted then ra.(state := ra.state + 1) else ra
    ensures Passed(r, now0, stuck, r1, now1) && Lived(r, now0, answer, stuck, r1, now1)
  {
    hide Activated, Passed, Lived, IsDue;
    var accepted: bool, ra: Rec :|
      && Activated(r, later, answer, accepted, stuck, ra, now1)
      && r1 == if accepted then ra.(state := ra.state + 1) else ra;
    ActivationPasses(r, now0, later, answer, accepted, stuck, ra, now1);
    ActivationLives(r, now0, later, answer, accepted, stuck, ra, now1);
  }

  /** What becomes of a due entry that waits for its preparation: it is stuck only while the clock
      has not reached its end, and then it stays as it is.  Once the clock is there, it ends. */
  predicate Retried(r: Rec, now0: real, stuck: bool, r1: Rec) {
    && (stuck ==> now0 < r.end && r1 == r.(firstTry := false))
    && (r.end <= now0 && r.repeated == 0 ==> r1 == r.(state := ENDED))
  }

  lemma OverEnds(r: Rec, now0: real, answer: Answer, stuck: bool, r1: Rec, now1: real)
    requires Lived(r, now0, answer, stuck, r1, now1) && r.state == WAITING
    ensures r.end <= now0 ==> !stuck && r1 == r.(state := ENDED)
    ensures stuck ==> now0 < r.end && r1 == r.(firstTry := false) && r1.Key() == r.Key()
    ensures Retried(r, now0, stuck, r1)
  {
  }

  lemma RepeatedRetried(r: Rec, now0: real, r1: Rec)
    requires r.repeated != 0
    ensures Retried(r, now0, false, r1)
  {
  }

  /** A preparation is stuck exactly if no service is found for a recording while the clock has not
      reached the end of the entry. */
  lemma StuckBeforeEnd(r: Rec, now0: real, answer: Answer, now1: real)
    requires r.state == WAITING && now0 <= now1
    ensures Lived(r, now0, answer, true, r.(firstTry := false), now1)
            <==> !r.justplay && !answer.found && now0 < r.end
  {
    if !r.justplay && !answer.found && now0 < r.end {
      assert Activated(r, now0, answer, false, true, r.(firstTry := false), now1);
    }
  }

  /** The first pending entry is due no later than an entry that was put back. */
  lemma FirstIsNoLater(list0: seq<Entry>, list1: seq<Entry>, done: seq<Entry>, book: Book, w: Entry)
    requires Placed(list1, done, multiset{}, book) && multiset(list1) == multiset(list0) && w in list0
    ensures list1 != [] && Key(book, list1[0]) <= Key(book, w)
  {
    hide Key;
    assert w in multiset(list1);
    var i :| 0 <= i < |list1| && list1[i] == w;
    FirstIsLeast(list1, done, book);
  }

  /** An activation that is not stuck takes the entry closer to t. */
  lemma PassedWeight(r: Rec, now0: real, stuck: bool, r1: Rec, now1: real, t: real)
    requires Passed(r, now0, stuck, r1, now1) && WAITING <= r.state < ENDED
    requires r.Key() < t <= Tick(now0)
    ensures Weight(r1, t) + 1 <= Weight(r, t) + if stuck then 1 else 0
  {
  }

  lemma DueBefore(r: Rec, t: real, now: real)
    requires r.Valid() && WAITING <= r.state < ENDED && r.Key() < t <= Tick(now)
    ensures IsDue(r, now)
  {
  }

  /** An entry ends with its settings unchanged, and was not stuck. */
  lemma PassedEnded(r: Rec, now0: real, stuck: bool, r1: Rec, now1: real)
    requires Passed(r, now0, stuck, r1, now1) && r1.state == ENDED
    ensures r1 == r.(state := ENDED)
  {
  }

  lemma DueWeighs(r: Rec, t: real)
    requires WAITING <= r.state < ENDED && r.Key() < t
    ensures Weight(r, t) > 0
  {
  }

  /** An activation that is not stuck brings the activation loop closer to its end. */
  lemma ActivationPays(m0: Moment, w: Entry, stuck: bool, r1: Rec, m1: Moment, t: real)
    requires w in m0.book && m1.book == m0.book[w := r1] && Passed(m0.book[w], m0.now, stuck, r1, m1.now)
    requires WAITING <= m0.book[w].state < ENDED && m0.book[w].Key() < t <= Tick(m0.now)
    requires m1.work == m0.work.(rounds := m0.work.rounds + 1, stucks := m0.work.stucks + if stuck then 1 else 0)
    ensures Debt(m1, t) <= Debt(m0, t) && Potential(m1.book, t) <= Potential(m0.book, t)
    ensures !stuck ==> Potential(m1.book, t) < Potential(m0.book, t)
  {
    hide Potential, Passed, Tick;
    PassedWeight(m0.book[w], m0.now, stuck, r1, m1.now, t);
    PotentialChange(m0.book, t, w, r1);
    assert m1.book.Keys == m0.book.Keys;
    assert |m0.book| == |m0.book.Keys| == |m1.book.Keys| == |m1.book|;
  }

  /** A recurrence pays for the activations of the re-entrant call. */
  lemma RecurrencePays(m0: Moment, w: Entry, m2: Moment, list: seq<Entry>, done: seq<Entry>, m3: Moment, t: real)
    requires w in m0.book && Weight(m0.book[w], t) > 0 && w in m2.book && m2.book == m0.book[w := m2.book[w]]
    requires m2.work == m0.work.(rounds := m0.work.rounds + 1, recurs := m0.work.recurs + 1)
    requires FewRounds(m2, m3) && m3.book.Keys == m0.book.Keys && Placed(list, done, multiset{}, m3.book)
    requires || (AllFrom(list, m3.book, Tick(m2.now)) && t <= Tick(m2.now))
             || (m3.book == m2.book[w := m3.book[w]] && m3.book[w].state == ENDED && m3.work == m2.work)
    ensures Debt(m3, t) <= Debt(m0, t) && Potential(m3.book, t) < Potential(m0.book, t)
  {
    hide Potential, Placed, AllFrom, Tick;
    PotentialChange(m0.book, t, w, m0.book[w].(state := ENDED));
    assert m2.book.Keys == m0.book.Keys;
    assert |m0.book| == |m0.book.Keys| == |m2.book.Keys| == |m2.book|;
    assert |m0.book| == |m0.book.Keys| == |m3.book.Keys| == |m3.book|;
    if m3.work == m2.work && m3.book == m2.book[w := m3.book[w]] && m3.book[w].state == ENDED {
      assert m3.book == m0.book[w := m3.book[w]];
      PotentialChange(m0.book, t, w, m3.book[w]);
      OneMoreRecurrence(3 * |m0.book|, m0.work.recurs, 0);
    } else {
      NothingLeft(list, done, m3.book, t, Tick(m2.now));
      OneMoreRecurrence(3 * |m0.book|, m0.work.recurs, m3.work.recurs - m2.work.recurs);
    }
  }

  lemma OneMoreRecurrence(n: nat, a: int, b: int)
    ensures n * (a + 1 + b) == n * a + n * (1 + b)
  {
  }

  lemma PlacedHead(list: seq<Entry>, done: seq<Entry>, book: Book)
    requires Placed(list, done, multiset{}, book) && list != []
    ensures list[0] in book && WAITING <= book[list[0]].state < ENDED
    ensures book[list[0]].Valid()
  {
  }

  lemma PassProgress(m0: Moment, w: Entry, stuck: bool, r1: Rec, m1: Moment)
    requires w in m0.book && Passed(m0.book[w], m0.now, stuck, r1, m1.now) && m1.book == m0.book[w := r1]
    requires stuck ==> m1.budget.misses < m0.budget.misses
    requires Elapsed(m0.now, m0.budget, m1.now, m1.budget)
    requires m1.last == m0.last && m0.book[w].state < ENDED
    requires m1.work == m0.work.(rounds := m0.work.rounds + 1, stucks := m0.work.stucks + if stuck then 1 else 0)
    ensures Course(m0, m1) && r1.Valid() && r1.state <= ENDED
    ensures r1.repeated == m0.book[w].repeated
    ensures stuck ==> r1.state < ENDED
    ensures r1.state == ENDED ==> r1.end == m0.book[w].end && (r1.end < Tick(m0.now) || r1.end < Tick(m1.now))
  {
    hide Tick, Repeating, Early, Kept;
    ChangeCourse(m0, w, r1, m1.now, m1.budget);
  }

  /** A repeated entry has left the current second. */
  lemma RenewProgress(m0: Moment, before: real, w: Entry, r1: Rec, m1: Moment)
    requires w in m0.book && m1.book == m0.book[w := r1] && Elapsed(m0.now, m0.budget, m1.now, m1.budget)
    requires m0.book[w].repeated != 0 && r1.end >= Tick(m1.now)
    requires before <= m0.now && (m0.book[w].end < Tick(before) || m0.book[w].end < Tick(m0.now))
    requires m1.last == m0.last && SameSettings(m0.book[w], r1)
    requires m1.work == m0.work.(recurs := m0.work.recurs + 1)
    ensures Course(m0, m1)
  {
    hide Tick, Chances;
    ChangeProgress(m0, w, r1, m1.now, m1.budget);
    TickMonotone(before, m0.now);
    if m1.now.Floor == m0.now.Floor {
      SameTick(m0.now, m1.now);
    }
    OneRecurred(m0, m1, w);
  }

  /** A due entry stays pending. */
  lemma Requeue(list0: seq<Entry>, done: seq<Entry>, book: Book, w: Entry, list1: seq<Entry>)
    requires w in list0 && w in book && book[w].state < ENDED
    requires Placed(Without(list0, w), done, multiset{w}, book)
    requires multiset(list1) == multiset(Without(list0, w)) + multiset{w} && Sorted(list1, book)
    ensures multiset(list1) == multiset(list0) && Placed(list1, done, multiset{}, book)
  {
    hide Sorted;
    WithoutElements(list0, w);
    assert multiset{w} + multiset{} == multiset{w};
    Put(Without(list0, w), done, multiset{}, book, w, list1);
  }

  /** A due entry has ended for good. */
  lemma Retire(list: seq<Entry>, done: seq<Entry>, book: Book, w: Entry, done1: seq<Entry>)
    requires w in book && book[w].state == ENDED && Placed(list, done, multiset{w}, book)
    requires multiset(done1) == multiset(done) + multiset{w}
    ensures Placed(list, done1, multiset{}, book)
  {
    hide Sorted;
    assert multiset{w} + multiset{} == multiset{w};
    assert book[w].(state := ENDED) == book[w];
    assert book[w := book[w]] == book;
    Finish(list, done, multiset{}, book, w, done1);
  }

  /** While the clock runs on, recurrences need not end: a pending repeated entry may be due when it
      is over; then it ends, is moved, and is filed as pending again. */
  lemma RecursAgain(r: Rec, now: real, zone: int, answer: Answer) returns (later: real, moved: Rec, r1: Rec)
    requires r.Valid() && r.repeated != 0 && r.state == WAITING && !r.disabled
    ensures now <= later && IsDue(r, later) && Lived(r, later, answer, false, r.(state := ENDED), later)
    ensures Repeated(r.(state := ENDED), later.Floor, zone, true, moved)
    ensures Filed(moved.(state := WAITING), later.Floor, zone, r1, later)
    ensures r1.Valid() && r1.repeated != 0 && r1.state == WAITING && !r1.disabled
  {
    hide Repeated;
    var top := if r.end < r.Key() then r.Key() else r.end;
    later := (if now < top then top.Floor + 1 else now.Floor + 1) as real;
    moved := Occurs(r.(state := ENDED), later.Floor, zone);
    r1 := Occurs(moved.(state := WAITING), later.Floor, zone);
    assert later == later.Floor as real;
  }

  // ---- operations from outside ----

  /** As Placed, but w was changed where it stands, so it may be out of order. */
  ghost predicate PlacedBut(list: seq<Entry>, done: seq<Entry>, w: Entry, book: Book) {
    && multiset(list) + multiset(done) == multiset(book.Keys)
    && States(list, done, book) && Healthy(book)
    && Sorted(if w in list then Without(list, w) else list, book)
  }

  lemma Changed(list: seq<Entry>, done: seq<Entry>, book: Book, w: Entry, r1: Rec)
    requires Placed(list, done, multiset{}, book) && w in book
    requires r1.Valid() && r1.state == book[w].state
    ensures PlacedBut(list, done, w, book[w := r1])
  {
    var b1 := book[w := r1];
    assert b1.Keys == book.Keys;
    assert multiset(list) + multiset(done) + multiset{} == multiset(list) + multiset(done);
    if w in list {
      Take(list, done, book, w, r1);
    } else {
      SortedFrame(list, book, b1);
    }
  }

  lemma NotTwice(list: seq<Entry>, done: seq<Entry>, book: Book, w: Entry)
    requires multiset(list) + multiset(done) == multiset(book.Keys) && w in list
    ensures multiset(list)[w] == 1 && w !in done && w !in Without(list, w)
  {
    WithoutElements(list, w);
    var all := multiset(book.Keys);
    assert all[w] == multiset(list)[w] + multiset(done)[w] && all[w] <= 1;
    assert w in multiset(list);
    assert w in done ==> w in multiset(done);
    var rest: seq<Entry> := Without(list, w);
    assert w in rest ==> multiset(rest)[w] > 0;
  }

  /** The entry is where its state says, and can be taken from there. */
  lemma TakeChanged(list: seq<Entry>, done: seq<Entry>, book: Book, w: Entry)
    requires PlacedBut(list, done, w, book) && w in book
    ensures if book[w].state == ENDED then
              w in done && w !in list && Placed(list, Without(done, w), multiset{w} + multiset{}, book)
            else
              w in list && Placed(Without(list, w), done, multiset{w} + multiset{}, book) && w !in Without(list, w)
  {
    hide Sorted, Healthy;
    assert w in multiset(book.Keys);
    assert w in multiset(list) || w in multiset(done);
    if book[w].state == ENDED {
      TakeProcessed(list, done, book, w);
    } else {
      WithoutElements(list, w);
      Subset(list, w);
      NotTwice(list, done, book, w);
    }
  }

  lemma TakeProcessed(list: seq<Entry>, done: seq<Entry>, book: Book, w: Entry)
    requires PlacedBut(list, done, w, book) && w in done && w !in list
    ensures Placed(list, Without(done, w), multiset{w} + multiset{}, book)
  {
    hide Sorted, Healthy;
    WithoutElements(done, w);
    Subset(done, w);
  }

  lemma NotPending(list: seq<Entry>, done: seq<Entry>, w: Entry, book: Book)
    requires PlacedBut(list, done, w, book) && w !in list
    ensures Placed(list, done, multiset{}, book)
  {
    assert multiset(list) + multiset(done) + multiset{} == multiset(list) + multiset(done);
  }

  lemma PendingIs(list: seq<Entry>, done: seq<Entry>, book: Book, e: Entry)
    requires Placed(list, done, multiset{}, book) && e in book
    ensures e in list <==> book[e].state < ENDED
    ensures e !in list ==> e in done
  {
    assert e in multiset(book.Keys);
    assert e in multiset(list) || e in multiset(done);
  }

  /** An entry that was cancelled, will not recur and has nothing left in the future. */
  predicate Aborted(r: Rec, now: real) {
    r.repeated == 0 && !r.autoincrease && r.cancelled && r.begin <= now && r.end <= now
  }

  lemma AbortedEnds(r: Rec, now: real)
    requires Aborted(r, now)
    ensures r.state == WAITING ==> EndsAtOnce(r, now) && Finishing(r.(state := ENDED), now)
    ensures r.state != WAITING ==> Finishing(r, now)
  {
  }

  lemma RescheduledProgress(m0: Moment, w: Entry)
    requires w in m0.book
    ensures Step(m0, m0.(book := m0.book[w := m0.book[w].Rescheduled()]))
  {
    ChangeProgress(m0, w, m0.book[w].Rescheduled(), m0.now, m0.budget);
  }

  lemma ExtendedProgress(m0: Moment, w: Entry, r1: Rec, m1: Moment)
    requires w in m0.book && Extended(m0.book[w], m1.now, r1) && m1.book == m0.book[w := r1]
    requires Elapsed(m0.now, m0.budget, m1.now, m1.budget) && m1.last == m0.last && m1.work == m0.work
    ensures Step(m0, m1)
  {
    ChangeProgress(m0, w, r1, m1.now, m1.budget);
  }

  lemma FinishingKept(m0: Moment, m1: Moment, e: Entry)
    requires Progress(m0, m1) && e in m0.book && Finishing(m0.book[e], m0.now)
    ensures e in m1.book && Finishing(m1.book[e], m1.now)
  {
    assert Kept(m0.book[e], m0.now, m1.book[e], m1.now);
  }

  /** A processed entry is dropped. */
  lemma Drop(list: seq<Entry>, done: seq<Entry>, book: Book, w: Entry)
    requires Placed(list, done, multiset{}, book) && w in done
    ensures w !in list && w !in Without(done, w)
    ensures Placed(list, Without(done, w), multiset{}, book - {w})
  {
    NotTwice(done, list, book, w);
    WithoutElements(done, w);
    Subset(done, w);
    var b1 := book - {w};
    assert b1.Keys == book.Keys - {w};
    assert multiset(b1.Keys) == multiset(book.Keys) - multiset{w};
    forall e | e in list ensures Key(book, e) == Key(b1, e) {
      assert e in multiset(list);
    }
    SortedFrame(list, book, b1);
  }

  lemma ListBound(list: seq<Entry>, done: seq<Entry>, book: Book)
    requires Placed(list, done, multiset{}, book)
    ensures |list| + |done| == |book.Keys|
  {
    assert |multiset(list) + multiset(done) + multiset{}| == |list| + |done|;
    assert |multiset(book.Keys)| == |book.Keys|;
  }

  /** A new entry, in the hand. */
  lemma Arrive(list: seq<Entry>, done: seq<Entry>, book: Book, w: Entry, r: Rec)
    requires Placed(list, done, multiset{}, book) && w !in book && r.Valid()
    ensures Placed(list, done, multiset{w} + multiset{}, book[w := r])
  {
    var b1 := book[w := r];
    assert b1.Keys == book.Keys + {w};
    assert multiset(b1.Keys) == multiset(book.Keys) + multiset{w};
    SortedFrame(list, book, b1);
  }

  /** Aborted entries that were not pending are not pending now. */
  ghost predicate Unqueued(m0: Moment, list0: seq<Entry>, list1: seq<Entry>) {
    forall e | e in m0.book && Finishing(m0.book[e], m0.now) && e !in list0 :: e !in list1
  }

  lemma StaysUnqueued(m0: Moment, list0: seq<Entry>, m1: Moment, list1: seq<Entry>, list2: seq<Entry>)
    requires Progress(m0, m1) && (forall e | e in list1 :: e in list0)
    requires list2 == list1 || Settled(m1, list2)
    ensures Unqueued(m0, list0, list2)
  {
    forall e | e in m0.book && Finishing(m0.book[e], m0.now) && e !in list0 ensures e !in list2 {
      FinishingKept(m0, m1, e);
    }
  }

  lemma FinishingLater(r: Rec, now0: real, now1: real)
    requires Finishing(r, now0) && now0 <= now1
    ensures Finishing(r, now1)
  {
  }

  /** Other pending entries keep their time when one entry changes. */
  lemma OthersFrom(list: seq<Entry>, done: seq<Entry>, book: Book, w: Entry, r1: Rec, t: real)
    requires Placed(list, done, multiset{}, book) && AllFrom(list, book, t)
    ensures AllFrom(if w in list then Without(list, w) else list, book[w := r1], t)
  {
    if w in list {
      assert multiset(list) + multiset(done) + multiset{} == multiset(list) + multiset(done);
      NotTwice(list, done, book, w);
      Subset(list, w);
    }
  }

  lemma AllFromDrop(list: seq<Entry>, book: Book, w: Entry, t: real)
    requires AllFrom(list, book, t) && w !in list
    ensures AllFrom(list, book - {w}, t)
  {
  }

  lemma AbortedHealthy(r: Rec, now: real)
    requires r.Valid()
    ensures var r1 := r.(repeated := 0, autoincrease := false, end := now, cancelled := true,
                         begin := if r.begin > now then now else r.begin);
            r1.Valid() && Aborted(r1, now)
  {
  }

  lemma ScheduleHealthy(r: Rec)
    requires r.Valid()
    ensures r.Rescheduled().Valid()
    ensures r.Rescheduled().(state := WAITING).Valid()
  {
  }

  lemma ExtendedHealthy(r: Rec, now: real, r1: Rec)
    requires r.Valid() && Extended(r, now, r1)
    ensures r1.Valid() && r1.state == r.state
  {
  }

  lemma UnqueuedAt(m0: Moment, list0: seq<Entry>, list1: seq<Entry>, e: Entry)
    requires Unqueued(m0, list0, list1) && e in m0.book && Finishing(m0.book[e], m0.now) && e !in list0
    ensures e !in list1
  {
  }

  lemma EditedHealthy(r: Rec, begin: real, end: real, mask: nat)
    requires r.Valid() && mask < 128
    ensures var r1 := r.(begin := begin, end := end, repeated := mask);
            r1.Valid() && r1.state == r.state
  {
    if mask != 0 {
      SomeDay(mask);
    }
  }
}
