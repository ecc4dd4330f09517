/** Repeated timers (apps/enigma2-nightly/timer.py): the shift of a repeated event to its next
    occurrence, in a zone with a fixed offset to UTC. */
module TimerRepeat {

  const DAY := 86400

  /** A broken-down local time.  Two of them compare field by field; the fields up to the second
      are the local second count here, and the daylight-saving flag comes after them. */
  datatype LocalTime = LocalTime(seconds: int, isdst: int)

  predicate Before(a: LocalTime, b: LocalTime) {
    a.seconds < b.seconds || (a.seconds == b.seconds && a.isdst < b.isdst)
  }

  /** Monday is 0; the epoch was a Thursday. */
  function Weekday(seconds: int): (d: int)
    ensures 0 <= d < 7
  {
    (seconds / DAY + 3) % 7
  }

  function Hour(seconds: int): int {
    seconds % DAY / 3600
  }

  /** One calendar day later, two if that lands on another hour.  The result does not know
      whether daylight saving applies. */
  function AddOneDay(t: LocalTime): LocalTime {
    if Hour(t.seconds + DAY) != Hour(t.seconds) then LocalTime(t.seconds + 2 * DAY, -1)
    else LocalTime(t.seconds + DAY, -1)
  }

  lemma DayLater(seconds: int)
    ensures (seconds + DAY) % DAY == seconds % DAY
    ensures (seconds + DAY) / DAY == seconds / DAY + 1
  {
  }

  /** With a fixed offset the hour never changes. */
  lemma OneDayLater(t: LocalTime)
    ensures AddOneDay(t) == LocalTime(t.seconds + DAY, -1)
  {
    DayLater(t.seconds);
  }

  // ---- the weekday mask ----

  function Power(n: nat): (p: nat)
    ensures p > 0
  {
    if n == 0 then 1 else 2 * Power(n - 1)
  }

  predicate Selected(mask: nat, day: nat) {
    mask / Power(day) % 2 == 1
  }

  lemma Halves(mask: nat, p: nat)
    requires p > 0
    ensures mask / p / 2 == mask / (2 * p)
  {
    var q, r := mask / p, mask % p;
    var h, bit := q / 2, q % 2;
    assert p * q == p * (2 * h) + p * bit;
    assert p * bit == if bit == 0 then 0 else p;
    Quotient(mask, 2 * p, h, p * bit + r);
  }

  lemma Quotient(a: int, d: int, q: int, r: int)
    requires d > 0 && a == d * q + r && 0 <= r < d
    ensures a / d == q
  {
    var k := a / d - q;
    assert d * k == d * (a / d) - d * q == r - a % d;
    Multiple(d, k);
  }

  lemma {:induction false} AtLeast(d: int, k: int)
    requires d > 0 && k > 0
    ensures d * k >= d
    decreases k
  {
    if k > 1 {
      AtLeast(d, k - 1);
    }
  }

  lemma Multiple(d: int, k: int)
    requires d > 0 && -d < d * k < d
    ensures k == 0
  {
    if k > 0 {
      AtLeast(d, k);
    }
    if k < 0 {
      AtLeast(d, -k);
    }
  }

  /** The list that the code builds by shifting the mask: 0 for the selected days. */
  method Days(mask: nat) returns (day: seq<int>)
    ensures |day| == 7 && forall x: nat | x < 7 :: day[x] == 0 <==> Selected(mask, x)
  {
    day := [];
    var flags := mask;
    for x := 0 to 7
      invariant |day| == x && flags == mask / Power(x)
      invariant forall j: nat | j < x :: day[j] == 0 <==> Selected(mask, j)
    {
      if flags % 2 == 1 {
        day := day + [0];
      } else {
        day := day + [1];
      }
      Halves(mask, Power(x));
      flags := flags / 2;
    }
  }

  /** A mask of seven bits that is not zero selects a day. */
  lemma SomeDay(mask: nat)
    requires 0 < mask < 128
    ensures exists d: nat :: d < 7 && Selected(mask, d)
  {
    var d, flags := 0, mask;
    assert Power(3) == 8 && Power(5) == 4 * Power(3) && Power(7) == 4 * Power(5);
    while flags % 2 == 0
      invariant d < 7 && 0 < flags < Power(7 - d) && flags == mask / Power(d)
      decreases 7 - d
    {
      Halves(mask, Power(d));
      flags := flags / 2;
      d := d + 1;
    }
    assert Selected(mask, d);
  }

  // ---- the days that qualify ----

  /** A repeated event: local seconds of its begin and end, of the first day on which it may
      occur and of the current second, and whether a running event still counts. */
  datatype Plan = Plan(begin: int, end: int, first: int, now: int, mask: nat, running: bool)

  /** The event, moved by k days, may stay: its weekday is selected, it does not begin too early,
      and the second that matters is not in the past.  Once the event was moved that second has
      to lie after now, in its own place it may also be now. */
  predicate Fits(p: Plan, k: nat) {
    && Selected(p.mask, Weekday(p.begin + k * DAY))
    && p.first <= p.begin + k * DAY
    && var deadline := (if p.running then p.end else p.begin) + k * DAY;
       if k == 0 then p.now <= deadline else p.now < deadline
  }

  predicate FirstFit(p: Plan, k: nat) {
    Fits(p, k) && forall j: nat | j < k :: !Fits(p, j)
  }

  /** Weekdays are counted from Monday: the first of January 1970 was a Thursday, the first of January
      2010 a Friday. */
  lemma KnownWeekdays()
    ensures Weekday(0) == 3 && Weekday(1262304000) == 4
  {
  }

  lemma {:induction false} WeekdayAfter(seconds: int, k: nat)
    ensures Weekday(seconds + k * DAY) == (Weekday(seconds) + k) % 7
  {
    if k > 0 {
      WeekdayAfter(seconds, k - 1);
      var before := seconds + (k - 1) * DAY;
      assert seconds + k * DAY == before + DAY;
      DayLater(before);
      NextDay(before / DAY + 3, Weekday(seconds) + k - 1);
    }
  }

  lemma NextDay(a: int, b: int)
    requires a % 7 == b % 7
    ensures (a + 1) % 7 == (b + 1) % 7
  {
  }

  /** Weekday d comes up at a whole number of weeks after some day of the first week. */
  lemma WeekdayRecurs(seconds: int, d: int, weeks: nat) returns (k: nat)
    requires 0 <= d < 7
    ensures k >= 7 * weeks && Weekday(seconds + k * DAY) == d
  {
    var ahead: nat := (d - Weekday(seconds)) % 7;
    k := 7 * weeks + ahead;
    WeekdayAfter(seconds, k);
    Weeks(Weekday(seconds) + ahead, weeks);
  }

  lemma Weeks(a: int, weeks: nat)
    ensures (7 * weeks + a) % 7 == a % 7
  {
  }

  function Distance(a: int, b: int): nat {
    if a < b then b - a else 0
  }

  /** With a selected weekday some shift fits, however far in the past the event lies. */
  lemma FitExists(p: Plan, d: nat) returns (k: nat)
    requires d < 7 && Selected(p.mask, d)
    ensures Fits(p, k)
  {
    var weeks := 1 + Distance(p.begin, p.first) + Distance(p.end, p.now) + Distance(p.begin, p.now);
    k := WeekdayRecurs(p.begin, d, weeks);
    assert k * DAY >= weeks;
  }

  /** Some shift fits if and only if one of the seven weekday bits is set: with an empty selection
      the search for the next day would never end. */
  lemma FitsSomewhere(p: Plan)
    ensures (exists k: nat :: Fits(p, k)) <==> (exists d: nat :: d < 7 && Selected(p.mask, d))
  {
    if k: nat :| Fits(p, k) {
      var d: nat := Weekday(p.begin + k * DAY);
      assert Selected(p.mask, d);
    }
    if d: nat :| d < 7 && Selected(p.mask, d) {
      var k := FitExists(p, d);
    }
  }

  /** A mask with only the eighth bit, which no weekday owns, lets the search go on for ever. */
  lemma EighthBitNeverFits(p: Plan)
    requires p.mask == 128
    ensures forall k: nat :: !Fits(p, k)
  {
    assert Power(2) == 4 && Power(4) == 4 * Power(2) && Power(6) == 4 * Power(4);
    forall d: nat | d < 7 ensures !Selected(p.mask, d) {
      if d < 2 {
      } else if d < 4 {
      } else {
      }
    }
    FitsSomewhere(p);
  }

  lemma FirstFitExists(p: Plan) returns (k: nat)
    requires exists d: nat :: d < 7 && Selected(p.mask, d)
    ensures FirstFit(p, k)
  {
    hide Fits, Selected;
    var d: nat :| d < 7 && Selected(p.mask, d);
    var m := FitExists(p, d);
    k := 0;
    while !Fits(p, k)
      invariant k <= m && forall j: nat | j < k :: !Fits(p, j)
      decreases m - k
    {
      k := k + 1;
    }
  }

  /** No other shift than the least one is a first fit. */
  lemma FirstFitUnique(p: Plan, k: nat, m: nat)
    requires FirstFit(p, k) && FirstFit(p, m)
    ensures k == m
  {
    assert !(k < m) && !(m < k);
  }

  /** An event that was moved would not move again at the same moment. */
  lemma FirstFitIsStable(p: Plan, k: nat)
    requires FirstFit(p, k)
    ensures FirstFit(p.(begin := p.begin + k * DAY, end := p.end + k * DAY), 0)
  {
  }

  /** The loop condition of the search, on broken-down times. */
  predicate Search(day: seq<int>, p: Plan, b: LocalTime, e: LocalTime, now: LocalTime)
    requires |day| == 7
  {
    || day[Weekday(b.seconds)] != 0
    || p.first > b.seconds
    || (day[Weekday(b.seconds)] == 0 && ((p.running && Before(e, now)) || (!p.running && Before(b, now))))
  }

  /** The comparison of broken-down times includes the daylight-saving flag, and the flag of a
      moved time is lower than that of a fresh one. */
  lemma SearchIsMisfit(day: seq<int>, p: Plan, k: nat)
    requires |day| == 7 && forall x: nat | x < 7 :: day[x] == 0 <==> Selected(p.mask, x)
    ensures var flag := if k == 0 then 0 else -1;
            Search(day, p, LocalTime(p.begin + k * DAY, flag), LocalTime(p.end + k * DAY, flag), LocalTime(p.now, 0))
            <==> !Fits(p, k)
  {
  }

  /** Moves begin and end, day by day, until they fit. */
  method FindDay(p: Plan) returns (begin: int, end: int, ghost k: nat)
    requires exists d: nat :: d < 7 && Selected(p.mask, d)
    ensures FirstFit(p, k) && begin == p.begin + k * DAY && end == p.end + k * DAY
  {
    var day := Days(p.mask);
    ghost var d: nat :| d < 7 && Selected(p.mask, d);
    ghost var limit := FitExists(p, d);
    var localBegin, localEnd, localNow := LocalTime(p.begin, 0), LocalTime(p.end, 0), LocalTime(p.now, 0);
    k := 0;
    SearchIsMisfit(day, p, 0);
    while Search(day, p, localBegin, localEnd, localNow)
      invariant localBegin == LocalTime(p.begin + k * DAY, if k == 0 then 0 else -1)
      invariant localEnd == LocalTime(p.end + k * DAY, if k == 0 then 0 else -1)
      invariant Search(day, p, localBegin, localEnd, localNow) <==> !Fits(p, k)
      invariant k <= limit && forall j: nat | j < k :: !Fits(p, j)
      decreases limit - k
    {
      OneDayLater(localBegin);
      OneDayLater(localEnd);
      localBegin := AddOneDay(localBegin);
      localEnd := AddOneDay(localEnd);
      k := k + 1;
      SearchIsMisfit(day, p, k);
    }
    begin, end := localBegin.seconds, localEnd.seconds;
  }
}
