/** The answer to reset of a smartcard (driver/smartcard/atr.c and atr.h; section 8.2 of
    ISO/IEC 7816-3): a parser that fills a structure and a printer that emits it again.  T0
    and every TDi announce which interface bytes follow. */
module Atr {
  import opened Bytes

  const MAX_SIZE := 33
  const MAX_HISTORICAL := 15
  const MAX_PROTOCOLS := 7

  /** The interface bytes of one protocol, those that are present. */
  datatype Row = Row(ta: Option<bv8>, tb: Option<bv8>, tc: Option<bv8>, td: Option<bv8>)

  /** An answer to reset: initial character, format character, rows of interface bytes,
      historical bytes and check character. */
  datatype Answer = Answer(ts: bv8, t0: bv8, rows: seq<Row>, hb: seq<bv8>, tck: Option<bv8>)

  // ---- bits ----

  function InvertByte(a: bv8): bv8 {
    ((a << 7) & 0x80) | ((a << 5) & 0x40) | ((a << 3) & 0x20) | ((a << 1) & 0x10) |
    ((a >> 1) & 0x08) | ((a >> 3) & 0x04) | ((a >> 5) & 0x02) | ((a >> 7) & 0x01)
  }

  /** The bits are reversed: bit k of the result is bit 7 - k of the argument. */
  lemma InvertedBits(a: bv8)
    ensures var r := InvertByte(a);
            && (r & 1 != 0 <==> a & 128 != 0) && (r & 2 != 0 <==> a & 64 != 0)
            && (r & 4 != 0 <==> a & 32 != 0) && (r & 8 != 0 <==> a & 16 != 0)
            && (r & 16 != 0 <==> a & 8 != 0) && (r & 32 != 0 <==> a & 4 != 0)
            && (r & 64 != 0 <==> a & 2 != 0) && (r & 128 != 0 <==> a & 1 != 0)
  {
  }

  /** A byte of the inverse convention, in the direct one. */
  function Decode(a: bv8): bv8 {
    !InvertByte(a)
  }

  /** Reversing the bits twice, and so decoding twice, gives the byte back. */
  lemma DecodeTwice(a: bv8)
    ensures Decode(Decode(a)) == a
    ensures Decode(3) == 0x3f
  {
  }

  /** The whole buffer in the direct convention; the inverse one shows in its first byte. */
  function Decoded(b: seq<bv8>): (r: seq<bv8>)
    ensures |r| == |b|
    ensures |b| > 0 ==> r[0] != 3
  {
    if |b| > 0 && b[0] == 3 then
      DecodeTwice(3);
      DecodeAll(b)
    else b
  }

  /** The first byte 3 is that of the inverse convention: each byte is then read with its bits reversed
      and complemented. */
  lemma Convention(b: seq<bv8>)
    requires |b| > 0
    ensures b[0] != 3 ==> Decoded(b) == b
    ensures b[0] == 3 ==>
              Decoded(b)[0] == 0x3f && forall i | 0 <= i < |b| :: InvertByte(Decoded(b)[i]) == !b[i]
  {
    forall i | 0 <= i < |b| ensures InvertByte(Decode(b[i])) == !b[i] {
      DecodeTwice(b[i]);
    }
  }

  function DecodeAll(b: seq<bv8>): (r: seq<bv8>)
    ensures |r| == |b| && forall i | 0 <= i < |b| :: r[i] == Decode(b[i])
  {
    if b == [] then [] else DecodeAll(b[..|b| - 1]) + [Decode(b[|b| - 1])]
  }

  function One(b: bool): nat {
    if b then 1 else 0
  }

  /** Number of interface bytes that an indicator announces. */
  function Announced(y: bv8): (n: nat)
    ensures n <= 4
  {
    One(HasTA(y)) + One(HasTB(y)) + One(HasTC(y)) + One(HasTD(y))
  }

  const NUM_IB: seq<nat> := [0, 1, 1, 2, 1, 2, 2, 3, 1, 2, 2, 3, 2, 3, 3, 4]

  lemma NumIbIsAnnounced(y: bv8)
    ensures 0 <= ((0xf0 & y) >> 4) as int < 16
    ensures NUM_IB[((0xf0 & y) >> 4) as int] == Announced(y)
  {
    var n := (0xf0 & y) >> 4;
    assert n < 16;
    assert (y & 0x10 != 0 <==> n & 1 != 0) && (y & 0x20 != 0 <==> n & 2 != 0);
    assert (y & 0x40 != 0 <==> n & 4 != 0) && (y & 0x80 != 0 <==> n & 8 != 0);
    SixteenCases(n);
    if n < 4 {
    } else if n < 8 {
    } else if n < 12 {
    }
  }

  /** The look-up of the parser. */
  function NumIb(y: bv8): (n: nat)
    ensures n == Announced(y)
  {
    NumIbIsAnnounced(y);
    NUM_IB[((0xf0 & y) >> 4) as int]
  }

  /** A TD byte that names another protocol than T=0. */
  predicate NotT0(td: bv8) {
    td & 0x0f != 0
  }

  /** What T0 and the TD bytes say, in numbers: the high half announces interface bytes. */
  lemma IndicatorBits(y: bv8)
    ensures HasTA(y) <==> y as int / 16 % 2 == 1
    ensures HasTB(y) <==> y as int / 32 % 2 == 1
    ensures HasTC(y) <==> y as int / 64 % 2 == 1
    ensures HasTD(y) <==> y as int / 128 == 1
  {
    hide HasTA, HasTB, HasTC, HasTD;
    IndicatorTA(y);
    IndicatorTB(y);
    IndicatorTC(y);
    IndicatorTD(y);
  }

  lemma IndicatorTA(y: bv8)
    ensures HasTA(y) <==> y as int / 16 % 2 == 1
  {
  }

  lemma IndicatorTB(y: bv8)
    ensures HasTB(y) <==> y as int / 32 % 2 == 1
  {
  }

  lemma IndicatorTC(y: bv8)
    ensures HasTC(y) <==> y as int / 64 % 2 == 1
  {
  }

  lemma IndicatorTD(y: bv8)
    ensures HasTD(y) <==> y as int / 128 == 1
  {
  }

  /** The low half of a byte, as the parser takes it. */
  lemma LowHalf(y: bv8)
    ensures NotT0(y) <==> y as int % 16 != 0
    ensures (y & 0x0f) as int == Historical(y)
  {
  }

  lemma SixteenCases(n: bv8)
    requires n < 16
    ensures n < 4 ==> n == 0 || n == 1 || n == 2 || n == 3
    ensures 4 <= n < 8 ==> n == 4 || n == 5 || n == 6 || n == 7
    ensures 8 <= n < 12 ==> n == 8 || n == 9 || n == 10 || n == 11
    ensures 12 <= n ==> n == 12 || n == 13 || n == 14 || n == 15
  {
  }

  // ---- which interface bytes an indicator announces ----

  predicate HasTA(y: bv8) { y & 0x10 != 0 }
  predicate HasTB(y: bv8) { y & 0x20 != 0 }
  predicate HasTC(y: bv8) { y & 0x40 != 0 }
  predicate HasTD(y: bv8) { y & 0x80 != 0 }

  lemma Masks(y: bv8)
    ensures Shows(y, 0xef) == HasTA(y)
    ensures Shows(y, 0xdf) == HasTB(y)
    ensures Shows(y, 0xbf) == HasTC(y)
    ensures Shows(y, 0x7f) == HasTD(y)
  {
  }

  /** The parser's own look at one bit of an indicator. */
  predicate Shows(y: bv8, mask: bv8) {
    y | mask == 0xff
  }

  lemma Announcement(y: bv8)
    ensures Announced(y) == One(HasTA(y)) + One(HasTB(y)) + One(HasTC(y)) + One(HasTD(y))
  {
  }

  /** Four adjacent pieces of a sequence. */
  lemma FourPieces(s: seq<bv8>, i: nat, j: nat, k: nat, l: nat, m: nat)
    requires i <= j <= k <= l <= m < |s|
    ensures s[i + 1..j + 1] + s[j + 1..k + 1] + s[k + 1..l + 1] + s[l + 1..m + 1] == s[i + 1..m + 1]
  {
  }

  lemma FourAppended(o: seq<bv8>, p: seq<bv8>, q: seq<bv8>, r: seq<bv8>, t: seq<bv8>)
    ensures o + p + q + r + t == o + (p + q + r + t)
  {
  }

  // ---- the grammar ----

  function Opt(b: Option<bv8>): seq<bv8> {
    if b.Some? then [b.value] else []
  }

  function RowBytes(r: Row): seq<bv8> {
    Opt(r.ta) + Opt(r.tb) + Opt(r.tc) + Opt(r.td)
  }

  function RowsBytes(rows: seq<Row>): seq<bv8> {
    if rows == [] then [] else RowsBytes(rows[..|rows| - 1]) + RowBytes(rows[|rows| - 1])
  }

  /** A row holds exactly the bytes that its indicator announces. */
  predicate Matches(y: bv8, r: Row) {
    && (r.ta.Some? <==> HasTA(y)) && (r.tb.Some? <==> HasTB(y))
    && (r.tc.Some? <==> HasTC(y)) && (r.td.Some? <==> HasTD(y))
  }

  /** The indicator of row k: T0 for the first row, the previous row's TD for the others. */
  function Indicator(t0: bv8, rows: seq<Row>, k: nat): bv8
    requires k <= |rows|
    requires 0 < k ==> rows[k - 1].td.Some?
  {
    if k == 0 then t0 else rows[k - 1].td.value
  }

  /** Rows that are chained by their TD bytes and announce one more row. */
  predicate Open(t0: bv8, rows: seq<Row>) {
    && (forall k | 0 <= k < |rows| :: rows[k].td.Some?)
    && (forall k | 0 <= k < |rows| :: Matches(Indicator(t0, rows, k), rows[k]))
  }

  function Historical(t0: bv8): (n: nat)
    ensures n <= MAX_HISTORICAL
  {
    t0 as int % 16
  }

  lemma LowNibble(y: bv8)
    ensures 0 <= (y & 0x0f) as int <= MAX_HISTORICAL
  {
    assert y & 0x0f < 16;
  }

  /** The last TD decides whether a check character follows: one that names another protocol than T=0. */
  predicate WantsCheck(rows: seq<Row>) {
    |rows| > 0 && rows[|rows| - 1].td.Some? && rows[|rows| - 1].td.value as int % 16 != 0
  }

  predicate WellFormed(a: Answer) {
    && 0 < |a.rows| <= MAX_PROTOCOLS
    && var front, last := a.rows[..|a.rows| - 1], a.rows[|a.rows| - 1];
       && Open(a.t0, front)
       && Matches(Indicator(a.t0, front, |front|), last) && last.td.None?
       && |a.hb| == Historical(a.t0)
       && (a.tck.Some? <==> WantsCheck(front))
  }

  /** A well-formed answer has a check character exactly if its last TD byte names another protocol
      than T=0. */
  lemma CheckCharacterThere(a: Answer)
    requires WellFormed(a)
    ensures var n := |a.rows|;
            && (forall k | 0 <= k < n - 1 :: a.rows[k].td.Some?)
            && (a.tck.Some? <==> n > 1 && a.rows[n - 2].td.value as int % 16 != 0)
  {
    var n := |a.rows|;
    assert forall k | 0 <= k < n - 1 :: a.rows[..n - 1][k] == a.rows[k];
  }

  function Print(a: Answer): seq<bv8> {
    [a.ts, a.t0] + RowsBytes(a.rows) + a.hb + Opt(a.tck)
  }

  /** The buffer does not start with any answer. */
  ghost predicate NoAnswer(b: seq<bv8>) {
    forall a | WellFormed(a) :: !(Print(a) <= b)
  }

  // ---- the grammar is unambiguous ----

  lemma RowLength(y: bv8, r: Row)
    requires Matches(y, r)
    ensures |RowBytes(r)| == Announced(y)
  {
  }

  /** Four adjacent pieces are found again where they were put. */
  lemma Cut(w: seq<bv8>, x: seq<bv8>, y: seq<bv8>, z: seq<bv8>)
    ensures var s, i, j := w + x + y + z, |w| + |x|, |w| + |x| + |y|;
            s[..|w|] == w && s[|w|..i] == x && s[i..j] == y && s[j..] == z
  {
  }

  lemma SameRow(y: bv8, r: Row, q: Row)
    requires Matches(y, r) && Matches(y, q) && RowBytes(r) == RowBytes(q)
    ensures r == q
  {
    Cut(Opt(r.ta), Opt(r.tb), Opt(r.tc), Opt(r.td));
    Cut(Opt(q.ta), Opt(q.tb), Opt(q.tc), Opt(q.td));
    SameOpt(r.ta, q.ta);
    SameOpt(r.tb, q.tb);
    SameOpt(r.tc, q.tc);
    SameOpt(r.td, q.td);
  }

  lemma SameOpt(x: Option<bv8>, y: Option<bv8>)
    requires Opt(x) == Opt(y)
    ensures x == y
  {
    if x.Some? && y.Some? {
      assert Opt(x)[0] == Opt(y)[0];
    }
  }

  lemma RowsAppend(rows: seq<Row>, r: Row)
    ensures RowsBytes(rows + [r]) == RowsBytes(rows) + RowBytes(r)
  {
    assert (rows + [r])[..|rows|] == rows;
  }

  lemma {:induction false} RowsSplit(rows: seq<Row>, k: nat)
    requires k <= |rows|
    ensures RowsBytes(rows[..k]) <= RowsBytes(rows)
  {
    if k < |rows| {
      RowsSplit(rows[..|rows| - 1], k);
      assert rows[..|rows| - 1][..k] == rows[..k];
    } else {
      assert rows[..k] == rows;
    }
  }

  /** The front of an answer up to row k. */
  function Head(ts: bv8, t0: bv8, rows: seq<Row>): seq<bv8> {
    [ts, t0] + RowsBytes(rows)
  }

  /** What a buffer holds at `at` is determined. */
  lemma SamePiece(b: seq<bv8>, head: seq<bv8>, x: seq<bv8>, y: seq<bv8>)
    requires head + x <= b && head + y <= b && |x| == |y|
    ensures x == y
  {
    assert b[|head|..|head| + |x|] == (head + x)[|head|..] == x;
    assert b[|head|..|head| + |y|] == (head + y)[|head|..] == y;
  }

  lemma HeadPrefix(a: Answer, k: nat, b: seq<bv8>)
    requires k <= |a.rows| && Print(a) <= b
    ensures Head(a.ts, a.t0, a.rows[..k]) <= b
  {
    RowsSplit(a.rows, k);
    assert Head(a.ts, a.t0, a.rows) <= Print(a);
    assert Head(a.ts, a.t0, a.rows[..k]) <= Head(a.ts, a.t0, a.rows);
  }

  /** After the same front and under the same indicator, a buffer holds only one row. */
  lemma NextRowAgrees(ts: bv8, t0: bv8, front: seq<Row>, y: bv8, r: Row, q: Row, b: seq<bv8>)
    requires Matches(y, r) && Matches(y, q)
    requires Head(ts, t0, front + [r]) <= b && Head(ts, t0, front + [q]) <= b
    ensures r == q
  {
    hide Matches, RowBytes, RowsBytes;
    RowLength(y, r);
    RowLength(y, q);
    RowsAppend(front, r);
    RowsAppend(front, q);
    assert Head(ts, t0, front + [r]) == Head(ts, t0, front) + RowBytes(r);
    assert Head(ts, t0, front + [q]) == Head(ts, t0, front) + RowBytes(q);
    SamePiece(b, Head(ts, t0, front), RowBytes(r), RowBytes(q));
    SameRow(y, r, q);
  }

  lemma HeadOfRows(ts: bv8, t0: bv8, rows: seq<Row>, n: nat, b: seq<bv8>)
    requires Head(ts, t0, rows) <= b && n <= |rows|
    ensures Head(ts, t0, rows[..n]) <= b
  {
    RowsSplit(rows, n);
    assert Head(ts, t0, rows[..n]) <= Head(ts, t0, rows);
  }

  lemma FirstBytes(a: Answer, ts: bv8, t0: bv8, rows: seq<Row>, b: seq<bv8>)
    requires Head(ts, t0, rows) <= b && Print(a) <= b
    ensures a.ts == ts && a.t0 == t0
  {
    assert b[0] == Head(ts, t0, rows)[0] == Print(a)[0] && b[1] == Head(ts, t0, rows)[1] == Print(a)[1];
  }

  /** An answer that a buffer starts with has the rows that were already read from it. */
  lemma {:induction false} OpenRowsAgree(ts: bv8, t0: bv8, rows: seq<Row>, a: Answer, b: seq<bv8>, n: nat)
    requires Open(t0, rows) && Head(ts, t0, rows) <= b
    requires WellFormed(a) && Print(a) <= b && n <= |rows|
    ensures a.ts == ts && a.t0 == t0 && n < |a.rows| && a.rows[..n] == rows[..n]
  {
    hide Matches, RowBytes, RowsBytes, WellFormed, Head, Print, Open, Indicator;
    FirstBytes(a, ts, t0, rows, b);
    if n == 0 {
      AnswerHasRow(a);
    } else {
      OpenRowsAgree(ts, t0, rows, a, b, n - 1);
      var front, r, q := rows[..n - 1], rows[n - 1], a.rows[n - 1];
      AnswerRow(a, n - 1);
      OpenRow(t0, rows, n - 1);
      assert rows[..n] == front + [r] && a.rows[..n] == front + [q];
      HeadOfRows(ts, t0, rows, n, b);
      HeadPrefix(a, n, b);
      SameIndicator(t0, a.rows, rows, n - 1);
      NextRowAgrees(ts, t0, front, Indicator(t0, rows, n - 1), r, q, b);
    }
  }

  lemma OpenRow(t0: bv8, rows: seq<Row>, k: nat)
    requires Open(t0, rows) && k < |rows|
    ensures rows[k].td.Some? && (0 < k ==> rows[k - 1].td.Some?) && Matches(Indicator(t0, rows, k), rows[k])
  {
  }

  lemma AnswerHasRow(a: Answer)
    requires WellFormed(a)
    ensures 0 < |a.rows|
  {
  }

  lemma SameIndicator(t0: bv8, rows: seq<Row>, other: seq<Row>, k: nat)
    requires k <= |rows| && k <= |other| && rows[..k] == other[..k]
    requires 0 < k ==> rows[k - 1].td.Some? && other[k - 1].td.Some?
    ensures Indicator(t0, rows, k) == Indicator(t0, other, k)
  {
    if 0 < k {
      assert rows[..k][k - 1] == other[..k][k - 1];
    }
  }

  /** Row k of a well-formed answer matches its indicator and is the last one unless it has TD. */
  lemma AnswerRow(a: Answer, k: nat)
    requires WellFormed(a) && k < |a.rows|
    ensures 0 < k ==> a.rows[k - 1].td.Some?
    ensures Matches(Indicator(a.t0, a.rows, k), a.rows[k])
    ensures a.rows[k].td.None? <==> k == |a.rows| - 1
  {
    var front := a.rows[..|a.rows| - 1];
    if k < |front| {
      assert front[k] == a.rows[k] && Matches(Indicator(a.t0, front, k), front[k]);
    }
  }

  lemma AllRowsAgree(a: Answer, c: Answer, b: seq<bv8>)
    requires WellFormed(a) && WellFormed(c) && Print(a) <= b && Print(c) <= b
    ensures a.ts == c.ts && a.t0 == c.t0 && a.rows == c.rows
  {
    hide Matches, RowBytes, RowsBytes, Head, Print, WellFormed;
    AnswerHasRow(c);
    var n := |c.rows| - 1;
    var front, r := c.rows[..n], c.rows[n];
    OpenFront(c);
    HeadPrefix(c, n, b);
    OpenRowsAgree(c.ts, c.t0, front, a, b, n);
    AnswerRow(a, n);
    AnswerRow(c, n);
    assert a.rows[..n] == front;
    assert a.rows[..n + 1] == front + [a.rows[n]] && c.rows[..n + 1] == front + [r];
    HeadPrefix(a, n + 1, b);
    HeadPrefix(c, n + 1, b);
    SameIndicator(c.t0, a.rows, c.rows, n);
    NextRowAgrees(c.ts, c.t0, front, Indicator(c.t0, c.rows, n), r, a.rows[n], b);
    assert a.rows == a.rows[..n + 1] && c.rows == c.rows[..n + 1];
  }

  lemma OpenFront(c: Answer)
    requires WellFormed(c)
    ensures 0 < |c.rows| && Open(c.t0, c.rows[..|c.rows| - 1])
  {
  }

  /** No two answers start the same buffer. */
  lemma Unambiguous(a: Answer, c: Answer, b: seq<bv8>)
    requires WellFormed(a) && WellFormed(c) && Print(a) <= b && Print(c) <= b
    ensures a == c
  {
    AllRowsAgree(a, c, b);
    Endings(a, c);
    hide RowsBytes, WellFormed;
    var head := Head(a.ts, a.t0, a.rows);
    SamePiece(b, head, a.hb, c.hb);
    SamePiece(b, head + a.hb, Opt(a.tck), Opt(c.tck));
    SameOpt(a.tck, c.tck);
  }

  lemma Endings(a: Answer, c: Answer)
    requires WellFormed(a) && WellFormed(c) && a.rows == c.rows && a.t0 == c.t0
    ensures |a.hb| == |c.hb| && (a.tck.Some? <==> c.tck.Some?)
  {
  }

  /** A buffer that ends inside an announced row starts no answer. */
  lemma RowMissing(ts: bv8, t0: bv8, rows: seq<Row>, b: seq<bv8>, a: Answer)
    requires Open(t0, rows) && Head(ts, t0, rows) <= b && WellFormed(a)
    requires |Head(ts, t0, rows)| + Announced(Indicator(t0, rows, |rows|)) > |b|
    ensures !(Print(a) <= b)
  {
    hide RowsBytes, RowBytes, Matches, Announced, WellFormed, Print;
    if Print(a) <= b {
      var n := |rows|;
      OpenRowsAgree(ts, t0, rows, a, b, n);
      assert rows[..n] == rows;
      AnswerRow(a, n);
      SameIndicator(t0, a.rows, rows, n);
      RowLength(Indicator(t0, rows, n), a.rows[n]);
      HeadPrefix(a, n + 1, b);
      assert a.rows[..n + 1] == rows + [a.rows[n]];
      RowsAppend(rows, a.rows[n]);
    }
  }

  lemma RowsMissing(ts: bv8, t0: bv8, rows: seq<Row>, check: bool, b: seq<bv8>, y: bv8, pointer: nat)
    requires Reading(ts, t0, rows, check, b, y, pointer) && pointer + Announced(y) >= |b|
    ensures NoAnswer(b)
  {
    hide RowsBytes, RowBytes, Matches, Announced, WellFormed, Print, Open;
    forall a | WellFormed(a) ensures !(Print(a) <= b) {
      RowMissing(ts, t0, rows, b, a);
    }
  }

  lemma TooLong(a: Answer, front: seq<Row>, last: Row)
    requires WellFormed(a) && |a.rows| == |front| + 1 && a.rows[..|front|] == front && a.rows[|front|] == last
    ensures |Print(a)| == |Head(a.ts, a.t0, front + [last])| + Historical(a.t0) + One(WantsCheck(front))
  {
    hide RowsBytes, RowBytes, Matches;
    assert a.rows == front + [last] && a.rows[..|a.rows| - 1] == front;
  }

  /** A buffer that ends before the historical bytes or the check character starts no answer. */
  lemma TailMissing(ts: bv8, t0: bv8, front: seq<Row>, last: Row, b: seq<bv8>, a: Answer)
    requires Open(t0, front) && Matches(Indicator(t0, front, |front|), last) && last.td.None? && WellFormed(a)
    requires Head(ts, t0, front + [last]) <= b
    requires |Head(ts, t0, front + [last])| + Historical(t0) + One(WantsCheck(front)) > |b|
    ensures !(Print(a) <= b)
  {
    hide RowsBytes, RowBytes, Matches, Announced, Historical;
    if Print(a) <= b {
      var n, rows := |front|, front + [last];
      HeadOfRows(ts, t0, rows, n, b);
      assert rows[..n] == front && front[..n] == front;
      OpenRowsAgree(ts, t0, front, a, b, n);
      AnswerRow(a, n);
      SameIndicator(t0, a.rows, front, n);
      HeadPrefix(a, n + 1, b);
      assert a.rows[..n + 1] == front + [a.rows[n]];
      NextRowAgrees(ts, t0, front, Indicator(t0, front, n), last, a.rows[n], b);
      TooLong(a, front, last);
    }
  }

  lemma TailsMissing(ts: bv8, t0: bv8, front: seq<Row>, last: Row, b: seq<bv8>)
    requires Open(t0, front) && Matches(Indicator(t0, front, |front|), last) && last.td.None?
    requires Head(ts, t0, front + [last]) <= b
    requires |Head(ts, t0, front + [last])| + Historical(t0) + One(WantsCheck(front)) > |b|
    ensures NoAnswer(b)
  {
    hide RowsBytes, RowBytes, Matches, Historical, WellFormed, Print, Open, WantsCheck;
    forall a | WellFormed(a) ensures !(Print(a) <= b) {
      TailMissing(ts, t0, front, last, b, a);
    }
  }

  // ---- the parser and the printer ----

  /** Number of TD bytes in the chain of a buffer, from the indicator y behind `pointer` on. */
  function Links(b: seq<bv8>, pointer: nat, y: bv8): nat
    decreases |b| - pointer
  {
    if pointer + Announced(y) >= |b| || y & 0x80 == 0 then 0
    else 1 + Links(b, pointer + Announced(y), b[pointer + Announced(y)])
  }

  lemma {:induction false} LinksOfPrefix(b: seq<bv8>, n: nat, pointer: nat, y: bv8)
    requires n <= |b|
    ensures Links(b[..n], pointer, y) <= Links(b, pointer, y)
    decreases |b| - pointer
  {
    var p := pointer + Announced(y);
    if p < n && HasTD(y) {
      LinkAnnounced(y);
      LinksOfPrefix(b, n, p, b[p]);
    }
  }

  lemma LinkAnnounced(y: bv8)
    requires HasTD(y)
    ensures Announced(y) > 0
  {
  }

  lemma MatchesTd(y: bv8, r: Row)
    requires Matches(y, r)
    ensures r.td.Some? <==> HasTD(y)
  {
  }

  lemma NextLink(b: seq<bv8>, pointer: nat, y: bv8)
    requires pointer + Announced(y) < |b| && HasTD(y)
    ensures Links(b, pointer, y) == 1 + Links(b, pointer + Announced(y), b[pointer + Announced(y)])
  {
  }

  function Nibble(y: bv8): (n: nat)
    ensures n == Historical(y) && n <= MAX_HISTORICAL
  {
    LowNibble(y);
    (y & 0x0f) as int
  }

  /** Reading one more row that announces another one. */
  lemma NextOpen(ts: bv8, t0: bv8, rows: seq<Row>, r: Row)
    requires Open(t0, rows) && Matches(Indicator(t0, rows, |rows|), r) && r.td.Some?
    ensures Open(t0, rows + [r]) && Indicator(t0, rows + [r], |rows| + 1) == r.td.value
    ensures WantsCheck(rows + [r]) <==> NotT0(r.td.value)
  {
    hide Matches;
    LowHalf(r.td.value);
    var more := rows + [r];
    forall k | 0 <= k < |more| ensures Matches(Indicator(t0, more, k), more[k]) {
      if k < |rows| {
        assert more[k] == rows[k] && Indicator(t0, more, k) == Indicator(t0, rows, k);
      }
    }
  }

  lemma NextHead(ts: bv8, t0: bv8, rows: seq<Row>, r: Row, b: seq<bv8>, p: nat, q: nat)
    requires p <= q < |b| && Head(ts, t0, rows) == b[..p + 1] && RowBytes(r) == b[p + 1..q + 1]
    ensures Head(ts, t0, rows + [r]) == b[..q + 1]
  {
    hide RowBytes, RowsBytes;
    RowsAppend(rows, r);
    assert b[..q + 1] == b[..p + 1] + b[p + 1..q + 1];
  }

  /** The parser stands at `pointer`, has read `rows`, and y announces the next row. */
  predicate Reading(ts: bv8, t0: bv8, rows: seq<Row>, check: bool, b: seq<bv8>, y: bv8, pointer: nat) {
    && Open(t0, rows) && y == Indicator(t0, rows, |rows|) && check == WantsCheck(rows)
    && 1 <= pointer < |b| && Head(ts, t0, rows) == b[..pointer + 1]
    && |rows| + Links(b, pointer, y) < MAX_PROTOCOLS
  }

  lemma Front(b: seq<bv8>)
    requires 2 <= |b| && ChainFits(b)
    ensures Reading(b[0], b[1], [], false, b, b[1], 1)
  {
  }

  lemma HeadAppend(ts: bv8, t0: bv8, rows: seq<Row>, r: Row)
    ensures Head(ts, t0, rows + [r]) == Head(ts, t0, rows) + RowBytes(r)
  {
    hide RowBytes, RowsBytes;
    RowsAppend(rows, r);
  }

  lemma HeadOfNone(ts: bv8, t0: bv8)
    ensures Head(ts, t0, []) == [ts, t0]
  {
  }

  lemma Chained(ts: bv8, t0: bv8, rows: seq<Row>, r: Row, check: bool, b: seq<bv8>, y: bv8, p: nat, q: nat)
    requires Reading(ts, t0, rows, check, b, y, p) && q == p + Announced(y) < |b|
    requires Matches(y, r) && RowBytes(r) == b[p + 1..q + 1]
    ensures Head(ts, t0, rows + [r]) == b[..q + 1]
    ensures Open(t0, rows) && Matches(Indicator(t0, rows, |rows|), r) && check == WantsCheck(rows)
    ensures r.td == Some(b[q]) ==> Reading(ts, t0, rows + [r], NotT0(b[q]), b, b[q], q)
                                   && |rows| + 1 < MAX_PROTOCOLS
  {
    hide Matches, RowBytes, RowsBytes, Announced, Head, Links, Open, NotT0, WantsCheck, Indicator;
    NextHead(ts, t0, rows, r, b, p, q);
    if r.td == Some(b[q]) {
      NextOpen(ts, t0, rows, r);
      MatchesTd(y, r);
      NextLink(b, p, y);
    }
  }

  /** An answer is complete once its tail follows the last row. */
  lemma Finished(a: Answer, front: seq<Row>, last: Row, b: seq<bv8>, p: nat)
    requires a.rows == front + [last] && |front| < MAX_PROTOCOLS
    requires Open(a.t0, front) && Matches(Indicator(a.t0, front, |front|), last) && last.td.None?
    requires p < |b| && Head(a.ts, a.t0, a.rows) == b[..p + 1]
    requires p + Historical(a.t0) + One(WantsCheck(front)) < |b|
    requires a.hb == b[p + 1..p + 1 + Historical(a.t0)]
    requires a.tck == if WantsCheck(front) then Some(b[p + 1 + Historical(a.t0)]) else None
    ensures WellFormed(a) && Print(a) == b[..p + 1 + Historical(a.t0) + One(WantsCheck(front))]
  {
    hide RowBytes, RowsBytes, Matches, Historical;
    assert a.rows[..|a.rows| - 1] == front;
  }

  datatype IByte = IByte(value: bv8, present: bool)

  function Field(b: IByte): Option<bv8> {
    if b.present then Some(b.value) else None
  }

  const OK := 0
  const MALFORMED := 2

  class Atr {
    var length: nat
    var ts: bv8
    var t0: bv8
    const ib: array2<IByte>   // per protocol: TA, TB, TC, TD
    var tck: IByte
    var pn: nat               // number of protocols
    const hb: array<bv8>
    var hbn: nat              // number of historical bytes

    constructor ()
      ensures Shape() && fresh(ib) && fresh(hb)
    {
      ib := new IByte[MAX_PROTOCOLS, 4]((i, j) => IByte(0, false));
      hb := new bv8[MAX_HISTORICAL](_ => 0);
      length, ts, t0, tck, pn, hbn := 0, 0, 0, IByte(0, false), 0, 0;
    }

    predicate Sized() {
      ib.Length0 == MAX_PROTOCOLS && ib.Length1 == 4 && hb.Length == MAX_HISTORICAL
    }

    predicate Shape()
      reads this
    {
      Sized() && pn <= MAX_PROTOCOLS && hbn <= MAX_HISTORICAL
    }

    ghost function RowAt(k: nat): Row
      reads ib
      requires Sized() && k < MAX_PROTOCOLS
    {
      Row(Field(ib[k, 0]), Field(ib[k, 1]), Field(ib[k, 2]), Field(ib[k, 3]))
    }

    ghost function Rows(n: nat): (rows: seq<Row>)
      reads ib
      requires Sized() && n <= MAX_PROTOCOLS
      ensures |rows| == n && forall k | 0 <= k < n :: rows[k] == RowAt(k)
    {
      if n == 0 then [] else Rows(n - 1) + [RowAt(n - 1)]
    }

    lemma OwnTd(k: nat)
      requires Sized() && k < MAX_PROTOCOLS
      ensures RowAt(k).td == Field(ib[k, 3])
    {
    }

    /** The answer that the structure describes. */
    ghost function View(): Answer
      reads this, ib, hb
      requires Shape()
    {
      Answer(ts, t0, Rows(pn), hb[..hbn], Field(tck))
    }

    /** Stores the row that the indicator y announces behind `pointer0` as protocol pn. */
    method ReadRow(b: seq<bv8>, n: nat, y: bv8, pointer0: nat) returns (pointer: nat)
      requires Sized() && n < MAX_PROTOCOLS && pointer0 + Announced(y) < |b|
      modifies ib
      ensures pointer == pointer0 + Announced(y)
      ensures Matches(y, RowAt(n)) && RowBytes(RowAt(n)) == b[pointer0 + 1..pointer + 1]
      ensures RowAt(n).td.Some? ==> RowAt(n).td.value == b[pointer]
      ensures forall k | 0 <= k < MAX_PROTOCOLS && k != n :: RowAt(k) == old(RowAt(k))
    {
      Masks(y);
      Announcement(y);
      hide Announced, Opt, Shows, HasTA, HasTB, HasTC, HasTD;
      pointer := ReadByte(b, n, 0, Shows(y, 0xef), pointer0);
      ghost var p := pointer;
      pointer := ReadByte(b, n, 1, Shows(y, 0xdf), pointer);
      ghost var q := pointer;
      pointer := ReadByte(b, n, 2, Shows(y, 0xbf), pointer);
      FourPieces(b, pointer0, p, q, pointer, pointer + One(Shows(y, 0x7f)));
      pointer := ReadByte(b, n, 3, Shows(y, 0x7f), pointer);
    }

    /** Stores interface byte k of protocol n, if it is present. */
    method ReadByte(b: seq<bv8>, n: nat, k: nat, present: bool, pointer0: nat) returns (pointer: nat)
      requires Sized() && n < MAX_PROTOCOLS && k < 4 && pointer0 + One(present) < |b|
      modifies ib
      ensures pointer == pointer0 + One(present) && ib[n, k].present == present
      ensures present ==> ib[n, k].value == b[pointer]
      ensures Opt(Field(ib[n, k])) == b[pointer0 + 1..pointer + 1]
      ensures forall i, j | 0 <= i < MAX_PROTOCOLS && 0 <= j < 4 && (i != n || j != k) :: ib[i, j] == old(ib[i, j])
    {
      pointer := pointer0;
      if present {
        pointer := pointer + 1;
        ib[n, k] := IByte(b[pointer], true);
      } else {
        ib[n, k] := ib[n, k].(present := false);
      }
    }

    /** Parses an answer to reset.  The array of interface bytes has room for six TD bytes. */
    method InitFromArray(atrBuffer: array<bv8>, length: nat) returns (ret: nat)
      requires Shape() && atrBuffer != hb && length <= MAX_SIZE && length <= atrBuffer.Length
      requires ChainFits(Decoded(atrBuffer[..length]))
      modifies this, ib, hb
      ensures Shape() && (ret == OK || ret == MALFORMED) && (ret == 0 || ret == 2)
      ensures ret == OK ==> WellFormed(View()) && Print(View()) <= Decoded(atrBuffer[..length])
                            && this.length == |Print(View())|
      ensures ret == MALFORMED ==> forall a | WellFormed(a) :: !(Print(a) <= Decoded(atrBuffer[..length]))
    {
      if length < 2 {
        return MALFORMED;
      }
      var b := Convert(atrBuffer, length);
      ret := Parse(b);
    }

    /** Copies the raw bytes, inverting them where the card uses the inverse convention. */
    static method Convert(atrBuffer: array<bv8>, length: nat) returns (b: seq<bv8>)
      requires 0 < length <= MAX_SIZE && length <= atrBuffer.Length
      ensures b == Decoded(atrBuffer[..length])
    {
      var buffer := new bv8[MAX_SIZE];
      if atrBuffer[0] == 0x03 {
        var pointer := 0;
        while pointer < length
          invariant pointer <= length
          invariant forall i | 0 <= i < pointer :: buffer[i] == Decode(atrBuffer[i])
        {
          buffer[pointer] := !InvertByte(atrBuffer[pointer]);
          pointer := pointer + 1;
        }
      } else {
        forall i | 0 <= i < length {
          buffer[i] := atrBuffer[i];
        }
      }
      b := buffer[..length];
    }

    method Parse(b: seq<bv8>) returns (ret: nat)
      requires Shape() && 2 <= |b| && ChainFits(b)
      modifies this, ib, hb
      ensures Shape() && (ret == OK || ret == MALFORMED)
      ensures ret == OK ==> WellFormed(View()) && Print(View()) <= b && length == |Print(View())|
      ensures ret == MALFORMED ==> NoAnswer(b)
    {
      Front(b);
      hide RowsBytes, RowBytes, WellFormed, Print, Reading, Nibble, NotT0, Open;
      hide ChainFits, Links, WantsCheck, Indicator;
      hide Matches, Head, Historical, Atr.RowAt, NoAnswer;
      ts := b[0];
      t0 := b[1];
      hbn := Nibble(t0);
      tck := tck.(present := false);
      var ok, n, pointer := ReadRows(b);
      if !ok {
        return MALFORMED;
      }
      ret := ReadTail(b, n, pointer);
    }

    /** Stores the rows of interface bytes; the last one is row n and ends at `pointer`. */
    method ReadRows(b: seq<bv8>) returns (ok: bool, n: nat, pointer: nat)
      requires Sized() && Reading(ts, t0, [], tck.present, b, t0, 1)
      modifies this`tck, ib
      ensures ok ==> n < MAX_PROTOCOLS && pointer < |b|
      ensures ok ==> Open(t0, Rows(n)) && Matches(Indicator(t0, Rows(n), n), RowAt(n)) && RowAt(n).td.None?
      ensures ok ==> Head(ts, t0, Rows(n) + [RowAt(n)]) == b[..pointer + 1] && tck.present == WantsCheck(Rows(n))
      ensures !ok ==> NoAnswer(b)
    {
      hide RowsBytes, RowBytes, Matches, Announced, WellFormed, Print, Historical, Head, RowAt, Open;
      hide WantsCheck, Links, Indicator, NumIb, NotT0, NoAnswer;
      var y := t0;
      pointer, n, ok := 1, 0, true;
      while pointer < |b|
        invariant n < MAX_PROTOCOLS
        invariant pointer < |b| && Reading(ts, t0, Rows(n), tck.present, b, y, pointer)
        decreases MAX_PROTOCOLS - n
      {
        hide Reading;
        if pointer + NumIb(y) >= |b| {
          RowsMissing(ts, t0, Rows(n), tck.present, b, y, pointer);
          return false, n, pointer;
        }
        ghost var rows, before := Rows(n), pointer;
        pointer := ReadRow(b, n, y, pointer);
        assert Rows(n) == rows && Rows(n + 1) == rows + [RowAt(n)];
        Chained(ts, t0, rows, RowAt(n), tck.present, b, y, before, pointer);
        assert RowAt(n).td == Field(ib[n, 3]) by {
          OwnTd(n);
        }
        if ib[n, 3].present {
          y := b[pointer];
          tck := tck.(present := NotT0(y));
          n := n + 1;
        } else {
          break;
        }
      }
    }

    /** Stores the historical bytes and the check character behind the last row, row n. */
    method ReadTail(b: seq<bv8>, n: nat, pointer0: nat) returns (ret: nat)
      requires Shape() && n < MAX_PROTOCOLS && pointer0 < |b| && hbn == Historical(t0)
      requires Open(t0, Rows(n)) && Matches(Indicator(t0, Rows(n), n), RowAt(n)) && RowAt(n).td.None?
      requires Head(ts, t0, Rows(n) + [RowAt(n)]) == b[..pointer0 + 1]
      requires tck.present == WantsCheck(Rows(n))
      modifies this, hb
      ensures Shape() && (ret == OK || ret == MALFORMED)
      ensures ret == OK ==> WellFormed(View()) && Print(View()) <= b && length == |Print(View())|
      ensures ret == MALFORMED ==> NoAnswer(b)
    {
      hide RowsBytes, RowBytes, Matches, WellFormed, Print, Historical, Head, WantsCheck, Open, RowAt, Indicator;
      hide NoAnswer;
      ghost var front, last := Rows(n), RowAt(n);
      if pointer0 + hbn + One(tck.present) >= |b| {
        TailsMissing(ts, t0, front, last, b);
      }
      pn := n + 1;
      assert Rows(pn) == front + [last];
      ret := TakeTail(b, pointer0, front, last);
    }

    /** Stores historical bytes and check character, if the buffer has room for them. */
    method TakeTail(b: seq<bv8>, pointer0: nat, ghost front: seq<Row>, ghost last: Row) returns (ret: nat)
      requires Shape() && Rows(pn) == front + [last] && |front| < MAX_PROTOCOLS && pointer0 < |b|
      requires Open(t0, front) && Matches(Indicator(t0, front, |front|), last) && last.td.None?
      requires hbn == Historical(t0) && tck.present == WantsCheck(front)
      requires Head(ts, t0, front + [last]) == b[..pointer0 + 1]
      modifies this`tck, this`length, hb
      ensures Shape() && (ret == OK || ret == MALFORMED)
      ensures ret == MALFORMED <==> pointer0 + hbn + One(tck.present) >= |b|
      ensures tck.present == old(tck.present)
      ensures ret == OK ==> WellFormed(View()) && Print(View()) <= b && length == |Print(View())|
    {
      hide RowsBytes, RowBytes, Matches, WellFormed, Print, Historical, Head, WantsCheck, Open, RowAt, Indicator;
      var ok, pointer := StoreTail(b, pointer0);
      if !ok {
        return MALFORMED;
      }
      length := pointer + 1;
      Stored(front, last, b, pointer0);
      ret := OK;
    }

    /** Historical bytes and check character have been stored behind the rows. */
    lemma Stored(front: seq<Row>, last: Row, b: seq<bv8>, pointer0: nat)
      requires Shape() && Rows(pn) == front + [last]
      requires Open(t0, front) && Matches(Indicator(t0, front, |front|), last) && last.td.None?
      requires pointer0 + Historical(t0) + One(WantsCheck(front)) < |b|
      requires Head(ts, t0, front + [last]) == b[..pointer0 + 1] && |front| < MAX_PROTOCOLS
      requires hb[..hbn] == b[pointer0 + 1..pointer0 + 1 + Historical(t0)]
      requires Field(tck) == if WantsCheck(front) then Some(b[pointer0 + 1 + Historical(t0)]) else None
      ensures WellFormed(View()) && Print(View()) <= b
      ensures |Print(View())| == pointer0 + 1 + Historical(t0) + One(WantsCheck(front))
    {
      hide RowsBytes, RowBytes, Matches, WellFormed, Print, Historical, Head, WantsCheck, Open, RowAt, Indicator;
      Finished(View(), front, last, b, pointer0);
    }

    /** Stores the historical bytes and the check character, unless the buffer ends before them. */
    method StoreTail(b: seq<bv8>, pointer0: nat) returns (ok: bool, pointer: nat)
      requires Shape() && pointer0 < |b|
      modifies this`tck, hb
      ensures ok <==> pointer0 + hbn + One(tck.present) < |b|
      ensures tck.present == old(tck.present)
      ensures ok ==> pointer == pointer0 + hbn + One(tck.present) && hb[..hbn] == b[pointer0 + 1..pointer0 + 1 + hbn]
      ensures ok && tck.present ==> tck.value == b[pointer]
    {
      pointer := pointer0;
      if pointer + hbn >= |b| {
        return false, pointer;
      }
      CopyHistorical(b, pointer + 1);
      pointer := pointer + hbn;
      if tck.present {
        if pointer + 1 >= |b| {
          return false, pointer;
        }
        pointer := pointer + 1;
        tck := tck.(value := b[pointer]);
      }
      ok := true;
    }

    method CopyHistorical(b: seq<bv8>, at: nat)
      requires Shape() && at + hbn <= |b|
      modifies hb
      ensures hb[..hbn] == b[at..at + hbn]
    {
      forall i | 0 <= i < hbn {
        hb[i] := b[at + i];
      }
    }

    /** Emits the answer that the structure describes. */
    method GetRaw(buffer: array<bv8>) returns (length: nat)
      requires Shape() && buffer != hb && |Print(View())| <= buffer.Length
      modifies buffer
      ensures length <= buffer.Length && buffer[..length] == Print(View())
    {
      hide RowBytes, RowsBytes, RowAt;
      buffer[0] := ts;
      buffer[1] := t0;
      var j := PutRows(buffer);
      j := PutHistorical(buffer, j);
      j := PutByte(buffer, tck, j);
      length := j;
    }

    /** Appends the interface bytes of all protocols to TS and T0. */
    method PutRows(buffer: array<bv8>) returns (j: nat)
      requires Shape() && |Head(ts, t0, Rows(pn))| <= buffer.Length
      requires 2 <= buffer.Length && buffer[..2] == [ts, t0]
      modifies buffer
      ensures j <= buffer.Length && buffer[..j] == Head(ts, t0, Rows(pn))
    {
      hide Matches, RowBytes, RowsBytes, RowAt, Head;
      HeadOfNone(ts, t0);
      j := 2;
      var i := 0;
      while i < pn
        invariant i <= pn && j <= buffer.Length && buffer[..j] == Head(ts, t0, Rows(i))
      {
        assert Rows(pn)[..i + 1] == Rows(i + 1) == Rows(i) + [RowAt(i)];
        HeadOfRows(ts, t0, Rows(pn), i + 1, Head(ts, t0, Rows(pn)));
        HeadAppend(ts, t0, Rows(i), RowAt(i));
        j := PutRow(buffer, i, j);
        i := i + 1;
      }
    }

    method PutHistorical(buffer: array<bv8>, j0: nat) returns (j: nat)
      requires Shape() && buffer != hb && j0 + hbn <= buffer.Length
      modifies buffer
      ensures j == j0 + hbn && buffer[..j] == old(buffer[..j0]) + hb[..hbn]
    {
      j := j0;
      if hbn > 0 {
        forall k | 0 <= k < hbn {
          buffer[j + k] := hb[k];
        }
        j := j + hbn;
      }
    }

    /** Appends the interface bytes of protocol i that are present. */
    method PutRow(buffer: array<bv8>, i: nat, j0: nat) returns (j: nat)
      requires Sized() && i < MAX_PROTOCOLS && j0 + |RowBytes(RowAt(i))| <= buffer.Length
      modifies buffer
      ensures j == j0 + |RowBytes(RowAt(i))| && buffer[..j] == old(buffer[..j0]) + RowBytes(RowAt(i))
    {
      hide Opt;
      ghost var row := RowAt(i);
      j := PutByte(buffer, ib[i, 0], j0);
      j := PutByte(buffer, ib[i, 1], j);
      j := PutByte(buffer, ib[i, 2], j);
      j := PutByte(buffer, ib[i, 3], j);
      FourAppended(old(buffer[..j0]), Opt(row.ta), Opt(row.tb), Opt(row.tc), Opt(row.td));
    }

    method PutByte(buffer: array<bv8>, b: IByte, j0: nat) returns (j: nat)
      requires j0 + |Opt(Field(b))| <= buffer.Length
      modifies buffer
      ensures j == j0 + |Opt(Field(b))| && buffer[..j] == old(buffer[..j0]) + Opt(Field(b))
    {
      j := j0;
      if b.present {
        buffer[j] := b.value;
        j := j + 1;
      }
    }
  }

  /** What the printer emits is in the direct convention and starts exactly one answer, the one
      that was printed. */
  lemma PrintedIsAccepted(b: seq<bv8>, a: Answer)
    requires WellFormed(a) && Print(a) <= Decoded(b) && ChainFits(Decoded(b))
    ensures Decoded(Print(a)) == Print(a) && ChainFits(Print(a))
    ensures forall c | WellFormed(c) && Print(c) <= Decoded(Print(a)) :: c == a
  {
    hide RowsBytes, WellFormed, Matches;
    var d := Decoded(b);
    assert Print(a)[0] == d[0] && Print(a)[1] == d[1] && Print(a) == d[..|Print(a)|];
    LinksOfPrefix(d, |Print(a)|, 1, d[1]);
    forall c | WellFormed(c) && Print(c) <= Print(a) ensures c == a {
      Unambiguous(a, c, Print(a));
    }
  }

  /** Parsing the printed form of an accepted answer is accepted and yields the same answer. */
  method Reparse(first: Atr, second: Atr, atrBuffer: array<bv8>, length: nat) returns (ret: nat, again: nat)
    requires first.Shape() && second.Shape() && first != second && first.ib != second.ib
    requires first.hb != second.hb && atrBuffer != first.hb && atrBuffer != second.hb
    requires length <= MAX_SIZE && length <= atrBuffer.Length && ChainFits(Decoded(atrBuffer[..length]))
    modifies first, first.ib, first.hb, second, second.ib, second.hb
    ensures first.Shape() && second.Shape()
    ensures ret == OK ==> again == OK && second.View() == first.View() && second.length == first.length
  {
    hide Print, WellFormed, Decoded, ChainFits;
    again := MALFORMED;
    ret := first.InitFromArray(atrBuffer, length);
    if ret == OK {
      ghost var b, a := Decoded(atrBuffer[..length]), first.View();
      PrintedIsAccepted(atrBuffer[..length], a);
      var buffer := new bv8[MAX_SIZE];
      var n := first.GetRaw(buffer);
      again := second.InitFromArray(buffer, n);
      assert WellFormed(a) && Print(a) <= Decoded(buffer[..n]);
    }
  }

  predicate ChainFits(b: seq<bv8>) {
    2 <= |b| ==> Links(b, 1, b[1]) < MAX_PROTOCOLS
  }
}
