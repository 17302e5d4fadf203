/** Seeking by time (zcm/eventlog.c): a bisection over file offsets, with exact fractions. */
module LogSeek {
  import opened Binary
  import opened LogFormat
  import opened EventLog
  import opened LogRuns

  /* ---------- fractions of a file ---------- */

  /** (off_t)(frac * file_len). */
  function OffsetOf(frac: real, len: nat): (off: int) {
    (frac * (len as real)).Floor
  }

  const TOLERANCE: real := 0.000000000001
  const MAX_LEN: nat := 1_000_000_000_000

  lemma Scale(x: real, y: real, len: real)
    requires 0.0 <= len && x <= y
    ensures x * len <= y * len
  {
    assert (y - x) * len >= 0.0;
  }

  lemma OffsetOrder(x: real, y: real, len: nat)
    requires 0.0 <= x <= y <= 1.0
    ensures 0 <= OffsetOf(x, len) <= OffsetOf(y, len) <= len
  {
    Scale(0.0, x, len as real);
    Scale(x, y, len as real);
    Scale(y, 1.0, len as real);
  }

  /** Fractions closer than two tolerances fall at most two bytes apart. */
  lemma OffsetClose(x: real, y: real, len: nat)
    requires 0.0 <= x <= y <= 1.0 && y - x < 2.0 * TOLERANCE && len < MAX_LEN
    ensures OffsetOf(y, len) <= OffsetOf(x, len) + 2
  {
    var l := len as real;
    LenBound(len);
    Scale(y - x, 2.0 * TOLERANCE, l);
    Scale2(l);
    Spread(x, y, l);
    TwoApart(x * l, y * l, (y - x) * l, 2.0 * TOLERANCE * l);
  }

  lemma Spread(x: real, y: real, l: real)
    ensures y * l == x * l + (y - x) * l
  {
  }

  lemma Rest(t: real, l: real)
    ensures l == (1.0 - t) * l + t * l
  {
  }

  lemma TwoApart(a: real, b: real, d: real, e: real)
    requires b == a + d && d <= e <= 2.0
    ensures b.Floor <= a.Floor + 2
  {
    FloorGap(a, b, 2);
  }

  lemma FloorGap(a: real, b: real, d: int)
    requires b <= a + (d as real)
    ensures b.Floor <= a.Floor + d
  {
    assert (a + (d as real)).Floor == a.Floor + d;
  }

  lemma FloorAbove(a: real, n: int)
    requires n as real <= a
    ensures n <= a.Floor
  {
  }

  lemma LenBound(len: nat)
    requires len < MAX_LEN
    ensures 0.0 <= len as real < 1000000000000.0
  {
  }

  lemma Scale2(l: real)
    requires 0.0 <= l <= 1000000000000.0
    ensures TOLERANCE * l <= 1.0 && 2.0 * TOLERANCE * l <= 2.0
  {
  }

  lemma BelowOne(l: real)
    requires 0.0 <= l < 1000000000000.0
    ensures TOLERANCE * l < 1.0
  {
  }

  lemma OffsetFirst(x: real, len: nat)
    requires 0.0 <= x < TOLERANCE && len < MAX_LEN
    ensures OffsetOf(x, len) == 0
  {
    var l := len as real;
    LenBound(len);
    Scale(x, TOLERANCE, l);
    Scale(0.0, x, l);
    BelowOne(l);
  }

  lemma OffsetLast(x: real, len: nat)
    requires 1.0 - TOLERANCE < x <= 1.0 && len < MAX_LEN
    ensures OffsetOf(x, len) >= len - 1
  {
    var l := len as real;
    LenBound(len);
    Scale(1.0 - TOLERANCE, x, l);
    Scale2(l);
    Rest(TOLERANCE, l);
    OneBelow(x * l, (1.0 - TOLERANCE) * l, TOLERANCE * l, l, len);
  }

  lemma OneBelow(a: real, b: real, d: real, l: real, len: nat)
    requires b <= a && l == b + d && d <= 1.0 && l == len as real
    ensures a.Floor >= len - 1
  {
    FloorAbove(a, len - 1);
  }

  /** The width of the bracket after k halvings. */
  function Width(k: nat): (w: real)
    ensures w > 0.0
  {
    if k == 0 then 1.0 else Width(k - 1) / 2.0
  }

  lemma WidthTen(k: nat)
    ensures Width(k + 10) == Width(k) / 1024.0
  {
    assert Width(k + 10) == Width(k + 9) / 2.0 == Width(k + 8) / 4.0 == Width(k + 7) / 8.0 == Width(k + 6) / 16.0;
    assert Width(k + 6) == Width(k + 5) / 2.0 == Width(k + 4) / 4.0 == Width(k + 3) / 8.0 == Width(k + 2) / 16.0;
    assert Width(k + 2) == Width(k + 1) / 2.0 == Width(k) / 4.0;
  }

  /** Forty halvings suffice. */
  lemma WidthSmall()
    ensures Width(40) < TOLERANCE
  {
    WidthTen(0);
    WidthTen(10);
    WidthTen(20);
    WidthTen(30);
  }

  /* ---------- the target ---------- */

  ghost predicate InOrder(es: seq<Event>) {
    && (forall i | 0 <= i < |es| :: es[i].timestamp >= 0)
    && forall i, j | 0 <= i < j < |es| :: es[i].timestamp <= es[j].timestamp
  }

  /** Record i is an exact match, the last record before the target, or the first one after it. */
  ghost predicate Nearest(es: seq<Event>, i: nat, target: int) {
    && i < |es|
    && (|| es[i].timestamp == target
        || (es[i].timestamp < target && i + 1 < |es| && es[i + 1].timestamp > target)
        || (es[i].timestamp > target && (i == 0 || es[i - 1].timestamp < target)))
  }

  lemma StartBefore(es: seq<Event>, offset: nat, i: nat, j: nat)
    requires FirstAt(es, offset, i) && j < i
    ensures Start(es, j) < offset
  {
  }

  lemma StartAfter(es: seq<Event>, offset: nat, i: nat)
    requires FirstAt(es, offset, i) && i < |es|
    ensures Start(es, i) >= offset
  {
  }

  /** Offsets at most two bytes apart reach the same or neighbouring records. */
  lemma Neighbours(es: seq<Event>, x: nat, y: nat, i: nat, j: nat)
    requires x <= y <= x + 2 && FirstAt(es, x, i) && FirstAt(es, y, j) && i <= |es| && j < |es|
    ensures i <= j <= i + 1
  {
    hide LogBytes, Start, FirstAt;
    StartAfter(es, y, j);
    if j < i {
      StartBefore(es, x, i, j);
    } else if i + 1 < j {
      StartAfter(es, x, i);
      StartsApart(es, i, i + 1);
      StartBefore(es, y, j, i + 1);
    }
  }

  /** No record starts in the last byte. */
  lemma TooLate(es: seq<Event>, offset: nat, i: nat)
    requires FirstAt(es, offset, i) && offset + 1 >= |LogBytes(es)|
    ensures i == |es|
  {
    hide LogBytes, Start;
    if i < |es| {
      StartsApart(es, i, |es|);
    }
  }

  lemma FirstOfAll(es: seq<Event>, i: nat)
    requires FirstAt(es, 0, i)
    ensures i == 0
  {
    hide LogBytes, Start, FirstAt;
    if i > 0 {
      StartBefore(es, 0, i, 0);
    }
  }

  /* ---------- the search ---------- */

  /** get_next_event_time: the time of the next record, with the cursor on its start. */
  method GetNextEventTime(log: Log, ghost es: seq<Event>) returns (time: int, ghost i: nat)
    requires AllValid(es) && Unambiguous(es) && log.data == LogBytes(es)
    modifies log
    ensures log.data == old(log.data) && FirstAt(es, old(log.pos), i) && i <= |es|
    ensures if i == |es| then time == -1
            else time == es[i].timestamp && log.pos == Start(es, i) && log.eventcount == es[i].num
  {
    hide Parse, MagicAt, LogBytes, Start, ValidEvent, Get64, FirstAt;
    ghost var from := log.pos;
    var r := log.SyncStream();
    if r != 0 {
      NoneAfter(es, from);
      return -1, |es|;
    }
    ghost var q: nat := log.pos - 4;
    i := FirstMagicRecord(es, from, q);
    TimeStands(es, i);
    var ok, num := log.ReadBytes(8);
    if !ok {
      return -1, i;
    }
    var timestamp: seq<Byte>;
    ok, timestamp := log.ReadBytes(8);
    if !ok {
      return -1, i;
    }
    log.SeekBy(-20);
    log.eventcount := Get64(num);
    return Get64(timestamp), i;
  }

  lemma NoneAfter(es: seq<Event>, from: nat)
    requires NoMagicFrom(LogBytes(es), from)
    ensures FirstAt(es, from, |es|)
  {
    hide MagicAt, LogBytes, Start;
    forall j | 0 <= j < |es|
      ensures Start(es, j) < from
    {
      MagicStands(es, j);
    }
  }

  lemma FirstMagicRecord(es: seq<Event>, from: nat, q: nat) returns (i: nat)
    requires Unambiguous(es) && FirstMagic(LogBytes(es), from, q)
    ensures i < |es| && q == Start(es, i) && FirstAt(es, from, i)
  {
    hide MagicAt, LogBytes, Start;
    i := StartIs(es, q);
    forall j | 0 <= j < i
      ensures Start(es, j) < from
    {
      StartsApart(es, j, i);
      MagicStands(es, j);
    }
  }

  /** A record's number and time stand after its MAGIC. */
  lemma TimeStands(es: seq<Event>, i: nat)
    requires AllValid(es) && i < |es|
    ensures var data, q := LogBytes(es), Start(es, i);
            && q + 20 <= |data| && Get64(data[q + 4..q + 12]) == es[i].num && Get64(data[q + 12..q + 20]) == es[i].timestamp
  {
    LogParses(es, i);
  }

  /** Where probe j lands while every record found so far was before the target. */
  function Probe(j: nat, len: nat): int {
    OffsetOf(1.0 - Width(j), len)
  }

  /** From the offset on there is a record, and the first one is before the target. */
  ghost predicate FoundBefore(es: seq<Event>, offset: int, target: int) {
    exists i: nat :: 0 <= offset && FirstAt(es, offset, i) && i < |es| && es[i].timestamp < target
  }

  /** Some probe lands past the start of the last record while all probes before it found records
      before the target. */
  ghost predicate Overshoots(es: seq<Event>, len: nat, target: int) {
    exists k: nat :: k > 0 && 0 <= Probe(k, len) && FirstAt(es, Probe(k, len), |es|)
                     && forall j: nat | 0 < j < k :: FoundBefore(es, Probe(j, len), target)
  }

  /** Some probe of that path meets a record at or after the target. */
  ghost predicate Reaches(es: seq<Event>, len: nat, target: int) {
    exists k: nat, i: nat :: k > 0 && 0 <= Probe(k, len) && FirstAt(es, Probe(k, len), i) && i < |es| && es[i].timestamp >= target
  }

  lemma FirstAtUnique(es: seq<Event>, offset: nat, i: nat, j: nat)
    requires FirstAt(es, offset, i) && FirstAt(es, offset, j)
    ensures i == j
  {
  }

  lemma FirstAtOrder(es: seq<Event>, x: nat, y: nat, i: nat, j: nat)
    requires x <= y && FirstAt(es, x, i) && FirstAt(es, y, j) && j < |es|
    ensures i <= j
  {
  }

  /** A probe that finds a record at or after the target, the earlier ones having found records before
      it, rules out overshooting. */
  lemma NeverOvershoots(es: seq<Event>, len: nat, target: int, k: nat, i: nat)
    requires k > 0 && 0 <= Probe(k, len) && FirstAt(es, Probe(k, len), i) && i < |es| && es[i].timestamp >= target
    requires forall j: nat | 0 < j < k :: FoundBefore(es, Probe(j, len), target)
    ensures !Overshoots(es, len, target)
  {
    hide FirstAt, Probe;
    if Overshoots(es, len, target) {
      var n: nat :| n > 0 && 0 <= Probe(n, len) && FirstAt(es, Probe(n, len), |es|)
                    && forall j: nat | 0 < j < n :: FoundBefore(es, Probe(j, len), target);
      var m := if n <= k then n else k;
      if n < k || k < n {
        var l: nat :| FirstAt(es, Probe(m, len), l) && l < |es| && es[l].timestamp < target;
        FirstAtUnique(es, Probe(m, len), l, if n < k then |es| else i);
      } else {
        FirstAtUnique(es, Probe(k, len), i, |es|);
      }
    }
  }

  /** zcm_eventlog_seek_to_timestamp: on an unambiguous log in time order it ends; it succeeds exactly
      when a probe at 1/2, 3/4, 7/8, ... of the file meets a record at or after the target, and then
      leaves the cursor on the nearest record. */
  method SeekToTimestamp(log: Log, timestamp: int, ghost es: seq<Event>) returns (r: int)
    requires AllValid(es) && Unambiguous(es) && InOrder(es)
    requires log.data == LogBytes(es) && |log.data| < MAX_LEN
    modifies log
    ensures log.data == old(log.data) && (r == 0 || r == -1)
    ensures r == 0 ==> exists i :: 0 <= i < |es| && log.pos == Start(es, i) && Nearest(es, i, timestamp)
    ensures r == 0 <==> Reaches(es, |log.data|, timestamp)
  {
    hide LogBytes, Start, ValidEvent, AllValid, Unambiguous, FirstAt, OffsetOf, Overshoots, FoundBefore, Reaches;
    ReachesOrOvershoots(es, timestamp);
    var fileLen := |log.data|;
    var frac1: real, frac2: real, prevFrac: real := 0.0, 1.0, -1.0;
    ghost var k, lo: nat, hi: nat := 0, 0, 0;
    while true
      invariant log.data == LogBytes(es)
      invariant 0.0 <= frac1 < frac2 <= 1.0 && 0 <= k <= 40 && frac2 - frac1 == Width(k)
      invariant if k == 0 then prevFrac == -1.0 else prevFrac == frac1 || prevFrac == frac2
      invariant frac1 > 0.0 ==> 0 <= OffsetOf(frac1, fileLen) && FirstAt(es, OffsetOf(frac1, fileLen), lo)
                                && lo < |es| && es[lo].timestamp < timestamp
      invariant frac2 < 1.0 ==> 0 <= OffsetOf(frac2, fileLen) && FirstAt(es, OffsetOf(frac2, fileLen), hi)
                                && hi < |es| && es[hi].timestamp > timestamp
      invariant frac2 == 1.0 ==> frac1 == 1.0 - Width(k)
      invariant frac2 == 1.0 ==> forall j: nat | 0 < j <= k :: FoundBefore(es, Probe(j, fileLen), timestamp)
      invariant frac2 < 1.0 ==> !Overshoots(es, fileLen, timestamp)
      decreases 40 - k
    {
      var frac := 0.5 * (frac1 + frac2);
      OffsetOrder(frac1, frac, fileLen);
      OffsetOrder(frac, frac2, fileLen);
      var offset := OffsetOf(frac, fileLen);
      log.pos := offset;
      var curTime: int;
      ghost var i: nat;
      curTime, i := GetNextEventTime(log, es);
      WidthLarge(k);
      assert frac2 == 1.0 ==> offset == Probe(k + 1, fileLen);
      if frac2 < 1.0 {
        FirstAtOrder(es, offset, OffsetOf(frac2, fileLen), i, hi);
      }
      if curTime < 0 {
        Overshot(es, fileLen, timestamp, k + 1);
        return -1;
      }
      if frac2 == 1.0 {
        if curTime < timestamp {
          FoundOne(es, offset, timestamp, i);
        } else {
          NeverOvershoots(es, fileLen, timestamp, k + 1, i);
        }
      }
      // The exit on frac outside the bracket is never taken with exact fractions.
      assert !(frac > frac2 || frac < frac1 || frac1 >= frac2);
      var df := frac - prevFrac;
      if df < 0.0 {
        df := -df;
      }
      if df < TOLERANCE {
        Converged(es, timestamp, fileLen, frac1, frac2, lo, hi, i);
        return 0;
      }
      if curTime == timestamp {
        return 0;
      }
      if curTime < timestamp {
        frac1 := frac;
        lo := i;
      } else {
        frac2 := frac;
        hi := i;
      }
      prevFrac := frac;
      WidthSmall();
      k := k + 1;
    }
  }

  lemma FoundOne(es: seq<Event>, offset: nat, target: int, i: nat)
    requires FirstAt(es, offset, i) && i < |es| && es[i].timestamp < target
    ensures FoundBefore(es, offset, target)
  {
  }

  lemma Overshot(es: seq<Event>, len: nat, target: int, k: nat)
    requires k > 0 && 0 <= Probe(k, len) && FirstAt(es, Probe(k, len), |es|)
    requires forall j: nat | 0 < j < k :: FoundBefore(es, Probe(j, len), target)
    ensures Overshoots(es, len, target)
  {
  }

  /** Some record is the first one from the offset on, or none is. */
  lemma SomeFirst(es: seq<Event>, offset: nat, n: nat) returns (i: nat)
    requires n <= |es| && forall j | 0 <= j < n :: Start(es, j) < offset
    ensures FirstAt(es, offset, i)
    decreases |es| - n
  {
    if n == |es| || Start(es, n) >= offset {
      i := n;
    } else {
      i := SomeFirst(es, offset, n + 1);
    }
  }

  /** A target later than every record is never sought with success. */
  lemma PastTheEnd(es: seq<Event>, target: int)
    requires forall i | 0 <= i < |es| :: es[i].timestamp < target
    ensures !Reaches(es, |LogBytes(es)|, target)
  {
  }

  /** When the middle of the file lies behind the start of the last record no target is sought with
      success, not even the time of a record. */
  lemma LongLastRecord(es: seq<Event>, target: int)
    requires |LogBytes(es)| < MAX_LEN && forall i | 0 <= i < |es| :: Start(es, i) < Probe(1, |LogBytes(es)|)
    ensures !Reaches(es, |LogBytes(es)|, target)
  {
    hide LogBytes, OffsetOf, Overshoots, Reaches;
    ProbeRange(1, |LogBytes(es)|);
    Overshot(es, |LogBytes(es)|, target, 1);
    ReachesOrOvershoots(es, target);
  }

  /** So on a log of one record every seek fails, that for its own time included. */
  lemma OneRecordFails(e: Event, target: int)
    requires |LogBytes([e])| < MAX_LEN
    ensures !Reaches([e], |LogBytes([e])|, target)
  {
    hide LogBytes, Reaches, Start;
    var len := |LogBytes([e])|;
    StartsApart([e], 0, 1);
    Ends([e]);
    MiddleOf(len);
    LongLastRecord([e], target);
  }

  lemma MiddleOf(len: nat)
    requires len >= 2
    ensures Probe(1, len) >= 1
  {
    assert Width(1) == Width(0) / 2.0 == 0.5;
    FloorAbove(0.5 * (len as real), 1);
  }

  /** The two descriptions of the outcome are each other's negation. */
  lemma ReachesOrOvershoots(es: seq<Event>, target: int)
    requires |LogBytes(es)| < MAX_LEN
    ensures Reaches(es, |LogBytes(es)|, target) <==> !Overshoots(es, |LogBytes(es)|, target)
  {
    if !Reaches(es, |LogBytes(es)|, target) {
      ProbeOn(es, target, 1);
    } else {
      ReachesNotOvershoots(es, target);
    }
  }

  lemma ReachesNotOvershoots(es: seq<Event>, target: int)
    requires |LogBytes(es)| < MAX_LEN && Reaches(es, |LogBytes(es)|, target)
    ensures !Overshoots(es, |LogBytes(es)|, target)
  {
    hide LogBytes, FirstAt, Probe;
    var len := |LogBytes(es)|;
    var k: nat, i: nat :| k > 0 && 0 <= Probe(k, len) && FirstAt(es, Probe(k, len), i) && i < |es| && es[i].timestamp >= target;
    if Overshoots(es, len, target) {
      var n: nat :| n > 0 && 0 <= Probe(n, len) && FirstAt(es, Probe(n, len), |es|)
                    && forall j: nat | 0 < j < n :: FoundBefore(es, Probe(j, len), target);
      if k < n {
        var l: nat :| FirstAt(es, Probe(k, len), l) && l < |es| && es[l].timestamp < target;
        FirstAtUnique(es, Probe(k, len), l, i);
      } else {
        ProbesRise(n, k, len);
        FirstAtOrder(es, Probe(n, len), Probe(k, len), |es|, i);
      }
    }
  }

  lemma ProbesRise(n: nat, k: nat, len: nat)
    requires n <= k
    ensures Probe(n, len) <= Probe(k, len)
  {
    hide OffsetOf, Width;
    WidthDecreases(n, k);
    WidthDecreases(0, n);
    WidthZero();
    OffsetOrder(1.0 - Width(n), 1.0 - Width(k), len);
  }

  lemma WidthZero()
    ensures Width(0) == 1.0
  {
  }

  lemma {:induction false} ProbeOn(es: seq<Event>, target: int, k: nat)
    requires |LogBytes(es)| < MAX_LEN && !Reaches(es, |LogBytes(es)|, target)
    requires 0 < k <= 41 && forall j: nat | 0 < j < k :: FoundBefore(es, Probe(j, |LogBytes(es)|), target)
    ensures Overshoots(es, |LogBytes(es)|, target)
    decreases 41 - k
  {
    hide LogBytes, FirstAt, OffsetOf, Overshoots, FoundBefore, Width;
    var len := |LogBytes(es)|;
    ProbeRange(k, len);
    var i := SomeFirst(es, Probe(k, len), 0);
    if k == 41 { TooLate(es, Probe(k, len), i); }
    if i == |es| {
      Overshot(es, len, target, k);
    } else {
      FoundOne(es, Probe(k, len), target, i);
      ProbeOn(es, target, k + 1);
    }
  }

  lemma ProbeRange(k: nat, len: nat)
    requires len < MAX_LEN
    ensures 0 <= Probe(k, len) && (k == 41 ==> Probe(k, len) + 1 >= len)
  {
    hide OffsetOf;
    WidthDecreases(0, k);
    OffsetOrder(1.0 - Width(k), 1.0, len);
    if k == 41 {
      WidthLarge(40);
      OffsetLast(1.0 - Width(k), len);
    }
  }

  lemma {:induction false} WidthDecreases(k: nat, n: nat)
    requires k <= n
    ensures Width(n) <= Width(k)
  {
    if k < n {
      WidthDecreases(k, n - 1);
    }
  }

  lemma WidthLarge(k: nat)
    ensures Width(k + 1) == Width(k) / 2.0
    ensures k >= 40 ==> Width(k + 1) < TOLERANCE
  {
    if k >= 40 {
      WidthSmall();
      WidthDecreases(40, k + 1);
    }
  }

  /** When the bracket is too narrow to go on, the record found is the nearest one. */
  lemma Converged(es: seq<Event>, target: int, len: nat, frac1: real, frac2: real, lo: nat, hi: nat, i: nat)
    requires InOrder(es) && len == |LogBytes(es)| < MAX_LEN
    requires 0.0 <= frac1 < frac2 <= 1.0 && 0.5 * (frac2 - frac1) < TOLERANCE
    requires frac1 > 0.0 ==> 0 <= OffsetOf(frac1, len) && FirstAt(es, OffsetOf(frac1, len), lo) && lo < |es| && es[lo].timestamp < target
    requires frac2 < 1.0 ==> 0 <= OffsetOf(frac2, len) && FirstAt(es, OffsetOf(frac2, len), hi) && hi < |es| && es[hi].timestamp > target
    requires 0 <= OffsetOf(0.5 * (frac1 + frac2), len) && FirstAt(es, OffsetOf(0.5 * (frac1 + frac2), len), i) && i < |es|
    ensures Nearest(es, i, target) && (frac2 == 1.0 ==> es[i].timestamp >= target)
  {
    hide LogBytes, Start, FirstAt, OffsetOf;
    var frac := 0.5 * (frac1 + frac2);
    var off := OffsetOf(frac, len);
    OffsetOrder(frac1, frac, len);
    OffsetOrder(frac, frac2, len);
    if es[i].timestamp < target {
      if frac2 == 1.0 {
        OffsetLast(frac, len);
        TooLate(es, off, i);
      } else {
        OffsetClose(frac, frac2, len);
        Neighbours(es, off, OffsetOf(frac2, len), i, hi);
      }
    } else if es[i].timestamp > target {
      if frac1 == 0.0 {
        OffsetFirst(frac, len);
        FirstOfAll(es, i);
      } else {
        OffsetClose(frac1, frac, len);
        Neighbours(es, OffsetOf(frac1, len), off, lo, i);
      }
    }
  }
}
