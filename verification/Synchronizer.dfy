/** The synchronizer of zcm/message_tracker.hpp: messages of a first stream wait for one of a second
    stream that is no earlier, and are then handed to the callback with the nearest one. */
module Synchronizer {
  import opened Options
  import opened MessageTracker

  /** The test process makes for one message of the first stream: some arrival is newest, it is no
      earlier than the message, and some buffered one is near enough. */
  ghost predicate Dispatchable(buf2: seq<Msg>, maxTimeErr: nat, m: Msg) {
    buf2 != [] && m.utime <= buf2[|buf2| - 1].utime && Covered(buf2, maxTimeErr, m.utime)
  }

  ghost function Waits(buf2: seq<Msg>, maxTimeErr: nat): Msg -> bool {
    (m: Msg) => !Dispatchable(buf2, maxTimeErr, m)
  }

  /** A pair given to the callback: the second message is near enough and the one that get chooses. */
  ghost predicate Paired(buf2: seq<Msg>, maxTimeErr: nat, m1: Msg, m2: Msg) {
    && Distance(m2.utime, m1.utime) <= maxTimeErr
    && exists k: nat :: Chosen(buf2, m1.utime, k) && buf2[k] == m2
  }

  function Firsts(pairs: seq<(Msg, Msg)>): (r: seq<Msg>)
    ensures |r| == |pairs|
  {
    if pairs == [] then [] else Firsts(pairs[..|pairs| - 1]) + [pairs[|pairs| - 1].0]
  }

  lemma WaitsAt(buf2: seq<Msg>, maxTimeErr: nat, m: Msg)
    ensures Waits(buf2, maxTimeErr)(m) <==> !Dispatchable(buf2, maxTimeErr, m)
    ensures Not(Waits(buf2, maxTimeErr))(m) <==> Dispatchable(buf2, maxTimeErr, m)
  {
  }

  lemma NothingYet(s: seq<Msg>, keep: Msg -> bool)
    ensures Firsts([]) == Filter(s[..0], Not(keep))
  {
  }

  lemma FirstsOne(pairs: seq<(Msg, Msg)>, p: (Msg, Msg))
    ensures Firsts(pairs + [p]) == Firsts(pairs) + [p.0]
  {
    assert (pairs + [p])[..|pairs|] == pairs;
  }

  lemma {:induction false} FirstsConcat(a: seq<(Msg, Msg)>, b: seq<(Msg, Msg)>)
    ensures Firsts(a + b) == Firsts(a) + Firsts(b)
    decreases |b|
  {
    if b == [] {
      assert a + b == a;
    } else {
      var front, last := b[..|b| - 1], b[|b| - 1];
      assert a + b == (a + front) + [last];
      FirstsOne(a + front, last);
      FirstsConcat(a, front);
    }
  }

  /** No waiting message could be dispatched. */
  ghost predicate Quiescent(buf1: seq<Msg>, buf2: seq<Msg>, maxTimeErr: nat) {
    forall i | 0 <= i < |buf1| :: !Dispatchable(buf2, maxTimeErr, buf1[i])
  }

  /** Every pair is near enough. */
  ghost predicate AllNear(maxTimeErr: nat, pairs: seq<(Msg, Msg)>) {
    forall i | 0 <= i < |pairs| :: Distance(pairs[i].1.utime, pairs[i].0.utime) <= maxTimeErr
  }

  lemma MoreNear(maxTimeErr: nat, done: seq<(Msg, Msg)>, buf2: seq<Msg>, pairs: seq<(Msg, Msg)>)
    requires AllNear(maxTimeErr, done)
    requires forall i | 0 <= i < |pairs| :: Paired(buf2, maxTimeErr, pairs[i].0, pairs[i].1)
    ensures AllNear(maxTimeErr, done + pairs)
  {
  }

  lemma Quiescent1(buf1: seq<Msg>, lost: seq<Msg>, stay: seq<Msg>, buf2: seq<Msg>, maxTimeErr: nat, m: Msg)
    requires Quiescent(buf1, buf2, maxTimeErr) && buf1 == lost + stay
    ensures Quiescent(stay + (if Dispatchable(buf2, maxTimeErr, m) then [] else [m]), buf2, maxTimeErr)
  {
    forall i | 0 <= i < |stay| ensures !Dispatchable(buf2, maxTimeErr, stay[i]) {
      assert stay[i] == buf1[|lost| + i];
    }
  }

  lemma Quiescent2(was: seq<Msg>, buf2: seq<Msg>, maxTimeErr: nat)
    ensures Quiescent(Filter(was, Waits(buf2, maxTimeErr)), buf2, maxTimeErr)
  {
    var buf1 := Filter(was, Waits(buf2, maxTimeErr));
    FilterKeeps(was, Waits(buf2, maxTimeErr));
    forall i | 0 <= i < |buf1| ensures !Dispatchable(buf2, maxTimeErr, buf1[i]) {
      assert buf1[i] in buf1;
    }
  }

  /** Every message received is buffered, was given to the callback once, or was evicted. */
  ghost predicate Accounted(received: multiset<Msg>, buf: seq<Msg>, dispatched: seq<(Msg, Msg)>, evicted: multiset<Msg>) {
    received == multiset(buf) + multiset(Firsts(dispatched)) + evicted
  }

  /** What a full buffer drops when a message arrives. */
  function Overflow(buf: seq<Msg>, bufMax: nat): seq<Msg> {
    if |buf| == bufMax && bufMax > 0 then [buf[0]] else []
  }

  /** A buffer after newMsg: what stays, and the new message. */
  lemma Pushed(was: seq<Msg>, bufMax: nat, m: Msg)
    requires 0 < bufMax && |was| <= bufMax
    ensures var lost := Overflow(was, bufMax);
            && |lost| <= |was| && was == lost + was[|lost|..]
            && (if |was| == bufMax then was[1..] else was) + [m] == was[|lost|..] + [m]
            && (was[|lost|..] + [m])[..|was[|lost|..]|] == was[|lost|..] && (was[|lost|..] + [m])[|was[|lost|..]|..] == [m]
  {
  }

  lemma Accounted1(received: multiset<Msg>, lost: seq<Msg>, stay: seq<Msg>, done: seq<(Msg, Msg)>, evicted: multiset<Msg>,
                   m: Msg, pairs: seq<(Msg, Msg)>)
    requires Accounted(received, lost + stay, done, evicted) && (Firsts(pairs) == [] || Firsts(pairs) == [m])
    ensures Accounted(received + multiset{m}, stay + (if Firsts(pairs) == [] then [m] else []), done + pairs, evicted + multiset(lost))
  {
    hide Firsts;
    FirstsConcat(done, pairs);
    assert multiset(lost + stay) == multiset(lost) + multiset(stay);
    if Firsts(pairs) == [] {
      assert Firsts(done) + [] == Firsts(done);
      assert multiset(stay + [m]) == multiset(stay) + multiset{m};
    } else {
      assert stay + [] == stay;
      assert multiset(Firsts(done) + [m]) == multiset(Firsts(done)) + multiset{m};
    }
  }

  lemma Accounted2(received: multiset<Msg>, was: seq<Msg>, done: seq<(Msg, Msg)>, evicted: multiset<Msg>,
                   waits: Msg -> bool, pairs: seq<(Msg, Msg)>)
    requires Accounted(received, was, done, evicted) && Firsts(pairs) == Filter(was, Not(waits))
    ensures Accounted(received, Filter(was, waits), done + pairs, evicted)
  {
    FirstsConcat(done, pairs);
    FilterSplits(was, waits);
    assert multiset(Firsts(done) + Firsts(pairs)) == multiset(Firsts(done)) + multiset(Firsts(pairs));
  }

  /* ---------- what waiting means ---------- */

  /** A message waits while the newest arrival of the second stream is earlier, or while nothing near
      enough is buffered. */
  lemma WaitingExactly(buf2: seq<Msg>, maxTimeErr: nat, m: Msg)
    ensures !Dispatchable(buf2, maxTimeErr, m)
            <==> || buf2 == [] || buf2[|buf2| - 1].utime < m.utime
                 || forall j | 0 <= j < |buf2| :: Distance(buf2[j].utime, m.utime) > maxTimeErr
  {
  }

  lemma AllWait(buf1: seq<Msg>, buf2: seq<Msg>, maxTimeErr: nat)
    requires Quiescent(buf1, buf2, maxTimeErr)
    ensures forall i | 0 <= i < |buf1| ::
              || buf2 == [] || buf2[|buf2| - 1].utime < buf1[i].utime
              || forall j | 0 <= j < |buf2| :: Distance(buf2[j].utime, buf1[i].utime) > maxTimeErr
  {
    hide Dispatchable;
    forall i | 0 <= i < |buf1|
      ensures || buf2 == [] || buf2[|buf2| - 1].utime < buf1[i].utime
              || forall j | 0 <= j < |buf2| :: Distance(buf2[j].utime, buf1[i].utime) > maxTimeErr
    {
      WaitingExactly(buf2, maxTimeErr, buf1[i]);
    }
  }

  /** Times do not go back. */
  ghost predicate InOrder(buf: seq<Msg>) {
    forall i, j | 0 <= i < j < |buf| :: buf[i].utime <= buf[j].utime
  }

  /** If the second stream is in order, a message is dispatched exactly when any buffered one is no earlier
      and one is near enough, as the class is documented. */
  lemma NoEarlier(buf2: seq<Msg>, maxTimeErr: nat, m: Msg)
    requires InOrder(buf2)
    ensures Dispatchable(buf2, maxTimeErr, m)
            <==> (exists j | 0 <= j < |buf2| :: m.utime <= buf2[j].utime) && Covered(buf2, maxTimeErr, m.utime)
  {
    if j :| 0 <= j < |buf2| && m.utime <= buf2[j].utime {
      assert buf2[j].utime <= buf2[|buf2| - 1].utime;
    }
  }

  /** Otherwise a message can wait although a later one is there. */
  lemma OutOfOrderWaits(buf2: seq<Msg>, maxTimeErr: nat, m: Msg)
    requires |buf2| == 2 && buf2[0].utime == 10 && buf2[1].utime == 3 && m.utime == 5 && maxTimeErr == 5
    ensures !Dispatchable(buf2, maxTimeErr, m) && m.utime <= buf2[0].utime && Covered(buf2, maxTimeErr, m.utime)
  {
    assert Distance(buf2[0].utime, m.utime) <= maxTimeErr;
  }

  /** That is why a message waits: as long as the second stream is in order, nothing that arrives after a
      pair was handed over is nearer. */
  lemma LaterNoNearer(buf2: seq<Msg>, later: seq<Msg>, maxTimeErr: nat, m1: Msg, m2: Msg, j: nat)
    requires InOrder(buf2 + later) && Dispatchable(buf2, maxTimeErr, m1) && Paired(buf2, maxTimeErr, m1, m2) && j < |later|
    ensures Distance(m2.utime, m1.utime) <= Distance(later[j].utime, m1.utime)
  {
    hide InOrder, Paired, Covered;
    NewestFirst(buf2, later, j);
    NearestOfAll(buf2, maxTimeErr, m1, m2, |buf2| - 1);
  }

  lemma NewestFirst(buf2: seq<Msg>, later: seq<Msg>, j: nat)
    requires InOrder(buf2 + later) && buf2 != [] && j < |later|
    ensures buf2[|buf2| - 1].utime <= later[j].utime
  {
    var all, n := buf2 + later, |buf2|;
    assert all[n - 1].utime <= all[n + j].utime;
  }

  lemma NearestOfAll(buf2: seq<Msg>, maxTimeErr: nat, m1: Msg, m2: Msg, i: nat)
    requires Paired(buf2, maxTimeErr, m1, m2) && i < |buf2|
    ensures Distance(m2.utime, m1.utime) <= Distance(buf2[i].utime, m1.utime)
  {
    hide Distance;
  }

  class Synchronizer {
    const t1: Tracker
    const t2: Tracker
    var dispatched: seq<(Msg, Msg)>   // what the callback was given, in order
    ghost var received: multiset<Msg> // messages of the first stream that arrived
    ghost var evicted: multiset<Msg>  // and those its full buffer dropped

    /** Between arrivals: no waiting message could be dispatched, and every message of the first stream
        was either dispatched once, or evicted, or still waits; every pair is near enough. */
    ghost predicate Valid()
      reads this, t1, t2
    {
      && t1 != t2 && t1.Valid() && t2.Valid()
      && Quiescent(t1.buf, t2.buf, t2.maxTimeErr)
      && Accounted(received, t1.buf, dispatched, evicted)
      && AllNear(t2.maxTimeErr, dispatched)
    }

    constructor (maxMsgs1: nat, maxTimeErr2: nat, maxMsgs2: nat)
      requires maxMsgs1 > 0 && maxMsgs2 > 0
      ensures Valid() && fresh(t1) && fresh(t2) && dispatched == [] && received == multiset{} && evicted == multiset{}
      ensures t1.bufMax == maxMsgs1 && t2.bufMax == maxMsgs2 && t2.maxTimeErr == maxTimeErr2 && t1.buf == [] && t2.buf == []
    {
      t1 := new Tracker(0, maxMsgs1);
      t2 := new Tracker(maxTimeErr2, maxMsgs2);
      dispatched, received, evicted := [], multiset{}, multiset{};
    }

    /** process: from index `begin` on it hands over every message that can be dispatched, in buffer
        order, and leaves the others in place. */
    method Process(begin: nat) returns (pairs: seq<(Msg, Msg)>)
      requires t1 != t2 && t1.Valid() && begin <= |t1.buf|
      modifies t1`buf, this`dispatched
      ensures t1.Valid() && dispatched == old(dispatched) + pairs
      ensures t1.buf == old(t1.buf)[..begin] + Filter(old(t1.buf)[begin..], Waits(t2.buf, t2.maxTimeErr))
      ensures Firsts(pairs) == Filter(old(t1.buf)[begin..], Not(Waits(t2.buf, t2.maxTimeErr)))
      ensures forall i | 0 <= i < |pairs| :: Paired(t2.buf, t2.maxTimeErr, pairs[i].0, pairs[i].1)
    {
      if t2.buf == [] {
        FilterAll(t1.buf[begin..], Waits(t2.buf, t2.maxTimeErr));
        assert t1.buf[..begin] + t1.buf[begin..] == t1.buf;
        return [];
      }
      pairs := ProcessFrom(begin, t2.buf[|t2.buf| - 1].utime);
    }

    /** The loop of process. */
    method ProcessFrom(begin: nat, t2Utime: nat) returns (pairs: seq<(Msg, Msg)>)
      requires t1 != t2 && t1.Valid() && begin <= |t1.buf| && t2.buf != [] && t2Utime == t2.buf[|t2.buf| - 1].utime
      modifies t1`buf, this`dispatched
      ensures t1.Valid() && dispatched == old(dispatched) + pairs
      ensures t1.buf == old(t1.buf)[..begin] + Filter(old(t1.buf)[begin..], Waits(t2.buf, t2.maxTimeErr))
      ensures Firsts(pairs) == Filter(old(t1.buf)[begin..], Not(Waits(t2.buf, t2.maxTimeErr)))
      ensures forall i | 0 <= i < |pairs| :: Paired(t2.buf, t2.maxTimeErr, pairs[i].0, pairs[i].1)
    {
      hide Dispatchable, Paired, Partly, Reached, Filter, Firsts, Waits, Not;
      ghost var waits := Waits(t2.buf, t2.maxTimeErr);
      ghost var head, tail := t1.buf[..begin], t1.buf[begin..];
      PartlyEnds(head, tail, waits);
      assert head + tail == t1.buf && tail[..|tail|] == tail;
      NothingYet(tail, waits);
      pairs := [];
      var it := begin;
      ghost var j := 0;
      while it < |t1.buf|
        invariant j <= |tail| && t1.Valid() && dispatched == old(dispatched) + pairs
        invariant it == Reached(head, tail, j, waits) && t1.buf == Partly(head, tail, j, waits)
        invariant Firsts(pairs) == Filter(tail[..j], Not(waits))
        invariant forall i | 0 <= i < |pairs| :: Paired(t2.buf, t2.maxTimeErr, pairs[i].0, pairs[i].1)
        decreases |t1.buf| - it
      {
        WaitsAt(t2.buf, t2.maxTimeErr, tail[j]);
        PartlyStep(head, tail, j, waits);
        FilterStep(tail, j, Not(waits));
        j := j + 1;
        var m := t1.buf[it];
        var msg2 := TryDispatch(it, t2Utime);
        if msg2.Some? {
          FirstsOne(pairs, (m, msg2.value));
          pairs := pairs + [(m, msg2.value)];
        } else {
          it := it + 1;
        }
      }
    }

    /** The body of process's loop: hands message `it` over and erases it if it can be dispatched. */
    method TryDispatch(it: nat, t2Utime: nat) returns (msg2: Option<Msg>)
      requires t1 != t2 && it < |t1.buf| && t2.buf != [] && t2Utime == t2.buf[|t2.buf| - 1].utime
      modifies t1`buf, this`dispatched
      ensures msg2.Some? <==> Dispatchable(t2.buf, t2.maxTimeErr, old(t1.buf)[it])
      ensures msg2.Some? ==> Paired(t2.buf, t2.maxTimeErr, old(t1.buf)[it], msg2.value)
      ensures dispatched == old(dispatched) + if msg2.Some? then [(old(t1.buf)[it], msg2.value)] else []
      ensures t1.buf == if msg2.Some? then old(t1.buf)[..it] + old(t1.buf)[it + 1..] else old(t1.buf)
    {
      msg2 := None;
      var t1Utime := t1.buf[it].utime;
      if t1Utime <= t2Utime {
        msg2 := t2.Get(t1Utime);
        if msg2.Some? {
          dispatched := dispatched + [(t1.buf[it], msg2.value)];
          t1.buf := t1.buf[..it] + t1.buf[it + 1..];
        }
      }
    }

    /** A message of the first stream arrives: it alone is looked at. */
    method Handle1(m: Msg) returns (pairs: seq<(Msg, Msg)>)
      requires Valid()
      modifies this, t1`buf
      ensures Valid() && dispatched == old(dispatched) + pairs && received == old(received) + multiset{m}
      ensures evicted == old(evicted) + multiset(Overflow(old(t1.buf), t1.bufMax))
      ensures Firsts(pairs) == if Dispatchable(t2.buf, t2.maxTimeErr, m) then [m] else []
    {
      hide Dispatchable, Paired, Filter, Firsts, Waits, Not, Accounted, Quiescent, AllNear, Overflow;
      ghost var was, lost := t1.buf, Overflow(t1.buf, t1.bufMax);
      Pushed(was, t1.bufMax, m);
      ghost var stay := was[|lost|..];
      evicted := evicted + multiset(lost);
      received := received + multiset{m};
      t1.NewMsg(m);
      JustOne(m, Waits(t2.buf, t2.maxTimeErr));
      WaitsAt(t2.buf, t2.maxTimeErr, m);
      pairs := Process(|t1.buf| - 1);
      MoreNear(t2.maxTimeErr, old(dispatched), t2.buf, pairs);
      Accounted1(old(received), lost, stay, old(dispatched), old(evicted), m, pairs);
      Quiescent1(was, lost, stay, t2.buf, t2.maxTimeErr, m);
    }

    /** A message of the second stream arrives: every waiting message of the first is looked at. */
    method Handle2(m: Msg) returns (pairs: seq<(Msg, Msg)>)
      requires Valid()
      modifies this`dispatched, t1`buf, t2`buf
      ensures Valid() && dispatched == old(dispatched) + pairs
      ensures t2.buf == (if |old(t2.buf)| == t2.bufMax then old(t2.buf)[1..] else old(t2.buf)) + [m]
      ensures t1.buf == Filter(old(t1.buf), Waits(t2.buf, t2.maxTimeErr))
      ensures Firsts(pairs) == Filter(old(t1.buf), Not(Waits(t2.buf, t2.maxTimeErr)))
    {
      hide Dispatchable, Paired, Filter, Firsts, Waits, Not, Accounted, Quiescent, AllNear;
      ghost var was := t1.buf;
      t2.NewMsg(m);
      assert was[..0] == [] && was[0..] == was;
      pairs := Process(0);
      ghost var waits := Waits(t2.buf, t2.maxTimeErr);
      assert [] + Filter(was, waits) == Filter(was, waits);
      Accounted2(received, was, old(dispatched), evicted, waits, pairs);
      Quiescent2(was, t2.buf, t2.maxTimeErr);
      MoreNear(t2.maxTimeErr, old(dispatched), t2.buf, pairs);
    }

    /** One arrival. */
    method Take(a: Arrival)
      requires Valid()
      modifies this, t1`buf, t2`buf
      ensures Valid() && old(dispatched) <= dispatched && old(evicted) <= evicted && received == old(received) + Counted(a)
    {
      hide Dispatchable, Filter, Firsts, Waits, Not, Accounted, Quiescent, AllNear, Overflow;
      match a
      case First(m) => var pairs := Handle1(m);
      case Second(m) => var pairs := Handle2(m);
    }

    /** Any interleaving of arrivals of the two streams. */
    method Run(arrivals: seq<Arrival>)
      requires Valid()
      modifies this, t1`buf, t2`buf
      ensures Valid() && old(dispatched) <= dispatched && old(evicted) <= evicted
      ensures received == old(received) + FirstStream(arrivals)
      ensures forall i | 0 <= i < |t1.buf| ::
                || t2.buf == [] || t2.buf[|t2.buf| - 1].utime < t1.buf[i].utime
                || forall j | 0 <= j < |t2.buf| :: Distance(t2.buf[j].utime, t1.buf[i].utime) > t2.maxTimeErr
    {
      hide Dispatchable, Filter, Firsts, Waits, Not, Accounted, Quiescent, AllNear, Overflow, FirstStream, Counted;
      NoArrivals(arrivals);
      ghost var r0, d0, e0 := received, dispatched, evicted;
      for i := 0 to |arrivals|
        invariant Valid() && d0 <= dispatched && e0 <= evicted
        invariant received == r0 + FirstStream(arrivals[..i])
      {
        ghost var r1, d1, e1 := received, dispatched, evicted;
        Take(arrivals[i]);
        NextArrival(arrivals, i);
        MoreOf(d0, d1, dispatched, e0, e1, evicted, r0, r1, FirstStream(arrivals[..i]), Counted(arrivals[i]));
      }
      assert arrivals[..|arrivals|] == arrivals;
      AllWait(t1.buf, t2.buf, t2.maxTimeErr);
    }
  }

  datatype Arrival = First(m: Msg) | Second(m: Msg)

  function Counted(a: Arrival): multiset<Msg> {
    if a.First? then multiset{a.m} else multiset{}
  }

  function FirstStream(arrivals: seq<Arrival>): multiset<Msg>
    decreases |arrivals|
  {
    if arrivals == [] then multiset{} else FirstStream(arrivals[..|arrivals| - 1]) + Counted(arrivals[|arrivals| - 1])
  }

  lemma NoArrivals(arrivals: seq<Arrival>)
    ensures FirstStream(arrivals[..0]) == multiset{}
  {
  }

  lemma NextArrival(arrivals: seq<Arrival>, i: nat)
    requires i < |arrivals|
    ensures FirstStream(arrivals[..i + 1]) == FirstStream(arrivals[..i]) + Counted(arrivals[i])
  {
    assert arrivals[..i + 1][..i] == arrivals[..i];
  }

  lemma MoreOf<T>(d0: seq<T>, d1: seq<T>, d2: seq<T>, e0: multiset<Msg>, e1: multiset<Msg>, e2: multiset<Msg>,
                  r0: multiset<Msg>, r1: multiset<Msg>, a: multiset<Msg>, b: multiset<Msg>)
    requires d0 <= d1 <= d2 && e0 <= e1 <= e2 && r1 == r0 + a
    ensures d0 <= d2 && e0 <= e2 && r1 + b == r0 + (a + b)
  {
  }

  lemma JustOne(m: Msg, keep: Msg -> bool)
    ensures Filter([m], keep) == (if keep(m) then [m] else []) && Filter([m], Not(keep)) == (if keep(m) then [] else [m])
  {
    assert [m][..0] == [];
  }
}
