/** The message tracker and the two-stream synchronizer (zcm/message_tracker.hpp). Times need not be
    monotone in the buffer. */
module MessageTracker {
  import opened Options

  /** A message with the time the tracker reads from it. */
  datatype Msg = Msg(id: nat, utime: nat)

  function Distance(a: nat, b: nat): nat {
    if a <= b then b - a else a - b
  }

  /** Message k of the buffer is the answer to a query for time t: no other is nearer, of two equally
      near ones it is the later, and of several with its time it is the first in the buffer. */
  ghost predicate Chosen(buf: seq<Msg>, t: nat, k: nat) {
    && k < |buf|
    && (forall j | 0 <= j < |buf| :: Distance(buf[k].utime, t) <= Distance(buf[j].utime, t))
    && (forall j | 0 <= j < |buf| :: Distance(buf[k].utime, t) == Distance(buf[j].utime, t) ==> buf[j].utime <= buf[k].utime)
    && (forall j | 0 <= j < k :: buf[j].utime != buf[k].utime)
  }

  /** Some message is within the allowed error of time t. */
  ghost predicate Covered(buf: seq<Msg>, maxTimeErr: nat, t: nat) {
    exists i | 0 <= i < |buf| :: Distance(buf[i].utime, t) <= maxTimeErr
  }

  /** A query has at most one answer. */
  lemma ChosenUnique(buf: seq<Msg>, t: nat, k: nat, l: nat)
    requires Chosen(buf, t, k) && Chosen(buf, t, l)
    ensures k == l
  {
    assert Distance(buf[k].utime, t) == Distance(buf[l].utime, t);
  }

  function Within(a: nat, b: nat): Msg -> bool {
    (m: Msg) => a <= m.utime <= b
  }

  function From(t: nat): Msg -> bool {
    (m: Msg) => t <= m.utime
  }

  function Not(keep: Msg -> bool): Msg -> bool {
    (m: Msg) => !keep(m)
  }

  function Filter(s: seq<Msg>, keep: Msg -> bool): (r: seq<Msg>) {
    if s == [] then []
    else Filter(s[..|s| - 1], keep) + (if keep(s[|s| - 1]) then [s[|s| - 1]] else [])
  }

  lemma FilterOne(s: seq<Msg>, m: Msg, keep: Msg -> bool)
    ensures Filter(s + [m], keep) == Filter(s, keep) + (if keep(m) then [m] else [])
  {
    assert (s + [m])[..|s|] == s;
  }

  lemma FilterStep(s: seq<Msg>, j: nat, keep: Msg -> bool)
    requires j < |s|
    ensures Filter(s[..j + 1], keep) == Filter(s[..j], keep) + (if keep(s[j]) then [s[j]] else [])
    ensures s[j..] == [s[j]] + s[j + 1..]
  {
    assert s[..j + 1] == s[..j] + [s[j]];
    FilterOne(s[..j], s[j], keep);
  }

  /** A buffer that a loop filters in place: `head` is left alone, the first j messages of s are
      filtered, the others are as they were. */
  ghost function Partly(head: seq<Msg>, s: seq<Msg>, j: nat, keep: Msg -> bool): seq<Msg>
    requires j <= |s|
  {
    head + Filter(s[..j], keep) + s[j..]
  }

  /** Where that loop stands. */
  ghost function Reached(head: seq<Msg>, s: seq<Msg>, j: nat, keep: Msg -> bool): nat
    requires j <= |s|
  {
    |head| + |Filter(s[..j], keep)|
  }

  /** It starts behind the head and ends with everything filtered. */
  lemma PartlyEnds(head: seq<Msg>, s: seq<Msg>, keep: Msg -> bool)
    ensures Partly(head, s, 0, keep) == head + s && Reached(head, s, 0, keep) == |head|
    ensures Partly(head, s, |s|, keep) == head + Filter(s, keep)
    ensures forall j | 0 <= j < |s| :: Reached(head, s, j, keep) < |Partly(head, s, j, keep)|
    ensures Reached(head, s, |s|, keep) == |Partly(head, s, |s|, keep)|
  {
    assert s[..|s|] == s;
  }

  /** Erasing the message it stands at or moving on, as the filter says, filters one more. */
  lemma PartlyStep(head: seq<Msg>, s: seq<Msg>, j: nat, keep: Msg -> bool)
    requires j < |s|
    ensures var i, buf := Reached(head, s, j, keep), Partly(head, s, j, keep);
            && i < |buf| && buf[i] == s[j]
            && Reached(head, s, j + 1, keep) == i + (if keep(s[j]) then 1 else 0)
            && Partly(head, s, j + 1, keep) == if keep(s[j]) then buf else buf[..i] + buf[i + 1..]
  {
    FilterStep(s, j, keep);
    var done := head + Filter(s[..j], keep);
    assert Partly(head, s, j, keep) == done + [s[j]] + s[j + 1..];
    if keep(s[j]) {
      assert head + (Filter(s[..j], keep) + [s[j]]) == done + [s[j]];
    }
  }

  lemma {:induction false} FilterAll(s: seq<Msg>, keep: Msg -> bool)
    requires forall i | 0 <= i < |s| :: keep(s[i])
    ensures Filter(s, keep) == s && Filter(s, Not(keep)) == []
    decreases |s|
  {
    if s != [] { FilterAll(s[..|s| - 1], keep); }
  }

  lemma {:induction false} FilterConcat(a: seq<Msg>, b: seq<Msg>, keep: Msg -> bool)
    ensures Filter(a + b, keep) == Filter(a, keep) + Filter(b, keep)
    decreases |b|
  {
    if b == [] {
      assert a + b == a;
    } else {
      var front, last := b[..|b| - 1], b[|b| - 1];
      assert a + b == (a + front) + [last];
      FilterOne(a + front, last, keep);
      FilterConcat(a, front, keep);
    }
  }

  lemma {:induction false} FilterNone(s: seq<Msg>, keep: Msg -> bool)
    requires forall i | 0 <= i < |s| :: !keep(s[i])
    ensures Filter(s, keep) == []
    decreases |s|
  {
    if s != [] { FilterNone(s[..|s| - 1], keep); }
  }

  /** What a filter keeps and what it drops make up the whole. */
  lemma {:induction false} FilterSplits(s: seq<Msg>, keep: Msg -> bool)
    ensures multiset(Filter(s, keep)) + multiset(Filter(s, Not(keep))) == multiset(s)
    decreases |s|
  {
    if s != [] {
      var front, last := s[..|s| - 1], s[|s| - 1];
      assert s == front + [last];
      FilterSplits(front, keep);
    }
  }

  lemma {:induction false} FilterKeeps(s: seq<Msg>, keep: Msg -> bool)
    ensures forall m :: m in Filter(s, keep) <==> m in s && keep(m)
    decreases |s|
  {
    if s != [] {
      FilterKeeps(s[..|s| - 1], keep);
      assert s == s[..|s| - 1] + [s[|s| - 1]];
    }
  }

  class Tracker {
    var buf: seq<Msg>
    const bufMax: nat
    const maxTimeErr: nat

    predicate Valid()
      reads this
    {
      0 < bufMax && |buf| <= bufMax
    }

    constructor (maxTimeErr: nat, maxMsgs: nat)
      requires maxMsgs > 0
      ensures Valid() && buf == [] && this.maxTimeErr == maxTimeErr && bufMax == maxMsgs
    {
      this.maxTimeErr := maxTimeErr;
      bufMax := maxMsgs;
      buf := [];
    }

    /** Tracker::get(utime) with the default interpolation: nothing exactly when no buffered message
        is near enough, else the nearest one. */
    method Get(utime: nat) returns (r: Option<Msg>)
      ensures r.Some? <==> Covered(buf, maxTimeErr, utime)
      ensures r.Some? ==> exists k: nat :: Chosen(buf, utime, k) && buf[k] == r.value
    {
      var k0, k1 := Bracket(utime);
      var m0 := if k0 == |buf| then None else Some(buf[k0]);
      var m1 := if k1 == |buf| then None else Some(buf[k1]);
      if m0.Some? && utime - m0.value.utime > maxTimeErr { m0 := None; }
      if m1.Some? && m1.value.utime - utime > maxTimeErr { m1 := None; }
      if m0.Some? && m1.Some? {
        if m0.value.utime == m1.value.utime {
          assert Chosen(buf, utime, k0);
          return m0;
        }
        r := Some(Interpolate(utime, m0.value, m0.value.utime, m1.value, m1.value.utime));
        assert Chosen(buf, utime, if r == m0 then k0 else k1);
        return;
      }
      if m0.Some? { assert Chosen(buf, utime, k0); return m0; }
      if m1.Some? { assert Chosen(buf, utime, k1); return m1; }
      return None;
    }

    /** The loop of get: the first message with the latest time up to `utime` and the first with the
        earliest time from `utime` on; |buf| stands for none. */
    method Bracket(utime: nat) returns (k0: nat, k1: nat)
      ensures k0 <= |buf| && k1 <= |buf|
      ensures k0 < |buf| ==> buf[k0].utime <= utime && forall j | 0 <= j < k0 :: buf[j].utime != buf[k0].utime
      ensures k1 < |buf| ==> buf[k1].utime >= utime && forall j | 0 <= j < k1 :: buf[j].utime != buf[k1].utime
      ensures forall j | 0 <= j < |buf| && buf[j].utime <= utime :: k0 < |buf| && buf[j].utime <= buf[k0].utime
      ensures forall j | 0 <= j < |buf| && buf[j].utime >= utime :: k1 < |buf| && buf[j].utime >= buf[k1].utime
    {
      k0, k1 := |buf|, |buf|;
      for i := 0 to |buf|
        invariant k0 < i || k0 == |buf|
        invariant k1 < i || k1 == |buf|
        invariant k0 < |buf| ==> buf[k0].utime <= utime && forall j | 0 <= j < k0 :: buf[j].utime != buf[k0].utime
        invariant k1 < |buf| ==> buf[k1].utime >= utime && forall j | 0 <= j < k1 :: buf[j].utime != buf[k1].utime
        invariant forall j | 0 <= j < i && buf[j].utime <= utime :: k0 < |buf| && buf[j].utime <= buf[k0].utime
        invariant forall j | 0 <= j < i && buf[j].utime >= utime :: k1 < |buf| && buf[j].utime >= buf[k1].utime
      {
        var mUtime := buf[i].utime;
        if mUtime <= utime && (k0 == |buf| || mUtime > buf[k0].utime) { k0 := i; }
        if mUtime >= utime && (k1 == |buf| || mUtime < buf[k1].utime) { k1 := i; }
      }
    }

    /** Tracker::getRange: the messages with times in [utimeA, utimeB], in buffer order. */
    method GetRange(utimeA: nat, utimeB: nat) returns (r: seq<Msg>)
      ensures r == Filter(buf, Within(utimeA, utimeB))
    {
      ghost var keep := Within(utimeA, utimeB);
      r := [];
      for i := 0 to |buf|
        invariant r == Filter(buf[..i], keep)
      {
        assert buf[..i + 1] == buf[..i] + [buf[i]];
        FilterOne(buf[..i], buf[i], keep);
        if utimeA <= buf[i].utime && buf[i].utime <= utimeB { r := r + [buf[i]]; }
      }
      assert buf[..|buf|] == buf;
    }

    /** Tracker::expireBefore: drops exactly the older messages, wherever they are. */
    method ExpireBefore(utime: nat) returns (r: nat)
      requires Valid()
      modifies this`buf
      ensures Valid() && buf == Filter(old(buf), From(utime)) && r == |old(buf)| - |buf|
    {
      ghost var was, keep := buf, From(utime);
      r := 0;
      while buf != []
        invariant r <= |was| && buf == was[r..]
        invariant forall i | 0 <= i < r :: was[i].utime < utime
      {
        if buf[0].utime >= utime { break; }
        buf := buf[1..];
        r := r + 1;
      }
      FilterNone(was[..r], keep);
      FilterConcat(was[..r], was[r..], keep);
      assert was[..r] + was[r..] == was;
      var erased := EraseOlder(utime);
      r := r + erased;
    }

    /** The second loop of expireBefore, over the whole buffer. */
    method EraseOlder(utime: nat) returns (r: nat)
      requires Valid()
      modifies this`buf
      ensures Valid() && buf == Filter(old(buf), From(utime)) && r == |old(buf)| - |buf|
    {
      ghost var was, keep := buf, From(utime);
      hide Partly, Reached, Filter;
      PartlyEnds([], was, keep);
      assert [] + was == was && [] + Filter(was, keep) == Filter(was, keep);
      r := 0;
      var i := 0;
      while i < |buf|
        invariant |buf| == |was| - r && i + r <= |was|
        invariant i == Reached([], was, i + r, keep) && buf == Partly([], was, i + r, keep)
        decreases |buf| - i
      {
        PartlyStep([], was, i + r, keep);
        if buf[i].utime < utime {
          buf := buf[..i] + buf[i + 1..];
          r := r + 1;
        } else {
          i := i + 1;
        }
      }
    }

    /** Tracker::newMsg: a full buffer first loses its oldest arrival. */
    method NewMsg(m: Msg)
      requires Valid()
      modifies this`buf
      ensures Valid() && buf == (if |old(buf)| == bufMax then old(buf)[1..] else old(buf)) + [m]
    {
      if |buf| == bufMax { buf := buf[1..]; }
      buf := buf + [m];
    }
  }

  /** The default interpolate: the nearer message, the later one when both are as near. */
  function Interpolate(target: nat, a: Msg, utimeA: nat, b: Msg, utimeB: nat): Msg
    requires utimeA <= target <= utimeB
  {
    if target - utimeA < utimeB - target then a else b
  }
}
