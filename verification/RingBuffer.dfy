/** The circular byte buffer of the serial transports (zcm/transport/generic_serial_circ_buff.c),
    and the bounded sequence it stands for. */
module RingBuffer {
  import opened Binary

  /** cb_size, from the two indices it loads. */
  function CbSize(capacity: nat, front: nat, back: nat): int {
    if back >= front then back - front else capacity - (front - back)
  }

  /** The bytes between the indices, oldest first. */
  function Between(data: seq<Byte>, front: nat, back: nat): (r: seq<Byte>)
    requires front < |data| && back < |data|
    ensures |r| == CbSize(|data|, front, back) < |data|
  {
    if front <= back then data[front..back] else data[front..] + data[..back]
  }

  function Min(a: nat, b: nat): nat {
    if a < b then a else b
  }

  /** cb_pop_front moves the front past the first bytes. */
  function FrontAfter(capacity: nat, front: nat, num: nat): int {
    if front + num >= capacity then front + num - capacity else front + num
  }

  lemma PopFrontBetween(data: seq<Byte>, front: nat, back: nat, num: nat)
    requires front < |data| && back < |data| && num <= CbSize(|data|, front, back)
    ensures 0 <= FrontAfter(|data|, front, num) < |data|
    ensures Between(data, FrontAfter(|data|, front, num), back) == Between(data, front, back)[num..]
  {
  }

  /** The bytes up to the end of the array are the oldest; when there are more, they start at 0. */
  lemma FirstPart(data: seq<Byte>, front: nat, back: nat, n: nat)
    requires front < |data| && back < |data| && n <= Min(|data| - front, CbSize(|data|, front, back))
    ensures data[front..front + n] == Between(data, front, back)[..n]
    ensures n == |data| - front ==> FrontAfter(|data|, front, n) == 0
  {
  }

  lemma TwoParts(s: seq<Byte>, m: nat, n: nat)
    requires m + n <= |s|
    ensures s[..m] + s[m..][..n] == s[..m + n] && s[m..][n..] == s[m + n..]
  {
  }

  function BackBefore(capacity: nat, back: nat, num: nat): int {
    if back < num then capacity - (num - back) else back - num
  }

  lemma PopBackBetween(data: seq<Byte>, front: nat, back: nat, num: nat)
    requires front < |data| && back < |data| && num <= CbSize(|data|, front, back)
    ensures 0 <= BackBefore(|data|, back, num) < |data|
    ensures Between(data, front, BackBefore(|data|, back, num))
            == Between(data, front, back)[..CbSize(|data|, front, back) - num]
  {
  }

  /** Writing `bytes` from the back on, as far as they go without wrapping. */
  function Splice(data: seq<Byte>, at: nat, bytes: seq<Byte>): (r: seq<Byte>)
    requires at + |bytes| <= |data|
    ensures |r| == |data|
  {
    data[..at] + bytes + data[at + |bytes|..]
  }

  lemma SpliceNone(data: seq<Byte>, at: nat, bytes: seq<Byte>)
    requires at <= |data|
    ensures Splice(data, at, bytes[..0]) == data
  {
  }

  lemma SpliceOne(data: seq<Byte>, at: nat, bytes: seq<Byte>, i: nat)
    requires at + |bytes| <= |data| && i < |bytes|
    ensures Splice(data, at, bytes[..i + 1]) == Splice(data, at, bytes[..i])[at + i := bytes[i]]
  {
    var now := Splice(data, at, bytes[..i])[at + i := bytes[i]];
    assert bytes[..i + 1] == bytes[..i] + [bytes[i]];
    assert now[..at + i] == data[..at] + bytes[..i];
    assert now[at + i + 1..] == data[at + i + 1..];
    assert now == now[..at + i] + [now[at + i]] + now[at + i + 1..];
  }

  lemma AppendBetween(data: seq<Byte>, front: nat, back: nat, bytes: seq<Byte>)
    requires front < |data| && back + |bytes| <= |data| && back < |data|
    requires |bytes| < |data| - CbSize(|data|, front, back)
    ensures var b := if back + |bytes| == |data| then 0 else back + |bytes|;
            Between(Splice(data, back, bytes), front, b) == Between(data, front, back) + bytes
  {
    hide Splice;
    SpliceParts(data, back, bytes);
    if front <= back { AppendAbove(data, front, back, bytes); } else { AppendBelow(data, front, back, bytes); }
  }

  lemma AppendAbove(data: seq<Byte>, front: nat, back: nat, bytes: seq<Byte>)
    requires front <= back && back + |bytes| <= |data|
    ensures Splice(data, back, bytes)[front..back + |bytes|] == data[front..back] + bytes
  {
    hide Splice;
    SpliceParts(data, back, bytes);
    var after, end := Splice(data, back, bytes), back + |bytes|;
    Middle(after, front, back, end);
    assert after[front..back] == after[..back][front..];
    assert data[front..back] == data[..back][front..];
  }

  lemma AppendBelow(data: seq<Byte>, front: nat, back: nat, bytes: seq<Byte>)
    requires back + |bytes| <= front <= |data|
    ensures var after := Splice(data, back, bytes);
            after[front..] == data[front..] && after[..back + |bytes|] == data[..back] + bytes
  {
    hide Splice;
    SpliceParts(data, back, bytes);
    var after, end := Splice(data, back, bytes), back + |bytes|;
    assert after[front..] == after[end..][front - end..];
    assert data[front..] == data[end..][front - end..];
    Middle(after, 0, back, end);
  }

  lemma SpliceParts(data: seq<Byte>, at: nat, bytes: seq<Byte>)
    requires at + |bytes| <= |data|
    ensures var after, end := Splice(data, at, bytes), at + |bytes|;
            after[..at] == data[..at] && after[at..end] == bytes && after[end..] == data[end..]
  {
  }

  lemma Middle(s: seq<Byte>, a: nat, b: nat, c: nat)
    requires a <= b <= c <= |s|
    ensures s[a..c] == s[a..b] + s[b..c]
  {
  }

  /** Reads of n1 and n2 bytes of what a device offers at two calls, into so much room, with so many places
      to the end of the array: a second read comes only behind that end; two full reads fill the room; and
      of a stream that the device serves over both calls everything that has room is taken. */
  ghost predicate ReadsRight(room: nat, toEnd: nat, in1: seq<Byte>, in2: seq<Byte>, n1: nat, n2: nat) {
    && n1 <= |in1| && n2 <= |in2| && n1 + n2 <= room && (n2 > 0 ==> n1 == toEnd)
    && (|in1| >= room && |in2| >= room ==> n1 + n2 == room)
    && (in2 == in1[n1..] ==> in1[..n1] + in2[..n2] == in1[..Min(|in1|, room)])
  }

  lemma OneRead(room: nat, toEnd: nat, in1: seq<Byte>, in2: seq<Byte>, n: nat)
    requires n == Min(|in1|, room)
    ensures ReadsRight(room, toEnd, in1, in2, n, 0)
  {
  }

  lemma TwoReads(room: nat, toEnd: nat, in1: seq<Byte>, in2: seq<Byte>, n: nat)
    requires toEnd <= room && toEnd <= |in1| && n == Min(|in2|, room - toEnd)
    ensures ReadsRight(room, toEnd, in1, in2, toEnd, n)
  {
    if in2 == in1[toEnd..] { TwoParts(in1, toEnd, n); }
  }

  /** Writes of n1 and n2 bytes of a buffer that holds so many, so many of them before the end of the array. */
  lemma OutAmount(size: nat, contiguous: nat, take1: nat, take2: nat, n1: nat, n2: nat)
    requires contiguous <= size && n1 == Min(take1, contiguous) && n2 == if n1 == contiguous then Min(take2, size - contiguous) else 0
    ensures n1 <= take1 && n2 <= take2
    ensures n1 + n2 == if take1 < contiguous then take1 else contiguous + Min(take2, size - contiguous)
    ensures take1 == n1 + take2 ==> n1 + n2 == Min(take1, size)
  {
  }

  lemma NothingMore(was: seq<Byte>, first: seq<Byte>, in2: seq<Byte>)
    ensures was + first + in2[..0] == was + first
  {
  }

  class Ring {
    var data: array<Byte>
    var capacity: nat
    var front: nat
    var back: nat

    ghost predicate Valid()
      reads this
    {
      capacity > 0 && data.Length == capacity && front < capacity && back < capacity
    }

    ghost function Contents(): (r: seq<Byte>)
      reads this, data
      requires Valid()
      ensures |r| < capacity
    {
      Between(data[..], front, back)
    }

    /** cb_init; a capacity of zero leaves a buffer that must not be used. */
    constructor (size: nat)
      ensures fresh(data) && capacity == size
      ensures size > 0 ==> Valid() && Contents() == []
    {
      capacity := size;
      front := 0;
      back := 0;
      data := new Byte[size](_ => 0);
    }

    /** cb_size */
    method Size() returns (n: nat)
      requires Valid()
      ensures n == |Contents()| <= capacity - 1
    {
      var f := front;
      var b := back;
      if b >= f { n := b - f; } else { n := capacity - (f - b); }
    }

    /** cb_room */
    method Room() returns (n: nat)
      requires Valid()
      ensures n == capacity - 1 - |Contents()|
    {
      var size := Size();
      n := capacity - 1 - size;
    }

    /** cb_push_back; the caller makes sure that there is room. */
    method PushBack(d: Byte)
      requires Valid() && |Contents()| < capacity - 1
      modifies this`back, data
      ensures Valid() && Contents() == old(Contents()) + [d]
    {
      ghost var was := data[..];
      AppendBetween(was, front, back, [d]);
      data[back] := d;
      assert data[..] == Splice(was, back, [d]);
      back := back + 1;
      if back == capacity { back := 0; }
    }

    /** cb_front: the byte `offset` places behind the oldest. */
    method Front(offset: nat) returns (d: Byte)
      requires Valid() && offset < |Contents()|
      ensures d == Contents()[offset]
    {
      var index := front + offset;
      if index >= capacity { index := index - capacity; }
      d := data[index];
    }

    /** cb_pop_front */
    method PopFront(num: nat)
      requires Valid() && num <= |Contents()|
      modifies this`front
      ensures Valid() && Contents() == old(Contents())[num..]
      ensures front == FrontAfter(capacity, old(front), num)
    {
      PopFrontBetween(data[..], front, back, num);
      front := front + num;
      if front >= capacity { front := front - capacity; }
    }

    /** cb_pop_back */
    method PopBack(num: nat)
      requires Valid() && num <= |Contents()|
      modifies this`back
      ensures Valid() && Contents() == old(Contents())[..old(|Contents()|) - num]
    {
      PopBackBetween(data[..], front, back, num);
      if back < num { back := capacity - (num - back); } else { back := back - num; }
    }

    /** How many bytes cb_flush_out hands over when its callback takes at most `take1` bytes of the
        first part and `take2` of the second. */
    ghost function FlushedOut(take1: nat, take2: nat): (n: nat)
      reads this, data
      requires Valid()
      ensures n <= |Contents()|
      ensures take1 >= |Contents()| && take2 >= |Contents()| ==> n == |Contents()|
    {
      var contiguous := Min(capacity - front, |Contents()|);
      if take1 < contiguous then take1 else contiguous + Min(take2, |Contents()| - contiguous)
    }

    /** cb_flush_out: `out` is what the callback took over its one or two calls, n1 and n2 bytes. A second
        call comes only behind the end of the array; a device that takes so many bytes over both calls gets
        them, if they are there. */
    method FlushOut(take1: nat, take2: nat) returns (written: nat, out: seq<Byte>, ghost n1: nat, ghost n2: nat)
      requires Valid()
      modifies this`front
      ensures Valid() && written == |out| == old(FlushedOut(take1, take2))
      ensures out <= old(Contents()) && Contents() == old(Contents())[written..]
      ensures written == n1 + n2 && n1 <= take1 && n2 <= take2 && (n2 > 0 ==> old(front) + n1 == capacity)
      ensures take1 == n1 + take2 ==> written == Min(take1, |old(Contents())|)
    {
      ghost var size, contiguous := |Contents()|, Min(capacity - front, |Contents()|);
      written, out, n1, n2 := WriteParts(take1, take2);
      OutAmount(size, contiguous, take1, take2, n1, n2);
    }

    /** The body of cb_flush_out. */
    method WriteParts(take1: nat, take2: nat) returns (written: nat, out: seq<Byte>, ghost n1: nat, ghost n2: nat)
      requires Valid()
      modifies this`front
      ensures Valid() && written == |out| == n1 + n2
      ensures out <= old(Contents()) && Contents() == old(Contents())[written..]
      ensures var contiguous := Min(capacity - old(front), |old(Contents())|);
              n1 == Min(take1, contiguous) && n2 == if n1 == contiguous then Min(take2, |old(Contents())| - contiguous) else 0
    {
      written, out, n1, n2 := 0, [], 0, 0;
      hide Between, CbSize, FrontAfter;
      ghost var was := Contents();
      var size := Size();
      if size == 0 { return; }
      var contiguous := Min(capacity - front, size);
      var wrapped := size - contiguous;

      out := WritePart(front, Min(take1, contiguous));
      written := |out|;
      n1 := written;
      if written != contiguous || wrapped == 0 { return; }

      TwoParts(was, contiguous, Min(take2, wrapped));
      var more := WritePart(0, Min(take2, wrapped));
      out := out + more;
      n2 := |more|;
      written := written + |more|;
    }

    /** One call of cb_flush_out's callback, which takes n bytes from index `from`, and their removal. */
    method WritePart(from: nat, n: nat) returns (out: seq<Byte>)
      requires Valid() && from == front && n <= Min(capacity - front, |Contents()|)
      modifies this`front
      ensures Valid() && out == old(Contents())[..n] && Contents() == old(Contents())[n..]
      ensures n == capacity - old(front) ==> front == 0
    {
      hide Between, CbSize;
      FirstPart(data[..], front, back, n);
      out := data[from..from + n];
      assert out == data[..][from..from + n];
      PopFront(n);
    }

    /** The callback of cb_flush_in stores `bytes` from index `at` on. */
    method Store(at: nat, bytes: seq<Byte>)
      requires Valid() && at + |bytes| <= capacity
      modifies data
      ensures Valid() && data[..] == Splice(old(data[..]), at, bytes)
    {
      hide Splice;
      ghost var was := data[..];
      SpliceNone(was, at, bytes);
      var i := 0;
      while i < |bytes|
        invariant i <= |bytes|
        invariant data[..] == Splice(was, at, bytes[..i])
      {
        SpliceOne(was, at, bytes, i);
        ghost var now := data[..];
        data[at + i] := bytes[i];
        assert data[..] == now[at + i := bytes[i]];
        i := i + 1;
      }
      assert bytes[..i] == bytes;
    }

    /** How much of `in1` and `in2`, what the device has at the first and at the second call of the
        callback, cb_flush_in reads. */
    ghost function FlushedIn(in1: seq<Byte>, in2: seq<Byte>): (r: seq<Byte>)
      reads this, data
      requires Valid()
      ensures |r| <= capacity - 1 - |Contents()|
    {
      var room := capacity - 1 - |Contents()|;
      var contiguous := if back < front then room else Min(capacity - back, room);
      if |in1| < contiguous then in1 else in1[..contiguous] + in2[..Min(|in2|, room - contiguous)]
    }

    /** cb_flush_in appends n1 bytes of the first read and n2 of the second. */
    method FlushIn(in1: seq<Byte>, in2: seq<Byte>) returns (bytesRead: nat, ghost n1: nat, ghost n2: nat)
      requires Valid()
      modifies this`back, data
      ensures Valid() && Contents() == old(Contents()) + old(FlushedIn(in1, in2))
      ensures bytesRead == n1 + n2 == |old(FlushedIn(in1, in2))|
      ensures ReadsRight(capacity - 1 - old(|Contents()|), capacity - old(back), in1, in2, n1, n2)
      ensures Contents() == old(Contents()) + in1[..n1] + in2[..n2]
    {
      hide Between, Splice, ReadsRight;
      ghost var was, all := Contents(), FlushedIn(in1, in2);
      var room := Room();
      if back < front {
        bytesRead := FlushInOnePart(in1, room);
        n1, n2 := bytesRead, 0;
        OneRead(room, capacity - old(back), in1, in2, n1);
        NothingMore(was, in1[..n1], in2);
        assert all == in1[..n1];
        return;
      }
      bytesRead, n1, n2 := FlushInTwoParts(in1, in2, room);
      assert all == in1[..n1] + in2[..n2];
      assert was + in1[..n1] + in2[..n2] == was + (in1[..n1] + in2[..n2]);
    }

    /** cb_flush_in with the back in front of the front: one read. */
    method FlushInOnePart(in1: seq<Byte>, room: nat) returns (n: nat)
      requires Valid() && back < front && room == capacity - 1 - |Contents()|
      modifies this`back, data
      ensures Valid() && n == Min(|in1|, room) && Contents() == old(Contents()) + in1[..n]
    {
      hide Between, Splice;
      n := Min(|in1|, room);
      AppendBetween(data[..], front, back, in1[..n]);
      Store(back, in1[..n]);
      back := back + n;
    }

    /** The rest of cb_flush_in: up to the end of the array, then from its start. */
    method FlushInTwoParts(in1: seq<Byte>, in2: seq<Byte>, room: nat) returns (bytesRead: nat, ghost n1: nat, ghost n2: nat)
      requires Valid() && front <= back && room == capacity - 1 - |Contents()|
      modifies this`back, data
      ensures Valid() && bytesRead == n1 + n2
      ensures var asked := Min(capacity - old(back), room);
              n1 == Min(|in1|, asked) && n2 == if n1 == asked then Min(|in2|, room - asked) else 0
      ensures ReadsRight(room, capacity - old(back), in1, in2, n1, n2)
      ensures Contents() == old(Contents()) + in1[..n1] + in2[..n2]
    {
      hide Between, Splice, ReadsRight;
      ghost var toEnd := capacity - back;
      ghost var was := Contents();
      var contiguous := Min(capacity - back, room);
      var wrapped := room - contiguous;

      var n := Min(|in1|, contiguous);
      ghost var first := in1[..n];
      AppendBetween(data[..], front, back, first);
      Store(back, in1[..n]);
      bytesRead, n1, n2 := n, n, 0;
      NothingMore(was, first, in2);
      back := back + n;
      if n != contiguous { OneRead(room, toEnd, in1, in2, n); return; }
      if back == capacity { back := 0; }
      assert Contents() == was + first;
      if wrapped == 0 { OneRead(room, toEnd, in1, in2, n); return; }

      n := Min(|in2|, wrapped);
      n2 := n;
      TwoReads(room, toEnd, in1, in2, n);
      AppendBetween(data[..], front, back, in2[..n]);
      Store(back, in2[..n]);
      bytesRead := bytesRead + n;
      back := back + n;
    }

    /** Takes the operations of `ops` one after the other and reports the bytes that entered, left
        or were taken back; an operation whose demands are not met is left out. */
    method Perform(ops: seq<Op>) returns (log: seq<Event>)
      requires Valid()
      modifies this`front, this`back, data
      ensures Valid() && Contents() == Replay(old(Contents()), log)
      ensures AllPossible(capacity, old(Contents()), log)
    {
      hide Between, Splice, AllPossible, Replay;
      log := [];
      ghost var was := Contents();
      NothingYet(capacity, was);
      for i := 0 to |ops|
        invariant Valid() && Contents() == Replay(was, log) && AllPossible(capacity, was, log)
        invariant data == old(data) && capacity == old(capacity)
      {
        var event := PerformOne(ops[i]);
        OneMore(capacity, was, log, event);
        log := log + [event];
      }
    }

    method PerformOne(op: Op) returns (event: Event)
      requires Valid()
      modifies this`front, this`back, data
      ensures Valid() && data == old(data) && capacity == old(capacity)
      ensures Possible(capacity, old(Contents()), event) && Contents() == After(old(Contents()), event)
    {
      hide Between, Splice;
      event := Entered([]);
      ghost var was := Contents();
      var size := Size();
      match op
      case Push(d) =>
        if size < capacity - 1 {
          PushBack(d);
          event := Entered([d]);
        }
      case Pop(num) =>
        if num <= size {
          var out := Peek(num);
          PopFront(num);
          event := Left(out);
        }
      case Unpush(num) =>
        if num <= size {
          PopBack(num);
          event := Retracted(num);
        }
      case In(in1, in2) =>
        ghost var all := FlushedIn(in1, in2);
        var n, _, _ := FlushIn(in1, in2);
        var got := PeekBack(n);
        assert got == all;
        event := Entered(got);
      case Out(take1, take2) =>
        var n, out, _, _ := FlushOut(take1, take2);
        event := Left(out);
    }

    /** The oldest bytes, read one by one with cb_front. */
    method Peek(num: nat) returns (out: seq<Byte>)
      requires Valid() && num <= |Contents()|
      ensures out == Contents()[..num]
    {
      hide Between;
      out := [];
      for i := 0 to num
        invariant out == Contents()[..i]
      {
        var d := Front(i);
        out := out + [d];
      }
    }

    /** The newest bytes. */
    method PeekBack(num: nat) returns (out: seq<Byte>)
      requires Valid() && num <= |Contents()|
      ensures out == Contents()[|Contents()| - num..]
    {
      hide Between;
      var size := Size();
      out := [];
      for i := size - num to size
        invariant out == Contents()[size - num..i]
      {
        var d := Front(i);
        out := out + [d];
      }
    }
  }

  /* ---------- runs ---------- */

  datatype Op =
    | Push(d: Byte)
    | Pop(num: nat)
    | Unpush(num: nat)
    | In(in1: seq<Byte>, in2: seq<Byte>)
    | Out(take1: nat, take2: nat)

  datatype Event =
    | Entered(bytes: seq<Byte>)   // at the back
    | Left(bytes: seq<Byte>)      // from the front
    | Retracted(num: nat)         // from the back

  /** What an event does to a sequence. */
  function After(s: seq<Byte>, event: Event): seq<Byte> {
    match event
    case Entered(bytes) => s + bytes
    case Left(bytes) => if |bytes| <= |s| then s[|bytes|..] else []
    case Retracted(num) => if num <= |s| then s[..|s| - num] else []
  }

  /** The event can happen to a sequence that holds at most capacity - 1 bytes: it stays within the
      bound, and what leaves is at the front. */
  predicate Possible(capacity: nat, s: seq<Byte>, event: Event) {
    && |After(s, event)| < capacity
    && (event.Left? ==> event.bytes <= s)
    && (event.Retracted? ==> event.num <= |s|)
  }

  function Replay(before: seq<Byte>, log: seq<Event>): seq<Byte>
    decreases |log|
  {
    if log == [] then before else After(Replay(before, log[..|log| - 1]), log[|log| - 1])
  }

  predicate AllPossible(capacity: nat, before: seq<Byte>, log: seq<Event>)
    decreases |log|
  {
    log == [] || (AllPossible(capacity, before, log[..|log| - 1]) && Possible(capacity, Replay(before, log[..|log| - 1]), log[|log| - 1]))
  }

  lemma NothingYet(capacity: nat, before: seq<Byte>)
    ensures Replay(before, []) == before && AllPossible(capacity, before, [])
  {
  }

  lemma OneMore(capacity: nat, before: seq<Byte>, log: seq<Event>, event: Event)
    ensures Replay(before, log + [event]) == After(Replay(before, log), event)
    ensures AllPossible(capacity, before, log + [event])
            <==> AllPossible(capacity, before, log) && Possible(capacity, Replay(before, log), event)
  {
    assert (log + [event])[..|log|] == log;
  }

  /** All bytes that left, in order. */
  function AllLeft(log: seq<Event>): seq<Byte>
    decreases |log|
  {
    if log == [] then []
    else AllLeft(log[..|log| - 1]) + (if log[|log| - 1].Left? then log[|log| - 1].bytes else [])
  }

  /** All bytes that entered, in order, less those that were taken back. */
  function AllKept(before: seq<Byte>, log: seq<Event>): seq<Byte>
    decreases |log|
  {
    if log == [] then before
    else
      var kept := AllKept(before, log[..|log| - 1]);
      match log[|log| - 1]
      case Entered(bytes) => kept + bytes
      case Left(_) => kept
      case Retracted(num) => if num <= |kept| then kept[..|kept| - num] else []
  }

  /** First in, first out, over every run: what left followed by what the ring still holds is what
      it held at first followed by what entered and was not taken back. No byte is lost, invented
      or reordered, and none that was taken back had left. */
  lemma {:induction false} FirstInFirstOut(capacity: nat, before: seq<Byte>, log: seq<Event>)
    requires AllPossible(capacity, before, log)
    ensures AllLeft(log) + Replay(before, log) == AllKept(before, log)
    decreases |log|
  {
    if log != [] {
      var rest, event := log[..|log| - 1], log[|log| - 1];
      FirstInFirstOut(capacity, before, rest);
      OneEvent(capacity, AllLeft(rest), Replay(before, rest), event);
    }
  }

  lemma OneEvent(capacity: nat, left: seq<Byte>, held: seq<Byte>, event: Event)
    requires Possible(capacity, held, event)
    ensures event.Entered? ==> left + After(held, event) == left + held + event.bytes
    ensures event.Left? ==> left + event.bytes + After(held, event) == left + held
    ensures event.Retracted? ==> left + After(held, event) == (left + held)[..|left + held| - event.num]
  {
    match event
    case Entered(bytes) => assert left + (held + bytes) == left + held + bytes;
    case Left(bytes) =>
      var rest := held[|bytes|..];
      assert held == bytes + rest;
      assert left + bytes + rest == left + (bytes + rest);
    case Retracted(num) =>
  }

  /* ---------- cb_size under interruption ---------- */

  /** The index pairs another context can see while an operation runs, one per store. */
  function PushTrace(capacity: nat, front: nat, back: nat): (r: seq<(nat, nat)>) {
    [(front, back), (front, back + 1), (front, if back + 1 == capacity then 0 else back + 1)]
  }

  function PopTrace(capacity: nat, front: nat, back: nat, num: nat): (r: seq<(nat, nat)>) {
    var moved := front + num;
    [(front, back), (moved, back), (if moved >= capacity then moved - capacity else moved, back)]
  }

  /** cb_size with its load of front at time i and its load of back at time j. */
  function SizeSeen(capacity: nat, trace: seq<(nat, nat)>, i: nat, j: nat): int
    requires i < |trace| && j < |trace|
  {
    CbSize(capacity, trace[i].0, trace[j].1)
  }

  /** Interrupted anywhere by a push, cb_size still gives the size before or after it. */
  lemma SizeDuringPush(capacity: nat, front: nat, back: nat, i: nat, j: nat)
    requires front < capacity && back < capacity && CbSize(capacity, front, back) < capacity - 1
    requires i <= j < 3
    ensures SizeSeen(capacity, PushTrace(capacity, front, back), i, j)
            in {CbSize(capacity, front, back), CbSize(capacity, front, back) + 1}
  {
  }

  /** Interrupted anywhere by a pop, cb_size still gives the size before or after it. */
  lemma SizeDuringPop(capacity: nat, front: nat, back: nat, num: nat, i: nat, j: nat)
    requires front < capacity && back < capacity && num <= CbSize(capacity, front, back)
    requires i <= j < 3
    ensures SizeSeen(capacity, PopTrace(capacity, front, back, num), i, j)
            in {CbSize(capacity, front, back), CbSize(capacity, front, back) - num}
  {
  }

  /** When a whole pop and then a whole push run between the two loads, the result is a size the
      buffer had exactly if the pop took nothing or emptied a full buffer. */
  lemma SizeAcrossPopAndPush(capacity: nat, front: nat, back: nat, num: nat)
    requires front < capacity && back < capacity && num <= CbSize(capacity, front, back)
    requires CbSize(capacity, front, back) - num < capacity - 1
    ensures var size := CbSize(capacity, front, back);
            var seen := CbSize(capacity, front, if back + 1 == capacity then 0 else back + 1);
            seen in {size, size - num, size - num + 1} <==> num == 0 || num == size == capacity - 1
  {
  }

  /** Two bytes in a buffer of capacity 4: a pop of one and a push between the loads show three bytes,
      while there were two, one and two. */
  lemma SizeNeverHeld()
    ensures CbSize(4, 0, 2) == 2 && CbSize(4, 1, 2) == 1 && CbSize(4, 1, 3) == 2 && CbSize(4, 0, 3) == 3
  {
  }
}
