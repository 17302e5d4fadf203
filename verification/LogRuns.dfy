/** Runs over whole logs: what was written is read back, backwards as well as forwards. */
module LogRuns {
  import opened Binary
  import opened LogFormat
  import opened EventLog

  /** The events with the numbers that write_event gives them. */
  function Numbered(es: seq<Event>): (ns: seq<Event>)
    ensures |ns| == |es| && forall i | 0 <= i < |es| :: ns[i] == es[i].(num := i)
  {
    seq(|es|, i requires 0 <= i < |es| => es[i].(num := i))
  }

  /** At a record start the next event is that record, even when payloads contain MAGIC. */
  lemma NextAtStart(es: seq<Event>, i: nat, q: nat)
    requires AllValid(es) && i < |es| && FirstRecord(LogBytes(es), Start(es, i), q)
    ensures q == Start(es, i) && Parse(LogBytes(es), q + 4) == Found(es[i], Start(es, i + 1))
  {
    hide Parse, MagicAt, LogBytes, Start, ValidEvent;
    MagicStands(es, i);
    LogParses(es, i);
  }

  /** Writing any valid events to an empty log and reading from its start returns exactly those
      events, numbered from 0, and then nothing. */
  method WriteThenRead(es: seq<Event>) returns (read: seq<Event>, last: ReadResult)
    requires forall i | 0 <= i < |es| :: ValidEvent(es[i].(num := i))
    ensures read == Numbered(es) && last == Null
  {
    hide Parse, MagicAt, LogBytes, Start, ValidEvent, RecordBytes;
    var log := new Log([]);
    ghost var ns := Numbered(es);
    NothingWritten();
    for i := 0 to |es|
      invariant log.data == LogBytes(ns[..i]) && log.pos == |log.data| && log.eventcount == i
    {
      log.WriteEvent(es[i]);
      OneMore(ns, i);
    }
    assert ns[..|es|] == ns;
    log.pos := 0;
    read := [];
    Ends(ns);
    for i := 0 to |es|
      invariant log.data == LogBytes(ns) && log.pos == Start(ns, i) && read == ns[..i]
    {
      MagicStands(ns, i);
      LogParses(ns, i);
      var ev := log.ReadNext();
      ghost var q: nat :| FirstRecord(log.data, Start(ns, i), q) && Parse(log.data, q + 4) == Found(ev.event, log.pos);
      NextAtStart(ns, i, q);
      read := read + [ev.event];
    }
    MagicInside(log.data);
    last := log.ReadNext();
  }

  lemma NothingWritten()
    ensures LogBytes([]) == []
  {
  }

  lemma OneMore(ns: seq<Event>, i: nat)
    requires i < |ns|
    ensures LogBytes(ns[..i + 1]) == LogBytes(ns[..i]) + RecordBytes(ns[i])
  {
    assert ns[..i + 1][..i] == ns[..i];
  }

  lemma Ends(ns: seq<Event>)
    ensures Start(ns, 0) == 0 && Start(ns, |ns|) == |LogBytes(ns)|
  {
    EndStart(ns);
    assert ns[..0] == [];
  }

  /* ---------- unambiguous logs ---------- */

  /** The first record starting at or after an offset. */
  ghost predicate FirstAt(es: seq<Event>, offset: nat, i: nat) {
    i <= |es| && (i < |es| ==> Start(es, i) >= offset) && forall j | 0 <= j < i :: Start(es, j) < offset
  }

  lemma StartIs(es: seq<Event>, q: int) returns (i: nat)
    requires Unambiguous(es) && MagicAt(LogBytes(es), q)
    ensures i < |es| && Start(es, i) == q
  {
    i :| 0 <= i < |es| && Start(es, i) == q;
  }

  /** In an unambiguous log the next event after any offset is that of the first record starting
      there or later. */
  lemma NextFrom(es: seq<Event>, offset: nat, q: nat) returns (i: nat)
    requires AllValid(es) && Unambiguous(es) && FirstRecord(LogBytes(es), offset, q)
    ensures i < |es| && q == Start(es, i) && FirstAt(es, offset, i)
    ensures Parse(LogBytes(es), q + 4) == Found(es[i], Start(es, i + 1))
  {
    hide Parse, MagicAt, LogBytes, Start, ValidEvent;
    i := StartIs(es, q);
    LogParses(es, i);
    forall j | 0 <= j < i
      ensures Start(es, j) < offset
    {
      StartsApart(es, j, i);
      MagicStands(es, j);
      LogParses(es, j);
    }
  }

  lemma NoneFrom(es: seq<Event>, offset: nat)
    requires AllValid(es) && NoRecordFrom(LogBytes(es), offset)
    ensures FirstAt(es, offset, |es|)
  {
    hide Parse, MagicAt, LogBytes, Start, ValidEvent;
    forall j | 0 <= j < |es|
      ensures Start(es, j) < offset
    {
      MagicStands(es, j);
      LogParses(es, j);
    }
  }

  /** read_event_at_offset returns the first record starting at or after the offset. */
  method ReadFrom(es: seq<Event>, log: Log, offset: nat) returns (ev: ReadResult, ghost i: nat)
    requires AllValid(es) && Unambiguous(es) && log.data == LogBytes(es)
    modifies log
    ensures log.data == old(log.data)
    ensures FirstAt(es, offset, i)
    ensures if i == |es| then ev == Null else ev == Read(es[i]) && log.pos == Start(es, i + 1)
  {
    hide Parse, MagicAt, LogBytes, Start, ValidEvent, FirstAt;
    ev := log.ReadAtOffset(offset);
    if ev.Read? {
      ghost var q: nat :| FirstRecord(log.data, offset, q) && Parse(log.data, q + 4) == Found(ev.event, log.pos);
      i := NextFrom(es, offset, q);
    } else {
      NoneFrom(es, offset);
      i := |es|;
    }
  }

  /** From a record boundary the previous event is the record before it. */
  lemma PrevAtStart(es: seq<Event>, i: nat, q: nat)
    requires AllValid(es) && Unambiguous(es) && 0 < i <= |es| && LastRecord(LogBytes(es), Start(es, i), q)
    ensures q == Start(es, i - 1)
  {
    hide Parse, LogBytes, Start, ValidEvent, MagicAt;
    var j := StartIs(es, q);
    if j >= i {
      if j > i {
        StartsApart(es, i, j);
      }
      assert false;
    }
    if j < i - 1 {
      StartsApart(es, j, i - 1);
      StartsApart(es, i - 1, i);
      MagicStands(es, i - 1);
      LogParses(es, i - 1);
      NotAfterMagic(es, i - 1);
      assert false;
    }
  }

  /** In an unambiguous log no MAGIC follows another directly. */
  lemma NotAfterMagic(es: seq<Event>, i: nat)
    requires Unambiguous(es) && i < |es|
    ensures !MagicAt(LogBytes(es), Start(es, i) + 4)
  {
    hide LogBytes, Start, MagicAt;
    if MagicAt(LogBytes(es), Start(es, i) + 4) {
      var j := StartIs(es, Start(es, i) + 4);
      if j < i {
        StartsApart(es, j, i);
      } else if i < j {
        StartsApart(es, i, j);
      }
    }
  }

  lemma SomePrev(es: seq<Event>, i: nat)
    requires AllValid(es) && Unambiguous(es) && 0 < i <= |es|
    ensures !NoRecordBefore(LogBytes(es), Start(es, i))
  {
    hide Parse, LogBytes, Start, ValidEvent, MagicAt;
    StartsApart(es, i - 1, i);
    MagicStands(es, i - 1);
    LogParses(es, i - 1);
    NotAfterMagic(es, i - 1);
  }

  /** One step back: the record before the boundary, and the cursor on its start. */
  method StepBack(es: seq<Event>, log: Log, i: nat) returns (ev: ReadResult)
    requires AllValid(es) && Unambiguous(es) && log.data == LogBytes(es)
    requires 0 < i <= |es| && log.pos == Start(es, i)
    modifies log
    ensures log.data == old(log.data) && log.pos == Start(es, i - 1) && ev == Read(es[i - 1])
  {
    hide Parse, LogBytes, Start, ValidEvent, MagicAt, LastRecord, NoRecordBefore;
    LogEnd(es, i);
    SomePrev(es, i);
    ev := log.ReadPrev();
    PrevAtStart(es, i, log.pos);
    LogParses(es, i - 1);
  }

  lemma LogEnd(es: seq<Event>, i: nat)
    requires i <= |es|
    ensures Start(es, i) <= |LogBytes(es)|
  {
    LogPrefix(es, i);
  }

  /** read_prev from the end yields the records in exact reverse order, then nothing. */
  method ReadBackwards(es: seq<Event>, log: Log) returns (read: seq<Event>, last: ReadResult)
    requires AllValid(es) && Unambiguous(es) && log.data == LogBytes(es) && log.pos == |log.data|
    modifies log
    ensures |read| == |es| && forall k | 0 <= k < |es| :: read[k] == es[|es| - 1 - k]
    ensures last == Null
  {
    hide Parse, LogBytes, Start, ValidEvent, MagicAt, LastRecord, NoRecordBefore;
    read := [];
    Ends(es);
    var i := |es|;
    while i > 0
      invariant 0 <= i <= |es| && log.data == LogBytes(es) && log.pos == Start(es, i)
      invariant |read| == |es| - i && forall k | 0 <= k < |read| :: read[k] == es[|es| - 1 - k]
    {
      var ev := StepBack(es, log, i);
      read := read + [ev.event];
      i := i - 1;
    }
    last := log.ReadPrev();
    BeforeNothing(log.data, last, log.pos);
  }

  lemma BeforeNothing(data: seq<Byte>, ev: ReadResult, pos: nat)
    requires ev.Read? ==> LastRecord(data, 0, pos)
    ensures ev == Null
  {
  }

  /** read_prev followed by read_next at a record boundary returns the same event and restores the
      cursor. */
  method BackAndForth(es: seq<Event>, log: Log, i: nat) returns (back: ReadResult, forth: ReadResult)
    requires AllValid(es) && Unambiguous(es) && log.data == LogBytes(es)
    requires 0 < i <= |es| && log.pos == Start(es, i)
    modifies log
    ensures log.data == old(log.data) && log.pos == old(log.pos) && back == forth == Read(es[i - 1])
  {
    hide Parse, LogBytes, Start, ValidEvent, MagicAt, LastRecord, NoRecordBefore;
    back := StepBack(es, log, i);
    MagicStands(es, i - 1);
    LogParses(es, i - 1);
    forth := log.ReadNext();
    ghost var q: nat :| FirstRecord(log.data, Start(es, i - 1), q) && Parse(log.data, q + 4) == Found(forth.event, log.pos);
    NextAtStart(es, i - 1, q);
  }
}
