/** The event log of zcm/eventlog.c: a cursor over a byte file. */
module EventLog {
  import opened Binary
  import opened BitPacker
  import opened LogFormat

  /* ---------- searching for MAGIC ---------- */

  /** A byte of the file, or zero outside [lo, hi). */
  function ByteIn(data: seq<Byte>, i: int, lo: nat, hi: nat): (b: int)
    ensures 0 <= b < 256
  {
    if lo <= i < hi && i < |data| then data[i] else 0
  }

  /** The four bytes from q on, as far as they lie in [lo, hi), as one word: what a scanner of
      [lo, hi) holds in `magic`. */
  function Window(data: seq<Byte>, q: int, lo: nat, hi: nat): (w: int)
    ensures 0 <= w < 0x1_0000_0000
  {
    ByteIn(data, q, lo, hi) * 0x100_0000 + ByteIn(data, q + 1, lo, hi) * 0x1_0000
    + ByteIn(data, q + 2, lo, hi) * 0x100 + ByteIn(data, q + 3, lo, hi)
  }

  lemma WindowMagic(data: seq<Byte>, q: int, lo: nat, hi: nat)
    requires hi <= |data|
    ensures Window(data, q, lo, hi) == MAGIC_WORD <==> lo <= q && q + 4 <= hi && MagicAt(data, q)
  {
    if lo <= q && q + 4 <= hi {
      var s := data[q..q + 4];
      assert s[0] == data[q] && s[1] == data[q + 1] && s[2] == data[q + 2] && s[3] == data[q + 3];
      if s[0] == 0xED && s[1] == 0xA1 && s[2] == 0xDA && s[3] == 0x01 {
        assert s == MAGIC;
      }
    }
  }

  lemma WindowEmpty(data: seq<Byte>, pos: nat)
    ensures Window(data, pos - 4, pos, pos) == 0 && Window(data, pos, pos, pos) == 0
  {
  }

  lemma MagicInside(data: seq<Byte>)
    ensures forall p | MagicAt(data, p) :: 0 <= p && p + 4 <= |data|
  {
  }

  /** magic = (magic << 8) | byte. */
  lemma WindowForward(data: seq<Byte>, lo: nat, pos: nat)
    requires lo <= pos < |data|
    ensures Window(data, pos - 3, lo, pos + 1) == Window(data, pos - 4, lo, pos) % 0x100_0000 * 0x100 + data[pos]
  {
    var a, b, c, d := ByteIn(data, pos - 4, lo, pos), ByteIn(data, pos - 3, lo, pos), ByteIn(data, pos - 2, lo, pos), ByteIn(data, pos - 1, lo, pos);
    DropTop(a, b * 0x1_0000 + c * 0x100 + d);
  }

  lemma DropTop(a: nat, r: nat)
    requires r < 0x100_0000
    ensures (a * 0x100_0000 + r) % 0x100_0000 == r
  {
  }

  /** magic = (magic >> 8) | (byte << 24). */
  lemma WindowBackward(data: seq<Byte>, pos: nat, hi: nat)
    requires pos < hi <= |data|
    ensures Window(data, pos, pos, hi) == Window(data, pos + 1, pos + 1, hi) / 0x100 + 0x100_0000 * (data[pos] as int)
  {
  }

  /** q is the first MAGIC at or after pos. */
  ghost predicate FirstMagic(data: seq<Byte>, pos: nat, q: nat) {
    pos <= q && MagicAt(data, q) && forall p | pos <= p < q :: !MagicAt(data, p)
  }

  ghost predicate NoMagicFrom(data: seq<Byte>, pos: nat) {
    forall p | pos <= p :: !MagicAt(data, p)
  }

  /** q is the last MAGIC that ends before the byte in front of the cursor: the scanner skips one
      byte before it starts. */
  ghost predicate LastMagic(data: seq<Byte>, pos: nat, q: nat) {
    q + 5 <= pos && MagicAt(data, q) && forall p | q < p && p + 5 <= pos :: !MagicAt(data, p)
  }

  ghost predicate NoMagicBefore(data: seq<Byte>, pos: nat) {
    forall p | 0 <= p && p + 5 <= pos :: !MagicAt(data, p)
  }

  lemma MagicByte(data: seq<Byte>, q: int)
    requires MagicAt(data, q)
    ensures data[q] == 0xED
  {
    assert data[q..q + 4][0] == data[q];
  }

  /** MAGIC does not overlap itself. */
  lemma NoOverlap(data: seq<Byte>, p: int, q: int)
    requires MagicAt(data, p) && p < q < p + 4
    ensures !MagicAt(data, q)
  {
    var s := data[p..p + 4];
    assert s[q - p] == data[q] != 0xED;
    if MagicAt(data, q) {
      MagicByte(data, q);
    }
  }

  /** q is the first MAGIC at or after pos that a complete event follows. */
  ghost predicate FirstRecord(data: seq<Byte>, pos: nat, q: nat) {
    && pos <= q && MagicAt(data, q) && Parse(data, q + 4).Found?
    && forall p | pos <= p < q && MagicAt(data, p) :: Parse(data, p + 4).NoEvent?
  }

  ghost predicate NoRecordFrom(data: seq<Byte>, pos: nat) {
    forall p | pos <= p && MagicAt(data, p) :: Parse(data, p + 4).NoEvent?
  }

  /** A complete event follows the MAGIC at q, and none follows a later one in reach of a backward
      scan from pos; a MAGIC directly in front of another is out of reach. */
  ghost predicate LastRecord(data: seq<Byte>, pos: nat, q: nat) {
    && q + 5 <= pos && MagicAt(data, q) && Parse(data, q + 4).Found?
    && forall p | q < p && p + 5 <= pos && MagicAt(data, p) && !MagicAt(data, p + 4) :: Parse(data, p + 4).NoEvent?
  }

  ghost predicate NoRecordBefore(data: seq<Byte>, pos: nat) {
    forall p | 0 <= p && p + 5 <= pos && MagicAt(data, p) && !MagicAt(data, p + 4) :: Parse(data, p + 4).NoEvent?
  }

  /* ---------- the log ---------- */

  datatype ReadResult = Null | Read(event: Event)

  class Log {
    /** The file's bytes. */
    var data: seq<Byte>
    /** The file's cursor; seeking past the end is allowed. */
    var pos: nat
    var eventcount: int

    constructor (contents: seq<Byte>)
      ensures data == contents && pos == 0 && eventcount == 0
    {
      data := contents;
      pos := 0;
      eventcount := 0;
    }

    /** fgetc. */
    method GetByte() returns (r: int)
      modifies `pos
      ensures if old(pos) < |data| then r == data[old(pos)] && pos == old(pos) + 1 else r == -1 && pos == old(pos)
    {
      if pos < |data| {
        r := data[pos];
        pos := pos + 1;
      } else {
        r := -1;
      }
    }

    /** fseeko with SEEK_CUR: fails, and leaves the cursor, when the target is negative. */
    method SeekBy(delta: int)
      modifies `pos
      ensures pos == if old(pos) + delta < 0 then old(pos) else old(pos) + delta
    {
      if pos + delta >= 0 {
        pos := pos + delta;
      }
    }

    /** sync_stream: to just after the next MAGIC, or fail at the end of the file. */
    method SyncStream() returns (r: int)
      modifies `pos
      ensures r == 0 || r == -1
      ensures r == 0 ==> pos >= 4 && FirstMagic(data, old(pos), pos - 4)
      ensures r == -1 ==> NoMagicFrom(data, old(pos)) && pos == if old(pos) < |data| then |data| else old(pos)
    {
      hide Window, MagicAt;
      var magic := 0;
      ghost var from := pos;
      WindowEmpty(data, from);
      while true
        invariant from <= pos && (pos <= |data| || pos == from)
        invariant magic == Window(data, pos - 4, from, pos)
        invariant forall p | from <= p && p + 4 <= pos :: !MagicAt(data, p)
        decreases if pos <= |data| then |data| - pos else 0
      {
        var c := GetByte();
        if c < 0 {
          MagicInside(data);
          return -1;
        }
        WindowForward(data, from, pos - 1);
        magic := magic % 0x100_0000 * 0x100 + c;
        WindowMagic(data, pos - 4, from, pos);
        if magic == MAGIC_WORD {
          return 0;
        }
      }
    }

    /** sync_stream_backwards: to just after the previous MAGIC. Fails at the start of the file, and
        returns 1 when the cursor was beyond the end. */
    method SyncStreamBackwards() returns (r: int)
      modifies `pos
      ensures r in {0, 1, -1}
      ensures r == 0 ==> pos >= 4 && LastMagic(data, old(pos), pos - 4)
      ensures r == -1 ==> pos < 2 && pos <= old(pos) && (old(pos) <= |data| + 1 ==> NoMagicBefore(data, old(pos)))
      ensures r == 1 ==> old(pos) > |data| + 1 && pos == old(pos) - 2
    {
      hide Window, MagicAt;
      var magic := 0;
      ghost var from := pos;
      if from > 0 {
        WindowEmpty(data, from - 1);
      }
      MagicInside(data);
      while true
        invariant pos <= from && (pos == from || 0 < pos < from <= |data| + 1)
        invariant from > 0 ==> pos > 0 && magic == Window(data, pos - 1, pos - 1, from - 1)
        invariant forall p | pos - 1 <= p && p + 5 <= from :: !MagicAt(data, p)
        decreases pos
      {
        if pos < 2 {
          return -1;
        }
        SeekBy(-2);
        var c := GetByte();
        if c < 0 {
          return 1;
        }
        WindowBackward(data, pos - 1, from - 1);
        magic := magic / 0x100 + c * 0x100_0000;
        WindowMagic(data, pos - 1, pos - 1, from - 1);
        if magic == MAGIC_WORD {
          break;
        }
      }
      SeekBy(3);
      return 0;
    }

    /** fread: all n bytes, or as many as there are and a failure. */
    method ReadBytes(n: nat) returns (ok: bool, bs: seq<Byte>)
      modifies `pos
      ensures ok == (old(pos) + n <= |data|)
      ensures ok ==> bs == data[old(pos)..old(pos) + n] && pos == old(pos) + n
      ensures !ok ==> pos == if old(pos) < |data| then |data| else old(pos)
    {
      if pos + n <= |data| {
        ok, bs := true, data[pos..pos + n];
        pos := pos + n;
      } else {
        ok, bs := false, [];
        if pos < |data| {
          pos := |data|;
        }
      }
    }

    /** The body of zcm_event_read_helper: one event after a MAGIC. */
    method ReadFields() returns (ev: ReadResult)
      modifies `pos
      ensures ev == match Parse(data, old(pos)) { case NoEvent => Null case Found(e, _) => Read(e) }
      ensures ev.Read? ==> pos == Parse(data, old(pos)).next
      ensures old(pos) <= pos && (old(pos) >= |data| ==> pos == old(pos))
    {
      hide Get64, Get32;
      ghost var at := pos;
      var ok, num := ReadBytes(8);
      if !ok {
        return Null;
      }
      var timestamp: seq<Byte>, channellen: seq<Byte>, datalen: seq<Byte>, channel: seq<Byte>, payload: seq<Byte>;
      ok, timestamp := ReadBytes(8);
      if !ok {
        return Null;
      }
      ok, channellen := ReadBytes(4);
      if !ok {
        return Null;
      }
      ok, datalen := ReadBytes(4);
      if !ok {
        return Null;
      }
      if Get32(channellen) <= 0 || Get32(channellen) >= 1000 || Get32(datalen) < 0 {
        return Null;
      }
      ok, channel := ReadBytes(Get32(channellen));
      if !ok {
        return Null;
      }
      ok, payload := ReadBytes(Get32(datalen));
      if !ok {
        return Null;
      }
      var nextMagic: seq<Byte>;
      ok, nextMagic := ReadBytes(4);
      if ok {
        if nextMagic != MAGIC {
          return Null;
        }
        SeekBy(-4);
      }
      return Read(Event(Get64(num), Get64(timestamp), channel, payload));
    }

    /** zcm_event_read_helper: reads after a MAGIC, then goes back before it, or, when there was no
        event, back to just after it. */
    method ReadHelper(rewindWhenDone: bool) returns (ev: ReadResult)
      requires rewindWhenDone ==> pos >= 4 || pos >= |data|
      modifies `pos
      ensures ev == match Parse(data, old(pos)) { case NoEvent => Null case Found(e, _) => Read(e) }
      ensures rewindWhenDone ==> pos == if old(pos) >= 4 then old(pos) - 4 else old(pos)
      ensures !rewindWhenDone ==> pos == match Parse(data, old(pos)) { case NoEvent => old(pos) case Found(_, next) => next }
    {
      hide Parse;
      var startOffset := pos;
      ev := ReadFields();
      var numRead := pos - startOffset;
      if rewindWhenDone {
        SeekBy(-(numRead + 4));
      } else if ev == Null {
        SeekBy(-numRead);
      }
    }

    /** zcm_eventlog_read_next_event. Terminates on any bytes: every failed attempt moves on. */
    method ReadNext() returns (ev: ReadResult)
      modifies `pos
      ensures ev == Null ==> NoRecordFrom(data, old(pos))
      ensures ev.Read? ==> exists q: nat :: FirstRecord(data, old(pos), q) && Parse(data, q + 4) == Found(ev.event, pos)
    {
      hide Parse, MagicAt;
      ghost var from := pos;
      MagicInside(data);
      ev := Null;
      while ev == Null
        invariant from <= pos
        invariant ev == Null ==> forall p | from <= p < pos && MagicAt(data, p) :: Parse(data, p + 4).NoEvent?
        invariant ev.Read? ==> exists q: nat :: FirstRecord(data, from, q) && Parse(data, q + 4) == Found(ev.event, pos)
        decreases ev == Null, if pos <= |data| then |data| - pos else 0
      {
        ghost var before := pos;
        var r := SyncStream();
        if r != 0 {
          break;
        }
        ghost var q: nat := pos - 4;
        assert FirstMagic(data, before, q);
        assert MagicAt(data, q);
        NoOverlaps(data, q);
        ev := ReadHelper(false);
        ParseForward(data, q + 4);
        if ev.Read? {
          assert FirstRecord(data, from, q);
        }
      }
    }

    /** zcm_eventlog_read_event_at_offset. */
    method ReadAtOffset(offset: nat) returns (ev: ReadResult)
      modifies `pos
      ensures ev == Null ==> NoRecordFrom(data, offset)
      ensures ev.Read? ==> exists q: nat :: FirstRecord(data, offset, q) && Parse(data, q + 4) == Found(ev.event, pos)
    {
      pos := offset;
      ev := ReadNext();
    }

    /** zcm_eventlog_read_prev_event. Terminates on any bytes: every failed attempt moves back. */
    method ReadPrev() returns (ev: ReadResult)
      modifies `pos
      ensures pos <= old(pos)
      ensures ev == Null && old(pos) <= |data| + 1 ==> NoRecordBefore(data, old(pos))
      ensures ev == Null ==> pos < 2
      ensures ev.Read? ==> Parse(data, pos + 4).Found? && Parse(data, pos + 4).event == ev.event
      ensures ev.Read? && old(pos) <= |data| + 1 ==> LastRecord(data, old(pos), pos)
    {
      hide Parse, MagicAt;
      ghost var from := pos;
      MagicInside(data);
      ev := Null;
      while ev == Null
        invariant pos <= from
        invariant ev == Null && from <= |data| + 1 ==>
            forall p | 0 <= p && p + 5 <= from && pos <= p + 4 && MagicAt(data, p) && !MagicAt(data, p + 4) :: Parse(data, p + 4).NoEvent?
        invariant pos == from || from > |data| + 1 || MagicAt(data, pos)
        invariant ev.Read? ==> Parse(data, pos + 4).Found? && Parse(data, pos + 4).event == ev.event
        invariant ev.Read? && from <= |data| + 1 ==> LastRecord(data, from, pos)
        decreases ev == Null, pos
      {
        ghost var before := pos;
        var r := SyncStreamBackwards();
        if r < 0 {
          break;
        }
        ParseBeyond(data, pos);
        ev := ReadHelper(true);
        if r == 0 {
          assert LastMagic(data, before, pos);
          NoOverlaps(data, pos);
        }
      }
    }

    /** zcm_eventlog_write_event, at the end of the file. */
    method WriteEvent(e: Event)
      requires pos == |data|
      modifies this
      ensures data == old(data) + RecordBytes(e.(num := old(eventcount)))
      ensures pos == |data| && eventcount == old(eventcount) + 1
    {
      hide Put64, Put32;
      data := data + MAGIC;
      data := data + Put64(eventcount);
      data := data + Put64(e.timestamp);
      data := data + Put32(|e.channel|);
      data := data + Put32(|e.data|);
      data := data + e.channel;
      data := data + e.data;
      pos := |data|;
      eventcount := eventcount + 1;
    }
  }

  lemma NoOverlaps(data: seq<Byte>, q: int)
    requires MagicAt(data, q)
    ensures forall p | q < p < q + 4 || q - 4 < p < q :: !MagicAt(data, p)
  {
    forall p | q < p < q + 4 || q - 4 < p < q
      ensures !MagicAt(data, p)
    {
      if q < p {
        NoOverlap(data, q, p);
      } else if MagicAt(data, p) {
        NoOverlap(data, p, q);
      }
    }
  }

  lemma ParseBeyond(data: seq<Byte>, at: nat)
    ensures at >= |data| ==> Parse(data, at).NoEvent?
  {
  }

  lemma ParseForward(data: seq<Byte>, at: nat)
    ensures Parse(data, at).Found? ==> at < Parse(data, at).next <= |data|
  {
  }
}
