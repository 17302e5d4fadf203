/** The event log's byte format: the integer layer of zcm/util/ioutils.h and the records of
    zcm/eventlog.c. */
module LogFormat {
  import opened Binary
  import opened BitPacker
  import opened PrimArrays

  const INT32: Storage := Storage(32, true)
  const INT64: Storage := Storage(64, true)

  /* ---------- integers ---------- */

  /** fwrite32: network byte order. */
  function Put32(v: int): (bs: seq<Byte>)
    ensures |bs| == 4
  {
    BeBytes(v, 4)
  }

  /** fwrite64: the high half, then the low half. */
  function Put64(v: int): (bs: seq<Byte>)
    ensures |bs| == 8
  {
    Put32(Shr(v, 32)) + Put32(v)
  }

  /** fread32. */
  function Get32(bs: seq<Byte>): int
    requires |bs| == 4
  {
    ToType(BytesNum(bs, false), INT32)
  }

  /** fread64: the halves joined. */
  function Get64(bs: seq<Byte>): int
    requires |bs| == 8
  {
    var v1, v2 := Get32(bs[..4]), Get32(bs[4..]);
    ToType(Or(Shl(Low(v1, 32), 32), Low(v2, 32)), INT64)
  }

  lemma Get32Low(bs: seq<Byte>, v: int)
    requires bs == Put32(v)
    ensures Low(Get32(bs), 32) == Low(v, 32)
  {
    WordRoundTrip(v, 4, false);
    ToTypeLow(BytesNum(bs, false), INT32);
    LowLow(v, 32, 32);
  }

  lemma Get32Put32(v: int)
    requires InType(v, INT32)
    ensures Get32(Put32(v)) == v
  {
    WordRoundTrip(v, 4, false);
    LowLow(v, 32, 32);
    ToTypeCongruent(Low(v, 32), v, INT32);
    ToTypeFits(v, INT32);
  }

  lemma HalvesJoin(v: int)
    ensures Or(Shl(Low(Shr(v, 32), 32), 32), Low(v, 32)) == Low(v, 64)
  {
    hide Low, Shr, Shl, Or, Pow2;
    var hi, lo := Low(Shr(v, 32), 32), Low(v, 32);
    LowUnder(Shr(v, 32), 32);
    LowUnder(v, 32);
    PowPositive(32);
    ShlDigit(hi, 0, 32);
    OrDisjoint(Shl(hi, 32), lo, 32);
    ShrLow(v, 32);
    ShrLow(Shr(v, 32), 32);
    var top := Shr(Shr(v, 32), 32);
    ShlSum(Shl(top, 32), hi, 32);
    ShlAdd(top, 32, 32);
    ShlBound(hi, lo, 32, 32);
    ShlDigit(top, Shl(hi, 32) + lo, 64);
  }

  lemma Get64Put64(v: int)
    requires InType(v, INT64)
    ensures Get64(Put64(v)) == v
  {
    hide Put32, Get32, ToType, Or, InType;
    var bs := Put64(v);
    assert bs[..4] == Put32(Shr(v, 32)) && bs[4..] == Put32(v);
    Get32Low(bs[..4], Shr(v, 32));
    Get32Low(bs[4..], v);
    HalvesJoin(v);
    LowLow(v, 64, 64);
    ToTypeCongruent(Low(v, 64), v, INT64);
    ToTypeFits(v, INT64);
  }

  /** Any four bytes, and any eight, are those of the number that is read from them. */
  lemma Put32Get32(bs: seq<Byte>)
    requires |bs| == 4
    ensures Put32(Get32(bs)) == bs && InType(Get32(bs), INT32)
  {
    hide BeBytes, BytesNum, ToType, InType;
    WordBytesBack(bs, false, INT32);
    ToTypeInType(BytesNum(bs, false), INT32);
  }

  lemma {:induction false} BeBytesLow(v: int, m: nat, n: nat)
    requires 8 * n <= m
    ensures BeBytes(Low(v, m), n) == BeBytes(v, n)
  {
    hide BeBytes, Low, BytesNum;
    LowLow(v, m, 8 * n);
    WordRoundTrip(v, n, false);
    WordRoundTrip(Low(v, m), n, false);
    BytesBack(BeBytes(v, n), false);
    BytesBack(BeBytes(Low(v, m), n), false);
  }

  lemma Put64Get64(bs: seq<Byte>)
    requires |bs| == 8
    ensures Put64(Get64(bs)) == bs && InType(Get64(bs), INT64)
  {
    hide BeBytes, ToType, InType, Low, Or, Shl, Shr, Get32, BytesNum;
    var hi, lo := Low(Get32(bs[..4]), 32), Low(Get32(bs[4..]), 32);
    var x := Or(Shl(hi, 32), lo);
    JoinedHalves(hi, lo);
    ToTypeInType(x, INT64);
    ToTypeLow(x, INT64);
    SameHalves(ToType(x, INT64), x);
    BeBytesLow(Get32(bs[..4]), 32, 4);
    BeBytesLow(Get32(bs[4..]), 32, 4);
    Put32Get32(bs[..4]);
    Put32Get32(bs[4..]);
    assert bs == bs[..4] + bs[4..];
  }

  lemma JoinedHalves(hi: nat, lo: nat)
    requires hi < Pow2(32) && lo < Pow2(32)
    ensures var x := Or(Shl(hi, 32), lo); Shr(x, 32) == hi && BeBytes(x, 4) == BeBytes(lo, 4)
  {
    hide BeBytes, Low, Or, Shl, Shr, Pow2;
    PowPositive(32);
    ShlDigit(hi, 0, 32);
    OrDisjoint(Shl(hi, 32), lo, 32);
    ShlDigit(hi, lo, 32);
    BeBytesLow(Shl(hi, 32) + lo, 32, 4);
  }

  /** Numbers that agree modulo 2^64 have the same bytes in both halves. */
  lemma SameHalves(v: int, x: int)
    requires Low(v, 64) == Low(x, 64)
    ensures Put32(v) == Put32(x) && Put32(Shr(v, 32)) == Put32(Shr(x, 32))
  {
    hide BeBytes, Low, Shr;
    BeBytesLow(v, 64, 4);
    BeBytesLow(x, 64, 4);
    HighHalf(v);
    HighHalf(x);
    BeBytesLow(Shr(v, 32), 32, 4);
    BeBytesLow(Shr(x, 32), 32, 4);
  }

  lemma HighHalf(v: int)
    ensures Low(Shr(v, 32), 32) == Shr(Low(v, 64), 32)
  {
    hide Low, Shr, Shl, Or, Pow2;
    var hi, lo := Low(Shr(v, 32), 32), Low(v, 32);
    LowUnder(Shr(v, 32), 32);
    LowUnder(v, 32);
    PowPositive(32);
    ShlDigit(hi, 0, 32);
    OrDisjoint(Shl(hi, 32), lo, 32);
    HalvesJoin(v);
    ShlDigit(hi, lo, 32);
  }

  /* ---------- records ---------- */

  const MAGIC: seq<Byte> := [0xED, 0xA1, 0xDA, 0x01]
  const MAGIC_WORD: int := 0xEDA1DA01

  datatype Event = Event(num: int, timestamp: int, channel: seq<Byte>, data: seq<Byte>)

  /** The events the reader accepts back; it adds a terminator to the payload, whose length is an int. */
  predicate ValidEvent(e: Event) {
    && InType(e.num, INT64) && InType(e.timestamp, INT64)
    && 0 < |e.channel| < 1000 && |e.data| < INT_MAX
  }

  function Header(e: Event): (bs: seq<Byte>)
    ensures |bs| == 24
  {
    Put64(e.num) + Put64(e.timestamp) + Put32(|e.channel|) + Put32(|e.data|)
  }

  function RecordBytes(e: Event): (bs: seq<Byte>)
    ensures |bs| == 28 + |e.channel| + |e.data|
  {
    MAGIC + Header(e) + e.channel + e.data
  }

  function LogBytes(es: seq<Event>): seq<Byte> {
    if es == [] then [] else LogBytes(es[..|es| - 1]) + RecordBytes(es[|es| - 1])
  }

  /** Where record i starts. */
  function Start(es: seq<Event>, i: nat): nat
    requires i <= |es|
  {
    |LogBytes(es[..i])|
  }

  lemma {:induction false} LogPrefix(es: seq<Event>, i: nat)
    requires i <= |es|
    ensures Start(es, i) <= |LogBytes(es)| && LogBytes(es)[..Start(es, i)] == LogBytes(es[..i])
    decreases |es| - i
  {
    hide RecordBytes;
    if i == |es| {
      assert es[..i] == es;
    } else {
      LogPrefix(es, i + 1);
      assert es[..i + 1][..i] == es[..i];
    }
  }

  /** Record i stands at its start. */
  lemma RecordStands(es: seq<Event>, i: nat)
    requires i < |es|
    ensures Start(es, i + 1) == Start(es, i) + |RecordBytes(es[i])| <= |LogBytes(es)|
    ensures LogBytes(es)[Start(es, i)..Start(es, i + 1)] == RecordBytes(es[i])
  {
    LogPrefix(es, i + 1);
    assert es[..i + 1][..i] == es[..i];
    var all, upto := LogBytes(es), LogBytes(es[..i + 1]);
    assert upto == LogBytes(es[..i]) + RecordBytes(es[i]);
    assert all[Start(es, i)..Start(es, i + 1)] == upto[Start(es, i)..];
  }

  lemma {:induction false} StartsApart(es: seq<Event>, i: nat, j: nat)
    requires i < j <= |es|
    ensures Start(es, i) + 28 <= Start(es, j) <= |LogBytes(es)|
    decreases j
  {
    RecordStands(es, j - 1);
    if i < j - 1 {
      StartsApart(es, i, j - 1);
    }
  }

  predicate MagicAt(data: seq<Byte>, q: int) {
    0 <= q && q + 4 <= |data| && data[q..q + 4] == MAGIC
  }

  lemma MagicFirst(data: seq<Byte>, q: nat, e: Event)
    requires q + |RecordBytes(e)| <= |data| && data[q..q + |RecordBytes(e)|] == RecordBytes(e)
    ensures MagicAt(data, q)
  {
    hide Header;
    assert RecordBytes(e)[0..4] == MAGIC;
    SubSlice(data, q, q + |RecordBytes(e)|, 0, 4);
  }

  lemma MagicStands(es: seq<Event>, i: nat)
    requires i < |es|
    ensures MagicAt(LogBytes(es), Start(es, i))
  {
    hide RecordBytes, MagicAt;
    RecordStands(es, i);
    MagicFirst(LogBytes(es), Start(es, i), es[i]);
  }

  /** MAGIC occurs at record starts only. */
  ghost predicate Unambiguous(es: seq<Event>) {
    forall q :: MagicAt(LogBytes(es), q) ==> exists i :: 0 <= i < |es| && Start(es, i) == q
  }

  /* ---------- parsing ---------- */

  datatype Parsed = NoEvent | Found(event: Event, next: nat)

  /** What zcm_event_read_helper finds after a MAGIC that ends at `at`: the event, and where the
      cursor stands after it. The check for a following MAGIC consumes a shorter tail. */
  function Parse(data: seq<Byte>, at: nat): Parsed {
    if |data| < at + 24 then NoEvent
    else
      var channellen, datalen := Get32(data[at + 16..at + 20]), Get32(data[at + 20..at + 24]);
      if channellen <= 0 || channellen >= 1000 || datalen < 0 then NoEvent
      else if |data| < at + 24 + channellen + datalen then NoEvent
      else
        var end := at + 24 + channellen + datalen;
        var e := Event(Get64(data[at..at + 8]), Get64(data[at + 8..at + 16]),
                       data[at + 24..at + 24 + channellen], data[at + 24 + channellen..end]);
        if end + 4 <= |data| then (if data[end..end + 4] == MAGIC then Found(e, end) else NoEvent)
        else Found(e, |data|)
  }

  lemma SmallInType(n: nat)
    requires n < 0x8000_0000
    ensures InType(n, INT32)
  {
    Pow2At31();
  }

  /** An event's numbers survive the integer layer. */
  lemma FieldsRead(e: Event)
    requires InType(e.num, INT64) && InType(e.timestamp, INT64) && |e.channel| <= INT_MAX && |e.data| <= INT_MAX
    ensures Get64(Put64(e.num)) == e.num && Get64(Put64(e.timestamp)) == e.timestamp
    ensures Get32(Put32(|e.channel|)) == |e.channel| && Get32(Put32(|e.data|)) == |e.data|
  {
    hide Put64, Put32, Get64, Get32, InType;
    Get64Put64(e.num);
    Get64Put64(e.timestamp);
    SmallInType(|e.channel|);
    SmallInType(|e.data|);
    Get32Put32(|e.channel|);
    Get32Put32(|e.data|);
  }

  lemma HeaderFields(e: Event, h: seq<Byte>)
    requires |h| == 24 && h == Header(e)
    ensures h[0..8] == Put64(e.num) && h[8..16] == Put64(e.timestamp)
    ensures h[16..20] == Put32(|e.channel|) && h[20..24] == Put32(|e.data|)
  {
    hide Put64, Put32;
  }

  /** A valid record followed by the end of the file or by MAGIC parses to its event. */
  lemma RecordParses(data: seq<Byte>, q: nat, e: Event)
    requires ValidEvent(e) && q + |RecordBytes(e)| <= |data| && data[q..q + |RecordBytes(e)|] == RecordBytes(e)
    requires q + |RecordBytes(e)| == |data| || MagicAt(data, q + |RecordBytes(e)|)
    ensures Parse(data, q + 4) == Found(e, q + |RecordBytes(e)|)
  {
    hide Header, InType, Parse;
    var rec, end := RecordBytes(e), q + |RecordBytes(e)|;
    SubSlice(data, q, end, 4, |rec|);
    assert rec[4..] == Header(e) + e.channel + e.data;
    StandsFound(data, q + 4, e, end);
  }

  ghost predicate AllValid(es: seq<Event>) {
    forall i | 0 <= i < |es| :: ValidEvent(es[i])
  }

  lemma EndStart(es: seq<Event>)
    ensures Start(es, |es|) == |LogBytes(es)|
  {
    assert es[..|es|] == es;
  }

  /** Every record of a log parses to its event and leaves the cursor on the next start, whatever
      its payload holds. */
  lemma LogParses(es: seq<Event>, i: nat)
    requires AllValid(es) && i < |es|
    ensures Parse(LogBytes(es), Start(es, i) + 4) == Found(es[i], Start(es, i + 1))
  {
    hide Parse, RecordBytes, MagicAt, ValidEvent, Start, LogBytes;
    RecordStands(es, i);
    if i + 1 < |es| {
      MagicStands(es, i + 1);
    } else {
      EndStart(es);
    }
    RecordParses(LogBytes(es), Start(es, i), es[i]);
  }

  /* ---------- what is an event ---------- */

  /** The bytes from `at` on are those of an event whose numbers are of their types and whose channel has
      an acceptable length; then comes MAGIC, or the file ends before one could. */
  ghost predicate Stands(data: seq<Byte>, at: nat, e: Event, next: nat) {
    var end := at + 24 + |e.channel| + |e.data|;
    && InType(e.num, INT64) && InType(e.timestamp, INT64) && 0 < |e.channel| < 1000 && |e.data| <= INT_MAX
    && end <= |data| && data[at..end] == Header(e) + e.channel + e.data
    && ((MagicAt(data, end) && next == end) || (|data| < end + 4 && next == |data|))
  }

  /** The reader accepts exactly those bytes, for any bytes of a file. */
  lemma ParseExactly(data: seq<Byte>, at: nat, e: Event, next: nat)
    ensures Parse(data, at) == Found(e, next) <==> Stands(data, at, e, next)
  {
    hide Parse, Stands;
    if Parse(data, at) == Found(e, next) { FoundStands(data, at, e, next); }
    if Stands(data, at, e, next) { StandsFound(data, at, e, next); }
  }

  lemma FoundStands(data: seq<Byte>, at: nat, e: Event, next: nat)
    requires Parse(data, at) == Found(e, next)
    ensures Stands(data, at, e, next)
  {
    hide Get64, Get32, InType, Put64, Put32;
    Put64Get64(data[at..at + 8]);
    Put64Get64(data[at + 8..at + 16]);
    Put32Get32(data[at + 16..at + 20]);
    Put32Get32(data[at + 20..at + 24]);
    LengthInType(Get32(data[at + 20..at + 24]));
    var c := at + 24 + |e.channel|;
    var end := c + |e.data|;
    assert data[at..at + 24] == data[at..at + 8] + data[at + 8..at + 16] + data[at + 16..at + 20] + data[at + 20..at + 24];
    assert data[at..end] == data[at..at + 24] + data[at + 24..c] + data[c..end];
  }

  lemma LengthInType(n: int)
    requires InType(n, INT32)
    ensures n <= INT_MAX
  {
    Pow2At31();
  }

  lemma StandsFound(data: seq<Byte>, at: nat, e: Event, next: nat)
    requires Stands(data, at, e, next)
    ensures Parse(data, at) == Found(e, next)
  {
    hide Header, Get64, Get32, InType, Put64, Put32;
    var c := 24 + |e.channel|;
    var rec, end := data[at..at + c + |e.data|], at + c + |e.data|;
    var h := Header(e);
    FieldsRead(e);
    HeaderFields(e, h);
    assert rec[..24] == h && rec[24..c] == e.channel && rec[c..] == e.data;
    HeaderAt(data, at, end, h, 0, 8);
    HeaderAt(data, at, end, h, 8, 16);
    HeaderAt(data, at, end, h, 16, 20);
    HeaderAt(data, at, end, h, 20, 24);
    SubSlice(data, at, end, 24, c);
    SubSlice(data, at, end, c, c + |e.data|);
  }

  lemma HeaderAt(data: seq<Byte>, at: nat, end: nat, h: seq<Byte>, i: nat, j: nat)
    requires at + 24 <= end <= |data| && |h| == 24 && data[at..end][..24] == h && i <= j <= 24
    ensures data[at + i..at + j] == h[i..j]
  {
    SubSlice(data, at, end, i, j);
    assert data[at..end][i..j] == data[at..end][..24][i..j];
  }

  /** A record that is followed by four bytes other than MAGIC, as a damaged write leaves it, is no event. */
  lemma TornRecord(data: seq<Byte>, q: nat, e: Event)
    requires ValidEvent(e) && q + |RecordBytes(e)| + 4 <= |data| && data[q..q + |RecordBytes(e)|] == RecordBytes(e)
    requires !MagicAt(data, q + |RecordBytes(e)|)
    ensures Parse(data, q + 4) == NoEvent
  {
    hide Header, InType, Parse, Get32, Put32;
    var rec, end, r := RecordBytes(e), q + |RecordBytes(e)|, Parse(data, q + 4);
    if r.Found? {
      FoundStands(data, q + 4, r.event, r.next);
      SubSlice(data, q, end, 4, 28);
      assert rec[4..28] == Header(e);
      var end' := q + 28 + |r.event.channel| + |r.event.data|;
      SubSlice(data, q + 4, end', 0, 24);
      assert data[q + 4..end'][0..24] == Header(r.event);
      SameLengths(e, r.event);
      assert false;
    }
  }

  lemma SameLengths(a: Event, b: Event)
    requires Header(a) == Header(b)
    requires |a.channel| < 1000 && |b.channel| < 1000 && |a.data| <= INT_MAX && |b.data| <= INT_MAX
    ensures |a.channel| == |b.channel| && |a.data| == |b.data|
  {
    hide Header, InType, Get32, Put32;
    HeaderFields(a, Header(a));
    HeaderFields(b, Header(b));
    forall n: nat | n <= INT_MAX ensures Get32(Put32(n)) == n {
      SmallInType(n);
      Get32Put32(n);
    }
    assert Get32(Put32(|a.channel|)) == Get32(Put32(|b.channel|)) && Get32(Put32(|a.data|)) == Get32(Put32(|b.data|));
  }
}
