/** What it means for an encoder to have written a bit sequence into a buffer, and how such
    steps compose. */
module Writing {
  import opened Binary
  import opened BitPacker
  import opened PrimArrays

  /** `bits` were written at `start`: they follow the earlier bits of the stream, the last byte is
      zero-filled, and nothing outside the bytes they occupy changed. */
  ghost predicate Wrote(was: seq<Byte>, now: seq<Byte>, start: Pos, bits: seq<bool>) {
    && Inside(start, was)
    && Packed(was, now, start, Advance(start, |bits|), start.byte + EncodedSize(start.bit + |bits|), bits)
  }

  /** The outcome of an encoder that may use the bytes before `limit`: it succeeds exactly when the
      bits fit, and a failure leaves everything outside its allowance alone. */
  ghost predicate Encoded(was: seq<Byte>, now: seq<Byte>, start: Pos, limit: nat, bits: seq<bool>, ok: bool) {
    && (ok <==> start.byte + EncodedSize(start.bit + |bits|) <= limit)
    && (ok ==> Wrote(was, now, start, bits))
    && (!ok ==> Framed(was, now, start.byte, limit))
  }

  lemma AdvanceAdd(pos: Pos, m: nat, n: nat)
    requires pos.bit < 8
    ensures Advance(Advance(pos, m), n) == Advance(pos, m + n)
  {
    AdvanceUnique(pos, m + n, Advance(Advance(pos, m), n));
  }

  /** Bytes touched so far are among those touched later, and end where the position is. */
  lemma SizeMono(pos: Pos, m: nat, n: nat)
    requires pos.bit < 8
    ensures pos.byte + EncodedSize(pos.bit + m) <= pos.byte + EncodedSize(pos.bit + m + n)
    ensures var next := Advance(pos, m);
            next.byte + EncodedSize(next.bit + n) == pos.byte + EncodedSize(pos.bit + m + n)
  {
  }

  lemma SameTail<T>(a: seq<T>, b: seq<T>, c: seq<T>, e1: nat, e2: nat)
    requires |a| == |b| == |c| && e1 <= e2 <= |a| && a[e1..] == b[e1..] && b[e2..] == c[e2..]
    ensures a[e2..] == c[e2..]
  {
    assert a[e2..] == a[e1..][e2 - e1..] && b[e2..] == b[e1..][e2 - e1..];
  }

  lemma SameHead<T>(a: seq<T>, b: seq<T>, c: seq<T>, h1: nat, h2: nat)
    requires |a| == |b| == |c| && h1 <= h2 <= |a| && a[..h1] == b[..h1] && b[..h2] == c[..h2]
    ensures a[..h1] == c[..h1]
  {
    assert b[..h1] == b[..h2][..h1] && c[..h1] == c[..h2][..h1];
  }

  lemma WroteTrans(was: seq<Byte>, mid: seq<Byte>, now: seq<Byte>, start: Pos, a: seq<bool>, b: seq<bool>)
    requires Wrote(was, mid, start, a) && Wrote(mid, now, Advance(start, |a|), b)
    ensures Wrote(was, now, start, a + b)
  {
    hide Stream, Clean, Advance, EncodedSize;
    var next := Advance(start, |a|);
    AdvanceAdd(start, |a|, |b|);
    SizeMono(start, |a|, |b|);
    AdvanceForward(start, |a|);
    var e1, e2 := start.byte + EncodedSize(start.bit + |a|), start.byte + EncodedSize(start.bit + |a| + |b|);
    SameHead(was, mid, now, start.byte, next.byte);
    SameTail(was, mid, now, e1, e2);
    assert Stream(was, start) + a + b == Stream(was, start) + (a + b);
    assert start.bit + |a + b| == start.bit + |a| + |b|;
  }

  lemma AdvanceForward(pos: Pos, n: nat)
    requires pos.bit < 8
    ensures pos.byte <= Advance(pos, n).byte
  {
  }

  lemma WroteNothing(was: seq<Byte>, start: Pos)
    requires Inside(start, was) && Clean(was, start)
    ensures Wrote(was, was, start, [])
  {
    assert Stream(was, start) + [] == Stream(was, start);
  }

  lemma WroteFramed(was: seq<Byte>, now: seq<Byte>, start: Pos, bits: seq<bool>, limit: nat)
    requires Wrote(was, now, start, bits) && start.byte + EncodedSize(start.bit + |bits|) <= limit <= |was|
    ensures Framed(was, now, start.byte, limit)
  {
    hide Stream, Clean;
    var e := start.byte + EncodedSize(start.bit + |bits|);
    assert now[limit..] == now[e..][limit - e..] && was[limit..] == was[e..][limit - e..];
  }

  lemma WroteBytes(was: seq<Byte>, now: seq<Byte>, at: nat, bs: seq<Byte>)
    requires Replaced(was, now, at, bs)
    ensures Wrote(was, now, Pos(at, 0), ToBits(bs))
  {
    ReplacedPacked(was, now, at, bs);
    AdvanceUnique(Pos(at, 0), 8 * |bs|, Pos(at + |bs|, 0));
  }

  /** A byte with its low bits zero. */
  lemma ByteWithZeros(b: Byte, n: nat)
    requires n <= 8 && Low(b, 8 - n) == 0
    ensures Bits(b, 8) == Bits(Shr(b, 8 - n), n) + Zeros(8 - n)
  {
    BitsSplit(b, n, 8 - n);
    BitsLow(b, 8 - n, 8 - n);
    BitsZero(8 - n);
  }

  /** A clean unfinished byte completes the stream with zeros. */
  lemma StreamFinish(now: seq<Byte>, pos: Pos)
    requires Inside(pos, now) && Clean(now, pos) && pos.bit > 0
    ensures Stream(now, Pos(pos.byte + 1, 0)) == Stream(now, pos) + Zeros(8 - pos.bit)
  {
    var all := now[..pos.byte + 1];
    assert all[..pos.byte] == now[..pos.byte] && all[pos.byte] == now[pos.byte];
    ByteWithZeros(now[pos.byte], pos.bit);
  }

  lemma AlignEnd(start: Pos, bits: seq<bool>)
    requires start.bit == 0
    ensures var pos := Advance(start, |bits|);
            && Align(bits) == (if pos.bit == 0 then bits else bits + Zeros(8 - pos.bit))
            && Advance(start, |Align(bits)|) == (if pos.bit == 0 then pos else Pos(pos.byte + 1, 0))
            && Advance(start, |Align(bits)|).byte == start.byte + EncodedSize(|bits|)
            && EncodedSize(|Align(bits)|) == EncodedSize(|bits|)
  {
    var pos := Advance(start, |bits|);
    assert |bits| % 8 == pos.bit;
    AdvanceUnique(start, |Align(bits)|, if pos.bit == 0 then pos else Pos(pos.byte + 1, 0));
  }

  /** Stepping over the zero bits of an unfinished byte. */
  lemma WroteAlign(was: seq<Byte>, now: seq<Byte>, start: Pos, bits: seq<bool>)
    requires Wrote(was, now, start, bits) && start.bit == 0
    ensures Wrote(was, now, start, Align(bits))
    ensures Advance(start, |Align(bits)|).bit == 0
    ensures Advance(start, |Align(bits)|).byte == start.byte + EncodedSize(|bits|)
  {
    hide Stream, Align, Advance, EncodedSize;
    var pos := Advance(start, |bits|);
    AlignEnd(start, bits);
    if pos.bit > 0 {
      StreamFinish(now, pos);
      assert Stream(was, start) + bits + Zeros(8 - pos.bit) == Stream(was, start) + Align(bits);
    }
  }

  /** What a successful encoder leaves in the buffer, in bytes. */
  lemma WroteContents(was: seq<Byte>, now: seq<Byte>, at: nat, bits: seq<bool>)
    requires Wrote(was, now, Pos(at, 0), bits) && |bits| % 8 == 0
    ensures var n := |bits| / 8;
            && at + n <= |now| && ToBits(now[at..at + n]) == bits
            && |now| == |was| && now[..at] == was[..at] && now[at + n..] == was[at + n..]
  {
    hide ToBits, Bits, Shr;
    var n := |bits| / 8;
    AdvanceUnique(Pos(at, 0), |bits|, Pos(at + n, 0));
    assert now[..at + n] == now[..at] + now[at..at + n];
    ToBitsConcat(now[..at], now[at..at + n]);
    SplitEqual(ToBits(was[..at]), bits, ToBits(now[..at]), ToBits(now[at..at + n]));
  }
}
