/** The byte-wise array codecs of zcm_coretypes.h: fixed-width words in either byte order, and
    strings with their length prefix and terminator. */
module PrimArrays {
  import opened Binary
  import opened BitPacker

  /* ---------- words ---------- */

  /** The n bytes of v, most significant first. */
  function BeBytes(v: int, n: nat): (bs: seq<Byte>)
    ensures |bs| == n
    decreases n, v
  {
    if n == 0 then [] else BeBytes(Shr(v, 8), n - 1) + [LowByte(v)]
  }

  /** The n bytes of v, least significant first. */
  function LeBytes(v: int, n: nat): (bs: seq<Byte>)
    ensures |bs| == n
    decreases n, v
  {
    if n == 0 then [] else [LowByte(v)] + LeBytes(Shr(v, 8), n - 1)
  }

  function LowByte(v: int): Byte {
    Pow2Byte();
    Low(v, 8)
  }

  function WordBytes(v: int, n: nat, le: bool): (bs: seq<Byte>)
    ensures |bs| == n
  {
    if le then LeBytes(v, n) else BeBytes(v, n)
  }

  /** The number that n bytes denote in a byte order. */
  function BytesNum(bs: seq<Byte>, le: bool): nat {
    if bs == [] then 0
    else if le then BytesNum(bs[1..], le) * 256 + bs[0]
    else BytesNum(bs[..|bs| - 1], le) * 256 + bs[|bs| - 1]
  }

  lemma {:induction false} LowBytes(v: int, n: nat)
    ensures Low(v, 8 * n + 8) == Low(Shr(v, 8), 8 * n) * 256 + Low(v, 8)
  {
    hide Low, Shr, Shl, Pow2;
    var hi, lo := Low(Shr(v, 8), 8 * n), Low(v, 8);
    LowUnder(Shr(v, 8), 8 * n);
    LowUnder(v, 8);
    ShrLow(v, 8);
    ShrLow(Shr(v, 8), 8 * n);
    var top := Shr(Shr(v, 8), 8 * n);
    ShlSum(Shl(top, 8 * n), hi, 8);
    ShlAdd(top, 8 * n, 8);
    Shl8(hi);
    ShlBound(hi, lo, 8 * n, 8);
    assert v == Shl(top, 8 * n + 8) + (Shl(hi, 8) + lo);
    ShlDigit(top, Shl(hi, 8) + lo, 8 * n + 8);
  }

  /** Words survive the trip through bytes, modulo 2^(8n), in both byte orders. */
  lemma {:induction false} WordRoundTrip(v: int, n: nat, le: bool)
    ensures BytesNum(WordBytes(v, n, le), le) == Low(v, 8 * n)
    decreases n
  {
    if n > 0 {
      WordRoundTrip(Shr(v, 8), n - 1, le);
      LowBytes(v, n - 1);
      var bs := WordBytes(v, n, le);
      if le {
        assert bs[1..] == LeBytes(Shr(v, 8), n - 1);
      } else {
        assert bs[..|bs| - 1] == BeBytes(Shr(v, 8), n - 1);
      }
    }
  }

  /** Any bytes are those of the number they denote. */
  lemma {:induction false} BytesBack(bs: seq<Byte>, le: bool)
    ensures WordBytes(BytesNum(bs, le), |bs|, le) == bs
    decreases |bs|
  {
    hide Shr, Low, Shl;
    if bs != [] {
      var rest, b := if le then bs[1..] else bs[..|bs| - 1], if le then bs[0] else bs[|bs| - 1];
      BytesBack(rest, le);
      Pow2Byte();
      Shl8(BytesNum(rest, le));
      ShlDigit(BytesNum(rest, le), b, 8);
      assert bs == if le then [b] + rest else rest + [b];
    }
  }

  /** So they are those of any number of the type that has the same residue. */
  lemma WordBytesBack(bs: seq<Byte>, le: bool, ty: Storage)
    requires ty.width == 8 * |bs| > 0
    ensures WordBytes(ToType(BytesNum(bs, le), ty), |bs|, le) == bs
  {
    hide WordBytes, BytesNum, Low, ToType;
    var x := BytesNum(bs, le);
    var y := ToType(x, ty);
    BytesBack(bs, le);
    BytesBack(WordBytes(y, |bs|, le), le);
    WordRoundTrip(y, |bs|, le);
    WordRoundTrip(x, |bs|, le);
    ToTypeLow(x, ty);
  }

  /** The bytes of an array of words. */
  function ArrayBytes(p: seq<int>, n: nat, le: bool): (bs: seq<Byte>) {
    if p == [] then [] else ArrayBytes(p[..|p| - 1], n, le) + WordBytes(p[|p| - 1], n, le)
  }

  lemma {:induction false} ArrayBytesLength(p: seq<int>, n: nat, le: bool)
    ensures |ArrayBytes(p, n, le)| == Span(|p|, n)
  {
    if p != [] {
      ArrayBytesLength(p[..|p| - 1], n, le);
    }
  }

  lemma ArrayBytesNext(p: seq<int>, element: nat, n: nat, le: bool)
    requires element < |p|
    ensures ArrayBytes(p[..element + 1], n, le) == ArrayBytes(p[..element], n, le) + WordBytes(p[element], n, le)
  {
    assert p[..element + 1][..element] == p[..element];
  }

  /* ---------- writing bytes ---------- */

  /** `now` is `was` with bs written at `at`. */
  ghost predicate Replaced(was: seq<Byte>, now: seq<Byte>, at: nat, bs: seq<Byte>) {
    at + |bs| <= |was| && now == was[..at] + bs + was[at + |bs|..]
  }

  lemma NothingReplaced(was: seq<Byte>, at: nat, n: nat, le: bool)
    requires at <= |was|
    ensures Replaced(was, was, at, ArrayBytes([], n, le))
  {
  }

  lemma ReplacedNext(was: seq<Byte>, now: seq<Byte>, at: nat, bs: seq<Byte>, b: Byte)
    requires Replaced(was, now, at, bs) && at + |bs| < |was|
    ensures Replaced(was, now[at + |bs| := b], at, bs + [b])
  {
  }

  lemma ReplacedTrans(was: seq<Byte>, mid: seq<Byte>, now: seq<Byte>, at: nat, a: seq<Byte>, b: seq<Byte>)
    requires Replaced(was, mid, at, a) && Replaced(mid, now, at + |a|, b)
    ensures Replaced(was, now, at, a + b)
  {
    assert mid[..at + |a|] == was[..at] + a;
    assert mid[at + |a| + |b|..] == was[at + |a + b|..];
  }

  lemma ReplacedPacked(was: seq<Byte>, now: seq<Byte>, at: nat, bs: seq<Byte>)
    requires Replaced(was, now, at, bs)
    ensures Packed(was, now, Pos(at, 0), Pos(at + |bs|, 0), at + |bs|, ToBits(bs))
  {
    assert now[..at + |bs|] == was[..at] + bs;
    ToBitsConcat(was[..at], bs);
    assert now[..at] == was[..at];
    assert now[at + |bs|..] == was[at + |bs|..];
  }

  /** Writes the bytes of one word. */
  method PutWord(buf: array<Byte>, at: nat, v: int, n: nat, le: bool)
    requires at + n <= buf.Length
    modifies buf
    ensures Replaced(old(buf[..]), buf[..], at, WordBytes(v, n, le))
  {
    hide WordBytes, Shr, LowByte;
    ghost var was := buf[..];
    ghost var bs := WordBytes(v, n, le);
    var i := 0;
    while i < n
      invariant 0 <= i <= n
      invariant Replaced(was, buf[..], at, bs[..i])
    {
      WordByteAt(v, n, le, i);
      ReplacedNext(was, buf[..], at, bs[..i], bs[i]);
      assert bs[..i] + [bs[i]] == bs[..i + 1];
      ghost var now := buf[..];
      buf[at + i] := LowByte(Shr(v, 8 * (if le then i else n - 1 - i)));
      assert buf[..] == now[at + i := bs[i]];
      i := i + 1;
    }
    assert bs[..n] == bs;
  }

  lemma ShrZero(v: int)
    ensures Shr(v, 0) == v
  {
  }

  /** The i-th byte is a shift and a mask away. */
  lemma {:induction false} WordByteAt(v: int, n: nat, le: bool, i: nat)
    requires i < n
    ensures WordBytes(v, n, le)[i] == LowByte(Shr(v, 8 * (if le then i else n - 1 - i)))
    decreases n
  {
    hide Shr, LowByte;
    ShrZero(v);
    if le {
      if i > 0 {
        WordByteAt(Shr(v, 8), n - 1, le, i - 1);
        ShrAdd(v, 8, 8 * (i - 1));
      }
    } else if i < n - 1 {
      WordByteAt(Shr(v, 8), n - 1, le, i);
      ShrAdd(v, 8, 8 * (n - 2 - i));
    }
  }

  /** Writes an array of n-byte words. Returns the bytes written, or -1 when maxlen is too small. */
  method EncodeFixedArray(buf: array<Byte>, offset: nat, maxlen: nat, p: seq<int>, n: nat, le: bool)
    returns (r: int)
    requires offset + maxlen <= buf.Length && Span(|p|, n) <= INT_MAX
    modifies buf
    ensures r == if maxlen < Span(|p|, n) then -1 else Span(|p|, n)
    ensures r < 0 ==> buf[..] == old(buf[..])
    ensures r >= 0 ==> Replaced(old(buf[..]), buf[..], offset, ArrayBytes(p, n, le))
  {
    hide Replaced, ArrayBytes, WordBytes, Mul32, Span;
    SpanNext(0, n);
    var total := Mul32(|p|, n);
    if maxlen < total {
      return -1;
    }
    ghost var was := buf[..];
    var pos, element := offset, 0;
    NothingReplaced(was, offset, n, le);
    while element < |p|
      invariant 0 <= element <= |p| && pos == offset + Span(element, n)
      invariant |buf[..]| == |was| && Replaced(was, buf[..], offset, ArrayBytes(p[..element], n, le))
    {
      SpanMono(element + 1, |p|, n);
      SpanNext(element, n);
      ArrayBytesLength(p[..element], n, le);
      ArrayBytesNext(p, element, n, le);
      ghost var mid := buf[..];
      PutWord(buf, pos, p[element], n, le);
      ReplacedTrans(was, mid, buf[..], offset, ArrayBytes(p[..element], n, le), WordBytes(p[element], n, le));
      pos := pos + n;
      element := element + 1;
    }
    assert p[..|p|] == p;
    r := total;
  }

  /* ---------- strings ---------- */

  /** A string on the wire: length including the terminator, characters, terminator. */
  function TextBytes(s: seq<Byte>, le: bool): (bs: seq<Byte>)
    ensures |bs| == |s| + 5
  {
    WordBytes(|s| + 1, 4, le) + (s + [0])
  }

  function TextsBytes(ss: seq<seq<Byte>>, le: bool): seq<Byte> {
    if ss == [] then [] else TextsBytes(ss[..|ss| - 1], le) + TextBytes(ss[|ss| - 1], le)
  }

  lemma TextsBytesNext(ss: seq<seq<Byte>>, element: nat, le: bool)
    requires element < |ss|
    ensures TextsBytes(ss[..element + 1], le) == TextsBytes(ss[..element], le) + TextBytes(ss[element], le)
  {
    assert ss[..element + 1][..element] == ss[..element];
  }

  lemma {:induction false} TextsBytesPrefix(ss: seq<seq<Byte>>, element: nat, le: bool)
    requires element <= |ss|
    ensures |TextsBytes(ss[..element], le)| <= |TextsBytes(ss, le)|
    decreases |ss| - element
  {
    if element == |ss| {
      assert ss[..element] == ss;
    } else {
      TextsBytesNext(ss, element, le);
      TextsBytesPrefix(ss, element + 1, le);
    }
  }

  lemma {:induction false} BytesAsArray(bs: seq<Byte>, le: bool)
    ensures ArrayBytes(bs, 1, le) == bs && Span(|bs|, 1) == |bs|
  {
    if bs != [] {
      BytesAsArray(bs[..|bs| - 1], le);
      var b := bs[|bs| - 1];
      Pow2Byte();
      LowSmall(b, 8);
      assert WordBytes(b, 1, le) == [b];
      assert bs == bs[..|bs| - 1] + [b];
    }
  }

  lemma OneWord(v: int, n: nat, le: bool)
    ensures ArrayBytes([v], n, le) == WordBytes(v, n, le) && Span(1, n) == n
  {
    assert [v][..0] == [];
  }

  /** Nothing outside [lo, hi) changed. */
  ghost predicate Framed(was: seq<Byte>, now: seq<Byte>, lo: nat, hi: nat) {
    lo <= hi <= |was| == |now| && now[..lo] == was[..lo] && now[hi..] == was[hi..]
  }

  lemma ReplacedFramed(was: seq<Byte>, now: seq<Byte>, at: nat, bs: seq<Byte>, hi: nat)
    requires Replaced(was, now, at, bs) && at + |bs| <= hi <= |was|
    ensures Framed(was, now, at, hi)
  {
  }

  /** Writes one string. */
  method EncodeString(buf: array<Byte>, offset: nat, maxlen: nat, s: seq<Byte>, le: bool) returns (r: int)
    requires offset + maxlen <= buf.Length && |s| + 5 <= INT_MAX
    modifies buf
    ensures r == if maxlen < |s| + 5 then -1 else |s| + 5
    ensures r < 0 ==> Framed(old(buf[..]), buf[..], offset, offset + maxlen)
    ensures r >= 0 ==> Replaced(old(buf[..]), buf[..], offset, TextBytes(s, le))
  {
    hide WordBytes, ArrayBytes;
    ghost var was := buf[..];
    var length := |s| + 1;
    OneWord(length, 4, le);
    BytesAsArray(s + [0], le);
    var thislen := EncodeFixedArray(buf, offset, maxlen, [length], 4, le);
    if thislen < 0 {
      return thislen;
    }
    var pos := thislen;
    ghost var mid := buf[..];
    assert |mid| == |was|;
    thislen := EncodeFixedArray(buf, offset + pos, maxlen - pos, s + [0], 1, le);
    if thislen < 0 {
      ReplacedFramed(was, mid, offset, WordBytes(length, 4, le), offset + maxlen);
      return thislen;
    }
    ReplacedTrans(was, mid, buf[..], offset, WordBytes(length, 4, le), s + [0]);
    r := pos + thislen;
  }

  /** Writes an array of strings. */
  method EncodeStrings(buf: array<Byte>, offset: nat, maxlen: nat, ss: seq<seq<Byte>>, le: bool) returns (r: int)
    requires offset + maxlen <= buf.Length && |TextsBytes(ss, le)| <= INT_MAX
    modifies buf
    ensures r == if maxlen < |TextsBytes(ss, le)| then -1 else |TextsBytes(ss, le)|
    ensures r < 0 ==> Framed(old(buf[..]), buf[..], offset, offset + maxlen)
    ensures r >= 0 ==> Replaced(old(buf[..]), buf[..], offset, TextsBytes(ss, le))
  {
    hide TextBytes, WordBytes, Replaced, TextsBytes, Framed;
    ghost var was := buf[..];
    var pos, element := 0, 0;
    NoTexts(was, offset, le);
    assert ss[..0] == [];
    while element < |ss|
      invariant 0 <= element <= |ss| && pos == |TextsBytes(ss[..element], le)| <= maxlen
      invariant Replaced(was, buf[..], offset, TextsBytes(ss[..element], le))
    {
      TextsBytesNext(ss, element, le);
      TextsBytesPrefix(ss, element + 1, le);
      ghost var mid := buf[..];
      ReplacedFramed(was, mid, offset, TextsBytes(ss[..element], le), offset + maxlen);
      var thislen := EncodeString(buf, offset + pos, maxlen - pos, ss[element], le);
      if thislen < 0 {
        FramedWiden(was, mid, buf[..], offset, offset + pos, offset + maxlen);
        return thislen;
      }
      ReplacedTrans(was, mid, buf[..], offset, TextsBytes(ss[..element], le), TextBytes(ss[element], le));
      pos := pos + thislen;
      element := element + 1;
    }
    assert ss[..|ss|] == ss;
    r := pos;
  }

  lemma NoTexts(was: seq<Byte>, offset: nat, le: bool)
    requires offset <= |was|
    ensures TextsBytes([], le) == [] && Replaced(was, was, offset, TextsBytes([], le))
  {
  }

  lemma FramedWiden(was: seq<Byte>, mid: seq<Byte>, now: seq<Byte>, lo: nat, at: nat, hi: nat)
    requires Framed(was, mid, lo, hi) && lo <= at && Framed(mid, now, at, hi)
    ensures Framed(was, now, lo, hi)
  {
    assert now[..lo] == now[..at][..lo] && mid[..lo] == mid[..at][..lo];
  }

  /* ---------- sizes from a message ---------- */

  /** An array decoder's size test passes and its loop goes behind the bytes it may read. */
  predicate Overruns(elements: nat, n: nat, maxlen: nat) {
    Mul32(elements, n) <= maxlen < Span(elements, n)
  }

  /** That happens exactly when the size passes 2^32 and what is left of it is covered. */
  lemma OverrunsWhen(elements: nat, n: nat, maxlen: nat)
    requires maxlen < 0x1_0000_0000
    ensures Overruns(elements, n, maxlen) <==> Span(elements, n) >= 0x1_0000_0000 && Mul32(elements, n) <= maxlen
  {
    hide Span;
    SpanProduct(elements, n);
  }

  /** Eight bytes cover 0x2000_0001 words of eight bytes, and no byte at all covers a negative number
      of them. */
  lemma OverrunInputs(elements: nat, n: nat)
    requires n == 8
    ensures elements == 0x2000_0001 ==> Overruns(elements, n, 8)
    ensures elements == U32(-0x2000_0000) ==> Overruns(elements, n, 0)
  {
    hide Span;
    SpanProduct(elements, n);
  }

  /** A bit field of one bit and a count of -1, one bit into a byte: no more than that byte passes. */
  lemma OverrunBitsInput(elements: nat, numBits: nat)
    requires numBits == 1 && elements == U32(-1)
    ensures OverrunsBits(elements, numBits, 1, 1)
  {
    hide Span;
    SpanProduct(elements, numBits);
  }
}
