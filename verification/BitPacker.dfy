/** The bit packer and unpackers of zcm_coretypes.h. */
module BitPacker {
  import opened Binary

  /** Storage of an array element: its width in bits and whether the C type is signed. */
  datatype Storage = Storage(width: nat, signed: bool)

  predicate ValidStorage(ty: Storage) {
    ty in {Storage(8, false), Storage(8, true), Storage(16, true), Storage(32, true), Storage(64, true)}
  }

  const INT_MAX: nat := 0x7fff_ffff

  /** Conversion to uint32_t. */
  function U32(x: int): nat {
    x % 0x1_0000_0000
  }

  lemma U32Small(x: nat)
    requires x < 0x1_0000_0000
    ensures U32(x) == x
  {
  }

  lemma U32Sum(a: nat, b: nat)
    ensures U32(U32(a) + b) == U32(a + b)
  {
    var q, s := a / 0x1_0000_0000, U32(a) + b;
    var q', r := s / 0x1_0000_0000, s % 0x1_0000_0000;
    assert a + b == 0x1_0000_0000 * (q + q') + r;
    Remainder(a + b, q + q', r);
  }

  lemma Remainder(x: int, q: int, r: nat)
    requires r < 0x1_0000_0000 && x == 0x1_0000_0000 * q + r
    ensures U32(x) == r
  {
    var q', r' := x / 0x1_0000_0000, x % 0x1_0000_0000;
    assert 0x1_0000_0000 * (q - q') == r' - r;
  }

  /** Conversion of a uint32_t to int. */
  function AsInt(x: nat): int {
    if x <= INT_MAX then x else x - 0x1_0000_0000
  }

  /** Bytes needed for a number of bits. */
  function EncodedSize(numBits: nat): (size: nat)
    ensures numBits <= 8 * size < numBits + 8
  {
    var size := numBits / 8;
    if numBits - size * 8 != 0 then size + 1 else size
  }

  /** A position numBits further on. */
  function Advance(pos: Pos, numBits: nat): (next: Pos)
    requires pos.bit < 8
    ensures next.bit < 8 && 8 * next.byte + next.bit == 8 * pos.byte + pos.bit + numBits
  {
    var bytes := numBits / 8;
    var bits := numBits - bytes * 8;
    if pos.bit + bits >= 8 then Pos(pos.byte + bytes + 1, pos.bit + bits - 8)
    else Pos(pos.byte + bytes, pos.bit + bits)
  }

  lemma AdvanceUnique(pos: Pos, numBits: nat, next: Pos)
    requires pos.bit < 8 && next.bit < 8
    requires 8 * next.byte + next.bit == 8 * pos.byte + pos.bit + numBits
    ensures next == Advance(pos, numBits)
  {
  }

  /** The wire form of a bit-field array: each element's low numBits bits in order. */
  function ElemBits(p: seq<int>, numBits: nat): (s: seq<bool>) {
    if p == [] then [] else ElemBits(p[..|p| - 1], numBits) + Bits(p[|p| - 1], numBits)
  }

  /** elements * numBits. */
  function Span(elements: nat, numBits: nat): nat {
    if elements == 0 then 0 else Span(elements - 1, numBits) + numBits
  }

  lemma {:induction false} SpanProduct(elements: nat, numBits: nat)
    ensures Span(elements, numBits) == elements * numBits
  {
    if elements > 0 {
      SpanProduct(elements - 1, numBits);
      assert elements * numBits == (elements - 1) * numBits + numBits;
    }
  }

  lemma {:induction false} SpanMono(element: nat, elements: nat, numBits: nat)
    requires element <= elements
    ensures Span(element, numBits) <= Span(elements, numBits)
    decreases elements
  {
    if element < elements {
      SpanMono(element, elements - 1, numBits);
    }
  }

  /** Where a decoder stores elements: in their struct, or in a block of so many bytes. */
  datatype Block = Inline | Heap(size: nat)

  /** The first n elements of a size lie inside the block. */
  predicate Holds(block: Block, n: nat, size: nat) {
    block.Inline? || Span(n, size) <= block.size
  }

  lemma HoldsNone(block: Block, size: nat)
    ensures Holds(block, 0, size)
  {
  }

  lemma HoldsInline(n: nat, size: nat)
    ensures Holds(Inline, n, size)
  {
  }

  lemma HoldsFewer(block: Block, k: nat, n: nat, size: nat)
    requires Holds(block, n, size) && k <= n
    ensures Holds(block, k, size)
  {
    SpanMono(k, n, size);
  }

  /** elements * numbits in uint32_t arithmetic; exact while the product fits. */
  function Mul32(elements: nat, numBits: nat): (total: nat)
    ensures total == U32(Span(elements, numBits)) < 0x1_0000_0000
    ensures Span(elements, numBits) < 0x1_0000_0000 ==> total == Span(elements, numBits)
  {
    SpanProduct(elements, numBits);
    U32(elements * numBits)
  }

  lemma {:induction false} ElemBitsLength(p: seq<int>, numBits: nat)
    ensures |ElemBits(p, numBits)| == Span(|p|, numBits)
  {
    if p != [] {
      ElemBitsLength(p[..|p| - 1], numBits);
    }
  }

  lemma ElemBitsNext(p: seq<int>, element: nat, numBits: nat)
    requires element < |p|
    ensures ElemBits(p[..element + 1], numBits) == ElemBits(p[..element], numBits) + Bits(p[element], numBits)
  {
    assert p[..element + 1][..element] == p[..element];
  }

  /* ---------- packing ---------- */

  /** Or-ing x in above t free bits extends the number above the free bits by x. */
  lemma FillNumber(b: Byte, posBit: nat, c: nat, t: nat, x: nat)
    requires posBit + c + t == 8 && x < Pow2(c) && Low(b, 8 - posBit) == 0
    ensures Or(b, Shl(x, t)) == Shl(Shl(Shr(b, 8 - posBit), c) + x, t) < 256
  {
    hide Or, Shl, Shr, Low, Pow2;
    var q := Shr(b, 8 - posBit);
    ShrLow(b, 8 - posBit);
    ShlBound(x, 0, c, t);
    OrDisjoint(b, Shl(x, t), 8 - posBit);
    ShlAdd(q, c, t);
    ShlSum(Shl(q, c), x, t);
    FillBound(b, q, posBit, Shl(x, t));
  }

  lemma FillBound(b: Byte, q: nat, posBit: nat, z: nat)
    requires posBit <= 8 && z < Pow2(8 - posBit) && q == Shr(b, 8 - posBit)
    ensures Shl(q, 8 - posBit) + z < 256
  {
    assert b < Pow2(posBit + (8 - posBit));
    ShrBound(b, posBit, 8 - posBit);
    ShlBound(q, z, posBit, 8 - posBit);
  }

  lemma FillNotation(q: nat, n: nat, c: nat, x: nat)
    requires x < Pow2(c)
    ensures Bits(Shl(q, c) + x, n + c) == Bits(q, n) + Bits(x, c)
  {
    BitsSplit(Shl(q, c) + x, n, c);
    ShlDigit(q, x, c);
    BitsLow(Shl(q, c) + x, c, c);
  }

  /** Filling c bits with x, t free bits staying below them. */
  lemma FillByte(b: Byte, posBit: nat, c: nat, t: nat, x: nat)
    requires posBit + c + t == 8 && x < Pow2(c) && Low(b, 8 - posBit) == 0
    ensures Or(b, Shl(x, t)) < 256
    ensures Low(Or(b, Shl(x, t)), t) == 0
    ensures Bits(Shr(Or(b, Shl(x, t)), t), posBit + c) == Bits(Shr(b, 8 - posBit), posBit) + Bits(x, c)
  {
    FillNumber(b, posBit, c, t, x);
    ShlDigit(Shl(Shr(b, 8 - posBit), c) + x, 0, t);
    FillNotation(Shr(b, 8 - posBit), posBit, c, x);
  }

  /** The byte about to be filled, cleared when nothing is in it yet. */
  function Opened(now: seq<Byte>, pos: Pos): (z: seq<Byte>)
    requires pos.byte < |now|
    ensures |z| == |now|
  {
    if pos.bit == 0 then now[pos.byte := 0] else now
  }

  lemma OpenedStream(now: seq<Byte>, pos: Pos)
    requires pos.bit < 8 && pos.byte < |now| && Clean(now, pos)
    ensures Stream(Opened(now, pos), pos) == Stream(now, pos)
    ensures Low(Opened(now, pos)[pos.byte], 8 - pos.bit) == 0
  {
    var z := Opened(now, pos);
    assert z[..pos.byte] == now[..pos.byte];
    StreamCongruent(z, now, pos);
    LowSmall(0, 8 - pos.bit);
  }

  function After(pos: Pos, c: nat): Pos {
    if pos.bit + c == 8 then Pos(pos.byte + 1, 0) else Pos(pos.byte, pos.bit + c)
  }

  /** Writing the c bits of x at a clean position appends them to the stream. */
  lemma AppendBits(s: seq<Byte>, pos: Pos, c: nat, t: nat, x: nat)
    requires pos.byte < |s| && pos.bit + c + t == 8 && pos.bit < 8 && c > 0 && x < Pow2(c)
    requires Low(s[pos.byte], 8 - pos.bit) == 0
    ensures Or(s[pos.byte], Shl(x, t)) < 256
    ensures var s' := s[pos.byte := Or(s[pos.byte], Shl(x, t))];
            Clean(s', After(pos, c)) && Stream(s', After(pos, c)) == Stream(s, pos) + Bits(x, c)
  {
    hide Or, Shl, Pow2, Low, Bits, Shr, ToBits, Stream;
    FillByte(s[pos.byte], pos.bit, c, t, x);
    var b: Byte := Or(s[pos.byte], Shl(x, t));
    var s' := s[pos.byte := b];
    assert s'[..pos.byte] == s[..pos.byte];
    StreamSplit(s, pos);
    if t == 0 { StreamEnd(s', pos.byte); } else { StreamSplit(s', After(pos, c)); }
    var done, had, more := ToBits(s[..pos.byte]), Bits(Shr(s[pos.byte], 8 - pos.bit), pos.bit), Bits(x, c);
    assert done + (had + more) == (done + had) + more;
  }

  lemma StreamSplit(s: seq<Byte>, pos: Pos)
    requires pos.byte < |s| && pos.bit < 8
    ensures Stream(s, pos) == ToBits(s[..pos.byte]) + Bits(Shr(s[pos.byte], 8 - pos.bit), pos.bit)
  {
  }

  lemma StreamEnd(s: seq<Byte>, i: nat)
    requires i < |s|
    ensures Stream(s, Pos(i + 1, 0)) == ToBits(s[..i]) + Bits(Shr(s[i], 0), 8)
  {
    assert s[..i + 1][..i] == s[..i];
  }

  /** What the packer keeps: the stream so far is the old one and the bits already written,
      the rest of the current byte is zero, and bytes outside [start, end) are untouched. */
  ghost predicate Packed(was: seq<Byte>, now: seq<Byte>, start: Pos, pos: Pos, end: nat, done: seq<bool>)
    requires Inside(start, was)
  {
    && |now| == |was| && end <= |was| && Inside(pos, now)
    && Stream(now, pos) == Stream(was, start) + done
    && Clean(now, pos)
    && now[..start.byte] == was[..start.byte]
    && now[end..] == was[end..]
  }

  lemma PackedNothing(was: seq<Byte>, start: Pos, end: nat, numBits: nat)
    requires Inside(start, was) && Clean(was, start) && end <= |was|
    ensures Packed(was, was, start, start, end, ElemBits([], numBits))
  {
    assert Stream(was, start) + [] == Stream(was, start);
  }

  /** One byte's worth of progress of the packer. */
  lemma PackStep(was: seq<Byte>, now: seq<Byte>, start: Pos, pos: Pos, end: nat, done: seq<bool>,
                 c: nat, t: nat, x: nat, done': seq<bool>)
    requires Inside(start, was) && Packed(was, now, start, pos, end, done)
    requires start.byte <= pos.byte < end && pos.bit + c + t == 8 && c > 0 && x < Pow2(c)
    requires done' == done + Bits(x, c)
    ensures Or(Opened(now, pos)[pos.byte], Shl(x, t)) < 256
    ensures var z := Opened(now, pos);
            Packed(was, z[pos.byte := Or(z[pos.byte], Shl(x, t))], start, After(pos, c), end, done')
  {
    hide Or, Shl, Pow2, Low, Bits, Shr, ToBits, Stream, Clean;
    OpenedStream(now, pos);
    var z := Opened(now, pos);
    AppendBits(z, pos, c, t, x);
    var z': seq<Byte> := z[pos.byte := Or(z[pos.byte], Shl(x, t))];
    assert z'[..start.byte] == now[..start.byte];
    assert z'[end..] == now[end..];
    assert Stream(was, start) + done + Bits(x, c) == Stream(was, start) + done';
  }

  /** The next c bits of an element: the notation continues. */
  lemma SelectBits(u: nat, numBits: nat, bitsLeft: nat, c: nat) returns (x: nat)
    requires c <= bitsLeft <= numBits
    ensures x == And(Shr(u, bitsLeft - c), Pow2(c) - 1) && x < Pow2(c)
    ensures Bits(Shr(u, bitsLeft), numBits - bitsLeft) + Bits(x, c)
            == Bits(Shr(u, bitsLeft - c), numBits - (bitsLeft - c))
  {
    var w := Shr(u, bitsLeft - c);
    AndMask(w, c);
    x := And(w, Pow2(c) - 1);
    ShrAdd(u, bitsLeft - c, c);
    BitsSplit(w, numBits - bitsLeft, c);
    BitsLow(w, c, c);
  }

  lemma BitsEnds(u: nat, n: nat)
    ensures Bits(Shr(u, n), 0) == [] && Shr(u, 0) == u
  {
  }

  /** Or-s the c-bit value x, shifted to its place, into the byte at `pos`, clearing a byte that
      is met for the first time. */
  method OrIntoByte(buf: array<Byte>, posByte: nat, posBit: nat, x: nat, t: nat, ghost c: nat,
                    ghost was: seq<Byte>, ghost start: Pos, ghost end: nat, ghost done: seq<bool>,
                    ghost done': seq<bool>)
    requires Inside(start, was) && start.byte <= posByte < end && posBit < 8
    requires Packed(was, buf[..], start, Pos(posByte, posBit), end, done)
    requires posBit + c + t == 8 && c > 0 && x < Pow2(c) && done' == done + Bits(x, c)
    modifies buf
    ensures Packed(was, buf[..], start, After(Pos(posByte, posBit), c), end, done')
  {
    ghost var now, pos := buf[..], Pos(posByte, posBit);
    PackStep(was, now, start, pos, end, done, c, t, x, done');
    if posBit == 0 {
      buf[posByte] := 0;
    }
    assert buf[..] == Opened(now, pos);
    buf[posByte] := Or(buf[posByte], Shl(x, t));
    assert buf[..] == Opened(now, pos)[posByte := buf[posByte]];
  }

  /** The inner loop of the packer: one element, a byte at a time. */
  method EncodeElementBits(buf: array<Byte>, posByte: nat, posBit: nat, u: nat, numBits: nat,
                           ghost was: seq<Byte>, ghost start: Pos, ghost end: nat, ghost done: seq<bool>)
    returns (nextByte: nat, nextBit: nat)
    requires Inside(start, was) && start.byte <= posByte && posBit < 8
    requires Packed(was, buf[..], start, Pos(posByte, posBit), end, done)
    requires 8 * posByte + posBit + numBits <= 8 * end
    modifies buf
    ensures nextBit < 8 && 8 * nextByte + nextBit == 8 * posByte + posBit + numBits && posByte <= nextByte
    ensures Packed(was, buf[..], start, Pos(nextByte, nextBit), end, done + Bits(u, numBits))
  {
    hide Packed, Stream, Clean, And, Pow2, Bits, Shr;
    nextByte, nextBit := posByte, posBit;
    var bitsLeft: nat := numBits;
    BitsEnds(u, bitsLeft);
    assert done + [] == done;
    while bitsLeft > 0
      invariant bitsLeft <= numBits && posByte <= nextByte && nextBit < 8
      invariant 8 * nextByte + nextBit + bitsLeft == 8 * posByte + posBit + numBits
      invariant Packed(was, buf[..], start, Pos(nextByte, nextBit), end,
                       done + Bits(Shr(u, bitsLeft), numBits - bitsLeft))
    {
      ghost var sofar := Bits(Shr(u, bitsLeft), numBits - bitsLeft);
      var shift := nextBit + bitsLeft - 8;
      if shift < 0 {
        var mask := Pow2(bitsLeft) - 1;
        ghost var x := SelectBits(u, numBits, bitsLeft, bitsLeft);
        assert done + Bits(u, numBits) == done + sofar + Bits(x, bitsLeft);
        OrIntoByte(buf, nextByte, nextBit, And(u, mask), -shift, bitsLeft, was, start, end,
                   done + sofar, done + Bits(u, numBits));
        nextBit := nextBit + bitsLeft;
        return;
      }
      var mask := Pow2(bitsLeft - shift) - 1;
      ghost var x := SelectBits(u, numBits, bitsLeft, bitsLeft - shift);
      ghost var next := Bits(Shr(u, shift), numBits - shift);
      assert done + next == done + sofar + Bits(x, bitsLeft - shift);
      OrIntoByte(buf, nextByte, nextBit, And(Shr(u, shift), mask), 0, bitsLeft - shift, was, start, end,
                 done + sofar, done + next);
      bitsLeft := shift;
      nextBit := 0;
      nextByte := nextByte + 1;
    }
  }

  /** Packs the low numBits bits of every element of p from (offset, offsetBits) on. Returns the
      number of bits written, or -1 when they would not fit in maxBytes. */
  method EncodeArrayBits(buf: array<Byte>, offset: nat, offsetBits: nat, maxBytes: nat,
                         p: seq<int>, numBits: nat, ty: Storage)
    returns (r: int)
    requires ValidStorage(ty) && 0 < numBits <= ty.width
    requires offsetBits < 8 && offset + maxBytes <= buf.Length
    requires offsetBits > 0 ==> maxBytes > 0
    requires Clean(buf[..], Pos(offset, offsetBits))
    requires Span(|p|, numBits) <= INT_MAX
    modifies buf
    ensures r == if maxBytes < EncodedSize(Span(|p|, numBits) + offsetBits) then -1 else Span(|p|, numBits)
    ensures r < 0 ==> buf[..] == old(buf[..])
    ensures r >= 0 ==> Packed(old(buf[..]), buf[..], Pos(offset, offsetBits), Advance(Pos(offset, offsetBits), r),
                              offset + EncodedSize(r + offsetBits), ElemBits(p, numBits))
  {
    hide Stream, Clean, Mul32, Packed, ElemBits, Bits, Low, U32, EncodedSize, Span, Advance;
    SpanNext(0, numBits);
    var total := Mul32(|p|, numBits);
    U32Small(Span(|p|, numBits) + offsetBits);
    if maxBytes < EncodedSize(U32(total + offsetBits)) {
      return -1;
    }
    ghost var was, start := buf[..], Pos(offset, offsetBits);
    ghost var end := offset + EncodedSize(total + offsetBits);
    PackedNothing(was, start, end, numBits);
    assert p[..0] == [];
    var posByte: nat, posBit: nat := offset, offsetBits;
    var element := 0;
    while element < |p|
      invariant 0 <= element <= |p| && offset <= posByte && posBit < 8
      invariant 8 * posByte + posBit == 8 * offset + offsetBits + Span(element, numBits)
      invariant Packed(was, buf[..], start, Pos(posByte, posBit), end, ElemBits(p[..element], numBits))
    {
      var u := Low(p[element], ty.width);
      ElemBitsNext(p, element, numBits);
      SpanNext(element, numBits);
      SpanMono(element + 1, |p|, numBits);
      posByte, posBit := EncodeElementBits(buf, posByte, posBit, u, numBits, was, start, end,
                                           ElemBits(p[..element], numBits));
      BitsLow(p[element], ty.width, numBits);
      element := element + 1;
    }
    assert p[..|p|] == p;
    AdvanceUnique(start, total, Pos(posByte, posBit));
    r := total;
  }

  /* ---------- unpacking ---------- */

  /** Conversion of an integer to the C type `ty`. */
  function ToType(x: int, ty: Storage): int
    requires ty.width > 0
  {
    var r := Low(x, ty.width);
    if ty.signed && r >= Pow2(ty.width - 1) then r - Pow2(ty.width) else r
  }

  /** The signed reading of a bit sequence: its first bit counts negatively. */
  function SignedNum(s: seq<bool>): int {
    if s != [] && s[0] then Num(s) - Pow2(|s|) else Num(s)
  }

  /** The number an unpacker reads from a field, before it is stored. */
  function Reading(s: seq<bool>, signExtend: bool): int {
    if signExtend then SignedNum(s) else Num(s)
  }

  /** What an unpacker stores for the bits of a field. */
  function FieldValue(s: seq<bool>, signExtend: bool, ty: Storage): int
    requires ty.width > 0
  {
    ToType(Reading(s, signExtend), ty)
  }

  lemma {:induction false} ShlPow2(m: nat, n: nat)
    ensures Shl(Pow2(m), n) == Pow2(m + n)
    decreases n
  {
    if n > 0 {
      ShlPow2(m, n - 1);
    }
  }

  lemma ReadingConcat(s: seq<bool>, t: seq<bool>, signExtend: bool)
    requires s != []
    ensures Reading(s + t, signExtend) == Shl(Reading(s, signExtend), |t|) + Num(t)
  {
    hide Num, Pow2, Shl;
    NumConcat(s, t);
    assert (s + t)[0] == s[0] && |s + t| == |s| + |t|;
    if signExtend && s[0] {
      var n: int, p: int, k := Num(s), Pow2(|s|), |t|;
      ShlPow2(|s|, k);
      ShlNeg(p, k);
      ShlSum(n, 0 - p, k);
    }
  }

  lemma {:induction false} ShlNeg(x: int, n: nat)
    ensures Shl(-x, n) == -Shl(x, n)
    decreases n
  {
    if n > 0 {
      ShlNeg(x, n - 1);
    }
  }

  /** The stored value depends only on the number modulo 2^width. */
  lemma ToTypeCongruent(x: int, y: int, ty: Storage)
    requires ty.width > 0 && Low(x, ty.width) == Low(y, ty.width)
    ensures ToType(x, ty) == ToType(y, ty)
  {
  }

  lemma ToTypeLow(x: int, ty: Storage)
    requires ty.width > 0
    ensures Low(ToType(x, ty), ty.width) == Low(x, ty.width)
  {
    LowLow(x, ty.width, ty.width);
    LowShift(Low(x, ty.width), -1, ty.width);
    ShlNeg(1, ty.width);
    ShlPow2(0, ty.width);
  }

  /** c bits of an n-bit notation, taken above its t low bits. */
  lemma SliceBits(b: nat, n: nat, posBit: nat, c: nat, t: nat)
    requires posBit + c + t == n
    ensures Bits(b, n)[posBit..posBit + c] == Bits(Shr(b, t), c)
  {
    BitsSplit(b, posBit + c, t);
    BitsSplit(Shr(b, t), posBit, c);
  }

  /** The masked and left-aligned byte of the unpacker. */
  function Payload(b: Byte, posBit: nat, c: nat): (payload: nat)
    requires posBit + c <= 8
  {
    Low(Shl(And(b, Shl(Pow2(c) - 1, 8 - c - posBit)), posBit), 8)
  }

  lemma PayloadAligned(x: nat, t: nat, posBit: nat, c: nat)
    requires posBit + c + t == 8 && x < Pow2(c)
    ensures Low(Shl(Shl(x, t), posBit), 8) == Shl(x, 8 - c)
  {
    ShlAdd(x, t, posBit);
    ShlBound(x, 0, c, 8 - c);
    LowSmall(Shl(x, 8 - c), 8);
  }

  lemma LowUnder(x: int, n: nat)
    ensures Low(x, n) < Pow2(n)
  {
  }

  /** It holds the next c bits, left-aligned. */
  lemma PayloadBits(b: Byte, posBit: nat, c: nat)
    requires posBit + c <= 8
    ensures Payload(b, posBit, c) == Shl(Num(Bits(b, 8)[posBit..posBit + c]), 8 - c)
  {
    hide Bits, And, Low, Shl, Shr, Pow2;
    var t := 8 - c - posBit;
    LowUnder(Shr(b, t), c);
    SliceBits(b, 8, posBit, c, t);
    NumBits(Shr(b, t), c);
    AndShiftedMask(b, c, t);
    PayloadAligned(Low(Shr(b, t), c), t, posBit, c);
  }

  /** The payload as the first sign type reads it. */
  function SignedPayload(payload: nat, signExtend: bool): int {
    if signExtend && payload >= 128 then payload - 256 else payload
  }

  lemma SignedPayloadReading(s: seq<bool>, signExtend: bool)
    requires 0 < |s| <= 8
    ensures SignedPayload(Shl(Num(s), 8 - |s|), signExtend) == Shl(Reading(s, signExtend), 8 - |s|)
  {
    var k := 8 - |s|;
    SignBound(s, k);
    if signExtend && s[0] {
      var n: int, p: int := Num(s), Pow2(|s|);
      ShlPow2(|s|, k);
      ShlNeg(p, k);
      ShlSum(n, 0 - p, k);
      Pow2Byte();
    }
  }

  lemma PowPositive(n: nat)
    ensures 0 < Pow2(n)
  {
  }

  lemma ShlBelow(x: nat, n: nat)
    ensures Shl(x, n) >= 0
  {
  }

  /** The first bit counts 2^(n-1). */
  lemma FirstBit(s: seq<bool>, h: seq<bool>)
    requires s != [] && h == s[1..]
    ensures Num(s) == (if s[0] then Pow2(|h|) else 0) + Num(h)
  {
    assert s == [s[0]] + h;
    NumConcat([s[0]], h);
    assert Num([s[0]]) == if s[0] then 1 else 0;
    ShlPow2(0, |h|);
    ShlZeros(|h|);
  }

  /** The first bit decides whether the left-aligned field is 128 or more. */
  lemma SignBound(s: seq<bool>, k: nat)
    requires s != [] && |s| + k == 8
    ensures Shl(Num(s), k) >= 128 <==> s[0]
    ensures Shl(Num(s), k) < 256
  {
    hide Num, Shl, Pow2;
    var h := s[1..];
    FirstBit(s, h);
    NumBound(h);
    ShlPow2(|h|, k);
    PowPositive(k);
    ShlBound(Num(h), 0, |h|, k);
    ShlSum(Pow2(|h|), Num(h), k);
    ShlBelow(Num(h), k);
    Pow2Byte();
    assert |h| + k == 7;
  }

  lemma {:induction false} ShlZeros(n: nat)
    ensures Shl(0, n) == 0
  {
    if n > 0 {
      ShlZeros(n - 1);
    }
  }

  lemma LowAddCongruent(a: int, a': int, b: int, n: nat)
    requires Low(a, n) == Low(a', n)
    ensures Low(a + b, n) == Low(a' + b, n)
  {
    ShrLow(a, n);
    ShrLow(a', n);
    LowShift(Low(a, n) + b, Shr(a, n), n);
    LowShift(Low(a, n) + b, Shr(a', n), n);
  }

  /** The payload moved to where the remaining bits of the element start. */
  lemma PlacePayload(r: int, c: nat, bitsLeft: nat)
    requires 0 < c <= bitsLeft && c <= 8
    ensures bitsLeft > 8 ==> Shl(Shl(r, 8 - c), bitsLeft - 8) == Shl(r, bitsLeft - c)
    ensures bitsLeft <= 8 ==> Shr(Shl(r, 8 - c), 8 - bitsLeft) == Shl(r, bitsLeft - c)
  {
    if bitsLeft > 8 {
      ShlAdd(r, 8 - c, bitsLeft - 8);
    } else {
      ShlAdd(r, bitsLeft - c, 8 - bitsLeft);
      ShlDigit(Shl(r, bitsLeft - c), 0, 8 - bitsLeft);
    }
  }

  /** A stored element with bitsLeft bits to come has those bits zero. */
  lemma LowBitsFree(value: int, r: int, bitsLeft: nat, ty: Storage)
    requires bitsLeft < ty.width <= 64 && value == ToType(Shl(r, bitsLeft), ty)
    ensures Low(Low(value, 64), bitsLeft) == 0
    ensures Low(Low(value, 64), ty.width) == Low(Shl(r, bitsLeft), ty.width)
  {
    ToTypeLow(Shl(r, bitsLeft), ty);
    LowLow(value, 64, bitsLeft);
    LowLow(value, 64, ty.width);
    LowLow(value, ty.width, bitsLeft);
    LowLow(Shl(r, bitsLeft), ty.width, bitsLeft);
    ShlDigit(r, 0, bitsLeft);
  }

  /** Or-ing the next c bits into the element. */
  lemma OrNext(value: int, r: int, bitsLeft: nat, c: nat, x: nat, ty: Storage)
    requires 0 < c <= bitsLeft < ty.width <= 64 && x < Pow2(c)
    requires value == ToType(Shl(r, bitsLeft), ty)
    ensures ToType(Or(Low(value, 64), Shl(x, bitsLeft - c)), ty) == ToType(Shl(Shl(r, c) + x, bitsLeft - c), ty)
  {
    hide ToType, Low, Shl, Or;
    var y := Shl(x, bitsLeft - c);
    var v := Low(value, 64);
    LowBitsFree(value, r, bitsLeft, ty);
    ShlBound(x, 0, c, bitsLeft - c);
    OrDisjoint(v, y, bitsLeft);
    ShlAdd(r, c, bitsLeft - c);
    ShlSum(Shl(r, c), x, bitsLeft - c);
    LowAddCongruent(v, Shl(r, bitsLeft), y, ty.width);
    ToTypeCongruent(v + y, Shl(r, bitsLeft) + y, ty);
  }

  /** The next c bits of the stream, as the payload shows them. */
  lemma NextBits(buf: seq<Byte>, pos: Pos, c: nat, k: nat)
    requires pos.byte < |buf| && pos.bit + c <= 8 && k == 8 * pos.byte + pos.bit
    ensures Payload(buf[pos.byte], pos.bit, c) == Shl(Num(ToBits(buf)[k..k + c]), 8 - c)
  {
    hide Payload, Shl, Num, Bits, ToBits;
    ToBitsAt(buf, pos.byte);
    PayloadBits(buf[pos.byte], pos.bit, c);
    SubSlice(ToBits(buf), 8 * pos.byte, 8 * pos.byte + 8, pos.bit, pos.bit + c);
  }

  /** The payload shifted to its place in an element with bitsLeft bits to come. */
  function Placed(payload: int, bitsLeft: nat): int {
    var shift := 8 - bitsLeft;
    if shift < 0 then Shl(payload, -shift) else Shr(payload, shift)
  }

  lemma FirstChunk(buf: seq<Byte>, pos: Pos, c: nat, k: nat, numBits: nat, signExtend: bool)
    requires pos.byte < |buf| && pos.bit + c <= 8 && k == 8 * pos.byte + pos.bit && 0 < c <= numBits
    ensures Placed(SignedPayload(Payload(buf[pos.byte], pos.bit, c), signExtend), numBits)
            == Shl(Reading(ToBits(buf)[k..k + c], signExtend), numBits - c)
  {
    var t := ToBits(buf)[k..k + c];
    NextBits(buf, pos, c, k);
    SignedPayloadReading(t, signExtend);
    PlacePayload(Reading(t, signExtend), c, numBits);
  }

  lemma NextChunk(buf: seq<Byte>, pos: Pos, c: nat, k: nat, at: nat, value: int, bitsLeft: nat,
                  signExtend: bool, ty: Storage)
    requires pos.byte < |buf| && pos.bit + c <= 8 && at == 8 * pos.byte + pos.bit && k < at
    requires 0 < c <= bitsLeft < ty.width <= 64
    requires value == ToType(Shl(Reading(ToBits(buf)[k..at], signExtend), bitsLeft), ty)
    ensures Placed(Payload(buf[pos.byte], pos.bit, c), bitsLeft) >= 0
    ensures ToType(Or(Low(value, 64), Placed(Payload(buf[pos.byte], pos.bit, c), bitsLeft)), ty)
            == ToType(Shl(Reading(ToBits(buf)[k..at + c], signExtend), bitsLeft - c), ty)
  {
    hide ToBits, Num, Low, Or, Shl, Shr, ToType, Payload, Reading;
    var bits := ToBits(buf);
    var s, t := bits[k..at], bits[at..at + c];
    NextBits(buf, pos, c, at);
    PlacePayload(Num(t), c, bitsLeft);
    NumBound(t);
    OrNext(value, Reading(s, signExtend), bitsLeft, c, Num(t), ty);
    ReadingConcat(s, t, signExtend);
    assert s + t == bits[k..at + c];
  }

  lemma ShlZero(x: int)
    ensures Shl(x, 0) == x
  {
  }

  /** The inner loop of an unpacker: one element, a byte at a time. */
  method DecodeElementBits(buf: seq<Byte>, posByte: nat, posBit: nat, numBits: nat, signExtend: bool, ty: Storage)
    returns (value: int, nextByte: nat, nextBit: nat)
    requires 0 < numBits <= ty.width <= 64 && posBit < 8
    requires 8 * posByte + posBit + numBits <= 8 * |buf|
    ensures nextBit < 8 && 8 * nextByte + nextBit == 8 * posByte + posBit + numBits
    ensures var k := 8 * posByte + posBit;
            value == FieldValue(ToBits(buf)[k..k + numBits], signExtend, ty)
  {
    hide ToBits, Reading, Low, Or, Shl, Placed, ToType, Payload, SignedPayload;
    ghost var bits, k := ToBits(buf), 8 * posByte + posBit;
    nextByte, nextBit, value := posByte, posBit, 0;
    var bitsLeft: nat := numBits;
    while bitsLeft > 0
      invariant bitsLeft <= numBits && nextBit < 8
      invariant 8 * nextByte + nextBit + bitsLeft == k + numBits
      invariant bitsLeft < numBits ==>
          value == ToType(Shl(Reading(bits[k..k + numBits - bitsLeft], signExtend), bitsLeft), ty)
    {
      var availableBits := 8 - nextBit;
      var c := if availableBits < bitsLeft then availableBits else bitsLeft;
      var payload := Payload(buf[nextByte], nextBit, c);
      ghost var at := k + numBits - bitsLeft;
      if bitsLeft == numBits {
        FirstChunk(buf, Pos(nextByte, nextBit), c, at, numBits, signExtend);
        value := ToType(Placed(SignedPayload(payload, signExtend), bitsLeft), ty);
      } else {
        NextChunk(buf, Pos(nextByte, nextBit), c, k, at, value, bitsLeft, signExtend, ty);
        value := ToType(Or(Low(value, 64), Placed(payload, bitsLeft)), ty);
      }
      bitsLeft := bitsLeft - c;
      nextBit := nextBit + c;
      if nextBit == 8 {
        nextBit := 0;
        nextByte := nextByte + 1;
      }
    }
    ShlZero(Reading(bits[k..k + numBits], signExtend));
  }

  /** The fields read from consecutive numBits-bit slices of a bit stream. */
  function FieldValues(bits: seq<bool>, k: nat, elements: nat, numBits: nat, signExtend: bool, ty: Storage): (p: seq<int>)
    requires ty.width > 0 && k + Span(elements, numBits) <= |bits|
    ensures |p| == elements
    decreases elements
  {
    if elements == 0 then []
    else
      var at := k + Span(elements - 1, numBits);
      FieldValues(bits, k, elements - 1, numBits, signExtend, ty)
      + [FieldValue(bits[at..at + numBits], signExtend, ty)]
  }

  /** The unpacker's size test passes and its loop goes behind the bytes it may read. */
  predicate OverrunsBits(elements: nat, numBits: nat, offsetBits: nat, maxBytes: nat) {
    EncodedSize(U32(Mul32(elements, numBits) + offsetBits)) <= maxBytes && 8 * maxBytes < offsetBits + Span(elements, numBits)
  }

  /** Reads `elements` fields from (offset, offsetBits) on. Returns the number of bits consumed, or
      -1 when maxBytes does not cover them. `inside` is false when the loop leaves the bytes that
      maxBytes allows, from where on C defines nothing. */
  method DecodeArrayBits(buf: seq<Byte>, offset: nat, offsetBits: nat, maxBytes: nat,
                         block: Block, elements: nat, numBits: nat, signExtend: bool, ty: Storage)
    returns (inside: bool, r: int, p: seq<int>)
    requires ValidStorage(ty) && 0 < numBits <= ty.width
    requires offsetBits < 8 && offset + maxBytes <= |buf| && (offsetBits > 0 ==> maxBytes > 0)
    ensures inside <==>
            EncodedSize(U32(Mul32(elements, numBits) + offsetBits)) <= maxBytes ==>
              !OverrunsBits(elements, numBits, offsetBits, maxBytes) && Holds(block, elements, ty.width / 8)
    ensures inside && maxBytes < EncodedSize(U32(Mul32(elements, numBits) + offsetBits)) ==> r == -1
    ensures inside && maxBytes >= EncodedSize(U32(Mul32(elements, numBits) + offsetBits)) ==>
              && 8 * offset + offsetBits + Span(elements, numBits) <= 8 * |buf|
              && r == AsInt(Mul32(elements, numBits))
              && p == FieldValues(ToBits(buf), 8 * offset + offsetBits, elements, numBits, signExtend, ty)
  {
    hide ToBits, FieldValue, Mul32, Span, FieldValues, Holds;
    var total := Mul32(elements, numBits);
    if maxBytes < EncodedSize(U32(total + offsetBits)) {
      return true, -1, [];
    }
    inside, p := UnpackFields(buf, offset + maxBytes, offset, offsetBits, block, elements, numBits, signExtend, ty);
    r := AsInt(total);
  }

  /** The outer loop of an unpacker, up to the first element that is not inside the bytes before `end`. */
  method UnpackFields(buf: seq<Byte>, end: nat, offset: nat, offsetBits: nat, block: Block, elements: nat, numBits: nat,
                      signExtend: bool, ty: Storage)
    returns (inside: bool, p: seq<int>)
    requires ValidStorage(ty) && 0 < numBits <= ty.width && end <= |buf|
    requires offsetBits < 8 && 8 * offset + offsetBits <= 8 * end
    ensures inside <==>
            8 * offset + offsetBits + Span(elements, numBits) <= 8 * end && Holds(block, elements, ty.width / 8)
    ensures inside ==> p == FieldValues(ToBits(buf), 8 * offset + offsetBits, elements, numBits, signExtend, ty)
  {
    hide ToBits, FieldValue, FieldValues, Span, Holds;
    HoldsNone(block, ty.width / 8);
    p := [];
    ghost var k := 8 * offset + offsetBits;
    var posByte: nat, posBit: nat := offset, offsetBits;
    var element := 0;
    FieldsNone(ToBits(buf), k, numBits, signExtend, ty);
    while element < elements
      invariant 0 <= element <= elements && posBit < 8 && Holds(block, element, ty.width / 8)
      invariant 8 * posByte + posBit == k + Span(element, numBits) <= 8 * end
      invariant p == FieldValues(ToBits(buf), k, element, numBits, signExtend, ty)
    {
      SpanNext(element, numBits);
      SpanMono(element + 1, elements, numBits);
      if Holds(block, elements, ty.width / 8) { HoldsFewer(block, element + 1, elements, ty.width / 8); }
      if 8 * end < 8 * posByte + posBit + numBits || !Holds(block, element + 1, ty.width / 8) {
        return false, [];
      }
      FieldsNext(ToBits(buf), k, element, numBits, signExtend, ty);
      var value: int;
      value, posByte, posBit := DecodeElementBits(buf, posByte, posBit, numBits, signExtend, ty);
      p := p + [value];
      element := element + 1;
    }
    return true, p;
  }

  /** When that happens: the bit count passes 2^32 and what is left of it is covered. Below 2^29 bytes
      the two together are exactly the condition. */
  lemma OverrunsBitsWhen(elements: nat, numBits: nat, offsetBits: nat, maxBytes: nat)
    ensures var bits := Span(elements, numBits) + offsetBits;
            && (OverrunsBits(elements, numBits, offsetBits, maxBytes) ==> bits >= 0x1_0000_0000 && EncodedSize(U32(bits)) <= maxBytes)
            && (maxBytes < 0x2000_0000 ==>
                  (OverrunsBits(elements, numBits, offsetBits, maxBytes)
                   <==> bits >= 0x1_0000_0000 && EncodedSize(U32(bits)) <= maxBytes))
  {
    hide Span, U32, Mul32, EncodedSize;
    var bits := Span(elements, numBits) + offsetBits;
    U32Sum(Span(elements, numBits), offsetBits);
    if bits < 0x1_0000_0000 { U32Small(bits); }
  }

  /* ---------- packing and unpacking ---------- */

  /** The numbers a numBits-wide field can carry. */
  predicate InField(v: int, numBits: nat, signExtend: bool)
    requires numBits > 0
  {
    if signExtend then 0 <= v + Pow2(numBits - 1) && v < Pow2(numBits - 1) else 0 <= v < Pow2(numBits)
  }

  /** The numbers of a C type. */
  predicate InType(v: int, ty: Storage)
    requires ty.width > 0
  {
    if ty.signed then 0 <= v + Pow2(ty.width - 1) && v < Pow2(ty.width - 1) else 0 <= v < Pow2(ty.width)
  }

  lemma ToTypeInType(x: int, ty: Storage)
    requires ty.width > 0
    ensures InType(ToType(x, ty), ty)
  {
    LowUnder(x, ty.width);
    assert Pow2(ty.width) == 2 * Pow2(ty.width - 1);
  }

  lemma ToTypeFits(v: int, ty: Storage)
    requires ty.width > 0 && InType(v, ty)
    ensures ToType(v, ty) == v
  {
    if v >= 0 {
      LowSmall(v, ty.width);
    } else {
      ShlPow2(0, ty.width);
      LowShift(v, 1, ty.width);
      LowSmall(v + Pow2(ty.width), ty.width);
    }
  }

  /** The first bit of the notation is the sign. */
  lemma SignBit(v: int, n: nat)
    requires n > 0
    ensures Bits(v, n)[0] <==> Low(v, n) >= Pow2(n - 1)
  {
    var s := Bits(v, n);
    FirstBit(s, s[1..]);
    NumBound(s[1..]);
    NumBits(v, n);
  }

  /** An unpacker recovers any number modulo 2^numBits, and as the signed reading of those bits. */
  lemma FieldReading(v: int, numBits: nat)
    requires numBits > 0
    ensures Reading(Bits(v, numBits), false) == Low(v, numBits)
    ensures Reading(Bits(v, numBits), true) == ToType(v, Storage(numBits, true))
  {
    NumBits(v, numBits);
    SignBit(v, numBits);
  }

  lemma FieldRoundTrip(v: int, numBits: nat, signExtend: bool, ty: Storage)
    requires 0 < numBits <= ty.width && InField(v, numBits, signExtend) && InType(v, ty)
    ensures FieldValue(Bits(v, numBits), signExtend, ty) == v
  {
    FieldReading(v, numBits);
    if signExtend {
      ToTypeFits(v, Storage(numBits, true));
    } else {
      LowSmall(v, numBits);
    }
    ToTypeFits(v, ty);
  }

  /** Unpacking what the packer wrote gives the elements back, wherever it lies in the stream. */
  lemma {:induction false} FieldsRoundTrip(bits: seq<bool>, k: nat, p: seq<int>, numBits: nat, signExtend: bool, ty: Storage)
    requires 0 < numBits <= ty.width
    requires forall i | 0 <= i < |p| :: InField(p[i], numBits, signExtend) && InType(p[i], ty)
    requires k + Span(|p|, numBits) <= |bits| && bits[k..k + Span(|p|, numBits)] == ElemBits(p, numBits)
    ensures FieldValues(bits, k, |p|, numBits, signExtend, ty) == p
  {
    hide FieldValue, Bits, InField, InType, ElemBits, FieldValues, Span;
    if p == [] {
      FieldsNone(bits, k, numBits, signExtend, ty);
    } else {
      var n := |p| - 1;
      var at := k + Span(n, numBits);
      SpanNext(n, numBits);
      ElemBitsNext(p, n, numBits);
      assert p[..n + 1] == p;
      ElemBitsLength(p[..n], numBits);
      assert bits[k..at] + bits[at..at + numBits] == bits[k..at + numBits];
      SplitEqual(bits[k..at], bits[at..at + numBits], ElemBits(p[..n], numBits), Bits(p[n], numBits));
      FieldsRoundTrip(bits, k, p[..n], numBits, signExtend, ty);
      FieldRoundTrip(p[n], numBits, signExtend, ty);
      FieldsNext(bits, k, n, numBits, signExtend, ty);
      assert p == p[..n] + [p[n]];
    }
  }

  lemma SpanNext(n: nat, numBits: nat)
    ensures Span(0, numBits) == 0 && Span(n + 1, numBits) == Span(n, numBits) + numBits
  {
  }

  lemma FieldsNone(bits: seq<bool>, k: nat, numBits: nat, signExtend: bool, ty: Storage)
    requires ty.width > 0 && k <= |bits|
    ensures Span(0, numBits) == 0 && FieldValues(bits, k, 0, numBits, signExtend, ty) == []
  {
  }

  lemma FieldsNext(bits: seq<bool>, k: nat, n: nat, numBits: nat, signExtend: bool, ty: Storage)
    requires ty.width > 0 && k + Span(n + 1, numBits) <= |bits|
    ensures var at := k + Span(n, numBits);
            && at + numBits <= |bits|
            && FieldValues(bits, k, n + 1, numBits, signExtend, ty)
               == FieldValues(bits, k, n, numBits, signExtend, ty) + [FieldValue(bits[at..at + numBits], signExtend, ty)]
  {
    hide FieldValue;
  }
}
