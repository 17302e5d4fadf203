/** The decoder that the C back end emits (gen/emit/EmitC.cpp), as a function of the buffer, and
    the round trip with the wire format. Positions are absolute bit positions; `limit` is the byte
    after the last one the decoder may read; `depth` is the depth of nested records the call stack
    allows. Sizes are computed in the C types, so that a count from a message can wrap. Calls of malloc
    succeed. */
module Decoding {
  import opened Binary
  import opened BitPacker
  import opened PrimArrays
  import opened Schema
  import opened Blocks

  /** What a decoder does: it fails, it returns a value and ends at a position, C leaves its behaviour
      undefined (it reads behind the limit, it stores behind the block it allocated, or its int loop
      variable overflows), or the call stack ends. */
  datatype Read<+T> = Short | Got(value: T, pos: nat) | Undefined | TooDeep

  /** The same outcome of a caller, when there is no value to go on with. */
  function Fail<T, U>(r: Read<T>): (s: Read<U>)
    requires !r.Got?
    ensures !s.Got? && (s.Short? <==> r.Short?) && (s.Undefined? <==> r.Undefined?)
  {
    match r
    case Short => Short
    case Undefined => Undefined
    case TooDeep => TooDeep
  }

  /** The number of units consumed is returned as an int: what is too large for it looks like a failure. */
  function Reported<T>(r: Read<T>, pos: nat, unit: nat): Read<T> {
    if r.Got? && r.pos > pos + unit * INT_MAX then Short else r
  }

  /** A reading that needs its stores to stay inside their blocks. */
  function Within<T>(fits: bool, r: Read<T>): Read<T> {
    if fits then r else Undefined
  }

  /* ---------- elements ---------- */

  /** `count` words of n bytes. */
  function WordsAt(buf: seq<Byte>, at: nat, count: nat, p: Prim, le: bool): (vs: seq<Value>)
    requires at + Span(count, NumBytes(p)) <= |buf|
    ensures |vs| == count
  {
    if count == 0 then []
    else
      var k := at + Span(count - 1, NumBytes(p));
      WordsAt(buf, at, count - 1, p, le)
      + [Word(ToType(BytesNum(buf[k..k + NumBytes(p)], le), StorageOf(p)))]
  }

  function AsWords(p: seq<int>): (vs: seq<Value>)
    ensures |vs| == |p| && forall i | 0 <= i < |p| :: vs[i] == Word(p[i])
  {
    seq(|p|, i requires 0 <= i < |p| => Word(p[i]))
  }

  /** The characters before the terminator. */
  function CString(raw: seq<Byte>): seq<Byte> {
    if raw == [] || raw[0] == 0 then [] else [raw[0]] + CString(raw[1..])
  }

  /** One string; its length is read, then the pointer to it is stored, which `stored` says is in its
      block. A negative length is a size that no buffer covers or that is not an int. */
  function DecodeText(buf: seq<Byte>, limit: nat, at: nat, stored: bool, le: bool): Read<Value>
    requires limit <= |buf|
  {
    if limit < at + 4 then Short
    else if !stored then Undefined
    else
      var length := ToType(BytesNum(buf[at..at + 4], le), Storage(32, true));
      if length < 0 || limit < at + 4 + length then Short
      else Got(Chars(CString(buf[at + 4..at + 4 + length])), 8 * (at + 4 + length))
  }

  /** A length read from the wire is an int32_t; a negative one becomes more than any int. */
  lemma LengthRange(x: nat)
    ensures var length := ToType(x, Storage(32, true));
            && -0x8000_0000 <= length <= INT_MAX
            && (length >= 0 ==> U32(length) == length) && (length < 0 ==> U32(length) > INT_MAX)
  {
    Pow2At31();
    LowUnder(x, 32);
    assert Pow2(32) == 2 * Pow2(31);
  }

  function DecodeTexts(buf: seq<Byte>, limit: nat, at: nat, block: Block, pointer: nat, count: nat, le: bool): Read<seq<Value>>
    requires limit <= |buf|
  {
    if count == 0 then Got([], 8 * at)
    else
      var before := DecodeTexts(buf, limit, at, block, pointer, count - 1, le);
      if !before.Got? then before
      else
        var next := DecodeText(buf, limit, before.pos / 8, Holds(block, count, pointer), le);
        if !next.Got? then Fail(next) else Got(before.value + [next.value], next.pos)
  }

  /** Words behind the size test of their array codec: the test may pass with a wrapped size. */
  function DecodePlain(p: Prim, buf: seq<Byte>, limit: nat, pos: nat, block: Block, elements: nat, le: bool): Read<seq<Value>>
    requires limit <= |buf|
  {
    var n := NumBytes(p);
    if limit < pos / 8 + Mul32(elements, n) then Short
    else if limit < pos / 8 + Span(elements, n) || !Holds(block, elements, n) then Undefined
    else Got(WordsAt(buf, pos / 8, elements, p, le), 8 * (pos / 8 + Mul32(elements, n)))
  }

  /** Bit fields behind the size test of the unpacker. */
  function DecodeFields(ty: MemberType, buf: seq<Byte>, limit: nat, pos: nat, block: Block, elements: nat): Read<seq<Value>>
    requires limit <= |buf| && ty.BitField?
  {
    var total := Mul32(elements, ty.numBits);
    if limit < pos / 8 + EncodedSize(U32(total + pos % 8)) then Short
    else if 8 * limit < pos + Span(elements, ty.numBits) || !Holds(block, elements, NumBytes(ty.prim)) then Undefined
    else Got(AsWords(FieldValues(ToBits(buf), pos, elements, ty.numBits, ty.signExtend, StorageOf(ty.prim))), pos + total)
  }

  /* ---------- records ---------- */

  /** The call for a batch of elements behind the last dimension; the count becomes a uint32_t. */
  function DecodeBatch(types: Types, layout: Layout, ty: MemberType, block: Block, depth: nat, buf: seq<Byte>, limit: nat, pos: nat,
                       count: int, le: bool): Read<seq<Value>>
    requires limit <= |buf|
    decreases depth, 2, 0, 0
  {
    var elements := U32(count);
    match ty
    case Plain(p) => Reported(DecodePlain(p, buf, limit, pos, block, elements, le), pos, 8)
    case BitField(_, _, _) => Reported(DecodeFields(ty, buf, limit, pos, block, elements), pos, 1)
    case Text => Reported(DecodeTexts(buf, limit, pos / 8, block, layout.pointer, elements, le), pos, 8)
    case Ref(name) => Reported(DecodeRecords(types, layout, name, block, depth, buf, limit, pos, elements, le), pos, 8)
  }

  /** A member's value from dimension d inwards. */
  function DecodeDims(types: Types, layout: Layout, m: Member, d: nat, fields: seq<Value>, depth: nat, buf: seq<Byte>, limit: nat,
                      pos: nat, le: bool): Read<Value>
    requires limit <= |buf| && (d < |m.dims| || d == |m.dims| == 0)
    decreases depth, 3, |m.dims| - d, 2
  {
    if d + 1 < |m.dims| then
      var count := Count(m.dims[d], fields);
      var r := DecodeOuter(types, layout, m, d, fields, depth, buf, limit, pos, Turns(count), le);
      if !r.Got? then Fail(r) else if count > INT_MAX then Undefined else Got(List(r.value), r.pos)
    else if |m.dims| == 0 then
      var r := DecodeBatch(types, layout, m.ty, Inline, depth, buf, limit, pos, 1, le);
      if !r.Got? then Fail(r) else if |r.value| == 1 then Got(r.value[0], r.pos) else Short
    else
      var block := BlockAt(types, layout, m, d, fields);
      var r := DecodeBatch(types, layout, m.ty, block, depth, buf, limit, pos, Count(m.dims[d], fields), le);
      if !r.Got? then Fail(r) else Got(List(r.value), r.pos)
  }

  /** How many turns a loop with an int variable makes before it ends or overflows. */
  function Turns(count: int): nat {
    if count <= 0 then 0 else if count <= INT_MAX then count else INT_MAX + 1
  }

  /** The first `count` turns of the loop over an outer dimension; each stores a pointer in its block. */
  function DecodeOuter(types: Types, layout: Layout, m: Member, d: nat, fields: seq<Value>, depth: nat, buf: seq<Byte>, limit: nat,
                       pos: nat, count: nat, le: bool): Read<seq<Value>>
    requires limit <= |buf| && d + 1 < |m.dims|
    decreases depth, 3, |m.dims| - d, 1, count
  {
    if count == 0 then Got([], pos)
    else
      var before := DecodeOuter(types, layout, m, d, fields, depth, buf, limit, pos, count - 1, le);
      if !before.Got? then before
      else if !Holds(BlockAt(types, layout, m, d, fields), count, layout.pointer) then Undefined
      else
        var next := DecodeDims(types, layout, m, d + 1, fields, depth, buf, limit, before.pos, le);
        if !next.Got? then Fail(next) else Got(before.value + [next.value], next.pos)
  }

  /** Where a member starts: bit fields where the previous one ended, the rest on a byte. */
  function MemberStart(ty: MemberType, pos: nat): nat {
    if ty.BitField? then pos else 8 * EncodedSize(pos)
  }

  /** The first k members of a record. */
  function DecodePrefix(types: Types, layout: Layout, members: seq<Member>, k: nat, depth: nat, buf: seq<Byte>, limit: nat, pos: nat, le: bool)
    : (r: Read<seq<Value>>)
    requires limit <= |buf| && k <= |members|
    ensures r.Got? ==> |r.value| == k
    decreases depth, 4, k, 0
  {
    if k == 0 then Got([], pos)
    else
      var before := DecodePrefix(types, layout, members, k - 1, depth, buf, limit, pos, le);
      if !before.Got? then before
      else
        var m := members[k - 1];
        var next := DecodeDims(types, layout, m, 0, before.value, depth, buf, limit, MemberStart(m.ty, before.pos), le);
        if !next.Got? then Fail(next) else Got(before.value + [next.value], next.pos)
  }

  function DecodeRecord(types: Types, layout: Layout, name: string, depth: nat, buf: seq<Byte>, limit: nat, pos: nat, le: bool): Read<Value>
    requires limit <= |buf|
    decreases depth, 0, 0, 0
  {
    if name !in types then Short
    else if depth == 0 then TooDeep
    else
      var r := DecodePrefix(types, layout, types[name], |types[name]|, depth - 1, buf, limit, pos, le);
      if !r.Got? then Fail(r) else Got(Record(r.value), 8 * EncodedSize(r.pos))
  }

  /** Record after record; a record is reached only inside the block that holds them. */
  function DecodeRecords(types: Types, layout: Layout, name: string, block: Block, depth: nat, buf: seq<Byte>, limit: nat, pos: nat,
                         count: nat, le: bool): Read<seq<Value>>
    requires limit <= |buf|
    decreases depth, 1, count, 0
  {
    if count == 0 then Got([], pos)
    else
      var before := DecodeRecords(types, layout, name, block, depth, buf, limit, pos, count - 1, le);
      if !before.Got? then before
      else if !Holds(block, count, SizeOf(types, layout, Ref(name))) then Undefined
      else
        var next := DecodeRecord(types, layout, name, depth, buf, limit, before.pos, le);
        if !next.Got? then Fail(next) else Got(before.value + [next.value], next.pos)
  }

  /* ---------- bits in a buffer ---------- */

  predicate SliceIs(s: seq<bool>, pos: nat, bits: seq<bool>) {
    pos + |bits| <= |s| && s[pos..pos + |bits|] == bits
  }

  /** `bits` stand at position pos, within the limit. */
  ghost predicate At(buf: seq<Byte>, limit: nat, pos: nat, bits: seq<bool>) {
    limit <= |buf| && pos + |bits| <= 8 * limit && SliceIs(ToBits(buf), pos, bits)
  }

  lemma SliceSplit(s: seq<bool>, pos: nat, a: seq<bool>, b: seq<bool>)
    requires SliceIs(s, pos, a + b)
    ensures SliceIs(s, pos, a) && SliceIs(s, pos + |a|, b)
  {
    assert s[pos..pos + |a + b|] == s[pos..pos + |a|] + s[pos + |a|..pos + |a + b|];
    SplitEqual(s[pos..pos + |a|], s[pos + |a|..pos + |a + b|], a, b);
  }

  lemma AtInside(buf: seq<Byte>, limit: nat, pos: nat, bits: seq<bool>)
    requires At(buf, limit, pos, bits)
    ensures limit <= |buf|
  {
  }

  lemma AtSplit(buf: seq<Byte>, limit: nat, pos: nat, a: seq<bool>, b: seq<bool>)
    requires At(buf, limit, pos, a + b)
    ensures At(buf, limit, pos, a) && At(buf, limit, pos + |a|, b)
  {
    SliceSplit(ToBits(buf), pos, a, b);
  }

  /** Whole bytes standing on a byte boundary are those bytes. */
  lemma AtBytes(buf: seq<Byte>, limit: nat, pos: nat, at: nat, bs: seq<Byte>)
    requires pos == 8 * at && At(buf, limit, pos, ToBits(bs))
    ensures at + |bs| <= limit && buf[at..at + |bs|] == bs
  {
    hide SliceIs;
    SliceBytes(buf, at, bs);
  }

  lemma SliceBytes(buf: seq<Byte>, at: nat, bs: seq<Byte>)
    requires at + |bs| <= |buf| && SliceIs(ToBits(buf), 8 * at, ToBits(bs))
    ensures buf[at..at + |bs|] == bs
  {
    var n := |bs|;
    var part := buf[at..at + n];
    assert ToBits(part) == ToBits(bs) by {
      ToBitsSlice(buf, at, n);
      SliceEnds(ToBits(buf), 8 * at, 8 * n, ToBits(bs));
    }
    ToBitsInjective(part, bs);
  }

  lemma SliceEnds(s: seq<bool>, pos: nat, n: nat, bits: seq<bool>)
    requires SliceIs(s, pos, bits) && |bits| == n
    ensures s[pos..pos + n] == bits
  {
  }

  /* ---------- round trip: elements ---------- */

  lemma WordBack(v: int, p: Prim, le: bool)
    requires InType(v, StorageOf(p))
    ensures ToType(BytesNum(WordBytes(v, NumBytes(p), le), le), StorageOf(p)) == v
  {
    hide ToType, Low, BytesNum, WordBytes, InType;
    WordRoundTrip(v, NumBytes(p), le);
    LowLow(v, StorageOf(p).width, StorageOf(p).width);
    ToTypeCongruent(Low(v, StorageOf(p).width), v, StorageOf(p));
    ToTypeFits(v, StorageOf(p));
  }

  lemma WordsNone(buf: seq<Byte>, at: nat, p: Prim, le: bool)
    requires at <= |buf|
    ensures Span(0, NumBytes(p)) == 0 && WordsAt(buf, at, 0, p, le) == []
  {
  }

  lemma WordsNext(buf: seq<Byte>, at: nat, n: nat, p: Prim, le: bool)
    requires at + Span(n + 1, NumBytes(p)) <= |buf|
    ensures var k := at + Span(n, NumBytes(p));
            && k + NumBytes(p) <= |buf|
            && WordsAt(buf, at, n + 1, p, le)
               == WordsAt(buf, at, n, p, le) + [Word(ToType(BytesNum(buf[k..k + NumBytes(p)], le), StorageOf(p)))]
  {
    hide BytesNum, ToType, NumBytes;
  }

  lemma {:induction false} WordsBack(buf: seq<Byte>, at: nat, vs: seq<Value>, p: Prim, le: bool)
    requires AllWords(vs) && forall i | 0 <= i < |vs| :: InType(vs[i].n, StorageOf(p))
    requires at + Span(|vs|, NumBytes(p)) <= |buf|
    requires buf[at..at + Span(|vs|, NumBytes(p))] == ArrayBytes(Words(vs), NumBytes(p), le)
    ensures WordsAt(buf, at, |vs|, p, le) == vs
  {
    hide InType, ToType, BytesNum, WordBytes, StorageOf, NumBytes, Span, ArrayBytes, WordsAt;
    if vs == [] {
      WordsNone(buf, at, p, le);
    } else {
      var n := |vs| - 1;
      var w := NumBytes(p);
      var k := at + Span(n, w);
      SpanNext(n, w);
      WordsNext(buf, at, n, p, le);
      assert Words(vs)[..n] == Words(vs[..n]) && Words(vs)[..n + 1] == Words(vs);
      ArrayBytesNext(Words(vs), n, w, le);
      ArrayBytesLength(Words(vs[..n]), w, le);
      assert buf[at..k + w] == buf[at..k] + buf[k..k + w];
      SplitEqual(buf[at..k], buf[k..k + w], ArrayBytes(Words(vs[..n]), w, le), WordBytes(vs[n].n, w, le));
      WordsBack(buf, at, vs[..n], p, le);
      WordBack(vs[n].n, p, le);
      assert vs == vs[..n] + [vs[n]];
    }
  }

  lemma {:induction false} CStringBack(s: seq<Byte>)
    requires 0 !in s
    ensures CString(s + [0]) == s
  {
    if s != [] {
      assert (s + [0])[1..] == s[1..] + [0];
      CStringBack(s[1..]);
      assert s == [s[0]] + s[1..];
    }
  }

  lemma TextBack(buf: seq<Byte>, limit: nat, at: nat, stored: bool, s: seq<Byte>, le: bool)
    requires 0 !in s && |s| < INT_MAX && limit <= |buf| && at + |s| + 5 <= limit
    requires buf[at..at + |s| + 5] == TextBytes(s, le)
    ensures DecodeText(buf, limit, at, stored, le) == Within(stored, Got(Chars(s), 8 * (at + |s| + 5)))
  {
    hide ToType, BytesNum, WordBytes, CString;
    var w, n := WordBytes(|s| + 1, 4, le), |s| + 1;
    assert buf[at..at + 4 + n] == buf[at..at + 4] + buf[at + 4..at + 4 + n];
    SplitEqual(buf[at..at + 4], buf[at + 4..at + 4 + n], w, s + [0]);
    Pow2At31();
    WordBack(n, Int32, le);
    CStringBack(s);
  }

  lemma {:induction false} TextsBack(buf: seq<Byte>, limit: nat, at: nat, block: Block, pointer: nat, vs: seq<Value>, le: bool)
    requires AllChars(vs) && forall i | 0 <= i < |vs| :: 0 !in vs[i].s
    requires |TextsBytes(Strings(vs), le)| <= INT_MAX
    requires limit <= |buf| && at + |TextsBytes(Strings(vs), le)| <= limit
    requires buf[at..at + |TextsBytes(Strings(vs), le)|] == TextsBytes(Strings(vs), le)
    ensures DecodeTexts(buf, limit, at, block, pointer, |vs|, le)
            == Within(Holds(block, |vs|, pointer), Got(vs, 8 * (at + |TextsBytes(Strings(vs), le)|)))
  {
    hide DecodeText, TextBytes, Holds;
    if vs == [] {
      HoldsNone(block, pointer);
    } else {
      var n := |vs| - 1;
      assert Strings(vs)[..n] == Strings(vs[..n]);
      var a, b := TextsBytes(Strings(vs[..n]), le), TextBytes(vs[n].s, le);
      var k := at + |a|;
      assert buf[at..k + |b|] == buf[at..k] + buf[k..k + |b|];
      SplitEqual(buf[at..k], buf[k..k + |b|], a, b);
      TextsBack(buf, limit, at, block, pointer, vs[..n], le);
      TextBack(buf, limit, k, Holds(block, |vs|, pointer), vs[n].s, le);
      if Holds(block, |vs|, pointer) { HoldsFewer(block, n, |vs|, pointer); }
      assert vs == vs[..n] + [vs[n]];
    }
  }

  /* ---------- round trip: records ---------- */

  /** How deep records nest in a value. */
  function Depth(v: Value): nat {
    match v
    case Word(_) => 0
    case Chars(_) => 0
    case List(elems) => Depths(elems)
    case Record(fields) => 1 + Depths(fields)
  }

  function Depths(vs: seq<Value>): nat {
    if vs == [] then 0
    else
      var a, b := Depths(vs[..|vs| - 1]), Depth(vs[|vs| - 1]);
      if a < b then b else a
  }

  lemma {:induction false} DepthIn(vs: seq<Value>, i: nat)
    requires i < |vs|
    ensures Depth(vs[i]) <= Depths(vs)
  {
    if i < |vs| - 1 {
      DepthIn(vs[..|vs| - 1], i);
    }
  }

  lemma PlainBack(types: Types, layout: Layout, p: Prim, block: Block, vs: seq<Value>, depth: nat, buf: seq<Byte>, limit: nat, pos: nat,
                  le: bool)
    requires FitsBatch(types, Plain(p), vs) && |ManyBits(types, Plain(p), 0, le, vs)| <= 8 * INT_MAX
    requires pos % 8 == 0 && At(buf, limit, pos, ManyBits(types, Plain(p), 0, le, vs))
    ensures DecodeBatch(types, layout, Plain(p), block, depth, buf, limit, pos, |vs|, le)
            == Within(Holds(block, |vs|, NumBytes(p)), Got(vs, pos + |ManyBits(types, Plain(p), 0, le, vs)|))
  {
    hide Holds, ToBits, ManyBits, Span, ArrayBytes, WordsAt, InType, Mul32, U32, At, NumBytes, StorageOf;
    AtInside(buf, limit, pos, ManyBits(types, Plain(p), 0, le, vs));
    U32Small(|vs|);
    forall i | 0 <= i < |vs|
      ensures vs[i].Word? && InType(vs[i].n, StorageOf(p))
    {
      assert FitsLeaf(types, Plain(p), vs[i]);
    }
    PlainBatch(types, p, le, vs);
    ArrayBytesLength(Words(vs), NumBytes(p), le);
    AtBytes(buf, limit, pos, pos / 8, ArrayBytes(Words(vs), NumBytes(p), le));
    WordsBack(buf, pos / 8, vs, p, le);
  }

  lemma FieldBack(types: Types, layout: Layout, ty: MemberType, block: Block, vs: seq<Value>, depth: nat, buf: seq<Byte>, limit: nat,
                  pos: nat, le: bool)
    requires ty.BitField? && LegalType(ty, types) && FitsBatch(types, ty, vs)
    requires At(buf, limit, pos, ManyBits(types, ty, 0, le, vs))
    ensures DecodeBatch(types, layout, ty, block, depth, buf, limit, pos, |vs|, le)
            == Within(Holds(block, |vs|, NumBytes(ty.prim)), Got(vs, pos + |ManyBits(types, ty, 0, le, vs)|))
  {
    hide Holds, ToBits, ManyBits, Span, ElemBits, FieldValues, InType, InField, Mul32, U32;
    U32Small(|vs|);
    U32Small(Span(|vs|, ty.numBits) + pos % 8);
    forall i | 0 <= i < |vs|
      ensures vs[i].Word? && InType(vs[i].n, StorageOf(ty.prim)) && InField(vs[i].n, ty.numBits, ty.signExtend)
    {
      assert FitsLeaf(types, ty, vs[i]);
    }
    FieldBatch(types, ty, le, vs);
    ElemBitsLength(Words(vs), ty.numBits);
    FieldsRoundTrip(ToBits(buf), pos, Words(vs), ty.numBits, ty.signExtend, StorageOf(ty.prim));
    assert AsWords(Words(vs)) == vs;
  }

  lemma TextsBatchBack(types: Types, layout: Layout, block: Block, vs: seq<Value>, depth: nat, buf: seq<Byte>, limit: nat, pos: nat,
                       le: bool)
    requires FitsBatch(types, Text, vs) && |ManyBits(types, Text, 0, le, vs)| <= 8 * INT_MAX
    requires pos % 8 == 0 && At(buf, limit, pos, ManyBits(types, Text, 0, le, vs))
    ensures DecodeBatch(types, layout, Text, block, depth, buf, limit, pos, |vs|, le)
            == Within(Holds(block, |vs|, layout.pointer), Got(vs, pos + |ManyBits(types, Text, 0, le, vs)|))
  {
    hide Holds, ToBits, ManyBits, TextsBytes, DecodeTexts, U32;
    U32Small(|vs|);
    forall i | 0 <= i < |vs|
      ensures vs[i].Chars? && 0 !in vs[i].s
    {
      assert FitsLeaf(types, Text, vs[i]);
    }
    TextBatch(types, le, vs);
    AtBytes(buf, limit, pos, pos / 8, TextsBytes(Strings(vs), le));
    TextsBack(buf, limit, pos / 8, block, layout.pointer, vs, le);
  }

  /** The elements fit their block, and the blocks inside them can be allocated. */
  predicate AllocBatch(types: Types, layout: Layout, ty: MemberType, block: Block, vs: seq<Value>) {
    && Holds(block, |vs|, SizeOf(types, layout, ty))
    && (ty.Ref? ==> forall i | 0 <= i < |vs| :: AllocRecord(types, layout, ty.name, vs[i]))
  }

  lemma OtherAlloc(types: Types, layout: Layout, ty: MemberType, block: Block, vs: seq<Value>)
    ensures ty.Plain? || ty.BitField? ==> (AllocBatch(types, layout, ty, block, vs) <==> Holds(block, |vs|, NumBytes(ty.prim)))
    ensures ty.Text? ==> (AllocBatch(types, layout, ty, block, vs) <==> Holds(block, |vs|, layout.pointer))
  {
    hide Holds, AllocRecord;
  }

  /** A batch of elements decodes to what was encoded. */
  lemma {:induction false} BatchBack(types: Types, layout: Layout, ty: MemberType, block: Block, vs: seq<Value>, depth: nat,
                                     buf: seq<Byte>, limit: nat, pos: nat, le: bool)
    requires LegalTypes(types) && LegalType(ty, types) && FitsBatch(types, ty, vs) && Depths(vs) <= depth
    requires (!ty.BitField? ==> pos % 8 == 0) && At(buf, limit, pos, ManyBits(types, ty, 0, le, vs))
    requires |ManyBits(types, ty, 0, le, vs)| <= 8 * INT_MAX
    ensures DecodeBatch(types, layout, ty, block, depth, buf, limit, pos, |vs|, le)
            == Within(AllocBatch(types, layout, ty, block, vs), Got(vs, pos + |ManyBits(types, ty, 0, le, vs)|))
    decreases depth, 2, 0, 0
  {
    hide Holds, AllocRecord, LegalTypes, At, ManyBits, Depths, DecodeRecords, FitsBatch, DecodeBatch, AllocBatch;
    AtInside(buf, limit, pos, ManyBits(types, ty, 0, le, vs));
    OtherAlloc(types, layout, ty, block, vs);
    match ty
    case Plain(p) => PlainBack(types, layout, p, block, vs, depth, buf, limit, pos, le);
    case BitField(_, _, _) => FieldBack(types, layout, ty, block, vs, depth, buf, limit, pos, le);
    case Text => TextsBatchBack(types, layout, block, vs, depth, buf, limit, pos, le);
    case Ref(name) =>
      RecordsBack(types, layout, name, block, vs, depth, buf, limit, pos, le);
      RecordsReported(types, layout, name, block, vs, depth, buf, limit, pos, le);
  }

  lemma RecordsReported(types: Types, layout: Layout, name: string, block: Block, vs: seq<Value>, depth: nat, buf: seq<Byte>,
                        limit: nat, pos: nat, le: bool)
    requires limit <= |buf| && FitsBatch(types, Ref(name), vs)
    ensures DecodeBatch(types, layout, Ref(name), block, depth, buf, limit, pos, |vs|, le)
            == Reported(DecodeRecords(types, layout, name, block, depth, buf, limit, pos, |vs|, le), pos, 8)
  {
    hide DecodeRecords, FitsLeaf, Reported;
    U32Small(|vs|);
  }

  lemma {:induction false} RecordsBack(types: Types, layout: Layout, name: string, block: Block, vs: seq<Value>, depth: nat,
                                       buf: seq<Byte>, limit: nat, pos: nat, le: bool)
    requires LegalTypes(types) && name in types && FitsBatch(types, Ref(name), vs) && Depths(vs) <= depth
    requires pos % 8 == 0 && At(buf, limit, pos, ManyBits(types, Ref(name), 0, le, vs))
    requires |ManyBits(types, Ref(name), 0, le, vs)| <= 8 * INT_MAX
    ensures DecodeRecords(types, layout, name, block, depth, buf, limit, pos, |vs|, le)
            == Within(AllocBatch(types, layout, Ref(name), block, vs), Got(vs, pos + |ManyBits(types, Ref(name), 0, le, vs)|))
    decreases depth, 1, |vs|, 0
  {
    hide ToBits, At, RecordBits, DecodeRecord, FitsRecord, LegalTypes, ManyBits, ArrayBits, LeafBits, Depths, Depth, AllocRecord,
         Holds, SizeOf;
    var size := SizeOf(types, layout, Ref(name));
    if vs == [] {
      HoldsNone(block, size);
      ManyNone(types, Ref(name), 0, le);
    } else {
      var n := |vs| - 1;
      ManyNext(types, Ref(name), 0, le, vs, n);
      assert vs[..n + 1] == vs;
      var a, b := ManyBits(types, Ref(name), 0, le, vs[..n]), RecordBits(types, name, le, vs[n]);
      assert ArrayBits(types, Ref(name), 0, le, vs[n]) == b by { RecordAlone(types, name, le, vs[n]); }
      AtSplit(buf, limit, pos, a, b);
      DepthsNext(vs);
      RecordsBack(types, layout, name, block, vs[..n], depth, buf, limit, pos, le);
      ManyWholeBytes(types, Ref(name), 0, le, vs[..n]);
      assert FitsLeaf(types, Ref(name), vs[n]);
      RecordBack(types, layout, name, vs[n], depth, buf, limit, pos + |a|, le);
      if Holds(block, |vs|, size) { HoldsFewer(block, n, |vs|, size); }
      assert vs == vs[..n] + [vs[n]];
    }
  }

  lemma DepthsNext(vs: seq<Value>)
    requires vs != []
    ensures Depths(vs[..|vs| - 1]) <= Depths(vs) && Depth(vs[|vs| - 1]) <= Depths(vs)
  {
  }

  lemma {:induction false} RecordBack(types: Types, layout: Layout, name: string, v: Value, depth: nat, buf: seq<Byte>, limit: nat,
                                      pos: nat, le: bool)
    requires LegalTypes(types) && name in types && FitsRecord(types, name, v) && Depth(v) <= depth
    requires pos % 8 == 0 && At(buf, limit, pos, RecordBits(types, name, le, v))
    requires |RecordBits(types, name, le, v)| <= 8 * INT_MAX
    ensures DecodeRecord(types, layout, name, depth, buf, limit, pos, le)
            == Within(AllocRecord(types, layout, name, v), Got(v, pos + |RecordBits(types, name, le, v)|))
    decreases depth, 0, 0, 0
  {
    hide ToBits, At, DecodePrefix, PrefixBits, FitsArray, LegalTypes, AllocArray;
    var members := types[name];
    var bits := PrefixBits(types, members, |members|, le, v.fields);
    assert Align(bits) == bits + Align(bits)[|bits|..];
    AtSplit(buf, limit, pos, bits, Align(bits)[|bits|..]);
    PrefixBack(types, layout, name, v, |members|, depth - 1, buf, limit, pos, le);
    assert v.fields[..|members|] == v.fields;
    AlignedEnd(pos, bits);
  }

  lemma AlignedEnd(pos: nat, bits: seq<bool>)
    requires pos % 8 == 0
    ensures 8 * EncodedSize(pos + |bits|) == pos + |Align(bits)|
  {
  }

  /** A dimension is known once the members before it are. */
  lemma CountKnown(dim: Dim, members: seq<Member>, k: nat, fields: seq<Value>)
    requires k < |fields| && LegalDim(dim, members, k)
    ensures Count(dim, fields[..k]) == Count(dim, fields)
  {
  }

  /** The blocks of the first k members can be allocated. */
  predicate AllocPrefix(types: Types, layout: Layout, members: seq<Member>, k: nat, fields: seq<Value>)
    requires k <= |members| && k <= |fields|
  {
    forall j | 0 <= j < k :: AllocArray(types, layout, members[j], 0, fields[j])
  }

  lemma {:induction false} PrefixBack(types: Types, layout: Layout, name: string, v: Value, k: nat, depth: nat, buf: seq<Byte>, limit: nat,
                                      pos: nat, le: bool)
    requires LegalTypes(types) && name in types && FitsRecord(types, name, v) && Depths(v.fields) <= depth
    requires k <= |v.fields| && pos % 8 == 0 && At(buf, limit, pos, PrefixBits(types, types[name], k, le, v.fields))
    requires |PrefixBits(types, types[name], k, le, v.fields)| <= 8 * INT_MAX
    ensures DecodePrefix(types, layout, types[name], k, depth, buf, limit, pos, le)
            == Within(AllocPrefix(types, layout, types[name], k, v.fields),
                      Got(v.fields[..k], pos + |PrefixBits(types, types[name], k, le, v.fields)|))
    decreases depth, 4, k, 0
  {
    hide ToBits, ArrayBits, DecodeDims, FitsArray, LegalTypes, Aligned, PrefixBits, Depths, DecodePrefix, MemberStart, AllocArray;
    assert limit <= |buf| && |v.fields| == |types[name]|;
    hide At, FitsRecord;
    var members, fields := types[name], v.fields;
    if k == 0 {
      NoneRead(types, layout, members, depth, buf, limit, pos, le);
      PrefixNone(types, members, le, fields);
    } else {
      var m := members[k - 1];
      PrefixNext(types, members, k - 1, le, fields);
      var bits := PrefixBits(types, members, k - 1, le, fields);
      var a, b := Aligned(m.ty, bits), ArrayBits(types, m.ty, |m.dims|, le, fields[k - 1]);
      AtSplit(buf, limit, pos, a, b);
      AlignedStart(m.ty, pos, bits);
      AtSplit(buf, limit, pos, bits, a[|bits|..]);
      PrefixBack(types, layout, name, v, k - 1, depth, buf, limit, pos, le);
      OneMoreRead(types, layout, members, k - 1, depth, buf, limit, pos, le);
      assert AllocPrefix(types, layout, members, k, fields)
        <==> AllocPrefix(types, layout, members, k - 1, fields) && AllocArray(types, layout, m, 0, fields[k - 1]);
      MemberBack(types, layout, name, v, k - 1, depth, buf, limit, pos + |a|, le);
      assert fields[..k] == fields[..k - 1] + [fields[k - 1]];
    }
  }

  lemma NoneRead(types: Types, layout: Layout, members: seq<Member>, depth: nat, buf: seq<Byte>, limit: nat, pos: nat, le: bool)
    requires limit <= |buf|
    ensures DecodePrefix(types, layout, members, 0, depth, buf, limit, pos, le) == Got([], pos)
  {
  }

  lemma OneMoreRead(types: Types, layout: Layout, members: seq<Member>, k: nat, depth: nat, buf: seq<Byte>, limit: nat, pos: nat, le: bool)
    requires limit <= |buf| && k < |members|
    ensures var before := DecodePrefix(types, layout, members, k, depth, buf, limit, pos, le);
            DecodePrefix(types, layout, members, k + 1, depth, buf, limit, pos, le)
            == if !before.Got? then before
               else
                 var next := DecodeDims(types, layout, members[k], 0, before.value, depth, buf, limit, MemberStart(members[k].ty, before.pos), le);
                 if next.Got? then Got(before.value + [next.value], next.pos) else Fail(next)
  {
    hide DecodeDims;
  }

  lemma AlignedStart(ty: MemberType, pos: nat, bits: seq<bool>)
    requires pos % 8 == 0
    ensures |bits| <= |Aligned(ty, bits)| && Aligned(ty, bits) == bits + Aligned(ty, bits)[|bits|..]
    ensures MemberStart(ty, pos + |bits|) == pos + |Aligned(ty, bits)|
    ensures !ty.BitField? ==> |Aligned(ty, bits)| % 8 == 0
  {
    AlignedEnd(pos, bits);
  }

  /** The next member decodes once the earlier ones, and so its dimensions, are known. */
  lemma MemberBack(types: Types, layout: Layout, name: string, v: Value, k: nat, depth: nat, buf: seq<Byte>, limit: nat, pos: nat, le: bool)
    requires LegalTypes(types) && name in types && FitsRecord(types, name, v) && Depths(v.fields) <= depth
    requires k < |v.fields| && (!types[name][k].ty.BitField? ==> pos % 8 == 0)
    requires At(buf, limit, pos, ArrayBits(types, types[name][k].ty, |types[name][k].dims|, le, v.fields[k]))
    requires |ArrayBits(types, types[name][k].ty, |types[name][k].dims|, le, v.fields[k])| <= 8 * INT_MAX
    ensures DecodeDims(types, layout, types[name][k], 0, v.fields[..k], depth, buf, limit, pos, le)
            == Within(AllocArray(types, layout, types[name][k], 0, v.fields[k]),
                      Got(v.fields[k], pos + |ArrayBits(types, types[name][k].ty, |types[name][k].dims|, le, v.fields[k])|))
    decreases depth, 3, |types[name][k].dims|, 3
  {
    hide ToBits, At, ArrayBits, DecodeDims, FitsArray, LegalType, Count, AllocArray;
    var m := types[name][k];
    assert LegalStruct(types[name], types);
    DepthIn(v.fields, k);
    forall d | 0 <= d < |m.dims|
      ensures Count(m.dims[d], v.fields[..k]) == Count(m.dims[d], v.fields)
    {
      CountKnown(m.dims[d], types[name], k, v.fields);
    }
    DimsBack(types, layout, m, 0, v.fields, v.fields[..k], v.fields[k], depth, buf, limit, pos, le);
  }

  lemma {:induction false} DimsBack(types: Types, layout: Layout, m: Member, d: nat, fields: seq<Value>, known: seq<Value>, v: Value,
                                    depth: nat, buf: seq<Byte>, limit: nat, pos: nat, le: bool)
    requires LegalTypes(types) && LegalType(m.ty, types) && Depth(v) <= depth
    requires (d < |m.dims| || d == |m.dims| == 0) && FitsArray(types, m, d, fields, v)
    requires forall i | 0 <= i < |m.dims| :: Count(m.dims[i], known) == Count(m.dims[i], fields)
    requires (!m.ty.BitField? ==> pos % 8 == 0) && At(buf, limit, pos, ArrayBits(types, m.ty, |m.dims| - d, le, v))
    requires |ArrayBits(types, m.ty, |m.dims| - d, le, v)| <= 8 * INT_MAX
    ensures DecodeDims(types, layout, m, d, known, depth, buf, limit, pos, le)
            == Within(AllocArray(types, layout, m, d, v), Got(v, pos + |ArrayBits(types, m.ty, |m.dims| - d, le, v)|))
    decreases depth, 3, |m.dims| - d, 2
  {
    hide ToBits, At, DecodeBatch, DecodeOuter, LeafBits, FitsLeaf, BlockAt, AllocOuter;
    if d + 1 < |m.dims| {
      hide AllocArray;
      assert v.elems[..|v.elems|] == v.elems;
      OuterAlloc(types, layout, m, d, known, v);
      OuterBack(types, layout, m, d, fields, known, v, |v.elems|, depth, buf, limit, pos, le);
    } else if |m.dims| == 0 {
      ManyOne(types, m.ty, 0, le, v);
      assert Depths([v]) == Depth(v) by { assert [v][..0] == []; }
      CountableOne(types, m.ty);
      assert FitsArray(types, m, 0, fields, v);
      hide AllocArray, AllocRecord;
      BatchBack(types, layout, m.ty, Inline, [v], depth, buf, limit, pos, le);
      LeafAlloc(types, layout, m, d, v);
    } else {
      assert forall i | 0 <= i < |v.elems| :: FitsArray(types, m, d + 1, fields, v.elems[i]);
      hide AllocArray, AllocBatch;
      LastAlloc(types, layout, m, known, v);
      BatchBack(types, layout, m.ty, BlockAt(types, layout, m, d, known), v.elems, depth, buf, limit, pos, le);
    }
  }

  lemma OuterAlloc(types: Types, layout: Layout, m: Member, d: nat, known: seq<Value>, v: Value)
    requires d + 1 < |m.dims| && v.List? && |v.elems| == Count(m.dims[d], known) <= INT_MAX
    ensures AllocArray(types, layout, m, d, v) <==> AllocOuter(types, layout, m, d, known, v.elems, |v.elems|)
  {
    hide Span, BlockAt, Holds, ConstantSize, U32;
    U32Small(|v.elems|);
    BlockHolds(types, layout, m, d, known, |v.elems|);
  }

  /** A leaf allocates only in a record. */
  lemma LeafAlloc(types: Types, layout: Layout, m: Member, d: nat, v: Value)
    requires FitsLeaf(types, m.ty, v)
    ensures AllocArray(types, layout, m, d, v) <==> m.ty.Ref? ==> AllocRecord(types, layout, m.ty.name, v)
  {
    hide AllocRecord, InType, InField, FitsArray;
  }

  lemma LastAlloc(types: Types, layout: Layout, m: Member, known: seq<Value>, v: Value)
    requires m.dims != [] && v.List? && |v.elems| == Count(m.dims[|m.dims| - 1], known) <= INT_MAX
    requires forall i | 0 <= i < |v.elems| :: FitsLeaf(types, m.ty, v.elems[i])
    ensures AllocArray(types, layout, m, |m.dims| - 1, v)
            <==> AllocBatch(types, layout, m.ty, BlockAt(types, layout, m, |m.dims| - 1, known), v.elems)
  {
    hide Span, Mul32, FitsLeaf, BlockAt, AllocRecord, ConstantSize, Holds, U32, Count;
    BlockHolds(types, layout, m, |m.dims| - 1, known, |v.elems|) by { U32Small(|v.elems|); }
    forall i | 0 <= i < |v.elems|
      ensures AllocArray(types, layout, m, |m.dims|, v.elems[i]) <==> m.ty.Ref? ==> AllocRecord(types, layout, m.ty.name, v.elems[i])
    {
      LeafAlloc(types, layout, m, |m.dims|, v.elems[i]);
    }
  }

  /** The first n pointers fit the block of their dimension, and the blocks behind them can be allocated. */
  predicate AllocOuter(types: Types, layout: Layout, m: Member, d: nat, fields: seq<Value>, vs: seq<Value>, n: nat)
    requires n <= |vs|
  {
    && Holds(BlockAt(types, layout, m, d, fields), n, layout.pointer)
    && forall i | 0 <= i < n :: AllocArray(types, layout, m, d + 1, vs[i])
  }

  lemma {:induction false} OuterBack(types: Types, layout: Layout, m: Member, d: nat, fields: seq<Value>, known: seq<Value>, v: Value,
                                     count: nat, depth: nat, buf: seq<Byte>, limit: nat, pos: nat, le: bool)
    requires LegalTypes(types) && LegalType(m.ty, types) && Depth(v) <= depth
    requires d + 1 < |m.dims| && FitsArray(types, m, d, fields, v) && count <= |v.elems|
    requires forall i | 0 <= i < |m.dims| :: Count(m.dims[i], known) == Count(m.dims[i], fields)
    requires !m.ty.BitField? ==> pos % 8 == 0
    requires At(buf, limit, pos, ManyBits(types, m.ty, |m.dims| - d - 1, le, v.elems[..count]))
    requires |ManyBits(types, m.ty, |m.dims| - d - 1, le, v.elems[..count])| <= 8 * INT_MAX
    ensures DecodeOuter(types, layout, m, d, known, depth, buf, limit, pos, count, le)
            == Within(AllocOuter(types, layout, m, d, known, v.elems, count),
                      Got(v.elems[..count], pos + |ManyBits(types, m.ty, |m.dims| - d - 1, le, v.elems[..count])|))
    decreases depth, 3, |m.dims| - d, 1, count
  {
    hide ToBits, At, ArrayBits, ManyBits, DecodeDims, LegalType, LegalTypes, Depths, Count, AllocArray, BlockAt, Holds;
    var n := |m.dims| - d - 1;
    var block := BlockAt(types, layout, m, d, known);
    if count == 0 {
      HoldsNone(block, layout.pointer);
      ManyNone(types, m.ty, n, le);
    } else {
      var i := count - 1;
      var a, b := ManyBits(types, m.ty, n, le, v.elems[..i]), ArrayBits(types, m.ty, n, le, v.elems[i]);
      ManyNext(types, m.ty, n, le, v.elems, i);
      AtSplit(buf, limit, pos, a, b);
      OuterBack(types, layout, m, d, fields, known, v, i, depth, buf, limit, pos, le);
      DepthIn(v.elems, i);
      if !m.ty.BitField? {
        ManyWholeBytes(types, m.ty, n, le, v.elems[..i]);
      }
      DimsBack(types, layout, m, d + 1, fields, known, v.elems[i], depth, buf, limit, pos + |a|, le);
      if Holds(block, count, layout.pointer) { HoldsFewer(block, i, count, layout.pointer); }
      assert v.elems[..count] == v.elems[..i] + [v.elems[i]];
    }
  }

  /* ---------- whole messages ---------- */

  /** NAME_decode: the hash must match; then the record. */
  function DecodeMessage(types: Types, layout: Layout, name: string, hash: int, depth: nat, buf: seq<Byte>, offset: nat, maxlen: nat, le: bool)
    : Read<Value>
    requires offset + maxlen <= |buf|
  {
    if maxlen < 8 || ToType(BytesNum(buf[offset..offset + 8], false), Storage(64, true)) != hash then Short
    else Reported(DecodeRecord(types, layout, name, depth, buf, offset + maxlen, 8 * offset + 64, le), 8 * offset, 8)
  }

  /** The round trip: wherever a message stands in a buffer, whatever surrounds it, decoding gives the
      value back and consumes exactly its bytes; unless a block for an array has a size that wraps, and
      then C defines nothing. */
  lemma RoundTrip(types: Types, layout: Layout, name: string, hash: int, v: Value, depth: nat, buf: seq<Byte>, offset: nat, maxlen: nat,
                  le: bool)
    requires LegalTypes(types) && name in types && FitsRecord(types, name, v) && Depth(v) <= depth
    requires InType(hash, Storage(64, true)) && 64 + |RecordBits(types, name, le, v)| <= 8 * INT_MAX
    requires offset + maxlen <= |buf|
    requires At(buf, offset + maxlen, 8 * offset, ToBits(BeBytes(hash, 8)) + RecordBits(types, name, le, v))
    ensures DecodeMessage(types, layout, name, hash, depth, buf, offset, maxlen, le)
            == Within(AllocRecord(types, layout, name, v), Got(v, 8 * offset + 64 + |RecordBits(types, name, le, v)|))
  {
    hide AllocRecord, ToBits, At, DecodeRecord, RecordBits, FitsRecord, BytesNum, BeBytes, ToType, InType;
    AtSplit(buf, offset + maxlen, 8 * offset, ToBits(BeBytes(hash, 8)), RecordBits(types, name, le, v));
    AtBytes(buf, offset + maxlen, 8 * offset, offset, BeBytes(hash, 8));
    WordBack(hash, Int64, false);
    RecordBack(types, layout, name, v, depth, buf, offset + maxlen, 8 * offset + 64, le);
  }
}
