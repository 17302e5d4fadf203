/** When the emitted decoder's behaviour is defined: on which counts a call reads behind its message
    or stores behind its block, and for which schemas no message can bring that about. */
module DecodeSafety {
  import opened Binary
  import opened BitPacker
  import opened PrimArrays
  import opened Schema
  import opened Blocks
  import opened Decoding

  /** Buffers whose positions stay below this leave room for the size of a negative 16-bit count. */
  const SAFE_LIMIT: nat := 0xFFFC_0000

  /** A count of at most 16 bits. */
  predicate ShortType(dim: Dim, members: seq<Member>) {
    && dim.Counted? && dim.member < |members|
    && (members[dim.member].ty.Plain? || members[dim.member].ty.BitField?) && members[dim.member].ty.prim in {Int8, Int16}
  }

  /** A scalar that takes at least a byte of the message. */
  predicate Solid(m: Member) {
    m.dims == [] && (m.ty.Plain? || m.ty.Text?)
  }

  /** Every element takes at least a byte of the message. */
  predicate Consumes(types: Types, ty: MemberType) {
    ty.Text? || (ty.Ref? && ty.name in types && exists j | 0 <= j < |types[ty.name]| :: Solid(types[ty.name][j]))
  }

  /** An outer dimension runs a loop with an int variable and stores a pointer in every turn: a constant
      whose pointers can be allocated, or a count of at most 16 bits. */
  predicate TameOuter(layout: Layout, m: Member, dim: Dim, members: seq<Member>) {
    match dim
    case Fixed(n) => n <= INT_MAX && (ConstantSize(m) || Span(n, layout.pointer) < 0x1_0000_0000)
    case Counted(_) => ShortType(dim, members) && Span(0x8000, layout.pointer) < 0x1_0000_0000
  }

  /** The last dimension is multiplied by the element's size: a constant whose sizes do not wrap, or a
      count of at most 16 bits. Bit fields take constants only. Strings and structs are read one by one:
      a negative count is stopped by the end of the message, if the block covers as many as it can hold. */
  predicate TameLast(types: Types, layout: Layout, m: Member, dim: Dim, members: seq<Member>, limit: nat) {
    var size := SizeOf(types, layout, m.ty);
    match m.ty
    case Plain(p) =>
      if dim.Fixed? then dim.n < 0x1_0000_0000 && Span(dim.n, size) < 0x1_0000_0000 else ShortType(dim, members)
    case BitField(_, numBits, _) =>
      && dim.Fixed? && dim.n < 0x1_0000_0000 && Span(dim.n, numBits) + 7 < 0x1_0000_0000
      && (ConstantSize(m) || Span(dim.n, size) < 0x1_0000_0000)
    case _ =>
      if dim.Fixed? then ConstantSize(m) || (dim.n < 0x1_0000_0000 && Span(dim.n, size) < 0x1_0000_0000)
      else ShortType(dim, members) && (size == 0 || (Consumes(types, m.ty) && Span(limit + 0x8001, size) <= 0x1_0000_0000))
  }

  predicate TameMember(types: Types, layout: Layout, m: Member, members: seq<Member>, limit: nat) {
    forall d | 0 <= d < |m.dims| ::
      if d + 1 < |m.dims| then TameOuter(layout, m, m.dims[d], members)
      else TameLast(types, layout, m, m.dims[d], members, limit)
  }

  /** The schemas that are read safely from buffers of `limit` bytes, whatever these hold. */
  predicate Tame(types: Types, layout: Layout, limit: nat) {
    forall name | name in types ::
      forall k | 0 <= k < |types[name]| :: TameMember(types, layout, types[name][k], types[name], limit)
  }

  /** The scalar integers decoded so far are numbers of their C types. */
  ghost predicate Typed(members: seq<Member>, fields: seq<Value>) {
    && |fields| <= |members|
    && forall j | 0 <= j < |fields| && members[j].dims == [] && (members[j].ty.Plain? || members[j].ty.BitField?) ::
         fields[j].Word? && InType(fields[j].n, StorageOf(members[j].ty.prim))
  }

  /* ---------- single calls ---------- */

  lemma ShortCount(c: int, p: Prim)
    requires p in {Int8, Int16} && InType(c, StorageOf(p))
    ensures -32768 <= c <= 32767
  {
    assert Pow2(7) == 128 && Pow2(15) == 32768;
  }

  /** A count of 16 bits never makes a word decoder overrun: a negative one asks for nearly 2^32 bytes. */
  lemma ShortNeverOverruns(c: int, n: nat, maxlen: nat)
    requires -32768 <= c <= 32767 && n in {1, 2, 4, 8} && maxlen < SAFE_LIMIT
    ensures !Overruns(U32(c), n, maxlen)
  {
    hide Span, Mul32;
    var elements := U32(c);
    SpanProduct(elements, n);
    if c >= 0 {
      U32Small(c);
      assert Span(elements, n) < 0x1_0000_0000;
    } else {
      assert elements == 0x1_0000_0000 + c;
      var r := 0x1_0000_0000 + n * c;
      assert Span(elements, n) == 0x1_0000_0000 * (n - 1) + r;
      Remainder(Span(elements, n), n - 1, r);
    }
  }

  lemma FixedNeverOverruns(elements: nat, n: nat, maxlen: nat)
    requires Span(elements, n) < 0x1_0000_0000
    ensures !Overruns(elements, n, maxlen)
  {
  }

  lemma PrimSize(p: Prim)
    ensures NumBytes(p) in {1, 2, 4, 8}
  {
  }

  lemma FieldValueInType(s: seq<bool>, signExtend: bool, ty: Storage)
    requires ty.width > 0
    ensures InType(FieldValue(s, signExtend, ty), ty)
  {
    ToTypeInType(Reading(s, signExtend), ty);
  }

  /** A single word or field is a number of its type. */
  lemma OneTyped(types: Types, layout: Layout, ty: MemberType, depth: nat, buf: seq<Byte>, limit: nat, pos: nat, le: bool)
    requires limit <= |buf| && (ty.Plain? || ty.BitField?)
    requires DecodeBatch(types, layout, ty, Inline, depth, buf, limit, pos, 1, le).Got?
    ensures var v := DecodeBatch(types, layout, ty, Inline, depth, buf, limit, pos, 1, le).value;
            |v| == 1 && v[0].Word? && InType(v[0].n, StorageOf(ty.prim))
  {
    hide ToBits, FieldValue, Span, ToType, InType, WordsAt, FieldValues, BytesNum, Mul32;
    U32Small(1);
    if ty.Plain? {
      SpanNext(0, NumBytes(ty.prim));
      WordsNext(buf, pos / 8, 0, ty.prim, le);
      var k := pos / 8 + Span(0, NumBytes(ty.prim));
      ToTypeInType(BytesNum(buf[k..k + NumBytes(ty.prim)], le), StorageOf(ty.prim));
    } else {
      SpanNext(0, ty.numBits);
      FieldsNext(ToBits(buf), pos, 0, ty.numBits, ty.signExtend, StorageOf(ty.prim));
      FieldValueInType(ToBits(buf)[pos..pos + ty.numBits], ty.signExtend, StorageOf(ty.prim));
    }
  }

  /* ---------- undefined calls, exactly ---------- */

  /** How many cells lie in a block. */
  function Room(size: nat, cell: nat): nat
    requires cell > 0
  {
    size / cell
  }

  lemma Capacity(size: nat, n: nat, cell: nat)
    requires cell > 0
    ensures Holds(Heap(size), n, cell) <==> n <= Room(size, cell)
  {
    hide Span;
    SpanProduct(n, cell);
    var k := Room(size, cell);
    assert size == k * cell + size % cell;
    if n <= k {
      assert n * cell <= k * cell;
    } else {
      assert (k + 1) * cell == k * cell + cell;
      assert (k + 1) * cell <= n * cell;
    }
  }

  /** Strings that do not all fit their block: the decoder stores behind it exactly when the message
      holds those that fit and the length of one more. */
  lemma {:induction false} TextsExactly(buf: seq<Byte>, limit: nat, at: nat, size: nat, pointer: nat, count: nat, le: bool)
    requires limit <= |buf| && pointer > 0
    ensures var k := Room(size, pointer);
            var read := DecodeTexts(buf, limit, at, Heap(size), pointer, count, le);
            var fitting := DecodeTexts(buf, limit, at, Inline, pointer, if count <= k then count else k, le);
            && !fitting.Undefined?
            && (count <= k ==> read == fitting)
            && (count > k ==> !read.Got? && (read.Undefined? <==> fitting.Got? && fitting.pos / 8 + 4 <= limit))
    decreases count
  {
    hide Holds, BytesNum, ToType, CString, Room;
    if count > 0 {
      TextsExactly(buf, limit, at, size, pointer, count - 1, le);
      Capacity(size, count, pointer);
      HoldsInline(count, pointer);
    }
  }

  /** Records that do not all fit their block: the first one behind it is undefined. */
  lemma {:induction false} RecordsExactly(types: Types, layout: Layout, name: string, size: nat, depth: nat, buf: seq<Byte>, limit: nat,
                                          pos: nat, count: nat, le: bool)
    requires limit <= |buf| && SizeOf(types, layout, Ref(name)) > 0
    ensures var k := Room(size, SizeOf(types, layout, Ref(name)));
            var fitting := DecodeRecords(types, layout, name, Inline, depth, buf, limit, pos, if count <= k then count else k, le);
            DecodeRecords(types, layout, name, Heap(size), depth, buf, limit, pos, count, le)
            == if count > k && fitting.Got? then Undefined else fitting
    decreases count
  {
    hide Holds, SizeOf, DecodeRecord, Room;
    if count > 0 {
      RecordsExactly(types, layout, name, size, depth, buf, limit, pos, count - 1, le);
      Capacity(size, count, SizeOf(types, layout, Ref(name)));
      HoldsInline(count, SizeOf(types, layout, Ref(name)));
    }
  }

  /** Pointers that do not all fit their block: the turn that stores the first one behind it is undefined. */
  lemma {:induction false} OuterExactly(types: Types, layout: Layout, m: Member, d: nat, fields: seq<Value>, size: nat, depth: nat,
                                        buf: seq<Byte>, limit: nat, pos: nat, count: nat, le: bool)
    requires limit <= |buf| && d + 1 < |m.dims| && layout.pointer > 0
    requires BlockAt(types, layout, m, d, fields) == Heap(size) && count > Room(size, layout.pointer)
    ensures var fitting := DecodeOuter(types, layout, m, d, fields, depth, buf, limit, pos, Room(size, layout.pointer), le);
            DecodeOuter(types, layout, m, d, fields, depth, buf, limit, pos, count, le)
            == if fitting.Got? then Undefined else fitting
    decreases count
  {
    hide Holds, BlockAt, DecodeDims, Room;
    Capacity(size, count, layout.pointer);
    if count - 1 > Room(size, layout.pointer) {
      OuterExactly(types, layout, m, d, fields, size, depth, buf, limit, pos, count - 1, le);
    }
  }

  /** The counts on which a call is undefined, exactly. Words: the size passes 2^32 and what is left of it
      is covered by the bytes that remain. Bit fields: the same for the bits, or the block's size passes
      2^32. Strings: the size of the block for their pointers passes 2^32, and the message holds as many
      strings as what is left of it, and the length of another. */
  lemma UndefinedExactly(types: Types, layout: Layout, ty: MemberType, block: Block, depth: nat, buf: seq<Byte>, limit: nat, pos: nat,
                         count: int, le: bool)
    requires limit <= |buf| && limit < 0x1_0000_0000 && pos <= 8 * limit
    requires block == Inline || block == Malloc(SizeOf(types, layout, ty), count)
    ensures ty.Plain? ==>
              (DecodeBatch(types, layout, ty, block, depth, buf, limit, pos, count, le).Undefined?
               <==> && Span(U32(count), NumBytes(ty.prim)) >= 0x1_0000_0000
                    && pos / 8 + Mul32(U32(count), NumBytes(ty.prim)) <= limit)
    ensures ty.BitField? && limit - pos / 8 < 0x2000_0000 ==>
              var bits := Span(U32(count), ty.numBits) + pos % 8;
              (DecodeBatch(types, layout, ty, block, depth, buf, limit, pos, count, le).Undefined?
               <==> && (bits >= 0x1_0000_0000 || (block.Heap? && Span(U32(count), NumBytes(ty.prim)) >= 0x1_0000_0000))
                    && pos / 8 + EncodedSize(U32(bits)) <= limit)
    ensures ty.Text? ==>
              (DecodeBatch(types, layout, ty, block, depth, buf, limit, pos, count, le).Undefined?
               <==> && block.Heap? && Span(U32(count), layout.pointer) >= 0x1_0000_0000 && layout.pointer > 0
                    && var fitting := DecodeTexts(buf, limit, pos / 8, Inline, layout.pointer, Room(block.size, layout.pointer), le);
                       fitting.Got? && fitting.pos / 8 + 4 <= limit)
  {
    hide Span, Mul32, U32, EncodedSize, WordsAt, FieldValues, ToBits, DecodeTexts, Malloc, Room;
    match ty
    case Plain(p) => OverrunsWhen(U32(count), NumBytes(p), limit - pos / 8);
    case BitField(_, _, _) => if limit - pos / 8 < 0x2000_0000 { FieldsExactly(types, ty, block, buf, limit, pos, count); }
    case Text => TextsUndefined(layout, block, buf, limit, pos, count, le);
    case _ =>
  }

  lemma FieldsExactly(types: Types, ty: MemberType, block: Block, buf: seq<Byte>, limit: nat, pos: nat, count: int)
    requires limit <= |buf| && pos <= 8 * limit && limit - pos / 8 < 0x2000_0000 && ty.BitField?
    requires block == Inline || block == Malloc(NumBytes(ty.prim), count)
    ensures var bits := Span(U32(count), ty.numBits) + pos % 8;
            DecodeFields(ty, buf, limit, pos, block, U32(count)).Undefined?
            <==> && (bits >= 0x1_0000_0000 || (block.Heap? && Span(U32(count), NumBytes(ty.prim)) >= 0x1_0000_0000))
                 && pos / 8 + EncodedSize(U32(bits)) <= limit
  {
    hide Span, Mul32, U32, EncodedSize, FieldValues, ToBits, Malloc;
    OverrunsBitsWhen(U32(count), ty.numBits, pos % 8, limit - pos / 8);
    U32Sum(Span(U32(count), ty.numBits), pos % 8);
  }

  lemma TextsUndefined(layout: Layout, block: Block, buf: seq<Byte>, limit: nat, pos: nat, count: int, le: bool)
    requires limit <= |buf| && (block == Inline || block == Malloc(layout.pointer, count))
    ensures DecodeTexts(buf, limit, pos / 8, block, layout.pointer, U32(count), le).Undefined?
            <==> && block.Heap? && Span(U32(count), layout.pointer) >= 0x1_0000_0000 && layout.pointer > 0
                 && var fitting := DecodeTexts(buf, limit, pos / 8, Inline, layout.pointer, Room(block.size, layout.pointer), le);
                    fitting.Got? && fitting.pos / 8 + 4 <= limit
  {
    hide Span, Mul32, U32, DecodeTexts, Malloc, Room;
    var elements, pointer := U32(count), layout.pointer;
    if pointer == 0 || block.Inline? {
      SpanProduct(elements, pointer);
      TextsSafe(buf, limit, pos / 8, block, pointer, elements, le);
    } else {
      TextsExactly(buf, limit, pos / 8, block.size, pointer, elements, le);
      Capacity(block.size, elements, pointer);
    }
  }

  /** Strings that all find their place are read safely. */
  lemma {:induction false} TextsSafe(buf: seq<Byte>, limit: nat, at: nat, block: Block, pointer: nat, count: nat, le: bool)
    requires limit <= |buf|
    requires block.Inline? || pointer == 0
    ensures !DecodeTexts(buf, limit, at, block, pointer, count, le).Undefined?
  {
    hide BytesNum, ToType, CString, Span;
    SpanProduct(count, pointer);
    if count > 0 { TextsSafe(buf, limit, at, block, pointer, count - 1, le); }
  }

  /* ---------- room in a block ---------- */

  /** A block for a count of 16 bits covers what a message of `limit` bytes can fill; a negative count
      asks for nearly 2^32 bytes. */
  lemma RoomForShort(size: nat, c: int, limit: nat, n: nat)
    requires -32768 <= c <= 32767 && Span(limit + 0x8001, size) <= 0x1_0000_0000
    requires n <= U32(c) && n <= limit + 1
    ensures Span(n, size) <= Mul32(U32(c), size)
  {
    hide Span, Mul32, U32;
    ProductWraps(size, c);
    SpanSum(limit + 1, 0x8000, size);
    SpanMono(n, limit + 1, size);
    if c >= 0 {
      U32Small(c);
      SpanMono(n, c, size);
      SpanMono(c, 0x8000, size);
      SpanNext(limit, size);
    } else {
      SpanMono(-c, 0x8000, size);
      SpanProduct(-c, size);
      assert size * c + Span(-c, size) == 0;
      if size == 0 {
        SpanProduct(n, size);
      } else {
        SpanNext(-c - 1, size);
        Remainder(size * c, -1, 0x1_0000_0000 - Span(-c, size));
      }
    }
  }

  lemma {:induction false} SpanSum(a: nat, b: nat, size: nat)
    ensures Span(a + b, size) == Span(a, size) + Span(b, size)
    decreases b
  {
    if b > 0 { SpanSum(a, b - 1, size); }
  }

  /** A call stays inside its bytes and its block. */
  ghost predicate Roomy(types: Types, layout: Layout, ty: MemberType, block: Block, elements: nat, buf: seq<Byte>, limit: nat,
                        pos: nat, le: bool)
    requires limit <= |buf|
  {
    match ty
    case Plain(p) => !DecodePlain(p, buf, limit, pos, block, elements, le).Undefined?
    case BitField(_, _, _) => !DecodeFields(ty, buf, limit, pos, block, elements).Undefined?
    case _ => RoomyCells(types, layout, ty, block, elements, limit)
  }

  /** All that the message can fill has its place. */
  ghost predicate RoomyCells(types: Types, layout: Layout, ty: MemberType, block: Block, elements: nat, limit: nat) {
    forall n | 0 <= n <= elements && (Consumes(types, ty) ==> n <= limit + 1) :: Holds(block, n, SizeOf(types, layout, ty))
  }

  /** One element needs no block. */
  lemma OneRoomy(types: Types, layout: Layout, ty: MemberType, buf: seq<Byte>, limit: nat, pos: nat, le: bool)
    requires limit <= |buf| && LegalType(ty, types)
    ensures Roomy(types, layout, ty, Inline, 1, buf, limit, pos, le)
  {
    hide Span, Mul32, U32, SizeOf, Consumes;
    if ty.Plain? {
      PrimSize(ty.prim);
      SpanNext(0, NumBytes(ty.prim));
      U32Small(NumBytes(ty.prim));
    } else if ty.BitField? {
      SpanNext(0, ty.numBits);
      U32Small(ty.numBits);
      U32Small(ty.numBits + pos % 8);
    }
  }

  lemma PlainRoomy(p: Prim, block: Block, count: int, buf: seq<Byte>, limit: nat, pos: nat, le: bool)
    requires limit <= |buf| && limit < 0x1_0000_0000 && (block == Inline || block == Malloc(NumBytes(p), count))
    requires !Overruns(U32(count), NumBytes(p), if pos / 8 <= limit then limit - pos / 8 else 0)
    ensures !DecodePlain(p, buf, limit, pos, block, U32(count), le).Undefined?
  {
    hide Span, Mul32, U32, NumBytes, Malloc;
  }

  /** The last dimension of a tame member. */
  lemma LastRoomy(types: Types, layout: Layout, m: Member, members: seq<Member>, fields: seq<Value>, k: nat, buf: seq<Byte>,
                  limit: nat, pos: nat, le: bool)
    requires limit <= |buf| && limit < SAFE_LIMIT && m.dims != [] && k == |fields| && Typed(members, fields)
    requires TameLast(types, layout, m, m.dims[|m.dims| - 1], members, limit) && LegalDim(m.dims[|m.dims| - 1], members, k)
    ensures var d := |m.dims| - 1;
            Roomy(types, layout, m.ty, BlockAt(types, layout, m, d, fields), U32(Count(m.dims[d], fields)), buf, limit, pos, le)
  {
    hide Span, Mul32, U32, InType, BlockAt, DecodePlain, DecodeFields, Consumes, RoomyCells;
    var d := |m.dims| - 1;
    var dim, count := m.dims[d], Count(m.dims[d], fields);
    LastBlock(types, layout, m, fields);
    if ShortType(dim, members) { ShortCount(count, members[dim.member].ty.prim); }
    match m.ty {
      case Plain(p) => LastPlain(p, BlockAt(types, layout, m, d, fields), count, buf, limit, pos, le);
      case BitField(_, _, _) => LastFields(types, layout, m, fields, buf, limit, pos);
      case _ => LastCells(types, layout, m, members, fields, limit);
    }
  }

  lemma LastBlock(types: Types, layout: Layout, m: Member, fields: seq<Value>)
    requires m.dims != []
    ensures var d := |m.dims| - 1;
            BlockAt(types, layout, m, d, fields)
            == if ConstantSize(m) then Inline else Malloc(SizeOf(types, layout, m.ty), Count(m.dims[d], fields))
  {
    hide Malloc, SizeOf, Count;
  }

  lemma LastPlain(p: Prim, block: Block, count: int, buf: seq<Byte>, limit: nat, pos: nat, le: bool)
    requires limit <= |buf| && limit < SAFE_LIMIT && (block == Inline || block == Malloc(NumBytes(p), count))
    requires -32768 <= count <= 32767 || (0 <= count < 0x1_0000_0000 && Span(count, NumBytes(p)) < 0x1_0000_0000)
    ensures !DecodePlain(p, buf, limit, pos, block, U32(count), le).Undefined?
  {
    hide Span, Mul32, U32, DecodePlain, Malloc;
    var maxlen := if pos / 8 <= limit then limit - pos / 8 else 0;
    PrimSize(p);
    if -32768 <= count <= 32767 {
      ShortNeverOverruns(count, NumBytes(p), maxlen);
    } else {
      U32Small(count);
      FixedNeverOverruns(count, NumBytes(p), maxlen);
    }
    PlainRoomy(p, block, count, buf, limit, pos, le);
  }

  lemma LastFields(types: Types, layout: Layout, m: Member, fields: seq<Value>, buf: seq<Byte>, limit: nat, pos: nat)
    requires limit <= |buf| && m.dims != [] && m.ty.BitField?
    requires TameLast(types, layout, m, m.dims[|m.dims| - 1], [], limit)
    ensures var d := |m.dims| - 1;
            !DecodeFields(m.ty, buf, limit, pos, BlockAt(types, layout, m, d, fields), U32(Count(m.dims[d], fields))).Undefined?
  {
    hide Span, Mul32, U32, BlockAt;
    var d := |m.dims| - 1;
    var count := m.dims[d].n;
    U32Small(count);
    U32Small(Span(count, m.ty.numBits) + pos % 8);
    BlockHolds(types, layout, m, d, fields, count);
  }

  lemma LastCells(types: Types, layout: Layout, m: Member, members: seq<Member>, fields: seq<Value>, limit: nat)
    requires m.dims != [] && (m.ty.Text? || m.ty.Ref?)
    requires TameLast(types, layout, m, m.dims[|m.dims| - 1], members, limit)
    requires m.dims[|m.dims| - 1].Counted? ==> -32768 <= Count(m.dims[|m.dims| - 1], fields) <= 32767
    ensures var d := |m.dims| - 1;
            RoomyCells(types, layout, m.ty, BlockAt(types, layout, m, d, fields), U32(Count(m.dims[d], fields)), limit)
  {
    hide Span, Mul32, U32, BlockAt, SizeOf, Consumes, Count, ShortType;
    var d := |m.dims| - 1;
    var dim, count, size := m.dims[d], Count(m.dims[d], fields), SizeOf(types, layout, m.ty);
    LastBlock(types, layout, m, fields);
    forall n | 0 <= n <= U32(count) && (Consumes(types, m.ty) ==> n <= limit + 1)
      ensures Holds(BlockAt(types, layout, m, d, fields), n, size)
    {
      if size == 0 {
        SpanProduct(n, size);
      } else if dim.Counted? {
        RoomForShort(size, count, limit, n);
      } else if !ConstantSize(m) {
        FixedCount(dim, fields);
        U32Small(count);
        SpanMono(n, count, size);
      }
    }
  }

  lemma FixedCount(dim: Dim, fields: seq<Value>)
    requires dim.Fixed?
    ensures Count(dim, fields) == dim.n
  {
  }

  /* ---------- whole messages ---------- */

  ghost predicate Setting(types: Types, layout: Layout, buf: seq<Byte>, limit: nat) {
    LegalTypes(types) && Tame(types, layout, limit) && limit <= |buf| && limit < SAFE_LIMIT
  }

  /** A reading that is defined, moves on by at least `least` bits and stays inside the message. */
  ghost predicate Safe<T(!new)>(r: Read<T>, pos: nat, least: nat, limit: nat, bytes: bool) {
    && !r.Undefined?
    && (r.Got? ==> pos + least <= r.pos <= 8 * limit && (bytes ==> r.pos % 8 == 0))
  }

  lemma {:induction false} RecordsSafe(types: Types, layout: Layout, name: string, block: Block, depth: nat, buf: seq<Byte>, limit: nat,
                                       pos: nat, count: nat, elements: nat, le: bool)
    requires Setting(types, layout, buf, limit) && pos <= 8 * limit && pos % 8 == 0
    requires count <= elements && RoomyCells(types, layout, Ref(name), block, elements, limit)
    ensures Safe(DecodeRecords(types, layout, name, block, depth, buf, limit, pos, count, le), pos,
                 if Consumes(types, Ref(name)) then 8 * count else 0, limit, true)
    decreases depth, 1, count, 0
  {
    assert limit <= |buf|;
    hide Setting, DecodeRecord, Consumes, SizeOf, Holds;
    if count > 0 {
      RecordsSafe(types, layout, name, block, depth, buf, limit, pos, count - 1, elements, le);
      var before := DecodeRecords(types, layout, name, block, depth, buf, limit, pos, count - 1, le);
      if before.Got? {
        RecordSafe(types, layout, name, depth, buf, limit, before.pos, le);
        assert Holds(block, count, SizeOf(types, layout, Ref(name)));
      }
    }
  }

  lemma {:induction false} RecordSafe(types: Types, layout: Layout, name: string, depth: nat, buf: seq<Byte>, limit: nat, pos: nat, le: bool)
    requires Setting(types, layout, buf, limit) && pos <= 8 * limit && pos % 8 == 0
    ensures Safe(DecodeRecord(types, layout, name, depth, buf, limit, pos, le), pos,
                 if Consumes(types, Ref(name)) then 8 else 0, limit, true)
    decreases depth, 0, 0, 0
  {
    hide DecodePrefix, LegalTypes, Tame;
    if name in types && depth > 0 {
      PrefixSafe(types, layout, name, |types[name]|, depth - 1, buf, limit, pos, le);
    }
  }

  /** Bits that the first k members take at least. */
  ghost function Least(members: seq<Member>, k: nat): nat
    requires k <= |members|
  {
    if exists j | 0 <= j < k :: Solid(members[j]) then 8 else 0
  }

  lemma {:induction false} PrefixSafe(types: Types, layout: Layout, name: string, k: nat, depth: nat, buf: seq<Byte>, limit: nat, pos: nat,
                                      le: bool)
    requires Setting(types, layout, buf, limit) && name in types && k <= |types[name]| && pos <= 8 * limit && pos % 8 == 0
    ensures Safe(DecodePrefix(types, layout, types[name], k, depth, buf, limit, pos, le), pos, Least(types[name], k), limit, false)
    ensures var r := DecodePrefix(types, layout, types[name], k, depth, buf, limit, pos, le);
            r.Got? ==> Typed(types[name], r.value)
    decreases depth, 4, k, 0
  {
    assert limit <= |buf|;
    hide Setting, DecodeDims, InType, DecodePrefix, Least, Typed, Solid, MemberStart;
    if k == 0 {
      NoneTyped(types[name]);
      NoneRead(types, layout, types[name], depth, buf, limit, pos, le);
    } else {
      var m := types[name][k - 1];
      PrefixSafe(types, layout, name, k - 1, depth, buf, limit, pos, le);
      OneMoreRead(types, layout, types[name], k - 1, depth, buf, limit, pos, le);
      var before := DecodePrefix(types, layout, types[name], k - 1, depth, buf, limit, pos, le);
      if before.Got? {
        StartSafe(m.ty, before.pos, limit);
        DimsSafe(types, layout, name, k - 1, 0, before.value, depth, buf, limit, MemberStart(m.ty, before.pos), le);
        var next := DecodeDims(types, layout, m, 0, before.value, depth, buf, limit, MemberStart(m.ty, before.pos), le);
        LeastNext(types[name], k - 1);
        if next.Got? {
          ScalarTyped(types, layout, m, before.value, depth, buf, limit, MemberStart(m.ty, before.pos), le);
          TypedNext(types[name], before.value, next.value);
        }
      }
    }
  }

  lemma NoneTyped(members: seq<Member>)
    ensures Typed(members, []) && Least(members, 0) == 0
  {
  }

  lemma TypedNext(members: seq<Member>, fields: seq<Value>, v: Value)
    requires Typed(members, fields) && |fields| < |members|
    requires var m := members[|fields|];
             m.dims == [] && (m.ty.Plain? || m.ty.BitField?) ==> v.Word? && InType(v.n, StorageOf(m.ty.prim))
    ensures Typed(members, fields + [v])
  {
    hide InType, StorageOf;
  }

  lemma LeastNext(members: seq<Member>, k: nat)
    requires k < |members|
    ensures Least(members, k + 1) == if Solid(members[k]) then 8 else Least(members, k)
  {
    hide Solid;
    assert Solid(members[k]) ==> exists j | 0 <= j < k + 1 :: Solid(members[j]);
  }

  lemma StartSafe(ty: MemberType, pos: nat, limit: nat)
    requires pos <= 8 * limit
    ensures pos <= MemberStart(ty, pos) <= 8 * limit && (!ty.BitField? ==> MemberStart(ty, pos) % 8 == 0)
  {
  }

  lemma ScalarTyped(types: Types, layout: Layout, m: Member, fields: seq<Value>, depth: nat, buf: seq<Byte>, limit: nat, pos: nat, le: bool)
    requires limit <= |buf|
    ensures m.dims == [] && (m.ty.Plain? || m.ty.BitField?) ==>
              var r := DecodeDims(types, layout, m, 0, fields, depth, buf, limit, pos, le);
              r.Got? ==> r.value.Word? && InType(r.value.n, StorageOf(m.ty.prim))
  {
    hide InType, DecodeBatch;
    if m.dims == [] && (m.ty.Plain? || m.ty.BitField?) && DecodeBatch(types, layout, m.ty, Inline, depth, buf, limit, pos, 1, le).Got? {
      OneTyped(types, layout, m.ty, depth, buf, limit, pos, le);
    }
  }

  lemma MemberFacts(types: Types, layout: Layout, buf: seq<Byte>, limit: nat, name: string, k: nat)
    requires Setting(types, layout, buf, limit) && name in types && k < |types[name]|
    ensures LegalType(types[name][k].ty, types) && TameMember(types, layout, types[name][k], types[name], limit)
    ensures forall d | 0 <= d < |types[name][k].dims| :: LegalDim(types[name][k].dims[d], types[name], k)
  {
    assert LegalStruct(types[name], types);
  }

  lemma {:induction false} DimsSafe(types: Types, layout: Layout, name: string, k: nat, d: nat, fields: seq<Value>, depth: nat,
                                    buf: seq<Byte>, limit: nat, pos: nat, le: bool)
    requires Setting(types, layout, buf, limit) && name in types && k < |types[name]|
    requires d < |types[name][k].dims| || d == |types[name][k].dims| == 0
    requires |fields| == k && Typed(types[name], fields) && pos <= 8 * limit && (!types[name][k].ty.BitField? ==> pos % 8 == 0)
    ensures Safe(DecodeDims(types, layout, types[name][k], d, fields, depth, buf, limit, pos, le), pos,
                 if Solid(types[name][k]) then 8 else 0, limit, !types[name][k].ty.BitField?)
    decreases depth, 3, |types[name][k].dims| - d, 2
  {
    assert limit <= |buf| && limit < SAFE_LIMIT;
    hide DecodeOuter, DecodeBatch, Typed, LegalType, LegalDim, TameOuter, TameLast, Count, Setting, Turns, BlockAt, Roomy, LeastBits;
    var m := types[name][k];
    MemberFacts(types, layout, buf, limit, name, k);
    if d + 1 < |m.dims| {
      assert TameOuter(layout, m, m.dims[d], types[name]);
      OuterCount(types, layout, m, d, types[name], fields, k);
      OuterSafe(types, layout, name, k, d, fields, Turns(Count(m.dims[d], fields)), depth, buf, limit, pos, le);
    } else if |m.dims| == 0 {
      OneRoomy(types, layout, m.ty, buf, limit, pos, le);
      U32Small(1);
      BatchSafe(types, layout, m.ty, Inline, depth, buf, limit, pos, 1, le);
      SolidLeast(m);
    } else {
      assert TameLast(types, layout, m, m.dims[d], types[name], limit);
      LastRoomy(types, layout, m, types[name], fields, k, buf, limit, pos, le);
      BatchSafe(types, layout, m.ty, BlockAt(types, layout, m, d, fields), depth, buf, limit, pos, Count(m.dims[d], fields), le);
    }
  }

  /** Bits that a batch takes at least. */
  function LeastBits(ty: MemberType, elements: nat): nat {
    if ty.Plain? || ty.Text? then (if elements == 1 then 8 else 0) else 0
  }

  lemma SolidLeast(m: Member)
    requires m.dims == []
    ensures LeastBits(m.ty, 1) == if Solid(m) then 8 else 0
  {
  }

  /** The loop over an outer dimension of a tame member ends, and its pointers find their place. */
  lemma OuterCount(types: Types, layout: Layout, m: Member, d: nat, members: seq<Member>, fields: seq<Value>, k: nat)
    requires d + 1 < |m.dims| && TameOuter(layout, m, m.dims[d], members) && LegalDim(m.dims[d], members, k)
    requires |fields| == k && Typed(members, fields)
    ensures var count := Count(m.dims[d], fields);
            && count <= INT_MAX
            && Holds(BlockAt(types, layout, m, d, fields), Turns(count), layout.pointer)
  {
    hide InType, Span, Mul32, U32;
    var dim, count := m.dims[d], Count(m.dims[d], fields);
    if dim.Counted? { ShortCount(count, members[dim.member].ty.prim); }
    if count <= 0 {
      HoldsNone(BlockAt(types, layout, m, d, fields), layout.pointer);
    } else {
      U32Small(count);
      BlockHolds(types, layout, m, d, fields, count);
      if dim.Counted? { SpanMono(count, 0x8000, layout.pointer); }
    }
  }

  lemma BatchSafe(types: Types, layout: Layout, ty: MemberType, block: Block, depth: nat, buf: seq<Byte>, limit: nat, pos: nat, count: int,
                  le: bool)
    requires Setting(types, layout, buf, limit) && pos <= 8 * limit && (!ty.BitField? ==> pos % 8 == 0)
    requires Roomy(types, layout, ty, block, U32(count), buf, limit, pos, le)
    ensures Safe(DecodeBatch(types, layout, ty, block, depth, buf, limit, pos, count, le), pos, LeastBits(ty, U32(count)), limit,
                 !ty.BitField?)
    decreases depth, 2, 0, 0
  {
    assert limit <= |buf|;
    hide Setting, U32, RoomyCells, DecodePlain, DecodeFields, DecodeTexts, DecodeRecords;
    match ty {
      case Plain(p) => WordsSafe(p, block, buf, limit, pos, U32(count), le);
      case BitField(_, _, _) => FieldsSafe(ty, block, buf, limit, pos, U32(count));
      case Ref(name) => RecordsSafe(types, layout, name, block, depth, buf, limit, pos, U32(count), U32(count), le);
      case Text => TextsRoomy(types, layout, block, buf, limit, pos, U32(count), U32(count), le);
    }
  }

  lemma WordsSafe(p: Prim, block: Block, buf: seq<Byte>, limit: nat, pos: nat, elements: nat, le: bool)
    requires limit <= |buf| && pos % 8 == 0 && !DecodePlain(p, buf, limit, pos, block, elements, le).Undefined?
    ensures Safe(DecodePlain(p, buf, limit, pos, block, elements, le), pos, LeastBits(Plain(p), elements), limit, true)
  {
    hide Span, Mul32, WordsAt, Holds;
    PrimSize(p);
    SpanNext(0, NumBytes(p));
  }

  lemma FieldsSafe(ty: MemberType, block: Block, buf: seq<Byte>, limit: nat, pos: nat, elements: nat)
    requires limit <= |buf| && ty.BitField? && !DecodeFields(ty, buf, limit, pos, block, elements).Undefined?
    ensures Safe(DecodeFields(ty, buf, limit, pos, block, elements), pos, 0, limit, false)
  {
    hide Span, Mul32, FieldValues, ToBits, Holds, EncodedSize;
    WrapsDown(Span(elements, ty.numBits));
  }

  lemma WrapsDown(x: nat)
    ensures U32(x) <= x
  {
  }

  lemma {:induction false} TextsRoomy(types: Types, layout: Layout, block: Block, buf: seq<Byte>, limit: nat, pos: nat, count: nat,
                                      elements: nat, le: bool)
    requires limit <= |buf| && pos % 8 == 0 && pos <= 8 * limit
    requires count <= elements && RoomyCells(types, layout, Text, block, elements, limit)
    ensures Safe(DecodeTexts(buf, limit, pos / 8, block, layout.pointer, count, le), pos, 8 * count, limit, true)
    decreases count
  {
    hide BytesNum, ToType, CString, Holds;
    if count > 0 {
      TextsRoomy(types, layout, block, buf, limit, pos, count - 1, elements, le);
      var before := DecodeTexts(buf, limit, pos / 8, block, layout.pointer, count - 1, le);
      if before.Got? { assert Holds(block, count, SizeOf(types, layout, Text)); }
    }
  }

  lemma {:induction false} OuterSafe(types: Types, layout: Layout, name: string, k: nat, d: nat, fields: seq<Value>, count: nat, depth: nat,
                                     buf: seq<Byte>, limit: nat, pos: nat, le: bool)
    requires Setting(types, layout, buf, limit) && name in types && k < |types[name]| && d + 1 < |types[name][k].dims|
    requires |fields| == k && Typed(types[name], fields) && pos <= 8 * limit && (!types[name][k].ty.BitField? ==> pos % 8 == 0)
    requires Holds(BlockAt(types, layout, types[name][k], d, fields), count, layout.pointer)
    ensures Safe(DecodeOuter(types, layout, types[name][k], d, fields, depth, buf, limit, pos, count, le), pos, 0, limit,
                 !types[name][k].ty.BitField?)
    decreases depth, 3, |types[name][k].dims| - d, 1, count
  {
    assert limit <= |buf|;
    hide DecodeDims, Typed, Setting, BlockAt, Holds;
    if count > 0 {
      HoldsFewer(BlockAt(types, layout, types[name][k], d, fields), count - 1, count, layout.pointer);
      OuterSafe(types, layout, name, k, d, fields, count - 1, depth, buf, limit, pos, le);
      var before := DecodeOuter(types, layout, types[name][k], d, fields, depth, buf, limit, pos, count - 1, le);
      if before.Got? { DimsSafe(types, layout, name, k, d + 1, fields, depth, buf, limit, before.pos, le); }
    }
  }

  /** On a tame schema the decoder's behaviour is defined on every buffer, whatever a message says. */
  lemma NeverUndefined(types: Types, layout: Layout, name: string, hash: int, depth: nat, buf: seq<Byte>, offset: nat, maxlen: nat, le: bool)
    requires LegalTypes(types) && Tame(types, layout, offset + maxlen) && offset + maxlen <= |buf| && offset + maxlen < SAFE_LIMIT
    ensures !DecodeMessage(types, layout, name, hash, depth, buf, offset, maxlen, le).Undefined?
  {
    hide BytesNum, ToType, LegalTypes, Tame, DecodeRecord;
    if maxlen >= 8 { RecordSafe(types, layout, name, depth, buf, offset + maxlen, 8 * offset + 64, le); }
  }

  /** struct S { int16_t n; string s[n]; int8_t k; double a[3][k]; } */
  function TameSchema(): Types {
    map["S" := [Member(Plain(Int16), []), Member(Text, [Counted(0)]), Member(Plain(Int8), []),
                Member(Plain(Double), [Fixed(3), Counted(2)])]]
  }

  /** It is such a schema, with pointers of eight bytes and buffers of up to 2^28 bytes. */
  lemma TameInput(types: Types, layout: Layout, limit: nat, size: nat)
    requires types == TameSchema() && layout.pointer == size == 8 && limit <= 0x1000_0000
    ensures LegalTypes(types) && Tame(types, layout, limit)
  {
    hide Span;
    SpanProduct(limit + 0x8001, size);
    SpanProduct(3, size);
    assert TameMember(types, layout, types["S"][0], types["S"], limit) && TameMember(types, layout, types["S"][2], types["S"], limit);
    assert TameMember(types, layout, types["S"][1], types["S"], limit);
    assert TameMember(types, layout, types["S"][3], types["S"], limit);
  }

  /* ---------- inputs ---------- */

  /** struct S { int32_t n; T a[n]; } */
  function Growing(ty: MemberType): Types {
    map["S" := [Member(Plain(Int32), []), Member(ty, [Counted(0)])]]
  }

  /** A message of S with a given n and some bytes behind it. */
  function Wild(hash: int, n: int, rest: seq<Byte>, le: bool): (buf: seq<Byte>)
    ensures |buf| == 12 + |rest|
  {
    BeBytes(hash, 8) + WordBytes(n, 4, le) + rest
  }

  lemma ReadCount(types: Types, layout: Layout, depth: nat, n: int, buf: seq<Byte>, limit: nat, pos: nat, le: bool)
    requires limit == |buf| >= 12 && pos == 64 && InType(n, Storage(32, true)) && buf[8..12] == WordBytes(n, 4, le)
    ensures DecodeBatch(types, layout, Plain(Int32), Inline, depth, buf, limit, pos, 1, le) == Got([Word(n)], pos + 32)
  {
    hide BytesNum, ToType, Span, WordsAt, Mul32, WordBytes, InType;
    assert NumBytes(Int32) == 4;
    SpanNext(0, 4);
    U32Small(1);
    U32Small(4);
    WordsNone(buf, 8, Int32, le);
    WordsNext(buf, 8, 0, Int32, le);
    assert [] + [Word(n)] == [Word(n)];
    WordBack(n, Int32, le);
  }

  /** What a decoder makes of such a message is what it makes of the array. */
  lemma GrowingRead(types: Types, layout: Layout, ty: MemberType, hash: int, depth: nat, n: int, rest: seq<Byte>, maxlen: nat, le: bool)
    requires types == Growing(ty) && !ty.BitField? && depth > 0 && InType(n, Storage(32, true))
    requires InType(hash, Storage(64, true)) && maxlen == 12 + |rest|
    ensures var buf := Wild(hash, n, rest, le);
            DecodeBatch(types, layout, ty, Malloc(SizeOf(types, layout, ty), n), depth - 1, buf, maxlen, 96, n, le).Undefined? ==>
              DecodeMessage(types, layout, "S", hash, depth, buf, 0, maxlen, le) == Undefined
  {
    hide BytesNum, ToType, WordBytes, BeBytes, DecodeBatch, DecodePrefix, InType, Malloc, SizeOf;
    var buf := Wild(hash, n, rest, le);
    var members, pos := types["S"], 64;
    assert buf[0..8] == BeBytes(hash, 8) == WordBytes(hash, 8, false) by { BigEndian(hash); }
    assert buf[8..12] == WordBytes(n, 4, le);
    WordBack(hash, Int64, false);
    ReadCount(types, layout, depth - 1, n, buf, maxlen, pos, le);
    NoneRead(types, layout, members, depth - 1, buf, maxlen, pos, le);
    OneMoreRead(types, layout, members, 0, depth - 1, buf, maxlen, pos, le);
    OneMoreRead(types, layout, members, 1, depth - 1, buf, maxlen, pos, le);
    LastBlock(types, layout, members[1], [Word(n)]);
  }

  lemma BigEndian(v: int)
    ensures WordBytes(v, 8, false) == BeBytes(v, 8)
  {
    hide BeBytes;
  }

  /** struct S { int32_t n; int64_t a[n]; } with n == 0x2000_0001: the size test sees eight bytes and the
      emitted decoder goes behind them. */
  lemma WildMessage(types: Types, layout: Layout, hash: int, depth: nat, n: int, rest: seq<Byte>, maxlen: nat, le: bool)
    requires types == Growing(Plain(Int64)) && depth > 0 && n == 0x2000_0001
    requires InType(hash, Storage(64, true)) && |rest| == 8 && maxlen == 20
    ensures DecodeMessage(types, layout, "S", hash, depth, Wild(hash, n, rest, le), 0, maxlen, le) == Undefined
  {
    hide Wild, DecodeMessage, DecodeBatch, Span, Mul32, InType, Malloc;
    CountInType(n);
    U32Small(n);
    OverrunInputs(n, 8);
    assert SizeOf(types, layout, Plain(Int64)) == NumBytes(Int64) == 8;
    UndefinedExactly(types, layout, Plain(Int64), Malloc(8, n), depth - 1, Wild(hash, n, rest, le), maxlen, 96, n, le);
    OverrunsWhen(n, 8, 8);
    GrowingRead(types, layout, Plain(Int64), hash, depth, n, rest, maxlen, le);
  }

  lemma CountInType(n: nat)
    requires n <= INT_MAX
    ensures InType(n, Storage(32, true))
  {
    Pow2At31();
  }

  /** struct S { int32_t n; string s[n]; } with n == 0x2000_0000 and pointers of eight bytes: the block for
      the pointers has no bytes at all, and the length of a first string is enough to store one in it. */
  lemma WildStrings(types: Types, layout: Layout, hash: int, depth: nat, n: int, rest: seq<Byte>, maxlen: nat, le: bool)
    requires types == Growing(Text) && depth > 0 && n == 0x2000_0000 && layout.pointer == 8
    requires InType(hash, Storage(64, true)) && |rest| == 4 && maxlen == 16
    ensures DecodeMessage(types, layout, "S", hash, depth, Wild(hash, n, rest, le), 0, maxlen, le) == Undefined
  {
    hide Wild, DecodeMessage, DecodeBatch, Span, Mul32, InType, Malloc;
    var buf := Wild(hash, n, rest, le);
    CountInType(n);
    U32Small(n);
    SpanProduct(n, 8);
    UndefinedExactly(types, layout, Text, Malloc(8, n), depth - 1, buf, maxlen, 96, n, le);
    assert DecodeTexts(buf, maxlen, 12, Inline, 8, 0, le) == Got([], 96);
    GrowingRead(types, layout, Text, hash, depth, n, rest, maxlen, le);
  }

  /** struct S { int32_t n; int32_t m; int8_t a[n][m]; } */
  function Rows(): Types {
    map["S" := [Member(Plain(Int32), []), Member(Plain(Int32), []), Member(Plain(Int8), [Counted(0), Counted(1)])]]
  }

  /** n rows of length zero. */
  function EmptyRows(n: nat): Value {
    Record([Word(n), Word(0), List(seq(n, _ => List([])))])
  }

  lemma {:induction false} NoBits(types: Types, ty: MemberType, le: bool, vs: seq<Value>)
    requires forall i | 0 <= i < |vs| :: vs[i] == List([])
    ensures ManyBits(types, ty, 1, le, vs) == []
  {
    if vs != [] { NoBits(types, ty, le, vs[..|vs| - 1]); }
  }

  /** 2^29 rows of length zero are a proper value with a message of 16 bytes; with pointers of eight bytes
      the block for the rows has no bytes at all, and decoding the message stores a pointer in it. */
  lemma WildRows(types: Types, layout: Layout, hash: int, n: nat, depth: nat, buf: seq<Byte>, offset: nat, maxlen: nat, le: bool)
    requires types == Rows() && n == 0x2000_0000 && layout.pointer == 8 && Depth(EmptyRows(n)) <= depth
    requires InType(hash, Storage(64, true)) && offset + maxlen <= |buf|
    requires At(buf, offset + maxlen, 8 * offset, ToBits(BeBytes(hash, 8)) + RecordBits(types, "S", le, EmptyRows(n)))
    ensures LegalTypes(types) && FitsRecord(types, "S", EmptyRows(n)) && |RecordBits(types, "S", le, EmptyRows(n))| == 64
    ensures DecodeMessage(types, layout, "S", hash, depth, buf, offset, maxlen, le) == Undefined
  {
    hide DecodeMessage, Depth, At, InType, Span, BeBytes, ToBits;
    RowsFit(types, n);
    RowsBits(types, n, le);
    RowsWrap(types, layout, n);
    hide FitsRecord, RecordBits, AllocRecord, LegalTypes;
    RoundTrip(types, layout, "S", hash, EmptyRows(n), depth, buf, offset, maxlen, le);
  }

  lemma RowsFit(types: Types, n: nat)
    requires types == Rows() && n == 0x2000_0000
    ensures LegalTypes(types) && FitsRecord(types, "S", EmptyRows(n))
  {
    hide InType;
    CountInType(n);
    CountInType(0);
    var v, m := EmptyRows(n), types["S"][2];
    assert FitsArray(types, types["S"][0], 0, v.fields, v.fields[0]);
    assert FitsArray(types, types["S"][1], 0, v.fields, v.fields[1]);
    assert FitsArray(types, m, 0, v.fields, v.fields[2]) by {
      assert forall i | 0 <= i < n :: v.fields[2].elems[i] == List([]);
      assert FitsArray(types, m, 1, v.fields, List([]));
    }
  }

  lemma RowsBits(types: Types, n: nat, le: bool)
    requires types == Rows()
    ensures |RecordBits(types, "S", le, EmptyRows(n))| == 64
  {
    hide PrefixBits;
    RowsPrefix(types, types["S"], EmptyRows(n).fields, le);
  }

  lemma RowsPrefix(types: Types, members: seq<Member>, fields: seq<Value>, le: bool)
    requires members == Rows()["S"] && |fields| == 3 && fields[0].Word? && fields[1].Word? && fields[2].List?
    requires forall i | 0 <= i < |fields[2].elems| :: fields[2].elems[i] == List([])
    ensures |PrefixBits(types, members, 3, le, fields)| == 64
  {
    hide PrefixBits, ArrayBits, ManyBits;
    PrefixNone(types, members, le, fields);
    WordNext(types, members, 0, fields, le);
    WordNext(types, members, 1, fields, le);
    PrefixNext(types, members, 2, le, fields);
    NoBits(types, Plain(Int8), le, fields[2].elems);
    RowsOf(types, Plain(Int8), le, fields[2].elems);
  }

  /** A word of 32 bits behind whole bytes. */
  lemma WordNext(types: Types, members: seq<Member>, k: nat, fields: seq<Value>, le: bool)
    requires k < |members| && k < |fields| && members[k] == Member(Plain(Int32), []) && fields[k].Word?
    requires |PrefixBits(types, members, k, le, fields)| % 8 == 0
    ensures |PrefixBits(types, members, k + 1, le, fields)| == |PrefixBits(types, members, k, le, fields)| + 32
  {
    hide PrefixBits, ArrayBits, WordBytes, ToBits;
    PrefixNext(types, members, k, le, fields);
    LeafAlone(types, Plain(Int32), le, fields[k]);
  }

  lemma RowsOf(types: Types, ty: MemberType, le: bool, vs: seq<Value>)
    ensures ArrayBits(types, ty, 2, le, List(vs)) == ManyBits(types, ty, 1, le, vs)
  {
  }

  lemma RowsWrap(types: Types, layout: Layout, n: nat)
    requires types == Rows() && n == 0x2000_0000 && layout.pointer == 8
    ensures !AllocRecord(types, layout, "S", EmptyRows(n))
  {
    hide Span;
    SpanProduct(n, 8);
    assert types["S"][2].dims[0] == Counted(0);
    assert !AllocArray(types, layout, types["S"][2], 0, EmptyRows(n).fields[2]);
  }
}
