/** The memory that the emitted C decoder writes to. A member whose array sizes are all constant lies in
    its struct; for any other member the decoder allocates one block for each dimension it enters, with
    a size in uint32_t (zcm_malloc in zcm/zcm_coretypes.h). */
module Blocks {
  import opened Binary
  import opened BitPacker
  import opened Schema

  /** Sizes that the C compiler chooses: of a pointer and of each struct. */
  datatype Layout = Layout(pointer: nat, structs: map<string, nat>)

  /** sizeof an element; a struct without members takes no room. */
  function SizeOf(types: Types, layout: Layout, ty: MemberType): nat {
    match ty
    case Plain(p) => NumBytes(p)
    case BitField(p, _, _) => NumBytes(p)
    case Text => layout.pointer
    case Ref(name) => if (name in types && types[name] == []) || name !in layout.structs then 0 else layout.structs[name]
  }

  /** sizeof what a block of dimension d holds: pointers to further blocks, or elements. */
  function CellSize(types: Types, layout: Layout, m: Member, d: nat): nat {
    if d + 1 < |m.dims| then layout.pointer else SizeOf(types, layout, m.ty)
  }

  predicate ConstantSize(m: Member) {
    forall d | 0 <= d < |m.dims| :: m.dims[d].Fixed?
  }

  /** zcm_malloc(sizeof(T) * count): the product becomes a uint32_t. */
  function Malloc(size: nat, count: int): (block: Block)
    ensures block == Heap(Mul32(U32(count), size))
  {
    ProductWraps(size, count);
    Heap(U32(size * count))
  }

  lemma ProductWraps(size: nat, count: int)
    ensures U32(size * count) == Mul32(U32(count), size)
  {
    hide Span;
    var q, r := count / 0x1_0000_0000, U32(count);
    SpanProduct(r, size);
    Wraps(size * r, size * q, size * count);
  }

  lemma Wraps(x: nat, q: int, y: int)
    requires y == x + 0x1_0000_0000 * q
    ensures U32(y) == U32(x)
  {
    Remainder(y, q + x / 0x1_0000_0000, U32(x));
  }

  /** The block for dimension d of a member. */
  function BlockAt(types: Types, layout: Layout, m: Member, d: nat, fields: seq<Value>): Block {
    if ConstantSize(m) || d >= |m.dims| then Inline
    else Malloc(CellSize(types, layout, m, d), Count(m.dims[d], fields))
  }

  /** A block holds all that it is allocated for exactly when its size does not wrap. */
  lemma BlockHolds(types: Types, layout: Layout, m: Member, d: nat, fields: seq<Value>, n: nat)
    requires d < |m.dims| ==> n == U32(Count(m.dims[d], fields))
    ensures var size := CellSize(types, layout, m, d);
            Holds(BlockAt(types, layout, m, d, fields), n, size)
            <==> d >= |m.dims| || ConstantSize(m) || Span(n, size) < 0x1_0000_0000
  {
    hide Span, Mul32, CellSize, ConstantSize, U32;
  }

  /* ---------- values whose blocks can be allocated ---------- */

  /** No block that a decoder allocates for v, from dimension d inwards, has a size that wraps. */
  predicate AllocArray(types: Types, layout: Layout, m: Member, d: nat, v: Value)
    decreases v, 1
  {
    match v
    case List(elems) =>
      && (d < |m.dims| && !ConstantSize(m) ==> Span(|elems|, CellSize(types, layout, m, d)) < 0x1_0000_0000)
      && forall i | 0 <= i < |elems| :: AllocArray(types, layout, m, d + 1, elems[i])
    case Record(_) => m.ty.Ref? ==> AllocRecord(types, layout, m.ty.name, v)
    case _ => true
  }

  predicate AllocRecord(types: Types, layout: Layout, name: string, v: Value)
    decreases v, 0
  {
    v.Record? && name in types && |v.fields| == |types[name]| ==>
      forall k | 0 <= k < |v.fields| :: AllocArray(types, layout, types[name][k], 0, v.fields[k])
  }

  /** No array size of the schema is variable. */
  predicate ConstantSizes(types: Types) {
    forall name | name in types :: forall k | 0 <= k < |types[name]| ::
      forall d | 0 <= d < |types[name][k].dims| :: types[name][k].dims[d].Fixed?
  }

  /** Then nothing is allocated for arrays, and nothing can wrap. */
  lemma {:induction false} ConstantArrayAlloc(types: Types, layout: Layout, m: Member, d: nat, v: Value)
    requires ConstantSizes(types) && forall i | 0 <= i < |m.dims| :: m.dims[i].Fixed?
    ensures AllocArray(types, layout, m, d, v)
    decreases v, 1
  {
    hide ConstantSizes, AllocRecord, Span;
    match v {
      case List(elems) =>
        forall i | 0 <= i < |elems| ensures AllocArray(types, layout, m, d + 1, elems[i]) {
          ConstantArrayAlloc(types, layout, m, d + 1, elems[i]);
        }
      case Record(_) => if m.ty.Ref? { ConstantAlloc(types, layout, m.ty.name, v); }
      case _ =>
    }
  }

  lemma {:induction false} ConstantAlloc(types: Types, layout: Layout, name: string, v: Value)
    requires ConstantSizes(types)
    ensures AllocRecord(types, layout, name, v)
    decreases v, 0
  {
    hide AllocArray;
    if v.Record? && name in types && |v.fields| == |types[name]| {
      forall k | 0 <= k < |v.fields| ensures AllocArray(types, layout, types[name][k], 0, v.fields[k]) {
        ConstantArrayAlloc(types, layout, types[name][k], 0, v.fields[k]);
      }
    }
  }
}
