/** Steps shared by the encoders of both back ends: where they stand in the buffer, what they have
    written so far, and how members and records begin and end. */
module EncoderSteps {
  import opened Binary
  import opened BitPacker
  import opened PrimArrays
  import opened Schema
  import opened Writing
  import opened Options

  /* ---------- termination ---------- */

  function Weight(v: Value): (w: nat)
    ensures w > 0
  {
    match v
    case Word(_) => 1
    case Chars(_) => 1
    case List(elems) => 1 + Weights(elems)
    case Record(fields) => 1 + Weights(fields)
  }

  function Weights(vs: seq<Value>): nat {
    if vs == [] then 0 else Weights(vs[..|vs| - 1]) + Weight(vs[|vs| - 1])
  }

  lemma {:induction false} WeightIn(vs: seq<Value>, i: nat)
    requires i < |vs|
    ensures Weight(vs[i]) <= Weights(vs)
  {
    if i < |vs| - 1 {
      WeightIn(vs[..|vs| - 1], i);
    }
  }

  lemma WeightOne(v: Value)
    ensures Weights([v]) == Weight(v)
  {
    assert [v][..0] == [];
  }

  /* ---------- loops over dimensions ---------- */

  /** Primitive and not a string: the C++ back end encodes a whole last dimension at a time. */
  predicate Batched(ty: MemberType) {
    ty.Plain? || ty.BitField?
  }

  /** Turns of a loop with an int variable, which overflows behind INT_MAX. */
  function IntTurns(count: int): Option<nat> {
    if count > INT_MAX then None else Some(if count < 0 then 0 else count)
  }

  /** How many elements of dimension d the C encoder handles: it loops over the outer dimensions and
      passes the last count as a uint32_t. */
  function CTurns(m: Member, d: nat, fields: seq<Value>): Option<nat>
    requires d < |m.dims|
  {
    var count := Count(m.dims[d], fields);
    if d + 1 < |m.dims| then IntTurns(count) else Some(U32(count))
  }

  /** And the C++ encoder: it loops over the last dimension too, except for primitives; these it passes
      over when their variable count is not positive. */
  function CppTurns(m: Member, d: nat, fields: seq<Value>): Option<nat>
    requires d < |m.dims|
  {
    var count := Count(m.dims[d], fields);
    if d + 1 < |m.dims| || !Batched(m.ty) then IntTurns(count)
    else if m.dims[d].Counted? && count <= 0 then Some(0)
    else Some(U32(count))
  }

  /** On a well-typed value both handle every element of every dimension. */
  lemma TurnsFit(types: Types, m: Member, d: nat, fields: seq<Value>, v: Value)
    requires d < |m.dims| && FitsArray(types, m, d, fields, v)
    ensures CTurns(m, d, fields) == CppTurns(m, d, fields) == Some(|v.elems|) && v.elems[..|v.elems|] == v.elems
  {
    U32Small(|v.elems|);
  }

  /* ---------- what the caller provides ---------- */

  /** A place where an encoder may start: bit positions only inside a run of bit fields. */
  ghost predicate Ready(buf: seq<Byte>, ty: MemberType, start: Pos, limit: nat) {
    && Inside(start, buf) && Clean(buf, start) && limit <= |buf|
    && start.byte + (if start.bit > 0 then 1 else 0) <= limit
    && (!ty.BitField? ==> start.bit == 0)
  }

  /** A length in bytes is reported as an int. */
  const MAX_BITS: nat := 8 * INT_MAX

  /** An encoder that started at `start` has written `bits` and stands at `pos`. */
  ghost predicate Progress(was: seq<Byte>, now: seq<Byte>, start: Pos, limit: nat, pos: Pos, bits: seq<bool>) {
    && Wrote(was, now, start, bits)
    && pos == Advance(start, |bits|)
    && start.byte + EncodedSize(start.bit + |bits|) <= limit <= |was|
  }

  lemma ProgressStart(was: seq<Byte>, ty: MemberType, start: Pos, limit: nat)
    requires Ready(was, ty, start, limit)
    ensures Progress(was, was, start, limit, start, [])
  {
    WroteNothing(was, start);
  }

  lemma ProgressReady(was: seq<Byte>, now: seq<Byte>, ty: MemberType, start: Pos, limit: nat, pos: Pos, bits: seq<bool>)
    requires Progress(was, now, start, limit, pos, bits)
    requires !ty.BitField? ==> start.bit == 0 && |bits| % 8 == 0
    ensures Ready(now, ty, pos, limit) && start.byte <= pos.byte <= limit
  {
  }

  /** One more piece of an encoding whose parts are `bits`, `more` and the rest of `total` bits. */
  lemma ProgressStep(was: seq<Byte>, mid: seq<Byte>, now: seq<Byte>, start: Pos, limit: nat, pos: Pos,
                     bits: seq<bool>, more: seq<bool>, ok: bool, total: nat, next: Pos)
    requires Progress(was, mid, start, limit, pos, bits) && Encoded(mid, now, pos, limit, more, ok)
    requires |bits| + |more| <= total
    requires ok ==> next == Advance(pos, |more|)
    ensures ok ==> Progress(was, now, start, limit, next, bits + more)
    ensures !ok ==> Framed(was, now, start.byte, limit) && start.byte + EncodedSize(start.bit + total) > limit
  {
    hide Packed, Stream;
    SizeMono(start, |bits|, |more|);
    AdvanceAdd(start, |bits|, |more|);
    if ok {
      WroteTrans(was, mid, now, start, bits, more);
    } else {
      WroteFramed(was, mid, start, bits, limit);
      FramedWiden(was, mid, now, start.byte, pos.byte, limit);
    }
  }

  lemma ProgressEnd(was: seq<Byte>, now: seq<Byte>, start: Pos, limit: nat, pos: Pos, bits: seq<bool>)
    requires Progress(was, now, start, limit, pos, bits)
    ensures Encoded(was, now, start, limit, bits, true)
  {
  }

  lemma LeafWords(types: Types, ty: MemberType, vs: seq<Value>)
    requires FitsBatch(types, ty, vs)
    ensures ty.Plain? || ty.BitField? ==> AllWords(vs)
    ensures ty.Text? ==> AllChars(vs)
  {
    if ty.Plain? || ty.BitField? {
      forall i | 0 <= i < |vs|
        ensures vs[i].Word?
      {
        assert FitsLeaf(types, ty, vs[i]);
      }
    } else if ty.Text? {
      forall i | 0 <= i < |vs|
        ensures vs[i].Chars?
      {
        assert FitsLeaf(types, ty, vs[i]);
      }
    }
  }

  lemma FieldStorage(types: Types, ty: MemberType)
    requires ty.BitField? && LegalType(ty, types)
    ensures ValidStorage(StorageOf(ty.prim)) && 0 < ty.numBits <= StorageOf(ty.prim).width
  {
  }

  lemma ProgressAt(was: seq<Byte>, now: seq<Byte>, start: Pos, limit: nat, pos: Pos, bits: seq<bool>)
    requires Progress(was, now, start, limit, pos, bits)
    ensures start.bit < 8 && pos == Advance(start, |bits|)
  {
  }

  lemma OuterReady(types: Types, m: Member, n: nat, le: bool, vs: seq<Value>, was: seq<Byte>, now: seq<Byte>,
                   start: Pos, limit: nat, pos: Pos)
    requires Ready(was, m.ty, start, limit)
    requires Progress(was, now, start, limit, pos, ManyBits(types, m.ty, n, le, vs))
    ensures Ready(now, m.ty, pos, limit) && start.byte <= pos.byte <= limit
  {
    if !m.ty.BitField? {
      ManyWholeBytes(types, m.ty, n, le, vs);
    }
    ProgressReady(was, now, m.ty, start, limit, pos, ManyBits(types, m.ty, n, le, vs));
  }

  /** A member's innermost elements are one batch. */
  lemma BatchOf(types: Types, m: Member, d: nat, fields: seq<Value>, v: Value, vs: seq<Value>, le: bool)
    requires d + 1 == |m.dims| || d == |m.dims| == 0
    requires LegalType(m.ty, types) && FitsArray(types, m, d, fields, v)
    requires vs == if |m.dims| == 0 then [v] else v.elems
    ensures FitsBatch(types, m.ty, vs)
    ensures ManyBits(types, m.ty, 0, le, vs) == ArrayBits(types, m.ty, |m.dims| - d, le, v)
    ensures Weights(vs) <= Weight(v)
  {
    if |m.dims| == 0 {
      ManyOne(types, m.ty, 0, le, v);
      WeightOne(v);
      CountableOne(types, m.ty);
    } else {
      forall i | 0 <= i < |vs|
        ensures FitsLeaf(types, m.ty, vs[i])
      {
        assert FitsArray(types, m, d + 1, fields, v.elems[i]);
      }
    }
  }

  /** Closing a run of bit fields: `if (pos_bit != 0) ++pos_byte`. */
  lemma ProgressAlign(was: seq<Byte>, now: seq<Byte>, start: Pos, limit: nat, pos: Pos, bits: seq<bool>)
    requires Progress(was, now, start, limit, pos, bits) && start.bit == 0
    ensures Progress(was, now, start, limit, Pos(pos.byte + (if pos.bit != 0 then 1 else 0), 0), Align(bits))
  {
    hide Packed, Stream, Clean;
    WroteAlign(was, now, start, bits);
    AlignSize(|bits|, Align(bits));
    AdvanceUnique(start, |Align(bits)|, Pos(pos.byte + (if pos.bit != 0 then 1 else 0), 0));
  }

  lemma AlignSize(n: nat, t: seq<bool>)
    requires |t| % 8 == 0 && n <= |t| < n + 8
    ensures EncodedSize(|t|) == EncodedSize(n)
  {
  }

  lemma AlignWhole(bits: seq<bool>)
    requires |bits| % 8 == 0
    ensures Align(bits) == bits
  {
  }

  /** What the loop over the members keeps: outside a run of bit fields the position is a byte. */
  ghost predicate MemberLoop(was: seq<Byte>, now: seq<Byte>, start: Pos, limit: nat, pos: Pos, inBitMode: bool,
                             bits: seq<bool>)
  {
    && start.bit == 0 && Progress(was, now, start, limit, pos, bits)
    && (!inBitMode ==> pos.bit == 0 && |bits| % 8 == 0)
  }

  /** Entering member m: the run of bit fields goes on, opens or closes. */
  lemma EnterMember(was: seq<Byte>, now: seq<Byte>, start: Pos, limit: nat, pos: Pos, inBitMode: bool,
                    bits: seq<bool>, ty: MemberType)
    requires MemberLoop(was, now, start, limit, pos, inBitMode, bits)
    ensures var next := if ty.BitField? then pos else Pos(pos.byte + (if inBitMode && pos.bit != 0 then 1 else 0), 0);
            && Progress(was, now, start, limit, next, Aligned(ty, bits))
            && Ready(now, ty, next, limit) && start.byte <= next.byte <= limit
  {
    hide Wrote, Packed;
    if ty.BitField? {
      ProgressReady(was, now, ty, start, limit, pos, bits);
    } else {
      var next := Pos(pos.byte + (if inBitMode && pos.bit != 0 then 1 else 0), 0);
      if inBitMode {
        ProgressAlign(was, now, start, limit, pos, bits);
      } else {
        AlignWhole(bits);
      }
      ProgressReady(was, now, ty, start, limit, next, Align(bits));
    }
  }

  /** Leaving member m. */
  lemma LeaveMember(types: Types, m: Member, le: bool, v: Value, was: seq<Byte>, now: seq<Byte>, start: Pos,
                    limit: nat, pos: Pos, bits: seq<bool>)
    requires start.bit == 0
    requires Progress(was, now, start, limit, pos, Aligned(m.ty, bits) + ArrayBits(types, m.ty, |m.dims|, le, v))
    ensures MemberLoop(was, now, start, limit, pos, m.ty.BitField?,
                       Aligned(m.ty, bits) + ArrayBits(types, m.ty, |m.dims|, le, v))
    ensures start.byte <= pos.byte
  {
    hide Wrote, ArrayBits;
    if !m.ty.BitField? {
      WholeBytes(types, m.ty, |m.dims|, le, v);
    }
  }

  lemma PrefixTotal(types: Types, name: string, k: nat, le: bool, v: Value)
    requires v.Record? && name in types && |v.fields| == |types[name]| && k < |v.fields|
    ensures |Aligned(types[name][k].ty, PrefixBits(types, types[name], k, le, v.fields))|
            + |ArrayBits(types, types[name][k].ty, |types[name][k].dims|, le, v.fields[k])|
            <= |RecordBits(types, name, le, v)|
  {
    hide Aligned, ArrayBits, PrefixBits;
    PrefixNext(types, types[name], k, le, v.fields);
    PrefixMono(types, types[name], k + 1, |v.fields|, le, v.fields);
  }

  lemma MemberLegal(types: Types, name: string, v: Value, k: nat)
    requires LegalTypes(types) && name in types && FitsRecord(types, name, v) && k < |types[name]|
    ensures LegalType(types[name][k].ty, types)
    ensures FitsArray(types, types[name][k], 0, v.fields, v.fields[k])
  {
    assert LegalStruct(types[name], types);
  }

  lemma OpenRecord(types: Types, members: seq<Member>, le: bool, fields: seq<Value>, was: seq<Byte>, start: Pos, limit: nat)
    requires start.bit == 0 && start.byte <= limit <= |was|
    ensures MemberLoop(was, was, start, limit, start, false, PrefixBits(types, members, 0, le, fields))
  {
    ProgressStart(was, Text, start, limit);
  }

  lemma CloseRecord(types: Types, name: string, le: bool, v: Value, was: seq<Byte>, now: seq<Byte>, start: Pos,
                    limit: nat, pos: Pos, inBitMode: bool)
    requires v.Record? && name in types && |v.fields| == |types[name]|
    requires MemberLoop(was, now, start, limit, pos, inBitMode, PrefixBits(types, types[name], |v.fields|, le, v.fields))
    ensures Encoded(was, now, start, limit, RecordBits(types, name, le, v), true)
    ensures 8 * (pos.byte + (if inBitMode && pos.bit != 0 then 1 else 0) - start.byte) == |RecordBits(types, name, le, v)|
  {
    hide Wrote, Packed;
    var bits := PrefixBits(types, types[name], |v.fields|, le, v.fields);
    ProgressAlign(was, now, start, limit, pos, bits);
    if !inBitMode {
      AlignWhole(bits);
    }
  }

  lemma OneRecord(types: Types, name: string, le: bool, v: Value)
    ensures ManyBits(types, Ref(name), 0, le, [v]) == RecordBits(types, name, le, v)
    ensures FitsRecord(types, name, v) ==> FitsBatch(types, Ref(name), [v])
  {
    ManyOne(types, Ref(name), 0, le, v);
    RecordAlone(types, name, le, v);
  }

  /** A message on the wire: the type's hash, most significant byte first, then the record. */
  function MessageBits(types: Types, name: string, hash: int, le: bool, v: Value): seq<bool> {
    ToBits(BeBytes(hash, 8)) + RecordBits(types, name, le, v)
  }

  lemma MessageWhole(types: Types, name: string, hash: int, le: bool, v: Value)
    ensures |MessageBits(types, name, hash, le, v)| % 8 == 0
  {
    hide ToBits, BeBytes, RecordBits;
  }
}
