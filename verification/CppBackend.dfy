/** The encoder that the C++ back end emits (gen/emit/EmitCpp.cpp), and its agreement with C. */
module CppBackend {
  import opened Binary
  import opened BitPacker
  import opened PrimArrays
  import opened Schema
  import opened Writing
  import opened EncoderSteps
  import opened Options
  import CBackend

  /** One call of a primitive's array codec. */
  method EncodePrims(types: Types, ty: MemberType, vs: seq<Value>, buf: array<Byte>, offset: nat, bit: nat, maxlen: nat,
                     le: bool)
    returns (thislen: int)
    requires Batched(ty) && LegalType(ty, types) && FitsBatch(types, ty, vs)
    requires offset + maxlen <= buf.Length && Ready(buf[..], ty, Pos(offset, bit), offset + maxlen)
    requires |ManyBits(types, ty, 0, le, vs)| <= MAX_BITS
    modifies buf
    ensures Encoded(old(buf[..]), buf[..], Pos(offset, bit), offset + maxlen, ManyBits(types, ty, 0, le, vs), thislen >= 0)
    ensures thislen >= 0 && ty.BitField? ==> thislen == |ManyBits(types, ty, 0, le, vs)|
    ensures thislen >= 0 && !ty.BitField? ==> 8 * thislen == |ManyBits(types, ty, 0, le, vs)|
  {
    hide ToBits, Stream, Clean, ManyBits, ArrayBytes, ElemBits, Span;
    LeafWords(types, ty, vs);
    ghost var was := buf[..];
    if ty.BitField? {
      FieldBatch(types, ty, le, vs);
      FieldStorage(types, ty);
      ElemBitsLength(Words(vs), ty.numBits);
      thislen := EncodeArrayBits(buf, offset, bit, maxlen, Words(vs), ty.numBits, StorageOf(ty.prim));
    } else {
      PlainBatch(types, ty.prim, le, vs);
      ArrayBytesLength(Words(vs), NumBytes(ty.prim), le);
      thislen := EncodeFixedArray(buf, offset, maxlen, Words(vs), NumBytes(ty.prim), le);
      if thislen >= 0 {
        WroteBytes(was, buf[..], offset, ArrayBytes(Words(vs), NumBytes(ty.prim), le));
      }
    }
  }

  /** A string element, through c_str(). */
  method EncodeText(types: Types, v: Value, buf: array<Byte>, offset: nat, maxlen: nat, le: bool) returns (thislen: int)
    requires v.Chars? && offset + maxlen <= buf.Length && |LeafBits(types, Text, le, v)| <= MAX_BITS
    modifies buf
    ensures Encoded(old(buf[..]), buf[..], Pos(offset, 0), offset + maxlen, LeafBits(types, Text, le, v), thislen >= 0)
    ensures thislen >= 0 ==> 8 * thislen == |LeafBits(types, Text, le, v)|
  {
    hide ToBits, Stream, Clean, TextBytes;
    ghost var was := buf[..];
    LeafAlone(types, Text, le, v);
    assert [v.s][..0] == [];
    assert TextsBytes([v.s], le) == TextBytes(v.s, le);
    thislen := EncodeStrings(buf, offset, maxlen, [v.s], le);
    if thislen >= 0 {
      WroteBytes(was, buf[..], offset, TextBytes(v.s, le));
    }
  }

  /** A single string or struct element. */
  method EncodeElement(types: Types, ty: MemberType, v: Value, buf: array<Byte>, offset: nat, maxlen: nat, le: bool)
    returns (thislen: int)
    requires LegalTypes(types) && LegalType(ty, types) && !Batched(ty) && FitsLeaf(types, ty, v)
    requires offset + maxlen <= buf.Length && |LeafBits(types, ty, le, v)| <= MAX_BITS
    modifies buf
    ensures Encoded(old(buf[..]), buf[..], Pos(offset, 0), offset + maxlen, LeafBits(types, ty, le, v), thislen >= 0)
    ensures thislen >= 0 ==> 8 * thislen == |LeafBits(types, ty, le, v)|
    decreases Weight(v), 1
  {
    if ty.Text? {
      thislen := EncodeText(types, v, buf, offset, maxlen, le);
    } else {
      thislen := EncodeNoHash(types, ty.name, buf, offset, maxlen, v, le);
    }
  }

  /** _encodeRecursive: loops down to the last dimension of primitives, or to single elements of
      anything else. */
  method EncodeRecursive(types: Types, m: Member, d: nat, fields: seq<Value>, v: Value, buf: array<Byte>, offset: nat,
                         maxlen: nat, posByte: nat, posBit: nat, le: bool)
    returns (ok: bool, nextByte: nat, nextBit: nat)
    requires LegalTypes(types) && LegalType(m.ty, types)
    requires d <= |m.dims| && (Batched(m.ty) ==> d < |m.dims|) && FitsArray(types, m, d, fields, v)
    requires posByte <= maxlen && offset + maxlen <= buf.Length
    requires Ready(buf[..], m.ty, Pos(offset + posByte, posBit), offset + maxlen)
    requires |ArrayBits(types, m.ty, |m.dims| - d, le, v)| <= MAX_BITS
    modifies buf
    ensures Encoded(old(buf[..]), buf[..], Pos(offset + posByte, posBit), offset + maxlen,
                    ArrayBits(types, m.ty, |m.dims| - d, le, v), ok)
    ensures ok ==> Pos(offset + nextByte, nextBit)
                   == Advance(Pos(offset + posByte, posBit), |ArrayBits(types, m.ty, |m.dims| - d, le, v)|)
    decreases Weight(v), 4
  {
    hide Wrote, Encoded, Framed, Clean, LeafBits, FitsLeaf, LegalTypes, LegalType, CTurns, CppTurns;
    nextByte, nextBit := posByte, posBit;
    if d + 1 == |m.dims| && Batched(m.ty) {
      TurnsFit(types, m, d, fields, v);
      var vs := v.elems[..CppTurns(m, d, fields).value];
      BatchOf(types, m, d, fields, v, vs, le);
      var thislen := EncodePrims(types, m.ty, vs, buf, offset + posByte, posBit, maxlen - posByte, le);
      ok := thislen >= 0;
      if ok {
        var next := StepPast(m.ty, posByte, posBit, thislen);
        nextByte, nextBit := next.byte, next.bit;
        StepPastAdvance(m.ty, offset, posByte, posBit, thislen);
      }
    } else if d == |m.dims| {
      LeafAlone(types, m.ty, le, v);
      var thislen := EncodeElement(types, m.ty, v, buf, offset + posByte, maxlen - posByte, le);
      ok := thislen >= 0;
      if ok {
        nextByte := nextByte + thislen;
        StepPastAdvance(m.ty, offset, posByte, posBit, thislen);
      }
    } else {
      ok, nextByte, nextBit := EncodeLoop(types, m, d, fields, v, buf, offset, maxlen, posByte, posBit, le);
    }
  }

  /** The position after a call that returned thislen bits or bytes. */
  function StepPast(ty: MemberType, posByte: nat, posBit: nat, thislen: nat): Pos
    requires posBit < 8
  {
    if ty.BitField? then Advance(Pos(posByte, posBit), thislen) else Pos(posByte + thislen, posBit)
  }

  lemma StepPastAdvance(ty: MemberType, offset: nat, posByte: nat, posBit: nat, thislen: nat)
    requires posBit < 8
    ensures var next := StepPast(ty, posByte, posBit, thislen);
            Pos(offset + next.byte, next.bit)
            == Advance(Pos(offset + posByte, posBit), if ty.BitField? then thislen else 8 * thislen)
  {
    var next := StepPast(ty, posByte, posBit, thislen);
    AdvanceUnique(Pos(offset + posByte, posBit), if ty.BitField? then thislen else 8 * thislen, Pos(offset + next.byte, next.bit));
  }

  /** One loop over a dimension. */
  method EncodeLoop(types: Types, m: Member, d: nat, fields: seq<Value>, v: Value, buf: array<Byte>, offset: nat,
                    maxlen: nat, posByte: nat, posBit: nat, le: bool)
    returns (ok: bool, nextByte: nat, nextBit: nat)
    requires LegalTypes(types) && LegalType(m.ty, types)
    requires d < |m.dims| && (Batched(m.ty) ==> d + 1 < |m.dims|) && FitsArray(types, m, d, fields, v)
    requires posByte <= maxlen && offset + maxlen <= buf.Length
    requires Ready(buf[..], m.ty, Pos(offset + posByte, posBit), offset + maxlen)
    requires |ArrayBits(types, m.ty, |m.dims| - d, le, v)| <= MAX_BITS
    modifies buf
    ensures Encoded(old(buf[..]), buf[..], Pos(offset + posByte, posBit), offset + maxlen,
                    ArrayBits(types, m.ty, |m.dims| - d, le, v), ok)
    ensures ok ==> Pos(offset + nextByte, nextBit)
                   == Advance(Pos(offset + posByte, posBit), |ArrayBits(types, m.ty, |m.dims| - d, le, v)|)
    decreases Weight(v), 3
  {
    hide ToBits, LeafBits, ManyBits, Ready, Progress, Framed, Wrote, CTurns, CppTurns, LegalTypes, LegalType, FitsLeaf;
    ghost var was, start, limit := buf[..], Pos(offset + posByte, posBit), offset + maxlen;
    ghost var inner := |m.dims| - d - 1;
    nextByte, nextBit, ok := posByte, posBit, true;
    TurnsFit(types, m, d, fields, v);
    var n := CppTurns(m, d, fields).value;
    var a := 0;
    ManyNone(types, m.ty, inner, le);
    ProgressStart(was, m.ty, start, limit);
    OuterReady(types, m, inner, le, [], was, buf[..], start, limit, start);
    while a < n
      invariant 0 <= a <= n == |v.elems| && nextByte <= maxlen
      invariant Progress(was, buf[..], start, limit, Pos(offset + nextByte, nextBit),
                         ManyBits(types, m.ty, inner, le, v.elems[..a]))
      invariant Ready(buf[..], m.ty, Pos(offset + nextByte, nextBit), limit)
    {
      ghost var mid, pos := buf[..], Pos(offset + nextByte, nextBit);
      ghost var sofar := ManyBits(types, m.ty, inner, le, v.elems[..a]);
      ghost var more := ArrayBits(types, m.ty, inner, le, v.elems[a]);
      WeightIn(v.elems, a);
      ManyNext(types, m.ty, inner, le, v.elems, a);
      ManyMono(types, m.ty, inner, le, v.elems, a + 1);
      ok, nextByte, nextBit := EncodeRecursive(types, m, d + 1, fields, v.elems[a], buf, offset, maxlen, nextByte, nextBit, le);
      ProgressStep(was, mid, buf[..], start, limit, pos, sofar, more, ok,
                   |ManyBits(types, m.ty, inner, le, v.elems)|, Pos(offset + nextByte, nextBit));
      if !ok {
        return;
      }
      OuterReady(types, m, inner, le, v.elems[..a + 1], was, buf[..], start, limit, Pos(offset + nextByte, nextBit));
      a := a + 1;
    }
    assert v.elems[..n] == v.elems;
    ProgressEnd(was, buf[..], start, limit, Pos(offset + nextByte, nextBit), ManyBits(types, m.ty, inner, le, v.elems));
    ProgressAt(was, buf[..], start, limit, Pos(offset + nextByte, nextBit), ManyBits(types, m.ty, inner, le, v.elems));
  }

  /** With an empty last dimension there is nothing to write, whatever the outer dimensions. */
  lemma {:induction false} EmptyLastDim(types: Types, m: Member, d: nat, fields: seq<Value>, v: Value, le: bool)
    requires d < |m.dims| && FitsArray(types, m, d, fields, v) && Count(m.dims[|m.dims| - 1], fields) <= 0
    ensures ArrayBits(types, m.ty, |m.dims| - d, le, v) == []
    decreases v, 1
  {
    if d + 1 < |m.dims| {
      EmptyElements(types, m, d, fields, v, |v.elems|, le);
      assert v.elems[..|v.elems|] == v.elems;
    } else {
      ManyNone(types, m.ty, 0, le);
    }
  }

  lemma {:induction false} EmptyElements(types: Types, m: Member, d: nat, fields: seq<Value>, v: Value, n: nat, le: bool)
    requires d + 1 < |m.dims| && FitsArray(types, m, d, fields, v) && Count(m.dims[|m.dims| - 1], fields) <= 0
    requires n <= |v.elems|
    ensures ManyBits(types, m.ty, |m.dims| - d - 1, le, v.elems[..n]) == []
    decreases v, 0, n
  {
    if n == 0 {
      ManyNone(types, m.ty, |m.dims| - d - 1, le);
    } else {
      EmptyElements(types, m, d, fields, v, n - 1, le);
      EmptyLastDim(types, m, d + 1, fields, v.elems[n - 1], le);
      ManyNext(types, m.ty, |m.dims| - d - 1, le, v.elems, n - 1);
    }
  }

  /** One member: a single call, or the recursion, skipped when the last dimension is variable
      and empty. */
  method EncodeMember(types: Types, m: Member, fields: seq<Value>, v: Value, buf: array<Byte>, offset: nat,
                      maxlen: nat, posByte: nat, posBit: nat, le: bool)
    returns (ok: bool, nextByte: nat, nextBit: nat)
    requires LegalTypes(types) && LegalType(m.ty, types) && FitsArray(types, m, 0, fields, v)
    requires posByte <= maxlen && offset + maxlen <= buf.Length
    requires Ready(buf[..], m.ty, Pos(offset + posByte, posBit), offset + maxlen)
    requires |ArrayBits(types, m.ty, |m.dims|, le, v)| <= MAX_BITS
    modifies buf
    ensures Encoded(old(buf[..]), buf[..], Pos(offset + posByte, posBit), offset + maxlen,
                    ArrayBits(types, m.ty, |m.dims|, le, v), ok)
    ensures ok ==> Pos(offset + nextByte, nextBit)
                   == Advance(Pos(offset + posByte, posBit), |ArrayBits(types, m.ty, |m.dims|, le, v)|)
    decreases Weight(v), 5
  {
    hide Wrote, Encoded, Framed, Clean, FitsArray, ArrayBits;
    ghost var was, start := buf[..], Pos(offset + posByte, posBit);
    nextByte, nextBit := posByte, posBit;
    if m.dims == [] && Batched(m.ty) {
      BatchOf(types, m, 0, fields, v, [v], le);
      var thislen := EncodePrims(types, m.ty, [v], buf, offset + posByte, posBit, maxlen - posByte, le);
      ok := thislen >= 0;
      if ok {
        var next := StepPast(m.ty, posByte, posBit, thislen);
        nextByte, nextBit := next.byte, next.bit;
        StepPastAdvance(m.ty, offset, posByte, posBit, thislen);
      }
    } else if Batched(m.ty) && m.dims[|m.dims| - 1].Counted? && Count(m.dims[|m.dims| - 1], fields) <= 0 {
      EmptyLastDim(types, m, 0, fields, v, le);
      ProgressStart(was, m.ty, start, offset + maxlen);
      ProgressEnd(was, was, start, offset + maxlen, start, []);
      AdvanceUnique(start, 0, start);
      ok := true;
    } else {
      ok, nextByte, nextBit := EncodeRecursive(types, m, 0, fields, v, buf, offset, maxlen, posByte, posBit, le);
    }
  }

  /** _encodeNoHash: one record, member after member. */
  method EncodeNoHash(types: Types, name: string, buf: array<Byte>, offset: nat, maxlen: nat, v: Value, le: bool)
    returns (r: int)
    requires LegalTypes(types) && name in types && FitsRecord(types, name, v)
    requires offset + maxlen <= buf.Length && |RecordBits(types, name, le, v)| <= MAX_BITS
    modifies buf
    ensures Encoded(old(buf[..]), buf[..], Pos(offset, 0), offset + maxlen, RecordBits(types, name, le, v), r >= 0)
    ensures r >= 0 ==> 8 * r == |RecordBits(types, name, le, v)|
    decreases Weight(v), 0
  {
    hide ToBits, ArrayBits, PrefixBits, Progress, Ready, MemberLoop, Framed, Wrote, Aligned, FitsArray, LegalTypes, LegalType;
    ghost var was, start, limit := buf[..], Pos(offset, 0), offset + maxlen;
    var members, fields := types[name], v.fields;
    var posByte: nat, posBit: nat, inBitMode, k := 0, 0, false, 0;
    OpenRecord(types, members, le, fields, was, start, limit);
    while k < |members|
      invariant 0 <= k <= |members|
      invariant MemberLoop(was, buf[..], start, limit, Pos(offset + posByte, posBit), inBitMode,
                           PrefixBits(types, members, k, le, fields))
    {
      var m := members[k];
      ghost var bits := Aligned(m.ty, PrefixBits(types, members, k, le, fields));
      EnterMember(was, buf[..], start, limit, Pos(offset + posByte, posBit), inBitMode,
                  PrefixBits(types, members, k, le, fields), m.ty);
      if m.ty.BitField? {
        inBitMode := true;
      } else {
        if inBitMode && posBit != 0 {
          posByte := posByte + 1;
        }
        posBit := 0;
        inBitMode := false;
      }
      ghost var mid, pos := buf[..], Pos(offset + posByte, posBit);
      MemberLegal(types, name, v, k);
      PrefixTotal(types, name, k, le, v);
      PrefixNext(types, members, k, le, fields);
      WeightIn(fields, k);
      var ok: bool;
      ok, posByte, posBit := EncodeMember(types, m, fields, fields[k], buf, offset, maxlen, posByte, posBit, le);
      ProgressStep(was, mid, buf[..], start, limit, pos, bits, ArrayBits(types, m.ty, |m.dims|, le, fields[k]), ok,
                   |RecordBits(types, name, le, v)|, Pos(offset + posByte, posBit));
      if !ok {
        return -1;
      }
      LeaveMember(types, m, le, fields[k], was, buf[..], start, limit, Pos(offset + posByte, posBit),
                  PrefixBits(types, members, k, le, fields));
      k := k + 1;
    }
    CloseRecord(types, name, le, v, was, buf[..], start, limit, Pos(offset + posByte, posBit), inBitMode);
    if inBitMode && posBit != 0 {
      posByte := posByte + 1;
    }
    r := posByte;
  }

  /** encode(): the hash, then the record. */
  method Encode(types: Types, name: string, hash: int, buf: array<Byte>, offset: nat, maxlen: nat, v: Value, le: bool)
    returns (r: int)
    requires LegalTypes(types) && name in types && FitsRecord(types, name, v)
    requires |MessageBits(types, name, hash, le, v)| <= MAX_BITS && offset + maxlen <= buf.Length
    modifies buf
    ensures var bits := MessageBits(types, name, hash, le, v);
            && |bits| % 8 == 0
            && (if 8 * maxlen < |bits| then r < 0 else 8 * r == |bits|)
            && (r >= 0 ==> offset + r <= buf.Length && ToBits(buf[offset..offset + r]) == bits
                           && buf[..offset] == old(buf[..offset]) && buf[offset + r..] == old(buf[offset + r..]))
    ensures r < 0 ==> buf[..offset] == old(buf[..offset]) && buf[offset + maxlen..] == old(buf[offset + maxlen..])
  {
    hide RecordBits, FitsRecord, Wrote, ToBits, LegalTypes, MessageBits;
    ghost var was := buf[..];
    MessageWhole(types, name, hash, le, v);
    r := EncodeHashed(types, name, hash, buf, offset, maxlen, v, le);
    if r >= 0 {
      WroteContents(was, buf[..], offset, MessageBits(types, name, hash, le, v));
    }
  }

  /** The body of encode(). */
  method EncodeHashed(types: Types, name: string, hash: int, buf: array<Byte>, offset: nat, maxlen: nat, v: Value, le: bool)
    returns (r: int)
    requires LegalTypes(types) && name in types && FitsRecord(types, name, v)
    requires |MessageBits(types, name, hash, le, v)| <= MAX_BITS && offset + maxlen <= buf.Length
    modifies buf
    ensures Encoded(old(buf[..]), buf[..], Pos(offset, 0), offset + maxlen, MessageBits(types, name, hash, le, v), r >= 0)
    ensures r >= 0 ==> 8 * r == |MessageBits(types, name, hash, le, v)|
  {
    hide RecordBits, FitsRecord, Wrote, BeBytes, ArrayBytes, ToBits, LegalTypes, Replaced, Packed, Stream, Clean;
    ghost var was := buf[..];
    ghost var record := RecordBits(types, name, le, v);
    OneWord(hash, 8, false);
    var thislen := EncodeFixedArray(buf, offset, maxlen, [hash], 8, false);
    if thislen < 0 {
      return thislen;
    }
    var pos := thislen;
    ghost var mid := buf[..];
    WroteBytes(was, mid, offset, BeBytes(hash, 8));
    AdvanceUnique(Pos(offset, 0), 64, Pos(offset + pos, 0));
    thislen := EncodeNoHash(types, name, buf, offset + pos, maxlen - pos, v, le);
    if thislen < 0 {
      WroteFramed(was, mid, Pos(offset, 0), ToBits(BeBytes(hash, 8)), offset + maxlen);
      FramedWiden(was, mid, buf[..], offset, offset + pos, offset + maxlen);
      return thislen;
    }
    WroteTrans(was, mid, buf[..], Pos(offset, 0), ToBits(BeBytes(hash, 8)), record);
    r := pos + thislen;
  }

  lemma SameAround(before: seq<Byte>, x: seq<Byte>, y: seq<Byte>, offset: nat, n: nat)
    requires |x| == |y| == |before| && offset + n <= |before| && x[offset..offset + n] == y[offset..offset + n]
    requires x[..offset] == before[..offset] == y[..offset] && x[offset + n..] == before[offset + n..] == y[offset + n..]
    ensures x == y
  {
    assert x == x[..offset] + x[offset..offset + n] + x[offset + n..];
    assert y == y[..offset] + y[offset..offset + n] + y[offset + n..];
  }

  /** Both back ends, given equal buffers, fail together or leave equal buffers. */
  method BothBackends(types: Types, name: string, hash: int, before: seq<Byte>, offset: nat, maxlen: nat, v: Value, le: bool)
    returns (c: int, cpp: int, inC: seq<Byte>, inCpp: seq<Byte>)
    requires LegalTypes(types) && name in types && FitsRecord(types, name, v)
    requires |MessageBits(types, name, hash, le, v)| <= MAX_BITS && offset + maxlen <= |before|
    ensures (c < 0) == (cpp < 0) && (c >= 0 ==> c == cpp && inC == inCpp)
  {
    hide RecordBits, FitsRecord, ToBits;
    var a := new Byte[|before|](i requires 0 <= i < |before| => before[i]);
    var b := new Byte[|before|](i requires 0 <= i < |before| => before[i]);
    assert a[..] == before && b[..] == before;
    c := CBackend.Encode(types, name, hash, a, offset, maxlen, v, le);
    assert b[..] == before;
    cpp := Encode(types, name, hash, b, offset, maxlen, v, le);
    inC, inCpp := a[..], b[..];
    if c >= 0 {
      ToBitsInjective(inC[offset..offset + c], inCpp[offset..offset + c]);
      SameAround(before, inC, inCpp, offset, c);
    }
  }

  /* ---------- how far counts may go ---------- */

  /** The loops of the two encoders handle the same elements of a dimension exactly when it is an outer one,
      or its count is not negative and, if each element is encoded by itself, at most INT_MAX; or when what
      C makes of a negative count is nothing. */
  lemma SameTurns(m: Member, d: nat, fields: seq<Value>)
    requires d < |m.dims|
    ensures var count := Count(m.dims[d], fields);
            CTurns(m, d, fields) == CppTurns(m, d, fields)
            <==> d + 1 < |m.dims| || (if count < 0 then U32(count) == 0 else Batched(m.ty) || count <= INT_MAX)
  {
    hide U32;
    var count := Count(m.dims[d], fields);
    if 0 <= count < 0x1_0000_0000 { U32Small(count); }
  }

  /** struct E {}; struct S { int64_t n; E a[n]; } */
  function Hollow(): Types {
    map["E" := [], "S" := [Member(Plain(Int64), []), Member(Ref("E"), [Counted(0)])]]
  }

  lemma {:induction false} HollowElements(types: Types, le: bool, vs: seq<Value>)
    requires types == Hollow() && forall i | 0 <= i < |vs| :: vs[i] == Record([])
    ensures ManyBits(types, Ref("E"), 0, le, vs) == []
  {
    if vs != [] {
      HollowElements(types, le, vs[..|vs| - 1]);
      RecordAlone(types, "E", le, vs[|vs| - 1]);
      PrefixNone(types, types["E"], le, []);
    }
  }

  /** The length of a message does not bound its counts: a record of S takes eight bytes whatever n is.
      With n == 2^32 the C back end would handle no element and the C++ back end would overflow. */
  lemma HollowRecord(types: Types, n: nat, vs: seq<Value>, le: bool)
    requires types == Hollow() && |vs| == n && forall i | 0 <= i < |vs| :: vs[i] == Record([])
    ensures |RecordBits(types, "S", le, Record([Word(n), List(vs)]))| == 64
    ensures n == 0x1_0000_0000 ==>
              var m, fields := types["S"][1], [Word(n), List(vs)];
              CTurns(m, 0, fields) == Some(0) && CppTurns(m, 0, fields) == None && !FitsRecord(types, "S", Record(fields))
  {
    hide PrefixBits, CTurns, CppTurns, FitsRecord, ManyBits;
    var fields := [Word(n), List(vs)];
    HollowElements(types, le, vs);
    HollowBits(types, types["S"], fields, le);
    if n == 0x1_0000_0000 { HollowTurns(types, types["S"][1], n, vs); }
  }

  lemma HollowTurns(types: Types, m: Member, n: nat, vs: seq<Value>)
    requires types == Hollow() && m == types["S"][1] && n == |vs| == 0x1_0000_0000
    ensures var fields := [Word(n), List(vs)];
            CTurns(m, 0, fields) == Some(0) && CppTurns(m, 0, fields) == None && !FitsRecord(types, "S", Record(fields))
  {
    hide FitsLeaf;
    var fields := [Word(n), List(vs)];
    assert !FitsArray(types, m, 0, fields, fields[1]);
  }

  lemma HollowBits(types: Types, members: seq<Member>, fields: seq<Value>, le: bool)
    requires members == Hollow()["S"] && |fields| == 2 && fields[0].Word? && fields[1].List?
    requires ManyBits(types, Ref("E"), 0, le, fields[1].elems) == []
    ensures |PrefixBits(types, members, 2, le, fields)| == 64
  {
    hide ManyBits, PrefixBits, WordBytes, ToBits, LeafBits;
    PrefixNone(types, members, le, fields);
    PrefixNext(types, members, 0, le, fields);
    PrefixNext(types, members, 1, le, fields);
    LeafAlone(types, Plain(Int64), le, fields[0]);
  }
}
