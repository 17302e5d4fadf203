/** The encoder and size functions that the C back end emits (gen/emit/EmitC.cpp), as methods
    directed by the schema. */
module CBackend {
  import opened Binary
  import opened BitPacker
  import opened PrimArrays
  import opened Schema
  import opened Writing
  import opened EncoderSteps

  /* ---------- encoding ---------- */

  /** The call for a batch of elements: __NAME_encode_array or __NAME_encode_array_bits. */
  method EncodeBatch(types: Types, ty: MemberType, vs: seq<Value>, buf: array<Byte>, offset: nat, bit: nat, maxlen: nat,
                     le: bool)
    returns (thislen: int)
    requires LegalTypes(types) && LegalType(ty, types) && FitsBatch(types, ty, vs)
    requires offset + maxlen <= buf.Length && Ready(buf[..], ty, Pos(offset, bit), offset + maxlen)
    requires |ManyBits(types, ty, 0, le, vs)| <= MAX_BITS
    modifies buf
    ensures Encoded(old(buf[..]), buf[..], Pos(offset, bit), offset + maxlen, ManyBits(types, ty, 0, le, vs), thislen >= 0)
    ensures thislen >= 0 && ty.BitField? ==> thislen == |ManyBits(types, ty, 0, le, vs)|
    ensures thislen >= 0 && !ty.BitField? ==> 8 * thislen == |ManyBits(types, ty, 0, le, vs)|
    decreases Weights(vs), 2
  {
    hide ToBits, Stream, Clean, ManyBits, ArrayBytes, TextsBytes, ElemBits, Span;
    LeafWords(types, ty, vs);
    ghost var was := buf[..];
    match ty
    case Plain(p) =>
      PlainBatch(types, p, le, vs);
      ArrayBytesLength(Words(vs), NumBytes(p), le);
      thislen := EncodeFixedArray(buf, offset, maxlen, Words(vs), NumBytes(p), le);
      if thislen >= 0 {
        WroteBytes(was, buf[..], offset, ArrayBytes(Words(vs), NumBytes(p), le));
      }
    case BitField(prim, numBits, _) =>
      FieldBatch(types, ty, le, vs);
      FieldStorage(types, ty);
      ElemBitsLength(Words(vs), numBits);
      thislen := EncodeArrayBits(buf, offset, bit, maxlen, Words(vs), numBits, StorageOf(prim));
    case Text =>
      TextBatch(types, le, vs);
      thislen := EncodeStrings(buf, offset, maxlen, Strings(vs), le);
      if thislen >= 0 {
        WroteBytes(was, buf[..], offset, TextsBytes(Strings(vs), le));
      }
    case Ref(name) =>
      thislen := EncodeRecords(types, name, buf, offset, maxlen, vs, le);
  }

  /** The loops over all but the last dimension of a member, around the call for a batch. */
  method EncodeDims(types: Types, m: Member, d: nat, fields: seq<Value>, v: Value, buf: array<Byte>, offset: nat,
                    maxlen: nat, posByte: nat, posBit: nat, le: bool)
    returns (ok: bool, nextByte: nat, nextBit: nat)
    requires LegalTypes(types) && LegalType(m.ty, types)
    requires (d < |m.dims| || d == |m.dims| == 0) && FitsArray(types, m, d, fields, v)
    requires posByte <= maxlen && offset + maxlen <= buf.Length
    requires Ready(buf[..], m.ty, Pos(offset + posByte, posBit), offset + maxlen)
    requires |ArrayBits(types, m.ty, |m.dims| - d, le, v)| <= MAX_BITS
    modifies buf
    ensures Encoded(old(buf[..]), buf[..], Pos(offset + posByte, posBit), offset + maxlen,
                    ArrayBits(types, m.ty, |m.dims| - d, le, v), ok)
    ensures ok ==> Pos(offset + nextByte, nextBit)
                   == Advance(Pos(offset + posByte, posBit), |ArrayBits(types, m.ty, |m.dims| - d, le, v)|)
    decreases Weight(v), 4
  {
    hide ToBits, Stream, Clean, LeafBits, Wrote, Encoded, Framed, CTurns, CppTurns;
    if d + 1 < |m.dims| {
      ok, nextByte, nextBit := EncodeOuter(types, m, d, fields, v, buf, offset, maxlen, posByte, posBit, le);
    } else {
      ghost var start := Pos(offset + posByte, posBit);
      nextByte, nextBit := posByte, posBit;
      if |m.dims| > 0 { TurnsFit(types, m, d, fields, v); }
      var vs := if |m.dims| == 0 then [v] else v.elems[..CTurns(m, d, fields).value];
      BatchOf(types, m, d, fields, v, vs, le);
      var thislen := EncodeBatch(types, m.ty, vs, buf, offset + posByte, posBit, maxlen - posByte, le);
      ok := thislen >= 0;
      if ok {
        if m.ty.BitField? {
          var next := Advance(Pos(posByte, posBit), thislen);
          nextByte, nextBit := next.byte, next.bit;
          AdvanceUnique(start, thislen, Pos(offset + nextByte, nextBit));
        } else {
          nextByte := nextByte + thislen;
          AdvanceUnique(start, 8 * thislen, Pos(offset + nextByte, nextBit));
        }
      }
    }
  }

  /** One loop over an outer dimension. */
  method EncodeOuter(types: Types, m: Member, d: nat, fields: seq<Value>, v: Value, buf: array<Byte>, offset: nat,
                     maxlen: nat, posByte: nat, posBit: nat, le: bool)
    returns (ok: bool, nextByte: nat, nextBit: nat)
    requires LegalTypes(types) && LegalType(m.ty, types)
    requires d + 1 < |m.dims| && FitsArray(types, m, d, fields, v)
    requires posByte <= maxlen && offset + maxlen <= buf.Length
    requires Ready(buf[..], m.ty, Pos(offset + posByte, posBit), offset + maxlen)
    requires |ArrayBits(types, m.ty, |m.dims| - d, le, v)| <= MAX_BITS
    modifies buf
    ensures Encoded(old(buf[..]), buf[..], Pos(offset + posByte, posBit), offset + maxlen,
                    ArrayBits(types, m.ty, |m.dims| - d, le, v), ok)
    ensures ok ==> Pos(offset + nextByte, nextBit)
                   == Advance(Pos(offset + posByte, posBit), |ArrayBits(types, m.ty, |m.dims| - d, le, v)|)
    decreases Weight(v), 3
  {
    hide ToBits, LeafBits, ManyBits, Ready, Progress, Framed, Wrote, CTurns, CppTurns, LegalTypes, LegalType, FitsLeaf;
    ghost var was, start, limit := buf[..], Pos(offset + posByte, posBit), offset + maxlen;
    ghost var inner := |m.dims| - d - 1;
    nextByte, nextBit, ok := posByte, posBit, true;
    TurnsFit(types, m, d, fields, v);
    var n := CTurns(m, d, fields).value;
    var a := 0;
    ManyNone(types, m.ty, inner, le);
    ProgressStart(was, m.ty, start, limit);
    OuterReady(types, m, inner, le, [], was, buf[..], start, limit, start);
    while a < n
      invariant 0 <= a <= n == |v.elems| && nextByte <= maxlen
      invariant Progress(was, buf[..], start, limit, Pos(offset + nextByte, nextBit),
                         ManyBits(types, m.ty, inner, le, v.elems[..a]))
      invariant Ready(buf[..], m.ty, Pos(offset + nextByte, nextBit), limit)
    {
      ghost var mid, pos := buf[..], Pos(offset + nextByte, nextBit);
      ghost var sofar := ManyBits(types, m.ty, inner, le, v.elems[..a]);
      ghost var more := ArrayBits(types, m.ty, inner, le, v.elems[a]);
      WeightIn(v.elems, a);
      ManyNext(types, m.ty, inner, le, v.elems, a);
      ManyMono(types, m.ty, inner, le, v.elems, a + 1);
      ok, nextByte, nextBit := EncodeDims(types, m, d + 1, fields, v.elems[a], buf, offset, maxlen, nextByte, nextBit, le);
      ProgressStep(was, mid, buf[..], start, limit, pos, sofar, more, ok,
                   |ManyBits(types, m.ty, inner, le, v.elems)|, Pos(offset + nextByte, nextBit));
      if !ok {
        return;
      }
      OuterReady(types, m, inner, le, v.elems[..a + 1], was, buf[..], start, limit, Pos(offset + nextByte, nextBit));
      a := a + 1;
    }
    assert v.elems[..n] == v.elems;
    ProgressEnd(was, buf[..], start, limit, Pos(offset + nextByte, nextBit), ManyBits(types, m.ty, inner, le, v.elems));
    ProgressAt(was, buf[..], start, limit, Pos(offset + nextByte, nextBit), ManyBits(types, m.ty, inner, le, v.elems));
  }

  /** The body of __NAME_encode_array's loop: one record, member after member. */
  method EncodeRecord(types: Types, name: string, buf: array<Byte>, offset: nat, maxlen: nat, posByte: nat, v: Value,
                      le: bool)
    returns (ok: bool, nextByte: nat)
    requires LegalTypes(types) && name in types && FitsRecord(types, name, v)
    requires posByte <= maxlen && offset + maxlen <= buf.Length
    requires |RecordBits(types, name, le, v)| <= MAX_BITS
    modifies buf
    ensures Encoded(old(buf[..]), buf[..], Pos(offset + posByte, 0), offset + maxlen, RecordBits(types, name, le, v), ok)
    ensures ok ==> 8 * (nextByte - posByte) == |RecordBits(types, name, le, v)|
    decreases Weight(v), 0
  {
    hide ToBits, ArrayBits, PrefixBits, Progress, Ready, MemberLoop, Framed, Wrote, Aligned, FitsArray, LegalTypes, LegalType;
    ghost var was, start, limit := buf[..], Pos(offset + posByte, 0), offset + maxlen;
    ghost var all := RecordBits(types, name, le, v);
    var members, fields := types[name], v.fields;
    nextByte, ok := posByte, true;
    var nextBit: nat, inBitMode, k := 0, false, 0;
    OpenRecord(types, members, le, fields, was, start, limit);
    while k < |members|
      invariant 0 <= k <= |members| && posByte <= nextByte
      invariant MemberLoop(was, buf[..], start, limit, Pos(offset + nextByte, nextBit), inBitMode,
                           PrefixBits(types, members, k, le, fields))
    {
      var m := members[k];
      ghost var bits := Aligned(m.ty, PrefixBits(types, members, k, le, fields));
      EnterMember(was, buf[..], start, limit, Pos(offset + nextByte, nextBit), inBitMode,
                  PrefixBits(types, members, k, le, fields), m.ty);
      if m.ty.BitField? {
        inBitMode := true;
      } else {
        if inBitMode && nextBit != 0 {
          nextByte := nextByte + 1;
        }
        nextBit := 0;
        inBitMode := false;
      }
      ghost var mid, pos := buf[..], Pos(offset + nextByte, nextBit);
      MemberLegal(types, name, v, k);
      PrefixTotal(types, name, k, le, v);
      PrefixNext(types, members, k, le, fields);
      WeightIn(fields, k);
      ok, nextByte, nextBit := EncodeDims(types, m, 0, fields, fields[k], buf, offset, maxlen, nextByte, nextBit, le);
      ProgressStep(was, mid, buf[..], start, limit, pos, bits, ArrayBits(types, m.ty, |m.dims|, le, fields[k]), ok,
                   |all|, Pos(offset + nextByte, nextBit));
      if !ok {
        return;
      }
      LeaveMember(types, m, le, fields[k], was, buf[..], start, limit, Pos(offset + nextByte, nextBit),
                  PrefixBits(types, members, k, le, fields));
      k := k + 1;
    }
    CloseRecord(types, name, le, v, was, buf[..], start, limit, Pos(offset + nextByte, nextBit), inBitMode);
    if inBitMode && nextBit != 0 {
      nextByte := nextByte + 1;
    }
  }

  /** __NAME_encode_array: record after record. */
  method EncodeRecords(types: Types, name: string, buf: array<Byte>, offset: nat, maxlen: nat, ps: seq<Value>, le: bool)
    returns (r: int)
    requires LegalTypes(types) && name in types && FitsBatch(types, Ref(name), ps)
    requires offset + maxlen <= buf.Length
    requires |ManyBits(types, Ref(name), 0, le, ps)| <= MAX_BITS
    modifies buf
    ensures Encoded(old(buf[..]), buf[..], Pos(offset, 0), offset + maxlen, ManyBits(types, Ref(name), 0, le, ps), r >= 0)
    ensures r >= 0 ==> 8 * r == |ManyBits(types, Ref(name), 0, le, ps)|
    decreases Weights(ps), 1
  {
    hide ToBits, Progress, Framed, Wrote, ManyBits, Weights, RecordBits, FitsRecord, LegalTypes;
    ghost var was, start, limit := buf[..], Pos(offset, 0), offset + maxlen;
    var posByte: nat, element := 0, 0;
    ManyNone(types, Ref(name), 0, le);
    ProgressStart(was, Ref(name), start, limit);
    while element < |ps|
      invariant 0 <= element <= |ps| && posByte <= maxlen
      invariant 8 * posByte == |ManyBits(types, Ref(name), 0, le, ps[..element])|
      invariant Progress(was, buf[..], start, limit, Pos(offset + posByte, 0),
                         ManyBits(types, Ref(name), 0, le, ps[..element]))
    {
      ghost var mid, pos := buf[..], Pos(offset + posByte, 0);
      ghost var sofar, more := ManyBits(types, Ref(name), 0, le, ps[..element]), RecordBits(types, name, le, ps[element]);
      WeightIn(ps, element);
      ManyNext(types, Ref(name), 0, le, ps, element);
      ManyMono(types, Ref(name), 0, le, ps, element + 1);
      RecordAlone(types, name, le, ps[element]);
      assert FitsLeaf(types, Ref(name), ps[element]);
      var ok: bool;
      ok, posByte := EncodeRecord(types, name, buf, offset, maxlen, posByte, ps[element], le);
      if ok {
        AdvanceUnique(pos, |more|, Pos(offset + posByte, 0));
      }
      ProgressStep(was, mid, buf[..], start, limit, pos, sofar, more, ok,
                   |ManyBits(types, Ref(name), 0, le, ps)|, Pos(offset + posByte, 0));
      if !ok {
        return -1;
      }
      ProgressReady(was, buf[..], Ref(name), start, limit, Pos(offset + posByte, 0), sofar + more);
      element := element + 1;
    }
    assert ps[..|ps|] == ps;
    ProgressEnd(was, buf[..], start, limit, Pos(offset + posByte, 0), ManyBits(types, Ref(name), 0, le, ps));
    r := posByte;
  }

  /* ---------- size ---------- */

  /** A size in bytes is never too large, and it is that of `bits` bits exactly under a condition. */
  predicate Covers(size: nat, bits: nat, exactly: bool) {
    8 * size <= bits && (8 * size == bits <==> exactly)
  }

  /** The size term of a batch: bytes, or bits for a bit field. Bytes are missing exactly when a run of bit
      fields has a count that wraps. */
  method BatchSize(types: Types, ty: MemberType, vs: seq<Value>, ghost le: bool) returns (size: nat)
    requires LegalTypes(types) && LegalType(ty, types) && FitsBatch(types, ty, vs)
    requires |ManyBits(types, ty, 0, le, vs)| <= MAX_BITS
    ensures ty.BitField? ==> size == |ManyBits(types, ty, 0, le, vs)|
    ensures !ty.BitField? ==> Covers(size, |ManyBits(types, ty, 0, le, vs)|, forall i | 0 <= i < |vs| :: RunsFitIn(types, ty, vs[i]))
    decreases Weights(vs), 2
  {
    hide ToBits, ManyBits, ArrayBytes, TextsBytes, ElemBits, Span, Mul32, RunsFitIn, RunsFit;
    LeafWords(types, ty, vs);
    forall i | 0 <= i < |vs| ensures RunsFitIn(types, ty, vs[i]) <==> ty.Ref? ==> RunsFit(types, ty.name, vs[i]) {
      LeafRuns(types, ty, vs[i]);
    }
    match ty
    case Plain(p) =>
      PlainBatch(types, p, le, vs);
      ArrayBytesLength(Words(vs), NumBytes(p), le);
      size := Mul32(|vs|, NumBytes(p));
    case BitField(_, numBits, _) =>
      FieldBatch(types, ty, le, vs);
      ElemBitsLength(Words(vs), numBits);
      size := Mul32(|vs|, numBits);
    case Text =>
      TextBatch(types, le, vs);
      size := StringsSize(Strings(vs), le);
    case Ref(name) =>
      size := RecordsSize(types, name, vs, le);
  }

  lemma LeafRuns(types: Types, ty: MemberType, v: Value)
    requires FitsLeaf(types, ty, v)
    ensures RunsFitIn(types, ty, v) <==> ty.Ref? ==> RunsFit(types, ty.name, v)
  {
    hide RunsFit, FitsArray;
  }

  method StringsSize(ss: seq<seq<Byte>>, ghost le: bool) returns (size: nat)
    ensures size == |TextsBytes(ss, le)|
  {
    size := 0;
    for element := 0 to |ss|
      invariant size == |TextsBytes(ss[..element], le)|
    {
      TextsBytesNext(ss, element, le);
      size := size + (4 + |ss[element]| + 1);
    }
    assert ss[..|ss|] == ss;
  }

  /** The loops over all but the last dimension, around the size term. */
  method DimsSize(types: Types, m: Member, d: nat, fields: seq<Value>, v: Value, ghost le: bool) returns (size: nat)
    requires LegalTypes(types) && LegalType(m.ty, types)
    requires (d < |m.dims| || d == |m.dims| == 0) && FitsArray(types, m, d, fields, v)
    requires |ArrayBits(types, m.ty, |m.dims| - d, le, v)| <= MAX_BITS
    ensures m.ty.BitField? ==> size == |ArrayBits(types, m.ty, |m.dims| - d, le, v)|
    ensures !m.ty.BitField? ==> Covers(size, |ArrayBits(types, m.ty, |m.dims| - d, le, v)|, RunsFitIn(types, m.ty, v))
    decreases Weight(v), 3
  {
    hide LeafBits, ManyBits, FitsBatch, CTurns, CppTurns, RunsFit, FitsLeaf;
    if d + 1 < |m.dims| {
      size := OuterSize(types, m, d, fields, v, le);
    } else {
      if |m.dims| > 0 { TurnsFit(types, m, d, fields, v); }
      var vs := if |m.dims| == 0 then [v] else v.elems[..CTurns(m, d, fields).value];
      BatchOf(types, m, d, fields, v, vs, le);
      size := BatchSize(types, m.ty, vs, le);
      if |m.dims| == 0 { assert RunsFitIn(types, m.ty, [v][0]) <==> RunsFitIn(types, m.ty, v); }
    }
  }

  /** The loop over an outer dimension. */
  method OuterSize(types: Types, m: Member, d: nat, fields: seq<Value>, v: Value, ghost le: bool) returns (size: nat)
    requires LegalTypes(types) && LegalType(m.ty, types) && d + 1 < |m.dims| && FitsArray(types, m, d, fields, v)
    requires |ArrayBits(types, m.ty, |m.dims| - d, le, v)| <= MAX_BITS
    ensures m.ty.BitField? ==> size == |ArrayBits(types, m.ty, |m.dims| - d, le, v)|
    ensures !m.ty.BitField? ==> Covers(size, |ArrayBits(types, m.ty, |m.dims| - d, le, v)|, RunsFitIn(types, m.ty, v))
    decreases Weight(v), 2
  {
    hide LeafBits, ManyBits, CTurns, CppTurns, RunsFit, FitsLeaf, LegalTypes, LegalType, Countable;
    ghost var inner := |m.dims| - d - 1;
    TurnsFit(types, m, d, fields, v);
    var n := CTurns(m, d, fields).value;
    size := 0;
    var a := 0;
    ManyNone(types, m.ty, inner, le);
    while a < n
      invariant 0 <= a <= n == |v.elems|
      invariant m.ty.BitField? ==> size == |ManyBits(types, m.ty, inner, le, v.elems[..a])|
      invariant !m.ty.BitField? ==>
                  Covers(size, |ManyBits(types, m.ty, inner, le, v.elems[..a])|, forall i | 0 <= i < a :: RunsFitIn(types, m.ty, v.elems[i]))
    {
      WeightIn(v.elems, a);
      ManyNext(types, m.ty, inner, le, v.elems, a);
      ManyMono(types, m.ty, inner, le, v.elems, a + 1);
      var more := DimsSize(types, m, d + 1, fields, v.elems[a], le);
      size := size + more;
      a := a + 1;
    }
  }

  /** The body of __NAME_encoded_array_size's loop: bit fields are counted in bits until their run
      ends, then rounded up. */
  method RecordSize(types: Types, name: string, v: Value, ghost le: bool) returns (size: nat)
    requires LegalTypes(types) && name in types && FitsRecord(types, name, v)
    requires |RecordBits(types, name, le, v)| <= MAX_BITS
    ensures Covers(size, |RecordBits(types, name, le, v)|, RunsFit(types, name, v))
    decreases Weight(v), 0
  {
    hide ToBits, ArrayBits, PrefixBits, FitsArray, LegalTypes, LegalType, EncodedSize, Aligned, Align, RunBits, FieldBits, RunsFitIn,
         U32, RunBefore, RunsFit, RunsFitTo;
    var members, fields := types[name], v.fields;
    size := 0;
    var numBits: nat, inBitMode, k := 0, false, 0;
    ghost var whole: nat := 0;
    PrefixNone(types, members, le, fields);
    NoRun(types, members, fields);
    while k < |members|
      invariant 0 <= k <= |members|
      invariant |PrefixBits(types, members, k, le, fields)| == 8 * whole + RunBits(members, k, fields)
      invariant Covers(size, 8 * whole, RunsFitTo(types, members, k, fields))
      invariant inBitMode == (k > 0 && members[k - 1].ty.BitField?)
      invariant if inBitMode then numBits == U32(RunBits(members, k, fields)) else RunBits(members, k, fields) == 0
    {
      var m := members[k];
      RunNext(types, name, v, k, le);
      MemberLegal(types, name, v, k);
      PrefixTotal(types, name, k, le, v);
      PrefixNext(types, members, k, le, fields);
      WeightIn(fields, k);
      ghost var run := RunBits(members, k, fields);
      AlignedLength(m.ty, PrefixBits(types, members, k, le, fields), whole, run);
      RunSize(run);
      FitNext(types, members, k, fields);
      if inBitMode && !m.ty.BitField? {
        inBitMode := false;
        size := size + EncodedSize(numBits);
        whole := whole + EncodedSize(run);
      } else if !inBitMode && m.ty.BitField? {
        inBitMode := true;
        numBits := 0;
      }
      var more := DimsSize(types, m, 0, fields, fields[k], le);
      if inBitMode {
        U32Sum(run, more);
        numBits := U32(numBits + more);
      } else {
        size := size + more;
        whole := whole + |ArrayBits(types, m.ty, |m.dims|, le, fields[k])| / 8;
        WholeBytes(types, m.ty, |m.dims|, le, fields[k]);
      }
      k := k + 1;
    }
    ghost var run := RunBits(members, k, fields);
    AllFit(types, name, v);
    AlignedLength(Text, PrefixBits(types, members, k, le, fields), whole, run);
    RunSize(run);
    if inBitMode {
      size := size + EncodedSize(numBits);
    }
  }

  /** What the first k members put into the size is right. */
  ghost predicate RunsFitTo(types: Types, members: seq<Member>, k: nat, fields: seq<Value>)
    requires k <= |members| && k <= |fields|
  {
    forall j | 0 <= j < k :: RunBefore(members, j, fields) && RunsFitIn(types, members[j].ty, fields[j])
  }

  lemma AllFit(types: Types, name: string, v: Value)
    requires v.Record? && name in types && |v.fields| == |types[name]|
    ensures RunsFit(types, name, v)
            <==> RunsFitTo(types, types[name], |v.fields|, v.fields) && RunBits(types[name], |v.fields|, v.fields) < 0x1_0000_0000
  {
    hide RunBits, RunsFitIn, RunBefore;
  }

  lemma FitNext(types: Types, members: seq<Member>, k: nat, fields: seq<Value>)
    requires k < |members| && k < |fields|
    ensures RunsFitTo(types, members, k + 1, fields)
            <==> RunsFitTo(types, members, k, fields) && RunBefore(members, k, fields) && RunsFitIn(types, members[k].ty, fields[k])
    ensures RunBefore(members, k, fields) <==> members[k].ty.BitField? || RunBits(members, k, fields) < 0x1_0000_0000
    ensures members[k].ty.BitField? ==> RunsFitIn(types, members[k].ty, fields[k])
  {
    hide RunBits, RunsFit;
  }

  lemma NoRun(types: Types, members: seq<Member>, fields: seq<Value>)
    ensures RunBits(members, 0, fields) == 0 && RunsFitTo(types, members, 0, fields)
  {
  }

  /** A run of that many bits, counted in uint32_t. */
  lemma RunSize(run: nat)
    ensures EncodedSize(U32(run)) <= EncodedSize(run)
    ensures EncodedSize(U32(run)) == EncodedSize(run) <==> run < 0x1_0000_0000
    ensures EncodedSize(0) == 0 && U32(0) == 0
  {
  }

  lemma RunNext(types: Types, name: string, v: Value, k: nat, le: bool)
    requires name in types && FitsRecord(types, name, v) && k < |v.fields|
    ensures RunBits(types[name], k + 1, v.fields)
            == if types[name][k].ty.BitField?
               then RunBits(types[name], k, v.fields)
                    + |ArrayBits(types, types[name][k].ty, |types[name][k].dims|, le, v.fields[k])|
               else 0
    ensures (k > 0 && types[name][k - 1].ty.BitField?) || RunBits(types[name], k, v.fields) == 0
  {
    hide ArrayBits, FieldBits;
    if types[name][k].ty.BitField? { FieldBitsLength(types, types[name][k], 0, v.fields, v.fields[k], le); }
  }

  lemma AlignedLength(ty: MemberType, bits: seq<bool>, size: nat, numBits: nat)
    requires |bits| == 8 * size + numBits
    ensures |Aligned(ty, bits)| == if ty.BitField? then |bits| else 8 * (size + EncodedSize(numBits))
    ensures |Align(bits)| == 8 * (size + EncodedSize(numBits)) && EncodedSize(0) == 0
  {
  }

  method RecordsSize(types: Types, name: string, ps: seq<Value>, ghost le: bool) returns (size: nat)
    requires LegalTypes(types) && name in types && FitsBatch(types, Ref(name), ps)
    requires |ManyBits(types, Ref(name), 0, le, ps)| <= MAX_BITS
    ensures Covers(size, |ManyBits(types, Ref(name), 0, le, ps)|, forall i | 0 <= i < |ps| :: RunsFit(types, name, ps[i]))
    decreases Weights(ps), 1
  {
    hide ManyBits, RecordBits, FitsRecord, LegalTypes, RunsFit;
    size := 0;
    ManyNone(types, Ref(name), 0, le);
    var element := 0;
    while element < |ps|
      invariant 0 <= element <= |ps|
      invariant Covers(size, |ManyBits(types, Ref(name), 0, le, ps[..element])|, forall i | 0 <= i < element :: RunsFit(types, name, ps[i]))
    {
      WeightIn(ps, element);
      ManyNext(types, Ref(name), 0, le, ps, element);
      ManyMono(types, Ref(name), 0, le, ps, element + 1);
      RecordAlone(types, name, le, ps[element]);
      assert FitsLeaf(types, Ref(name), ps[element]);
      var more := RecordSize(types, name, ps[element], le);
      size := size + more;
      element := element + 1;
    }
    assert ps[..|ps|] == ps;
  }

  /* ---------- whole messages ---------- */

  /** NAME_encoded_size: never more than the message takes, and less exactly when a run of bit fields has
      2^32 bits or more. */
  method MessageSize(types: Types, name: string, v: Value, ghost hash: int, ghost le: bool) returns (size: nat)
    requires LegalTypes(types) && name in types && FitsRecord(types, name, v)
    requires |MessageBits(types, name, hash, le, v)| <= MAX_BITS
    ensures Covers(size, |MessageBits(types, name, hash, le, v)|, RunsFit(types, name, v))
  {
    hide RecordBits, FitsRecord, RunsFit;
    OneRecord(types, name, le, v);
    var n := RecordsSize(types, name, [v], le);
    assert RunsFit(types, name, [v][0]) <==> RunsFit(types, name, v);
    size := 8 + n;
  }

  /** struct S { int8_t:1 a[2147483647]; int8_t:1 b[2147483647]; int8_t:1 c[2]; } */
  function LongRun(n: nat): Types {
    var bit := BitField(Int8, 1, false);
    map["S" := [Member(bit, [Fixed(n)]), Member(bit, [Fixed(n)]), Member(bit, [Fixed(2)])]]
  }

  /** A record of it with zeros only. */
  function ZeroRun(n: nat): Value {
    Record([List(seq(n, _ => Word(0))), List(seq(n, _ => Word(0))), List(seq(2, _ => Word(0)))])
  }

  /** Its bit fields make a run of 2^32 bits, of which the size function sees none. */
  lemma RunWraps(types: Types, n: nat, v: Value)
    requires n == INT_MAX && types == LongRun(n) && v == ZeroRun(n)
    ensures LegalTypes(types) && FitsRecord(types, "S", v)
    ensures RunBits(types["S"], 3, v.fields) == 0x1_0000_0000 && !RunsFit(types, "S", v)
  {
    hide FitsLeaf, FieldBitsAll, RunBits;
    var members, fields := types["S"], v.fields;
    NoRun(types, members, fields);
    forall k | 0 <= k < 3 ensures FitsArray(types, members[k], 0, fields, fields[k]) {
      ZerosFit(types, members[k], fields, fields[k]);
    }
    OneBits(types, members, 0, fields);
    OneBits(types, members, 1, fields);
    OneBits(types, members, 2, fields);
  }

  lemma ZerosFit(types: Types, m: Member, fields: seq<Value>, v: Value)
    requires m.ty == BitField(Int8, 1, false) && |m.dims| == 1 && m.dims[0].Fixed? && m.dims[0].n <= INT_MAX
    requires v.List? && |v.elems| == m.dims[0].n && forall i | 0 <= i < |v.elems| :: v.elems[i] == Word(0)
    ensures FitsArray(types, m, 0, fields, v)
  {
    hide Span;
    SpanProduct(|v.elems|, 1);
    Pow2Byte();
    assert FitsLeaf(types, m.ty, Word(0));
    forall i | 0 <= i < |v.elems| ensures FitsArray(types, m, 1, fields, v.elems[i]) { }
  }

  lemma OneBits(types: Types, members: seq<Member>, k: nat, fields: seq<Value>)
    requires k < |members| && k < |fields| && FitsArray(types, members[k], 0, fields, fields[k])
    requires members[k].ty.BitField? && members[k].ty.numBits == 1 && |members[k].dims| == 1 && members[k].dims[0].Fixed?
    ensures RunBits(members, k + 1, fields) == RunBits(members, k, fields) + members[k].dims[0].n
  {
    hide FitsLeaf;
    OneBitEach(fields[k].elems, members[k].ty.numBits);
  }

  lemma {:induction false} OneBitEach(vs: seq<Value>, numBits: nat)
    requires numBits == 1
    ensures FieldBitsAll(numBits, 0, vs) == |vs|
  {
    if vs != [] { OneBitEach(vs[..|vs| - 1], numBits); }
  }

  /** NAME_encode: succeeds exactly when maxlen covers the message, and then the buffer holds the
      message at `offset` and is unchanged elsewhere. */
  method Encode(types: Types, name: string, hash: int, buf: array<Byte>, offset: nat, maxlen: nat, v: Value, le: bool)
    returns (r: int)
    requires LegalTypes(types) && name in types && FitsRecord(types, name, v)
    requires |MessageBits(types, name, hash, le, v)| <= MAX_BITS && offset + maxlen <= buf.Length
    modifies buf
    ensures var bits := MessageBits(types, name, hash, le, v);
            && |bits| % 8 == 0
            && (if 8 * maxlen < |bits| then r < 0 else 8 * r == |bits|)
            && (r >= 0 ==> offset + r <= buf.Length && ToBits(buf[offset..offset + r]) == bits
                           && buf[..offset] == old(buf[..offset]) && buf[offset + r..] == old(buf[offset + r..]))
    ensures r < 0 ==> buf[..offset] == old(buf[..offset]) && buf[offset + maxlen..] == old(buf[offset + maxlen..])
  {
    hide RecordBits, FitsRecord, Wrote, ToBits, LegalTypes, MessageBits;
    ghost var was := buf[..];
    MessageWhole(types, name, hash, le, v);
    r := EncodeHashed(types, name, hash, buf, offset, maxlen, v, le);
    if r >= 0 {
      WroteContents(was, buf[..], offset, MessageBits(types, name, hash, le, v));
    }
  }

  /** The body of NAME_encode: the hash, then one record. */
  method EncodeHashed(types: Types, name: string, hash: int, buf: array<Byte>, offset: nat, maxlen: nat, v: Value, le: bool)
    returns (r: int)
    requires LegalTypes(types) && name in types && FitsRecord(types, name, v)
    requires |MessageBits(types, name, hash, le, v)| <= MAX_BITS && offset + maxlen <= buf.Length
    modifies buf
    ensures Encoded(old(buf[..]), buf[..], Pos(offset, 0), offset + maxlen, MessageBits(types, name, hash, le, v), r >= 0)
    ensures r >= 0 ==> 8 * r == |MessageBits(types, name, hash, le, v)|
  {
    hide RecordBits, FitsRecord, Wrote, BeBytes, ArrayBytes, ManyBits, Packed, Stream, Clean, ToBits, LegalTypes, Replaced;
    ghost var was := buf[..];
    ghost var record := RecordBits(types, name, le, v);
    OneRecord(types, name, le, v);
    OneWord(hash, 8, false);
    var thislen := EncodeFixedArray(buf, offset, maxlen, [hash], 8, false);
    if thislen < 0 {
      return thislen;
    }
    var pos := thislen;
    ghost var mid := buf[..];
    WroteBytes(was, mid, offset, BeBytes(hash, 8));
    AdvanceUnique(Pos(offset, 0), 64, Pos(offset + pos, 0));
    thislen := EncodeRecords(types, name, buf, offset + pos, maxlen - pos, [v], le);
    if thislen < 0 {
      WroteFramed(was, mid, Pos(offset, 0), ToBits(BeBytes(hash, 8)), offset + maxlen);
      FramedWiden(was, mid, buf[..], offset, offset + pos, offset + maxlen);
      return thislen;
    }
    WroteTrans(was, mid, buf[..], Pos(offset, 0), ToBits(BeBytes(hash, 8)), record);
    r := pos + thislen;
  }
}
