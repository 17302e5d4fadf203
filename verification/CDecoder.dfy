/** The decoder that the C back end emits (gen/emit/EmitC.cpp) in its own form: loops over members,
    dimensions and records that move pos_byte and pos_bit, with sizes in the C types. It is proved
    against the functions of Decoding on every buffer. */
module CDecoder {
  import opened Binary
  import opened BitPacker
  import opened PrimArrays
  import opened Schema
  import opened Blocks
  import opened Decoding

  /** How a call ends: it returns, C leaves its behaviour undefined, or the call stack is used up. */
  datatype Ending = Returns | RunsWild | OutOfStack

  ghost predicate EndsAs<T>(how: Ending, read: Read<T>) {
    (how.RunsWild? <==> read.Undefined?) && (how.OutOfStack? <==> read.TooDeep?)
  }

  /** A call's result against the reading it stands for: a negative number for one that fails, else
      the number of bits or bytes consumed from pos on. */
  ghost predicate Agrees<T>(how: Ending, r: int, value: T, read: Read<T>, pos: nat, inBits: bool) {
    && EndsAs(how, read)
    && (read.Short? ==> r < 0)
    && (read.Got? ==> r >= 0 && value == read.value && read.pos == pos + (if inBits then r else 8 * r))
  }

  /** A cursor against a reading. */
  ghost predicate Follows<T>(how: Ending, ok: bool, value: T, posByte: nat, posBit: nat, offset: nat, read: Read<T>) {
    && EndsAs(how, read)
    && (read.Short? ==> !ok)
    && (read.Got? ==> ok && value == read.value && posBit < 8 && read.pos == 8 * (offset + posByte) + posBit)
  }

  /* ---------- words and strings ---------- */

  lemma {:induction false} BytesNumSplit(bs: seq<Byte>, i: nat, le: bool)
    requires i < |bs|
    ensures !le ==> BytesNum(bs[..i + 1], le) == BytesNum(bs[..i], le) * 256 + bs[i]
    ensures le ==> BytesNum(bs[i..], le) == BytesNum(bs[i + 1..], le) * 256 + bs[i]
  {
    assert bs[..i + 1][..i] == bs[..i] && bs[i..][1..] == bs[i + 1..];
  }

  /** One word of n bytes, taken from its most significant byte down, in either byte order. */
  method GetWord(buf: seq<Byte>, at: nat, n: nat, le: bool) returns (x: nat)
    requires at + n <= |buf|
    ensures x == BytesNum(buf[at..at + n], le)
  {
    ghost var bs := buf[at..at + n];
    x := 0;
    var i := 0;
    assert bs[..0] == [] && bs[n..] == [];
    while i < n
      invariant 0 <= i <= n
      invariant x == if le then BytesNum(bs[n - i..], le) else BytesNum(bs[..i], le)
    {
      BytesNumSplit(bs, if le then n - 1 - i else i, le);
      x := x * 256 + buf[at + (if le then n - 1 - i else i)];
      i := i + 1;
    }
    assert bs[..n] == bs && bs[0..] == bs;
  }

  /** The fixed-width array decoders. The loop stops at the first word that is not inside the bytes
      that maxlen allows or has no place in the block, from where on C defines nothing. */
  method DecodeFixedArray(buf: seq<Byte>, offset: nat, maxlen: nat, block: Block, elements: nat, p: Prim, le: bool)
    returns (inside: bool, r: int, vs: seq<Value>)
    requires offset + maxlen <= |buf|
    ensures inside <==>
            Mul32(elements, NumBytes(p)) <= maxlen ==>
              !Overruns(elements, NumBytes(p), maxlen) && Holds(block, elements, NumBytes(p))
    ensures inside ==> r == if maxlen < Mul32(elements, NumBytes(p)) then -1 else AsInt(Mul32(elements, NumBytes(p)))
    ensures inside && maxlen >= Mul32(elements, NumBytes(p)) ==>
              offset + Span(elements, NumBytes(p)) <= |buf| && vs == WordsAt(buf, offset, elements, p, le)
  {
    hide BytesNum, ToType, WordsAt, Span, NumBytes, Mul32, Holds;
    HoldsNone(block, NumBytes(p));
    var total := Mul32(elements, NumBytes(p));
    if maxlen < total { return true, -1, []; }
    vs := [];
    WordsNone(buf, offset, p, le);
    var pos, element := offset, 0;
    while element < elements
      invariant 0 <= element <= elements && pos == offset + Span(element, NumBytes(p)) <= offset + maxlen
      invariant Holds(block, element, NumBytes(p))
      invariant vs == WordsAt(buf, offset, element, p, le)
    {
      SpanMono(element + 1, elements, NumBytes(p));
      SpanNext(element, NumBytes(p));
      if Holds(block, elements, NumBytes(p)) { HoldsFewer(block, element + 1, elements, NumBytes(p)); }
      if offset + maxlen < pos + NumBytes(p) || !Holds(block, element + 1, NumBytes(p)) { return false, 0, []; }
      WordsNext(buf, offset, element, p, le);
      var word := GetWord(buf, pos, NumBytes(p), le);
      vs := vs + [Word(ToType(word, StorageOf(p)))];
      pos := pos + NumBytes(p);
      element := element + 1;
    }
    return true, AsInt(total), vs;
  }

  /** One turn of __string_decode_array's loop. */
  method DecodeString(buf: seq<Byte>, offset: nat, maxlen: nat, stored: bool, le: bool) returns (how: Ending, r: int, v: Value)
    requires offset + maxlen <= |buf| && maxlen < 0x1_0000_0000
    ensures Agrees(how, r, v, DecodeText(buf, offset + maxlen, offset, stored, le), 8 * offset, false) && r <= maxlen
  {
    how := Returns;
    hide BytesNum, ToType, CString, WordsAt, Mul32, Span;
    OneWordAt(buf, offset, maxlen, Int32, le);
    var inside, thislen, words := DecodeFixedArray(buf, offset, maxlen, Inline, 1, Int32, le);
    if thislen < 0 { return how, -1, Chars([]); }
    if !stored { return RunsWild, -1, Chars([]); }
    var length := words[0].n;
    LengthRange(BytesNum(buf[offset..offset + 4], le));
    var elements := U32(length);
    if maxlen - 4 < elements { return how, -1, Chars([]); }
    var charsLen := AsInt(elements);
    if charsLen < 0 { return how, -1, Chars([]); }
    v := Chars(CString(buf[offset + 4..offset + 4 + elements]));
    r := 4 + charsLen;
  }

  /** One word of a 4-byte or 8-byte type. */
  lemma OneWordAt(buf: seq<Byte>, at: nat, maxlen: nat, p: Prim, le: bool)
    requires at + maxlen <= |buf|
    ensures var n := NumBytes(p);
            && Span(1, n) == Mul32(1, n) == n && !Overruns(1, n, maxlen)
            && (maxlen >= n ==> WordsAt(buf, at, 1, p, le) == [Word(ToType(BytesNum(buf[at..at + n], le), StorageOf(p)))])
  {
    hide BytesNum, ToType, Span, WordsAt, Mul32;
    var n := NumBytes(p);
    assert n <= 8;
    SpanNext(0, n);
    U32Small(n);
    if maxlen >= n {
      WordsNone(buf, at, p, le);
      WordsNext(buf, at, 0, p, le);
    }
  }

  /** __string_decode_array */
  method DecodeStrings(buf: seq<Byte>, offset: nat, maxlen: nat, block: Block, pointer: nat, elements: nat, le: bool)
    returns (how: Ending, r: int, vs: seq<Value>)
    requires offset + maxlen <= |buf| && maxlen < 0x1_0000_0000
    ensures Agrees(how, r, vs, Reported(DecodeTexts(buf, offset + maxlen, offset, block, pointer, elements, le), 8 * offset, 8),
                   8 * offset, false)
    ensures how.Returns? && r >= 0 ==> r <= maxlen && |vs| == elements
  {
    hide DecodeText, Holds;
    how, vs := Returns, [];
    var pos: nat, element := 0, 0;
    while element < elements
      invariant 0 <= element <= elements && pos <= maxlen && |vs| == element && how.Returns?
      invariant DecodeTexts(buf, offset + maxlen, offset, block, pointer, element, le) == Got(vs, 8 * (offset + pos))
    {
      var thislen, v;
      how, thislen, v := DecodeString(buf, offset + pos, maxlen - pos, Holds(block, element + 1, pointer), le);
      if !how.Returns? || thislen < 0 {
        TextsFail(buf, offset + maxlen, offset, block, pointer, element + 1, elements, le);
        return how, -1, [];
      }
      pos := pos + thislen;
      vs := vs + [v];
      element := element + 1;
    }
    r := AsInt(pos);
  }

  lemma {:induction false} TextsFail(buf: seq<Byte>, limit: nat, at: nat, block: Block, pointer: nat, k: nat, n: nat, le: bool)
    requires limit <= |buf| && k <= n && !DecodeTexts(buf, limit, at, block, pointer, k, le).Got?
    ensures DecodeTexts(buf, limit, at, block, pointer, n, le) == DecodeTexts(buf, limit, at, block, pointer, k, le)
    decreases n
  {
    hide DecodeText, Holds;
    if k < n { TextsFail(buf, limit, at, block, pointer, k, n - 1, le); }
  }

  /* ---------- records ---------- */

  /** A call for the elements behind the last dimension: the count becomes a uint32_t. */
  method DecodeElements(types: Types, layout: Layout, ty: MemberType, block: Block, depth: nat, buf: seq<Byte>, offset: nat,
                        bit: nat, maxlen: nat, count: int, le: bool)
    returns (how: Ending, thislen: int, vs: seq<Value>)
    requires LegalTypes(types) && LegalType(ty, types) && bit < 8 && (!ty.BitField? ==> bit == 0)
    requires offset + maxlen <= |buf| && maxlen < 0x1_0000_0000 && bit <= 8 * maxlen
    ensures Agrees(how, thislen, vs, DecodeBatch(types, layout, ty, block, depth, buf, offset + maxlen, 8 * offset + bit, count, le),
                   8 * offset + bit, ty.BitField?)
    ensures how.Returns? && thislen >= 0 ==>
              |vs| == U32(count) && bit + (if ty.BitField? then thislen else 8 * thislen) <= 8 * maxlen
    decreases depth, 2, 0, 0
  {
    hide LegalTypes, DecodePlain, DecodeFields, DecodeTexts, U32, Reported;
    how := Returns;
    var elements := U32(count);
    match ty
    case Plain(p) => how, thislen, vs := DecodeWords(p, buf, offset, maxlen, block, elements, le);
    case BitField(_, _, _) => how, thislen, vs := DecodeBits(types, ty, buf, offset, bit, maxlen, block, elements);
    case Text => how, thislen, vs := DecodeStrings(buf, offset, maxlen, block, layout.pointer, elements, le);
    case Ref(name) => how, thislen, vs := DecodeRecordArray(types, layout, name, block, depth, buf, offset, maxlen, elements, le);
  }

  /** A fixed-width array decoder against the reading of its batch. */
  method DecodeWords(p: Prim, buf: seq<Byte>, offset: nat, maxlen: nat, block: Block, elements: nat, le: bool)
    returns (how: Ending, r: int, vs: seq<Value>)
    requires offset + maxlen <= |buf| && maxlen < 0x1_0000_0000
    ensures Agrees(how, r, vs, Reported(DecodePlain(p, buf, offset + maxlen, 8 * offset, block, elements, le), 8 * offset, 8),
                   8 * offset, false)
    ensures how.Returns? && r >= 0 ==> |vs| == elements && r <= maxlen
  {
    hide WordsAt, Span, Mul32, NumBytes;
    var inside;
    inside, r, vs := DecodeFixedArray(buf, offset, maxlen, block, elements, p, le);
    how := if inside then Returns else RunsWild;
  }

  /** An unpacker against the reading of its batch. */
  method DecodeBits(ghost types: Types, ty: MemberType, buf: seq<Byte>, offset: nat, bit: nat, maxlen: nat, block: Block,
                    elements: nat)
    returns (how: Ending, r: int, vs: seq<Value>)
    requires ty.BitField? && LegalType(ty, types) && bit < 8
    requires offset + maxlen <= |buf| && maxlen < 0x1_0000_0000 && bit <= 8 * maxlen
    ensures Agrees(how, r, vs, Reported(DecodeFields(ty, buf, offset + maxlen, 8 * offset + bit, block, elements), 8 * offset + bit, 1),
                   8 * offset + bit, true)
    ensures how.Returns? && r >= 0 ==> |vs| == elements && bit + r <= 8 * maxlen
  {
    hide ToBits, FieldValues, Span, Mul32, U32, EncodedSize;
    var inside, fields;
    inside, r, fields := DecodeArrayBits(buf, offset, bit, maxlen, block, elements, ty.numBits, ty.signExtend, StorageOf(ty.prim));
    how, vs := if inside then Returns else RunsWild, AsWords(fields);
    var bits := Mul32(elements, ty.numBits) + bit;
    if bits < 0x1_0000_0000 { U32Small(bits); }
  }

  /** __NAME_decode_array: record after record. */
  method DecodeRecordArray(types: Types, layout: Layout, name: string, block: Block, depth: nat, buf: seq<Byte>, offset: nat,
                           maxlen: nat, elements: nat, le: bool)
    returns (how: Ending, r: int, vs: seq<Value>)
    requires LegalTypes(types) && name in types && offset + maxlen <= |buf| && maxlen < 0x1_0000_0000
    ensures Agrees(how, r, vs,
                   Reported(DecodeRecords(types, layout, name, block, depth, buf, offset + maxlen, 8 * offset, elements, le), 8 * offset, 8),
                   8 * offset, false)
    ensures how.Returns? && r >= 0 ==> r <= maxlen && |vs| == elements
    decreases depth, 1, elements, 1
  {
    hide LegalTypes, DecodeRecord, Holds, SizeOf;
    how, vs := Returns, [];
    var posByte: nat, element := 0, 0;
    while element < elements
      invariant 0 <= element <= elements && posByte <= maxlen && |vs| == element && how.Returns?
      invariant DecodeRecords(types, layout, name, block, depth, buf, offset + maxlen, 8 * offset, element, le)
                == Got(vs, 8 * (offset + posByte))
    {
      if !Holds(block, element + 1, SizeOf(types, layout, Ref(name))) {
        RecordsFail(types, layout, name, block, depth, buf, offset + maxlen, 8 * offset, element + 1, elements, le);
        return RunsWild, -1, [];
      }
      var ok: bool, v: Value;
      how, ok, v, posByte := DecodeOneRecord(types, layout, name, depth, buf, offset, maxlen, posByte, le);
      if !how.Returns? || !ok {
        RecordsFail(types, layout, name, block, depth, buf, offset + maxlen, 8 * offset, element + 1, elements, le);
        return how, -1, [];
      }
      vs := vs + [v];
      element := element + 1;
    }
    r := AsInt(posByte);
  }

  lemma {:induction false} RecordsFail(types: Types, layout: Layout, name: string, block: Block, depth: nat, buf: seq<Byte>, limit: nat,
                                       pos: nat, k: nat, n: nat, le: bool)
    requires limit <= |buf| && k <= n && !DecodeRecords(types, layout, name, block, depth, buf, limit, pos, k, le).Got?
    ensures DecodeRecords(types, layout, name, block, depth, buf, limit, pos, n, le)
            == DecodeRecords(types, layout, name, block, depth, buf, limit, pos, k, le)
    decreases n
  {
    hide DecodeRecord, Holds, SizeOf;
    if k < n { RecordsFail(types, layout, name, block, depth, buf, limit, pos, k, n - 1, le); }
  }

  /** The body of that loop: one record, member after member; runs of bit fields end on a byte. */
  method DecodeOneRecord(types: Types, layout: Layout, name: string, depth: nat, buf: seq<Byte>, offset: nat, maxlen: nat, posByte: nat, le: bool)
    returns (how: Ending, ok: bool, v: Value, nextByte: nat)
    requires LegalTypes(types) && name in types && offset + maxlen <= |buf| && posByte <= maxlen < 0x1_0000_0000
    ensures Follows(how, ok, v, nextByte, 0, offset,
                    DecodeRecord(types, layout, name, depth, buf, offset + maxlen, 8 * (offset + posByte), le))
    ensures how.Returns? && ok ==> nextByte <= maxlen
    decreases depth, 0, 0, 0
  {
    hide LegalTypes, LegalType, DecodeDims, DecodePrefix, DecodeRecord, EncodedSize, Count;
    how, v, nextByte := Returns, Record([]), posByte;
    RecordRead(types, layout, name, depth, buf, offset + maxlen, 8 * (offset + posByte), le);
    if depth == 0 { return OutOfStack, false, v, nextByte; }
    var members := types[name];
    ghost var limit, start := offset + maxlen, 8 * (offset + posByte);
    var fields: seq<Value>, nextBit: nat, inBitMode, k := [], 0, false, 0;
    NoneRead(types, layout, members, depth - 1, buf, limit, start, le);
    while k < |members|
      invariant 0 <= k <= |members| && nextBit < 8 && (!inBitMode ==> nextBit == 0) && how.Returns?
      invariant 8 * nextByte + nextBit <= 8 * maxlen
      invariant DecodePrefix(types, layout, members, k, depth - 1, buf, limit, start, le) == Got(fields, 8 * (offset + nextByte) + nextBit)
    {
      var m := members[k];
      if !inBitMode && m.ty.BitField? {
        inBitMode := true;
        nextBit := 0;
      } else if inBitMode && !m.ty.BitField? {
        inBitMode := false;
        if nextBit != 0 { nextByte := nextByte + 1; }
        nextBit := 0;
      }
      MemberOk(types, name, k);
      OneMoreRead(types, layout, members, k, depth - 1, buf, limit, start, le);
      var value: Value;
      how, ok, value, nextByte, nextBit := DecodeMember(types, layout, m, 0, fields, depth - 1, buf, offset, maxlen, nextByte, nextBit, le);
      if !how.Returns? || !ok {
        PrefixFail(types, layout, members, k + 1, |members|, depth - 1, buf, limit, start, le);
        return how, false, v, nextByte;
      }
      fields := fields + [value];
      k := k + 1;
    }
    if inBitMode {
      if nextBit != 0 { nextByte := nextByte + 1; }
    }
    ok, v := true, Record(fields);
  }

  lemma RecordRead(types: Types, layout: Layout, name: string, depth: nat, buf: seq<Byte>, limit: nat, pos: nat, le: bool)
    requires limit <= |buf| && name in types
    ensures depth == 0 ==> DecodeRecord(types, layout, name, depth, buf, limit, pos, le) == TooDeep
    ensures depth > 0 ==>
              var r := DecodePrefix(types, layout, types[name], |types[name]|, depth - 1, buf, limit, pos, le);
              DecodeRecord(types, layout, name, depth, buf, limit, pos, le)
              == if r.Got? then Got(Record(r.value), 8 * EncodedSize(r.pos)) else Fail(r)
  {
    hide DecodePrefix;
  }

  lemma MemberOk(types: Types, name: string, k: nat)
    requires LegalTypes(types) && name in types && k < |types[name]|
    ensures LegalType(types[name][k].ty, types)
  {
    assert LegalStruct(types[name], types);
  }

  lemma {:induction false} PrefixFail(types: Types, layout: Layout, members: seq<Member>, k: nat, n: nat, depth: nat, buf: seq<Byte>, limit: nat,
                                      pos: nat, le: bool)
    requires limit <= |buf| && k <= n <= |members| && !DecodePrefix(types, layout, members, k, depth, buf, limit, pos, le).Got?
    ensures DecodePrefix(types, layout, members, n, depth, buf, limit, pos, le) == DecodePrefix(types, layout, members, k, depth, buf, limit, pos, le)
    decreases n
  {
    hide DecodeDims;
    if k < n { PrefixFail(types, layout, members, k, n - 1, depth, buf, limit, pos, le); }
  }

  /** A member from dimension d inwards. */
  method DecodeMember(types: Types, layout: Layout, m: Member, d: nat, fields: seq<Value>, depth: nat, buf: seq<Byte>, offset: nat, maxlen: nat,
                      posByte: nat, posBit: nat, le: bool)
    returns (how: Ending, ok: bool, v: Value, nextByte: nat, nextBit: nat)
    requires LegalTypes(types) && LegalType(m.ty, types) && (d < |m.dims| || d == |m.dims| == 0)
    requires offset + maxlen <= |buf| && maxlen < 0x1_0000_0000
    requires posBit < 8 && (!m.ty.BitField? ==> posBit == 0) && 8 * posByte + posBit <= 8 * maxlen
    ensures Follows(how, ok, v, nextByte, nextBit, offset,
                    DecodeDims(types, layout, m, d, fields, depth, buf, offset + maxlen, 8 * (offset + posByte) + posBit, le))
    ensures how.Returns? && ok ==> 8 * nextByte + nextBit <= 8 * maxlen && (!m.ty.BitField? ==> nextBit == 0)
    decreases depth, 3, |m.dims| - d, 3
  {
    hide LegalTypes, LegalType, DecodeBatch, DecodeOuter, Count, Turns, Malloc, CellSize;
    v, nextByte, nextBit := List([]), posByte, posBit;
    if d + 1 < |m.dims| {
      var vs: seq<Value>;
      how, ok, vs, nextByte, nextBit := DecodeOuterDim(types, layout, m, d, fields, depth, buf, offset, maxlen, posByte, posBit, le);
      v := List(vs);
      return;
    }
    var count := if |m.dims| == 0 then 1 else Count(m.dims[d], fields);
    var block := BlockAt(types, layout, m, d, fields);
    var thislen, vs;
    how, thislen, vs := DecodeElements(types, layout, m.ty, block, depth, buf, offset + posByte, posBit, maxlen - posByte, count, le);
    if !how.Returns? || thislen < 0 { return how, false, v, nextByte, nextBit; }
    if m.ty.BitField? {
      var next := Advance(Pos(posByte, posBit), thislen);
      nextByte, nextBit := next.byte, next.bit;
    } else {
      nextByte := posByte + thislen;
    }
    ok, v := true, if |m.dims| == 0 then vs[0] else List(vs);
  }

  /** The loop over an outer dimension; its int variable overflows behind INT_MAX. */
  method DecodeOuterDim(types: Types, layout: Layout, m: Member, d: nat, fields: seq<Value>, depth: nat, buf: seq<Byte>, offset: nat, maxlen: nat,
                        posByte: nat, posBit: nat, le: bool)
    returns (how: Ending, ok: bool, vs: seq<Value>, nextByte: nat, nextBit: nat)
    requires LegalTypes(types) && LegalType(m.ty, types) && d + 1 < |m.dims|
    requires offset + maxlen <= |buf| && maxlen < 0x1_0000_0000
    requires posBit < 8 && (!m.ty.BitField? ==> posBit == 0) && 8 * posByte + posBit <= 8 * maxlen
    ensures Follows(how, ok, List(vs), nextByte, nextBit, offset,
                    DecodeDims(types, layout, m, d, fields, depth, buf, offset + maxlen, 8 * (offset + posByte) + posBit, le))
    ensures how.Returns? && ok ==> 8 * nextByte + nextBit <= 8 * maxlen && (!m.ty.BitField? ==> nextBit == 0)
    decreases depth, 3, |m.dims| - d, 2
  {
    hide LegalTypes, LegalType, DecodeDims, Count, BlockAt, Holds;
    ghost var limit, start := offset + maxlen, 8 * (offset + posByte) + posBit;
    var block := BlockAt(types, layout, m, d, fields);
    var count := Count(m.dims[d], fields);
    OuterRead(types, layout, m, d, fields, depth, buf, limit, start, le);
    how, vs, nextByte, nextBit, ok := Returns, [], posByte, posBit, true;
    var a := 0;
    while a < count
      invariant 0 <= a <= Turns(count) && a <= INT_MAX && nextBit < 8 && (!m.ty.BitField? ==> nextBit == 0) && how.Returns?
      invariant 8 * nextByte + nextBit <= 8 * maxlen
      invariant DecodeOuter(types, layout, m, d, fields, depth, buf, limit, start, a, le) == Got(vs, 8 * (offset + nextByte) + nextBit)
      decreases Turns(count) - a
    {
      if !Holds(block, a + 1, layout.pointer) {
        OuterFail(types, layout, m, d, fields, depth, buf, limit, start, a + 1, Turns(count), le);
        return RunsWild, false, vs, nextByte, nextBit;
      }
      var v: Value;
      how, ok, v, nextByte, nextBit := DecodeMember(types, layout, m, d + 1, fields, depth, buf, offset, maxlen, nextByte, nextBit, le);
      if !how.Returns? || !ok {
        OuterFail(types, layout, m, d, fields, depth, buf, limit, start, a + 1, Turns(count), le);
        return how, false, vs, nextByte, nextBit;
      }
      vs := vs + [v];
      if a == INT_MAX { return RunsWild, false, vs, nextByte, nextBit; }
      a := a + 1;
    }
    ok := true;
  }

  lemma OuterRead(types: Types, layout: Layout, m: Member, d: nat, fields: seq<Value>, depth: nat, buf: seq<Byte>, limit: nat, pos: nat, le: bool)
    requires limit <= |buf| && d + 1 < |m.dims|
    ensures var count := Count(m.dims[d], fields);
            var r := DecodeOuter(types, layout, m, d, fields, depth, buf, limit, pos, Turns(count), le);
            DecodeDims(types, layout, m, d, fields, depth, buf, limit, pos, le)
            == if !r.Got? then Fail(r) else if count > INT_MAX then Undefined else Got(List(r.value), r.pos)
  {
    hide DecodeOuter;
  }

  lemma {:induction false} OuterFail(types: Types, layout: Layout, m: Member, d: nat, fields: seq<Value>, depth: nat, buf: seq<Byte>, limit: nat,
                                     pos: nat, k: nat, n: nat, le: bool)
    requires limit <= |buf| && d + 1 < |m.dims| && k <= n
    requires !DecodeOuter(types, layout, m, d, fields, depth, buf, limit, pos, k, le).Got?
    ensures DecodeOuter(types, layout, m, d, fields, depth, buf, limit, pos, n, le) == DecodeOuter(types, layout, m, d, fields, depth, buf, limit, pos, k, le)
    decreases n
  {
    hide DecodeDims, BlockAt, Holds;
    if k < n { OuterFail(types, layout, m, d, fields, depth, buf, limit, pos, k, n - 1, le); }
  }

  /* ---------- whole messages ---------- */

  /** NAME_decode: the hash, then one record. */
  method Decode(types: Types, layout: Layout, name: string, hash: int, depth: nat, buf: seq<Byte>, offset: nat, maxlen: nat, le: bool)
    returns (how: Ending, r: int, v: Value)
    requires LegalTypes(types) && name in types && offset + maxlen <= |buf| && maxlen < 0x1_0000_0000
    ensures Agrees(how, r, v, DecodeMessage(types, layout, name, hash, depth, buf, offset, maxlen, le), 8 * offset, false)
  {
    hide BytesNum, ToType, DecodeRecord, LegalTypes, WordsAt, Span, Mul32;
    how, v := Returns, Record([]);
    OneWordAt(buf, offset, maxlen, Int64, false);
    var inside, thislen, words := DecodeFixedArray(buf, offset, maxlen, Inline, 1, Int64, false);
    if thislen < 0 { return how, -1, v; }
    if words[0].n != hash { return how, -1, v; }
    var vs: seq<Value>;
    how, r, vs := DecodeRecordArray(types, layout, name, Inline, depth, buf, offset + 8, maxlen - 8, 1, le);
    OneRecordRead(types, layout, name, depth, buf, offset + maxlen, 8 * offset + 64, le);
    if !how.Returns? || r < 0 { return how, -1, v; }
    r, v := AsInt(8 + r), vs[0];
  }

  lemma OneRecordRead(types: Types, layout: Layout, name: string, depth: nat, buf: seq<Byte>, limit: nat, pos: nat, le: bool)
    requires limit <= |buf|
    ensures var r := DecodeRecord(types, layout, name, depth, buf, limit, pos, le);
            DecodeRecords(types, layout, name, Inline, depth, buf, limit, pos, 1, le) == if r.Got? then Got([r.value], r.pos) else Fail(r)
  {
    hide DecodeRecord;
    assert DecodeRecords(types, layout, name, Inline, depth, buf, limit, pos, 0, le) == Got([], pos);
    var r := DecodeRecord(types, layout, name, depth, buf, limit, pos, le);
    if r.Got? { assert [] + [r.value] == [r.value]; }
  }
}
