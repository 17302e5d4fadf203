/** What the decoder refuses: every proper prefix of a message, every string but those that stand whole
    behind their length, and every array of words or strings with a negative count. */
module Refusals {
  import opened Binary
  import opened BitPacker
  import opened PrimArrays
  import opened Schema
  import opened Blocks
  import opened EncoderSteps
  import opened Decoding

  /** `bits` start at position pos and the limit cuts them off before they end. */
  ghost predicate Cut(buf: seq<Byte>, limit: nat, pos: nat, bits: seq<bool>) {
    && limit <= |buf| && pos <= 8 * limit < pos + |bits|
    && SliceIs(ToBits(buf), pos, bits[..8 * limit - pos])
  }

  lemma CutInside(buf: seq<Byte>, limit: nat, pos: nat, bits: seq<bool>)
    requires Cut(buf, limit, pos, bits)
    ensures limit <= |buf| && pos <= 8 * limit < pos + |bits|
  {
  }

  /** Of two pieces either the first is cut, or it stands and the second is cut. */
  lemma CutSplit(buf: seq<Byte>, limit: nat, pos: nat, a: seq<bool>, b: seq<bool>)
    requires Cut(buf, limit, pos, a + b)
    ensures if 8 * limit < pos + |a| then Cut(buf, limit, pos, a) else At(buf, limit, pos, a) && Cut(buf, limit, pos + |a|, b)
  {
    hide ToBits;
    var n := 8 * limit - pos;
    if n < |a| {
      assert (a + b)[..n] == a[..n];
    } else {
      assert (a + b)[..n] == a + b[..n - |a|];
      SliceSplit(ToBits(buf), pos, a, b[..n - |a|]);
    }
  }

  /* ---------- elements ---------- */

  /** The length of a string stands, its characters are cut off. */
  lemma TextShort(buf: seq<Byte>, limit: nat, at: nat, s: seq<Byte>, le: bool)
    requires limit <= |buf| && |s| < INT_MAX && limit < at + |s| + 5
    requires at + 4 <= limit ==> buf[at..at + 4] == WordBytes(|s| + 1, 4, le)
    ensures DecodeText(buf, limit, at, true, le) == Short
  {
    hide ToType, BytesNum, WordBytes, CString;
    Pow2At31();
    WordBack(|s| + 1, Int32, le);
  }

  lemma TextCut(buf: seq<Byte>, limit: nat, at: nat, s: seq<Byte>, le: bool)
    requires |s| < INT_MAX && Cut(buf, limit, 8 * at, ToBits(TextBytes(s, le)))
    ensures DecodeText(buf, limit, at, true, le) == Short
  {
    hide ToBits, WordBytes, DecodeText, At;
    var w := WordBytes(|s| + 1, 4, le);
    CutInside(buf, limit, 8 * at, ToBits(TextBytes(s, le)));
    hide Cut;
    ToBitsConcat(w, s + [0]);
    CutSplit(buf, limit, 8 * at, ToBits(w), ToBits(s + [0]));
    if at + 4 <= limit { AtBytes(buf, limit, 8 * at, at, w); }
    TextShort(buf, limit, at, s, le);
  }

  lemma {:induction false} TextsCut(types: Types, buf: seq<Byte>, limit: nat, at: nat, block: Block, pointer: nat, vs: seq<Value>, le: bool)
    requires FitsBatch(types, Text, vs) && |ManyBits(types, Text, 0, le, vs)| <= 8 * INT_MAX && Holds(block, |vs|, pointer)
    requires Cut(buf, limit, 8 * at, ManyBits(types, Text, 0, le, vs))
    ensures limit <= |buf|
    ensures DecodeTexts(buf, limit, at, block, pointer, |vs|, le) == Short
    decreases |vs|
  {
    hide Cut, ManyBits, DecodeText, Holds, ArrayBits, LeafBits, At, TextsBytes, TextBytes, ToBits;
    CutInside(buf, limit, 8 * at, ManyBits(types, Text, 0, le, vs));
    if vs == [] {
      ManyNone(types, Text, 0, le);
      assert false;
    } else {
      var n := |vs| - 1;
      assert FitsLeaf(types, Text, vs[n]);
      ManyNext(types, Text, 0, le, vs, n);
      assert vs[..n + 1] == vs;
      LeafAlone(types, Text, le, vs[n]);
      var a, b := ManyBits(types, Text, 0, le, vs[..n]), ToBits(TextBytes(vs[n].s, le));
      CutSplit(buf, limit, 8 * at, a, b);
      HoldsFewer(block, n, |vs|, pointer);
      if 8 * limit < 8 * at + |a| {
        TextsCut(types, buf, limit, at, block, pointer, vs[..n], le);
      } else {
        TextsWhole(types, buf, limit, at, block, pointer, vs[..n], le);
        ManyWholeBytes(types, Text, 0, le, vs[..n]);
        TextCut(buf, limit, at + |a| / 8, vs[n].s, le);
      }
    }
  }

  lemma TextsWhole(types: Types, buf: seq<Byte>, limit: nat, at: nat, block: Block, pointer: nat, vs: seq<Value>, le: bool)
    requires FitsBatch(types, Text, vs) && |ManyBits(types, Text, 0, le, vs)| <= 8 * INT_MAX && Holds(block, |vs|, pointer)
    requires At(buf, limit, 8 * at, ManyBits(types, Text, 0, le, vs))
    ensures limit <= |buf|
    ensures DecodeTexts(buf, limit, at, block, pointer, |vs|, le) == Got(vs, 8 * at + |ManyBits(types, Text, 0, le, vs)|)
  {
    hide At, ManyBits, Holds, TextsBytes, DecodeTexts, ToBits;
    AtInside(buf, limit, 8 * at, ManyBits(types, Text, 0, le, vs));
    forall i | 0 <= i < |vs| ensures vs[i].Chars? && 0 !in vs[i].s { assert FitsLeaf(types, Text, vs[i]); }
    TextBatch(types, le, vs);
    AtBytes(buf, limit, 8 * at, at, TextsBytes(Strings(vs), le));
    TextsBack(buf, limit, at, block, pointer, vs, le);
  }

  lemma PlainCut(types: Types, layout: Layout, p: Prim, block: Block, vs: seq<Value>, depth: nat, buf: seq<Byte>, limit: nat, pos: nat,
                 le: bool)
    requires FitsBatch(types, Plain(p), vs) && |ManyBits(types, Plain(p), 0, le, vs)| <= 8 * INT_MAX
    requires pos % 8 == 0 && Cut(buf, limit, pos, ManyBits(types, Plain(p), 0, le, vs))
    ensures limit <= |buf|
    ensures DecodeBatch(types, layout, Plain(p), block, depth, buf, limit, pos, |vs|, le) == Short
  {
    hide Holds, ToBits, ManyBits, Span, ArrayBytes, WordsAt, Mul32, U32, NumBytes;
    CutInside(buf, limit, pos, ManyBits(types, Plain(p), 0, le, vs));
    hide Cut;
    U32Small(|vs|);
    forall i | 0 <= i < |vs| ensures vs[i].Word? { assert FitsLeaf(types, Plain(p), vs[i]); }
    PlainBatch(types, p, le, vs);
    ArrayBytesLength(Words(vs), NumBytes(p), le);
  }

  lemma FieldCut(types: Types, layout: Layout, ty: MemberType, block: Block, vs: seq<Value>, depth: nat, buf: seq<Byte>, limit: nat,
                 pos: nat, le: bool)
    requires ty.BitField? && FitsBatch(types, ty, vs) && Cut(buf, limit, pos, ManyBits(types, ty, 0, le, vs))
    ensures limit <= |buf|
    ensures DecodeBatch(types, layout, ty, block, depth, buf, limit, pos, |vs|, le) == Short
  {
    hide Holds, ToBits, ManyBits, Span, ElemBits, FieldValues, Mul32, U32, FitsLeaf, EncodedSize;
    CutInside(buf, limit, pos, ManyBits(types, ty, 0, le, vs));
    hide Cut;
    var bits := Span(|vs|, ty.numBits) + pos % 8;
    U32Small(|vs|);
    U32Small(bits);
    FieldWords(types, ty, vs);
    FieldBatch(types, ty, le, vs);
    ElemBitsLength(Words(vs), ty.numBits);
    assert 8 * EncodedSize(bits) >= bits;
  }

  lemma FieldWords(types: Types, ty: MemberType, vs: seq<Value>)
    requires ty.BitField? && FitsBatch(types, ty, vs)
    ensures AllWords(vs)
  {
    forall i | 0 <= i < |vs| ensures vs[i].Word? { assert FitsLeaf(types, ty, vs[i]); }
  }

  /* ---------- records ---------- */

  lemma {:induction false} BatchCut(types: Types, layout: Layout, ty: MemberType, block: Block, vs: seq<Value>, depth: nat,
                                    buf: seq<Byte>, limit: nat, pos: nat, le: bool)
    requires LegalTypes(types) && LegalType(ty, types) && FitsBatch(types, ty, vs) && Depths(vs) <= depth
    requires AllocBatch(types, layout, ty, block, vs) && |ManyBits(types, ty, 0, le, vs)| <= 8 * INT_MAX
    requires (!ty.BitField? ==> pos % 8 == 0) && Cut(buf, limit, pos, ManyBits(types, ty, 0, le, vs))
    ensures limit <= |buf|
    ensures DecodeBatch(types, layout, ty, block, depth, buf, limit, pos, |vs|, le) == Short
    decreases depth, 2, 0, 0
  {
    hide Holds, AllocRecord, LegalTypes, Cut, ManyBits, Depths, DecodeRecords, FitsBatch, DecodeBatch, AllocBatch, DecodeTexts;
    CutInside(buf, limit, pos, ManyBits(types, ty, 0, le, vs));
    match ty
    case Plain(p) => PlainCut(types, layout, p, block, vs, depth, buf, limit, pos, le);
    case BitField(_, _, _) => FieldCut(types, layout, ty, block, vs, depth, buf, limit, pos, le);
    case Text =>
      OtherAlloc(types, layout, ty, block, vs);
      TextsCut(types, buf, limit, pos / 8, block, layout.pointer, vs, le);
      TextsReported(types, layout, block, vs, depth, buf, limit, pos, le);
    case Ref(name) =>
      RecordsCut(types, layout, name, block, vs, depth, buf, limit, pos, le);
      RecordsReported(types, layout, name, block, vs, depth, buf, limit, pos, le);
  }

  lemma TextsReported(types: Types, layout: Layout, block: Block, vs: seq<Value>, depth: nat, buf: seq<Byte>, limit: nat, pos: nat,
                      le: bool)
    requires limit <= |buf| && FitsBatch(types, Text, vs)
    ensures DecodeBatch(types, layout, Text, block, depth, buf, limit, pos, |vs|, le)
            == Reported(DecodeTexts(buf, limit, pos / 8, block, layout.pointer, |vs|, le), pos, 8)
  {
    hide DecodeTexts, FitsLeaf, Reported;
    U32Small(|vs|);
  }

  lemma {:induction false} RecordsCut(types: Types, layout: Layout, name: string, block: Block, vs: seq<Value>, depth: nat,
                                      buf: seq<Byte>, limit: nat, pos: nat, le: bool)
    requires LegalTypes(types) && name in types && FitsBatch(types, Ref(name), vs) && Depths(vs) <= depth
    requires AllocBatch(types, layout, Ref(name), block, vs) && |ManyBits(types, Ref(name), 0, le, vs)| <= 8 * INT_MAX
    requires pos % 8 == 0 && Cut(buf, limit, pos, ManyBits(types, Ref(name), 0, le, vs))
    ensures limit <= |buf|
    ensures DecodeRecords(types, layout, name, block, depth, buf, limit, pos, |vs|, le) == Short
    decreases depth, 1, |vs|, 0
  {
    hide ToBits, At, Cut, RecordBits, DecodeRecord, FitsRecord, LegalTypes, ManyBits, ArrayBits, LeafBits, Depths, Depth, AllocRecord,
         Holds, SizeOf;
    CutInside(buf, limit, pos, ManyBits(types, Ref(name), 0, le, vs));
    if vs == [] {
      ManyNone(types, Ref(name), 0, le);
      assert false;
    } else {
      var n, size := |vs| - 1, SizeOf(types, layout, Ref(name));
      ManyNext(types, Ref(name), 0, le, vs, n);
      assert vs[..n + 1] == vs;
      var a, b := ManyBits(types, Ref(name), 0, le, vs[..n]), RecordBits(types, name, le, vs[n]);
      assert ArrayBits(types, Ref(name), 0, le, vs[n]) == b by { RecordAlone(types, name, le, vs[n]); }
      CutSplit(buf, limit, pos, a, b);
      DepthsNext(vs);
      HoldsFewer(block, n, |vs|, size);
      if 8 * limit < pos + |a| {
        RecordsCut(types, layout, name, block, vs[..n], depth, buf, limit, pos, le);
      } else {
        RecordsBack(types, layout, name, block, vs[..n], depth, buf, limit, pos, le);
        ManyWholeBytes(types, Ref(name), 0, le, vs[..n]);
        assert FitsLeaf(types, Ref(name), vs[n]);
        RecordCut(types, layout, name, vs[n], depth, buf, limit, pos + |a|, le);
      }
    }
  }

  lemma {:induction false} RecordCut(types: Types, layout: Layout, name: string, v: Value, depth: nat, buf: seq<Byte>, limit: nat,
                                     pos: nat, le: bool)
    requires LegalTypes(types) && name in types && FitsRecord(types, name, v) && Depth(v) <= depth
    requires AllocRecord(types, layout, name, v) && |RecordBits(types, name, le, v)| <= 8 * INT_MAX
    requires pos % 8 == 0 && Cut(buf, limit, pos, RecordBits(types, name, le, v))
    ensures limit <= |buf|
    ensures DecodeRecord(types, layout, name, depth, buf, limit, pos, le) == Short
    decreases depth, 0, 0, 0
  {
    hide ToBits, At, Cut, DecodePrefix, PrefixBits, FitsArray, LegalTypes, AllocArray;
    var members := types[name];
    var bits := PrefixBits(types, members, |members|, le, v.fields);
    CutInside(buf, limit, pos, RecordBits(types, name, le, v));
    NoCutInPadding(buf, limit, pos, bits);
    PrefixCut(types, layout, name, v, |members|, depth - 1, buf, limit, pos, le);
  }

  /** Padding never lies behind the last byte. */
  lemma NoCutInPadding(buf: seq<Byte>, limit: nat, pos: nat, bits: seq<bool>)
    requires pos % 8 == 0 && Cut(buf, limit, pos, Align(bits))
    ensures Cut(buf, limit, pos, bits)
  {
    hide Cut;
    var pad := Align(bits)[|bits|..];
    assert Align(bits) == bits + pad;
    CutInside(buf, limit, pos, Align(bits));
    CutSplit(buf, limit, pos, bits, pad);
  }

  lemma {:induction false} PrefixCut(types: Types, layout: Layout, name: string, v: Value, k: nat, depth: nat, buf: seq<Byte>, limit: nat,
                                     pos: nat, le: bool)
    requires LegalTypes(types) && name in types && FitsRecord(types, name, v) && Depths(v.fields) <= depth && k <= |v.fields|
    requires AllocPrefix(types, layout, types[name], k, v.fields)
    requires |PrefixBits(types, types[name], k, le, v.fields)| <= 8 * INT_MAX
    requires pos % 8 == 0 && Cut(buf, limit, pos, PrefixBits(types, types[name], k, le, v.fields))
    ensures limit <= |buf|
    ensures DecodePrefix(types, layout, types[name], k, depth, buf, limit, pos, le) == Short
    decreases depth, 4, k, 0
  {
    hide ToBits, ArrayBits, DecodeDims, FitsArray, LegalTypes, Aligned, PrefixBits, Depths, DecodePrefix, MemberStart, AllocArray, At, Cut;
    assert |v.fields| == |types[name]|;
    hide FitsRecord;
    var members, fields := types[name], v.fields;
    CutInside(buf, limit, pos, PrefixBits(types, members, k, le, fields));
    if k == 0 {
      PrefixNone(types, members, le, fields);
      assert false;
    } else {
      var m := members[k - 1];
      PrefixNext(types, members, k - 1, le, fields);
      var bits := PrefixBits(types, members, k - 1, le, fields);
      var a, b := Aligned(m.ty, bits), ArrayBits(types, m.ty, |m.dims|, le, fields[k - 1]);
      CutSplit(buf, limit, pos, a, b);
      AlignedStart(m.ty, pos, bits);
      OneMoreRead(types, layout, members, k - 1, depth, buf, limit, pos, le);
      if 8 * limit < pos + |a| {
        CutAligned(m.ty, buf, limit, pos, bits);
        PrefixCut(types, layout, name, v, k - 1, depth, buf, limit, pos, le);
      } else {
        AtSplit(buf, limit, pos, bits, a[|bits|..]);
        PrefixBack(types, layout, name, v, k - 1, depth, buf, limit, pos, le);
        MemberCut(types, layout, name, v, k - 1, depth, buf, limit, pos + |a|, le);
      }
    }
  }

  lemma CutAligned(ty: MemberType, buf: seq<Byte>, limit: nat, pos: nat, bits: seq<bool>)
    requires pos % 8 == 0 && Cut(buf, limit, pos, Aligned(ty, bits))
    ensures Cut(buf, limit, pos, bits)
  {
    hide Cut;
    if !ty.BitField? { NoCutInPadding(buf, limit, pos, bits); }
  }

  lemma MemberCut(types: Types, layout: Layout, name: string, v: Value, k: nat, depth: nat, buf: seq<Byte>, limit: nat, pos: nat, le: bool)
    requires LegalTypes(types) && name in types && FitsRecord(types, name, v) && Depths(v.fields) <= depth
    requires k < |v.fields| && (!types[name][k].ty.BitField? ==> pos % 8 == 0)
    requires AllocArray(types, layout, types[name][k], 0, v.fields[k])
    requires Cut(buf, limit, pos, ArrayBits(types, types[name][k].ty, |types[name][k].dims|, le, v.fields[k]))
    requires |ArrayBits(types, types[name][k].ty, |types[name][k].dims|, le, v.fields[k])| <= 8 * INT_MAX
    ensures limit <= |buf|
    ensures DecodeDims(types, layout, types[name][k], 0, v.fields[..k], depth, buf, limit, pos, le) == Short
    decreases depth, 3, |types[name][k].dims|, 3
  {
    hide ToBits, Cut, ArrayBits, DecodeDims, FitsArray, LegalType, Count, AllocArray;
    var m := types[name][k];
    assert LegalStruct(types[name], types);
    DepthIn(v.fields, k);
    forall d | 0 <= d < |m.dims|
      ensures Count(m.dims[d], v.fields[..k]) == Count(m.dims[d], v.fields)
    {
      CountKnown(m.dims[d], types[name], k, v.fields);
    }
    DimsCut(types, layout, m, 0, v.fields, v.fields[..k], v.fields[k], depth, buf, limit, pos, le);
  }

  lemma {:induction false} DimsCut(types: Types, layout: Layout, m: Member, d: nat, fields: seq<Value>, known: seq<Value>, v: Value,
                                   depth: nat, buf: seq<Byte>, limit: nat, pos: nat, le: bool)
    requires LegalTypes(types) && LegalType(m.ty, types) && Depth(v) <= depth
    requires (d < |m.dims| || d == |m.dims| == 0) && FitsArray(types, m, d, fields, v) && AllocArray(types, layout, m, d, v)
    requires forall i | 0 <= i < |m.dims| :: Count(m.dims[i], known) == Count(m.dims[i], fields)
    requires (!m.ty.BitField? ==> pos % 8 == 0) && Cut(buf, limit, pos, ArrayBits(types, m.ty, |m.dims| - d, le, v))
    requires |ArrayBits(types, m.ty, |m.dims| - d, le, v)| <= 8 * INT_MAX
    ensures limit <= |buf|
    ensures DecodeDims(types, layout, m, d, known, depth, buf, limit, pos, le) == Short
    decreases depth, 3, |m.dims| - d, 2
  {
    hide ToBits, Cut, DecodeBatch, DecodeOuter, LeafBits, FitsLeaf, BlockAt, AllocOuter;
    CutInside(buf, limit, pos, ArrayBits(types, m.ty, |m.dims| - d, le, v));
    if d + 1 < |m.dims| {
      hide AllocArray;
      assert v.elems[..|v.elems|] == v.elems;
      OuterAlloc(types, layout, m, d, known, v);
      OuterCut(types, layout, m, d, fields, known, v, |v.elems|, depth, buf, limit, pos, le);
    } else if |m.dims| == 0 {
      ManyOne(types, m.ty, 0, le, v);
      assert Depths([v]) == Depth(v) by { assert [v][..0] == []; }
      CountableOne(types, m.ty);
      assert FitsArray(types, m, 0, fields, v);
      hide AllocArray, AllocRecord;
      LeafAlloc(types, layout, m, d, v);
      BatchCut(types, layout, m.ty, Inline, [v], depth, buf, limit, pos, le);
    } else {
      assert forall i | 0 <= i < |v.elems| :: FitsArray(types, m, d + 1, fields, v.elems[i]);
      hide AllocArray, AllocBatch;
      LastAlloc(types, layout, m, known, v);
      BatchCut(types, layout, m.ty, BlockAt(types, layout, m, d, known), v.elems, depth, buf, limit, pos, le);
    }
  }

  lemma {:induction false} OuterCut(types: Types, layout: Layout, m: Member, d: nat, fields: seq<Value>, known: seq<Value>, v: Value,
                                    count: nat, depth: nat, buf: seq<Byte>, limit: nat, pos: nat, le: bool)
    requires LegalTypes(types) && LegalType(m.ty, types) && Depth(v) <= depth
    requires d + 1 < |m.dims| && FitsArray(types, m, d, fields, v) && count <= |v.elems|
    requires AllocOuter(types, layout, m, d, known, v.elems, count)
    requires forall i | 0 <= i < |m.dims| :: Count(m.dims[i], known) == Count(m.dims[i], fields)
    requires !m.ty.BitField? ==> pos % 8 == 0
    requires Cut(buf, limit, pos, ManyBits(types, m.ty, |m.dims| - d - 1, le, v.elems[..count]))
    requires |ManyBits(types, m.ty, |m.dims| - d - 1, le, v.elems[..count])| <= 8 * INT_MAX
    ensures limit <= |buf|
    ensures DecodeOuter(types, layout, m, d, known, depth, buf, limit, pos, count, le) == Short
    decreases depth, 3, |m.dims| - d, 1, count
  {
    hide ToBits, At, Cut, ArrayBits, ManyBits, DecodeDims, LegalType, LegalTypes, Depths, Count, AllocArray, BlockAt, Holds;
    var n := |m.dims| - d - 1;
    CutInside(buf, limit, pos, ManyBits(types, m.ty, n, le, v.elems[..count]));
    if count == 0 {
      ManyNone(types, m.ty, n, le);
      assert false;
    } else {
      var i := count - 1;
      var a, b := ManyBits(types, m.ty, n, le, v.elems[..i]), ArrayBits(types, m.ty, n, le, v.elems[i]);
      ManyNext(types, m.ty, n, le, v.elems, i);
      CutSplit(buf, limit, pos, a, b);
      HoldsFewer(BlockAt(types, layout, m, d, known), i, count, layout.pointer);
      if 8 * limit < pos + |a| {
        OuterCut(types, layout, m, d, fields, known, v, i, depth, buf, limit, pos, le);
      } else {
        OuterBack(types, layout, m, d, fields, known, v, i, depth, buf, limit, pos, le);
        DepthIn(v.elems, i);
        if !m.ty.BitField? { ManyWholeBytes(types, m.ty, n, le, v.elems[..i]); }
        DimsCut(types, layout, m, d + 1, fields, known, v.elems[i], depth, buf, limit, pos + |a|, le);
      }
    }
  }

  /* ---------- whole messages ---------- */

  /** A proper prefix of a message's bytes is refused, wherever it stands and whatever follows it. */
  lemma CutRefused(types: Types, layout: Layout, name: string, hash: int, v: Value, depth: nat, bytes: seq<Byte>, buf: seq<Byte>,
                   offset: nat, maxlen: nat, le: bool)
    requires LegalTypes(types) && name in types && FitsRecord(types, name, v) && AllocRecord(types, layout, name, v) && Depth(v) <= depth
    requires ToBits(bytes) == MessageBits(types, name, hash, le, v) && |bytes| <= INT_MAX
    requires maxlen < |bytes| && offset + maxlen <= |buf| && buf[offset..offset + maxlen] == bytes[..maxlen]
    ensures DecodeMessage(types, layout, name, hash, depth, buf, offset, maxlen, le) == Short
  {
    hide ToBits, Cut, At, DecodeRecord, RecordBits, FitsRecord, AllocRecord, BytesNum, BeBytes, ToType, LegalTypes, Depth;
    if maxlen >= 8 {
      CutBytes(buf, offset, maxlen, bytes);
      CutSplit(buf, offset + maxlen, 8 * offset, ToBits(BeBytes(hash, 8)), RecordBits(types, name, le, v));
      RecordCut(types, layout, name, v, depth, buf, offset + maxlen, 8 * offset + 64, le);
    }
  }

  lemma CutBytes(buf: seq<Byte>, offset: nat, maxlen: nat, bytes: seq<Byte>)
    requires maxlen < |bytes| && offset + maxlen <= |buf| && buf[offset..offset + maxlen] == bytes[..maxlen]
    ensures Cut(buf, offset + maxlen, 8 * offset, ToBits(bytes))
  {
    hide ToBits;
    ToBitsSlice(buf, offset, maxlen);
    ToBitsSlice(bytes, 0, maxlen);
    assert bytes[0..maxlen] == bytes[..maxlen];
    var bits, all := ToBits(bytes)[..8 * maxlen], ToBits(buf);
    assert bits == ToBits(bytes)[0..8 * maxlen];
    assert all[8 * offset..8 * offset + |bits|] == bits;
  }

  /* ---------- strings ---------- */

  /** s is what stands before the first zero byte, or all there is. */
  predicate UpToZero(raw: seq<Byte>, s: seq<Byte>) {
    s <= raw && 0 !in s && (|s| < |raw| ==> raw[|s|] == 0)
  }

  lemma {:induction false} CStringExactly(raw: seq<Byte>, s: seq<Byte>)
    ensures CString(raw) == s <==> UpToZero(raw, s)
  {
    if raw != [] && raw[0] != 0 {
      CStringExactly(raw[1..], if s == [] then [] else s[1..]);
      if s != [] && s[0] == raw[0] {
        assert s == [s[0]] + s[1..];
        assert s <= raw <==> s[1..] <= raw[1..];
        assert 0 in s <==> 0 in s[1..];
      }
    }
  }

  /** A string ends at `end` exactly when its length word says so, that many bytes are there, and it is
      what stands before their first zero byte; everything else is refused. */
  lemma TextExactly(buf: seq<Byte>, limit: nat, at: nat, s: seq<Byte>, end: nat, le: bool)
    requires limit <= |buf|
    ensures var r := DecodeText(buf, limit, at, true, le);
            && (r == Got(Chars(s), 8 * end)
                <==> && at + 4 <= end <= limit && end - at - 4 <= INT_MAX
                     && buf[at..at + 4] == WordBytes(end - at - 4, 4, le) && UpToZero(buf[at + 4..end], s))
            && (r.Got? || r.Short?)
  {
    hide ToType, BytesNum, WordBytes, CString, UpToZero;
    if at + 4 <= limit {
      var w := buf[at..at + 4];
      var length := ToType(BytesNum(w, le), Storage(32, true));
      WordBytesBack(w, le, Storage(32, true));
      LengthRange(BytesNum(w, le));
      if at + 4 <= end <= limit {
        Pow2At31();
        if end - at - 4 <= INT_MAX { WordBack(end - at - 4, Int32, le); }
        CStringExactly(buf[at + 4..end], s);
      }
    }
  }

  /* ---------- negative counts ---------- */

  /** Every string takes at least the four bytes of its length. */
  lemma {:induction false} TextsTake(buf: seq<Byte>, limit: nat, at: nat, block: Block, pointer: nat, count: nat, le: bool)
    requires limit <= |buf|
    ensures var r := DecodeTexts(buf, limit, at, block, pointer, count, le);
            r.Got? ==> 8 * at + 32 * count <= r.pos && (count > 0 ==> r.pos <= 8 * limit)
    decreases count
  {
    hide BytesNum, ToType, CString, Holds;
    if count > 0 { TextsTake(buf, limit, at, block, pointer, count - 1, le); }
  }

  lemma NegativeWords(types: Types, layout: Layout, p: Prim, block: Block, depth: nat, buf: seq<Byte>, limit: nat, pos: nat, count: int,
                      le: bool)
    requires limit <= |buf| && limit < 0x1_0000_0000 && -0x8000_0000 <= count < 0
    ensures !DecodeBatch(types, layout, Plain(p), block, depth, buf, limit, pos, count, le).Got?
  {
    hide Span, Mul32, WordsAt, Holds, NumBytes, U32;
    WordSize(p);
    NegativeSpan(count, NumBytes(p));
  }

  lemma NegativeSpan(count: int, n: nat)
    requires -0x8000_0000 <= count < 0 && 1 <= n
    ensures var elements := U32(count);
            && elements > INT_MAX
            && (if n == 1 then Span(elements, n) == Mul32(elements, n) == elements else Span(elements, n) >= 0x1_0000_0000)
  {
    hide Span, Mul32;
    SpanProduct(U32(count), n);
    if n >= 2 { assert U32(count) * n >= U32(count) * 2; }
  }

  lemma WordSize(p: Prim)
    ensures 1 <= NumBytes(p) <= 8
  {
  }

  /** A member whose last count is a negative int32_t never yields an array of words or strings. */
  lemma NegativeCountRefused(types: Types, layout: Layout, m: Member, fields: seq<Value>, depth: nat, buf: seq<Byte>, limit: nat, pos: nat,
                             le: bool)
    requires limit <= |buf| && limit < 0x1_0000_0000 && m.dims != [] && (m.ty.Plain? || m.ty.Text?)
    requires -0x8000_0000 <= Count(m.dims[|m.dims| - 1], fields) < 0
    ensures !DecodeDims(types, layout, m, |m.dims| - 1, fields, depth, buf, limit, pos, le).Got?
  {
    hide Count, BlockAt, DecodePlain, DecodeTexts;
    var d := |m.dims| - 1;
    var block, count := BlockAt(types, layout, m, d, fields), Count(m.dims[d], fields);
    if m.ty.Plain? {
      NegativeWords(types, layout, m.ty.prim, block, depth, buf, limit, pos, count, le);
    } else {
      TextsTake(buf, limit, pos / 8, block, layout.pointer, U32(count), le);
    }
  }

  /** A negative outer count yields an empty array and takes nothing. */
  lemma NegativeOuterEmpty(types: Types, layout: Layout, m: Member, d: nat, fields: seq<Value>, depth: nat, buf: seq<Byte>, limit: nat,
                           pos: nat, le: bool)
    requires limit <= |buf| && d + 1 < |m.dims| && Count(m.dims[d], fields) <= 0
    ensures DecodeDims(types, layout, m, d, fields, depth, buf, limit, pos, le) == Got(List([]), pos)
  {
    hide Count;
  }
}
