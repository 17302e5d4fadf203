/** Two versions of a schema that differ in the sign extension of one bit field put the same hash on the
    wire, so that each takes the other's messages for its own. This is what it then reads. */
module SignVersions {
  import opened Binary
  import opened BitPacker
  import opened PrimArrays
  import opened Schema
  import opened Blocks
  import opened Decoding
  import opened EncoderSteps
  import opened SchemaHash
  import TypeHash

  /* ---------- one field ---------- */

  lemma {:induction false} BitsNum(s: seq<bool>)
    ensures Bits(Num(s), |s|) == s
  {
    if s != [] {
      var n := |s| - 1;
      BitsNum(s[..n]);
      assert Num(s) / 2 == Num(s[..n]) && (Num(s) % 2 == 1 <==> s[n]);
      assert s == s[..n] + [s[n]];
    }
  }

  /** Either reading of a field keeps its bits. */
  lemma BitsOfReading(s: seq<bool>, signExtend: bool)
    requires s != []
    ensures Bits(Reading(s, signExtend), |s|) == s
  {
    hide Num, Bits, Low, Shl, Pow2;
    var n, x := |s|, Num(s);
    BitsNum(s);
    ShlPow2(0, n);
    ShlNeg(1, n);
    LowShift(x, -1, n);
    BitsLow(x, n, n);
    BitsLow(x + Shl(-1, n), n, n);
    assert Pow2(0) == 1 by { PowZero(); }
  }

  lemma PowZero()
    ensures Pow2(0) == 1
  {
  }

  lemma BitsOfField(s: seq<bool>, signExtend: bool, ty: Storage)
    requires 0 < |s| <= ty.width
    ensures Bits(FieldValue(s, signExtend, ty), |s|) == s
  {
    hide Reading, ToType, Bits, Low;
    var x := Reading(s, signExtend);
    ToTypeLow(x, ty);
    BitsLow(ToType(x, ty), ty.width, |s|);
    BitsLow(x, ty.width, |s|);
    BitsOfReading(s, signExtend);
  }

  lemma {:induction false} Pow2Grows(m: nat, n: nat)
    requires m < n
    ensures Pow2(m) < Pow2(n)
    decreases n
  {
    if m < n - 1 { Pow2Grows(m, n - 1); }
  }

  /** The two readings of a field that is narrower than its type agree exactly when its top bit is clear. */
  lemma SameReading(s: seq<bool>, ty: Storage)
    requires 0 < |s| < ty.width
    ensures FieldValue(s, true, ty) == FieldValue(s, false, ty) <==> !s[0]
  {
    hide Num, Low, Pow2, ToType;
    if s[0] {
      var x, n, w := Num(s), |s|, ty.width;
      NumBound(s);
      Pow2Grows(n, w);
      LowSmall(x, w);
      ShlPow2(0, w);
      PowZero();
      LowShift(x - Pow2(n), 1, w);
      LowSmall(x - Pow2(n) + Pow2(w), w);
      ToTypeLow(x, ty);
      ToTypeLow(x - Pow2(n), ty);
    }
  }

  lemma {:induction false} Pow2AtMost(m: nat, n: nat)
    requires m <= n
    ensures Pow2(m) <= Pow2(n)
  {
    if m < n { Pow2Grows(m, n); }
  }

  /** A field reads as a number of the field. */
  lemma FieldInField(s: seq<bool>, signExtend: bool, ty: Storage)
    requires 0 < |s| < ty.width && ty.signed
    ensures InField(FieldValue(s, signExtend, ty), |s|, signExtend)
  {
    hide Num, Low, Pow2, ToType;
    var h := s[1..];
    FirstBit(s, h);
    NumBound(h);
    NumBound(s);
    assert Pow2(|s|) == 2 * Pow2(|h|) by { PowNext(|h|); }
    Pow2AtMost(|s|, ty.width - 1);
    ToTypeFits(Reading(s, signExtend), ty);
  }

  lemma PowNext(n: nat)
    ensures Pow2(n + 1) == 2 * Pow2(n)
  {
  }

  /* ---------- the two versions ---------- */

  /** A bit field of a schema: member k of a struct. */
  datatype Site = Site(types: Types, name: string, k: nat)

  /** The field does not count an array. */
  ghost predicate NotCounting(site: Site)
    requires site.name in site.types
  {
    forall j, d | 0 <= j < |site.types[site.name]| && 0 <= d < |site.types[site.name][j].dims| ::
      site.types[site.name][j].dims[d] != Counted(site.k)
  }

  /** Both versions pass the parser. */
  ghost predicate Versions(site: Site) {
    && site.name in site.types && site.k < |site.types[site.name]| && site.types[site.name][site.k].ty.BitField?
    && LegalTypes(site.types) && LegalTypes(Other(site))
  }

  function Other(site: Site): Types {
    if site.name in site.types && site.k < |site.types[site.name]| && site.types[site.name][site.k].ty.BitField? then
      Resigned(site.types, site.name, site.k)
    else site.types
  }

  predicate Here(site: Site, at: string, j: nat) {
    at == site.name && j == site.k
  }

  /** The type of a member in the other version. */
  function Flip(ty: MemberType, here: bool): MemberType {
    if here && ty.BitField? then ty.(signExtend := !ty.signExtend) else ty
  }

  /** The parser takes a sign-extended and an unsigned field of this width only if its type is wider. */
  lemma Narrow(site: Site)
    requires Versions(site)
    ensures var ty := site.types[site.name][site.k].ty; 0 < ty.numBits < StorageOf(ty.prim).width && StorageOf(ty.prim).signed
  {
    assert LegalStruct(site.types[site.name], site.types);
    assert LegalStruct(Other(site)[site.name], Other(site));
    assert LegalType(site.types[site.name][site.k].ty, site.types);
    assert LegalType(Other(site)[site.name][site.k].ty, Other(site));
  }

  lemma OtherMember(site: Site, at: string, j: nat)
    requires Versions(site) && at in site.types && j < |site.types[at]|
    ensures at in Other(site) && |Other(site)[at]| == |site.types[at]|
    ensures var m := site.types[at][j]; Other(site)[at][j] == Member(Flip(m.ty, Here(site, at, j)), m.dims)
  {
    hide LegalTypes;
  }

  lemma OtherNames(site: Site, at: string)
    requires Versions(site)
    ensures at in Other(site) <==> at in site.types
    ensures at in site.types ==> |Other(site)[at]| == |site.types[at]|
  {
    hide LegalTypes;
  }

  /* ---------- values as the other version reads them ---------- */

  /** A number of the field, read from the same bits by the other version. */
  function Reread(ty: MemberType, n: int): int
    requires ty.BitField?
  {
    FieldValue(Bits(n, ty.numBits), !ty.signExtend, StorageOf(ty.prim))
  }

  function RereadArray(site: Site, ty: MemberType, here: bool, v: Value): Value
    decreases v, 1
  {
    match v
    case Word(n) => if here && ty.BitField? then Word(Reread(ty, n)) else v
    case List(elems) => List(seq(|elems|, i requires 0 <= i < |elems| => RereadArray(site, ty, here, elems[i])))
    case Record(_) => if ty.Ref? then RereadRecord(site, ty.name, v) else v
    case Chars(_) => v
  }

  /** The record with the field changed wherever it occurs, and nothing else. */
  function RereadRecord(site: Site, at: string, v: Value): Value
    decreases v, 0
  {
    if v.Record? && at in site.types && |v.fields| == |site.types[at]| then
      Record(seq(|v.fields|, j requires 0 <= j < |v.fields| =>
        RereadArray(site, site.types[at][j].ty, Here(site, at, j), v.fields[j])))
    else v
  }

  function RereadAll(site: Site, ty: MemberType, here: bool, vs: seq<Value>): (r: seq<Value>)
    ensures |r| == |vs|
  {
    seq(|vs|, i requires 0 <= i < |vs| => RereadArray(site, ty, here, vs[i]))
  }

  function RereadFields(site: Site, at: string, fields: seq<Value>): (r: seq<Value>)
    requires at in site.types && |fields| <= |site.types[at]|
    ensures |r| == |fields|
  {
    seq(|fields|, j requires 0 <= j < |fields| => RereadArray(site, site.types[at][j].ty, Here(site, at, j), fields[j]))
  }

  lemma AllNext(site: Site, ty: MemberType, here: bool, vs: seq<Value>, v: Value)
    ensures RereadAll(site, ty, here, vs + [v]) == RereadAll(site, ty, here, vs) + [RereadArray(site, ty, here, v)]
  {
    hide RereadArray;
  }

  lemma FieldsNextReread(site: Site, at: string, fields: seq<Value>, v: Value)
    requires at in site.types && |fields| < |site.types[at]|
    ensures var j := |fields|;
            RereadFields(site, at, fields + [v])
            == RereadFields(site, at, fields) + [RereadArray(site, site.types[at][j].ty, Here(site, at, j), v)]
  {
    hide RereadArray, Here;
  }

  /** Words, strings and other fields stay as they are. */
  lemma {:induction false} Untouched(site: Site, ty: MemberType, here: bool, v: Value)
    requires !ty.Ref? && !(here && ty.BitField?)
    ensures RereadArray(site, ty, here, v) == v
    decreases v
  {
    if v.List? {
      forall i | 0 <= i < |v.elems| ensures RereadArray(site, ty, here, v.elems[i]) == v.elems[i] {
        Untouched(site, ty, here, v.elems[i]);
      }
    }
  }

  lemma AllUntouched(site: Site, ty: MemberType, here: bool, vs: seq<Value>)
    requires !ty.Ref? && !(here && ty.BitField?)
    ensures RereadAll(site, ty, here, vs) == vs
  {
    hide RereadArray;
    forall i | 0 <= i < |vs| ensures RereadArray(site, ty, here, vs[i]) == vs[i] {
      Untouched(site, ty, here, vs[i]);
    }
  }

  /** Only the field itself can change a count. */
  lemma SameCount(site: Site, at: string, dim: Dim, fields: seq<Value>)
    requires at in site.types && |fields| <= |site.types[at]| && (at == site.name ==> dim != Counted(site.k))
    ensures Count(dim, RereadFields(site, at, fields)) == Count(dim, fields)
  {
    hide RereadRecord;
    if dim.Counted? && dim.member < |fields| {
      var j := dim.member;
      var v := fields[j];
      assert RereadFields(site, at, fields)[j] == RereadArray(site, site.types[at][j].ty, Here(site, at, j), v);
      if site.types[at][j].ty.Ref? { StaysRecord(site, site.types[at][j].ty.name, v); }
    }
  }

  lemma StaysRecord(site: Site, at: string, v: Value)
    ensures v.Record? ==> RereadRecord(site, at, v).Record?
  {
  }

  /* ---------- reading under both versions ---------- */

  lemma {:induction false} FieldsReread(site: Site, ty: MemberType, bits: seq<bool>, k: nat, n: nat)
    requires ty.BitField? && 0 < ty.numBits <= StorageOf(ty.prim).width && k + Span(n, ty.numBits) <= |bits|
    ensures AsWords(FieldValues(bits, k, n, ty.numBits, !ty.signExtend, StorageOf(ty.prim)))
            == RereadAll(site, ty, true, AsWords(FieldValues(bits, k, n, ty.numBits, ty.signExtend, StorageOf(ty.prim))))
    decreases n
  {
    hide FieldValue, FieldValues, Span, Bits, StorageOf;
    var w, st := ty.numBits, StorageOf(ty.prim);
    if n == 0 {
      FieldsNone(bits, k, w, true, st);
      FieldsNone(bits, k, w, false, st);
    } else {
      SpanNext(n - 1, w);
      FieldsReread(site, ty, bits, k, n - 1);
      FieldsNext(bits, k, n - 1, w, true, st);
      FieldsNext(bits, k, n - 1, w, false, st);
      var at := k + Span(n - 1, w);
      BitsOfField(bits[at..at + w], ty.signExtend, st);
      var before := FieldValues(bits, k, n - 1, w, ty.signExtend, st);
      var x := FieldValue(bits[at..at + w], ty.signExtend, st);
      assert AsWords(before + [x]) == AsWords(before) + [Word(x)];
      AllNext(site, ty, true, AsWords(before), Word(x));
      var after := FieldValues(bits, k, n - 1, w, !ty.signExtend, st);
      var y := FieldValue(bits[at..at + w], !ty.signExtend, st);
      assert AsWords(after + [y]) == AsWords(after) + [Word(y)];
      assert RereadArray(site, ty, true, Word(x)) == Word(y);
    }
  }

  lemma SameSize(site: Site, layout: Layout, ty: MemberType, here: bool)
    requires Versions(site)
    ensures SizeOf(Other(site), layout, Flip(ty, here)) == SizeOf(site.types, layout, ty)
  {
    hide LegalTypes;
    if ty.Ref? { OtherNames(site, ty.name); }
  }

  lemma SameBlock(site: Site, layout: Layout, at: string, j: nat, d: nat, fields: seq<Value>)
    requires Versions(site) && NotCounting(site) && at in site.types && j < |site.types[at]| && |fields| == j
    ensures at in Other(site) && j < |Other(site)[at]|
    ensures BlockAt(Other(site), layout, Other(site)[at][j], d, RereadFields(site, at, fields))
            == BlockAt(site.types, layout, site.types[at][j], d, fields)
  {
    hide Versions, SizeOf, Count, RereadFields, Malloc;
    assert Versions(site);
    OtherMember(site, at, j);
    var m := site.types[at][j];
    SameSize(site, layout, m.ty, Here(site, at, j));
    if d < |m.dims| { SameCount(site, at, m.dims[d], fields); }
  }

  /** The elements behind the last dimension. */
  lemma {:induction false} BatchReread(site: Site, layout: Layout, ty: MemberType, here: bool, block: Block, depth: nat, buf: seq<Byte>,
                                       limit: nat, pos: nat, count: int, le: bool)
    requires Versions(site) && NotCounting(site) && limit <= |buf|
    requires here ==> ty == site.types[site.name][site.k].ty
    ensures var r := DecodeBatch(site.types, layout, ty, block, depth, buf, limit, pos, count, le);
            DecodeBatch(Other(site), layout, Flip(ty, here), block, depth, buf, limit, pos, count, le)
            == if r.Got? then Got(RereadAll(site, ty, here, r.value), r.pos) else r
    decreases depth, 2, 0, 0
  {
    var r := DecodeBatch(site.types, layout, ty, block, depth, buf, limit, pos, count, le);
    hide Versions, NotCounting, RereadAll, DecodePlain, DecodeTexts, DecodeRecords, U32, Other;
    if here {
      BatchHere(site, layout, ty, block, depth, buf, limit, pos, count, le);
    } else if ty.Ref? {
      RecordsReread(site, layout, ty.name, block, depth, buf, limit, pos, U32(count), le);
    } else if r.Got? {
      AllUntouched(site, ty, here, r.value);
    }
  }

  lemma BatchHere(site: Site, layout: Layout, ty: MemberType, block: Block, depth: nat, buf: seq<Byte>, limit: nat, pos: nat, count: int,
                  le: bool)
    requires Versions(site) && limit <= |buf| && ty == site.types[site.name][site.k].ty
    ensures var r := DecodeBatch(site.types, layout, ty, block, depth, buf, limit, pos, count, le);
            DecodeBatch(Other(site), layout, Flip(ty, true), block, depth, buf, limit, pos, count, le)
            == if r.Got? then Got(RereadAll(site, ty, true, r.value), r.pos) else r
  {
    Narrow(site);
    hide Versions, RereadAll, U32, Other, DecodeFields, DecodePlain, DecodeTexts, DecodeRecords;
    FieldsHere(site, ty, block, buf, limit, pos, U32(count));
  }

  lemma FieldsHere(site: Site, ty: MemberType, block: Block, buf: seq<Byte>, limit: nat, pos: nat, n: nat)
    requires limit <= |buf| && ty.BitField? && 0 < ty.numBits <= StorageOf(ty.prim).width
    ensures var r := DecodeFields(ty, buf, limit, pos, block, n);
            DecodeFields(Flip(ty, true), buf, limit, pos, block, n)
            == if r.Got? then Got(RereadAll(site, ty, true, r.value), r.pos) else r
  {
    hide RereadAll, U32, ToBits, FieldValues, Span, Mul32, EncodedSize, Holds, StorageOf, AsWords;
    if pos + Span(n, ty.numBits) <= 8 * limit {
      FieldsReread(site, ty, ToBits(buf), pos, n);
    }
  }

  lemma {:induction false} RecordsReread(site: Site, layout: Layout, at: string, block: Block, depth: nat, buf: seq<Byte>, limit: nat,
                                         pos: nat, count: nat, le: bool)
    requires Versions(site) && NotCounting(site) && limit <= |buf|
    ensures var r := DecodeRecords(site.types, layout, at, block, depth, buf, limit, pos, count, le);
            DecodeRecords(Other(site), layout, at, block, depth, buf, limit, pos, count, le)
            == if r.Got? then Got(RereadAll(site, Ref(at), false, r.value), r.pos) else r
    decreases depth, 1, count, 0
  {
    hide Versions, NotCounting, Other, DecodeRecord, Holds, SizeOf, RereadArray, RereadRecord;
    if count == 0 {
      assert RereadAll(site, Ref(at), false, []) == [];
    } else {
      RecordsReread(site, layout, at, block, depth, buf, limit, pos, count - 1, le);
      SameSize(site, layout, Ref(at), false);
      var before := DecodeRecords(site.types, layout, at, block, depth, buf, limit, pos, count - 1, le);
      if before.Got? {
        RecordReread(site, layout, at, depth, buf, limit, before.pos, le);
        var next := DecodeRecord(site.types, layout, at, depth, buf, limit, before.pos, le);
        if next.Got? {
          AllNext(site, Ref(at), false, before.value, next.value);
          RecordOnly(site, at, next.value);
        }
      }
    }
  }

  lemma RecordOnly(site: Site, at: string, v: Value)
    requires v.Record?
    ensures RereadArray(site, Ref(at), false, v) == RereadRecord(site, at, v)
  {
    hide RereadRecord;
  }

  lemma {:induction false} RecordReread(site: Site, layout: Layout, at: string, depth: nat, buf: seq<Byte>, limit: nat, pos: nat, le: bool)
    requires Versions(site) && NotCounting(site) && limit <= |buf|
    ensures var r := DecodeRecord(site.types, layout, at, depth, buf, limit, pos, le);
            && (r.Got? ==> r.value.Record?)
            && DecodeRecord(Other(site), layout, at, depth, buf, limit, pos, le)
               == if r.Got? then Got(RereadRecord(site, at, r.value), r.pos) else r
    decreases depth, 0, 0, 0
  {
    hide Versions, NotCounting, Other, DecodePrefix, RereadArray, EncodedSize;
    OtherNames(site, at);
    if at in site.types && depth > 0 {
      PrefixReread(site, layout, at, |site.types[at]|, depth - 1, buf, limit, pos, le);
    }
  }

  lemma {:induction false} PrefixReread(site: Site, layout: Layout, at: string, n: nat, depth: nat, buf: seq<Byte>, limit: nat, pos: nat,
                                        le: bool)
    requires Versions(site) && NotCounting(site) && limit <= |buf|
    requires at in site.types && at in Other(site) && n <= |site.types[at]| == |Other(site)[at]|
    ensures var r := DecodePrefix(site.types, layout, site.types[at], n, depth, buf, limit, pos, le);
            DecodePrefix(Other(site), layout, Other(site)[at], n, depth, buf, limit, pos, le)
            == if r.Got? then Got(RereadFields(site, at, r.value), r.pos) else r
    decreases depth, 4, n, 0
  {
    hide Versions, NotCounting, Other, DecodePrefix, DecodeDims, RereadFields, MemberStart;
    if n == 0 {
      NoneRead(site.types, layout, site.types[at], depth, buf, limit, pos, le);
      NoneRead(Other(site), layout, Other(site)[at], depth, buf, limit, pos, le);
      NoFields(site, at);
    } else {
      var j := n - 1;
      PrefixReread(site, layout, at, j, depth, buf, limit, pos, le);
      OneMoreRead(site.types, layout, site.types[at], j, depth, buf, limit, pos, le);
      OneMoreRead(Other(site), layout, Other(site)[at], j, depth, buf, limit, pos, le);
      OtherMember(site, at, j);
      var before := DecodePrefix(site.types, layout, site.types[at], j, depth, buf, limit, pos, le);
      if before.Got? {
        var start := MemberStart(site.types[at][j].ty, before.pos);
        SameStart(site.types[at][j].ty, Here(site, at, j), before.pos);
        DimsReread(site, layout, at, j, 0, before.value, depth, buf, limit, start, le);
        var next := DecodeDims(site.types, layout, site.types[at][j], 0, before.value, depth, buf, limit, start, le);
        if next.Got? { FieldsNextReread(site, at, before.value, next.value); }
      }
    }
  }

  lemma NoFields(site: Site, at: string)
    requires at in site.types
    ensures RereadFields(site, at, []) == []
  {
  }

  lemma SameStart(ty: MemberType, here: bool, pos: nat)
    ensures MemberStart(Flip(ty, here), pos) == MemberStart(ty, pos)
  {
    hide EncodedSize;
  }

  lemma {:induction false} DimsReread(site: Site, layout: Layout, at: string, j: nat, d: nat, fields: seq<Value>, depth: nat,
                                      buf: seq<Byte>, limit: nat, pos: nat, le: bool)
    requires Versions(site) && NotCounting(site) && limit <= |buf|
    requires at in site.types && at in Other(site) && j < |site.types[at]| == |Other(site)[at]| && |fields| == j
    requires d < |site.types[at][j].dims| || d == |site.types[at][j].dims| == 0
    requires Other(site)[at][j].dims == site.types[at][j].dims
    ensures var m := site.types[at][j];
            var r := DecodeDims(site.types, layout, m, d, fields, depth, buf, limit, pos, le);
            DecodeDims(Other(site), layout, Other(site)[at][j], d, RereadFields(site, at, fields), depth, buf, limit, pos, le)
            == if r.Got? then Got(RereadArray(site, m.ty, Here(site, at, j), r.value), r.pos) else r
    decreases depth, 3, |site.types[at][j].dims| - d, 2
  {
    var m, here := site.types[at][j], Here(site, at, j);
    OtherMember(site, at, j);
    if d < |m.dims| { SameCount(site, at, m.dims[d], fields); }
    SameBlock(site, layout, at, j, d, fields);
    hide Versions, NotCounting, Other, DecodeBatch, DecodeOuter, RereadFields, BlockAt, Count, Turns, RereadRecord;
    if d + 1 < |m.dims| {
      OuterReread(site, layout, at, j, d, fields, Turns(Count(m.dims[d], fields)), depth, buf, limit, pos, le);
    } else if |m.dims| == 0 {
      BatchReread(site, layout, m.ty, here, Inline, depth, buf, limit, pos, 1, le);
    } else {
      var block := BlockAt(site.types, layout, m, d, fields);
      BatchReread(site, layout, m.ty, here, block, depth, buf, limit, pos, Count(m.dims[d], fields), le);
    }
  }

  lemma {:induction false} OuterReread(site: Site, layout: Layout, at: string, j: nat, d: nat, fields: seq<Value>, count: nat, depth: nat,
                                       buf: seq<Byte>, limit: nat, pos: nat, le: bool)
    requires Versions(site) && NotCounting(site) && limit <= |buf|
    requires at in site.types && at in Other(site) && j < |site.types[at]| == |Other(site)[at]| && |fields| == j
    requires d + 1 < |site.types[at][j].dims| && Other(site)[at][j].dims == site.types[at][j].dims
    ensures var m := site.types[at][j];
            var r := DecodeOuter(site.types, layout, m, d, fields, depth, buf, limit, pos, count, le);
            DecodeOuter(Other(site), layout, Other(site)[at][j], d, RereadFields(site, at, fields), depth, buf, limit, pos, count, le)
            == if r.Got? then Got(RereadAll(site, m.ty, Here(site, at, j), r.value), r.pos) else r
    decreases depth, 3, |site.types[at][j].dims| - d, 1, count
  {
    hide Versions, NotCounting, Other, DecodeDims, RereadFields, BlockAt, Holds, RereadArray;
    var m, here := site.types[at][j], Here(site, at, j);
    if count == 0 {
      assert RereadAll(site, m.ty, here, []) == [];
    } else {
      OuterReread(site, layout, at, j, d, fields, count - 1, depth, buf, limit, pos, le);
      SameBlock(site, layout, at, j, d, fields);
      var before := DecodeOuter(site.types, layout, m, d, fields, depth, buf, limit, pos, count - 1, le);
      if before.Got? {
        DimsReread(site, layout, at, j, d + 1, fields, depth, buf, limit, before.pos, le);
        var next := DecodeDims(site.types, layout, m, d + 1, fields, depth, buf, limit, before.pos, le);
        if next.Got? { AllNext(site, m.ty, here, before.value, next.value); }
      }
    }
  }

  /* ---------- whole messages ---------- */

  /** While the field counts no array, the other version ends on every buffer as this one does: it fails
      with it, or it reads the same record from the same bytes, apart from that field. */
  lemma OtherVersionReads(site: Site, texts: Spellings, opts: TypeHash.HashOptions, root: string, layout: Layout, depth: nat,
                          buf: seq<Byte>, offset: nat, maxlen: nat, le: bool)
    requires Versions(site) && NotCounting(site) && Spelled(site.types, texts) && root in site.types && offset + maxlen <= |buf|
    ensures Spelled(Other(site), texts) && root in Other(site)
    ensures var r := DecodeMessage(site.types, layout, root, WireHash(site.types, texts, opts, root), depth, buf, offset, maxlen, le);
            DecodeMessage(Other(site), layout, root, WireHash(Other(site), texts, opts, root), depth, buf, offset, maxlen, le)
            == if r.Got? then Got(RereadRecord(site, root, r.value), r.pos) else r
  {
    hide WireHash, LegalTypes, NotCounting, Spelled, RereadRecord, DecodeMessage, Other;
    SameHash(site, texts, opts, root);
    MessageReread(site, root, WireHash(site.types, texts, opts, root), layout, depth, buf, offset, maxlen, le);
  }

  lemma MessageReread(site: Site, root: string, hash: int, layout: Layout, depth: nat, buf: seq<Byte>, offset: nat, maxlen: nat, le: bool)
    requires Versions(site) && NotCounting(site) && offset + maxlen <= |buf|
    ensures var r := DecodeMessage(site.types, layout, root, hash, depth, buf, offset, maxlen, le);
            DecodeMessage(Other(site), layout, root, hash, depth, buf, offset, maxlen, le)
            == if r.Got? then Got(RereadRecord(site, root, r.value), r.pos) else r
  {
    hide Versions, NotCounting, BytesNum, ToType, DecodeRecord, RereadRecord, Other;
    if maxlen >= 8 { RecordReread(site, layout, root, depth, buf, offset + maxlen, 8 * offset + 64, le); }
  }

  lemma SameHash(site: Site, texts: Spellings, opts: TypeHash.HashOptions, root: string)
    requires Versions(site) && Spelled(site.types, texts) && root in site.types
    ensures Spelled(Other(site), texts) && root in Other(site)
    ensures WireHash(Other(site), texts, opts, root) == WireHash(site.types, texts, opts, root)
    ensures InType(WireHash(site.types, texts, opts, root), Storage(64, true))
  {
    hide WireHash, LegalTypes, Spelled, InType;
    SignNotHashed(site.types, texts, opts, site.name, site.k, root);
    HashInType(site.types, texts, opts, root);
  }

  /** A number whose top bit in the field is set. */
  predicate TopBit(ty: MemberType, n: int)
    requires ty.BitField?
  {
    ty.numBits > 0 && Bits(n, ty.numBits)[0]
  }

  /** No number of the field has its top bit set. */
  predicate ClearArray(site: Site, ty: MemberType, here: bool, v: Value)
    decreases v, 1
  {
    match v
    case Word(n) => here && ty.BitField? ==> !TopBit(ty, n)
    case List(elems) => forall i | 0 <= i < |elems| :: ClearArray(site, ty, here, elems[i])
    case Record(_) => ty.Ref? ==> ClearRecord(site, ty.name, v)
    case Chars(_) => true
  }

  predicate ClearRecord(site: Site, at: string, v: Value)
    decreases v, 0
  {
    v.Record? && at in site.types && |v.fields| == |site.types[at]| ==>
      forall j | 0 <= j < |v.fields| :: ClearArray(site, site.types[at][j].ty, Here(site, at, j), v.fields[j])
  }

  /** A number of the field is one of the other version's field exactly when its top bit is clear. */
  lemma WordSame(site: Site, ty: MemberType, n: int)
    requires Versions(site) && ty == site.types[site.name][site.k].ty && ty.numBits > 0
    requires InField(n, ty.numBits, ty.signExtend) && InType(n, StorageOf(ty.prim))
    ensures InField(n, ty.numBits, !ty.signExtend) <==> !TopBit(ty, n)
  {
    Narrow(site);
    hide Versions, FieldValue, InField, InType, Bits;
    var s, st := Bits(n, ty.numBits), StorageOf(ty.prim);
    FieldRoundTrip(n, ty.numBits, ty.signExtend, st);
    SameReading(s, st);
    FieldInField(s, !ty.signExtend, st);
    if InField(n, ty.numBits, !ty.signExtend) { FieldRoundTrip(n, ty.numBits, !ty.signExtend, st); }
  }

  /* ---------- a value under both versions ---------- */

  lemma {:induction false} ArrayBitsSame(site: Site, ty: MemberType, here: bool, n: nat, le: bool, v: Value)
    requires Versions(site)
    ensures ArrayBits(Other(site), Flip(ty, here), n, le, v) == ArrayBits(site.types, ty, n, le, v)
    decreases v, 2
  {
    hide Versions, Other, WordBytes, TextBytes, ToBits, Bits, RecordBits, ManyBits;
    if n > 0 && v.List? {
      ManyBitsSame(site, ty, here, n - 1, le, v.elems);
    } else if n == 0 && ty.Ref? {
      RecordBitsSame(site, ty.name, le, v);
    }
  }

  lemma {:induction false} ManyBitsSame(site: Site, ty: MemberType, here: bool, n: nat, le: bool, vs: seq<Value>)
    requires Versions(site)
    ensures ManyBits(Other(site), Flip(ty, here), n, le, vs) == ManyBits(site.types, ty, n, le, vs)
    decreases vs, 3
  {
    hide Versions, Other, ArrayBits, Flip;
    if vs != [] {
      ManyBitsSame(site, ty, here, n, le, vs[..|vs| - 1]);
      ArrayBitsSame(site, ty, here, n, le, vs[|vs| - 1]);
    }
  }

  lemma {:induction false} PrefixBitsSame(site: Site, at: string, n: nat, le: bool, fields: seq<Value>)
    requires Versions(site) && at in site.types && n <= |site.types[at]| && n <= |fields|
    ensures at in Other(site) && |Other(site)[at]| == |site.types[at]|
    ensures PrefixBits(Other(site), Other(site)[at], n, le, fields) == PrefixBits(site.types, site.types[at], n, le, fields)
    decreases fields, n
  {
    hide Versions, Other, ArrayBits, PrefixBits, Aligned, Flip, Here, LegalTypes, Resigned;
    OtherNames(site, at);
    var members, members' := site.types[at], Other(site)[at];
    if n == 0 {
      PrefixNone(site.types, members, le, fields);
      PrefixNone(Other(site), members', le, fields);
    } else {
      var m, here := members[n - 1], Here(site, at, n - 1);
      OtherMember(site, at, n - 1);
      PrefixBitsSame(site, at, n - 1, le, fields);
      PrefixNext(site.types, members, n - 1, le, fields);
      PrefixNext(Other(site), members', n - 1, le, fields);
      SameAligned(m.ty, here, PrefixBits(site.types, members, n - 1, le, fields));
      ArrayBitsSame(site, m.ty, here, |m.dims|, le, fields[n - 1]);
    }
  }

  lemma SameAligned(ty: MemberType, here: bool, bits: seq<bool>)
    ensures Aligned(Flip(ty, here), bits) == Aligned(ty, bits)
  {
    hide Align;
  }

  /** Both versions write the same bits for a value. */
  lemma {:induction false} RecordBitsSame(site: Site, at: string, le: bool, v: Value)
    requires Versions(site)
    ensures RecordBits(Other(site), at, le, v) == RecordBits(site.types, at, le, v)
    decreases v, 0
  {
    OtherNames(site, at);
    hide Versions, Other, PrefixBits;
    if v.Record? && at in site.types && |v.fields| == |site.types[at]| {
      PrefixBitsSame(site, at, |site.types[at]|, le, v.fields);
    }
  }

  lemma {:induction false} AllocArraySame(site: Site, layout: Layout, at: string, j: nat, d: nat, v: Value)
    requires Versions(site) && at in site.types && j < |site.types[at]| && at in Other(site) && j < |Other(site)[at]|
    ensures AllocArray(Other(site), layout, Other(site)[at][j], d, v) <==> AllocArray(site.types, layout, site.types[at][j], d, v)
    decreases v, 1
  {
    hide Versions, Other, AllocRecord, SizeOf, ConstantSize, Span;
    OtherMember(site, at, j);
    var m, m' := site.types[at][j], Other(site)[at][j];
    SameSize(site, layout, m.ty, Here(site, at, j));
    assert ConstantSize(m') == ConstantSize(m) by { SameConstant(m, m'); }
    if v.List? {
      forall i | 0 <= i < |v.elems|
        ensures AllocArray(Other(site), layout, m', d + 1, v.elems[i]) <==> AllocArray(site.types, layout, m, d + 1, v.elems[i])
      {
        AllocArraySame(site, layout, at, j, d + 1, v.elems[i]);
      }
    } else if v.Record? && m.ty.Ref? {
      AllocRecordSame(site, layout, m.ty.name, v);
    }
  }

  lemma SameConstant(m: Member, m': Member)
    requires m'.dims == m.dims
    ensures ConstantSize(m') == ConstantSize(m)
  {
  }

  lemma {:induction false} AllocRecordSame(site: Site, layout: Layout, at: string, v: Value)
    requires Versions(site)
    ensures AllocRecord(Other(site), layout, at, v) <==> AllocRecord(site.types, layout, at, v)
    decreases v, 0
  {
    OtherNames(site, at);
    hide Versions, Other, AllocArray;
    if v.Record? && at in site.types && |v.fields| == |site.types[at]| {
      forall j | 0 <= j < |v.fields|
        ensures AllocArray(Other(site), layout, Other(site)[at][j], 0, v.fields[j])
                <==> AllocArray(site.types, layout, site.types[at][j], 0, v.fields[j])
      {
        AllocArraySame(site, layout, at, j, 0, v.fields[j]);
      }
    }
  }

  lemma LeafFits(site: Site, at: string, j: nat, v: Value)
    requires Versions(site) && at in site.types && j < |site.types[at]| && FitsLeaf(site.types, site.types[at][j].ty, v)
    requires !site.types[at][j].ty.Ref? && ClearArray(site, site.types[at][j].ty, Here(site, at, j), v)
    ensures FitsLeaf(Other(site), Flip(site.types[at][j].ty, Here(site, at, j)), v)
  {
    hide Versions, InField, InType, TopBit, FitsRecord, Other;
    if v.Word? && Here(site, at, j) && site.types[at][j].ty.BitField? {
      WordSame(site, site.types[at][j].ty, v.n);
    }
  }

  lemma {:induction false} ArrayFits(site: Site, at: string, j: nat, d: nat, fields: seq<Value>, v: Value)
    requires Versions(site) && at in site.types && j < |site.types[at]| && d <= |site.types[at][j].dims|
    requires FitsArray(site.types, site.types[at][j], d, fields, v)
    requires ClearArray(site, site.types[at][j].ty, Here(site, at, j), v)
    ensures var m := site.types[at][j];
            FitsArray(Other(site), Member(Flip(m.ty, Here(site, at, j)), m.dims), d, fields, v)
    decreases v, 1
  {
    hide Versions, Here, FitsRecord, ClearRecord, FitsLeaf, Other, Count;
    var m, here := site.types[at][j], Here(site, at, j);
    if d < |m.dims| {
      var m' := Member(Flip(m.ty, here), m.dims);
      forall i | 0 <= i < |v.elems| ensures FitsArray(Other(site), m', d + 1, fields, v.elems[i]) {
        ArrayFits(site, at, j, d + 1, fields, v.elems[i]);
      }
    } else if m.ty.Ref? {
      RefLeaf(site.types, m.ty, v);
      RecordFits(site, m.ty.name, v);
      LeafRef(Other(site), m.ty, v);
    } else {
      LeafFits(site, at, j, v);
    }
  }

  lemma RefLeaf(types: Types, ty: MemberType, v: Value)
    requires ty.Ref? && FitsLeaf(types, ty, v)
    ensures FitsRecord(types, ty.name, v) && v.Record?
  {
    hide FitsArray;
  }

  lemma LeafRef(types: Types, ty: MemberType, v: Value)
    requires ty.Ref? && FitsRecord(types, ty.name, v)
    ensures FitsLeaf(types, ty, v)
  {
    hide FitsArray;
  }

  /** With the top bits clear a value of one version is a value of the other. */
  lemma {:induction false} RecordFits(site: Site, at: string, v: Value)
    requires Versions(site) && FitsRecord(site.types, at, v) && ClearRecord(site, at, v)
    ensures FitsRecord(Other(site), at, v)
    decreases v, 0
  {
    OtherNames(site, at);
    hide Versions, FitsArray, ClearArray, Here, Other, Flip;
    forall j | 0 <= j < |v.fields|
      ensures FitsArray(Other(site), Other(site)[at][j], 0, v.fields, v.fields[j])
    {
      OtherMember(site, at, j);
      ArrayFits(site, at, j, 0, v.fields, v.fields[j]);
    }
  }

  /* ---------- what a decoder can return ---------- */

  /** The numbers of the field are numbers of the other version's field. */
  predicate RangedArray(site: Site, ty: MemberType, here: bool, v: Value)
    decreases v, 1
  {
    match v
    case Word(n) => here && ty.BitField? && ty.numBits > 0 ==> InField(n, ty.numBits, !ty.signExtend)
    case List(elems) => forall i | 0 <= i < |elems| :: RangedArray(site, ty, here, elems[i])
    case Record(_) => ty.Ref? ==> RangedRecord(site, ty.name, v)
    case Chars(_) => true
  }

  predicate RangedRecord(site: Site, at: string, v: Value)
    decreases v, 0
  {
    v.Record? && at in site.types && |v.fields| == |site.types[at]| ==>
      forall j | 0 <= j < |v.fields| :: RangedArray(site, site.types[at][j].ty, Here(site, at, j), v.fields[j])
  }

  predicate RangedAll(site: Site, ty: MemberType, here: bool, vs: seq<Value>) {
    forall i | 0 <= i < |vs| :: RangedArray(site, ty, here, vs[i])
  }

  predicate RangedFields(site: Site, at: string, fields: seq<Value>)
    requires at in site.types
  {
    && |fields| <= |site.types[at]|
    && forall j | 0 <= j < |fields| :: RangedArray(site, site.types[at][j].ty, Here(site, at, j), fields[j])
  }

  lemma {:induction false} FreeRanged(site: Site, ty: MemberType, here: bool, v: Value)
    requires !ty.Ref? && !(here && ty.BitField?)
    ensures RangedArray(site, ty, here, v)
    decreases v
  {
    if v.List? {
      forall i | 0 <= i < |v.elems| ensures RangedArray(site, ty, here, v.elems[i]) {
        FreeRanged(site, ty, here, v.elems[i]);
      }
    }
  }

  lemma {:induction false} FieldsInField(bits: seq<bool>, k: nat, n: nat, w: nat, signExtend: bool, st: Storage)
    requires 0 < w < st.width && st.signed && k + Span(n, w) <= |bits|
    ensures forall i | 0 <= i < n :: InField(FieldValues(bits, k, n, w, signExtend, st)[i], w, signExtend)
    decreases n
  {
    hide FieldValue, FieldValues, Span, InField;
    if n > 0 {
      SpanNext(n - 1, w);
      FieldsInField(bits, k, n - 1, w, signExtend, st);
      FieldsNext(bits, k, n - 1, w, signExtend, st);
      var at := k + Span(n - 1, w);
      FieldInField(bits[at..at + w], signExtend, st);
    }
  }

  lemma {:induction false} BatchRanged(site: Site, layout: Layout, ty: MemberType, here: bool, block: Block, depth: nat, buf: seq<Byte>,
                                       limit: nat, pos: nat, count: int, le: bool)
    requires Versions(site) && limit <= |buf| && (here ==> ty == site.types[site.name][site.k].ty)
    ensures var r := DecodeBatch(Other(site), layout, Flip(ty, here), block, depth, buf, limit, pos, count, le);
            r.Got? ==> RangedAll(site, ty, here, r.value)
    decreases depth, 2, 0, 0
  {
    var r := DecodeBatch(Other(site), layout, Flip(ty, here), block, depth, buf, limit, pos, count, le);
    if here {
      BatchHereRanged(site, layout, ty, block, depth, buf, limit, pos, count, le);
    } else if ty.Ref? {
      hide Versions, Other, RangedAll, DecodeRecords, U32;
      RecordsRanged(site, layout, ty.name, block, depth, buf, limit, pos, U32(count), le);
    } else if r.Got? {
      hide *;
      forall i | 0 <= i < |r.value| ensures RangedArray(site, ty, here, r.value[i]) {
        FreeRanged(site, ty, here, r.value[i]);
      }
    }
  }

  lemma BatchHereRanged(site: Site, layout: Layout, ty: MemberType, block: Block, depth: nat, buf: seq<Byte>, limit: nat, pos: nat,
                        count: int, le: bool)
    requires Versions(site) && limit <= |buf| && ty == site.types[site.name][site.k].ty
    ensures var r := DecodeBatch(Other(site), layout, Flip(ty, true), block, depth, buf, limit, pos, count, le);
            r.Got? ==> RangedAll(site, ty, true, r.value)
  {
    Narrow(site);
    hide Versions, U32, Other, ToBits, FieldValues, Span, Mul32, EncodedSize, Holds, StorageOf, InField, RangedRecord;
    if pos + Span(U32(count), ty.numBits) <= 8 * limit {
      FieldsInField(ToBits(buf), pos, U32(count), ty.numBits, !ty.signExtend, StorageOf(ty.prim));
    }
  }

  lemma {:induction false} RecordsRanged(site: Site, layout: Layout, at: string, block: Block, depth: nat, buf: seq<Byte>, limit: nat,
                                         pos: nat, count: nat, le: bool)
    requires Versions(site) && limit <= |buf|
    ensures var r := DecodeRecords(Other(site), layout, at, block, depth, buf, limit, pos, count, le);
            r.Got? ==> RangedAll(site, Ref(at), false, r.value)
    decreases depth, 1, count, 0
  {
    hide Versions, Other, DecodeRecord, Holds, SizeOf, RangedRecord;
    if count > 0 {
      RecordsRanged(site, layout, at, block, depth, buf, limit, pos, count - 1, le);
      var before := DecodeRecords(Other(site), layout, at, block, depth, buf, limit, pos, count - 1, le);
      if before.Got? { RecordRanged(site, layout, at, depth, buf, limit, before.pos, le); }
    }
  }

  lemma {:induction false} RecordRanged(site: Site, layout: Layout, at: string, depth: nat, buf: seq<Byte>, limit: nat, pos: nat, le: bool)
    requires Versions(site) && limit <= |buf|
    ensures var r := DecodeRecord(Other(site), layout, at, depth, buf, limit, pos, le);
            r.Got? ==> r.value.Record? && RangedRecord(site, at, r.value)
    decreases depth, 0, 0, 0
  {
    hide Versions, Other, DecodePrefix, RangedArray, EncodedSize;
    OtherNames(site, at);
    if at in site.types && depth > 0 {
      PrefixRanged(site, layout, at, |site.types[at]|, depth - 1, buf, limit, pos, le);
    }
  }

  lemma {:induction false} PrefixRanged(site: Site, layout: Layout, at: string, n: nat, depth: nat, buf: seq<Byte>, limit: nat, pos: nat,
                                        le: bool)
    requires Versions(site) && limit <= |buf| && at in site.types && at in Other(site) && n <= |site.types[at]| == |Other(site)[at]|
    ensures var r := DecodePrefix(Other(site), layout, Other(site)[at], n, depth, buf, limit, pos, le);
            r.Got? ==> RangedFields(site, at, r.value)
    decreases depth, 4, n, 0
  {
    hide Versions, Other, DecodePrefix, DecodeDims, MemberStart, RangedArray;
    if n == 0 {
      NoneRead(Other(site), layout, Other(site)[at], depth, buf, limit, pos, le);
    } else {
      var j := n - 1;
      PrefixRanged(site, layout, at, j, depth, buf, limit, pos, le);
      OneMoreRead(Other(site), layout, Other(site)[at], j, depth, buf, limit, pos, le);
      OtherMember(site, at, j);
      var before := DecodePrefix(Other(site), layout, Other(site)[at], j, depth, buf, limit, pos, le);
      if before.Got? {
        DimsRanged(site, layout, at, j, 0, before.value, depth, buf, limit, MemberStart(Other(site)[at][j].ty, before.pos), le);
      }
    }
  }

  lemma {:induction false} DimsRanged(site: Site, layout: Layout, at: string, j: nat, d: nat, fields: seq<Value>, depth: nat,
                                      buf: seq<Byte>, limit: nat, pos: nat, le: bool)
    requires Versions(site) && limit <= |buf| && at in site.types && at in Other(site) && j < |site.types[at]| == |Other(site)[at]|
    requires d < |Other(site)[at][j].dims| || d == |Other(site)[at][j].dims| == 0
    ensures var r := DecodeDims(Other(site), layout, Other(site)[at][j], d, fields, depth, buf, limit, pos, le);
            r.Got? ==> RangedArray(site, site.types[at][j].ty, Here(site, at, j), r.value)
    decreases depth, 3, |Other(site)[at][j].dims| - d, 2
  {
    var m, here := Other(site)[at][j], Here(site, at, j);
    var ty := site.types[at][j].ty;
    OtherMember(site, at, j);
    hide Versions, Other, DecodeBatch, DecodeOuter, BlockAt, Count, Turns, RangedRecord;
    if d + 1 < |m.dims| {
      OuterRanged(site, layout, at, j, d, fields, Turns(Count(m.dims[d], fields)), depth, buf, limit, pos, le);
    } else if |m.dims| == 0 {
      BatchRanged(site, layout, ty, here, Inline, depth, buf, limit, pos, 1, le);
    } else {
      var block := BlockAt(Other(site), layout, m, d, fields);
      BatchRanged(site, layout, ty, here, block, depth, buf, limit, pos, Count(m.dims[d], fields), le);
    }
  }

  lemma {:induction false} OuterRanged(site: Site, layout: Layout, at: string, j: nat, d: nat, fields: seq<Value>, count: nat, depth: nat,
                                       buf: seq<Byte>, limit: nat, pos: nat, le: bool)
    requires Versions(site) && limit <= |buf| && at in site.types && at in Other(site) && j < |site.types[at]| == |Other(site)[at]|
    requires d + 1 < |Other(site)[at][j].dims|
    ensures var r := DecodeOuter(Other(site), layout, Other(site)[at][j], d, fields, depth, buf, limit, pos, count, le);
            r.Got? ==> RangedAll(site, site.types[at][j].ty, Here(site, at, j), r.value)
    decreases depth, 3, |Other(site)[at][j].dims| - d, 1, count
  {
    hide Versions, Other, DecodeDims, BlockAt, Holds, RangedArray;
    if count > 0 {
      OuterRanged(site, layout, at, j, d, fields, count - 1, depth, buf, limit, pos, le);
      var before := DecodeOuter(Other(site), layout, Other(site)[at][j], d, fields, depth, buf, limit, pos, count - 1, le);
      if before.Got? { DimsRanged(site, layout, at, j, d + 1, fields, depth, buf, limit, before.pos, le); }
    }
  }

  lemma {:induction false} ArrayClear(site: Site, at: string, j: nat, d: nat, fields: seq<Value>, v: Value)
    requires Versions(site) && at in site.types && j < |site.types[at]| && d <= |site.types[at][j].dims|
    requires FitsArray(site.types, site.types[at][j], d, fields, v)
    requires RangedArray(site, site.types[at][j].ty, Here(site, at, j), v)
    ensures ClearArray(site, site.types[at][j].ty, Here(site, at, j), v)
    decreases v, 1
  {
    hide Versions, FitsRecord, ClearRecord, RangedRecord, InField, InType, TopBit, Count;
    var m, here := site.types[at][j], Here(site, at, j);
    if d < |m.dims| {
      forall i | 0 <= i < |v.elems| ensures ClearArray(site, m.ty, here, v.elems[i]) {
        ArrayClear(site, at, j, d + 1, fields, v.elems[i]);
      }
    } else if m.ty.Ref? {
      RefLeaf(site.types, m.ty, v);
      RecordClear(site, m.ty.name, v);
    } else if v.Word? && here && m.ty.BitField? {
      WordSame(site, m.ty, v.n);
    }
  }

  /** A value of both versions has its top bits clear. */
  lemma {:induction false} RecordClear(site: Site, at: string, v: Value)
    requires Versions(site) && FitsRecord(site.types, at, v) && RangedRecord(site, at, v)
    ensures ClearRecord(site, at, v)
    decreases v, 0
  {
    hide Versions, FitsArray, ClearArray, RangedArray, Here;
    forall j | 0 <= j < |v.fields|
      ensures ClearArray(site, site.types[at][j].ty, Here(site, at, j), v.fields[j])
    {
      ArrayClear(site, at, j, 0, v.fields, v.fields[j]);
    }
  }

  /** The message of a value under one version: the other one reads that value exactly when the top bit
      of the field is clear wherever the value holds it, whether the field counts arrays or not. */
  lemma OtherVersionAgrees(site: Site, texts: Spellings, opts: TypeHash.HashOptions, root: string, v: Value, layout: Layout, depth: nat,
                           buf: seq<Byte>, offset: nat, maxlen: nat, le: bool)
    requires Versions(site) && Spelled(site.types, texts) && root in site.types && offset + maxlen <= |buf|
    requires FitsRecord(site.types, root, v) && AllocRecord(site.types, layout, root, v) && Depth(v) <= depth
    requires 64 + |RecordBits(site.types, root, le, v)| <= 8 * INT_MAX
    requires At(buf, offset + maxlen, 8 * offset,
                MessageBits(site.types, root, WireHash(site.types, texts, opts, root), le, v))
    ensures Spelled(Other(site), texts) && root in Other(site)
    ensures var r := DecodeMessage(Other(site), layout, root, WireHash(Other(site), texts, opts, root), depth, buf, offset, maxlen, le);
            var end := 8 * offset + 64 + |RecordBits(site.types, root, le, v)|;
            && (r == Got(v, end) <==> ClearRecord(site, root, v))
            && (NotCounting(site) ==> r == Got(RereadRecord(site, root, v), end))
  {
    hide LegalTypes, WireHash, DecodeMessage, FitsRecord, AllocRecord, RecordBits, At, RereadRecord, ClearRecord, NotCounting, Spelled,
         InType, Depth, ToBits, BeBytes, Other, RangedRecord;
    var hash := WireHash(site.types, texts, opts, root);
    SameHash(site, texts, opts, root);
    RecordBitsSame(site, root, le, v);
    AllocRecordSame(site, layout, root, v);
    RoundTrip(site.types, layout, root, hash, v, depth, buf, offset, maxlen, le);
    if NotCounting(site) { MessageReread(site, root, hash, layout, depth, buf, offset, maxlen, le); }
    MessageRanged(site, root, hash, layout, depth, buf, offset, maxlen, le);
    if ClearRecord(site, root, v) {
      RecordFits(site, root, v);
      RoundTrip(Other(site), layout, root, hash, v, depth, buf, offset, maxlen, le);
    } else if RangedRecord(site, root, v) {
      RecordClear(site, root, v);
    }
  }

  lemma MessageRanged(site: Site, root: string, hash: int, layout: Layout, depth: nat, buf: seq<Byte>, offset: nat, maxlen: nat, le: bool)
    requires Versions(site) && offset + maxlen <= |buf|
    ensures var r := DecodeMessage(Other(site), layout, root, hash, depth, buf, offset, maxlen, le);
            r.Got? ==> RangedRecord(site, root, r.value)
  {
    hide Versions, BytesNum, ToType, DecodeRecord, RangedRecord, Other;
    if maxlen >= 8 { RecordRanged(site, layout, root, depth, buf, offset + maxlen, 8 * offset + 64, le); }
  }

  /* ---------- inputs ---------- */

  /** struct S { int8_t:4 f; } with an unsigned field. */
  function FourBits(): Types {
    map["S" := [Member(BitField(Int8, 4, false), [])]]
  }

  /** The number 15 in four bits is read as -1. */
  lemma Fifteen(ty: MemberType, n: int)
    requires ty == BitField(Int8, 4, false) && n == 15
    ensures InField(n, ty.numBits, false) && InType(n, StorageOf(Int8)) && Reread(ty, n) == -1
  {
    Pow2Byte();
    FieldReading(n, 4);
    LowSmall(n, 4);
    ToTypeFits(-1, Storage(8, true));
  }

  /** Its message, written by the version without sign extension, is one that the other version takes
      and reads as -1. */
  lemma ReadAsMinusOne(site: Site, texts: Spellings, opts: TypeHash.HashOptions, v: Value, layout: Layout, depth: nat, buf: seq<Byte>,
                       offset: nat, maxlen: nat, le: bool)
    requires site == Site(FourBits(), "S", 0) && v == Record([Word(15)]) && depth > 0
    requires LegalTypes(site.types) && Spelled(site.types, texts) && offset + maxlen <= |buf|
    requires At(buf, offset + maxlen, 8 * offset, MessageBits(site.types, "S", WireHash(site.types, texts, opts, "S"), le, v))
    ensures Versions(site) && NotCounting(site) && FitsRecord(site.types, "S", v) && Spelled(Other(site), texts)
    ensures DecodeMessage(Other(site), layout, "S", WireHash(Other(site), texts, opts, "S"), depth, buf, offset, maxlen, le)
            == Got(Record([Word(-1)]), 8 * offset + 72)
  {
    hide WireHash, DecodeMessage, At, Spelled, RecordBits, FitsRecord, AllocRecord, RereadRecord, ClearRecord, Depth, LegalTypes;
    FourBitsSite(site);
    FourBitsValue(site, v, layout, le);
    OtherVersionAgrees(site, texts, opts, "S", v, layout, depth, buf, offset, maxlen, le);
  }

  lemma FourBitsSite(site: Site)
    requires site == Site(FourBits(), "S", 0)
    ensures Versions(site) && NotCounting(site)
  {
  }

  lemma FourBitsValue(site: Site, v: Value, layout: Layout, le: bool)
    requires site == Site(FourBits(), "S", 0) && v == Record([Word(15)])
    ensures FitsRecord(site.types, "S", v) && AllocRecord(site.types, layout, "S", v) && Depth(v) == 1
    ensures |RecordBits(site.types, "S", le, v)| == 8 && RereadRecord(site, "S", v) == Record([Word(-1)])
  {
    hide InType, InField, Reread, Bits, PrefixBits, ArrayBits;
    var m := site.types["S"][0];
    Fifteen(m.ty, 15);
    assert FitsArray(site.types, m, 0, v.fields, v.fields[0]);
    assert AllocArray(site.types, layout, m, 0, v.fields[0]);
    PrefixNone(site.types, site.types["S"], le, v.fields);
    PrefixNext(site.types, site.types["S"], 0, le, v.fields);
    LeafAlone(site.types, m.ty, le, v.fields[0]);
    assert v.fields[..0] == [];
  }

  /** struct S { int8_t:4 n; int8_t a[n]; } with an unsigned count. */
  function CountedByField(): Types {
    map["S" := [Member(BitField(Int8, 4, false), []), Member(Plain(Int8), [Counted(0)])]]
  }

  /** The count 15 is read as -1, which asks for 2^32 - 1 bytes. */
  lemma MinusOneTooLong(types: Types, layout: Layout, block: Block, depth: nat, count: int, buf: seq<Byte>, limit: nat, pos: nat, le: bool)
    requires count == -1 && limit <= |buf| && limit < 0xFFFF_FFFF
    ensures DecodeBatch(types, layout, Plain(Int8), block, depth, buf, limit, pos, count, le) == Short
  {
    hide Span, Mul32, Holds;
    SpanProduct(U32(count), 1);
  }

  lemma CountedSite(site: Site)
    requires site == Site(CountedByField(), "S", 0)
    ensures Versions(site) && !NotCounting(site)
  {
    assert site.types["S"][1].dims[0] == Counted(site.k);
  }

  /** A record with fifteen elements, as one version writes it, is refused by the other. */
  lemma CountRefused(site: Site, texts: Spellings, opts: TypeHash.HashOptions, vs: seq<Value>, layout: Layout, depth: nat, buf: seq<Byte>,
                     offset: nat, maxlen: nat, le: bool)
    requires site == Site(CountedByField(), "S", 0) && FitsRecord(site.types, "S", Record([Word(15), List(vs)])) && |vs| == 15
    requires LegalTypes(site.types) && Spelled(site.types, texts) && depth > 0 && offset + maxlen <= |buf| && offset + maxlen < 0xFFFF_FFFF
    requires At(buf, offset + maxlen, 8 * offset,
                MessageBits(site.types, "S", WireHash(site.types, texts, opts, "S"), le, Record([Word(15), List(vs)])))
    ensures Versions(site) && !NotCounting(site) && Spelled(Other(site), texts)
    ensures DecodeMessage(Other(site), layout, "S", WireHash(Other(site), texts, opts, "S"), depth, buf, offset, maxlen, le) == Short
  {
    hide WireHash, At, Spelled, FitsRecord, LegalTypes, DecodeRecord, BytesNum, ToType, RecordBits, ToBits, BeBytes, InType, Other;
    var v, pos := Record([Word(15), List(vs)]), 8 * offset + 64;
    CountedSite(site);
    SameHash(site, texts, opts, "S");
    var hash := WireHash(site.types, texts, opts, "S");
    AtSplit(buf, offset + maxlen, 8 * offset, ToBits(BeBytes(hash, 8)), RecordBits(site.types, "S", le, v));
    CountShort(site, v, layout, depth, buf, offset + maxlen, pos, le);
  }

  lemma CountShort(site: Site, v: Value, layout: Layout, depth: nat, buf: seq<Byte>, limit: nat, pos: nat, le: bool)
    requires site == Site(CountedByField(), "S", 0) && Versions(site) && depth > 0 && limit < 0xFFFF_FFFF
    requires v.Record? && |v.fields| == 2 && v.fields[0] == Word(15) && v.fields[1].List?
    requires pos % 8 == 0 && At(buf, limit, pos, RecordBits(site.types, "S", le, v))
    ensures DecodeRecord(Other(site), layout, "S", depth, buf, limit, pos, le) == Short
  {
    hide At, Versions, DecodePrefix, RecordBits, Reread, FitsLeaf, CountedByField, Bits, DecodeBatch, DecodeRecord, Other, Flip;
    CountedMembers(site);
    var ty := site.types["S"][0].ty;
    FirstBits(site.types, v, ty.numBits, le);
    var bits := RecordBits(site.types, "S", le, v);
    AtSplit(buf, limit, pos, Bits(15, ty.numBits), bits[ty.numBits..]);
    assert FitsLeaf(site.types, ty, Word(15)) by { FifteenFits(site.types, ty); }
    OneField(site, ty, 15, layout, depth - 1, buf, limit, pos, le);
    Fifteen(ty, 15);
    PrefixShort(Other(site), Other(site)["S"], Reread(ty, 15), layout, depth - 1, buf, limit, pos, pos + ty.numBits, le);
    RecordShort(Other(site), "S", layout, depth, buf, limit, pos, le);
  }

  lemma RecordShort(types: Types, name: string, layout: Layout, depth: nat, buf: seq<Byte>, limit: nat, pos: nat, le: bool)
    requires limit <= |buf| && depth > 0 && name in types
    requires DecodePrefix(types, layout, types[name], |types[name]|, depth - 1, buf, limit, pos, le) == Short
    ensures DecodeRecord(types, layout, name, depth, buf, limit, pos, le) == Short
  {
    hide DecodePrefix;
  }

  lemma CountedMembers(site: Site)
    requires site == Site(CountedByField(), "S", 0)
    ensures "S" in site.types && "S" in Other(site) && |site.types["S"]| == 2
    ensures site.types["S"][0] == Member(BitField(Int8, 4, false), [])
    ensures Flip(site.types["S"][0].ty, true) == BitField(Int8, 4, true)
    ensures Other(site)["S"] == [Member(BitField(Int8, 4, true), []), Member(Plain(Int8), [Counted(0)])]
  {
  }

  lemma FifteenFits(types: Types, ty: MemberType)
    requires ty == BitField(Int8, 4, false)
    ensures FitsLeaf(types, ty, Word(15))
  {
    hide InType, InField;
    Fifteen(ty, 15);
  }

  /** A record fails with its second member, an array counted by the first. */
  lemma PrefixShort(types: Types, members: seq<Member>, count: int, layout: Layout, depth: nat, buf: seq<Byte>, limit: nat, pos: nat,
                    end: nat, le: bool)
    requires members == [Member(BitField(Int8, 4, true), []), Member(Plain(Int8), [Counted(0)])] && count == -1
    requires limit <= |buf| && limit < 0xFFFF_FFFF
    requires DecodeBatch(types, layout, members[0].ty, Inline, depth, buf, limit, pos, 1, le) == Got([Word(count)], end)
    ensures DecodePrefix(types, layout, members, 2, depth, buf, limit, pos, le) == Short
  {
    hide DecodePrefix, DecodeBatch, BlockAt, MemberStart;
    NoneRead(types, layout, members, depth, buf, limit, pos, le);
    OneMoreRead(types, layout, members, 0, depth, buf, limit, pos, le);
    OneMoreRead(types, layout, members, 1, depth, buf, limit, pos, le);
    BitsStart(members[0].ty, pos);
    var block, start := BlockAt(types, layout, members[1], 0, [Word(count)]), MemberStart(members[1].ty, end);
    MinusOneTooLong(types, layout, block, depth, count, buf, limit, start, le);
    assert [] + [Word(count)] == [Word(count)];
  }

  lemma BitsStart(ty: MemberType, pos: nat)
    requires ty.BitField?
    ensures MemberStart(ty, pos) == pos
  {
  }

  lemma FirstBits(types: Types, v: Value, n: nat, le: bool)
    requires types == CountedByField() && v.Record? && |v.fields| == 2 && v.fields[0] == Word(15) && v.fields[1].List? && n == 4
    ensures var bits := RecordBits(types, "S", le, v); |bits| >= n && bits == Bits(15, n) + bits[n..]
  {
    hide PrefixBits, ArrayBits, Bits;
    var members := types["S"];
    PrefixNone(types, members, le, v.fields);
    PrefixNext(types, members, 0, le, v.fields);
    PrefixNext(types, members, 1, le, v.fields);
    LeafAlone(types, members[0].ty, le, v.fields[0]);
  }

  /** A field on its own, as the other version reads it. */
  lemma OneField(site: Site, ty: MemberType, n: int, layout: Layout, depth: nat, buf: seq<Byte>, limit: nat, pos: nat, le: bool)
    requires Versions(site) && ty == site.types[site.name][site.k].ty && FitsLeaf(site.types, ty, Word(n))
    requires At(buf, limit, pos, Bits(n, ty.numBits))
    ensures limit <= |buf|
    ensures DecodeBatch(Other(site), layout, Flip(ty, true), Inline, depth, buf, limit, pos, 1, le)
            == Got([Word(Reread(ty, n))], pos + ty.numBits)
  {
    hide At, Versions, DecodeBatch, FitsLeaf, Reread, ManyBits, ArrayBits, LegalType, Countable, Holds, Other, Bits, LegalTypes;
    SiteLegal(site);
    AtInside(buf, limit, pos, Bits(n, ty.numBits));
    CountableOne(site.types, ty);
    ManyOne(site.types, ty, 0, le, Word(n));
    LeafAlone(site.types, ty, le, Word(n));
    HoldsInline(1, NumBytes(ty.prim));
    FieldBack(site.types, layout, ty, Inline, [Word(n)], depth, buf, limit, pos, le);
    BatchHere(site, layout, ty, Inline, depth, buf, limit, pos, 1, le);
    assert RereadAll(site, ty, true, [Word(n)]) == [Word(Reread(ty, n))];
  }

  lemma SiteLegal(site: Site)
    requires Versions(site)
    ensures site.types[site.name][site.k].ty.BitField? && LegalType(site.types[site.name][site.k].ty, site.types)
  {
    assert LegalStruct(site.types[site.name], site.types);
  }
}
