/** Message schemas as the zcm-gen parser accepts them, the values they describe, and the wire
    format: one bit sequence per value. */
module Schema {
  import opened Binary
  import opened BitPacker
  import opened PrimArrays

  datatype Prim = Byte8 | Boolean | Int8 | Int16 | Int32 | Int64 | Float | Double

  /** C storage of a primitive; floating point numbers are carried as words. */
  function StorageOf(p: Prim): (ty: Storage)
    ensures ty.width in {8, 16, 32, 64}
  {
    match p
    case Byte8 => Storage(8, false)
    case Boolean => Storage(8, true)
    case Int8 => Storage(8, true)
    case Int16 => Storage(16, true)
    case Int32 => Storage(32, true)
    case Int64 => Storage(64, true)
    case Float => Storage(32, false)
    case Double => Storage(64, false)
  }

  function NumBytes(p: Prim): nat {
    StorageOf(p).width / 8
  }

  datatype MemberType = Plain(prim: Prim) | BitField(prim: Prim, numBits: nat, signExtend: bool) | Text | Ref(name: string)

  /** A dimension is a constant or names an earlier member of the struct. */
  datatype Dim = Fixed(n: nat) | Counted(member: nat)

  datatype Member = Member(ty: MemberType, dims: seq<Dim>)

  /** Types may refer to each other and to themselves. */
  type Types = map<string, seq<Member>>

  /** The parser's checks on a member's type. */
  predicate LegalType(ty: MemberType, types: Types) {
    match ty
    case Plain(_) => true
    case Text => true
    case Ref(name) => name in types
    case BitField(prim, numBits, signExtend) =>
      && prim in {Byte8, Int8, Int16, Int32, Int64}
      && 0 < numBits <= StorageOf(prim).width
      && (prim == Byte8 ==> !signExtend)
      && (prim != Byte8 && numBits == StorageOf(prim).width ==> signExtend)
  }

  /** The parser's checks on a dimension of member k. */
  predicate LegalDim(dim: Dim, members: seq<Member>, k: nat) {
    match dim
    case Fixed(_) => true
    case Counted(j) =>
      && j < k <= |members|
      && members[j].dims == []
      && (members[j].ty.Plain? || members[j].ty.BitField?)
      && members[j].ty.prim in {Int8, Int16, Int32, Int64}
  }

  predicate LegalStruct(members: seq<Member>, types: Types) {
    forall k | 0 <= k < |members| ::
      LegalType(members[k].ty, types)
      && forall d | 0 <= d < |members[k].dims| :: LegalDim(members[k].dims[d], members, k)
  }

  predicate LegalTypes(types: Types) {
    forall name | name in types :: LegalStruct(types[name], types)
  }

  /* ---------- values ---------- */

  datatype Value = Word(n: int) | Chars(s: seq<Byte>) | List(elems: seq<Value>) | Record(fields: seq<Value>)

  /** The length of a dimension in a record with the given fields. */
  function Count(dim: Dim, fields: seq<Value>): int {
    match dim
    case Fixed(n) => n
    case Counted(j) => if j < |fields| && fields[j].Word? then fields[j].n else 0
  }

  /** v is an element of a member of type ty. */
  predicate FitsLeaf(types: Types, ty: MemberType, v: Value)
    decreases v, 1
  {
    match ty
    case Plain(p) => v.Word? && InType(v.n, StorageOf(p))
    case BitField(p, numBits, signExtend) =>
      v.Word? && numBits > 0 && InField(v.n, numBits, signExtend) && InType(v.n, StorageOf(p))
    case Text => v.Chars? && 0 !in v.s
    case Ref(name) => FitsRecord(types, name, v)
  }

  /** What the C types of the array codecs and of the emitted loops can count: the number of elements,
      and for bit fields also the number of bits, is an int. */
  predicate Countable(ty: MemberType, count: nat) {
    count <= INT_MAX && (ty.BitField? ==> Span(count, ty.numBits) <= INT_MAX)
  }

  /** The elements behind the last dimension of a member. */
  predicate FitsBatch(types: Types, ty: MemberType, vs: seq<Value>) {
    Countable(ty, |vs|) && forall i | 0 <= i < |vs| :: FitsLeaf(types, ty, vs[i])
  }

  /** v is a member's value from dimension d inwards. */
  predicate FitsArray(types: Types, m: Member, d: nat, fields: seq<Value>, v: Value)
    requires d <= |m.dims|
    decreases v, 2
  {
    if d == |m.dims| then FitsLeaf(types, m.ty, v)
    else v.List? && |v.elems| == Count(m.dims[d], fields) && |v.elems| <= INT_MAX
         && (d + 1 == |m.dims| ==> Countable(m.ty, |v.elems|))
         && forall i | 0 <= i < |v.elems| :: FitsArray(types, m, d + 1, fields, v.elems[i])
  }

  predicate FitsRecord(types: Types, name: string, v: Value)
    decreases v, 0
  {
    && v.Record? && name in types && |v.fields| == |types[name]|
    && forall k | 0 <= k < |v.fields| :: FitsArray(types, types[name][k], 0, v.fields, v.fields[k])
  }

  /* ---------- wire format ---------- */

  /** One element. */
  function LeafBits(types: Types, ty: MemberType, le: bool, v: Value): seq<bool>
    decreases v, 1
  {
    match ty
    case Plain(p) => if v.Word? then ToBits(WordBytes(v.n, NumBytes(p), le)) else []
    case BitField(_, numBits, _) => if v.Word? then Bits(v.n, numBits) else []
    case Text => if v.Chars? then ToBits(TextBytes(v.s, le)) else []
    case Ref(name) => RecordBits(types, name, le, v)
  }

  /** An array with n dimensions to go, element after element. */
  function ArrayBits(types: Types, ty: MemberType, n: nat, le: bool, v: Value): seq<bool>
    decreases v, 2
  {
    if n == 0 then LeafBits(types, ty, le, v)
    else if v.List? then ManyBits(types, ty, n - 1, le, v.elems)
    else []
  }

  function ManyBits(types: Types, ty: MemberType, n: nat, le: bool, vs: seq<Value>): seq<bool>
    decreases vs, 3
  {
    if vs == [] then []
    else ManyBits(types, ty, n, le, vs[..|vs| - 1]) + ArrayBits(types, ty, n, le, vs[|vs| - 1])
  }

  /** The first k members. Bit fields follow each other bit by bit; anything else starts on a byte. */
  function PrefixBits(types: Types, members: seq<Member>, k: nat, le: bool, fields: seq<Value>): seq<bool>
    requires k <= |members| && k <= |fields|
    decreases fields, k
  {
    if k == 0 then []
    else
      var m := members[k - 1];
      Aligned(m.ty, PrefixBits(types, members, k - 1, le, fields))
      + ArrayBits(types, m.ty, |m.dims|, le, fields[k - 1])
  }

  function Aligned(ty: MemberType, bits: seq<bool>): seq<bool> {
    if ty.BitField? then bits else Align(bits)
  }

  /** A record: its members, padded to a whole number of bytes. */
  function RecordBits(types: Types, name: string, le: bool, v: Value): (bits: seq<bool>)
    ensures |bits| % 8 == 0
    decreases v, 0
  {
    if v.Record? && name in types && |v.fields| == |types[name]| then
      Align(PrefixBits(types, types[name], |types[name]|, le, v.fields))
    else []
  }

  /** Everything but a bit field is a whole number of bytes. */
  lemma {:induction false} WholeBytes(types: Types, ty: MemberType, n: nat, le: bool, v: Value)
    requires !ty.BitField?
    ensures |ArrayBits(types, ty, n, le, v)| % 8 == 0
    decreases v, 2
  {
    if n == 0 {
      LeafWholeBytes(types, ty, le, v);
    } else if v.List? {
      ManyWholeBytes(types, ty, n - 1, le, v.elems);
    }
  }

  lemma LeafWholeBytes(types: Types, ty: MemberType, le: bool, v: Value)
    requires !ty.BitField?
    ensures |LeafBits(types, ty, le, v)| % 8 == 0
  {
    hide WordBytes, TextBytes;
  }

  lemma {:induction false} ManyWholeBytes(types: Types, ty: MemberType, n: nat, le: bool, vs: seq<Value>)
    requires !ty.BitField?
    ensures |ManyBits(types, ty, n, le, vs)| % 8 == 0
    decreases vs, 3
  {
    if vs != [] {
      ManyWholeBytes(types, ty, n, le, vs[..|vs| - 1]);
      WholeBytes(types, ty, n, le, vs[|vs| - 1]);
    }
  }

  lemma PrefixNone(types: Types, members: seq<Member>, le: bool, fields: seq<Value>)
    ensures PrefixBits(types, members, 0, le, fields) == []
  {
  }

  lemma PrefixNext(types: Types, members: seq<Member>, k: nat, le: bool, fields: seq<Value>)
    requires k < |members| && k < |fields|
    ensures PrefixBits(types, members, k + 1, le, fields)
            == Aligned(members[k].ty, PrefixBits(types, members, k, le, fields))
               + ArrayBits(types, members[k].ty, |members[k].dims|, le, fields[k])
  {
  }

  lemma AlignedLonger(ty: MemberType, bits: seq<bool>)
    ensures |bits| <= |Aligned(ty, bits)|
  {
  }

  lemma {:induction false} PrefixMono(types: Types, members: seq<Member>, j: nat, k: nat, le: bool, fields: seq<Value>)
    requires j <= k <= |members| && k <= |fields|
    ensures |PrefixBits(types, members, j, le, fields)| <= |PrefixBits(types, members, k, le, fields)|
    decreases k
  {
    hide ArrayBits, Aligned;
    if j < k {
      PrefixMono(types, members, j, k - 1, le, fields);
      AlignedLonger(members[k - 1].ty, PrefixBits(types, members, k - 1, le, fields));
    }
  }

  lemma ManyNext(types: Types, ty: MemberType, n: nat, le: bool, vs: seq<Value>, i: nat)
    requires i < |vs|
    ensures ManyBits(types, ty, n, le, vs[..i + 1])
            == ManyBits(types, ty, n, le, vs[..i]) + ArrayBits(types, ty, n, le, vs[i])
  {
    assert vs[..i + 1][..i] == vs[..i];
  }

  lemma {:induction false} ManyMono(types: Types, ty: MemberType, n: nat, le: bool, vs: seq<Value>, i: nat)
    requires i <= |vs|
    ensures |ManyBits(types, ty, n, le, vs[..i])| <= |ManyBits(types, ty, n, le, vs)|
    decreases |vs| - i
  {
    if i == |vs| {
      assert vs[..i] == vs;
    } else {
      ManyNext(types, ty, n, le, vs, i);
      ManyMono(types, ty, n, le, vs, i + 1);
    }
  }

  lemma ManyNone(types: Types, ty: MemberType, n: nat, le: bool)
    ensures ManyBits(types, ty, n, le, []) == []
  {
  }

  lemma ManyOne(types: Types, ty: MemberType, n: nat, le: bool, v: Value)
    ensures ManyBits(types, ty, n, le, [v]) == ArrayBits(types, ty, n, le, v)
  {
    assert [v][..0] == [];
  }

  /* ---------- runs of bit fields ---------- */

  /** Bits of a bit-field array with n dimensions to go. */
  function FieldBits(numBits: nat, n: nat, v: Value): nat
    decreases v, 1
  {
    if n == 0 then numBits else if v.List? then FieldBitsAll(numBits, n - 1, v.elems) else 0
  }

  function FieldBitsAll(numBits: nat, n: nat, vs: seq<Value>): nat
    decreases vs, 2
  {
    if vs == [] then 0 else FieldBitsAll(numBits, n, vs[..|vs| - 1]) + FieldBits(numBits, n, vs[|vs| - 1])
  }

  /** Bits of the run of bit fields that ends with member k. */
  function RunBits(members: seq<Member>, k: nat, fields: seq<Value>): nat
    requires k <= |members| && k <= |fields|
    decreases k
  {
    if k == 0 || !members[k - 1].ty.BitField? then 0
    else RunBits(members, k - 1, fields) + FieldBits(members[k - 1].ty.numBits, |members[k - 1].dims|, fields[k - 1])
  }

  /** Every run of bit fields of a record and of the records in it has a bit count that fits uint32_t. */
  predicate RunsFit(types: Types, name: string, v: Value)
    decreases v, 0
  {
    v.Record? && name in types && |v.fields| == |types[name]| ==>
      && (forall k | 0 <= k < |v.fields| :: RunBefore(types[name], k, v.fields) && RunsFitIn(types, types[name][k].ty, v.fields[k]))
      && RunBits(types[name], |v.fields|, v.fields) < 0x1_0000_0000
  }

  /** The run that member k puts an end to, if it does. */
  predicate RunBefore(members: seq<Member>, k: nat, fields: seq<Value>)
    requires k < |members| && k < |fields|
  {
    !members[k].ty.BitField? ==> RunBits(members, k, fields) < 0x1_0000_0000
  }

  predicate RunsFitIn(types: Types, ty: MemberType, v: Value)
    decreases v, 1
  {
    ty.Ref? ==>
      match v
      case Record(_) => RunsFit(types, ty.name, v)
      case List(elems) => forall i | 0 <= i < |elems| :: RunsFitIn(types, ty, elems[i])
      case _ => true
  }

  lemma {:induction false} FieldBitsLength(types: Types, m: Member, d: nat, fields: seq<Value>, v: Value, le: bool)
    requires m.ty.BitField? && d <= |m.dims| && FitsArray(types, m, d, fields, v)
    ensures |ArrayBits(types, m.ty, |m.dims| - d, le, v)| == FieldBits(m.ty.numBits, |m.dims| - d, v)
    decreases v, 1
  {
    if d == |m.dims| {
      LeafAlone(types, m.ty, le, v);
    } else {
      FieldBitsAllLength(types, m, d + 1, fields, v, |v.elems|, le);
      assert v.elems[..|v.elems|] == v.elems;
    }
  }

  lemma {:induction false} FieldBitsAllLength(types: Types, m: Member, d: nat, fields: seq<Value>, v: Value, n: nat, le: bool)
    requires m.ty.BitField? && 0 < d <= |m.dims| && FitsArray(types, m, d - 1, fields, v) && n <= |v.elems|
    ensures |ManyBits(types, m.ty, |m.dims| - d, le, v.elems[..n])| == FieldBitsAll(m.ty.numBits, |m.dims| - d, v.elems[..n])
    decreases v, 0, n
  {
    if n > 0 {
      FieldBitsAllLength(types, m, d, fields, v, n - 1, le);
      FieldBitsLength(types, m, d, fields, v.elems[n - 1], le);
      assert v.elems[..n][..n - 1] == v.elems[..n - 1];
    }
  }

  /* ---------- batches of elements ---------- */

  lemma CountableOne(types: Types, ty: MemberType)
    requires LegalType(ty, types)
    ensures Countable(ty, 1)
  {
    if ty.BitField? { SpanNext(0, ty.numBits); }
  }

  predicate AllWords(vs: seq<Value>) {
    forall i | 0 <= i < |vs| :: vs[i].Word?
  }

  predicate AllChars(vs: seq<Value>) {
    forall i | 0 <= i < |vs| :: vs[i].Chars?
  }

  function Words(vs: seq<Value>): (p: seq<int>)
    requires AllWords(vs)
    ensures |p| == |vs|
  {
    seq(|vs|, i requires 0 <= i < |vs| => vs[i].n)
  }

  function Strings(vs: seq<Value>): (ss: seq<seq<Byte>>)
    requires AllChars(vs)
    ensures |ss| == |vs|
  {
    seq(|vs|, i requires 0 <= i < |vs| => vs[i].s)
  }

  lemma LeafAlone(types: Types, ty: MemberType, le: bool, v: Value)
    ensures ArrayBits(types, ty, 0, le, v) == LeafBits(types, ty, le, v)
    ensures ty.Plain? && v.Word? ==> LeafBits(types, ty, le, v) == ToBits(WordBytes(v.n, NumBytes(ty.prim), le))
    ensures ty.BitField? && v.Word? ==> LeafBits(types, ty, le, v) == Bits(v.n, ty.numBits)
    ensures ty.Text? && v.Chars? ==> LeafBits(types, ty, le, v) == ToBits(TextBytes(v.s, le))
  {
  }

  lemma RecordAlone(types: Types, name: string, le: bool, v: Value)
    ensures ArrayBits(types, Ref(name), 0, le, v) == RecordBits(types, name, le, v)
  {
    LeafAlone(types, Ref(name), le, v);
  }

  /** An array of primitives on the wire is what the primitive's array codec writes. */
  lemma {:induction false} PlainBatch(types: Types, p: Prim, le: bool, vs: seq<Value>)
    requires AllWords(vs)
    ensures ManyBits(types, Plain(p), 0, le, vs) == ToBits(ArrayBytes(Words(vs), NumBytes(p), le))
  {
    if vs != [] {
      var n := |vs| - 1;
      PlainBatch(types, p, le, vs[..n]);
      assert Words(vs)[..n] == Words(vs[..n]);
      LeafAlone(types, Plain(p), le, vs[n]);
      ToBitsConcat(ArrayBytes(Words(vs[..n]), NumBytes(p), le), WordBytes(vs[n].n, NumBytes(p), le));
    }
  }

  lemma {:induction false} FieldBatch(types: Types, ty: MemberType, le: bool, vs: seq<Value>)
    requires ty.BitField? && AllWords(vs)
    ensures ManyBits(types, ty, 0, le, vs) == ElemBits(Words(vs), ty.numBits)
  {
    if vs != [] {
      var n := |vs| - 1;
      FieldBatch(types, ty, le, vs[..n]);
      LeafAlone(types, ty, le, vs[n]);
      assert Words(vs)[..n] == Words(vs[..n]);
    }
  }

  lemma {:induction false} TextBatch(types: Types, le: bool, vs: seq<Value>)
    requires AllChars(vs)
    ensures ManyBits(types, Text, 0, le, vs) == ToBits(TextsBytes(Strings(vs), le))
  {
    if vs != [] {
      hide TextBytes, ToBits, ArrayBits, LeafBits;
      var n := |vs| - 1;
      TextBatch(types, le, vs[..n]);
      LeafAlone(types, Text, le, vs[n]);
      assert Strings(vs)[..n] == Strings(vs[..n]);
      ToBitsConcat(TextsBytes(Strings(vs[..n]), le), TextBytes(vs[n].s, le));
    }
  }
}
