/** The fingerprint of a schema: the struct hashes of gen/ZCMGen.cpp and the recursive type hash,
    derived from the schema that directs the codec. */
module SchemaHash {
  import opened Binary
  import opened BitPacker
  import opened PrimArrays
  import opened Schema
  import opened Blocks
  import opened TypeHash
  import opened RecursiveHash
  import opened EncoderSteps
  import opened Decoding

  /** What a schema file says beyond the schema: the name of a struct, the names of its members, and the
      text of each constant array size. */
  datatype Spelling = Spelling(name: seq<Char>, members: seq<seq<Char>>, sizes: seq<seq<seq<Char>>>)

  type Spellings = map<string, Spelling>

  /** Every struct is spelled out. */
  predicate Spelled(types: Types, texts: Spellings) {
    forall n | n in types ::
      && n in texts && |texts[n].members| == |texts[n].sizes| == |types[n]|
      && forall k | 0 <= k < |types[n]| :: |texts[n].sizes[k]| == |types[n][k].dims|
  }

  function Ascii(s: string): seq<Char> {
    seq(|s|, i requires 0 <= i < |s| => AsChar(s[i] as int))
  }

  function PrimName(p: Schema.Prim): seq<Char> {
    match p
    case Byte8 => Ascii("byte")
    case Boolean => Ascii("boolean")
    case Int8 => Ascii("int8_t")
    case Int16 => Ascii("int16_t")
    case Int32 => Ascii("int32_t")
    case Int64 => Ascii("int64_t")
    case Float => Ascii("float")
    case Double => Ascii("double")
  }

  function TypeName(ty: MemberType): seq<Char> {
    match ty
    case Plain(p) => PrimName(p)
    case BitField(p, _, _) => PrimName(p)
    case Text => Ascii("string")
    case Ref(name) => Ascii(name)
  }

  /** ZCM_CONST with the text of the size, or ZCM_VAR with the name of the member. */
  function DimOf(dim: Dim, names: seq<seq<Char>>, size: seq<Char>): HashDim {
    match dim
    case Fixed(_) => HashDim(0, size)
    case Counted(j) => HashDim(1, if j < |names| then names[j] else [])
  }

  function MemberOf(m: Member, name: seq<Char>, names: seq<seq<Char>>, sizes: seq<seq<Char>>): HashMember
    requires |sizes| == |m.dims|
  {
    HashMember(name, TypeName(m.ty), !m.ty.Ref?, if m.ty.BitField? then m.ty.numBits else 0,
               seq(|m.dims|, d requires 0 <= d < |m.dims| => DimOf(m.dims[d], names, sizes[d])))
  }

  function MembersOf(members: seq<Member>, text: Spelling): (ms: seq<HashMember>)
    requires |text.members| == |text.sizes| == |members|
    requires forall k | 0 <= k < |members| :: |text.sizes[k]| == |members[k].dims|
    ensures |ms| == |members|
  {
    seq(|members|, k requires 0 <= k < |members| => MemberOf(members[k], text.members[k], text.members, text.sizes[k]))
  }

  function StructHash(members: seq<Member>, text: Spelling, opts: HashOptions): U64
    requires |text.members| == |text.sizes| == |members|
    requires forall k | 0 <= k < |members| :: |text.sizes[k]| == |members[k].dims|
  {
    HashAll(HASH_SEED, StructInput(opts, text.name, MembersOf(members, text)))
  }

  function RefsOf(members: seq<Member>): seq<MemberRef> {
    seq(|members|, k requires 0 <= k < |members| =>
      if members[k].ty.Ref? then RecursiveHash.Ref(members[k].ty.name) else RecursiveHash.Prim)
  }

  /** The type graph of a schema. */
  function GraphOf(types: Types, texts: Spellings, opts: HashOptions): (g: Graph)
    requires Spelled(types, texts)
    ensures g.Keys == types.Keys
  {
    map n | n in types :: TypeInfo(StructHash(types[n], texts[n], opts), RefsOf(types[n]))
  }

  lemma GraphClosed(types: Types, texts: Spellings, opts: HashOptions)
    requires LegalTypes(types) && Spelled(types, texts)
    ensures Closed(GraphOf(types, texts, opts))
  {
    hide StructHash;
    var g := GraphOf(types, texts, opts);
    forall t, i | t in g && 0 <= i < |g[t].members| && g[t].members[i].Ref? ensures g[t].members[i].name in g {
      assert LegalStruct(types[t], types);
      assert LegalType(types[t][i].ty, types);
    }
  }

  /** The hash that the emitted code of a type puts on the wire and insists on: an int64_t. */
  function WireHash(types: Types, texts: Spellings, opts: HashOptions, name: string): int
    requires LegalTypes(types) && Spelled(types, texts) && name in types
  {
    GraphClosed(types, texts, opts);
    Signed64(Fingerprint(GraphOf(types, texts, opts), name))
  }

  function Signed64(x: U64): int {
    if x >= 0x8000_0000_0000_0000 then x - M64 else x
  }

  lemma Pow2At63()
    ensures Pow2(63) == 0x8000_0000_0000_0000
  {
    Pow2At56();
    assert Pow2(57) == 2 * Pow2(56) && Pow2(58) == 2 * Pow2(57) && Pow2(59) == 2 * Pow2(58) && Pow2(60) == 2 * Pow2(59);
    assert Pow2(61) == 2 * Pow2(60) && Pow2(62) == 2 * Pow2(61) && Pow2(63) == 2 * Pow2(62);
  }

  lemma SignedInType(x: U64)
    ensures InType(Signed64(x), Storage(64, true))
  {
    Pow2At63();
    hide Pow2;
  }

  /* ---------- versions of a schema ---------- */

  /** The schema with one bit-field width changed. */
  function Widened(types: Types, name: string, k: nat, width: nat): Types
    requires name in types && k < |types[name]| && types[name][k].ty.BitField?
  {
    types[name := types[name][k := types[name][k].(ty := types[name][k].ty.(numBits := width))]]
  }

  lemma WidenedMembers(members: seq<Member>, text: Spelling, k: nat, width: nat)
    requires |text.members| == |text.sizes| == |members|
    requires forall j | 0 <= j < |members| :: |text.sizes[j]| == |members[j].dims|
    requires k < |members| && members[k].ty.BitField?
    ensures var members' := members[k := members[k].(ty := members[k].ty.(numBits := width))];
            var ms := MembersOf(members, text);
            MembersOf(members', text) == ms[k := ms[k].(numBits := width)] && RefsOf(members') == RefsOf(members)
  {
    hide Ascii;
    var members' := members[k := members[k].(ty := members[k].ty.(numBits := width))];
    var ms, ms' := MembersOf(members, text), MembersOf(members', text);
    assert ms'[k].dims == ms[k].dims;
  }

  /** Only the struct's own hash differs in the type graph. */
  lemma WidenedGraph(types: Types, texts: Spellings, opts: HashOptions, name: string, k: nat, width: nat)
    requires LegalTypes(types) && Spelled(types, texts) && name in types && k < |types[name]| && types[name][k].ty.BitField?
    ensures Spelled(Widened(types, name, k, width), texts) && Closed(GraphOf(types, texts, opts))
    ensures var ms := MembersOf(types[name], texts[name]);
            GraphOf(Widened(types, name, k, width), texts, opts)
            == WithHash(GraphOf(types, texts, opts), name,
                        HashAll(HASH_SEED, StructInput(opts, texts[name].name, ms[k := ms[k].(numBits := width)])))
  {
    hide HashAll, StructInput, MembersOf, RefsOf;
    GraphClosed(types, texts, opts);
    WidenedMembers(types[name], texts[name], k, width);
  }

  /** Two versions of a schema that differ in one bit-field width of a struct put different hashes on
      the wire for it. */
  lemma WidthChangesHash(types: Types, texts: Spellings, opts: HashOptions, name: string, k: nat, width: nat)
    requires name in types && k < |types[name]| && types[name][k].ty.BitField? && width != types[name][k].ty.numBits
    requires LegalTypes(types) && LegalTypes(Widened(types, name, k, width)) && Spelled(types, texts)
    ensures Spelled(Widened(types, name, k, width), texts)
    ensures WireHash(Widened(types, name, k, width), texts, opts, name) != WireHash(types, texts, opts, name)
  {
    hide HashAll, StructInput, Fingerprint, GraphOf;
    WidthLegal(types, name, k);
    WidthLegal(Widened(types, name, k, width), name, k);
    WidenedGraph(types, texts, opts, name, k, width);
    OwnHash(types, texts, opts, name);
    WidthChangesFingerprint(GraphOf(types, texts, opts), name, opts, texts[name].name, MembersOf(types[name], texts[name]), k, width);
  }

  lemma OwnHash(types: Types, texts: Spellings, opts: HashOptions, name: string)
    requires Spelled(types, texts) && name in types
    ensures GraphOf(types, texts, opts)[name].hash
            == HashAll(HASH_SEED, StructInput(opts, texts[name].name, MembersOf(types[name], texts[name])))
  {
    hide HashAll, StructInput;
  }

  lemma WidthLegal(types: Types, name: string, k: nat)
    requires LegalTypes(types) && name in types && k < |types[name]| && types[name][k].ty.BitField?
    ensures 0 < types[name][k].ty.numBits <= 64
  {
    assert LegalStruct(types[name], types);
    assert LegalType(types[name][k].ty, types);
  }

  /** A message written under one version is refused under the other, whatever it holds. */
  lemma OtherVersionRefused(types: Types, texts: Spellings, opts: HashOptions, name: string, k: nat, width: nat, v: Value,
                            layout: Layout, depth: nat, buf: seq<Byte>, offset: nat, maxlen: nat, le: bool)
    requires name in types && k < |types[name]| && types[name][k].ty.BitField? && width != types[name][k].ty.numBits
    requires LegalTypes(types) && LegalTypes(Widened(types, name, k, width)) && Spelled(types, texts)
    requires offset + maxlen <= |buf|
    requires At(buf, offset + maxlen, 8 * offset, MessageBits(types, name, WireHash(types, texts, opts, name), le, v))
    ensures Spelled(Widened(types, name, k, width), texts)
    ensures var types' := Widened(types, name, k, width);
            DecodeMessage(types', layout, name, WireHash(types', texts, opts, name), depth, buf, offset, maxlen, le) == Short
  {
    hide At, RecordBits, InType, WireHash, LegalTypes, Spelled, DecodeMessage, MessageBits;
    WidthChangesHash(types, texts, opts, name, k, width);
    HashInType(types, texts, opts, name);
    OtherHashRefused(types, Widened(types, name, k, width), layout, name, WireHash(types, texts, opts, name),
                     WireHash(Widened(types, name, k, width), texts, opts, name), v, depth, buf, offset, maxlen, le);
  }

  /** The schema with one member of another type. */
  function Retyped(types: Types, name: string, k: nat, p: Schema.Prim): Types
    requires name in types && k < |types[name]|
  {
    types[name := types[name][k := types[name][k].(ty := Plain(p))]]
  }

  lemma RetypedGraph(types: Types, texts: Spellings, opts: HashOptions, name: string, k: nat, p: Schema.Prim)
    requires LegalTypes(types) && Spelled(types, texts) && name in types && k < |types[name]| && types[name][k].ty.Plain?
    ensures Spelled(Retyped(types, name, k, p), texts) && Closed(GraphOf(types, texts, opts))
    ensures var ms := MembersOf(types[name], texts[name]);
            GraphOf(Retyped(types, name, k, p), texts, opts)
            == WithHash(GraphOf(types, texts, opts), name,
                        HashAll(HASH_SEED, StructInput(opts, texts[name].name, ms[k := ms[k].(typeName := PrimName(p))])))
  {
    hide HashAll, StructInput, MembersOf, RefsOf;
    GraphClosed(types, texts, opts);
    RetypedMembers(types[name], texts[name], k, p);
  }

  lemma RetypedMembers(members: seq<Member>, text: Spelling, k: nat, p: Schema.Prim)
    requires |text.members| == |text.sizes| == |members|
    requires forall j | 0 <= j < |members| :: |text.sizes[j]| == |members[j].dims|
    requires k < |members| && members[k].ty.Plain?
    ensures var members' := members[k := members[k].(ty := Plain(p))];
            var ms := MembersOf(members, text);
            && ms[k].primitive && ms[k].typeName == PrimName(members[k].ty.prim)
            && MembersOf(members', text) == ms[k := ms[k].(typeName := PrimName(p))] && RefsOf(members') == RefsOf(members)
  {
    hide PrimName;
    var members' := members[k := members[k].(ty := Plain(p))];
    var ms, ms' := MembersOf(members, text), MembersOf(members', text);
    assert ms'[k].dims == ms[k].dims;
  }

  /** int16_t, int32_t and int64_t differ in two characters in a row. */
  lemma WideNames(p: Schema.Prim, q: Schema.Prim) returns (a: Char, c: Char, a': Char, c': Char)
    requires p in {Int16, Int32, Int64} && q in {Int16, Int32, Int64} && p != q
    ensures PrimName(p) == Ascii("int") + [a, c] + Ascii("_t") && PrimName(q) == Ascii("int") + [a', c'] + Ascii("_t")
    ensures a != a' && -255 < c - c' < 255 && ((a' - a) % 2 == 0 ==> c - c' != 1 && c' - c != 1)
  {
    a, c := WideName(p);
    a', c' := WideName(q);
  }

  lemma WideName(p: Schema.Prim) returns (a: Char, c: Char)
    requires p in {Int16, Int32, Int64}
    ensures PrimName(p) == Ascii("int") + [a, c] + Ascii("_t")
    ensures a == (if p == Int16 then 49 else if p == Int32 then 51 else 54)
    ensures c == (if p == Int16 then 54 else if p == Int32 then 50 else 52)
  {
    var digits := if p == Int16 then "16" else if p == Int32 then "32" else "64";
    a, c := AsChar(digits[0] as int), AsChar(digits[1] as int);
    assert PrimName(p) == Ascii("int" + digits + "_t");
  }

  /** Two versions of a schema in which one member has two different of these types put different hashes
      on the wire for the struct. */
  lemma TypeChangesHash(types: Types, texts: Spellings, opts: HashOptions, name: string, k: nat, q: Schema.Prim)
    requires name in types && k < |types[name]| && types[name][k].ty.Plain? && types[name][k].ty.prim != q
    requires types[name][k].ty.prim in {Int16, Int32, Int64} && q in {Int16, Int32, Int64}
    requires LegalTypes(types) && LegalTypes(Retyped(types, name, k, q)) && Spelled(types, texts)
    ensures Spelled(Retyped(types, name, k, q), texts)
    ensures WireHash(Retyped(types, name, k, q), texts, opts, name) != WireHash(types, texts, opts, name)
  {
    hide HashAll, StructInput, Fingerprint, GraphOf, PrimName, MembersOf, LegalTypes;
    RetypedGraph(types, texts, opts, name, k, q);
    OwnHash(types, texts, opts, name);
    NameChanges(types, texts, opts, name, k, q);
    var ms := MembersOf(types[name], texts[name]);
    OwnHashMatters(GraphOf(types, texts, opts), name,
                   HashAll(HASH_SEED, StructInput(opts, texts[name].name, ms[k := ms[k].(typeName := PrimName(q))])));
  }

  lemma NameChanges(types: Types, texts: Spellings, opts: HashOptions, name: string, k: nat, q: Schema.Prim)
    requires Spelled(types, texts) && name in types && k < |types[name]| && types[name][k].ty.Plain? && types[name][k].ty.prim != q
    requires types[name][k].ty.prim in {Int16, Int32, Int64} && q in {Int16, Int32, Int64}
    ensures var ms := MembersOf(types[name], texts[name]);
            HashAll(HASH_SEED, StructInput(opts, texts[name].name, ms))
            != HashAll(HASH_SEED, StructInput(opts, texts[name].name, ms[k := ms[k].(typeName := PrimName(q))]))
  {
    hide HashAll, StructInput, PrimName, MembersOf, Ascii;
    RetypedMembers(types[name], texts[name], k, q);
    var ms, p := MembersOf(types[name], texts[name]), types[name][k].ty.prim;
    var a, c, a', c' := WideNames(p, q);
    var head, tail := Ascii("int"), Ascii("_t");
    if a < a' {
      TypePairMatters(opts, texts[name].name, ms, k, head, a, c, a', c', tail);
    } else {
      var ms' := ms[k := ms[k].(typeName := PrimName(q))];
      TypePairMatters(opts, texts[name].name, ms', k, head, a', c', a, c, tail);
      assert ms'[k := ms'[k].(typeName := PrimName(p))] == ms;
    }
  }

  /** So the other version refuses the messages of one. */
  lemma OtherTypeRefused(types: Types, texts: Spellings, opts: HashOptions, name: string, k: nat, q: Schema.Prim, v: Value,
                         layout: Layout, depth: nat, buf: seq<Byte>, offset: nat, maxlen: nat, le: bool)
    requires name in types && k < |types[name]| && types[name][k].ty.Plain? && types[name][k].ty.prim != q
    requires types[name][k].ty.prim in {Int16, Int32, Int64} && q in {Int16, Int32, Int64}
    requires LegalTypes(types) && LegalTypes(Retyped(types, name, k, q)) && Spelled(types, texts)
    requires offset + maxlen <= |buf|
    requires At(buf, offset + maxlen, 8 * offset, MessageBits(types, name, WireHash(types, texts, opts, name), le, v))
    ensures Spelled(Retyped(types, name, k, q), texts)
    ensures var types' := Retyped(types, name, k, q);
            DecodeMessage(types', layout, name, WireHash(types', texts, opts, name), depth, buf, offset, maxlen, le) == Short
  {
    hide At, RecordBits, InType, WireHash, LegalTypes, Spelled, DecodeMessage, MessageBits;
    TypeChangesHash(types, texts, opts, name, k, q);
    HashInType(types, texts, opts, name);
    OtherHashRefused(types, Retyped(types, name, k, q), layout, name, WireHash(types, texts, opts, name),
                     WireHash(Retyped(types, name, k, q), texts, opts, name), v, depth, buf, offset, maxlen, le);
  }

  /** A message with another hash is refused, whatever it holds. */
  lemma OtherHashRefused(types: Types, types': Types, layout: Layout, name: string, hash: int, hash': int, v: Value, depth: nat,
                         buf: seq<Byte>, offset: nat, maxlen: nat, le: bool)
    requires InType(hash, Storage(64, true)) && hash' != hash && offset + maxlen <= |buf|
    requires At(buf, offset + maxlen, 8 * offset, MessageBits(types, name, hash, le, v))
    ensures DecodeMessage(types', layout, name, hash', depth, buf, offset, maxlen, le) == Short
  {
    hide ToBits, At, RecordBits, BytesNum, BeBytes, ToType, InType, DecodeRecord;
    AtSplit(buf, offset + maxlen, 8 * offset, ToBits(BeBytes(hash, 8)), RecordBits(types, name, le, v));
    AtBytes(buf, offset + maxlen, 8 * offset, offset, BeBytes(hash, 8));
    WordBack(hash, Int64, false);
  }

  lemma HashInType(types: Types, texts: Spellings, opts: HashOptions, name: string)
    requires LegalTypes(types) && Spelled(types, texts) && name in types
    ensures InType(WireHash(types, texts, opts, name), Storage(64, true))
  {
    GraphClosed(types, texts, opts);
    SignedInType(Fingerprint(GraphOf(types, texts, opts), name));
  }

  /* ---------- what the hash leaves out ---------- */

  /** The schema with the sign extension of one bit field switched. */
  function Resigned(types: Types, name: string, k: nat): Types
    requires name in types && k < |types[name]| && types[name][k].ty.BitField?
  {
    types[name := types[name][k := types[name][k].(ty := types[name][k].ty.(signExtend := !types[name][k].ty.signExtend))]]
  }

  lemma ResignedMembers(members: seq<Member>, text: Spelling, k: nat)
    requires |text.members| == |text.sizes| == |members|
    requires forall j | 0 <= j < |members| :: |text.sizes[j]| == |members[j].dims|
    requires k < |members| && members[k].ty.BitField?
    ensures var members' := members[k := members[k].(ty := members[k].ty.(signExtend := !members[k].ty.signExtend))];
            MembersOf(members', text) == MembersOf(members, text) && RefsOf(members') == RefsOf(members)
  {
    hide Ascii;
    var members' := members[k := members[k].(ty := members[k].ty.(signExtend := !members[k].ty.signExtend))];
    var ms, ms' := MembersOf(members, text), MembersOf(members', text);
    assert ms'[k].dims == ms[k].dims;
  }

  /** Sign extension is not hashed: two versions of a schema that differ only in it put the same hash on
      the wire for every type. What each then reads is the subject of SignVersions. */
  lemma SignNotHashed(types: Types, texts: Spellings, opts: HashOptions, name: string, k: nat, root: string)
    requires name in types && k < |types[name]| && types[name][k].ty.BitField? && root in types
    requires LegalTypes(types) && LegalTypes(Resigned(types, name, k)) && Spelled(types, texts)
    ensures Spelled(Resigned(types, name, k), texts)
    ensures WireHash(Resigned(types, name, k), texts, opts, root) == WireHash(types, texts, opts, root)
  {
    hide GraphOf, Fingerprint, LegalTypes, Spelled;
    ResignedGraph(types, texts, opts, name, k);
  }

  lemma ResignedGraph(types: Types, texts: Spellings, opts: HashOptions, name: string, k: nat)
    requires name in types && k < |types[name]| && types[name][k].ty.BitField? && Spelled(types, texts)
    ensures Spelled(Resigned(types, name, k), texts)
    ensures GraphOf(Resigned(types, name, k), texts, opts) == GraphOf(types, texts, opts)
  {
    hide HashAll, StructInput, MembersOf, RefsOf;
    ResignedMembers(types[name], texts[name], k);
  }
}
