/** The hash of one struct: the character hash of gen/ZCMGen.cpp. */
module TypeHash {
  import opened Binary

  const M64: int := 0x1_0000_0000_0000_0000

  type U64 = x: int | 0 <= x < M64
  /** char, which is signed. */
  type Char = x: int | -128 <= x < 128

  /* ---------- exclusive or ---------- */

  function Xor(a: nat, b: nat): nat
    decreases a + b
  {
    if a == 0 && b == 0 then 0
    else 2 * Xor(a / 2, b / 2) + (if a % 2 != b % 2 then 1 else 0)
  }

  lemma {:induction false} XorZero(b: nat)
    ensures Xor(0, b) == b
  {
    if b > 0 {
      XorZero(b / 2);
    }
  }

  /** Xor with k ones is the complement. */
  lemma {:induction false} XorOnes(a: nat, k: nat)
    requires a < Pow2(k)
    ensures Xor(a, Pow2(k) - 1) == Pow2(k) - 1 - a
    decreases k
  {
    if k > 0 {
      XorOnes(a / 2, k - 1);
      assert (Pow2(k) - 1) / 2 == Pow2(k - 1) - 1 && (Pow2(k) - 1) % 2 == 1;
    }
  }

  lemma {:induction false} XorSelf0(a: nat)
    ensures Xor(a, 0) == a
  {
    if a > 0 {
      XorSelf0(a / 2);
    }
  }

  /** Xor of two numbers works on the high and the low parts separately. */
  lemma {:induction false} XorParts(a: nat, x: nat, b: nat, y: nat, k: nat)
    requires x < Pow2(k) && y < Pow2(k)
    ensures Xor(Shl(a, k) + x, Shl(b, k) + y) == Shl(Xor(a, b), k) + Xor(x, y)
    decreases k
  {
    if k == 0 {
    } else {
      XorParts(a, x / 2, b, y / 2, k - 1);
      assert (Shl(a, k) + x) / 2 == Shl(a, k - 1) + x / 2;
      assert (Shl(b, k) + y) / 2 == Shl(b, k - 1) + y / 2;
      if Shl(a, k) + x == 0 && Shl(b, k) + y == 0 {
        assert a == 0 && b == 0;
      }
    }
  }

  /* ---------- one character ---------- */

  /** v >> 55, copying the sign bit. */
  function SignExtendedShift(v: U64): nat {
    if v / 0x8000_0000_0000_0000 == 0 then v / 0x80_0000_0000_0000
    else Or(v / 0x80_0000_0000_0000, M64 - 512)
  }

  /** (v << 8) ^ (v >> 55), in 64 bits. */
  function Mix(v: U64): nat {
    Xor(v * 256 % M64, SignExtendedShift(v))
  }

  function HashUpdate(v: U64, c: Char): U64 {
    (Mix(v) + c) % M64
  }

  /** A state by its fields: the sign bit, bits 56 to 62, bit 55, and the 55 bits below. */
  function State(sign: bool, h: nat, b: nat, l: nat): (v: int)
    requires h < 128 && b < 2 && l < 0x80_0000_0000_0000
    ensures 0 <= v < M64
  {
    (if sign then 0x8000_0000_0000_0000 else 0) + h * 0x100_0000_0000_0000 + b * 0x80_0000_0000_0000 + l
  }

  lemma StateOf(v: U64) returns (sign: bool, h: nat, b: nat, l: nat)
    ensures h < 128 && b < 2 && l < 0x80_0000_0000_0000 && v == State(sign, h, b, l)
  {
    sign := v >= 0x8000_0000_0000_0000;
    var w := if sign then v - 0x8000_0000_0000_0000 else v;
    h := w / 0x100_0000_0000_0000;
    var u := w - h * 0x100_0000_0000_0000;
    b := u / 0x80_0000_0000_0000;
    l := u - b * 0x80_0000_0000_0000;
  }

  lemma StateParts(sign: bool, h: nat, b: nat, l: nat)
    requires h < 128 && b < 2 && l < 0x80_0000_0000_0000
    ensures var v := State(sign, h, b, l);
            && v * 256 % M64 == 256 * (b * 0x80_0000_0000_0000 + l)
            && v / 0x80_0000_0000_0000 == (if sign then 256 else 0) + (2 * h + b)
            && v / 0x8000_0000_0000_0000 == (if sign then 1 else 0)
  {
    var v := State(sign, h, b, l);
    var low := b * 0x80_0000_0000_0000 + l;
    var top := (if sign then 128 else 0) + h;
    assert v == top * 0x100_0000_0000_0000 + low;
    assert v * 256 == top * M64 + 256 * low;
  }

  /** What Mix computes: the low 56 bits move up, complemented when the sign bit is set, and bits
      55 to 62 come in below. */
  lemma MixForm(sign: bool, h: nat, b: nat, l: nat)
    requires h < 128 && b < 2 && l < 0x80_0000_0000_0000
    ensures var low := b * 0x80_0000_0000_0000 + l;
            Mix(State(sign, h, b, l)) == 256 * (if sign then 0xff_ffff_ffff_ffff - low else low) + (2 * h + b)
  {
    hide Xor, Or, Pow2;
    StateParts(sign, h, b, l);
    if sign {
      HighOnes(2 * h + b);
      XorSigned(b * 0x80_0000_0000_0000 + l, 2 * h + b);
    } else {
      XorUnsigned(b * 0x80_0000_0000_0000 + l, 2 * h + b);
    }
  }

  lemma XorUnsigned(low: nat, mid: nat)
    requires mid < 256
    ensures Xor(256 * low, mid) == 256 * low + mid
  {
    Pow2Byte();
    Shl8(low);
    Shl8(0);
    XorZero(mid);
    XorSelf0(low);
    XorParts(low, 0, 0, mid, 8);
  }

  lemma XorSigned(low: nat, mid: nat)
    requires mid < 256 && low <= 0xff_ffff_ffff_ffff
    ensures Xor(256 * low, 256 * 0xff_ffff_ffff_ffff + mid) == 256 * (0xff_ffff_ffff_ffff - low) + mid
  {
    Pow2Byte();
    Shl8(low);
    Shl8(0xff_ffff_ffff_ffff);
    Shl8(0xff_ffff_ffff_ffff - low);
    XorZero(mid);
    Pow2At56();
    XorOnes(low, 56);
    XorParts(low, 0, 0xff_ffff_ffff_ffff, mid, 8);
  }

  /** Sign extension: ones above the nine shifted-down bits. */
  lemma HighOnes(mid: nat)
    requires mid < 256
    ensures Or(256 + mid, M64 - 512) == 256 * 0xff_ffff_ffff_ffff + mid
  {
    OrCommutes(256 + mid, M64 - 512);
    LowNine();
    assert Pow2(9) == 512;
    OrDisjoint(M64 - 512, 256 + mid, 9);
  }

  lemma LowNine()
    ensures Low(M64 - 512, 9) == 0
  {
    var q := (M64 - 512) / 512;
    assert Shl(q, 9) == 512 * q by {
      Shl8(q);
    }
    Pow2Byte();
    ShlDigit(q, 0, 9);
  }

  lemma {:induction false} OrCommutes(a: nat, b: nat)
    ensures Or(a, b) == Or(b, a)
    decreases a + b
  {
    if a > 0 || b > 0 {
      OrCommutes(a / 2, b / 2);
    }
  }

  /** The inverse of Mix. */
  function Unmix(x: U64): U64 {
    var mid, high := x % 256, x / 256;
    var g, l := high / 0x80_0000_0000_0000, high % 0x80_0000_0000_0000;
    if g == mid % 2 then State(false, mid / 2, mid % 2, l)
    else State(true, mid / 2, mid % 2, 0x7f_ffff_ffff_ffff - l)
  }

  lemma UnmixUnsigned(h: nat, b: nat, l: nat)
    requires h < 128 && b < 2 && l < 0x80_0000_0000_0000
    ensures var x := 256 * (b * 0x80_0000_0000_0000 + l) + (2 * h + b);
            0 <= x < M64 && Unmix(x) == State(false, h, b, l)
  {
    var high := b * 0x80_0000_0000_0000 + l;
    var x := 256 * high + (2 * h + b);
    assert x % 256 == 2 * h + b && x / 256 == high;
  }

  lemma UnmixSigned(h: nat, b: nat, l: nat)
    requires h < 128 && b < 2 && l < 0x80_0000_0000_0000
    ensures var x := 256 * (0xff_ffff_ffff_ffff - (b * 0x80_0000_0000_0000 + l)) + (2 * h + b);
            0 <= x < M64 && Unmix(x) == State(true, h, b, l)
  {
    var high := (1 - b) * 0x80_0000_0000_0000 + (0x7f_ffff_ffff_ffff - l);
    assert high == 0xff_ffff_ffff_ffff - (b * 0x80_0000_0000_0000 + l);
    var x := 256 * high + (2 * h + b);
    assert x % 256 == 2 * h + b && x / 256 == high;
  }

  lemma UnmixMix(v: U64)
    ensures Mix(v) < M64 && Unmix(Mix(v)) == v
  {
    hide Mix, Unmix, State;
    var sign, h, b, l := StateOf(v);
    MixForm(sign, h, b, l);
    if sign {
      UnmixSigned(h, b, l);
    } else {
      UnmixUnsigned(h, b, l);
    }
  }

  lemma MixUnmix(x: U64)
    ensures Mix(Unmix(x)) == x
  {
    hide Mix;
    var mid, high := x % 256, x / 256;
    var g, l := high / 0x80_0000_0000_0000, high % 0x80_0000_0000_0000;
    if g == mid % 2 {
      MixForm(false, mid / 2, mid % 2, l);
    } else {
      MixForm(true, mid / 2, mid % 2, 0x7f_ffff_ffff_ffff - l);
    }
  }

  /** The state before the last character. */
  function HashUndo(w: U64, c: Char): U64 {
    Unmix((w - c) % M64)
  }

  lemma Wrap(x: U64, c: Char)
    ensures ((x + c) % M64 - c) % M64 == x && ((x - c) % M64 + c) % M64 == x
  {
  }

  /** Mixing in a fixed character is a bijection on 64-bit states. */
  lemma HashBijective(v: U64, c: Char)
    ensures HashUndo(HashUpdate(v, c), c) == v
    ensures HashUpdate(HashUndo(v, c), c) == v
  {
    hide Mix, Unmix;
    UnmixMix(v);
    Wrap(Mix(v), c);
    Wrap(v, c);
    MixUnmix((v - c) % M64);
  }

  /* ---------- structs ---------- */

  /** Conversion to char. */
  function AsChar(n: nat): Char {
    var r := n % 256;
    if r >= 128 then r - 256 else r
  }

  datatype HashDim = HashDim(mode: nat, size: seq<Char>)

  datatype HashMember = HashMember(name: seq<Char>, typeName: seq<Char>, primitive: bool, numBits: nat, dims: seq<HashDim>)

  /** The generator can be built to hash type and member names too. */
  datatype HashOptions = HashOptions(typeNames: bool, memberNames: bool)

  const HASH_SEED: U64 := 0x12345678

  /** Mixing in a sequence of characters. */
  function HashAll(v: U64, s: seq<Char>): U64 {
    if s == [] then v else HashUpdate(HashAll(v, s[..|s| - 1]), s[|s| - 1])
  }

  lemma {:induction false} HashAllConcat(v: U64, s: seq<Char>, t: seq<Char>)
    ensures HashAll(v, s + t) == HashAll(HashAll(v, s), t)
  {
    hide HashUpdate;
    if t == [] {
      assert s + t == s;
    } else {
      var t' := t[..|t| - 1];
      assert (s + t)[..|s + t| - 1] == s + t';
      HashAllConcat(v, s, t');
    }
  }

  lemma HashAllOne(v: U64, c: Char)
    ensures HashAll(v, [c]) == HashUpdate(v, c)
  {
    assert [c][..0] == [];
  }

  function StringInput(s: seq<Char>): seq<Char> {
    [AsChar(|s|)] + s
  }

  function DimInput(dim: HashDim): seq<Char> {
    [AsChar(dim.mode)] + StringInput(dim.size)
  }

  function DimsInput(dims: seq<HashDim>): seq<Char> {
    if dims == [] then [] else DimsInput(dims[..|dims| - 1]) + DimInput(dims[|dims| - 1])
  }

  /** Primitive members contribute their type and width; compound members only their shape, since
      their contents are hashed separately. */
  function TypeInput(m: HashMember): seq<Char> {
    if m.primitive then StringInput(m.typeName) + (if m.numBits != 0 then [AsChar(m.numBits)] else []) else []
  }

  function MemberInput(opts: HashOptions, m: HashMember): seq<Char> {
    (if opts.memberNames then StringInput(m.name) else []) + TypeInput(m) + [AsChar(|m.dims|)] + DimsInput(m.dims)
  }

  function MembersInput(opts: HashOptions, ms: seq<HashMember>): seq<Char> {
    if ms == [] then [] else MembersInput(opts, ms[..|ms| - 1]) + MemberInput(opts, ms[|ms| - 1])
  }

  /** Everything that determines a struct's hash, character by character. */
  function StructInput(opts: HashOptions, name: seq<Char>, ms: seq<HashMember>): seq<Char> {
    (if opts.typeNames then StringInput(name) else []) + MembersInput(opts, ms)
  }

  method HashString(v: U64, s: seq<Char>) returns (w: U64)
    ensures w == HashAll(v, StringInput(s))
  {
    hide HashUpdate;
    w := HashUpdate(v, AsChar(|s|));
    ghost var t := [AsChar(|s|)];
    HashAllOne(v, AsChar(|s|));
    for i := 0 to |s|
      invariant w == HashAll(v, t + s[..i])
    {
      assert (t + s[..i + 1])[..1 + i] == t + s[..i];
      w := HashUpdate(w, s[i]);
    }
    assert s[..|s|] == s;
  }

  /** computeHash. */
  method ComputeHash(opts: HashOptions, name: seq<Char>, ms: seq<HashMember>) returns (v: U64)
    ensures v == HashAll(HASH_SEED, StructInput(opts, name, ms))
  {
    hide HashAll, HashUpdate, StringInput, MemberInput;
    v := HASH_SEED;
    ghost var pre := if opts.typeNames then StringInput(name) else [];
    HashAllEmpty(v);
    if opts.typeNames {
      v := HashString(v, name);
    }
    assert pre + MembersInput(opts, ms[..0]) == pre;
    for i := 0 to |ms|
      invariant v == HashAll(HASH_SEED, pre + MembersInput(opts, ms[..i]))
    {
      assert ms[..i + 1][..i] == ms[..i];
      ghost var before := pre + MembersInput(opts, ms[..i]);
      HashAllConcat(HASH_SEED, before, MemberInput(opts, ms[i]));
      assert before + MemberInput(opts, ms[i]) == pre + MembersInput(opts, ms[..i + 1]);
      v := HashMemberInto(opts, v, ms[i]);
    }
    assert ms[..|ms|] == ms;
  }

  lemma HashAllEmpty(v: U64)
    ensures HashAll(v, []) == v
  {
  }

  /** The loop body of computeHash. */
  method HashMemberInto(opts: HashOptions, v: U64, m: HashMember) returns (w: U64)
    ensures w == HashAll(v, MemberInput(opts, m))
  {
    hide HashAll, HashUpdate, StringInput;
    w := v;
    ghost var input: seq<Char> := [];
    HashAllEmpty(v);
    if opts.memberNames {
      HashAllConcat(v, input, StringInput(m.name));
      w := HashString(w, m.name);
      input := input + StringInput(m.name);
    }
    if m.primitive {
      HashAllConcat(v, input, StringInput(m.typeName));
      w := HashString(w, m.typeName);
      input := input + StringInput(m.typeName);
      if m.numBits != 0 {
        HashAllConcat(v, input, [AsChar(m.numBits)]);
        HashAllOne(w, AsChar(m.numBits));
        w := HashUpdate(w, AsChar(m.numBits));
        input := input + [AsChar(m.numBits)];
      }
    }
    HashAllConcat(v, input, [AsChar(|m.dims|)]);
    HashAllOne(w, AsChar(|m.dims|));
    w := HashUpdate(w, AsChar(|m.dims|));
    input := input + [AsChar(|m.dims|)];
    assert input == (if opts.memberNames then StringInput(m.name) else []) + TypeInput(m) + [AsChar(|m.dims|)];
    HashAllConcat(v, input, DimsInput(m.dims));
    w := HashDims(w, m.dims);
  }

  method HashDims(v: U64, dims: seq<HashDim>) returns (w: U64)
    ensures w == HashAll(v, DimsInput(dims))
  {
    hide HashAll, HashUpdate, StringInput;
    w := v;
    HashAllEmpty(v);
    for i := 0 to |dims|
      invariant w == HashAll(v, DimsInput(dims[..i]))
    {
      assert dims[..i + 1][..i] == dims[..i];
      var dim := dims[i];
      HashAllConcat(v, DimsInput(dims[..i]), DimInput(dim));
      HashAllConcat(w, [AsChar(dim.mode)], StringInput(dim.size));
      HashAllOne(w, AsChar(dim.mode));
      w := HashUpdate(w, AsChar(dim.mode));
      w := HashString(w, dim.size);
    }
    assert dims[..|dims|] == dims;
  }

  /** Equal states stay equal and different states stay different. */
  lemma {:induction false} HashAllInjective(v: U64, w: U64, s: seq<Char>)
    requires HashAll(v, s) == HashAll(w, s)
    ensures v == w
  {
    hide HashUpdate, HashUndo;
    if s != [] {
      var h, c := s[..|s| - 1], s[|s| - 1];
      HashBijective(HashAll(v, h), c);
      HashBijective(HashAll(w, h), c);
      HashAllInjective(v, w, h);
    }
  }

  /** Two sequences of the same length that differ at position i only. */
  predicate DifferAt(s: seq<Char>, t: seq<Char>, i: nat) {
    i < |s| == |t| && s[i] != t[i] && s[..i] == t[..i] && s[i + 1..] == t[i + 1..]
  }

  lemma DifferAround(a: seq<Char>, s: seq<Char>, t: seq<Char>, b: seq<Char>, i: nat)
    requires DifferAt(s, t, i)
    ensures DifferAt(a + s + b, a + t + b, |a| + i)
  {
    var x, y := a + s + b, a + t + b;
    var j := |a| + i;
    assert x[..j] == a + s[..i] && y[..j] == a + t[..i];
    assert x[j + 1..] == s[i + 1..] + b && y[j + 1..] == t[i + 1..] + b;
  }

  /** Inputs of equal length that differ at exactly one position have different hashes. */
  lemma OneCharacterMatters(v: U64, s: seq<Char>, t: seq<Char>, i: nat)
    requires DifferAt(s, t, i)
    ensures HashAll(v, s) != HashAll(v, t)
  {
    hide HashUpdate, Mix, Unmix;
    var a, c, d, z := s[..i], s[i], t[i], s[i + 1..];
    assert s == a + [c] + z && t == a + [d] + z;
    HashAllConcat(v, a + [c], z);
    HashAllConcat(v, a + [d], z);
    HashAllConcat(v, a, [c]);
    HashAllConcat(v, a, [d]);
    var x := HashAll(v, a);
    HashAllOne(x, c);
    HashAllOne(x, d);
    UpdateDiffers(x, c, d);
    if HashAll(v, s) == HashAll(v, t) {
      HashAllInjective(HashUpdate(x, c), HashUpdate(x, d), z);
    }
  }

  lemma UpdateDiffers(x: U64, c: Char, d: Char)
    requires c != d
    ensures HashUpdate(x, c) != HashUpdate(x, d)
  {
    hide Mix;
    UnmixMix(x);
    LastCharacter(Mix(x), c, d);
  }

  lemma LastCharacter(x: U64, c: Char, d: Char)
    requires c != d
    ensures (x + c) % M64 != (x + d) % M64
  {
    Wrapped(x + c);
    Wrapped(x + d);
  }

  lemma Wrapped(y: int)
    requires -128 <= y < M64 + 128
    ensures y % M64 == if y < 0 then y + M64 else if y >= M64 then y - M64 else y
  {
  }

  /* ---------- two characters in a row ---------- */

  /** The fields of a state and of one a little above it. */
  lemma NextState(s: bool, h: nat, b: nat, l: nat, s': bool, h': nat, b': nat, l': nat, delta: nat)
    requires h < 128 && b < 2 && l < 0x80_0000_0000_0000 && h' < 128 && b' < 2 && l' < 0x80_0000_0000_0000 && 0 < delta < 256
    requires State(s', h', b', l') == (State(s, h, b, l) + delta) % M64
    ensures var low, low' := b * 0x80_0000_0000_0000 + l, b' * 0x80_0000_0000_0000 + l';
            || (s' == s && h' == h && low' == low + delta)
            || (s' == s && h' == h + 1 && b == 1 && b' == 0 && low' == low + delta - 0x100_0000_0000_0000)
            || (s' != s && h == 127 && h' == 0 && b == 1 && b' == 0 && low' == low + delta - 0x100_0000_0000_0000)
  {
    var low, low' := b * 0x80_0000_0000_0000 + l, b' * 0x80_0000_0000_0000 + l';
    var top, top' := (if s then 128 else 0) + h, (if s' then 128 else 0) + h';
    var v, v' := State(s, h, b, l), State(s', h', b', l');
    assert v == top * 0x100_0000_0000_0000 + low && v' == top' * 0x100_0000_0000_0000 + low';
    assert v' == v + delta || v' == v + delta - M64;
  }

  /** How far Mix moves when the state moves a little: by a multiple of 256, give or take one, or, when the
      sign changes, by such a multiple less 255. */
  lemma MixMoves(v: U64, delta: nat, e: int)
    requires 0 < delta < 256 && -255 < e < 255 && (delta % 2 == 0 ==> e != 1)
    ensures (Mix((v + delta) % M64) - Mix(v) - e) % M64 != 0
  {
    hide Mix, State;
    var s, h, b, l := StateOf(v);
    var s', h', b', l' := StateOf((v + delta) % M64);
    MixForm(s, h, b, l);
    MixForm(s', h', b', l');
    NextState(s, h, b, l, s', h', b', l', delta);
    var low, low' := b * 0x80_0000_0000_0000 + l, b' * 0x80_0000_0000_0000 + l';
    var x: int, x': int := if s then 0xff_ffff_ffff_ffff - low else low, if s' then 0xff_ffff_ffff_ffff - low' else low';
    var d: int := 256 * (x' - x) + (2 * h' + b') - (2 * h + b);
    assert d == Mix((v + delta) % M64) - Mix(v);
    MixSteps(s, h, b, low, s', h', b', low', delta, e);
    NotZero(d - e);
  }

  lemma MixSteps(s: bool, h: nat, b: nat, low: nat, s': bool, h': nat, b': nat, low': nat, delta: nat, e: int)
    requires h < 128 && b < 2 && h' < 128 && b' < 2 && low < 0x100_0000_0000_0000 && low' < 0x100_0000_0000_0000
    requires b == low / 0x80_0000_0000_0000 && b' == low' / 0x80_0000_0000_0000
    requires 0 < delta < 256 && -255 < e < 255 && (delta % 2 == 0 ==> e != 1)
    requires || (s' == s && h' == h && low' == low + delta)
             || (s' == s && h' == h + 1 && b == 1 && b' == 0 && low' == low + delta - 0x100_0000_0000_0000)
             || (s' != s && h == 127 && h' == 0 && b == 1 && b' == 0 && low' == low + delta - 0x100_0000_0000_0000)
    ensures var x, x' := if s then 0xff_ffff_ffff_ffff - low else low, if s' then 0xff_ffff_ffff_ffff - low' else low';
            var d := 256 * (x' - x) + (2 * h' + b') - (2 * h + b);
            -M64 < d - e < M64 && d != e
  {
  }

  lemma NotZero(d: int)
    requires -M64 < d < M64 && d != 0
    ensures d % M64 != 0
  {
  }

  /** Two characters in a row, of which the first differs: the states after them differ, unless the first
      ones are apart by an even number and the second ones by one. */
  lemma PairMatters(x: U64, a: Char, c: Char, a': Char, c': Char)
    requires a < a' && -255 < c - c' < 255 && ((a' - a) % 2 == 0 ==> c - c' != 1)
    ensures HashUpdate(HashUpdate(x, a), c) != HashUpdate(HashUpdate(x, a'), c')
  {
    hide Mix;
    var y := HashUpdate(x, a);
    var y' := HashUpdate(x, a');
    Apart(Mix(x), a, a');
    MixMoves(y, a' - a, c - c');
    if HashUpdate(y, c) == HashUpdate(y', c') {
      SameSum(Mix(y), c, Mix(y'), c');
      assert false;
    }
  }

  /** In that case there is a state from which they agree. */
  lemma PairCollides(a: Char, c: Char, a': Char, c': Char)
    requires a < a' && c - c' == 1 && (a' - a) % 2 == 0
    ensures exists x: U64 :: HashUpdate(HashUpdate(x, a), c) == HashUpdate(HashUpdate(x, a'), c')
  {
    hide Mix, Unmix;
    var j := (a' - a) / 2;
    var y: U64 := 0x7fff_ffff_ffff_ffff - j;
    var x := HashUndo(y, a);
    HashBijective(y, a);
    Apart(Mix(x), a, a');
    var y': U64 := 0x8000_0000_0000_0000 + (j - 1);
    assert HashUpdate(x, a') == y';
    assert y == State(false, 127, 1, 0x7f_ffff_ffff_ffff - j) && y' == State(true, 0, 0, j - 1);
    MixForm(false, 127, 1, 0x7f_ffff_ffff_ffff - j);
    MixForm(true, 0, 0, j - 1);
    assert Mix(y') == Mix(y) + 1;
    assert HashUpdate(y, c) == HashUpdate(y', c');
  }

  lemma Apart(m: nat, a: Char, a': Char)
    requires a < a'
    ensures (m + a') % M64 == ((m + a) % M64 + (a' - a)) % M64
  {
    var q, r := (m + a) / M64, (m + a) % M64;
    assert m + a' == q * M64 + (r + (a' - a));
    Modulo(r + (a' - a), q);
  }

  lemma Modulo(x: int, q: int)
    ensures (q * M64 + x) % M64 == x % M64
  {
    var k, r := x / M64, x % M64;
    assert q * M64 + x == (q + k) * M64 + r;
    var k', r' := (q * M64 + x) / M64, (q * M64 + x) % M64;
    assert (q + k - k') * M64 == r' - r;
  }

  lemma SameSum(x: nat, c: Char, y: nat, d: Char)
    requires (x + c) % M64 == (y + d) % M64
    ensures (y - x - (c - d)) % M64 == 0
  {
    var p, q := (x + c) / M64, (y + d) / M64;
    assert y - x - (c - d) == (q - p) * M64;
    Modulo(0, q - p);
  }

  /** A change in one member's input is a change at one position of the struct's input. */
  lemma {:induction false} MembersDiffer(opts: HashOptions, ms: seq<HashMember>, k: nat, m: HashMember, i: nat) returns (j: nat)
    requires k < |ms| && DifferAt(MemberInput(opts, ms[k]), MemberInput(opts, m), i)
    ensures DifferAt(MembersInput(opts, ms), MembersInput(opts, ms[k := m]), j)
    decreases |ms|
  {
    hide MemberInput, DifferAt;
    var n := |ms| - 1;
    var ms' := ms[k := m];
    var a, b := MembersInput(opts, ms[..n]), MemberInput(opts, ms[n]);
    if k == n {
      assert ms'[..n] == ms[..n];
      DifferAround(a, b, MemberInput(opts, m), [], i);
      assert a + b + [] == a + b && a + MemberInput(opts, m) + [] == a + MemberInput(opts, m);
      j := |a| + i;
    } else {
      assert ms'[..n] == ms[..n][k := m];
      j := MembersDiffer(opts, ms[..n], k, m, i);
      var a' := MembersInput(opts, ms[..n][k := m]);
      DifferAround([], a, a', b, j);
      assert [] + a + b == a + b && [] + a' + b == a' + b;
    }
  }

  lemma StructDiffers(opts: HashOptions, name: seq<Char>, ms: seq<HashMember>, k: nat, m: HashMember, i: nat)
    requires k < |ms| && DifferAt(MemberInput(opts, ms[k]), MemberInput(opts, m), i)
    ensures HashAll(HASH_SEED, StructInput(opts, name, ms)) != HashAll(HASH_SEED, StructInput(opts, name, ms[k := m]))
  {
    hide MemberInput, DifferAt, HashAll, MembersInput, StringInput;
    var j := MembersDiffer(opts, ms, k, m, i);
    var pre := if opts.typeNames then StringInput(name) else [];
    var x, y := MembersInput(opts, ms), MembersInput(opts, ms[k := m]);
    DifferAround(pre, x, y, [], j);
    assert pre + x + [] == pre + x && pre + y + [] == pre + y;
    OneCharacterMatters(HASH_SEED, StructInput(opts, name, ms), StructInput(opts, name, ms[k := m]), |pre| + j);
  }

  /** Changing only the width of one bit field changes the struct's hash. */
  lemma WidthMatters(opts: HashOptions, name: seq<Char>, ms: seq<HashMember>, k: nat, width: nat)
    requires k < |ms| && ms[k].primitive && 0 < ms[k].numBits < 256 && 0 < width < 256 && width != ms[k].numBits
    ensures HashAll(HASH_SEED, StructInput(opts, name, ms))
            != HashAll(HASH_SEED, StructInput(opts, name, ms[k := ms[k].(numBits := width)]))
  {
    hide StructInput, HashAll, DifferAt, MemberInput;
    var m := ms[k];
    var i := WidthDiffers(opts, m, width);
    StructDiffers(opts, name, ms, k, m.(numBits := width), i);
  }

  lemma WidthDiffers(opts: HashOptions, m: HashMember, width: nat) returns (i: nat)
    requires m.primitive && 0 < m.numBits < 256 && 0 < width < 256 && width != m.numBits
    ensures DifferAt(MemberInput(opts, m), MemberInput(opts, m.(numBits := width)), i)
  {
    var pre := (if opts.memberNames then StringInput(m.name) else []) + StringInput(m.typeName);
    var post := [AsChar(|m.dims|)] + DimsInput(m.dims);
    assert DifferAt([AsChar(m.numBits)], [AsChar(width)], 0);
    hide StringInput, DimsInput, AsChar, DifferAt;
    DifferAround(pre, [AsChar(m.numBits)], [AsChar(width)], post, 0);
    InputAround(opts, m);
    InputAround(opts, m.(numBits := width));
    i := |pre|;
  }

  lemma InputAround(opts: HashOptions, m: HashMember)
    requires m.primitive && m.numBits != 0
    ensures MemberInput(opts, m)
            == (if opts.memberNames then StringInput(m.name) else []) + StringInput(m.typeName) + [AsChar(m.numBits)]
               + ([AsChar(|m.dims|)] + DimsInput(m.dims))
  {
    hide StringInput, DimsInput, AsChar;
    var a, b, c := if opts.memberNames then StringInput(m.name) else [], StringInput(m.typeName), [AsChar(m.numBits)];
    var d, e := [AsChar(|m.dims|)], DimsInput(m.dims);
    assert a + (b + c) == a + b + c;
    assert (a + b + c) + d + e == (a + b + c) + (d + e);
  }

  /* ---------- the type of a member ---------- */

  /** What stands before and behind the type name of a primitive member. */
  lemma TypeAround(opts: HashOptions, m: HashMember, typeName: seq<Char>) returns (pre: seq<Char>, post: seq<Char>)
    requires m.primitive && |typeName| == |m.typeName|
    ensures MemberInput(opts, m) == pre + m.typeName + post
    ensures MemberInput(opts, m.(typeName := typeName)) == pre + typeName + post
  {
    hide AsChar, DimsInput;
    var a, n := if opts.memberNames then StringInput(m.name) else [], [AsChar(|m.typeName|)];
    var bits := if m.numBits != 0 then [AsChar(m.numBits)] else [];
    var d, e := [AsChar(|m.dims|)], DimsInput(m.dims);
    pre, post := a + n, bits + d + e;
    Regroup(a, n, m.typeName, bits, d, e);
    Regroup(a, n, typeName, bits, d, e);
  }

  lemma Regroup(a: seq<Char>, n: seq<Char>, s: seq<Char>, bits: seq<Char>, d: seq<Char>, e: seq<Char>)
    ensures a + ((n + s) + bits) + d + e == (a + n) + s + (bits + d + e)
  {
  }

  /** Changing one character of the type name of a primitive member, bit field or not, changes the
      struct's hash. */
  lemma TypeNameMatters(opts: HashOptions, name: seq<Char>, ms: seq<HashMember>, k: nat, i: nat, c: Char)
    requires k < |ms| && ms[k].primitive && i < |ms[k].typeName| && c != ms[k].typeName[i]
    ensures HashAll(HASH_SEED, StructInput(opts, name, ms))
            != HashAll(HASH_SEED, StructInput(opts, name, ms[k := ms[k].(typeName := ms[k].typeName[i := c])]))
  {
    hide StructInput, HashAll, MemberInput;
    var m := ms[k];
    var typeName := m.typeName[i := c];
    assert typeName[..i] == m.typeName[..i] && typeName[i + 1..] == m.typeName[i + 1..];
    var pre, post := TypeAround(opts, m, typeName);
    DifferAround(pre, m.typeName, typeName, post, i);
    StructDiffers(opts, name, ms, k, m.(typeName := typeName), |pre| + i);
  }

  /** What stands before and behind one member's input. */
  lemma {:induction false} MembersAround(opts: HashOptions, ms: seq<HashMember>, k: nat, m: HashMember)
    returns (pre: seq<Char>, post: seq<Char>)
    requires k < |ms|
    ensures MembersInput(opts, ms) == pre + MemberInput(opts, ms[k]) + post
    ensures MembersInput(opts, ms[k := m]) == pre + MemberInput(opts, m) + post
    decreases |ms|
  {
    hide MemberInput;
    var n := |ms| - 1;
    var ms' := ms[k := m];
    if k == n {
      assert ms'[..n] == ms[..n];
      pre, post := MembersInput(opts, ms[..n]), [];
    } else {
      assert ms'[..n] == ms[..n][k := m];
      var pre0, post0 := MembersAround(opts, ms[..n], k, m);
      pre, post := pre0, post0 + MemberInput(opts, ms[n]);
    }
  }

  /** Inputs that differ in two characters in a row. */
  lemma PairInside(v: U64, pre: seq<Char>, a: Char, c: Char, a': Char, c': Char, post: seq<Char>)
    requires a < a' && -255 < c - c' < 255 && ((a' - a) % 2 == 0 ==> c - c' != 1)
    ensures HashAll(v, pre + [a, c] + post) != HashAll(v, pre + [a', c'] + post)
  {
    hide HashUpdate, HashAll;
    var x := HashAll(v, pre);
    PairAfter(v, pre, a, c, post);
    PairAfter(v, pre, a', c', post);
    PairMatters(x, a, c, a', c');
    if HashAll(v, pre + [a, c] + post) == HashAll(v, pre + [a', c'] + post) {
      HashAllInjective(HashUpdate(HashUpdate(x, a), c), HashUpdate(HashUpdate(x, a'), c'), post);
    }
  }

  lemma PairAfter(v: U64, pre: seq<Char>, a: Char, c: Char, post: seq<Char>)
    ensures HashAll(v, pre + [a, c] + post) == HashAll(HashUpdate(HashUpdate(HashAll(v, pre), a), c), post)
  {
    hide HashUpdate;
    HashAllConcat(v, pre + [a, c], post);
    HashAllConcat(v, pre + [a], [c]);
    HashAllConcat(v, pre, [a]);
    HashAllOne(HashAll(v, pre), a);
    HashAllOne(HashUpdate(HashAll(v, pre), a), c);
    assert pre + [a] + [c] == pre + [a, c];
  }

  /** Changing two characters in a row of a type name changes the struct's hash under the same condition. */
  lemma TypePairMatters(opts: HashOptions, name: seq<Char>, ms: seq<HashMember>, k: nat, head: seq<Char>, a: Char, c: Char, a': Char,
                        c': Char, tail: seq<Char>)
    requires k < |ms| && ms[k].primitive && ms[k].typeName == head + [a, c] + tail
    requires a < a' && -255 < c - c' < 255 && ((a' - a) % 2 == 0 ==> c - c' != 1)
    ensures HashAll(HASH_SEED, StructInput(opts, name, ms))
            != HashAll(HASH_SEED, StructInput(opts, name, ms[k := ms[k].(typeName := head + [a', c'] + tail)]))
  {
    hide HashAll, MemberInput, MembersInput, StringInput;
    var m := ms[k];
    var m' := m.(typeName := head + [a', c'] + tail);
    var p, q := TypeAround(opts, m, m'.typeName);
    var p1, q1 := MembersAround(opts, ms, k, m');
    var p0 := if opts.typeNames then StringInput(name) else [];
    Nested(p0, p1, p, head, [a, c], tail, q, q1);
    Nested(p0, p1, p, head, [a', c'], tail, q, q1);
    PairInside(HASH_SEED, p0 + p1 + p + head, a, c, a', c', tail + q + q1);
  }

  lemma Nested(p0: seq<Char>, p1: seq<Char>, p: seq<Char>, head: seq<Char>, x: seq<Char>, tail: seq<Char>, q: seq<Char>, q1: seq<Char>)
    ensures p0 + (p1 + (p + (head + x + tail) + q) + q1) == (p0 + p1 + p + head) + x + (tail + q + q1)
  {
  }

  /** Members enter the hash in their order. */
  lemma {:induction false} MembersInOrder(opts: HashOptions, ms: seq<HashMember>, more: seq<HashMember>)
    ensures MembersInput(opts, ms + more) == MembersInput(opts, ms) + MembersInput(opts, more)
    decreases |more|
  {
    hide MemberInput;
    if more == [] {
      assert ms + more == ms;
    } else {
      var init := more[..|more| - 1];
      assert (ms + more)[..|ms + more| - 1] == ms + init;
      MembersInOrder(opts, ms, init);
    }
  }

  /** The name of a compound member's type is not hashed: renaming a struct does not break its users. */
  lemma {:induction false} CompoundNameIgnored(opts: HashOptions, name: seq<Char>, ms: seq<HashMember>, k: nat, typeName: seq<Char>)
    requires k < |ms| && !ms[k].primitive
    ensures StructInput(opts, name, ms[k := ms[k].(typeName := typeName)]) == StructInput(opts, name, ms)
  {
    hide MemberInput;
    var m' := ms[k].(typeName := typeName);
    var pre, post := MembersAround(opts, ms, k, m');
    SameShape(opts, ms[k], typeName);
  }

  lemma SameShape(opts: HashOptions, m: HashMember, typeName: seq<Char>)
    requires !m.primitive
    ensures MemberInput(opts, m.(typeName := typeName)) == MemberInput(opts, m)
  {
  }

  lemma {:induction false} DimsDiffer(dims: seq<HashDim>, k: nat, dim: HashDim, i: nat) returns (j: nat)
    requires k < |dims| && DifferAt(DimInput(dims[k]), DimInput(dim), i)
    ensures DifferAt(DimsInput(dims), DimsInput(dims[k := dim]), j)
    decreases |dims|
  {
    hide DimInput, DifferAt;
    var n := |dims| - 1;
    var dims' := dims[k := dim];
    var a, b := DimsInput(dims[..n]), DimInput(dims[n]);
    if k == n {
      assert dims'[..n] == dims[..n];
      DifferAround(a, b, DimInput(dim), [], i);
      assert a + b + [] == a + b && a + DimInput(dim) + [] == a + DimInput(dim);
      j := |a| + i;
    } else {
      assert dims'[..n] == dims[..n][k := dim];
      j := DimsDiffer(dims[..n], k, dim, i);
      var a' := DimsInput(dims[..n][k := dim]);
      DifferAround([], a, a', b, j);
      assert [] + a + b == a + b && [] + a' + b == a' + b;
    }
  }

  /** Changing one digit of one array size changes the struct's hash. */
  lemma DigitMatters(opts: HashOptions, name: seq<Char>, ms: seq<HashMember>, k: nat, d: nat, i: nat, digit: Char)
    requires k < |ms| && d < |ms[k].dims| && i < |ms[k].dims[d].size| && digit != ms[k].dims[d].size[i]
    ensures var dim := ms[k].dims[d];
            var dims := ms[k].dims[d := dim.(size := dim.size[i := digit])];
            HashAll(HASH_SEED, StructInput(opts, name, ms))
            != HashAll(HASH_SEED, StructInput(opts, name, ms[k := ms[k].(dims := dims)]))
  {
    hide DifferAt, StructInput, HashAll, DimInput;
    var dim := ms[k].dims[d];
    var p := DigitInput(dim, i, digit);
    DimDiffers(opts, name, ms, k, d, dim.(size := dim.size[i := digit]), p);
  }

  /** Changing one array size from constant to variable, or back, changes the struct's hash. */
  lemma ModeMatters(opts: HashOptions, name: seq<Char>, ms: seq<HashMember>, k: nat, d: nat, mode: nat)
    requires k < |ms| && d < |ms[k].dims| && mode < 128 && ms[k].dims[d].mode < 128 && mode != ms[k].dims[d].mode
    ensures var dims := ms[k].dims[d := ms[k].dims[d].(mode := mode)];
            HashAll(HASH_SEED, StructInput(opts, name, ms))
            != HashAll(HASH_SEED, StructInput(opts, name, ms[k := ms[k].(dims := dims)]))
  {
    hide StructInput, HashAll;
    var m := ms[k];
    var dim := m.dims[d];
    var dim' := dim.(mode := mode);
    assert DifferAt(DimInput(dim), DimInput(dim'), 0);
    DimDiffers(opts, name, ms, k, d, dim', 0);
  }

  /** Changing one character of what a dimension contributes. */
  lemma DimDiffers(opts: HashOptions, name: seq<Char>, ms: seq<HashMember>, k: nat, d: nat, dim: HashDim, p: nat)
    requires k < |ms| && d < |ms[k].dims| && DifferAt(DimInput(ms[k].dims[d]), DimInput(dim), p)
    ensures HashAll(HASH_SEED, StructInput(opts, name, ms))
            != HashAll(HASH_SEED, StructInput(opts, name, ms[k := ms[k].(dims := ms[k].dims[d := dim])]))
  {
    hide DifferAt, StructInput, HashAll, DimsInput, TypeInput, DimInput;
    var m := ms[k];
    var dims' := m.dims[d := dim];
    var j := DimsDiffer(m.dims, d, dim, p);
    var pre := (if opts.memberNames then StringInput(m.name) else []) + TypeInput(m) + [AsChar(|m.dims|)];
    DifferAround(pre, DimsInput(m.dims), DimsInput(dims'), [], j);
    TypeInputIgnoresDims(m, dims');
    assert MemberInput(opts, m) == pre + DimsInput(m.dims) + [];
    assert MemberInput(opts, m.(dims := dims')) == pre + DimsInput(dims') + [];
    StructDiffers(opts, name, ms, k, m.(dims := dims'), |pre| + j);
  }

  lemma DigitInput(dim: HashDim, i: nat, digit: Char) returns (p: nat)
    requires i < |dim.size| && digit != dim.size[i]
    ensures DifferAt(DimInput(dim), DimInput(dim.(size := dim.size[i := digit])), p)
  {
    var size' := dim.size[i := digit];
    assert size'[..i] == dim.size[..i] && size'[i + 1..] == dim.size[i + 1..];
    var head := [AsChar(dim.mode), AsChar(|dim.size|)];
    DifferAround(head, dim.size, size', [], i);
    assert DimInput(dim) == head + dim.size + [];
    assert DimInput(dim.(size := size')) == head + size' + [];
    p := 2 + i;
  }

  lemma TypeInputIgnoresDims(m: HashMember, dims: seq<HashDim>)
    ensures TypeInput(m.(dims := dims)) == TypeInput(m)
  {
  }
}
