/** The recursive type hash that the back ends emit: a struct's own hash plus those of its member
    types, where a type already on the chain of parents counts as zero. */
module RecursiveHash {
  import opened TypeHash

  datatype MemberRef = Prim | Ref(name: string)

  datatype TypeInfo = TypeInfo(hash: U64, members: seq<MemberRef>)

  type Graph = map<string, TypeInfo>

  /** Every member type is defined; cycles are allowed. */
  predicate Closed(g: Graph) {
    forall t, i | t in g && 0 <= i < |g[t].members| && g[t].members[i].Ref? :: g[t].members[i].name in g
  }

  function OnChain(chain: seq<string>): set<string> {
    set x | x in chain
  }

  /** Types not on the chain yet: what bounds the recursion. */
  function Unvisited(g: Graph, chain: seq<string>): nat {
    |g.Keys - OnChain(chain)|
  }

  lemma Descend(g: Graph, chain: seq<string>, t: string)
    requires t in g && t !in chain
    ensures Unvisited(g, chain + [t]) < Unvisited(g, chain)
  {
    var a, b := g.Keys - OnChain(chain), g.Keys - OnChain(chain + [t]);
    assert b == a - {t};
    assert t in a;
  }

  /** (hash << 1) + ((hash >> 63) & 1). */
  function Rotate(h: U64): U64 {
    h * 2 % M64 + h / 0x8000_0000_0000_0000
  }

  lemma RotateInjective(a: U64, b: U64)
    requires Rotate(a) == Rotate(b)
    ensures a == b
  {
    Unrotate(a);
    Unrotate(b);
  }

  lemma Unrotate(h: U64)
    ensures var r := Rotate(h);
            h == r / 2 + (if r % 2 == 1 then 0x8000_0000_0000_0000 else 0)
  {
    if h < 0x8000_0000_0000_0000 {
      assert h * 2 % M64 == h * 2;
    } else {
      assert h * 2 % M64 == h * 2 - M64;
    }
  }

  /** The walk up the chain of parents. */
  method WalkChain(chain: seq<string>, t: string) returns (found: bool)
    ensures found == (t in chain)
  {
    var i := |chain|;
    while i > 0
      invariant 0 <= i <= |chain|
      invariant t !in chain[i..]
    {
      i := i - 1;
      if chain[i] == t {
        return true;
      }
    }
    assert chain[0..] == chain;
    return false;
  }

  /* ---------- C ---------- */

  /** __NAME_hash_recursive of the C back end: every type checks the chain. */
  function CHash(g: Graph, t: string, chain: seq<string>): U64
    requires Closed(g) && t in g
    decreases Unvisited(g, chain), 0, 0
  {
    if t in chain then 0
    else
      Descend(g, chain, t);
      Rotate((g[t].hash + CSum(g, t, |g[t].members|, chain + [t])) % M64)
  }

  /** The terms of the first k members. */
  function CSum(g: Graph, t: string, k: nat, chain: seq<string>): nat
    requires Closed(g) && t in g && k <= |g[t].members|
    decreases Unvisited(g, chain), 1, k
  {
    if k == 0 then 0
    else
      CSum(g, t, k - 1, chain)
      + (match g[t].members[k - 1]
         case Prim => 0
         case Ref(name) => CHash(g, name, chain))
  }

  /* ---------- C++ ---------- */

  predicate Complex(g: Graph, t: string)
    requires t in g
  {
    exists i | 0 <= i < |g[t].members| :: g[t].members[i].Ref?
  }

  /** _computeHash of the C++ back end: a type without compound members does not look at the chain. */
  function CppHash(g: Graph, t: string, chain: seq<string>): U64
    requires Closed(g) && t in g
    decreases Unvisited(g, chain), 0, 0
  {
    if !Complex(g, t) then Rotate(g[t].hash)
    else if t in chain then 0
    else
      Descend(g, chain, t);
      Rotate((g[t].hash + CppSum(g, t, |g[t].members|, chain + [t])) % M64)
  }

  /** Only compound members have terms. */
  function CppSum(g: Graph, t: string, k: nat, chain: seq<string>): nat
    requires Closed(g) && t in g && k <= |g[t].members|
    decreases Unvisited(g, chain), 1, k
  {
    if k == 0 then 0
    else if g[t].members[k - 1].Prim? then CppSum(g, t, k - 1, chain)
    else CppSum(g, t, k - 1, chain) + CppHash(g, g[t].members[k - 1].name, chain)
  }

  /** The chain only ever holds types with compound members. */
  ghost predicate ComplexChain(g: Graph, chain: seq<string>) {
    forall i | 0 <= i < |chain| :: chain[i] in g && Complex(g, chain[i])
  }

  /** Both back ends compute the same hash from any chain they can build. */
  lemma {:induction false} BackendsAgree(g: Graph, t: string, chain: seq<string>)
    requires Closed(g) && t in g && ComplexChain(g, chain)
    ensures CHash(g, t, chain) == CppHash(g, t, chain)
    decreases Unvisited(g, chain), 0, 0
  {
    hide CSum, CppSum, Rotate, Unvisited, Closed;
    if !Complex(g, t) {
      assert t !in chain;
      Descend(g, chain, t);
      LeafSum(g, t, |g[t].members|, chain + [t]);
    } else if t !in chain {
      Descend(g, chain, t);
      SumsAgree(g, t, |g[t].members|, chain + [t]);
    }
  }

  lemma {:induction false} LeafSum(g: Graph, t: string, k: nat, chain: seq<string>)
    requires Closed(g) && t in g && !Complex(g, t) && k <= |g[t].members|
    ensures CSum(g, t, k, chain) == 0
    decreases k
  {
    if k > 0 {
      LeafSum(g, t, k - 1, chain);
      assert !g[t].members[k - 1].Ref?;
    }
  }

  lemma {:induction false} SumsAgree(g: Graph, t: string, k: nat, chain: seq<string>)
    requires Closed(g) && t in g && ComplexChain(g, chain) && k <= |g[t].members|
    ensures CSum(g, t, k, chain) == CppSum(g, t, k, chain)
    decreases Unvisited(g, chain), 1, k
  {
    if k > 0 {
      SumsAgree(g, t, k - 1, chain);
      if g[t].members[k - 1].Ref? {
        BackendsAgree(g, g[t].members[k - 1].name, chain);
      }
    }
  }

  /** The fingerprint of a message type: the hash from an empty chain. */
  function Fingerprint(g: Graph, t: string): U64
    requires Closed(g) && t in g
  {
    CHash(g, t, [])
  }

  lemma FingerprintsAgree(g: Graph, t: string)
    requires Closed(g) && t in g
    ensures Fingerprint(g, t) == CppHash(g, t, [])
  {
    BackendsAgree(g, t, []);
  }

  /* ---------- sensitivity ---------- */

  function WithHash(g: Graph, t: string, hash: U64): (g': Graph)
    requires Closed(g) && t in g
    ensures Closed(g') && g'.Keys == g.Keys
  {
    g[t := g[t].(hash := hash)]
  }

  /** Below a type, its own hash is never looked at. */
  lemma {:induction false} BelowUnaffected(g: Graph, t: string, hash: U64, u: string, chain: seq<string>)
    requires Closed(g) && t in g && u in g && t in chain
    ensures CHash(WithHash(g, t, hash), u, chain) == CHash(g, u, chain)
    decreases Unvisited(g, chain), 0, 0
  {
    if u !in chain {
      Descend(g, chain, u);
      SumUnaffected(g, t, hash, u, |g[u].members|, chain + [u]);
    }
  }

  lemma {:induction false} SumUnaffected(g: Graph, t: string, hash: U64, u: string, k: nat, chain: seq<string>)
    requires Closed(g) && t in g && u in g && t in chain && k <= |g[u].members|
    ensures CSum(WithHash(g, t, hash), u, k, chain) == CSum(g, u, k, chain)
    decreases Unvisited(g, chain), 1, k
  {
    if k > 0 {
      SumUnaffected(g, t, hash, u, k - 1, chain);
      if g[u].members[k - 1].Ref? {
        BelowUnaffected(g, t, hash, g[u].members[k - 1].name, chain);
      }
    }
  }

  /** Changing a struct's own hash always changes its fingerprint, in any type graph. */
  lemma OwnHashMatters(g: Graph, t: string, hash: U64)
    requires Closed(g) && t in g && hash != g[t].hash
    ensures Fingerprint(WithHash(g, t, hash), t) != Fingerprint(g, t)
  {
    TermMoves(g, t, hash, []);
  }

  lemma SumDiffers(a: U64, b: U64, sum: nat)
    requires a != b
    ensures (a + sum) % M64 != (b + sum) % M64
  {
  }

  /* ---------- nested types ---------- */

  /** How many of the first k members of t have type u. */
  function Occurs(g: Graph, t: string, k: nat, u: string): nat
    requires t in g && k <= |g[t].members|
  {
    if k == 0 then 0 else Occurs(g, t, k - 1, u) + if g[t].members[k - 1] == Ref(u) then 1 else 0
  }

  /** A set of types that refer only to each other. */
  ghost predicate ClosedSet(g: Graph, types: set<string>) {
    forall x, i | x in types && x in g && 0 <= i < |g[x].members| && g[x].members[i].Ref? :: g[x].members[i].name in types
  }

  /** Types that do not lead to u do not see its hash. */
  lemma {:induction false} AsideUnaffected(g: Graph, u: string, hash: U64, types: set<string>, x: string, chain: seq<string>)
    requires Closed(g) && u in g && x in g && x in types && u !in types && ClosedSet(g, types)
    ensures CHash(WithHash(g, u, hash), x, chain) == CHash(g, x, chain)
    decreases Unvisited(g, chain), 0, 0
  {
    if x !in chain {
      Descend(g, chain, x);
      AsideSum(g, u, hash, types, x, |g[x].members|, chain + [x]);
    }
  }

  lemma {:induction false} AsideSum(g: Graph, u: string, hash: U64, types: set<string>, x: string, k: nat, chain: seq<string>)
    requires Closed(g) && u in g && x in g && x in types && u !in types && ClosedSet(g, types) && k <= |g[x].members|
    ensures CSum(WithHash(g, u, hash), x, k, chain) == CSum(g, x, k, chain)
    decreases Unvisited(g, chain), 1, k
  {
    if k > 0 {
      AsideSum(g, u, hash, types, x, k - 1, chain);
      if g[x].members[k - 1].Ref? {
        AsideUnaffected(g, u, hash, types, g[x].members[k - 1].name, chain);
      }
    }
  }

  /** Every member of t is primitive, of type u, or of a type that does not lead to u. */
  ghost predicate OnlyDirectly(g: Graph, t: string, u: string, types: set<string>)
    requires t in g
  {
    && u !in types && ClosedSet(g, types)
    && forall i | 0 <= i < |g[t].members| && g[t].members[i].Ref? :: g[t].members[i].name == u || g[t].members[i].name in types
  }

  /** The members' sum moves with the term of u, once for each member of that type. */
  lemma {:induction false} SumMoves(g: Graph, t: string, k: nat, u: string, hash: U64, types: set<string>, chain: seq<string>)
    requires Closed(g) && t in g && u in g && OnlyDirectly(g, t, u, types) && k <= |g[t].members|
    ensures CSum(WithHash(g, u, hash), t, k, chain)
            == CSum(g, t, k, chain) + Occurs(g, t, k, u) * (CHash(WithHash(g, u, hash), u, chain) - CHash(g, u, chain))
    decreases k
  {
    hide CHash, CSum;
    var g' := WithHash(g, u, hash);
    var delta, n: int := CHash(g', u, chain) - CHash(g, u, chain), Occurs(g, t, k, u);
    CSumNext(g, t, k, chain);
    CSumNext(g', t, k, chain);
    if k > 0 {
      SumMoves(g, t, k - 1, u, hash, types, chain);
      OneMore(n - 1, delta);
      if g[t].members[k - 1].Ref? && g[t].members[k - 1].name != u {
        AsideUnaffected(g, u, hash, types, g[t].members[k - 1].name, chain);
      }
    }
  }

  lemma OneMore(n: int, delta: int)
    ensures (n + 1) * delta == n * delta + delta
  {
  }

  lemma CSumNext(g: Graph, t: string, k: nat, chain: seq<string>)
    requires Closed(g) && t in g && k <= |g[t].members|
    ensures k == 0 ==> CSum(g, t, k, chain) == 0
    ensures k > 0 ==> CSum(g, t, k, chain)
                      == CSum(g, t, k - 1, chain)
                         + if g[t].members[k - 1].Ref? then CHash(g, g[t].members[k - 1].name, chain) else 0
  {
    hide CHash;
  }

  /** From any chain that does not hold it, a type's hash follows its own. */
  lemma TermMoves(g: Graph, u: string, hash: U64, chain: seq<string>)
    requires Closed(g) && u in g && u !in chain && hash != g[u].hash
    ensures CHash(WithHash(g, u, hash), u, chain) != CHash(g, u, chain)
  {
    hide CSum, Rotate, Unvisited;
    var n := |g[u].members|;
    Descend(g, chain, u);
    SumUnaffected(g, u, hash, u, n, chain + [u]);
    var sum := CSum(g, u, n, chain + [u]);
    SumDiffers(g[u].hash, hash, sum);
    if CHash(WithHash(g, u, hash), u, chain) == CHash(g, u, chain) {
      RotateInjective((g[u].hash + sum) % M64, (hash + sum) % M64);
    }
  }

  /** A type's hash counts in every struct that has members of it: the struct's fingerprint stays exactly
      when the number of those members times the change of their term is a multiple of 2^64. */
  lemma NestedExactly(g: Graph, t: string, u: string, hash: U64, types: set<string>)
    requires Closed(g) && t in g && u in g && t != u && OnlyDirectly(g, t, u, types)
    ensures var g', n := WithHash(g, u, hash), Occurs(g, t, |g[t].members|, u);
            Fingerprint(g', t) == Fingerprint(g, t) <==> n * (CHash(g', u, [t]) - CHash(g, u, [t])) % M64 == 0
  {
    hide CSum, CHash, Rotate, Occurs, OnlyDirectly, Fingerprint, Closed;
    var g', k := WithHash(g, u, hash), |g[t].members|;
    var shift := Occurs(g, t, k, u) * (CHash(g', u, [t]) - CHash(g, u, [t]));
    SumMoves(g, t, k, u, hash, types, [t]);
    FingerprintIs(g, t);
    FingerprintIs(g', t);
    var a, b := g[t].hash + CSum(g, t, k, [t]), g'[t].hash + CSum(g', t, k, [t]);
    assert b - a == shift;
    SameRotated(a, b);
  }

  lemma FingerprintIs(g: Graph, t: string)
    requires Closed(g) && t in g
    ensures Fingerprint(g, t) == Rotate((g[t].hash + CSum(g, t, |g[t].members|, [t])) % M64)
  {
    hide CSum, Rotate;
    assert [] + [t] == [t];
  }

  lemma SameRotated(a: int, b: int)
    ensures Rotate(a % M64) == Rotate(b % M64) <==> (b - a) % M64 == 0
  {
    hide Rotate;
    SameResidue(a, b);
    if Rotate(a % M64) == Rotate(b % M64) { RotateInjective(a % M64, b % M64); }
  }

  lemma SameResidue(a: int, b: int)
    ensures a % M64 == b % M64 <==> (b - a) % M64 == 0
  {
    var p, q := a / M64, b / M64;
    assert b - a == (q - p) * M64 + (b % M64 - a % M64);
    Modulo(b % M64 - a % M64, q - p);
  }

  /** So with one member of that type any change of its hash changes the fingerprint. */
  lemma NestedHashMatters(g: Graph, t: string, u: string, hash: U64, types: set<string>)
    requires Closed(g) && t in g && u in g && t != u && OnlyDirectly(g, t, u, types) && hash != g[u].hash
    requires Occurs(g, t, |g[t].members|, u) == 1
    ensures Fingerprint(WithHash(g, u, hash), t) != Fingerprint(g, t)
  {
    hide CHash, Fingerprint, Occurs, OnlyDirectly;
    NestedExactly(g, t, u, hash, types);
    TermMoves(g, u, hash, [t]);
    var delta := CHash(WithHash(g, u, hash), u, [t]) - CHash(g, u, [t]);
    NotZero(delta);
    assert 1 * delta == delta;
  }

  /** So changing only the width of a bit field of a struct, wherever it stands in the type graph,
      changes the fingerprint that its decoder insists on. */
  lemma WidthChangesFingerprint(g: Graph, t: string, opts: HashOptions, name: seq<Char>, ms: seq<HashMember>, k: nat, width: nat)
    requires Closed(g) && t in g && g[t].hash == HashAll(HASH_SEED, StructInput(opts, name, ms))
    requires k < |ms| && ms[k].primitive && 0 < ms[k].numBits < 256 && 0 < width < 256 && width != ms[k].numBits
    ensures Fingerprint(WithHash(g, t, HashAll(HASH_SEED, StructInput(opts, name, ms[k := ms[k].(numBits := width)]))), t)
            != Fingerprint(g, t)
  {
    WidthMatters(opts, name, ms, k, width);
    OwnHashMatters(g, t, HashAll(HASH_SEED, StructInput(opts, name, ms[k := ms[k].(numBits := width)])));
  }
}
