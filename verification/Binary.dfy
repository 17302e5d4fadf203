/** Binary notation, most significant bit first, and the C operators the codecs use on it.
    Halving is Euclidean, so shifting right is arithmetic and the notation of a negative
    number is its two's complement. */
module Binary {

  type Byte = x: int | 0 <= x < 256

  function Pow2(n: nat): (p: nat)
    ensures p > 0
  {
    if n == 0 then 1 else 2 * Pow2(n - 1)
  }

  lemma Pow2Byte()
    ensures Pow2(8) == 256 && Pow2(7) == 128 && Pow2(6) == 64 && Pow2(5) == 32
    ensures Pow2(4) == 16 && Pow2(3) == 8 && Pow2(2) == 4 && Pow2(1) == 2
  {
  }

  lemma {:induction false} Pow2Times256(n: nat)
    ensures Pow2(n + 8) == 256 * Pow2(n)
  {
    assert Pow2(n + 8) == 2 * Pow2(n + 7) == 4 * Pow2(n + 6) == 8 * Pow2(n + 5) == 16 * Pow2(n + 4);
    assert Pow2(n + 4) == 2 * Pow2(n + 3) == 4 * Pow2(n + 2) == 8 * Pow2(n + 1);
  }

  lemma Pow2At31()
    ensures Pow2(31) == 0x8000_0000
  {
    Pow2Byte();
    Pow2Times256(7);
    Pow2Times256(15);
    Pow2Times256(23);
  }

  lemma Pow2At56()
    ensures Pow2(56) == 0x100_0000_0000_0000
  {
    Pow2Byte();
    Pow2Times256(8);
    Pow2Times256(16);
    Pow2Times256(24);
    Pow2Times256(32);
    Pow2Times256(40);
    Pow2Times256(48);
  }

  /* ---------- shifts and residues ---------- */

  /** x << n on an unbounded number. */
  function Shl(x: int, n: nat): (r: int)
    ensures x >= 0 ==> r >= x
    decreases n, x
  {
    if n == 0 then x else 2 * Shl(x, n - 1)
  }

  /** x >> n, arithmetic. */
  function Shr(x: int, n: nat): (r: int)
    ensures x >= 0 ==> 0 <= r <= x
    decreases n, x
  {
    if n == 0 then x else Shr(x / 2, n - 1)
  }

  /** x modulo 2^n. */
  function Low(x: int, n: nat): (r: nat)
    ensures r < Pow2(n)
    decreases n, x
  {
    if n == 0 then 0 else 2 * Low(x / 2, n - 1) + x % 2
  }

  lemma Shl8(x: int)
    ensures Shl(x, 8) == 256 * x
  {
    assert Shl(x, 8) == 2 * Shl(x, 7) == 4 * Shl(x, 6) == 8 * Shl(x, 5) == 16 * Shl(x, 4);
    assert Shl(x, 4) == 2 * Shl(x, 3) == 4 * Shl(x, 2) == 8 * Shl(x, 1) == 16 * x;
  }

  lemma {:induction false} ShlAdd(x: int, a: nat, b: nat)
    ensures Shl(Shl(x, a), b) == Shl(x, a + b)
    decreases b
  {
    if b > 0 {
      ShlAdd(x, a, b - 1);
    }
  }

  lemma {:induction false} ShlSum(x: int, y: int, n: nat)
    ensures Shl(x + y, n) == Shl(x, n) + Shl(y, n)
    decreases n
  {
    if n > 0 {
      ShlSum(x, y, n - 1);
    }
  }

  lemma {:induction false} ShrAdd(x: int, a: nat, b: nat)
    ensures Shr(Shr(x, a), b) == Shr(x, a + b)
    decreases a
  {
    if a > 0 {
      ShrAdd(x / 2, a - 1, b);
    }
  }

  /** Reading back a number written above n low bits. */
  lemma {:induction false} ShlDigit(q: int, x: nat, n: nat)
    requires x < Pow2(n)
    ensures Shr(Shl(q, n) + x, n) == q && Low(Shl(q, n) + x, n) == x
    decreases n
  {
    if n > 0 {
      ShlDigit(q, x / 2, n - 1);
      assert (Shl(q, n) + x) / 2 == Shl(q, n - 1) + x / 2;
    }
  }

  lemma {:induction false} ShrLow(x: int, n: nat)
    ensures Shl(Shr(x, n), n) + Low(x, n) == x
    decreases n
  {
    if n > 0 {
      ShrLow(x / 2, n - 1);
    }
  }

  lemma {:induction false} ShlBound(q: nat, z: nat, m: nat, k: nat)
    requires q < Pow2(m) && z < Pow2(k)
    ensures Shl(q, k) + z < Pow2(m + k)
    decreases k
  {
    if k > 0 {
      ShlBound(q, z / 2, m, k - 1);
    }
  }

  lemma {:induction false} ShrBound(x: nat, m: nat, k: nat)
    requires x < Pow2(m + k)
    ensures Shr(x, k) < Pow2(m)
    decreases k
  {
    if k > 0 {
      ShrBound(x / 2, m, k - 1);
    }
  }

  lemma {:induction false} LowSmall(x: nat, n: nat)
    requires x < Pow2(n)
    ensures Low(x, n) == x
    decreases n
  {
    if n > 0 {
      LowSmall(x / 2, n - 1);
    }
  }

  /** Adding a multiple of 2^n changes nothing below. */
  lemma {:induction false} LowShift(x: int, k: int, n: nat)
    ensures Low(x + Shl(k, n), n) == Low(x, n)
    decreases n
  {
    if n > 0 {
      LowShift(x / 2, k, n - 1);
      assert (x + Shl(k, n)) / 2 == x / 2 + Shl(k, n - 1);
    }
  }

  lemma {:induction false} LowLow(x: int, m: nat, n: nat)
    requires n <= m
    ensures Low(Low(x, m), n) == Low(x, n)
    decreases n
  {
    if n > 0 {
      LowLow(x / 2, m - 1, n - 1);
      assert Low(x, m) / 2 == Low(x / 2, m - 1);
    }
  }

  /* ---------- binary notation ---------- */

  /** The low n bits of v, most significant first. */
  function Bits(v: int, n: nat): (s: seq<bool>)
    ensures |s| == n
    decreases n, v
  {
    if n == 0 then [] else Bits(v / 2, n - 1) + [v % 2 == 1]
  }

  /** The number that a bit sequence denotes. */
  function Num(s: seq<bool>): nat {
    if s == [] then 0 else 2 * Num(s[..|s| - 1]) + (if s[|s| - 1] then 1 else 0)
  }

  function Zeros(n: nat): (s: seq<bool>)
    ensures |s| == n && forall i | 0 <= i < n :: !s[i]
  {
    seq(n, _ => false)
  }

  lemma {:induction false} NumBits(v: int, n: nat)
    ensures Num(Bits(v, n)) == Low(v, n)
    decreases n
  {
    if n > 0 {
      NumBits(v / 2, n - 1);
      assert Bits(v, n)[..n - 1] == Bits(v / 2, n - 1);
    }
  }

  lemma {:induction false} NumBound(s: seq<bool>)
    ensures Num(s) < Pow2(|s|)
  {
    if s != [] {
      NumBound(s[..|s| - 1]);
    }
  }

  lemma {:induction false} NumConcat(s: seq<bool>, t: seq<bool>)
    ensures Num(s + t) == Shl(Num(s), |t|) + Num(t)
  {
    if t == [] {
      assert s + t == s;
    } else {
      var t' := t[..|t| - 1];
      assert (s + t)[..|s + t| - 1] == s + t';
      NumConcat(s, t');
    }
  }

  /** Cutting the notation of v in two. */
  lemma {:induction false} BitsSplit(v: int, a: nat, b: nat)
    ensures Bits(v, a + b) == Bits(Shr(v, b), a) + Bits(v, b)
    decreases b
  {
    if b > 0 {
      BitsSplit(v / 2, a, b - 1);
    }
  }

  /** Only the residue modulo 2^m shows in n <= m bits. */
  lemma {:induction false} BitsLow(v: int, m: nat, n: nat)
    requires n <= m
    ensures Bits(Low(v, m), n) == Bits(v, n)
    decreases n
  {
    if n > 0 {
      BitsLow(v / 2, m - 1, n - 1);
      assert Low(v, m) / 2 == Low(v / 2, m - 1);
    }
  }

  lemma {:induction false} BitsZero(n: nat)
    ensures Bits(0, n) == Zeros(n)
  {
    if n > 0 {
      BitsZero(n - 1);
    }
  }

  lemma BitsInjective(a: nat, b: nat, n: nat)
    requires a < Pow2(n) && b < Pow2(n)
    requires Bits(a, n) == Bits(b, n)
    ensures a == b
  {
    NumBits(a, n);
    NumBits(b, n);
    LowSmall(a, n);
    LowSmall(b, n);
  }

  /* ---------- C operators ---------- */

  /** Bitwise or. */
  function Or(a: nat, b: nat): nat
    decreases a + b
  {
    if a == 0 && b == 0 then 0
    else 2 * Or(a / 2, b / 2) + (if a % 2 == 1 || b % 2 == 1 then 1 else 0)
  }

  /** Bitwise and. */
  function And(a: nat, b: nat): nat {
    if a == 0 then 0
    else 2 * And(a / 2, b / 2) + (if a % 2 == 1 && b % 2 == 1 then 1 else 0)
  }

  lemma {:induction false} OrZero(a: nat)
    ensures Or(a, 0) == a
  {
    if a > 0 {
      OrZero(a / 2);
    }
  }

  /** Or-ing into bits that are still zero adds. */
  lemma {:induction false} OrDisjoint(a: nat, b: nat, k: nat)
    requires Low(a, k) == 0 && b < Pow2(k)
    ensures Or(a, b) == a + b
    decreases k
  {
    if k == 0 {
      OrZero(a);
    } else {
      OrDisjoint(a / 2, b / 2, k - 1);
    }
  }

  lemma {:induction false} AndZero(x: nat)
    ensures And(x, 0) == 0
  {
    if x > 0 {
      AndZero(x / 2);
    }
  }

  lemma {:induction false} AndMask(x: nat, k: nat)
    ensures And(x, Pow2(k) - 1) == Low(x, k)
    decreases k
  {
    if k == 0 {
      AndZero(x);
    } else {
      AndMask(x / 2, k - 1);
      var m := Pow2(k) - 1;
      assert m / 2 == Pow2(k - 1) - 1 && m % 2 == 1;
    }
  }

  /** A mask of k ones above t zeros selects k bits in place. */
  lemma {:induction false} AndShiftedMask(x: nat, k: nat, t: nat)
    ensures And(x, Shl(Pow2(k) - 1, t)) == Shl(Low(Shr(x, t), k), t)
    decreases t
  {
    if t == 0 {
      AndMask(x, k);
    } else {
      AndShiftedMask(x / 2, k, t - 1);
      var m := Shl(Pow2(k) - 1, t);
      assert m / 2 == Shl(Pow2(k) - 1, t - 1) && m % 2 == 0;
    }
  }

  /* ---------- bytes ---------- */

  /** The bits of a byte string. */
  function ToBits(bs: seq<Byte>): (s: seq<bool>)
    ensures |s| == 8 * |bs|
  {
    if bs == [] then [] else ToBits(bs[..|bs| - 1]) + Bits(bs[|bs| - 1], 8)
  }

  lemma {:induction false} ToBitsConcat(a: seq<Byte>, b: seq<Byte>)
    ensures ToBits(a + b) == ToBits(a) + ToBits(b)
  {
    if b == [] {
      assert a + b == a;
    } else {
      var b' := b[..|b| - 1];
      assert (a + b)[..|a + b| - 1] == a + b';
      ToBitsConcat(a, b');
    }
  }

  lemma ToBitsOne(b: Byte)
    ensures ToBits([b]) == Bits(b, 8)
  {
    assert [b][..0] == [];
  }

  /** The bits of one byte within its string. */
  lemma ToBitsAt(bs: seq<Byte>, i: nat)
    requires i < |bs|
    ensures ToBits(bs)[8 * i..8 * i + 8] == Bits(bs[i], 8)
  {
    hide ToBits, Bits;
    ToBitsSlice(bs, i, 1);
    assert bs[i..i + 1] == [bs[i]];
    ToBitsOne(bs[i]);
  }

  lemma ToBitsSlice(bs: seq<Byte>, i: nat, n: nat)
    requires i + n <= |bs|
    ensures ToBits(bs)[8 * i..8 * i + 8 * n] == ToBits(bs[i..i + n])
  {
    hide ToBits;
    var a, b, c := bs[..i], bs[i..i + n], bs[i + n..];
    assert bs == a + b + c;
    ToBitsConcat(a + b, c);
    ToBitsConcat(a, b);
  }

  lemma SubSlice<T>(s: seq<T>, a: nat, b: nat, i: nat, j: nat)
    requires a <= b <= |s| && i <= j <= b - a
    ensures s[a..b][i..j] == s[a + i..a + j]
  {
    var x, y := s[a..b][i..j], s[a + i..a + j];
    forall t | 0 <= t < j - i ensures x[t] == y[t] {
      assert x[t] == s[a..b][i + t] == s[a + (i + t)];
    }
  }

  lemma SplitEqual<T>(a: seq<T>, b: seq<T>, c: seq<T>, d: seq<T>)
    requires |a| == |c| && a + b == c + d
    ensures a == c && b == d
  {
    assert a == (a + b)[..|a|] && b == (a + b)[|a|..];
    assert c == (c + d)[..|a|] && d == (c + d)[|a|..];
  }

  lemma {:induction false} ToBitsInjective(a: seq<Byte>, b: seq<Byte>)
    requires ToBits(a) == ToBits(b)
    ensures a == b
  {
    assert |a| == |b|;
    if a == [] {
    } else {
      var n := |a| - 1;
      SplitEqual(ToBits(a[..n]), Bits(a[n], 8), ToBits(b[..n]), Bits(b[n], 8));
      ToBitsInjective(a[..n], b[..n]);
      Pow2Byte();
      BitsInjective(a[n], b[n], 8);
      assert a == a[..n] + [a[n]] && b == b[..n] + [b[n]];
    }
  }

  /** A place in a buffer. */
  datatype Pos = Pos(byte: nat, bit: nat)

  predicate Inside(pos: Pos, buf: seq<Byte>) {
    pos.bit < 8 && pos.byte + (if pos.bit > 0 then 1 else 0) <= |buf|
  }

  /** The bits before a position: whole bytes, then the top bits of the byte being filled. */
  function Stream(buf: seq<Byte>, pos: Pos): (s: seq<bool>)
    requires Inside(pos, buf)
    ensures |s| == 8 * pos.byte + pos.bit
  {
    if pos.bit == 0 then ToBits(buf[..pos.byte])
    else ToBits(buf[..pos.byte]) + Bits(Shr(buf[pos.byte], 8 - pos.bit), pos.bit)
  }

  /** The bits of the current byte that are not in the stream yet are zero. */
  predicate Clean(buf: seq<Byte>, pos: Pos)
    requires Inside(pos, buf)
  {
    pos.bit > 0 ==> Low(buf[pos.byte], 8 - pos.bit) == 0
  }

  /** Zero bits up to the next multiple of eight. */
  function Align(s: seq<bool>): (t: seq<bool>)
    ensures |t| % 8 == 0 && |s| <= |t| < |s| + 8 && s <= t
  {
    s + Zeros((8 - |s| % 8) % 8)
  }

  lemma StreamCongruent(a: seq<Byte>, b: seq<Byte>, pos: Pos)
    requires Inside(pos, a) && |a| == |b|
    requires a[..pos.byte] == b[..pos.byte]
    requires pos.bit > 0 ==> a[pos.byte] == b[pos.byte]
    ensures Stream(a, pos) == Stream(b, pos)
  {
  }
}
