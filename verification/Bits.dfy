/**
 Bit strings, shifts, and the fixed-width integers of the source.

 Shifts are defined by repeated halving and doubling, so that facts about them are proved by
 induction over the shift distance with linear arithmetic only.
 */
module Bits {

  type byte = x: int | 0 <= x < 256
  type u16 = x: int | 0 <= x < 0x1_0000
  type u32 = x: int | 0 <= x < 0x1_0000_0000

  const TWO_63 := 0x8000_0000_0000_0000
  const TWO_64 := 0x1_0000_0000_0000_0000

  type int64 = x: int | -TWO_63 <= x < TWO_63

  /** Conversion to uint64 and to int64 wraps around. */
  function U64(x: int): nat {
    x % TWO_64
  }

  function Int64(x: int): int64 {
    (x + TWO_63) % TWO_64 - TWO_63
  }

  // ---------------------------------------------------------------- shifts

  function Shl(x: nat, k: nat): (r: nat)
    ensures x <= r
  {
    if k == 0 then x else 2 * Shl(x, k - 1)
  }

  function Shr(x: nat, k: nat): (r: nat)
    ensures r <= x
  {
    if k == 0 then x else Shr(x / 2, k - 1)
  }

  /** The low `k` bits of `x`. */
  function Low(x: nat, k: nat): nat {
    if k == 0 then 0 else 2 * Low(x / 2, k - 1) + x % 2
  }

  function Pow2(k: nat): (p: nat)
    ensures p >= 1
  {
    Shl(1, k)
  }

  lemma {:induction false} ShlPlus(x: nat, y: nat, k: nat)
    ensures Shl(x + y, k) == Shl(x, k) + Shl(y, k)
  {
    if k > 0 {
      ShlPlus(x, y, k - 1);
    }
  }

  lemma ShlMono(x: nat, y: nat, k: nat)
    requires x <= y
    ensures Shl(x, k) <= Shl(y, k)
    ensures x < y ==> Shl(x, k) + Pow2(k) <= Shl(y, k)
  {
    ShlPlus(x, y - x, k);
    if x < y {
      ShlPlus(1, y - x - 1, k);
    }
  }

  lemma {:induction false} ShlAdd(x: nat, a: nat, b: nat)
    ensures Shl(Shl(x, a), b) == Shl(x, a + b)
  {
    if b > 0 {
      ShlAdd(x, a, b - 1);
    }
  }

  lemma ShlInjective(x: nat, y: nat, k: nat)
    requires Shl(x, k) == Shl(y, k)
    ensures x == y
  {
    if x < y {
      ShlMono(x, y, k);
    } else if y < x {
      ShlMono(y, x, k);
    }
  }

  lemma {:induction false} ShrAdd(x: nat, a: nat, b: nat)
    ensures Shr(Shr(x, a), b) == Shr(x, a + b)
  {
    if a > 0 {
      ShrAdd(x / 2, a - 1, b);
    }
  }

  /** Splitting a number at bit `k`. */
  lemma {:induction false} ShrLow(x: nat, k: nat)
    ensures x == Shl(Shr(x, k), k) + Low(x, k)
    ensures Low(x, k) < Pow2(k)
  {
    if k > 0 {
      ShrLow(x / 2, k - 1);
    }
  }

  /** The splitting is unique. */
  lemma {:induction false} ShrUnique(q: nat, r: nat, k: nat)
    requires r < Pow2(k)
    ensures Shr(Shl(q, k) + r, k) == q
    ensures Low(Shl(q, k) + r, k) == r
  {
    if k > 0 {
      ShrUnique(q, r / 2, k - 1);
      assert (Shl(q, k) + r) / 2 == Shl(q, k - 1) + r / 2;
    }
  }

  /** `x >> k == q` says that `x` lies in the interval of numbers that start with `q`. */
  lemma ShrInterval(x: nat, k: nat, q: nat)
    ensures Shr(x, k) == q <==> Shl(q, k) <= x < Shl(q, k) + Pow2(k)
  {
    ShrLow(x, k);
    if Shl(q, k) <= x < Shl(q, k) + Pow2(k) {
      ShrUnique(q, x - Shl(q, k), k);
    }
  }

  lemma ShrLess(x: nat, k: nat, q: nat)
    ensures Shr(x, k) < q <==> x < Shl(q, k)
  {
    ShrLow(x, k);
    if Shr(x, k) < q {
      ShlMono(Shr(x, k), q, k);
    } else {
      ShlMono(q, Shr(x, k), k);
    }
  }

  /** Shifting a concatenation cuts only its lower part. */
  lemma {:induction false} ShrConcat(q: nat, z: nat, a: nat, b: nat)
    ensures Shr(Shl(q, a + b) + z, a) == Shl(q, b) + Shr(z, a)
  {
    if a > 0 {
      assert (Shl(q, a + b) + z) / 2 == Shl(q, a - 1 + b) + z / 2;
      ShrConcat(q, z / 2, a - 1, b);
    }
  }

  lemma Pow2Add(a: nat, b: nat)
    ensures Pow2(a + b) == Shl(Pow2(a), b)
  {
    ShlAdd(1, a, b);
  }

  lemma Shl8(x: nat)
    ensures Shl(x, 3) == 8 * x && Shl(x, 4) == 16 * x && Shl(x, 7) == 128 * x && Shl(x, 8) == 256 * x
  {
    assert Shl(x, 1) == 2 * x;
    assert Shl(x, 2) == 4 * x;
    assert Shl(x, 4) == 16 * x;
    assert Shl(x, 6) == 64 * x;
  }

  lemma ShlConstants(x: nat)
    ensures Shl(x, 9) == 512 * x && Shl(x, 16) == 0x1_0000 * x
    ensures Shl(x, 23) == 0x80_0000 * x && Shl(x, 32) == 0x1_0000_0000 * x
  {
    Shl8(x);
    ShlAdd(x, 8, 8);
    Shl8(Shl(x, 8));
    ShlAdd(x, 16, 7);
    Shl8(Shl(x, 16));
    ShlAdd(x, 16, 16);
    ShlAdd(Shl(x, 16), 8, 8);
    Shl8(Shl(Shl(x, 16), 8));
  }

  lemma SmallPowers()
    ensures Pow2(1) == 2 && Pow2(3) == 8 && Pow2(4) == 16 && Pow2(5) == 32 && Pow2(16) == 0x1_0000
  {
    ShlConstants(1);
  }

  // ---------------------------------------------------------------- bit strings

  /** The number a bit string denotes, most significant bit first. */
  function Val(s: seq<bool>): nat {
    if s == [] then 0
    else 2 * Val(s[..|s| - 1]) + (if s[|s| - 1] then 1 else 0)
  }

  /** The low `n` bits of `x`, most significant first. */
  function ToBits(x: nat, n: nat): (s: seq<bool>)
    ensures |s| == n
  {
    if n == 0 then [] else ToBits(x / 2, n - 1) + [x % 2 == 1]
  }

  function Zeros(n: nat): (s: seq<bool>)
    ensures |s| == n
  {
    seq(n, _ => false)
  }

  lemma {:induction false} ValBound(s: seq<bool>)
    ensures Val(s) < Pow2(|s|)
  {
    if s != [] {
      ValBound(s[..|s| - 1]);
    }
  }

  lemma {:induction false} ValConcat(a: seq<bool>, b: seq<bool>)
    ensures Val(a + b) == Shl(Val(a), |b|) + Val(b)
  {
    if b == [] {
      assert a + b == a;
    } else {
      var b' := b[..|b| - 1];
      assert (a + b)[..|a + b| - 1] == a + b';
      ValConcat(a, b');
    }
  }

  lemma {:induction false} ValZeros(n: nat)
    ensures Val(Zeros(n)) == 0
  {
    if n > 0 {
      assert Zeros(n)[..n - 1] == Zeros(n - 1);
      ValZeros(n - 1);
    }
  }

  lemma {:induction false} ValInjective(a: seq<bool>, b: seq<bool>)
    requires |a| == |b| && Val(a) == Val(b)
    ensures a == b
  {
    if a != [] {
      ValInjective(a[..|a| - 1], b[..|b| - 1]);
      assert a == a[..|a| - 1] + [a[|a| - 1]];
      assert b == b[..|b| - 1] + [b[|b| - 1]];
    }
  }

  lemma {:induction false} ValToBits(x: nat, n: nat)
    requires x < Pow2(n)
    ensures Val(ToBits(x, n)) == x
  {
    if n > 0 {
      ValToBits(x / 2, n - 1);
      assert ToBits(x, n)[..n - 1] == ToBits(x / 2, n - 1);
    }
  }

  lemma {:induction false} ToBitsVal(s: seq<bool>)
    ensures Val(s) < Pow2(|s|)
    ensures ToBits(Val(s), |s|) == s
  {
    ValBound(s);
    ValToBits(Val(s), |s|);
    ValInjective(ToBits(Val(s), |s|), s);
  }

  /** Splitting a bit string splits its value. */
  lemma {:induction false} ValSplit(s: seq<bool>, n: nat)
    requires n <= |s|
    ensures Shr(Val(s), |s| - n) == Val(s[..n])
    ensures Low(Val(s), |s| - n) == Val(s[n..])
  {
    assert s == s[..n] + s[n..];
    ValConcat(s[..n], s[n..]);
    ValBound(s[n..]);
    ShrUnique(Val(s[..n]), Val(s[n..]), |s| - n);
  }

  /** The bits of a 32-bit register. */
  lemma {:induction false} RegisterBits(c: u32) returns (w: seq<bool>)
    ensures |w| == 32 && Val(w) == c
  {
    w := ToBits(c, 32);
    ShlConstants(1);
    ValToBits(c, 32);
  }

  /** The leading bits of a 32-bit register. */
  lemma {:induction false} RegisterPrefix(c: u32, n: nat)
    requires n <= 32
    ensures Shr(c, 32 - n) < Pow2(n)
  {
    Pow2Add(n, 32 - n);
    ShlConstants(1);
    ShrLess(c, 32 - n, Pow2(n));
  }

  /** Shifting a 32-bit register left drops its leading bits. */
  lemma {:induction false} ShiftOut(w: seq<bool>, n: nat)
    requires |w| == 32 && n <= 32
    ensures Shl(Val(w), n) % 0x1_0000_0000 == Val(w[n..] + Zeros(n))
  {
    hide Val, Shl;
    var v := w[n..] + Zeros(n);
    ValConcat(w, Zeros(n));
    ValZeros(n);
    assert w + Zeros(n) == w[..n] + v;
    ValConcat(w[..n], v);
    ShlConstants(Val(w[..n]));
    ValBound(v);
    ShlConstants(1);
    RemainderIs(Val(w[..n]), Val(v));
  }

  lemma RemainderIs(q: nat, r: u32)
    ensures (0x1_0000_0000 * q + r) % 0x1_0000_0000 == r
  {
  }

  // ---------------------------------------------------------------- remainders

  lemma MulMono(x: int, y: int, z: int)
    requires x <= y && 0 <= z
    ensures x * z <= y * z
  {
  }

  lemma MulCancelLess(x: int, y: int, z: int)
    requires 0 < z && x * z < y * z
    ensures x < y
  {
    if y <= x {
      MulMono(y, x, z);
      assert false;
    }
  }

  /** Division with remainder is unique. */
  lemma DivUnique(x: int, d: int, q: int, r: int)
    requires d > 0 && 0 <= r < d && x == q * d + r
    ensures x / d == q && x % d == r
  {
    var q', r' := x / d, x % d;
    assert x == q' * d + r' && 0 <= r' < d;
    MulCancelLess(q', q + 1, d) by {
      assert (q + 1) * d == q * d + d;
    }
    MulCancelLess(q, q' + 1, d) by {
      assert (q' + 1) * d == q' * d + d;
    }
  }

  lemma ModShift(x: int, d: int)
    requires d > 0
    ensures (x - d) % d == x % d
  {
    assert x - d == (x / d - 1) * d + x % d by {
      assert (x / d - 1) * d == (x / d) * d - d;
    }
    DivUnique(x - d, d, x / d - 1, x % d);
  }

  // ---------------------------------------------------------------- bitwise or

  /** Bitwise disjunction of two naturals. */
  function BitOr(x: nat, y: nat): nat {
    if x == 0 && y == 0 then 0
    else 2 * BitOr(x / 2, y / 2) + (if x % 2 == 1 || y % 2 == 1 then 1 else 0)
  }

  lemma {:induction false} BitOrZero(x: nat)
    ensures BitOr(x, 0) == x && BitOr(0, x) == x
  {
    if x != 0 {
      BitOrZero(x / 2);
    }
  }

  /** Disjunction with a number below the lowest set bit is addition. */
  lemma {:induction false} BitOrDisjoint(q: nat, y: nat, k: nat)
    requires y < Pow2(k)
    ensures BitOr(Shl(q, k), y) == Shl(q, k) + y
  {
    if k == 0 {
      BitOrZero(Shl(q, k));
    } else {
      BitOrDisjoint(q, y / 2, k - 1);
    }
  }
}
