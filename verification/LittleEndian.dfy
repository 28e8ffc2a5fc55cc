/** Little-endian numbers as byte strings. */
module LittleEndian {
  import opened Bits

  function Pow256(n: nat): (p: nat)
    ensures p >= 1
  {
    if n == 0 then 1 else 256 * Pow256(n - 1)
  }

  /** The low `n` bytes of `v`, least significant first. */
  function Le(v: nat, n: nat): (b: seq<byte>)
    ensures |b| == n
  {
    if n == 0 then [] else [v % 256] + Le(v / 256, n - 1)
  }

  function UnLe(b: seq<byte>): nat {
    if b == [] then 0 else b[0] as nat + 256 * UnLe(b[1..])
  }

  lemma {:induction false} UnLeBound(b: seq<byte>)
    ensures UnLe(b) < Pow256(|b|)
  {
    if b != [] {
      UnLeBound(b[1..]);
    }
  }

  lemma {:induction false} UnLeLe(v: nat, n: nat)
    requires v < Pow256(n)
    ensures UnLe(Le(v, n)) == v
  {
    if n > 0 {
      UnLeLe(v / 256, n - 1);
      assert Le(v, n)[1..] == Le(v / 256, n - 1);
    }
  }

  lemma {:induction false} LeUnLe(b: seq<byte>)
    ensures Le(UnLe(b), |b|) == b
  {
    if b != [] {
      LeUnLe(b[1..]);
      assert UnLe(b) % 256 == b[0] && UnLe(b) / 256 == UnLe(b[1..]);
    }
  }

  lemma Pow256Values()
    ensures Pow256(1) == 256 && Pow256(2) == 0x1_0000 && Pow256(4) == 0x1_0000_0000
    ensures Pow256(8) == 0x1_0000_0000_0000_0000
  {
    assert Pow256(2) == 256 * Pow256(1);
    assert Pow256(4) == 256 * 256 * Pow256(2);
    assert Pow256(6) == 256 * 256 * Pow256(4);
    assert Pow256(8) == 256 * 256 * Pow256(6);
  }

  /** Byte by byte: the least significant first. */
  lemma {:induction false} LeAt(v: nat, n: nat, i: nat)
    requires i < n
    ensures Le(v, n)[i] == v / Pow256(i) % 256
    decreases n
  {
    if i > 0 {
      LeAt(v / 256, n - 1, i - 1);
      assert Le(v, n)[i] == Le(v / 256, n - 1)[i - 1];
      DivTwice(v, 256, Pow256(i - 1));
    }
  }

  lemma DivTwice(v: nat, a: nat, b: nat)
    requires a > 0 && b > 0
    ensures a * b > 0 && v / a / b == v / (a * b)
  {
    var q, r := v / a, v % a;
    var q', r' := q / b, q % b;
    assert v == (q' * b + r') * a + r;
    assert v == q' * (a * b) + (r' * a + r) by {
      assert (q' * b + r') * a == q' * (a * b) + r' * a;
    }
    MulMono(r' + 1, b, a);
    assert 0 <= r' * a + r < a * b by {
      assert (r' + 1) * a == r' * a + a;
      assert b * a == a * b;
    }
    DivUnique(v, a * b, q', r' * a + r);
  }

  lemma FourBytes(v: nat)
    requires v < 0x1_0000_0000
    ensures Le(v, 4) == [v % 256, v / 256 % 256, v / 0x1_0000 % 256, v / 0x100_0000]
  {
    LeAt(v, 4, 0);
    LeAt(v, 4, 1);
    LeAt(v, 4, 2);
    LeAt(v, 4, 3);
    assert Pow256(0) == 1 && Pow256(1) == 256 && Pow256(2) == 0x1_0000 && Pow256(3) == 0x100_0000;
  }
}
