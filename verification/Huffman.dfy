/**
 Canonical Huffman codes: the code of a vector of code lengths. Its codewords are prefix-free, and
 cover every bit string exactly when the Kraft sum is one.
 */
module Huffman {
  import opened Bits

  const MAX_TREE_PATH_LEN := 16
  const TABLE_BITS := 9
  const TABLE_SIZE := 512
  const LEN_SHIFT := 9

  /** What the source demands of a vector of code lengths. */
  ghost predicate Lengths(lens: seq<nat>) {
    && |lens| <= TABLE_SIZE
    && forall i :: 0 <= i < |lens| ==> lens[i] <= MAX_TREE_PATH_LEN
  }

  // ---------------------------------------------------------------- the canonical code

  /** Number of symbols with code length `l`. */
  ghost function Count(lens: seq<nat>, l: nat): nat {
    if lens == [] then 0
    else Count(lens[..|lens| - 1], l) + (if lens[|lens| - 1] == l then 1 else 0)
  }

  /** First codeword of length `l`, as a number of `l` bits. */
  ghost function First(lens: seq<nat>, l: nat): nat {
    if l <= 1 then 0 else 2 * End(lens, l - 1)
  }

  /** One past the last codeword of length `l`. */
  ghost function End(lens: seq<nat>, l: nat): nat {
    if l == 0 then 0
    else if l == 1 then Count(lens, 1)
    else 2 * End(lens, l - 1) + Count(lens, l)
  }

  /** Codeword of symbol `s`: codewords of one length follow each other in symbol order. */
  ghost function Code(lens: seq<nat>, s: nat): nat
    requires s < |lens|
  {
    First(lens, lens[s]) + Count(lens[..s], lens[s])
  }

  /** The codeword of `s` is a prefix of the `m`-bit number `x`. */
  ghost predicate InCode(lens: seq<nat>, s: nat, m: nat, x: nat)
    requires s < |lens|
  {
    && 0 < lens[s] <= m
    && Code(lens, s) == Shr(x, m - lens[s])
  }

  /** The Kraft sum, scaled by 2^m. */
  ghost function KraftSum(lens: seq<nat>, m: nat): nat {
    if lens == [] then 0
    else
      var l := lens[|lens| - 1];
      KraftSum(lens[..|lens| - 1], m) + (if 0 < l <= m then Pow2(m - l) else 0)
  }

  ghost predicate AllZero(lens: seq<nat>) {
    forall i :: 0 <= i < |lens| ==> lens[i] == 0
  }

  /** A usable code: its Kraft sum is one. */
  ghost predicate Complete(lens: seq<nat>) {
    KraftSum(lens, MAX_TREE_PATH_LEN) == Pow2(MAX_TREE_PATH_LEN)
  }

  /** A vector for which a table can be built: a complete code, or no code at all. */
  ghost predicate Usable(lens: seq<nat>) {
    AllZero(lens) || Complete(lens)
  }

  // ---------------------------------------------------------------- counting

  lemma {:induction false} CountPrefix(lens: seq<nat>, i: nat, j: nat, l: nat)
    requires i <= j <= |lens|
    ensures Count(lens[..i], l) <= Count(lens[..j], l)
  {
    if i < j {
      CountPrefix(lens, i, j - 1, l);
      assert lens[..j][..j - 1] == lens[..j - 1];
    }
  }

  lemma CountStep(lens: seq<nat>, i: nat, l: nat)
    requires i < |lens|
    ensures Count(lens[..i + 1], l) == Count(lens[..i], l) + (if lens[i] == l then 1 else 0)
  {
    assert lens[..i + 1][..i] == lens[..i];
  }

  lemma RankInRange(lens: seq<nat>, s: nat)
    requires s < |lens|
    ensures Count(lens[..s], lens[s]) < Count(lens, lens[s])
  {
    CountStep(lens, s, lens[s]);
    CountPrefix(lens, s + 1, |lens|, lens[s]);
    assert lens[..|lens|] == lens;
  }

  lemma {:induction false} CountBound(lens: seq<nat>, l: nat)
    ensures Count(lens, l) <= |lens|
  {
    if lens != [] {
      CountBound(lens[..|lens| - 1], l);
    }
  }

  lemma {:induction false} CountAbove(lens: seq<nat>, l: nat)
    requires forall i :: 0 <= i < |lens| ==> lens[i] < l
    ensures Count(lens, l) == 0
  {
    if lens != [] {
      CountAbove(lens[..|lens| - 1], l);
    }
  }

  /** The `k`-th symbol of length `l`. */
  ghost function Nth(lens: seq<nat>, l: nat, k: nat): (s: nat)
    requires k < Count(lens, l)
    ensures s < |lens| && lens[s] == l && Count(lens[..s], l) == k
  {
    var p := lens[..|lens| - 1];
    if k < Count(p, l) then
      var s := Nth(p, l, k);
      assert p[..s] == lens[..s];
      s
    else |lens| - 1
  }

  // ---------------------------------------------------------------- the code as a set of intervals

  /** Codewords of length `l` all come before the first codeword of any greater length. */
  lemma {:induction false} EndBelowFirst(lens: seq<nat>, l: nat, m: nat)
    requires 0 < l < m
    ensures Shl(End(lens, l), m - l) <= First(lens, m)
    decreases m
  {
    if l < m - 1 {
      EndBelowFirst(lens, l, m - 1);
    } else {
      assert Shl(End(lens, l), 1) == 2 * End(lens, l);
    }
  }

  lemma CodeBelowEnd(lens: seq<nat>, s: nat)
    requires s < |lens| && lens[s] > 0
    ensures First(lens, lens[s]) <= Code(lens, s) < End(lens, lens[s])
  {
    RankInRange(lens, s);
  }

  /** Prefix-freedom: no number starts with the codewords of two symbols. */
  lemma PrefixFree(lens: seq<nat>, s: nat, t: nat, m: nat, x: nat)
    requires s < |lens| && t < |lens|
    requires InCode(lens, s, m, x) && InCode(lens, t, m, x)
    ensures s == t
  {
    if lens[s] < lens[t] {
      PrefixFreeLengths(lens, s, t, m, x);
    } else if lens[t] < lens[s] {
      PrefixFreeLengths(lens, t, s, m, x);
    } else if s < t {
      CountStep(lens, s, lens[s]);
      CountPrefix(lens, s + 1, t, lens[s]);
    } else if t < s {
      CountStep(lens, t, lens[s]);
      CountPrefix(lens, t + 1, s, lens[s]);
    }
  }

  lemma PrefixFreeLengths(lens: seq<nat>, s: nat, t: nat, m: nat, x: nat)
    requires s < |lens| && t < |lens| && lens[s] < lens[t]
    requires InCode(lens, s, m, x)
    ensures !InCode(lens, t, m, x)
  {
    var l, k := lens[s], lens[t];
    if InCode(lens, t, m, x) {
      CodeBelowEnd(lens, s);
      CodeBelowEnd(lens, t);
      EndBelowFirst(lens, l, k);
      ShrAdd(x, m - k, k - l);
      ShrLess(Code(lens, t), k - l, End(lens, l));
      assert false;
    }
  }

  /** The canonical decoder: the symbol whose codeword starts the `m`-bit number `x`. */
  ghost function Decode(lens: seq<nat>, m: nat, x: nat): (s: nat)
    requires x < End(lens, m)
    ensures s < |lens| && InCode(lens, s, m, x)
    decreases m
  {
    if First(lens, m) <= x then
      Nth(lens, m, x - First(lens, m))
    else
      var s := Decode(lens, m - 1, x / 2);
      assert InCode(lens, s, m, x) by {
        assert Shr(x, m - lens[s]) == Shr(x / 2, m - 1 - lens[s]);
      }
      s
  }

  /** Below `End`, the canonical decoder is the only answer; it finds codes no longer than `m`. */
  lemma DecodeUnique(lens: seq<nat>, s: nat, m: nat, x: nat)
    requires s < |lens| && InCode(lens, s, m, x) && x < End(lens, m)
    ensures s == Decode(lens, m, x)
  {
    PrefixFree(lens, s, Decode(lens, m, x), m, x);
  }

  lemma InCodeBelowEnd(lens: seq<nat>, s: nat, m: nat, x: nat)
    requires s < |lens| && InCode(lens, s, m, x)
    ensures x < End(lens, m)
  {
    var l := lens[s];
    CodeBelowEnd(lens, s);
    ShrLess(x, m - l, End(lens, l));
    if l < m {
      EndBelowFirst(lens, l, m);
    }
  }

  // ---------------------------------------------------------------- Kraft

  lemma {:induction false} EndSnoc(lens: seq<nat>, l: nat, m: nat)
    ensures End(lens + [l], m) == End(lens, m) + (if 0 < l <= m then Pow2(m - l) else 0)
  {
    assert (lens + [l])[..|lens|] == lens;
    if m > 1 {
      EndSnoc(lens, l, m - 1);
    }
  }

  /** The last code after length `m` is the Kraft sum. */
  lemma {:induction false} EndIsKraft(lens: seq<nat>, m: nat)
    ensures End(lens, m) == KraftSum(lens, m)
  {
    if lens == [] {
      EndEmpty(m);
    } else {
      var p := lens[..|lens| - 1];
      EndIsKraft(p, m);
      EndSnoc(p, lens[|lens| - 1], m);
      assert p + [lens[|lens| - 1]] == lens;
    }
  }

  lemma {:induction false} EndEmpty(m: nat)
    ensures End([], m) == 0
  {
    if m > 1 {
      EndEmpty(m - 1);
    }
  }

  /** Past the longest code every further bit doubles the covered range. */
  lemma {:induction false} EndScales(lens: seq<nat>, m: nat, n: nat)
    requires 0 < m <= n && forall i :: 0 <= i < |lens| ==> lens[i] <= m
    ensures End(lens, n) == Shl(End(lens, m), n - m)
  {
    if m < n {
      EndScales(lens, m, n - 1);
      CountAbove(lens, n);
    }
  }

  /** Completeness can be judged at the length of the longest code. */
  lemma CompleteAt(lens: seq<nat>, m: nat)
    requires Lengths(lens) && 0 < m && forall i :: 0 <= i < |lens| ==> lens[i] <= m
    ensures m <= 16 ==> (Complete(lens) <==> End(lens, m) == Pow2(m))
    ensures Complete(lens) ==> End(lens, m) == Pow2(m)
  {
    hide End, KraftSum, Shl;
    EndIsKraft(lens, 16);
    if m <= 16 {
      EndScales(lens, m, 16);
      Pow2Add(m, 16 - m);
      if Complete(lens) {
        ShlInjective(End(lens, m), Pow2(m), 16 - m);
      }
    } else {
      EndScales(lens, 16, m);
      Pow2Add(16, m - 16);
    }
  }

  /** A complete code decodes every bit string, in exactly one way. */
  lemma CompleteDecodes(lens: seq<nat>, m: nat, x: nat)
    requires Lengths(lens) && Complete(lens) && m >= 16 && x < Pow2(m)
    ensures exists s :: 0 <= s < |lens| && InCode(lens, s, m, x)
    ensures forall s, t :: 0 <= s < |lens| && 0 <= t < |lens| && InCode(lens, s, m, x) && InCode(lens, t, m, x) ==>
              s == t
  {
    CompleteAt(lens, m);
    var s := Decode(lens, m, x);
    assert InCode(lens, s, m, x);
    forall s, t | 0 <= s < |lens| && 0 <= t < |lens| && InCode(lens, s, m, x) && InCode(lens, t, m, x)
      ensures s == t
    {
      PrefixFree(lens, s, t, m, x);
    }
  }
}
