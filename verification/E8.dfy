/** The x86 call translation that the decompressor undoes: decodeE8 of wim/lzx/lzx.go. */
module E8 {
  import opened Bits
  import opened LittleEndian

  const E8_FILE_SIZE := 12000000
  const MAX_E8_OFFSET := 0x3fff_ffff

  type int32 = x: int | -0x8000_0000 <= x < 0x8000_0000

  /** Truncation to 32 bits, two's complement. */
  function Int32(x: int): int32 {
    (x + 0x8000_0000) % 0x1_0000_0000 - 0x8000_0000
  }

  function Le32(b: seq<byte>): int32
    requires |b| == 4
  {
    Int32(UnLe(b))
  }

  function PutLe32(x: int32): (b: seq<byte>)
    ensures |b| == 4
  {
    Le(x % 0x1_0000_0000, 4)
  }

  lemma Int32Wraps(x: int32, k: int)
    requires k == x % 0x1_0000_0000
    ensures Int32(k) == x
  {
  }

  lemma {:induction false} Le32PutLe32(x: int32)
    ensures Le32(PutLe32(x)) == x
  {
    hide Int32, Le, UnLe;
    Pow256Values();
    UnLeLe(x % 0x1_0000_0000, 4);
    Int32Wraps(x, x % 0x1_0000_0000);
  }

  lemma {:induction false} PutLe32Le32(b: seq<byte>)
    requires |b| == 4
    ensures PutLe32(Le32(b)) == b
  {
    hide Le, UnLe;
    Pow256Values();
    UnLeBound(b);
    LeUnLe(b);
  }

  // ---------------------------------------------------------------- one displacement

  /** Absolute to relative, at address `cp`, in 32-bit arithmetic. */
  function ToRelative(cp: int32, abs: int32): int32 {
    if Int32(-(cp as int)) <= abs < E8_FILE_SIZE then
      if abs >= 0 then Int32(abs as int - cp as int) else Int32(abs as int + E8_FILE_SIZE)
    else abs
  }

  /** Relative to absolute: what the compressor did. */
  function ToAbsolute(cp: int32, rel: int32): int32 {
    if Int32(-(cp as int)) <= rel < E8_FILE_SIZE then
      if rel as int < E8_FILE_SIZE - cp as int then Int32(rel as int + cp as int) else Int32(rel as int - E8_FILE_SIZE)
    else rel
  }

  lemma Int32Id(x: int)
    requires -0x8000_0000 <= x < 0x8000_0000
    ensures Int32(x) == x
  {
  }

  /** Where nothing overflows. */
  lemma InRange(cp: int32, x: int32)
    requires cp >= 0
    ensures ToRelative(cp, x) == if -cp <= x < E8_FILE_SIZE then (if x >= 0 then x - cp else x + E8_FILE_SIZE) else x
    ensures ToAbsolute(cp, x) ==
              if -cp <= x < E8_FILE_SIZE then (if x < E8_FILE_SIZE - cp then x + cp else x - E8_FILE_SIZE) else x
  {
    hide Int32;
    Int32Id(-cp);
    if -cp <= x < E8_FILE_SIZE {
      Int32Id(if x >= 0 then x - cp else x + E8_FILE_SIZE);
      Int32Id(if x < E8_FILE_SIZE - cp then x + cp else x - E8_FILE_SIZE);
    }
  }

  /** At every address that is not negative the two translations permute the displacements from -cp to 12000000. */
  lemma TranslationsInvert(cp: int32, x: int32)
    requires cp >= 0
    ensures ToAbsolute(cp, ToRelative(cp, x)) == x && ToRelative(cp, ToAbsolute(cp, x)) == x
    ensures -cp <= x < E8_FILE_SIZE <==> -cp <= ToRelative(cp, x) < E8_FILE_SIZE
  {
    hide ToRelative, ToAbsolute;
    InRange(cp, x);
    InRange(cp, ToRelative(cp, x));
    InRange(cp, ToAbsolute(cp, x));
  }

  /** The address makes the translation lose information. */
  predicate Lossy(cp: int) {
    -E8_FILE_SIZE < cp < 0
  }

  /** Two displacements that a lossy address maps to one. */
  lemma LossyCollision(cp: int32) returns (x: int32, y: int32)
    requires Lossy(cp)
    ensures x != y && ToRelative(cp, x) == ToRelative(cp, y)
  {
    x := E8_FILE_SIZE - 1;
    y := E8_FILE_SIZE - 1 - cp;
  }

  lemma LosslessInjective(cp: int32, x: int32, y: int32)
    requires !Lossy(cp) && ToRelative(cp, x) == ToRelative(cp, y)
    ensures x == y
  {
    hide ToRelative, ToAbsolute;
    if cp >= 0 {
      TranslationsInvert(cp, x);
      TranslationsInvert(cp, y);
    } else {
      FarNegative(cp, x);
      FarNegative(cp, y);
    }
  }

  /** Below -12000000 nothing is translated, except at the least address, whose negation overflows. */
  lemma FarNegative(cp: int32, x: int32)
    requires cp <= -E8_FILE_SIZE
    ensures cp > -0x8000_0000 ==> ToRelative(cp, x) == x
    ensures cp == -0x8000_0000 ==>
              ToRelative(cp, x) == if x >= E8_FILE_SIZE then x else if x >= 0 then x - 0x8000_0000 else x + E8_FILE_SIZE
  {
    hide Int32;
    if cp > -0x8000_0000 {
      Int32Id(-cp);
    } else {
      Int32Wraps(-0x8000_0000, 0x8000_0000);
      if 0 <= x < E8_FILE_SIZE {
        Int32Wraps(x - 0x8000_0000, x + 0x8000_0000);
      } else if x < 0 {
        Int32Id(x + E8_FILE_SIZE);
      }
    }
  }

  // ---------------------------------------------------------------- a buffer

  /** Translates every call in `s`, whose first byte has address `p`; the last ten bytes are never scanned. */
  function Translate(decode: bool, s: seq<byte>, p: int): (r: seq<byte>)
    ensures |r| == |s|
    ensures |s| > 0 ==> r[0] == s[0]
  {
    if |s| <= 10 then s
    else if s[0] == 0xe8 then
      var x := Le32(s[1..5]);
      var y := if decode then ToRelative(Int32(p), x) else ToAbsolute(Int32(p), x);
      [0xe8] + PutLe32(y) + Translate(decode, s[5..], p + 5)
    else [s[0]] + Translate(decode, s[1..], p + 1)
  }

  /** decodeE8 as a function. */
  function DecodeE8(b: seq<byte>, off: int): seq<byte> {
    if off > MAX_E8_OFFSET || |b| < 10 then b else Translate(true, b, off)
  }

  /** Forward and backward translation undo each other, whichever comes first. */
  lemma {:induction false} TranslateInverts(decode: bool, s: seq<byte>, p: int)
    requires 0 <= p && p + |s| <= 0x8000_0000
    ensures Translate(!decode, Translate(decode, s, p), p) == s
    decreases |s|
  {
    hide Le32, PutLe32, ToRelative, ToAbsolute;
    var r := Translate(decode, s, p);
    if |s| <= 10 {
    } else if s[0] == 0xe8 {
      var x := Le32(s[1..5]);
      var y := if decode then ToRelative(p, x) else ToAbsolute(p, x);
      assert Int32(p) == p;
      TranslationsInvert(p, x);
      TranslateInverts(decode, s[5..], p + 5);
      var rest := Translate(decode, s[5..], p + 5);
      assert r == [0xe8] + PutLe32(y) + rest;
      assert r[1..5] == PutLe32(y) && r[5..] == rest;
      Le32PutLe32(y);
      PutLe32Le32(s[1..5]);
      assert s == [0xe8] + s[1..5] + s[5..];
    } else {
      TranslateInverts(decode, s[1..], p + 1);
      assert r[1..] == Translate(decode, s[1..], p + 1);
      assert s == [s[0]] + s[1..];
    }
  }

  /** decodeE8 is a bijection on the strings of each length; the forward translation is its two-sided inverse. */
  lemma DecodeE8Bijective(b: seq<byte>, off: int)
    requires 0 <= off <= MAX_E8_OFFSET && off + |b| <= 0x8000_0000
    ensures Translate(false, DecodeE8(b, off), off) == b
    ensures DecodeE8(Translate(false, b, off), off) == b
  {
    TranslateInverts(true, b, off);
    TranslateInverts(false, b, off);
  }

  // ---------------------------------------------------------------- exactly when it is injective

  /** No two strings of length `n` at address `p` decode to the same string. */
  ghost predicate Injective(n: nat, p: int) {
    forall s: seq<byte>, t: seq<byte> ::
      |s| == n && |t| == n && Translate(true, s, p) == Translate(true, t, p) ==> s == t
  }

  /** Some scanned position of a string of length `n` at `p` has a lossy address; addresses wrap at 32 bits. */
  predicate MeetsLossy(n: nat, p: int) {
    exists q :: p <= q < p + n - 10 && Lossy(Int32(q))
  }

  /** Within 32 bits that is: the scan meets the addresses strictly between -12000000 and 0. */
  lemma {:induction false} MeetsLossyInRange(n: nat, p: int)
    requires -0x8000_0000 <= p && p + n <= 0x8000_0000
    ensures MeetsLossy(n, p) <==> n > 10 && p < 0 && p + n - 11 > -E8_FILE_SIZE
  {
    if n > 10 && p < 0 && p + n - 11 > -E8_FILE_SIZE {
      var q := if p > -E8_FILE_SIZE then p else -E8_FILE_SIZE + 1;
      Int32Id(q);
      assert Lossy(Int32(q));
    }
    if MeetsLossy(n, p) {
      var q :| p <= q < p + n - 10 && Lossy(Int32(q));
      Int32Id(q);
    }
  }

  lemma {:induction false} LosslessStrings(s: seq<byte>, t: seq<byte>, p: int)
    requires |s| == |t| && !MeetsLossy(|s|, p)
    requires Translate(true, s, p) == Translate(true, t, p)
    ensures s == t
    decreases |s|
  {
    hide Le32, PutLe32, ToRelative, Int32, Lossy;
    var r := Translate(true, s, p);
    if |s| > 10 {
      var cp := Int32(p);
      assert !Lossy(cp);
      assert r[0] == s[0] == t[0];
      if s[0] == 0xe8 {
        var x, y := Le32(s[1..5]), Le32(t[1..5]);
        assert r[1..5] == PutLe32(ToRelative(cp, x)) == PutLe32(ToRelative(cp, y));
        Le32PutLe32(ToRelative(cp, x));
        Le32PutLe32(ToRelative(cp, y));
        LosslessInjective(cp, x, y);
        PutLe32Le32(s[1..5]);
        PutLe32Le32(t[1..5]);
        assert r[5..] == Translate(true, s[5..], p + 5) == Translate(true, t[5..], p + 5);
        LosslessStrings(s[5..], t[5..], p + 5);
        assert s == [0xe8] + s[1..5] + s[5..] && t == [0xe8] + t[1..5] + t[5..];
      } else {
        assert r[1..] == Translate(true, s[1..], p + 1) == Translate(true, t[1..], p + 1);
        LosslessStrings(s[1..], t[1..], p + 1);
        assert s == [s[0]] + s[1..] && t == [t[0]] + t[1..];
      }
    }
  }

  /** Two strings that collide. */
  lemma {:induction false} LossyStrings(n: nat, p: int) returns (s: seq<byte>, t: seq<byte>)
    requires MeetsLossy(n, p)
    ensures |s| == |t| == n && s != t && Translate(true, s, p) == Translate(true, t, p)
    decreases n
  {
    hide Le32, PutLe32, ToRelative, Int32, Lossy;
    var cp := Int32(p);
    if Lossy(cp) {
      var x, y := LossyCollision(cp);
      var rest: seq<byte> := seq(n - 5, _ => 0);
      s, t := [0xe8] + PutLe32(x) + rest, [0xe8] + PutLe32(y) + rest;
      Le32PutLe32(x);
      Le32PutLe32(y);
      assert s[1..5] == PutLe32(x) && s[5..] == rest;
      assert t[1..5] == PutLe32(y) && t[5..] == rest;
    } else {
      var s1, t1 := LossyStrings(n - 1, p + 1);
      s, t := [0] + s1, [0] + t1;
      assert s[1..] == s1 && t[1..] == t1;
    }
  }

  /** Decoding strings of length `n` at any offset `p` loses nothing exactly when no scanned address is lossy. */
  lemma InjectiveExactly(n: nat, p: int)
    ensures Injective(n, p) <==> !MeetsLossy(n, p)
  {
    hide MeetsLossy, Translate;
    if MeetsLossy(n, p) {
      var s, t := LossyStrings(n, p);
      assert !(|s| == n && |t| == n && Translate(true, s, p) == Translate(true, t, p) ==> s == t);
    } else {
      forall s: seq<byte>, t: seq<byte> | |s| == n && |t| == n && Translate(true, s, p) == Translate(true, t, p)
        ensures s == t
      {
        LosslessStrings(s, t, p);
      }
    }
  }

  // ---------------------------------------------------------------- in place

  /** decodeE8: rewriting in place never changes which positions are scanned. */
  method DecodeE8InPlace(b: array<byte>, n: nat, off: int)
    requires n <= b.Length
    modifies b
    ensures b[..n] == DecodeE8(old(b[..n]), off)
    ensures b[n..] == old(b[n..])
  {
    hide Le32, PutLe32, ToRelative, Translate, Int32;
    if off > MAX_E8_OFFSET || n < 10 {
      return;
    }
    ghost var was := b[..n];
    var i := 0;
    assert b[0..n] == was;
    while i < n - 10
      invariant 0 <= i <= n
      invariant b[..i] + Translate(true, b[i..n], off + i) == Translate(true, was, off)
      invariant b[n..] == old(b[n..])
      invariant b[i..n] == was[i..n]
    {
      ghost var todo, done := b[i..n], b[..i];
      if b[i] == 0xe8 {
        var word := b[i + 1..i + 5];
        assert forall k :: 0 <= k < 4 ==> word[k] == b[i + 1 + k] == todo[1 + k] == todo[1..5][k];
        assert word == todo[1..5];
        var bytes := PutLe32(ToRelative(Int32(off + i), Le32(word)));
        Store(b, i, n, bytes);
        CallStep(done, todo, off + i, bytes);
        i := i + 5;
      } else {
        assert todo[1..] == b[i + 1..n];
        assert b[..i + 1] == done + [todo[0]];
        OtherStep(done, todo, off + i);
        i := i + 1;
      }
    }
    assert b[..n] == b[..i] + b[i..n];
    TranslateTail(b[i..n], off + i);
  }

  lemma TranslateTail(s: seq<byte>, p: int)
    requires |s| <= 10
    ensures Translate(true, s, p) == s
  {
  }

  /** binary.LittleEndian.PutUint32 at `i + 1`. */
  method Store(b: array<byte>, i: nat, n: nat, bytes: seq<byte>)
    requires i + 5 <= n <= b.Length && |bytes| == 4
    modifies b
    ensures b[..i + 5] == old(b[..i]) + ([old(b[i])] + bytes)
    ensures b[i + 5..n] == old(b[i..n])[5..]
    ensures b[n..] == old(b[n..])
  {
    b[i + 1], b[i + 2], b[i + 3], b[i + 4] := bytes[0], bytes[1], bytes[2], bytes[3];
  }

  lemma {:induction false} CallStep(done: seq<byte>, todo: seq<byte>, p: int, bytes: seq<byte>)
    requires |todo| > 10 && todo[0] == 0xe8 && bytes == PutLe32(ToRelative(Int32(p), Le32(todo[1..5])))
    ensures done + Translate(true, todo, p) == (done + ([0xe8] + bytes)) + Translate(true, todo[5..], p + 5)
  {
    hide Le32, PutLe32, ToRelative, Int32;
  }

  lemma {:induction false} OtherStep(done: seq<byte>, todo: seq<byte>, p: int)
    requires |todo| > 10 && todo[0] != 0xe8
    ensures done + Translate(true, todo, p) == (done + [todo[0]]) + Translate(true, todo[1..], p + 1)
  {
  }

  // ---------------------------------------------------------------- what becomes of a call

  /** A call with absolute target `x` at address `p` becomes one relative to `p`, modulo the nominal file size. */
  lemma {:induction false} CallBecomesRelative(x: int32, rest: seq<byte>, p: int)
    requires |rest| >= 6 && 0 <= p < 0x8000_0000
    ensures var y: int := if 0 <= x < 12000000 then x - p else if -p <= x < 0 then x + 12000000 else x;
            && -0x8000_0000 <= y < 0x8000_0000
            && Translate(true, [0xe8] + PutLe32(x) + rest, p) == [0xe8] + PutLe32(y) + Translate(true, rest, p + 5)
  {
    hide Le32, PutLe32, ToRelative;
    var s := [0xe8] + PutLe32(x) + rest;
    assert s[1..5] == PutLe32(x) && s[5..] == rest;
    Le32PutLe32(x);
    Int32Id(p);
    InRange(p, x);
  }

  /**
   A call to 0x1000 at address 0x100 becomes one to 0xf00 further on; beyond the last offset nothing
   is translated.
   */
  lemma {:induction false} OneCall(rest: seq<byte>, off: int)
    requires |rest| == 6
    ensures DecodeE8([0xe8, 0, 0x10, 0, 0] + rest, 0x100) == [0xe8, 0, 0xf, 0, 0] + rest
    ensures off > 0x3fff_ffff ==> DecodeE8([0xe8, 0, 0x10, 0, 0] + rest, off) == [0xe8, 0, 0x10, 0, 0] + rest
  {
    hide Le, Translate;
    FourBytes(0x1000);
    FourBytes(0xf00);
    CallBecomesRelative(0x1000, rest, 0x100);
    TranslateTail(rest, 0x105);
    assert [0xe8] + [0, 0x10, 0, 0] + rest == [0xe8, 0, 0x10, 0, 0] + rest;
    assert [0xe8] + [0, 0xf, 0, 0] + rest == [0xe8, 0, 0xf, 0, 0] + rest;
  }
}
