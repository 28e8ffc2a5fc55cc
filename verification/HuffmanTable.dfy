/** The decoding table that wim/lzx/lzx.go builds for a canonical code, and its lookup. */
module HuffmanTable {
  import opened Bits
  import opened Wrappers
  import opened Huffman

  /** `huffman` in the source; `extra` holds the second-level tables. */
  datatype Table = Table(maxbits: nat, table: seq<nat>, extra: seq<seq<nat>>)

  /** A table entry: code length above, symbol below. */
  ghost function Entry(lens: seq<nat>, s: nat): nat
    requires s < |lens|
  {
    lens[s] * 512 + s
  }

  /** Column of the second-level table selected by the bits of `c` after the first nine. */
  function Column(maxbits: nat, c: u32): nat
    requires 9 < maxbits <= 16
  {
    Shr((c * 512) % 0x1_0000_0000, 32 - (maxbits - 9))
  }

  /** Every index used by a lookup with the bits `c` is in range. */
  predicate InTable(h: Table, c: u32) {
    && |h.table| == 512
    && Shr(c, 23) < |h.table|
    && var e := h.table[Shr(c, 23)];
       e < 512 ==>
         9 < h.maxbits <= 16 && e < |h.extra| && Column(h.maxbits, c) < |h.extra[e]|
  }

  /** The two-level lookup performed by getCode. */
  function Lookup(h: Table, c: u32): nat
    requires InTable(h, c)
  {
    var e := h.table[Shr(c, 23)];
    if e >= 512 then e else h.extra[e][Column(h.maxbits, c)]
  }

  /** Looking up `c` finds the symbol whose codeword `c` starts with, and that codeword's length. */
  ghost predicate DecodesAs(h: Table, lens: seq<nat>, c: u32) {
    && InTable(h, c)
    && var e := Lookup(h, c);
       e % 512 < |lens| && e / 512 == lens[e % 512] && InCode(lens, e % 512, 32, c)
  }

  /** `h` is the table of `lens`: empty for the empty code, otherwise decoding every word. */
  ghost predicate TableFor(h: Table, lens: seq<nat>) {
    if AllZero(lens) then h.maxbits == 0
    else Complete(lens) && 0 < h.maxbits <= 16 && forall c: u32 :: DecodesAs(h, lens, c)
  }

  // ---------------------------------------------------------------- intervals

  lemma {:induction false} InCodeInterval(lens: seq<nat>, s: nat, m: nat, x: nat)
    requires s < |lens| && 0 < lens[s] <= m
    ensures InCode(lens, s, m, x) <==>
            Shl(Code(lens, s), m - lens[s]) <= x < Shl(Code(lens, s), m - lens[s]) + Pow2(m - lens[s])
  {
    ShrInterval(x, m - lens[s], Code(lens, s));
  }

  /** The last number that starts with the codeword of `s`. */
  lemma {:induction false} IntervalEnd(lens: seq<nat>, s: nat, m: nat)
    requires s < |lens| && 0 < lens[s] <= m
    ensures Shl(Code(lens, s), m - lens[s]) + Pow2(m - lens[s]) <= End(lens, m)
  {
    var x := Shl(Code(lens, s), m - lens[s]) + Pow2(m - lens[s]) - 1;
    InCodeInterval(lens, s, m, x);
    InCodeBelowEnd(lens, s, m, x);
  }

  /** A codeword that starts a short prefix of a number starts the number. */
  lemma {:induction false} InCodeExtend(lens: seq<nat>, s: nat, m: nat, k: nat, x: nat)
    requires s < |lens| && 0 < lens[s] <= m
    ensures InCode(lens, s, m, Shr(x, k)) <==> InCode(lens, s, m + k, x)
  {
    ShrAdd(x, k, m - lens[s]);
  }

  // ---------------------------------------------------------------- second level

  /** The number of `max` bits addressed by row `e` and column `z` of the second level. */
  ghost function Slot(lens: seq<nat>, max: nat, e: nat, z: nat): nat
    requires max > 9
  {
    Shl(End(lens, 9) + e, max - 9) + z
  }

  /** A long codeword occupies one stretch of one row. */
  lemma {:induction false} LongInterval(lens: seq<nat>, s: nat, max: nat, e: nat, z: nat)
    requires s < |lens| && 9 < lens[s] <= max && z < Pow2(max - 9)
    ensures var l, k := lens[s], Code(lens, s);
            InCode(lens, s, max, Slot(lens, max, e, z)) <==>
            Shr(k, l - 9) == End(lens, 9) + e && Low(k, l - 9) == Shr(z, max - l)
  {
    hide Shl, Shr, Low, Code, End;
    var l, k := lens[s], Code(lens, s);
    var row, col := End(lens, 9) + e, Shr(z, max - l);
    assert Shr(Slot(lens, max, e, z), max - l) == Shl(row, l - 9) + col by {
      ShrConcat(row, z, max - l, l - 9);
    }
    assert col < Pow2(l - 9) by {
      Pow2Add(l - 9, max - l);
      ShrLess(z, max - l, Pow2(l - 9));
    }
    ShrUnique(row, col, l - 9);
    ShrLow(k, l - 9);
  }

  /** The row of a long codeword exists. */
  lemma {:induction false} LongRow(lens: seq<nat>, s: nat, max: nat)
    requires Lengths(lens) && s < |lens| && 9 < lens[s] <= max <= 16
    requires End(lens, max) == Pow2(max)
    ensures End(lens, 9) <= Shr(Code(lens, s), lens[s] - 9) < 512
  {
    var l, k := lens[s], Code(lens, s);
    CodeBelowEnd(lens, s);
    EndBelowFirst(lens, 9, l);
    ShrLess(k, l - 9, End(lens, 9));
    EndBounded(lens, l, max);
    Pow2Add(9, l - 9);
    ShlConstants(1);
    ShrLess(k, l - 9, 512);
  }

  /** No length of a complete code has more codewords than fit. */
  lemma {:induction false} EndBounded(lens: seq<nat>, l: nat, max: nat)
    requires 0 < l <= max && End(lens, max) == Pow2(max)
    ensures End(lens, l) <= Pow2(l)
  {
    if l < max {
      EndBelowFirst(lens, l, max);
      Pow2Add(l, max - l);
      if End(lens, l) > Pow2(l) {
        ShlMono(Pow2(l), End(lens, l), max - l);
        assert false;
      }
    }
  }

  /** Second-level slots hold only long codewords. */
  lemma {:induction false} SlotIsLong(lens: seq<nat>, s: nat, max: nat, e: nat, z: nat)
    requires s < |lens| && max > 9 && z < Pow2(max - 9)
    requires InCode(lens, s, max, Slot(lens, max, e, z))
    ensures lens[s] > 9
  {
    if lens[s] <= 9 {
      InCodeExtend(lens, s, 9, max - 9, Slot(lens, max, e, z));
      ShrUnique(End(lens, 9) + e, z, max - 9);
      InCodeBelowEnd(lens, s, 9, End(lens, 9) + e);
      assert false;
    }
  }

  // ---------------------------------------------------------------- filled tables

  /** The first level holds the short codewords of the symbols below `n`. */
  ghost predicate ShortFilled(lens: seq<nat>, n: nat, t: seq<nat>)
    requires n <= |lens| && |t| == 512
  {
    forall s, y :: 0 <= s < n && 0 <= y < 512 && lens[s] <= 9 && InCode(lens, s, 9, y) ==> t[y] == Entry(lens, s)
  }

  /** First-level slots beyond the short codewords name their rows. */
  ghost predicate Linked(lens: seq<nat>, t: seq<nat>)
    requires |t| == 512
  {
    forall y :: End(lens, 9) <= y < 512 ==> t[y] == y - End(lens, 9)
  }

  /** The second level holds the long codewords of the symbols below `n`. */
  ghost predicate LongFilled(lens: seq<nat>, n: nat, max: nat, x: seq<seq<nat>>)
    requires n <= |lens| && max > 9
  {
    forall s, e, z ::
      0 <= s < n && 0 <= e < |x| && 0 <= z < |x[e]| && lens[s] > 9 && InCode(lens, s, max, Slot(lens, max, e, z)) ==>
        x[e][z] == Entry(lens, s)
  }

  ghost predicate Rectangle(x: seq<seq<nat>>, rows: nat, columns: nat) {
    |x| == rows && forall e :: 0 <= e < rows ==> |x[e]| == columns
  }

  lemma EntryParts(lens: seq<nat>, s: nat)
    requires Lengths(lens) && s < |lens|
    ensures Entry(lens, s) % 512 == s && Entry(lens, s) / 512 == lens[s]
  {
  }

  lemma {:induction false} ShortDecodes(h: Table, lens: seq<nat>, c: u32)
    requires Lengths(lens) && |h.table| == 512 && ShortFilled(lens, |lens|, h.table)
    requires Shr(c, 23) < End(lens, 9) <= 512
    ensures DecodesAs(h, lens, c)
  {
    var y := Shr(c, 23);
    var s := Decode(lens, 9, y);
    assert InCode(lens, s, 9, y);
    InCodeExtend(lens, s, 9, 23, c);
    assert h.table[y] == Entry(lens, s);
    EntryParts(lens, s);
  }

  /** The column arithmetic of getCode selects bits 9 to `max` of `c`. */
  lemma {:induction false} ColumnBits(max: nat, c: u32)
    requires 9 < max <= 16
    ensures Shr(c, 23) < 512
    ensures Column(max, c) < Pow2(max - 9)
    ensures Shr(c, 32 - max) == Shl(Shr(c, 23), max - 9) + Column(max, c)
  {
    hide Shl, Shr, Val;
    ShlConstants(1);
    ShlConstants(c);
    var w := RegisterBits(c);
    ShiftOut(w, 9);
    ColumnOfBits(max, w);
  }

  lemma {:induction false} ColumnOfBits(max: nat, w: seq<bool>)
    requires 9 < max <= 16 && |w| == 32
    ensures Shr(Val(w), 23) < Pow2(9)
    ensures Shr(Val(w[9..] + Zeros(9)), 32 - (max - 9)) < Pow2(max - 9)
    ensures Shr(Val(w), 32 - max) == Shl(Shr(Val(w), 23), max - 9) + Shr(Val(w[9..] + Zeros(9)), 32 - (max - 9))
  {
    var v := w[9..] + Zeros(9);
    ValSplit(w, 9);
    ValBound(w[..9]);
    ValSplit(v, max - 9);
    ValBound(v[..max - 9]);
    assert v[..max - 9] == w[9..max];
    ValSplit(w, max);
    assert w[..max] == w[..9] + w[9..max];
    ValConcat(w[..9], w[9..max]);
  }

  lemma {:induction false} LongDecodes(h: Table, lens: seq<nat>, c: u32)
    requires Lengths(lens) && |h.table| == 512 && 9 < h.maxbits <= 16
    requires End(lens, h.maxbits) == Pow2(h.maxbits) && End(lens, 9) <= 512
    requires Linked(lens, h.table)
    requires Rectangle(h.extra, 512 - End(lens, 9), Pow2(h.maxbits - 9))
    requires LongFilled(lens, |lens|, h.maxbits, h.extra)
    requires Shr(c, 23) >= End(lens, 9)
    ensures DecodesAs(h, lens, c)
  {
    var y, max := Shr(c, 23), h.maxbits;
    var e, z := y - End(lens, 9), Column(max, c);
    ColumnBits(max, c);
    var x := Slot(lens, max, e, z);
    assert x == Shr(c, 32 - max);
    RegisterPrefix(c, max);
    var s := Decode(lens, max, x);
    assert InCode(lens, s, max, x);
    SlotIsLong(lens, s, max, e, z);
    InCodeExtend(lens, s, max, 32 - max, c);
    assert h.table[y] == e;
    assert h.extra[e][z] == Entry(lens, s);
    EntryParts(lens, s);
  }

  // ---------------------------------------------------------------- building

  method FillRange(t: array<nat>, lo: nat, n: nat, v: nat)
    requires lo + n <= t.Length
    modifies t
    ensures forall y :: 0 <= y < t.Length ==> t[y] == if lo <= y < lo + n then v else old(t[y])
  {
    for j := 0 to n
      invariant forall y :: 0 <= y < t.Length ==> t[y] == if lo <= y < lo + j then v else old(t[y])
    {
      t[lo + j] := v;
    }
  }

  /** Numbers of codes of each length, and the greatest length. */
  method CountLengths(lens: seq<nat>) returns (count: array<nat>, max: nat)
    requires Lengths(lens)
    ensures fresh(count) && count.Length == 17
    ensures forall l :: 0 <= l <= 16 ==> count[l] == Count(lens, l)
    ensures max <= 16 && forall i :: 0 <= i < |lens| ==> lens[i] <= max
    ensures max > 0 ==> max in lens
  {
    count := new nat[17](_ => 0);
    max := 0;
    for i := 0 to |lens|
      invariant forall l :: 0 <= l <= 16 ==> count[l] == Count(lens[..i], l)
      invariant max <= 16 && forall j :: 0 <= j < i ==> lens[j] <= max
      invariant max > 0 ==> max in lens
    {
      forall l | 0 <= l <= 16
        ensures Count(lens[..i + 1], l) == Count(lens[..i], l) + if lens[i] == l then 1 else 0
      {
        CountStep(lens, i, l);
      }
      count[lens[i]] := count[lens[i]] + 1;
      if max < lens[i] {
        max := lens[i];
      }
    }
    assert lens[..|lens|] == lens;
  }

  /** First code of each length; `code` ends as one past the last code of the greatest length. */
  method FirstCodes(ghost lens: seq<nat>, count: array<nat>, max: nat) returns (first: array<nat>, code: nat)
    requires count.Length == 17 && forall l :: 0 <= l <= 16 ==> count[l] == Count(lens, l)
    requires 0 < max <= 16
    ensures fresh(first) && first.Length == 17
    ensures forall l :: 1 <= l <= max ==> first[l] == First(lens, l)
    ensures code == End(lens, max)
  {
    first := new nat[17](_ => 0);
    code := 0;
    for i := 1 to max + 1
      invariant forall l :: 1 <= l < i ==> first[l] == First(lens, l)
      invariant code == End(lens, i - 1)
    {
      code := code * 2;
      first[i] := code;
      code := code + count[i];
    }
  }

  /** The contents of a rectangular second-level table. */
  function Rows(x: array2<nat>): (r: seq<seq<nat>>)
    reads x
    ensures Rectangle(r, x.Length0, x.Length1)
    ensures forall e, z :: 0 <= e < x.Length0 && 0 <= z < x.Length1 ==> r[e][z] == x[e, z]
  {
    seq(x.Length0, e requires 0 <= e < x.Length0 reads x =>
      seq(x.Length1, z requires 0 <= z < x.Length1 reads x => x[e, z]))
  }

  method FillRow(x: array2<nat>, row: nat, lo: nat, n: nat, v: nat)
    requires row < x.Length0 && lo + n <= x.Length1
    modifies x
    ensures forall e, z :: 0 <= e < x.Length0 && 0 <= z < x.Length1 ==>
              x[e, z] == if e == row && lo <= z < lo + n then v else old(x[e, z])
  {
    for j := 0 to n
      invariant forall e, z :: 0 <= e < x.Length0 && 0 <= z < x.Length1 ==>
                  x[e, z] == if e == row && lo <= z < lo + j then v else old(x[e, z])
    {
      x[row, lo + j] := v;
    }
  }

  /** Puts a short codeword, with all its suffixes, into the first level. */
  method PlaceShort(lens: seq<nat>, i: nat, code: nat, t: array<nat>)
    requires Lengths(lens) && i < |lens| && 0 < lens[i] <= 9 && code == Code(lens, i)
    requires t.Length == 512 && End(lens, 9) <= 512
    requires ShortFilled(lens, i, t[..]) && (End(lens, 9) < 512 ==> Linked(lens, t[..]))
    modifies t
    ensures ShortFilled(lens, i + 1, t[..]) && (End(lens, 9) < 512 ==> Linked(lens, t[..]))
  {
    var cl := lens[i];
    IntervalEnd(lens, i, 9);
    FillRange(t, Shl(code, 9 - cl), Pow2(9 - cl), cl * 512 + i);
    forall s, y | 0 <= s < i + 1 && 0 <= y < 512 && lens[s] <= 9 && InCode(lens, s, 9, y)
      ensures t[y] == Entry(lens, s)
    {
      InCodeInterval(lens, i, 9, y);
      if s < i && InCode(lens, i, 9, y) {
        PrefixFree(lens, s, i, 9, y);
      }
    }
  }

  /** Where a long codeword goes: a row of the second level and a stretch of it. */
  lemma {:induction false} LongPlace(lens: seq<nat>, i: nat, max: nat)
    requires Lengths(lens) && i < |lens| && 9 < lens[i] <= max <= 16 && End(lens, max) == Pow2(max)
    ensures End(lens, 9) <= Shr(Code(lens, i), lens[i] - 9) < 512
    ensures Shl(Low(Code(lens, i), lens[i] - 9), max - lens[i]) + Pow2(max - lens[i]) <= Pow2(max - 9)
  {
    LongRow(lens, i, max);
    Pow2Add(lens[i] - 9, max - lens[i]);
    ShrLow(Code(lens, i), lens[i] - 9);
    ShlMono(Low(Code(lens, i), lens[i] - 9), Pow2(lens[i] - 9), max - lens[i]);
  }

  /** Filling that stretch places the codeword and disturbs no other. */
  lemma {:induction false} PlacedLong(lens: seq<nat>, i: nat, max: nat, before: seq<seq<nat>>, after: seq<seq<nat>>,
                                      row: nat, lo: nat)
    requires Lengths(lens) && i < |lens| && 9 < lens[i] <= max <= 16
    requires Rectangle(before, |after|, Pow2(max - 9)) && Rectangle(after, |after|, Pow2(max - 9))
    requires row + End(lens, 9) == Shr(Code(lens, i), lens[i] - 9)
    requires lo == Shl(Low(Code(lens, i), lens[i] - 9), max - lens[i])
    requires LongFilled(lens, i, max, before)
    requires forall e, z :: 0 <= e < |after| && 0 <= z < |after[e]| ==>
               after[e][z] == if e == row && lo <= z < lo + Pow2(max - lens[i]) then Entry(lens, i) else before[e][z]
    ensures LongFilled(lens, i + 1, max, after)
  {
    forall s, e, z |
      0 <= s < i + 1 && 0 <= e < |after| && 0 <= z < |after[e]| && lens[s] > 9
      && InCode(lens, s, max, Slot(lens, max, e, z))
      ensures after[e][z] == Entry(lens, s)
    {
      LongInterval(lens, i, max, e, z);
      ShrInterval(z, max - lens[i], Low(Code(lens, i), lens[i] - 9));
      if s < i {
        if InCode(lens, i, max, Slot(lens, max, e, z)) {
          PrefixFree(lens, s, i, max, Slot(lens, max, e, z));
        }
        assert before[e][z] == Entry(lens, s);
      }
    }
  }

  /** Puts a long codeword, with all its suffixes, into its row of the second level. */
  method PlaceLong(lens: seq<nat>, i: nat, code: nat, max: nat, t: array<nat>, x: array2<nat>)
    requires Lengths(lens) && i < |lens| && 9 < lens[i] <= max <= 16 && code == Code(lens, i)
    requires End(lens, max) == Pow2(max) && End(lens, 9) <= 512
    requires t.Length == 512 && Linked(lens, t[..])
    requires x.Length0 == 512 - End(lens, 9) && x.Length1 == Pow2(max - 9)
    requires LongFilled(lens, i, max, Rows(x))
    modifies x
    ensures LongFilled(lens, i + 1, max, Rows(x))
  {
    var cl := lens[i];
    var prefix := Shr(code, cl - 9);
    var suffix := Low(code, cl - 9);
    LongPlace(lens, i, max);
    assert t[..][prefix] == prefix - End(lens, 9);
    ghost var before := Rows(x);
    FillRow(x, t[prefix], Shl(suffix, max - cl), Pow2(max - cl), cl * 512 + i);
    PlacedLong(lens, i, max, before, Rows(x), t[prefix], Shl(suffix, max - cl));
  }

  /** A complete code leaves room for its long codewords, and none when there are none. */
  lemma {:induction false} CoreBound(lens: seq<nat>, max: nat)
    requires Lengths(lens) && 0 < max <= 16 && forall i :: 0 <= i < |lens| ==> lens[i] <= max
    requires End(lens, max) == Pow2(max)
    ensures End(lens, 9) <= 512
    ensures max <= 9 ==> End(lens, 9) == 512
  {
    ShlConstants(1);
    if max > 9 {
      EndBounded(lens, 9, max);
    } else {
      EndScales(lens, max, 9);
      Pow2Add(max, 9 - max);
    }
  }

  /** The first level before any codeword is placed. */
  method LinkRows(ghost lens: seq<nat>, core: nat) returns (t: array<nat>)
    requires core == End(lens, 9) <= 512
    ensures fresh(t) && t.Length == 512 && Linked(lens, t[..])
  {
    t := new nat[512](_ => 0);
    for y := core to 512
      invariant forall k :: core <= k < y ==> t[k] == k - core
    {
      t[y] := y - core;
    }
  }

  /** Places every codeword. */
  method PlaceAll(lens: seq<nat>, max: nat, first: array<nat>, t: array<nat>, x: array2<nat>)
    requires Lengths(lens) && 0 < max <= 16 && forall i :: 0 <= i < |lens| ==> lens[i] <= max
    requires End(lens, max) == Pow2(max) && End(lens, 9) <= 512
    requires first.Length == 17 && forall l :: 1 <= l <= max ==> first[l] == First(lens, l)
    requires t.Length == 512 && first != t && (End(lens, 9) < 512 ==> Linked(lens, t[..]))
    requires max > 9 ==> End(lens, 9) < 512 && x.Length0 == 512 - End(lens, 9) && x.Length1 == Pow2(max - 9)
    modifies first, t, x
    ensures ShortFilled(lens, |lens|, t[..])
    ensures End(lens, 9) < 512 ==> Linked(lens, t[..])
    ensures max > 9 ==> LongFilled(lens, |lens|, max, Rows(x))
  {
    for i := 0 to |lens|
      invariant forall l :: 1 <= l <= max ==> first[l] == First(lens, l) + Count(lens[..i], l)
      invariant ShortFilled(lens, i, t[..])
      invariant End(lens, 9) < 512 ==> Linked(lens, t[..])
      invariant max > 9 ==> LongFilled(lens, i, max, Rows(x))
    {
      forall l | 1 <= l <= max
        ensures Count(lens[..i + 1], l) == Count(lens[..i], l) + if lens[i] == l then 1 else 0
      {
        CountStep(lens, i, l);
      }
      var cl := lens[i];
      if cl != 0 {
        var code := first[cl];
        first[cl] := first[cl] + 1;
        if cl <= 9 {
          PlaceShort(lens, i, code, t);
        } else {
          PlaceLong(lens, i, code, max, t, x);
        }
      }
    }
  }

  lemma FilledDecodes(h: Table, lens: seq<nat>)
    requires Lengths(lens) && |h.table| == 512 && 0 < h.maxbits <= 16
    requires End(lens, h.maxbits) == Pow2(h.maxbits) && End(lens, 9) <= 512
    requires h.maxbits <= 9 ==> End(lens, 9) == 512
    requires ShortFilled(lens, |lens|, h.table)
    requires h.maxbits > 9 ==> Linked(lens, h.table)
    requires h.maxbits > 9 ==> Rectangle(h.extra, 512 - End(lens, 9), Pow2(h.maxbits - 9))
    requires h.maxbits > 9 ==> LongFilled(lens, |lens|, h.maxbits, h.extra)
    ensures forall c: u32 :: DecodesAs(h, lens, c)
  {
    forall c: u32
      ensures DecodesAs(h, lens, c)
    {
      ColumnBits(16, c);
      if Shr(c, 23) < End(lens, 9) {
        ShortDecodes(h, lens, c);
      } else {
        LongDecodes(h, lens, c);
      }
    }
  }

  /** When some code is longer than nine bits, the short codes do not fill the first level. */
  lemma LongCodesLeaveRoom(lens: seq<nat>, max: nat)
    requires Lengths(lens) && 9 < max <= 16 && max in lens && End(lens, max) == Pow2(max)
    ensures End(lens, 9) < 512
  {
    var s :| 0 <= s < |lens| && lens[s] == max;
    LongRow(lens, s, max);
  }

  /**
   buildTable: no table exactly when the lengths are not all zero and their Kraft sum is not one;
   otherwise the table decodes every word as the canonical code does.
   */
  method BuildTable(lens: seq<nat>) returns (r: Option<Table>)
    requires Lengths(lens)
    ensures r.None? <==> !AllZero(lens) && !Complete(lens)
    ensures r.Some? ==> TableFor(r.value, lens)
  {
    var count, max := CountLengths(lens);
    if max == 0 {
      ZeroKraft(lens);
      return Some(Table(0, seq(512, _ => 0), []));
    }
    CompleteAt(lens, max);
    var first, code := FirstCodes(lens, count, max);
    if code != Pow2(max) {
      return None;
    }
    CoreBound(lens, max);
    var core := 512;
    var columns := 0;
    if max > 9 {
      core := first[10] / 2;
      columns := Pow2(max - 9);
      LongCodesLeaveRoom(lens, max);
    }
    var t := LinkRows(lens, core);
    var x := new nat[512 - core, columns];
    PlaceAll(lens, max, first, t, x);
    var h := Table(max, t[..], Rows(x));
    FilledDecodes(h, lens);
    r := Some(h);
  }

  lemma {:induction false} ZeroKraft(lens: seq<nat>)
    requires AllZero(lens)
    ensures KraftSum(lens, 16) == 0
  {
    if lens != [] {
      ZeroKraft(lens[..|lens| - 1]);
    }
  }
}
