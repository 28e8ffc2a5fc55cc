/** The FILE_FULL_EA_INFORMATION codec of ea.go (section 2.4 of [MS-FSCC]). */
module ExtendedAttributes {
  import opened Bits
  import opened Wrappers
  import opened LittleEndian

  datatype Ea = Ea(name: seq<byte>, value: seq<byte>, flags: byte)

  datatype Error = Ok | InvalidBuffer | NameTooLarge | ValueTooLarge

  const HEADER := 8

  // ---------------------------------------------------------------- decoding

  /** parseEa: the first entry and the rest of the buffer, which is empty after the last entry. */
  function ParseEa(b: seq<byte>): (r: Option<(Ea, seq<byte>)>)
    ensures r.Some? ==> |r.value.1| < |b| && |r.value.0.name| <= 255 && |r.value.0.value| <= 65535
  {
    if |b| < HEADER then None
    else
      var next, nameLen, valueLen := UnLe(b[0..4]), b[5] as nat, UnLe(b[6..8]);
      Pow256Values();
      UnLeBound(b[6..8]);
      var valueOffset := HEADER + nameLen + 1;
      if valueLen + valueOffset > |b| || next > |b| then None
      else
        Some((Ea(b[HEADER..HEADER + nameLen], b[valueOffset..valueOffset + valueLen], b[4]),
              if next != 0 then b[next..] else []))
  }

  /** What a buffer means: the chain of its entries. */
  function Decode(b: seq<byte>): (r: Option<seq<Ea>>)
    ensures r.Some? ==> AllFit(r.value)
    decreases |b|
  {
    if b == [] then Some([])
    else
      match ParseEa(b)
      case None => None
      case Some((ea, nb)) =>
        match Decode(nb)
        case None => None
        case Some(rest) => Some([ea] + rest)
  }

  /** DecodeExtendedAttributes; it terminates on every buffer because every entry shortens what is left. */
  method DecodeExtendedAttributes(b: seq<byte>) returns (eas: seq<Ea>, e: Error)
    ensures e == (if Decode(b).Some? then Ok else InvalidBuffer)
    ensures e == Ok ==> Decode(b) == Some(eas)
  {
    hide ParseEa;
    eas := [];
    var rest := b;
    assert forall x: seq<Ea> :: [] + x == x;
    while |rest| != 0
      invariant Decode(b) == if Decode(rest).Some? then Some(eas + Decode(rest).value) else None
      decreases |rest|
    {
      var r := ParseEa(rest);
      if r == None {
        return [], InvalidBuffer;
      }
      var (ea, nb) := r.value;
      ghost var tail := Decode(nb);
      if tail.Some? {
        assert eas + ([ea] + tail.value) == (eas + [ea]) + tail.value;
      }
      eas := eas + [ea];
      rest := nb;
    }
    assert eas + [] == eas;
    return eas, Ok;
  }

  // ---------------------------------------------------------------- encoding

  predicate Fits(ea: Ea) {
    |ea.name| <= 255 && |ea.value| <= 65535
  }

  predicate AllFit(eas: seq<Ea>) {
    forall i :: 0 <= i < |eas| ==> Fits(eas[i])
  }

  function EntrySize(ea: Ea): nat {
    HEADER + |ea.name| + 1 + |ea.value|
  }

  /** (entrySize + 3) &^ 3 */
  function Padded(n: nat): (p: nat)
    ensures p % 4 == 0 && n <= p < n + 4
  {
    (n + 3) / 4 * 4
  }

  /** An entry up to its padding, announcing the next one at `next`. */
  function Body(ea: Ea, next: nat): (b: seq<byte>)
    requires Fits(ea)
    ensures |b| == EntrySize(ea)
  {
    Le(next, 4) + [ea.flags, |ea.name|] + Le(|ea.value|, 2) + ea.name + [0] + ea.value
  }

  function Padding(ea: Ea): seq<byte> {
    seq(Padded(EntrySize(ea)) - EntrySize(ea), _ => 0)
  }

  /** All entries, each but the last padded, with `tail` after the last. */
  function EncodeWith(eas: seq<Ea>, tail: seq<byte>): seq<byte>
    requires eas != [] && AllFit(eas)
  {
    if |eas| == 1 then Body(eas[0], 0) + tail
    else Body(eas[0], Padded(EntrySize(eas[0]))) + Padding(eas[0]) + EncodeWith(eas[1..], tail)
  }

  /** What EncodeExtendedAttributes produces: padding after the last entry too. */
  function Encode(eas: seq<Ea>): seq<byte>
    requires AllFit(eas)
  {
    if eas == [] then [] else EncodeWith(eas, Padding(eas[|eas| - 1]))
  }

  method WriteEa(buf: seq<byte>, ea: Ea, last: bool) returns (r: seq<byte>, e: Error)
    ensures e == if |ea.name| > 255 then NameTooLarge else if |ea.value| > 65535 then ValueTooLarge else Ok
    ensures e == Ok ==> r == buf + Body(ea, if last then 0 else Padded(EntrySize(ea))) + Padding(ea)
  {
    if |ea.name| % 256 != |ea.name| {
      return buf, NameTooLarge;
    }
    if |ea.value| % 0x1_0000 != |ea.value| {
      return buf, ValueTooLarge;
    }
    var withPadding := Padded(EntrySize(ea));
    var nextOffset := 0;
    if !last {
      nextOffset := withPadding;
    }
    r := buf + (Le(nextOffset, 4) + [ea.flags, |ea.name|] + Le(|ea.value|, 2) + ea.name + [0] + ea.value);
    r := r + seq(withPadding - EntrySize(ea), _ => 0);
    e := Ok;
  }

  /** The error an entry is rejected with. */
  function Rejection(ea: Ea): Error {
    if |ea.name| > 255 then NameTooLarge else if |ea.value| > 65535 then ValueTooLarge else Ok
  }

  /** Entry `i` of a list, padded. */
  ghost function Entry(eas: seq<Ea>, i: nat): (b: seq<byte>)
    requires i < |eas| && Fits(eas[i])
    ensures |b| % 4 == 0
  {
    PaddingLength(eas[i]);
    Body(eas[i], if i == |eas| - 1 then 0 else Padded(EntrySize(eas[i]))) + Padding(eas[i])
  }

  /** EncodeExtendedAttributes: fails on the first entry that does not fit, and only then. */
  method EncodeExtendedAttributes(eas: seq<Ea>) returns (r: seq<byte>, e: Error)
    ensures e == Ok <==> AllFit(eas)
    ensures e == Ok ==> r == Encode(eas)
    ensures e != Ok ==> exists i :: 0 <= i < |eas| && e == Rejection(eas[i]) && AllFit(eas[..i])
  {
    hide Body, Padding, Padded, EntrySize, EncodeWith, Encode;
    var buf := [];
    if AllFit(eas) {
      RestAll(eas);
    }
    for i := 0 to |eas|
      invariant AllFit(eas[..i])
      invariant AllFit(eas) ==> Encode(eas) == buf + Rest(eas, i)
    {
      ghost var was := buf;
      buf, e := WriteEa(buf, eas[i], i == |eas| - 1);
      if e != Ok {
        assert e == Rejection(eas[i]);
        return [], e;
      }
      assert buf == was + Entry(eas, i);
      if AllFit(eas) {
        RestStep(eas, i);
        assert was + (Entry(eas, i) + Rest(eas, i + 1)) == (was + Entry(eas, i)) + Rest(eas, i + 1);
      }
    }
    assert eas[..|eas|] == eas;
    assert buf + [] == buf;
    return buf, Ok;
  }

  /** The encoding of the entries from `i` on. */
  ghost function Rest(eas: seq<Ea>, i: nat): seq<byte>
    requires AllFit(eas) && i <= |eas|
  {
    if i == |eas| then [] else EncodeWith(eas[i..], Padding(eas[|eas| - 1]))
  }

  lemma RestAll(eas: seq<Ea>)
    requires AllFit(eas)
    ensures Encode(eas) == [] + Rest(eas, 0)
  {
    assert eas[0..] == eas;
  }

  lemma RestStep(eas: seq<Ea>, i: nat)
    requires AllFit(eas) && i < |eas|
    ensures Rest(eas, i) == Entry(eas, i) + Rest(eas, i + 1)
  {
    hide Body, Padding, Padded, EntrySize;
    if i < |eas| - 1 {
      assert eas[i..][1..] == eas[i + 1..];
    }
  }

  lemma PaddingLength(ea: Ea)
    ensures EntrySize(ea) + |Padding(ea)| == Padded(EntrySize(ea))
    ensures Fits(ea) ==> Padded(EntrySize(ea)) < 0x1_0000_0000
  {
  }

  // ---------------------------------------------------------------- round trip

  /** Parsing an entry gives it back, whatever follows, together with what follows the announced offset. */
  lemma {:induction false} ParseBody(ea: Ea, next: nat, tail: seq<byte>)
    requires Fits(ea) && next <= EntrySize(ea) + |tail| && next < 0x1_0000_0000
    ensures ParseEa(Body(ea, next) + tail) == Some((ea, if next == 0 then [] else (Body(ea, next) + tail)[next..]))
  {
    hide Le, UnLe;
    var b := Body(ea, next) + tail;
    Pow256Values();
    assert b[0..4] == Le(next, 4);
    assert b[6..8] == Le(|ea.value|, 2);
    UnLeLe(next, 4);
    UnLeLe(|ea.value|, 2);
    assert b[4] == ea.flags && b[5] == |ea.name|;
    assert b[8..8 + |ea.name|] == ea.name;
    assert b[9 + |ea.name|..9 + |ea.name| + |ea.value|] == ea.value;
  }

  /** Decoding gives back every list, flags included, and looks at nothing after the last entry. */
  lemma {:induction false} DecodeEncodeWith(eas: seq<Ea>, tail: seq<byte>)
    requires eas != [] && AllFit(eas)
    ensures Decode(EncodeWith(eas, tail)) == Some(eas)
    decreases |eas|
  {
    hide ParseEa, Body, Padded, Padding;
    if |eas| == 1 {
      ParseBody(eas[0], 0, tail);
      assert eas == [eas[0]] + [];
      assert Decode([]) == Some([]);
    } else {
      var ea, rest := eas[0], EncodeWith(eas[1..], tail);
      var next := Padded(EntrySize(ea));
      var pad := Padding(ea);
      PaddingLength(ea);
      ParseBody(ea, next, pad + rest);
      assert Body(ea, next) + pad + rest == Body(ea, next) + (pad + rest);
      assert (Body(ea, next) + pad + rest)[next..] == rest;
      DecodeEncodeWith(eas[1..], tail);
      assert eas == [ea] + eas[1..];
    }
  }

  /** The round trip; the final padding may be cut short or replaced by anything. */
  lemma {:induction false} RoundTrip(eas: seq<Ea>, tail: seq<byte>)
    requires AllFit(eas)
    ensures Decode(Encode(eas)) == Some(eas)
    ensures eas != [] ==> Decode(EncodeWith(eas, tail)) == Some(eas)
  {
    if eas != [] {
      DecodeEncodeWith(eas, Padding(eas[|eas| - 1]));
      DecodeEncodeWith(eas, tail);
    }
  }

  /** Whatever decodes can be encoded again, to the same list. */
  lemma {:induction false} DecodedReencodes(b: seq<byte>)
    requires Decode(b).Some?
    ensures AllFit(Decode(b).value) && Decode(Encode(Decode(b).value)) == Decode(b)
  {
    RoundTrip(Decode(b).value, []);
  }

  /** Where entry `i` of an encoding starts. */
  ghost function StartOf(eas: seq<Ea>, i: nat): int
    requires AllFit(eas) && i <= |eas|
  {
    |Encode(eas)| - |Rest(eas, i)|
  }

  /** Every entry is found where it starts, which is at a multiple of four. */
  lemma {:induction false} EntriesAligned(eas: seq<Ea>, i: nat)
    requires AllFit(eas) && i <= |eas|
    ensures 0 <= StartOf(eas, i) <= |Encode(eas)| && StartOf(eas, i) % 4 == 0
    ensures Encode(eas)[StartOf(eas, i)..] == Rest(eas, i)
    ensures i < |eas| ==> Entry(eas, i) <= Encode(eas)[StartOf(eas, i)..]
    decreases i
  {
    hide Entry, Encode, Rest;
    if i == 0 {
      RestAll(eas);
    } else {
      EntriesAligned(eas, i - 1);
      RestStep(eas, i - 1);
      var start := StartOf(eas, i - 1);
      assert |Rest(eas, i - 1)| == |Entry(eas, i - 1)| + |Rest(eas, i)|;
      assert Encode(eas)[StartOf(eas, i)..] == Encode(eas)[start..][|Entry(eas, i - 1)|..];
    }
    if i < |eas| {
      RestStep(eas, i);
    }
  }

  // ---------------------------------------------------------------- the bytes

  /** Where the fields of an entry are. */
  lemma {:induction false} FieldsAt(ea: Ea, next: nat)
    requires Fits(ea) && next < 0x1_0000_0000
    ensures var b, n := Body(ea, next), |ea.name|;
            && b[0] == next % 256 && b[1] == next / 256 % 256
            && b[2] == next / 0x1_0000 % 256 && b[3] == next / 0x100_0000
            && b[4] == ea.flags && b[5] == n && b[6] == |ea.value| % 256 && b[7] == |ea.value| / 256
            && b[8..8 + n] == ea.name && b[8 + n] == 0 && b[9 + n..] == ea.value
  {
    hide Le;
    FourBytes(next);
    LeAt(|ea.value|, 2, 0);
    LeAt(|ea.value|, 2, 1);
    assert Pow256(0) == 1 && Pow256(1) == 256;
    var b := Body(ea, next);
    assert b[0..4] == Le(next, 4) && b[6..8] == Le(|ea.value|, 2);
  }

  /** foo=bar and fizz=buzz, as the package's own example has them. */
  lemma {:induction false} TwoAttributes()
    ensures var eas := [Ea([102, 111, 111], [98, 97, 114], 0), Ea([102, 105, 122, 122], [98, 117, 122, 122], 0)];
            AllFit(eas) && Encode(eas) ==
              [16, 0, 0, 0, 0, 3, 3, 0, 102, 111, 111, 0, 98, 97, 114, 0,
               0, 0, 0, 0, 0, 4, 4, 0, 102, 105, 122, 122, 0, 98, 117, 122, 122, 0, 0, 0]
  {
    hide Body, Le, Padding, Padded;
    var a, b := Ea([102, 111, 111], [98, 97, 114], 0), Ea([102, 105, 122, 122], [98, 117, 122, 122], 0);
    FooBar();
    FizzBuzz();
    var eas := [a, b];
    assert eas[1..] == [b] && eas[|eas| - 1] == b;
    assert EncodeWith([b], [0, 0, 0]) == Body(b, 0) + [0, 0, 0];
    assert Encode(eas) == Body(a, 16) + [0] + EncodeWith([b], [0, 0, 0]);
  }

  lemma {:induction false} FooBar()
    ensures var a := Ea([102, 111, 111], [98, 97, 114], 0);
            && Fits(a) && Padded(EntrySize(a)) == 16 && Padding(a) == [0]
            && Body(a, 16) == [16, 0, 0, 0, 0, 3, 3, 0, 102, 111, 111, 0, 98, 97, 114]
  {
    hide Body, Le;
    var a := Ea([102, 111, 111], [98, 97, 114], 0);
    FieldsAt(a, 16);
    var b := Body(a, 16);
    assert b[..8] == [16, 0, 0, 0, 0, 3, 3, 0];
    Pieces(b, 8, 3);
  }

  lemma {:induction false} FizzBuzz()
    ensures var a := Ea([102, 105, 122, 122], [98, 117, 122, 122], 0);
            && Fits(a) && Padding(a) == [0, 0, 0]
            && Body(a, 0) == [0, 0, 0, 0, 0, 4, 4, 0, 102, 105, 122, 122, 0, 98, 117, 122, 122]
  {
    hide Body, Le;
    var a := Ea([102, 105, 122, 122], [98, 117, 122, 122], 0);
    FieldsAt(a, 0);
    var b := Body(a, 0);
    assert b[..8] == [0, 0, 0, 0, 0, 4, 4, 0];
    Pieces(b, 8, 4);
  }

  lemma Pieces(b: seq<byte>, k: nat, n: nat)
    requires k + n + 1 <= |b|
    ensures b == b[..k] + b[k..k + n] + [b[k + n]] + b[k + n + 1..]
  {
  }
}
