/** Facts about the 32-bit shift register `c` of the decompressor and its `nbits` valid bits. */
module LzxRegister {
  import opened Bits
  import opened Wrappers
  import Spec = LzxSpec

  /** All 32 bits of the register. */
  function Reg(c: u32): (w: seq<bool>)
    ensures |w| == 32
  {
    ToBits(c, 32)
  }

  /** The valid bits sit at the top and the others are zero. */
  ghost predicate RegOk(c: u32, nbits: nat) {
    nbits <= 32 && Reg(c)[nbits..] == Zeros(32 - nbits)
  }

  ghost function RegTop(c: u32, nbits: nat): (r: seq<bool>)
    requires nbits <= 32
    ensures |r| == nbits
  {
    Reg(c)[..nbits]
  }

  lemma {:induction false} RegIs(c: u32, w: seq<bool>)
    requires |w| == 32 && Val(w) == c
    ensures Reg(c) == w
  {
    ToBitsVal(w);
  }

  lemma {:induction false} ValReg(c: u32)
    ensures Val(Reg(c)) == c
  {
    ShlConstants(1);
    ValToBits(c, 32);
  }

  /** The register after feeding the word `w`. */
  function Fed(c: u32, nbits: nat, w: u16): u32
    requires nbits <= 16
  {
    BitOr(c, Shl(w, 16 - nbits)) % 0x1_0000_0000
  }

  /** Fed in below the valid bits, a word follows them. */
  lemma {:induction false} FedValue(c: u32, nbits: nat, w: u16)
    requires nbits <= 16 && RegOk(c, nbits)
    ensures BitOr(c, Shl(w, 16 - nbits)) == Val(RegTop(c, nbits) + (ToBits(w, 16) + Zeros(16 - nbits)))
  {
    hide Reg, Val, Shl, ToBits, BitOr;
    var top, word, low := RegTop(c, nbits), ToBits(w, 16), Zeros(16 - nbits);
    assert c == Shl(Val(top), 32 - nbits) by {
      ValReg(c);
      assert Reg(c) == top + Zeros(32 - nbits);
      ValConcat(top, Zeros(32 - nbits));
      ValZeros(32 - nbits);
    }
    assert Val(word + low) == Shl(w, 16 - nbits) by {
      ValConcat(word, low);
      ValZeros(16 - nbits);
      ShlConstants(1);
      ValToBits(w, 16);
    }
    ValConcat(top, word + low);
    ValBound(word + low);
    BitOrDisjoint(Val(top), Val(word + low), 32 - nbits);
  }

  /** Feeding a word appends its sixteen bits. */
  lemma {:induction false} FeedReg(c: u32, nbits: nat, w: u16)
    requires nbits <= 16 && RegOk(c, nbits)
    ensures RegOk(Fed(c, nbits, w), nbits + 16)
    ensures RegTop(Fed(c, nbits, w), nbits + 16) == RegTop(c, nbits) + ToBits(w, 16)
  {
    hide Reg, Val, Shl, ToBits, BitOr;
    var top, word, low := RegTop(c, nbits), ToBits(w, 16), Zeros(16 - nbits);
    var bits := top + (word + low);
    assert Fed(c, nbits, w) == Val(bits) by {
      FedValue(c, nbits, w);
      ValBound(bits);
      ShlConstants(1);
    }
    RegIs(Fed(c, nbits, w), bits);
    assert bits[..nbits + 16] == top + word;
    assert bits[nbits + 16..] == low;
  }

  /** Shifting out `n` valid bits. */
  lemma {:induction false} TakeReg(c: u32, nbits: nat, n: nat)
    requires n <= nbits && RegOk(c, nbits)
    ensures Shr(c, 32 - n) == Val(RegTop(c, nbits)[..n])
    ensures RegOk(Shl(c, n) % 0x1_0000_0000, nbits - n)
    ensures RegTop(Shl(c, n) % 0x1_0000_0000, nbits - n) == RegTop(c, nbits)[n..]
  {
    hide Reg, Shl, Shr, Val;
    var w := Reg(c);
    var v := w[n..] + Zeros(n);
    ValReg(c);
    ValSplit(w, n);
    assert w[..n] == RegTop(c, nbits)[..n];
    ShiftOut(w, n);
    RegIs(Shl(c, n) % 0x1_0000_0000, v);
    assert v[..nbits - n] == w[n..nbits];
    assert v[nbits - n..] == w[nbits..] + Zeros(n);
  }

  /** The stream that the register and the pending bytes stand for. */
  ghost function StreamAt(c: u32, nbits: nat, pending: seq<byte>): Spec.Stream
    requires nbits <= 32
  {
    Spec.Stream(RegTop(c, nbits) + Spec.WordsBits(pending), Spec.OddTail(pending))
  }

  /** Feeding moves a word from the pending bytes to the register and leaves the stream alone. */
  lemma {:induction false} FeedStream(c: u32, nbits: nat, pending: seq<byte>)
    requires nbits <= 16 && RegOk(c, nbits) && |pending| >= 2
    ensures var c' := Fed(c, nbits, Spec.Word(pending[0], pending[1]));
            RegOk(c', nbits + 16) && StreamAt(c', nbits + 16, pending[2..]) == StreamAt(c, nbits, pending)
  {
    var lo, hi, rest := pending[0], pending[1], pending[2..];
    FeedReg(c, nbits, Spec.Word(lo, hi));
    PendingCons(pending);
    SeqAssoc(RegTop(c, nbits), Spec.WordBits(lo, hi), Spec.WordsBits(rest));
  }

  lemma SeqAssoc(x: seq<bool>, y: seq<bool>, z: seq<bool>)
    ensures (x + y) + z == x + (y + z)
  {
  }

  lemma {:induction false} PendingCons(pending: seq<byte>)
    requires |pending| >= 2
    ensures Spec.WordsBits(pending) == Spec.WordBits(pending[0], pending[1]) + Spec.WordsBits(pending[2..])
    ensures Spec.OddTail(pending) == Spec.OddTail(pending[2..])
  {
    assert pending == [pending[0], pending[1]] + pending[2..];
    Spec.OddTailCons(pending[0], pending[1], pending[2..]);
  }

  /** Shifting the register takes bits off the front of the stream. */
  lemma {:induction false} TakeStream(c: u32, nbits: nat, n: nat, pending: seq<byte>)
    requires n <= nbits <= 32 && RegOk(c, nbits)
    ensures RegOk(Shl(c, n) % 0x1_0000_0000, nbits - n)
    ensures Spec.GetBits(StreamAt(c, nbits, pending), n)
         == Some((Shr(c, 32 - n), StreamAt(Shl(c, n) % 0x1_0000_0000, nbits - n, pending)))
  {
    hide Reg, Val, Shl, Shr, RegOk, Spec.WordsBits, Spec.OddTail;
    TakeReg(c, nbits, n);
    var top, tail := RegTop(c, nbits), Spec.WordsBits(pending);
    assert (top + tail)[..n] == top[..n];
    assert (top + tail)[n..] == top[n..] + tail;
  }
}

/** The buffered bit reader of wim/lzx/lzx.go. */
module LzxReader {
  import opened Bits
  import opened Wrappers
  import Spec = LzxSpec
  import opened Huffman
  import opened HuffmanTable
  import opened LzxRegister

  datatype Error = Ok | Eof | UnexpectedEof | Corrupt | Fault | TooLarge

  /** What one Read of the reader returns into `space` bytes: as many as `portions` says next, or all it can. */
  function OneRead(portions: seq<nat>, space: nat, avail: nat): (m: nat)
    requires space > 0 && avail > 0
    ensures 1 <= m <= space && m <= avail
  {
    var most := if space < avail then space else avail;
    if portions == [] || portions[0] > most then most else if portions[0] == 0 then 1 else portions[0]
  }

  /** How many bytes io.ReadAtLeast gets in all when it asks for `n`. */
  function Arrived(portions: seq<nat>, n: nat, space: nat, avail: nat): (m: nat)
    requires n <= space && n <= avail
    ensures n <= m <= space && m <= avail
    decreases n
  {
    if n == 0 then 0
    else
      var m := OneRead(portions, space, avail);
      if m >= n then m else m + Arrived(if portions == [] then [] else portions[1..], n - m, space - m, avail - m)
  }

  class Decompressor {
    /** The reader `r`: the bytes it has yet to return, in what portions, and what it returns after them. */
    var unread: seq<byte>
    var portions: seq<nat>
    const readerErr: Error

    var err: Error
    var unaligned: bool
    var nbits: nat
    var c: u32
    var lru: seq<nat>
    const b: array<byte>
    var bv: nat
    var bo: nat
    const window: array<byte>
    const mainlens: array<nat>
    const lenlens: array<nat>

    /** The one abstract stream behind register, buffer and reader. */
    ghost var input: Spec.Stream

    /** Some read failed although the stream held what it asked for. */
    ghost var lost: bool

    /** The reader ends without an error and its first Read returns everything. */
    ghost const prompt: bool

    /** The reader fills the buffer, and buffer and reader hold whole words. */
    ghost var steady: bool

    /** NewReader: a decompressor over `data`, which arrives in portions of the sizes `portions`. */
    constructor (data: seq<byte>, atEnd: Error, portions: seq<nat>)
      requires atEnd == Eof || atEnd == Fault
      ensures !lost && (prompt <==> atEnd == Eof && portions == [] && |data| <= 4096)
      ensures steady <==> atEnd == Eof && portions == [] && |data| % 2 == 0
      ensures unread == data && readerErr == atEnd && this.portions == portions && bo == bv == 0
      ensures Valid() && fresh(b) && fresh(window) && fresh(mainlens) && fresh(lenlens)
      ensures err.Ok? && nbits == 0 && !unaligned && lru == [1, 1, 1] && input == Spec.StreamOf(data)
      ensures forall i :: 0 <= i < 496 ==> mainlens[i] == 0
      ensures forall i :: 0 <= i < 249 ==> lenlens[i] == 0
      ensures forall i :: 0 <= i < 32768 ==> window[i] == 0
    {
      unread, readerErr, this.portions := data, atEnd, portions;
      lost, prompt := false, atEnd == Eof && portions == [] && |data| <= 4096;
      steady := atEnd == Eof && portions == [] && |data| % 2 == 0;
      err, unaligned, nbits, c, lru := Ok, false, 0, 0, [1, 1, 1];
      b, bv, bo := new byte[4096], 0, 0;
      window := new byte[32768](_ => 0);
      mainlens := new nat[496](_ => 0);
      lenlens := new nat[249](_ => 0);
      input := Spec.StreamOf(data);
      new;
      EmptyRegister(data);
      assert Pending() == data;
    }

    /** The reader is one of those allowed for, and from a prompt or steady one nothing is lost. */
    ghost predicate ReaderOk()
      reads `portions, `lost, `steady
    {
      (readerErr == Eof || readerErr == Fault) && (prompt || steady ==> readerErr == Eof && portions == [] && !lost)
    }

    /** The bit reader's part of `Valid`; `nbits` and `c` mean something only while there is no error. */
    ghost predicate Reading()
      reads `unread, `portions, `err, `bo, `bv, `c, `nbits, `input, `lost, `steady, b
    {
      && ReaderOk()
      && (prompt && err.Ok? && unread != [] ==> bo == bv && nbits == 0 && |unread| <= 4096)
      && (steady && err.Ok? ==> |unread| % 2 == 0 && (bv - bo) % 2 == 0)
      && b.Length == 4096
      && nbits < 256
      && (err.Ok? ==> bo <= bv <= 4096 && nbits <= 31 && RegOk(c, nbits) && input == StreamAt(c, nbits, Pending()))
      && (!err.Ok? ==> err != Eof && bv == 0 && bo <= 4096)
    }

    /** What the fields obey between calls. */
    ghost predicate Valid()
      reads this, b, mainlens, lenlens
    {
      && Reading()
      && window.Length == 32768 && mainlens.Length == 496 && lenlens.Length == 249
      && b != window && mainlens != lenlens
      && |lru| == 3
      && (forall i :: 0 <= i < 496 ==> mainlens[i] <= 16)
      && (forall i :: 0 <= i < 249 ==> lenlens[i] <= 16)
    }

    /** After a failure stale buffer bytes may be read, at most `k` words of them. */
    ghost predicate Room(k: nat)
      reads this
    {
      err.Ok? || bo + 2 * k <= 4096
    }

    ghost function Pending(): seq<byte>
      requires bo <= bv <= b.Length
      reads `unread, `bo, `bv, b
    {
      b[bo..bv] + unread
    }

    lemma {:induction false} InputLength()
      requires Reading() && err.Ok?
      ensures |input.bits| == nbits + |Pending()| / 2 * 16 && |input.last| <= 1
      ensures |input.bits| >= 32 && nbits < 16 ==> CanFeed()
    {
      hide RegOk, Spec.WordsBits;
    }

    /** How many bytes the next feed takes from the reader. */
    ghost function Fetched(): nat
      reads this
    {
      if bv - bo < 2 <= |unread| && bo <= bv then Arrived(portions, 2, 4096 - (bv - bo), |unread|) else 0
    }

    /** Another word can be fetched: the buffer holds one, or the reader still has two bytes. */
    ghost predicate CanFeed()
      reads this
    {
      bv - bo >= 2 || |unread| >= 2
    }

    /**
     getBits gives up although the stream still holds the bits exactly when the last two bytes are
     split, one in the buffer and one in the reader.
     */
    lemma {:induction false} SplitWordIsLost(n: nat)
      requires Reading() && err.Ok? && nbits < n <= 16
      ensures Spec.GetBits(input, n).Some? && !CanFeed() <==> bv - bo == 1 && |unread| == 1
    {
      var k := |Pending()|;
      assert k == bv - bo + |unread|;
      hide Reading;
      InputLength();
    }

    /** With an empty register the stream is the pending bytes. */
    lemma {:induction false} AlignedInput()
      requires Reading() && err.Ok? && nbits == 0
      ensures input == Spec.StreamOf(Pending()) && Spec.BytesOf(input) == Pending()
    {
      hide RegOk, Reg, Spec.WordsBits, Spec.OddTail, Spec.BytesOf;
      assert RegTop(c, 0) + Spec.WordsBits(Pending()) == Spec.WordsBits(Pending());
      Spec.BytesOfStreamOf(Pending());
    }

    /** Drops `k` buffered bytes of an aligned stream. */
    method SkipBytes(k: nat)
      requires Reading() && err.Ok? && nbits == 0 && bo + k <= bv && !steady
      modifies this`bo, this`input
      ensures Reading() && bo == old(bo) + k
      ensures |old(Spec.BytesOf(input))| >= k && input == Spec.StreamOf(old(Spec.BytesOf(input))[k..])
      ensures Spec.BytesOf(input) == old(Spec.BytesOf(input))[k..]
    {
      hide RegOk, StreamAt, Spec.StreamOf, Spec.BytesOf;
      AlignedInput();
      ghost var pending := Pending();
      bo := bo + k;
      assert Pending() == pending[k..];
      input := StreamAt(c, nbits, Pending());
      AlignedInput();
    }

    method Fail(e: Error)
      requires e != Ok && e != Eof
      modifies this`err, this`bo, this`bv
      ensures err == if old(err).Ok? then e else old(err)
      ensures bo == 0 && bv == 0
      ensures old(err) != Eof && b.Length == 4096 && nbits < 256 && ReaderOk() ==> Reading()
      ensures old(Reading()) ==> Reading()
    {
      if err == Ok {
        err := e;
      }
      bo := 0;
      bv := 0;
    }

    /** Moves the unconsumed bytes to the front of the buffer. */
    method Compact()
      requires bo <= bv <= b.Length
      modifies b
      ensures b[..bv - bo] == old(b[bo..bv])
      ensures bv - bo <= 1 ==> b[bo..bv] == old(b[bo..bv])
    {
      forall j | 0 <= j < bv - bo {
        b[j] := b[bo + j];
      }
    }

    /** The portions that io.ReadAtLeast collects. */
    method Collect(n: nat, space: nat) returns (got: nat)
      requires n <= space && n <= |unread|
      modifies this`portions
      ensures got == Arrived(old(portions), n, space, |unread|) && (old(portions) == [] ==> portions == [])
    {
      got := 0;
      ghost var whole := Arrived(portions, n, space, |unread|);
      while got < n
        invariant got <= space && got <= |unread| && (old(portions) == [] ==> portions == [])
        invariant whole == got + if got < n then Arrived(portions, n - got, space - got, |unread| - got) else 0
      {
        var m := OneRead(portions, space - got, |unread| - got);
        portions := if portions == [] then [] else portions[1..];
        got := got + m;
      }
    }

    /** io.ReadAtLeast into the buffer after its first `k` bytes: at least `n` bytes and at most the room left. */
    method ReadMore(k: nat, n: nat)
      requires k + n <= b.Length && n <= |unread|
      modifies this`unread, this`portions, this`bo, this`bv, b
      ensures bo == 0 && k + n <= bv <= b.Length && (old(portions) == [] ==> portions == [])
      ensures bv == k + Arrived(old(portions), n, b.Length - k, |old(unread)|)
      ensures b[..bv] + unread == old(b[..k]) + old(unread)
    {
      var got := Collect(n, b.Length - k);
      forall j | 0 <= j < got {
        b[k + j] := unread[j];
      }
      assert b[..k + got] == old(b[..k]) + unread[..got];
      unread := unread[got..];
      bv := k + got;
      bo := 0;
    }

    /**
     ensureAtLeast: succeeds exactly when the buffer holds `n` bytes or the reader has `n` more.
     It asks the reader for `n` bytes on top of what is buffered.
     */
    method EnsureAtLeast(n: nat) returns (e: Error)
      requires Reading() && 0 < n <= 12
      modifies this`unread, this`portions, this`err, this`bo, this`bv, this`input, b
      ensures Reading()
      ensures n <= 2 || e.Ok? ==> input == old(input)
      ensures old(err).Ok? ==> (e.Ok? <==> old(bv - bo) >= n || |old(unread)| >= n)
      ensures old(err).Ok? && e.Ok? ==> err.Ok? && bv - bo >= n && Pending() == old(Pending())
      ensures old(err).Ok? && e.Ok? && prompt ==> unread == []
      ensures old(err).Ok? && e.Ok? && n == 2 ==> |unread| == |old(unread)| - old(Fetched())
      ensures old(err).Ok? && !e.Ok? && readerErr == Eof && old(unread) == [] ==>
                e == UnexpectedEof && err.Ok? && bo == old(bo) && bv == old(bv) && unread == []
      ensures old(err).Ok? && !e.Ok? && readerErr == Eof && old(unread) == [] && n <= 2 ==> Pending() == old(Pending())
      ensures old(err).Ok? && !e.Ok? && !(readerErr == Eof && old(unread) == []) ==>
                err == e && bo == 0 && e == (if readerErr == Eof then UnexpectedEof else Fault)
      ensures !old(err).Ok? ==> e == err == old(err) && bo == old(bo)
    {
      hide Reading, Arrived;
      if err == Ok {
        Buffer();
        PromptReads();
      }
      if bv - bo >= n {
        NoStaleBytes();
        return Ok;
      }
      if err != Ok {
        return err;
      }
      if |unread| >= n {
        Refill(n);
        return Ok;
      }
      e := GiveUp(n);
    }

    lemma NoStaleBytes()
      requires Reading()
      ensures !err.Ok? ==> bv == 0
    {
    }

    /** The reader has enough: compacts the buffer and reads on. */
    method Refill(n: nat)
      requires Reading() && err.Ok? && 0 < n <= 12 && bv - bo < n <= |unread|
      modifies this`unread, this`portions, this`bo, this`bv, b
      ensures Reading() && bo == 0 && n <= bv - bo && Pending() == old(Pending()) && (prompt ==> unread == [])
      ensures |unread| == |old(unread)| - Arrived(old(portions), n, 4096 - old(bv - bo), |old(unread)|)
    {
      hide StreamAt, RegOk;
      var k := bv - bo;
      Compact();
      ReadMore(k, n);
      assert b[..bv] == b[bo..bv];
    }

    /** The reader has not enough: compacts the buffer in vain. */
    method GiveUp(n: nat) returns (e: Error)
      requires Reading() && err.Ok? && 0 < n <= 12 && bv - bo < n && |unread| < n
      modifies this`unread, this`err, this`bo, this`bv, this`input, b
      ensures Reading()
      ensures n <= 2 ==> input == old(input)
      ensures readerErr == Eof && old(unread) == [] ==>
                e == UnexpectedEof && err.Ok? && bo == old(bo) && bv == old(bv) && unread == []
      ensures readerErr == Eof && old(unread) == [] && n <= 2 ==>
                bo <= bv <= 4096 == b.Length && Pending() == old(Pending())
      ensures !(readerErr == Eof && old(unread) == []) ==>
                err == e && bo == 0 && e == (if readerErr == Eof then UnexpectedEof else Fault)
    {
      hide StreamAt, RegOk;
      Compact();
      if readerErr == Eof && unread == [] {
        input := StreamAt(c, nbits, Pending());
        return UnexpectedEof;
      }
      unread := [];
      e := if readerErr == Eof then UnexpectedEof else Fault;
      Fail(e);
    }

    /** Moves a word from the buffer to the register; after an error, a stale one. */
    method NextWord()
      requires Reading() && nbits < 16 && (if err.Ok? then bv - bo >= 2 else bo + 2 <= 4096)
      modifies this`bo, this`c, this`nbits
      ensures Reading() && bo == old(bo) + 2 && (err.Ok? ==> nbits == old(nbits) + 16)
    {
      hide StreamAt, RegOk, Spec.Word, BitOr, Shl;
      var word := Spec.Word(b[bo], b[bo + 1]);
      if err == Ok {
        ghost var pending := Pending();
        assert pending == b[bo..bv] + unread;
        assert b[bo..bv][0] == b[bo] && b[bo..bv][1] == b[bo + 1];
        assert pending[2..] == b[bo + 2..bv] + unread;
        FeedStream(c, nbits, pending);
      }
      c := Fed(c, nbits, word);
      nbits := (nbits + 16) % 256;
      bo := bo + 2;
    }

    /**
     feed: fetches a word when it can, and then the abstract stream is unchanged. Out of input it
     reports false, recording an error only when a single odd byte was swallowed.
     */
    method Feed() returns (fed: bool)
      requires Reading() && nbits < 16 && Room(1)
      modifies this`unread, this`portions, this`err, this`bo, this`bv, this`c, this`nbits, this`input, b
      ensures Reading() && input == old(input)
      ensures old(err).Ok? && old(CanFeed()) ==>
                fed && err.Ok? && nbits == old(nbits) + 16 && |unread| == |old(unread)| - old(Fetched())
      ensures old(err).Ok? && old(CanFeed()) && prompt ==> unread == []
      ensures old(err).Ok? && !old(CanFeed()) && readerErr == Eof && old(unread) == [] ==>
                !fed && err.Ok? && nbits == old(nbits) && c == old(c) && !CanFeed() && unread == []
      ensures old(err).Ok? && !old(CanFeed()) && !(readerErr == Eof && old(unread) == []) ==> !err.Ok? && bo <= 2
      ensures !old(err).Ok? ==> err == old(err) && bo <= old(bo) + 2
    {
      hide Reading;
      var e := EnsureAtLeast(2);
      if e == UnexpectedEof {
        return false;
      }
      NextWord();
      return true;
    }

    /** Takes `n` bits out of the register. */
    method Take(n: nat) returns (v: nat)
      requires Reading() && n <= 16 && (err.Ok? ==> n <= nbits)
      modifies this`c, this`nbits, this`input
      ensures Reading() && v < Pow2(n)
      ensures err.Ok? ==> Spec.GetBits(old(input), n) == Some((v, input)) && nbits == old(nbits) - n
      ensures !err.Ok? ==> nbits == (old(nbits) - n) % 256
    {
      hide StreamAt, RegOk, Shl, Shr, Pow2;
      RegisterPrefix(c, n);
      v := Shr(c, 32 - n);
      if err == Ok {
        TakeStream(c, nbits, n, Pending());
        input := Spec.GetBits(input, n).value.1;
      }
      c := Shl(c, n) % 0x1_0000_0000;
      nbits := (nbits - n) % 256;
    }

    /** Remembers whether the read at hand is going to miss what the stream holds. */
    ghost method Note(missed: bool)
      requires Reading() && (prompt || steady ==> !missed)
      modifies this`lost
      ensures Reading() && lost == (old(lost) || missed)
    {
      lost := lost || missed;
    }

    /** A prompt reader is empty as soon as anything has been read from it, a steady one never stops within a word. */
    lemma PromptReads()
      requires Reading() && err.Ok?
      ensures prompt ==> readerErr == Eof && (unread != [] ==> bo == bv && nbits == 0)
      ensures steady ==> readerErr == Eof && |unread| % 2 == 0
    {
    }

    lemma Buffer()
      requires Reading() && err.Ok?
      ensures bo <= bv <= 4096 == b.Length && nbits <= 31
    {
    }

    lemma NothingLost()
      requires Reading() && (prompt || steady)
      ensures !lost
    {
    }

    lemma NoEof()
      requires Reading()
      ensures err != Eof
    {
    }

    /** From here on bytes are taken singly. */
    ghost method Unsettle()
      requires Reading()
      modifies this`steady
      ensures Reading() && !steady
    {
      steady := false;
    }

    /**
     getBits: while there is no error it returns and removes exactly the first `n` bits of the
     stream. It fails exactly when the register is short and no word can be fetched.
     */
    method GetBits(n: nat) returns (v: nat)
      requires Reading() && n <= 16 && Room(1)
      modifies this`unread, this`portions, this`err, this`bo, this`bv, this`c, this`nbits, this`input, this`lost, b
      ensures Reading() && v < Pow2(n)
      ensures old(err).Ok? ==> (err.Ok? <==> n <= old(nbits) || old(CanFeed()))
      ensures old(err).Ok? && |old(input).bits| >= 32 + n ==> err.Ok?
      ensures lost == (old(lost) || (old(err).Ok? && !err.Ok? && Spec.GetBits(old(input), n).Some?))
      ensures lost && !old(lost) ==> old(bv - bo) == 1 && |old(unread)| == 1
      ensures old(err).Ok? && err.Ok? && prompt && n > 0 ==> unread == []
      ensures old(err).Ok? && err.Ok? ==> |unread| == |old(unread)| - if old(nbits) < n then old(Fetched()) else 0
      ensures old(err).Ok? && err.Ok? ==> Spec.GetBits(old(input), n) == Some((v, input))
      ensures old(err).Ok? && err.Ok? ==> nbits == old(nbits) - n + (if old(nbits) < n then 16 else 0)
      ensures old(err).Ok? && !err.Ok? ==> bo <= 2
      ensures !old(err).Ok? ==> err == old(err) && bo <= old(bo) + 2
    {
      hide Reading, Pow2, Spec.GetBits;
      if err == Ok {
        InputLength();
        PromptReads();
        BitsThere(input, n);
        if nbits < n {
          SplitWordIsLost(n);
          Note(Spec.GetBits(input, n).Some? && !CanFeed());
        }
      }
      if nbits < n {
        var fed := Feed();
        if !fed {
          Fail(UnexpectedEof);
        }
      }
      v := Take(n);
    }

    /**
     getCode: while there is no error it returns the symbol whose codeword starts the stream and
     removes exactly that codeword. It fails exactly on an empty tree, or when no word can be
     fetched for a register of fewer than 16 bits and what is left is either an odd byte or
     does not start with a codeword.
     */
    method GetCode(h: Table, ghost lens: seq<nat>) returns (v: nat)
      requires Reading() && Lengths(lens) && TableFor(h, lens) && Room(1)
      modifies this`unread, this`portions, this`err, this`bo, this`bv, this`c, this`nbits, this`input, this`lost, b
      ensures Reading() && (v < |lens| || v == 0)
      ensures old(err).Ok? ==>
                (err.Ok? <==>
                  && !AllZero(lens)
                  && (old(nbits) >= 16 || old(CanFeed())
                      || (readerErr == Eof && old(unread) == [] && Spec.GetCode(lens, old(input)).Some?)))
      ensures old(err).Ok? && !err.Ok? && Spec.GetCode(lens, old(input)).Some? ==> |old(input).bits| < 32
      ensures lost == (old(lost) || (old(err).Ok? && !err.Ok? && Spec.GetCode(lens, old(input)).Some?))
      ensures lost && !old(lost) ==> old(nbits) < 16 && !old(CanFeed()) && !(readerErr == Eof && old(unread) == [])
      ensures old(err).Ok? && err.Ok? && (old(nbits) >= 16 || old(CanFeed())) ==> nbits + lens[v] >= 16
      ensures old(err).Ok? && err.Ok? ==> Spec.GetCode(lens, old(input)) == Some((v, input))
      ensures old(err).Ok? && !err.Ok? ==> bo <= 2
      ensures !old(err).Ok? ==> err == old(err) && bo <= old(bo) + 2
    {
      hide StreamAt, RegOk, Shl, AllZero, DecodesAs, InTable, TableFor, Lookup, Spec.GetCode;
      TableMaxBits(h, lens);
      if err == Ok {
        InputLength();
        NoCodeInEmptyTree(lens, input);
        PromptReads();
        Note(nbits < 16 && !CanFeed() && !(readerErr == Eof && unread == []) && Spec.GetCode(lens, input).Some?);
      }
      if h.maxbits > 0 {
        if nbits < 16 {
          var _ := Feed();
        }
        TableDecodes(h, lens, c);
        var e := Lookup(h, c);
        var n := e / 512;
        if err == Ok {
          CodeStream(h, lens, c, nbits, Pending());
        }
        if nbits >= n {
          var _ := Take(n);
          return e % 512;
        }
        Fail(UnexpectedEof);
        return 0;
      }
      Fail(Corrupt);
      return 0;
    }
  }

  lemma BitsThere(s: Spec.Stream, n: nat)
    ensures Spec.GetBits(s, n).Some? <==> n <= |s.bits|
  {
  }

  lemma {:induction false} EmptyRegister(data: seq<byte>)
    ensures RegOk(0, 0) && StreamAt(0, 0, data) == Spec.StreamOf(data)
  {
    hide Spec.WordsBits, Spec.OddTail;
    ValZeros(32);
    RegIs(0, Zeros(32));
    assert RegTop(0, 0) + Spec.WordsBits(data) == Spec.WordsBits(data);
  }

  lemma NoCodeInEmptyTree(lens: seq<nat>, s: Spec.Stream)
    ensures AllZero(lens) ==> Spec.GetCode(lens, s) == None
  {
  }

  lemma TableMaxBits(h: Table, lens: seq<nat>)
    requires TableFor(h, lens)
    ensures h.maxbits == 0 <==> AllZero(lens)
  {
  }

  lemma TableDecodes(h: Table, lens: seq<nat>, c: u32)
    requires Lengths(lens) && TableFor(h, lens) && h.maxbits > 0
    ensures InTable(h, c) && DecodesAs(h, lens, c)
    ensures Lookup(h, c) % 512 < |lens| && Lookup(h, c) / 512 == lens[Lookup(h, c) % 512] <= 16
  {
    hide InTable, Lookup, InCode;
    assert DecodesAs(h, lens, c);
  }

  /** What a lookup says about the stream: its symbol's codeword starts it, if the register holds that many bits. */
  lemma {:induction false} CodeStream(h: Table, lens: seq<nat>, c: u32, nbits: nat, pending: seq<byte>)
    requires Lengths(lens) && DecodesAs(h, lens, c) && RegOk(c, nbits)
    ensures var s, v := StreamAt(c, nbits, pending), Lookup(h, c) % 512;
            && v < |lens| && 0 < lens[v] <= 16
            && (lens[v] <= nbits ==> Spec.GetCode(lens, s) == Some((v, s.(bits := s.bits[lens[v]..]))))
            && (lens[v] > nbits && |pending| < 2 ==> Spec.GetCode(lens, s) == None)
  {
    var s, v := StreamAt(c, nbits, pending), Lookup(h, c) % 512;
    if lens[v] <= nbits {
      StartsWithRegister(lens, v, c, nbits, pending);
      Spec.GetCodeIs(lens, v, s);
    } else if |pending| < 2 {
      forall w: nat | Spec.StartsWith(lens, w, s.bits)
        ensures false
      {
        StartsWithRegister(lens, w, c, nbits, pending);
        PrefixFree(lens, v, w, 32, c);
      }
    }
  }

  lemma {:induction false} StartsWithRegister(lens: seq<nat>, v: nat, c: u32, nbits: nat, pending: seq<byte>)
    requires v < |lens| && 0 < lens[v] <= nbits <= 32 && RegOk(c, nbits)
    ensures Spec.StartsWith(lens, v, StreamAt(c, nbits, pending).bits) <==> InCode(lens, v, 32, c)
  {
    hide Shr, Shl, Reg, Val, Code, RegOk;
    TakeReg(c, nbits, lens[v]);
    assert StreamAt(c, nbits, pending).bits[..lens[v]] == RegTop(c, nbits)[..lens[v]];
  }
}
