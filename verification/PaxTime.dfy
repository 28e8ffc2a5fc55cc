/** Times in pax records (backuptar/strconv.go): signed decimal seconds with an optional fraction. */
module PaxTime {
  import opened Bits
  import opened Wrappers

  const BILLION := 1000000000

  /** A time.Time: whole seconds since the epoch, rounded down, and nanoseconds above them. */
  datatype Time = Time(secs: int64, nsecs: nat)

  // ---------------------------------------------------------------- decimal numbers

  predicate IsDigit(c: char) {
    '0' <= c <= '9'
  }

  function Digit(d: nat): char
    requires d < 10
  {
    '0' + d as char
  }

  function DigitValue(c: char): nat
    requires IsDigit(c)
  {
    c as nat - '0' as nat
  }

  predicate AllDigits(s: string) {
    forall i :: 0 <= i < |s| ==> IsDigit(s[i])
  }

  function Value(s: string): nat
    requires AllDigits(s)
  {
    if s == [] then 0 else 10 * Value(s[..|s| - 1]) + DigitValue(s[|s| - 1])
  }

  /** Decimal digits without leading zeros. */
  function FormatNat(n: nat): (s: string)
    ensures |s| > 0 && AllDigits(s)
  {
    if n < 10 then [Digit(n)] else FormatNat(n / 10) + [Digit(n % 10)]
  }

  /** strconv.FormatInt in base ten. */
  function FormatInt(n: int): string {
    if n < 0 then "-" + FormatNat(-n) else FormatNat(n)
  }

  /** %0kd for numbers of at most k digits. */
  function FormatPadded(n: nat, k: nat): (s: string)
    ensures |s| == k && AllDigits(s)
  {
    if k == 0 then [] else FormatPadded(n / 10, k - 1) + [Digit(n % 10)]
  }

  /** strconv.ParseInt in base ten, 64 bits: an optional sign, at least one digit, in range. */
  function ParseInt(s: string): (r: Option<int64>) {
    if s == [] then None
    else
      var signed := s[0] == '-' || s[0] == '+';
      var digits := if signed then s[1..] else s;
      if digits == [] || !AllDigits(digits) then None
      else
        var v := Value(digits);
        if s[0] == '-' then (if v <= TWO_63 then Some(-(v as int)) else None)
        else if v < TWO_63 then Some(v) else None
  }

  lemma {:induction false} ValueFormatNat(n: nat)
    ensures Value(FormatNat(n)) == n
  {
    if n >= 10 {
      ValueFormatNat(n / 10);
      assert FormatNat(n)[..|FormatNat(n)| - 1] == FormatNat(n / 10);
    } else {
      assert FormatNat(n)[..0] == [];
    }
  }

  function Pow10(k: nat): nat {
    if k == 0 then 1 else 10 * Pow10(k - 1)
  }

  lemma {:induction false} ValueFormatPadded(n: nat, k: nat)
    requires n < Pow10(k)
    ensures Value(FormatPadded(n, k)) == n
  {
    if k > 0 {
      ValueFormatPadded(n / 10, k - 1);
      assert FormatPadded(n, k)[..k - 1] == FormatPadded(n / 10, k - 1);
    }
  }

  lemma ParseFormatInt(n: int64)
    ensures ParseInt(FormatInt(n)) == Some(n)
    ensures '.' !in FormatInt(n)
    ensures FormatInt(n) != [] && (FormatInt(n)[0] == '-' <==> n < 0)
  {
    if n < 0 {
      ValueFormatNat(-(n as int));
      assert FormatInt(n)[1..] == FormatNat(-(n as int));
    } else {
      ValueFormatNat(n);
    }
  }

  // ---------------------------------------------------------------- strings

  /** strings.IndexByte for '.': the text before and after the first point. */
  function SplitPoint(s: string): (string, string)
  {
    if s == [] then ([], [])
    else if s[0] == '.' then ([], s[1..])
    else
      var (a, b) := SplitPoint(s[1..]);
      ([s[0]] + a, b)
  }

  lemma {:induction false} SplitPointAt(a: string, b: string)
    requires '.' !in a
    ensures SplitPoint(a + "." + b) == (a, b)
    ensures SplitPoint(a) == (a, [])
  {
    if a == [] {
      assert a + "." + b == "." + b;
    } else {
      SplitPointAt(a[1..], b);
      assert (a + "." + b)[1..] == a[1..] + "." + b;
      assert a == [a[0]] + a[1..];
    }
  }

  /** strings.TrimRight(s, "0") */
  function TrimZeros(s: string): (r: string)
    ensures |r| <= |s| && r == s[..|r|]
    ensures forall i :: |r| <= i < |s| ==> s[i] == '0'
    ensures r == [] || r[|r| - 1] != '0'
  {
    if s != [] && s[|s| - 1] == '0' then TrimZeros(s[..|s| - 1]) else s
  }

  // ---------------------------------------------------------------- the source's functions

  /** time.Unix for nanoseconds strictly within one second either way. */
  function Unix(secs: int, nsecs: int): Time
    requires -BILLION < nsecs < BILLION
  {
    if nsecs < 0 then Time(Int64(secs - 1), nsecs + BILLION) else Time(Int64(secs), nsecs)
  }

  function RightPad(s: string): (r: string)
    ensures |r| == 9
  {
    if |s| < 9 then s + seq(9 - |s|, _ => '0') else s[..9]
  }

  /** parsePAXTime */
  function ParsePaxTime(s: string): Option<Time> {
    var (ss, sn) := SplitPoint(s);
    match ParseInt(ss)
    case None => None
    case Some(secs) =>
      if sn == [] then Some(Unix(secs, 0))
      else if !AllDigits(sn) then None
      else
        var nsecs := Value(RightPad(sn));
        PadBound(sn);
        Some(if ss[0] == '-' then Unix(secs, -(nsecs as int)) else Unix(secs, nsecs))
  }

  lemma {:induction false} ValueBound(s: string)
    requires AllDigits(s)
    ensures Value(s) < Pow10(|s|)
  {
    if s != [] {
      ValueBound(s[..|s| - 1]);
    }
  }

  lemma PadBound(s: string)
    requires AllDigits(s)
    ensures AllDigits(RightPad(s)) && Value(RightPad(s)) < BILLION
  {
    ValueBound(RightPad(s));
    assert Pow10(9) == BILLION;
  }

  /** formatPAXTime */
  function FormatPaxTime(t: Time): string
    requires t.nsecs < BILLION
  {
    if t.nsecs == 0 then FormatInt(t.secs)
    else
      var (sign, secs, nsecs) :=
        if t.secs < 0 then ("-", -(t.secs + 1), BILLION - t.nsecs) else ("", t.secs as int, t.nsecs as int);
      TrimZeros(sign + FormatInt(secs) + "." + FormatPadded(nsecs, 9))
  }

  // ---------------------------------------------------------------- round trip

  /** Trimming a fraction that is not zero stops inside it, and padding undoes it. */
  lemma {:induction false} TrimFraction(head: string, n: nat)
    requires 0 < n < BILLION
    ensures var f := FormatPadded(n, 9);
            exists k :: 0 < k <= 9 && TrimZeros(head + f) == head + f[..k] && RightPad(f[..k]) == f
  {
    var f := FormatPadded(n, 9);
    var s := head + f;
    var r := TrimZeros(s);
    assert Pow10(9) == BILLION;
    ValueFormatPadded(n, 9);
    if |r| <= |head| {
      assert forall i :: 0 <= i < 9 ==> f[i] == s[|head| + i] == '0';
      ValueZeros(f);
      assert false;
    }
    var k := |r| - |head|;
    assert r == s[..|head| + k] == head + f[..k];
    assert forall i :: k <= i < 9 ==> f[i] == s[|head| + i] == '0';
    assert RightPad(f[..k]) == f;
  }

  lemma {:induction false} ValueZeros(s: string)
    requires forall i :: 0 <= i < |s| ==> s[i] == '0'
    ensures AllDigits(s) && Value(s) == 0
  {
    if s != [] {
      ValueZeros(s[..|s| - 1]);
    }
  }

  /** Every time survives formatting and parsing: negative ones, -0.x and trimmed zeros included. */
  lemma {:induction false} RoundTrip(t: Time)
    requires t.nsecs < BILLION
    ensures ParsePaxTime(FormatPaxTime(t)) == Some(t)
  {
    hide SplitPoint, ParseInt, FormatInt, TrimZeros, FormatPadded, Value, RightPad;
    if t.nsecs == 0 {
      ParseFormatInt(t.secs);
      SplitPointAt(FormatInt(t.secs), "");
    } else if t.secs < 0 {
      var secs, nsecs := -(t.secs as int + 1), BILLION - t.nsecs;
      NegativeSeconds(secs);
      FractionRoundTrip("-" + FormatInt(secs), nsecs);
    } else {
      ParseFormatInt(t.secs);
      assert "" + FormatInt(t.secs) == FormatInt(t.secs);
      FractionRoundTrip(FormatInt(t.secs), t.nsecs);
    }
  }

  lemma NegativeSeconds(secs: int64)
    requires secs >= 0
    ensures '.' !in "-" + FormatInt(secs)
    ensures ParseInt("-" + FormatInt(secs)) == Some(-(secs as int))
  {
    ValueFormatNat(secs);
    assert ("-" + FormatInt(secs))[1..] == FormatNat(secs);
  }

  /** What parsing sees of seconds `ss` and a fraction of `n` nanoseconds. */
  lemma {:induction false} FractionRoundTrip(ss: string, n: nat)
    requires ss != [] && '.' !in ss && 0 < n < BILLION
    ensures var s := TrimZeros(ss + "." + FormatPadded(n, 9));
            var (a, b) := SplitPoint(s);
            a == ss && b != [] && AllDigits(b) && Value(RightPad(b)) == n
  {
    var f := FormatPadded(n, 9);
    TrimFraction(ss + ".", n);
    var k :| 0 < k <= 9 && TrimZeros(ss + "." + f) == ss + "." + f[..k] && RightPad(f[..k]) == f;
    SplitPointAt(ss, f[..k]);
    assert Pow10(9) == BILLION;
    ValueFormatPadded(n, 9);
  }

  // ---------------------------------------------------------------- what the text denotes

  /**
   The text of a time is its decimal value: a sign if it is before the epoch, whole seconds, and a
   fraction without trailing zeros if there is one.
   */
  lemma {:induction false} TextDenotes(t: Time) returns (whole: string, fraction: string)
    requires t.nsecs < BILLION
    ensures AllDigits(whole) && whole != [] && AllDigits(fraction)
    ensures fraction == [] || fraction[|fraction| - 1] != '0'
    ensures var total := t.secs as int * BILLION + t.nsecs;
            var sign := if total < 0 then "-" else "";
            && FormatPaxTime(t) == sign + whole + (if fraction == [] then "" else "." + fraction)
            && PadDigits(fraction)
            && Value(whole) * BILLION + Value(RightPad(fraction)) == if total < 0 then -total else total
    ensures fraction == [] <==> t.nsecs == 0
  {
    hide TrimZeros, FormatPadded, Value, RightPad, FormatNat, FormatPaxTime, AllDigits;
    if t.nsecs == 0 {
      whole := WholeText(t);
      fraction := [];
      NoFraction();
    } else {
      whole, fraction := FractionText(t);
    }
  }

  lemma {:induction false} WholeText(t: Time) returns (whole: string)
    requires t.nsecs == 0
    ensures AllDigits(whole) && whole != [] && Value(whole) == if t.secs < 0 then -(t.secs as int) else t.secs
    ensures FormatPaxTime(t) == (if t.secs < 0 then "-" else "") + whole + ""
  {
    hide FormatNat, Value, AllDigits;
    var n: nat := if t.secs < 0 then -(t.secs as int) else t.secs;
    whole := FormatNat(n);
    FormatNatDigits(n);
    assert "" + whole + "" == whole;
    assert "-" + whole + "" == "-" + whole;
  }

  lemma FormatNatDigits(n: nat)
    ensures FormatNat(n) != [] && AllDigits(FormatNat(n)) && Value(FormatNat(n)) == n
  {
    ValueFormatNat(n);
  }

  lemma {:induction false} FractionText(t: Time) returns (whole: string, fraction: string)
    requires 0 < t.nsecs < BILLION
    ensures AllDigits(whole) && whole != [] && AllDigits(fraction) && fraction != [] && fraction[|fraction| - 1] != '0'
    ensures PadDigits(fraction)
    ensures FormatPaxTime(t) == (if t.secs < 0 then "-" else "") + whole + ("." + fraction)
    ensures var v := Value(whole) * BILLION + Value(RightPad(fraction));
            v == if t.secs < 0 then -(t.secs as int * BILLION + t.nsecs) else t.secs as int * BILLION + t.nsecs
  {
    hide TrimZeros, FormatPadded, Value, RightPad, FormatNat, AllDigits, FormatInt;
    var secs: nat := if t.secs < 0 then -(t.secs as int + 1) else t.secs;
    var n: nat := if t.secs < 0 then BILLION - t.nsecs else t.nsecs;
    var sign := if t.secs < 0 then "-" else "";
    whole := FormatNat(secs);
    FormatNatDigits(secs);
    FormatIntIs(secs);
    var head := sign + whole + ".";
    fraction := TrimmedFraction(head, n);
    assert head + fraction == sign + whole + ("." + fraction);
    assert sign + FormatInt(secs) + "." + FormatPadded(n, 9) == head + FormatPadded(n, 9);
  }

  lemma FormatIntIs(n: nat)
    ensures FormatInt(n) == FormatNat(n)
  {
  }

  lemma {:induction false} TrimmedFraction(head: string, n: nat) returns (fraction: string)
    requires 0 < n < BILLION
    ensures AllDigits(fraction) && fraction != [] && fraction[|fraction| - 1] != '0'
    ensures PadDigits(fraction) && Value(RightPad(fraction)) == n
    ensures TrimZeros(head + FormatPadded(n, 9)) == head + fraction
  {
    hide TrimZeros, Value, FormatPadded, RightPad;
    var f := FormatPadded(n, 9);
    PaddedDigits(n);
    TrimFraction(head, n);
    var k :| 0 < k <= 9 && TrimZeros(head + f) == head + f[..k] && RightPad(f[..k]) == f;
    fraction := f[..k];
    TrimmedEnd(head + f);
    assert (head + fraction)[|head + fraction| - 1] == fraction[k - 1];
  }

  lemma PaddedDigits(n: nat)
    requires n < BILLION
    ensures |FormatPadded(n, 9)| == 9 && AllDigits(FormatPadded(n, 9)) && Value(FormatPadded(n, 9)) == n
  {
    assert Pow10(9) == BILLION;
    ValueFormatPadded(n, 9);
  }

  ghost predicate PadDigits(s: string) {
    AllDigits(RightPad(s))
  }

  lemma NoFraction()
    ensures AllDigits([]) && PadDigits([]) && Value(RightPad([])) == 0
  {
    ValueZeros(RightPad([]));
  }

  lemma TrimmedEnd(s: string)
    ensures var r := TrimZeros(s); r == [] || r[|r| - 1] != '0'
  {
  }

  /** A text of that form is read as the value it denotes. */
  lemma {:induction false} TextIsRead(negative: bool, whole: string, fraction: string)
    requires AllDigits(whole) && whole != [] && AllDigits(fraction) && fraction != [] && Value(whole) < TWO_63
    ensures PadDigits(fraction)
    ensures var r := ParsePaxTime((if negative then "-" else "") + whole + "." + fraction);
            var v := Value(whole) * BILLION + Value(RightPad(fraction));
            && r.Some? && 0 <= r.value.nsecs < BILLION
            && r.value.secs as int * BILLION + r.value.nsecs == if negative then -v else v
  {
    hide SplitPoint, Value, RightPad, AllDigits;
    PadBound(fraction);
    var ss := (if negative then "-" else "") + whole;
    NoPoint(whole);
    assert '.' !in ss;
    SplitPointAt(ss, fraction);
    DigitFirst(whole);
    if negative {
      assert ss[1..] == whole;
    } else {
      assert ss == whole;
    }
  }

  lemma NoPoint(s: string)
    requires AllDigits(s)
    ensures '.' !in s
  {
  }

  lemma DigitFirst(s: string)
    requires AllDigits(s) && s != []
    ensures s[0] != '-' && s[0] != '+'
  {
  }

  /** Half a second before the epoch, and a second and a half before and after it. */
  lemma {:induction false} HalfSeconds()
    ensures FormatPaxTime(Time(-1, 500000000)) == "-0.5"
    ensures FormatPaxTime(Time(-2, 500000000)) == "-1.5"
    ensures FormatPaxTime(Time(1, 500000000)) == "1.5"
  {
    hide TrimZeros, FormatPadded, FormatNat;
    HalfIs();
    SmallDigits();
    TrimMany("-0.5", 8);
    TrimMany("-1.5", 8);
    TrimMany("1.5", 8);
    var zeros := seq(8, _ => '0');
    assert "-" + "0" + "." + ("5" + zeros) == "-0.5" + zeros;
    assert "-" + "1" + "." + ("5" + zeros) == "-1.5" + zeros;
    assert "" + "1" + "." + ("5" + zeros) == "1.5" + zeros;
  }

  lemma SmallDigits()
    ensures FormatNat(0) == "0" && FormatNat(1) == "1"
  {
  }

  lemma HalfIs()
    ensures FormatPadded(500000000, 9) == "5" + seq(8, _ => '0')
  {
    assert FormatPadded(5, 1) == "5";
    assert FormatPadded(50000, 5) == "50000";
  }

  lemma {:induction false} TrimMany(s: string, n: nat)
    requires s != [] && s[|s| - 1] != '0'
    ensures TrimZeros(s + seq(n, _ => '0')) == s
  {
    if n == 0 {
      assert s + seq(0, _ => '0') == s;
    } else {
      var r := s + seq(n, _ => '0');
      assert r[..|r| - 1] == s + seq(n - 1, _ => '0');
      TrimMany(s, n - 1);
    }
  }
}
