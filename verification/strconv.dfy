/** strconv.Atoi on a 64-bit platform. Go's Atoi is ParseInt(s, 10, 0): an
    optional sign, then ParseUint's digit loop with a 64-bit accumulator.
    Its result carries a value even when it also carries an error: 0 for a
    syntax error, the clamped bound for an out-of-range number. */
module Strconv {
  import opened Base

  const MaxUint64: int := 0xffff_ffff_ffff_ffff
  const MaxInt64: int := 0x7fff_ffff_ffff_ffff
  const MinInt64: int := -0x8000_0000_0000_0000

  datatype NumError = SyntaxError | RangeError

  /** The `(value, err)` pair strconv returns. */
  datatype Parsed = Parsed(value: int, err: Option<NumError>)

  predicate IsDigit(c: char)
  {
    '0' <= c <= '9'
  }

  function DigitValue(c: char): nat
    requires IsDigit(c)
  {
    (c as int) - ('0' as int)
  }

  ghost predicate AllDigits(s: string)
  {
    forall k :: 0 <= k < |s| ==> IsDigit(s[k])
  }

  function Pow10(k: nat): (p: nat)
    ensures p >= 1
  {
    if k == 0 then 1 else 10 * Pow10(k - 1)
  }

  /** Positional value of a digit string, read from its last digit:
      the textbook meaning that the scanner below is checked against. */
  ghost function Decimal(s: string): nat
    requires AllDigits(s)
    decreases |s|
  {
    if |s| == 0 then 0 else Decimal(s[..|s| - 1]) * 10 + DigitValue(s[|s| - 1])
  }

  /** ParseUint's loop for base 10, 64 bits, from accumulator `n`: a
      non-digit is a syntax error with value 0; overflow is a range error
      with value MaxUint64, reported as soon as it happens, so characters
      after the overflow are never looked at. */
  function ScanUint(s: string, n: nat): (r: Parsed)
    requires n <= MaxUint64
    ensures 0 <= r.value <= MaxUint64
    ensures r.err == Some(SyntaxError) ==> r.value == 0
    ensures r.err == Some(RangeError) ==> r.value == MaxUint64
    decreases |s|
  {
    if |s| == 0 then Parsed(n, None)
    else if !IsDigit(s[0]) then Parsed(0, Some(SyntaxError))
    else if n >= MaxUint64 / 10 + 1 then Parsed(MaxUint64, Some(RangeError))
    else
      var n1 := n * 10 + DigitValue(s[0]);
      if n1 > MaxUint64 then Parsed(MaxUint64, Some(RangeError))
      else ScanUint(s[1..], n1)
  }

  /** strconv.Atoi (equivalently ParseInt(s, 10, 64)). */
  function Atoi(s: string): (r: Parsed)
    ensures MinInt64 <= r.value <= MaxInt64
    ensures r.err == Some(SyntaxError) ==> r.value == 0
    ensures r.err == Some(RangeError) ==> r.value == MaxInt64 || r.value == MinInt64
  {
    if |s| == 0 then Parsed(0, Some(SyntaxError))
    else
      var neg := s[0] == '-';
      var digits := if s[0] == '+' || s[0] == '-' then s[1..] else s;
      var u := if |digits| == 0 then Parsed(0, Some(SyntaxError)) else ScanUint(digits, 0);
      if u.err == Some(SyntaxError) then Parsed(0, Some(SyntaxError))
      else if !neg && u.value >= MaxInt64 + 1 then Parsed(MaxInt64, Some(RangeError))
      else if neg && u.value > MaxInt64 + 1 then Parsed(MinInt64, Some(RangeError))
      else Parsed(if neg then -u.value else u.value, None)
  }

  /** Decimal, read from the first digit instead of the last. */
  lemma {:induction false} DecimalFront(s: string)
    requires |s| > 0 && AllDigits(s)
    ensures Decimal(s) == DigitValue(s[0]) * Pow10(|s| - 1) + Decimal(s[1..])
    decreases |s|
  {
    if |s| == 1 {
      assert s[..0] == s[1..];
    } else {
      var init := s[..|s| - 1];
      var t := s[1..];
      var last := DigitValue(s[|s| - 1]);
      var p := Pow10(|s| - 2);
      DecimalFront(init);
      assert init[0] == s[0];
      assert init[1..] == t[..|t| - 1];
      assert t[|t| - 1] == s[|s| - 1];
      assert Decimal(t) == Decimal(init[1..]) * 10 + last;
      assert Decimal(s) == Decimal(init) * 10 + last;
      Spread(DigitValue(s[0]), p, Decimal(init[1..]), last);
      assert Pow10(|s| - 1) == 10 * p;
    }
  }

  lemma Spread(d: int, p: int, x: int, y: int)
    ensures (d * p + x) * 10 + y == d * (10 * p) + (x * 10 + y)
  {
    calc {
      (d * p + x) * 10 + y;
      { assert (d * p + x) * 10 == (d * p) * 10 + x * 10; }
      (d * p) * 10 + x * 10 + y;
      { assert (d * p) * 10 == d * (10 * p); }
      d * (10 * p) + (x * 10 + y);
    }
  }

  /** What the scan from accumulator `n` would reach without a bound. */
  ghost function Reach(s: string, n: nat): nat
    requires AllDigits(s)
  {
    n * Pow10(|s|) + Decimal(s)
  }

  lemma MulAtLeast(a: nat, p: nat)
    requires p >= 1
    ensures a * p >= a
  {
  }

  lemma AllDigitsCons(s: string)
    requires |s| > 0
    ensures AllDigits(s) <==> IsDigit(s[0]) && AllDigits(s[1..])
  {
    assert forall k :: 0 < k < |s| ==> s[k] == s[1..][k - 1];
  }

  /** One step of the scan moves the first digit into the accumulator
      without changing what is reached. */
  lemma ReachStep(s: string, n: nat)
    requires |s| > 0 && AllDigits(s)
    ensures AllDigits(s[1..])
    ensures Reach(s, n) == Reach(s[1..], n * 10 + DigitValue(s[0]))
    ensures Reach(s, n) >= n * 10 + DigitValue(s[0])
  {
    AllDigitsCons(s);
    var d0 := DigitValue(s[0]);
    var p := Pow10(|s| - 1);
    var rest := Decimal(s[1..]);
    assert Pow10(|s|) == 10 * p;
    DecimalFront(s);
    calc {
      Reach(s, n);
      n * (10 * p) + (d0 * p + rest);
      { Shift(n, d0, p, rest); }
      (n * 10 + d0) * p + rest;
      Reach(s[1..], n * 10 + d0);
    }
    MulAtLeast(n * 10 + d0, p);
  }

  lemma Shift(n: int, d: int, p: int, rest: int)
    ensures n * (10 * p) + (d * p + rest) == (n * 10 + d) * p + rest
  {
    calc {
      (n * 10 + d) * p;
      { assert (n * 10 + d) * p == (n * 10) * p + d * p; }
      (n * 10) * p + d * p;
      { assert (n * 10) * p == n * (10 * p); }
      n * (10 * p) + d * p;
    }
  }

  /** The scanner succeeds exactly on digit strings whose value fits in 64
      bits, and then returns that value. */
  lemma {:induction false} ScanUintDecimal(s: string, n: nat)
    requires n <= MaxUint64
    ensures ScanUint(s, n).err == None <==> AllDigits(s) && Reach(s, n) <= MaxUint64
    ensures ScanUint(s, n).err == None ==> ScanUint(s, n).value == Reach(s, n)
    decreases |s|
  {
    if |s| > 0 {
      AllDigitsCons(s);
      if IsDigit(s[0]) {
        var n1 := n * 10 + DigitValue(s[0]);
        if AllDigits(s) {
          ReachStep(s, n);
        }
        if n < MaxUint64 / 10 + 1 && n1 <= MaxUint64 {
          ScanUintDecimal(s[1..], n1);
        }
      }
    }
  }

  /** Atoi accepts an optional sign followed by digits whose value is an int64. */
  lemma AtoiAcceptsDecimal(sign: string, d: string)
    requires sign == "" || sign == "+" || sign == "-"
    requires |d| > 0 && AllDigits(d)
    requires sign == "-" ==> Decimal(d) <= MaxInt64 + 1
    requires sign != "-" ==> Decimal(d) <= MaxInt64
    ensures Atoi(sign + d) == Parsed(if sign == "-" then 0 - Decimal(d) else Decimal(d), None)
  {
    ScanUintDecimal(d, 0);
    assert Reach(d, 0) == Decimal(d);
    var s := sign + d;
    if sign == "" {
      assert s == d;
      assert d[0] != '+' && d[0] != '-';
    } else {
      assert s[0] == sign[0];
      assert s[1..] == d;
    }
  }

  /** Whatever Atoi accepts is an optional sign followed by digits, and the
      value is the signed decimal value of those digits. */
  lemma AtoiAcceptsOnlyDecimal(s: string)
    requires Atoi(s).err == None
    ensures |s| > 0
    ensures var d := if s[0] == '+' || s[0] == '-' then s[1..] else s;
      && |d| > 0 && AllDigits(d)
      && Atoi(s).value == (if s[0] == '-' then 0 - Decimal(d) else Decimal(d))
  {
    var d := if s[0] == '+' || s[0] == '-' then s[1..] else s;
    assert |d| > 0;
    var u := ScanUint(d, 0);
    match u.err {
      case None =>
      case Some(e) =>
        if e == SyntaxError {
          assert false;
        } else {
          assert false;
        }
    }
    ScanUintDecimal(d, 0);
    assert Reach(d, 0) == Decimal(d);
  }
}
