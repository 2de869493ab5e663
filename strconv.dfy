/**
 * The parts of Go's `strconv` package that the formatting helpers rely on:
 * decimal printing (`FormatUint`, `Itoa`) and decimal parsing (`ParseUint`
 * and `Atoi` in base 10) for Go's 64-bit `int`.
 */
module GoStrconv {

  const MaxInt: int := 0x7fff_ffff_ffff_ffff
  const MinInt: int := -0x8000_0000_0000_0000
  const MaxUint64: int := 0xffff_ffff_ffff_ffff

  /** Go's `int` on a 64-bit target. */
  type Int = x: int | MinInt <= x <= MaxInt

  predicate IsDigit(c: char) {
    '0' <= c <= '9'
  }

  predicate AllDigits(s: string) {
    forall i :: 0 <= i < |s| ==> IsDigit(s[i])
  }

  /** The number a string of decimal digits denotes, most significant digit first. */
  function DigitsValue(s: string): nat
    requires AllDigits(s)
    decreases |s|
  {
    if s == [] then 0
    else DigitsValue(s[..|s| - 1]) * 10 + (s[|s| - 1] as int - '0' as int)
  }

  /** What Atoi accepts: an optional sign followed by one or more digits. */
  predicate WellFormed(s: string) {
    if |s| > 0 && (s[0] == '+' || s[0] == '-') then |s| > 1 && AllDigits(s[1..])
    else |s| > 0 && AllDigits(s)
  }

  /** The integer a well-formed decimal string denotes. */
  function SignedValue(s: string): int
    requires WellFormed(s)
  {
    if s[0] == '-' then -(DigitsValue(s[1..]) as int)
    else if s[0] == '+' then DigitsValue(s[1..])
    else DigitsValue(s)
  }

  /** The nearest value of Go's `int`. */
  function Clamp(x: int): Int {
    if x > MaxInt then MaxInt else if x < MinInt then MinInt else x
  }

  function Pow10(n: nat): nat {
    if n == 0 then 1 else 10 * Pow10(n - 1)
  }

  lemma {:induction false} DigitsValueBound(s: string)
    requires AllDigits(s)
    ensures DigitsValue(s) < Pow10(|s|)
    decreases |s|
  {
    if s != [] {
      DigitsValueBound(s[..|s| - 1]);
    }
  }

  /** A longer run of digits never denotes a smaller number. */
  lemma {:induction false} DigitsValuePrefix(s: string, i: nat, j: nat)
    requires i <= j <= |s| && AllDigits(s[..j])
    ensures AllDigits(s[..i]) && DigitsValue(s[..i]) <= DigitsValue(s[..j])
    decreases j - i
  {
    assert AllDigits(s[..i]) by {
      forall k | 0 <= k < i ensures IsDigit(s[..i][k]) {
        assert s[..i][k] == s[..j][k];
      }
    }
    if i < j {
      assert s[..j][..j - 1] == s[..j - 1];
      DigitsValuePrefix(s, i, j - 1);
    }
  }

  /**
   * `strconv.FormatUint(n, 10)`: the digits of `n` with no leading zero.
   */
  function FormatUint(n: nat): (r: string)
    ensures |r| > 0 && AllDigits(r) && DigitsValue(r) == n
    ensures |r| > 1 ==> r[0] != '0'
    decreases n
  {
    if n < 10 then [('0' as int + n) as char]
    else
      var r := FormatUint(n / 10) + [('0' as int + n % 10) as char];
      assert r[..|r| - 1] == FormatUint(n / 10);
      r
  }

  /**
   * `strconv.Itoa(v)`: a minus sign for negative values, then the digits
   * of the magnitude. It never writes a plus sign or a leading zero.
   */
  function Itoa(v: Int): (r: string)
    ensures WellFormed(r) && SignedValue(r) == v
    ensures r[0] != '+' && (r[0] == '-' <==> v < 0)
    ensures v >= 0 ==> AllDigits(r)
    ensures var m := if v < 0 then r[1..] else r; |m| > 1 ==> m[0] != '0'
  {
    if v < 0 then
      var r := "-" + FormatUint(-(v as int));
      assert r[1..] == FormatUint(-(v as int));
      r
    else FormatUint(v)
  }

  /** Go's `*NumError` cases: no error, `ErrSyntax` or `ErrRange`. */
  datatype NumError = NoError | ErrSyntax | ErrRange

  /** The two results of a `strconv` parse. */
  datatype Parsed = Parsed(value: int, err: NumError)

  /** Length of the run of digits at the front of `s`. */
  function DigitRun(s: string): (k: nat)
    ensures k <= |s| && AllDigits(s[..k])
    ensures k < |s| ==> !IsDigit(s[k])
    decreases |s|
  {
    if s == [] || !IsDigit(s[0]) then 0
    else
      var k := 1 + DigitRun(s[1..]);
      assert forall i :: 1 <= i < k ==> s[..k][i] == s[1..][..k - 1][i - 1];
      k
  }

  /**
   * What `strconv.ParseUint(s, 10, 64)` returns, stated by the whole input:
   * the empty text is a syntax error; when the leading digits already
   * exceed 2^64 - 1 the result is a range error carrying 2^64 - 1, whatever
   * follows them; otherwise any character that is not a digit is a syntax
   * error carrying 0.
   */
  function ParseUintSpec(s: string): Parsed {
    var k := DigitRun(s);
    if s == [] then Parsed(0, ErrSyntax)
    else if DigitsValue(s[..k]) > MaxUint64 then Parsed(MaxUint64, ErrRange)
    else if k < |s| then Parsed(0, ErrSyntax)
    else Parsed(DigitsValue(s[..k]), NoError)
  }

  /**
   * The digit loop of `strconv.ParseUint` from position `i` on, where `n` is
   * the value of the digits before `i`: it stops at the first character that
   * is not a digit, or as soon as the value would pass 2^64 - 1.
   */
  function ScanUint(s: string, i: nat, n: nat): (p: Parsed)
    requires s != [] && i <= DigitRun(s)
    requires AllDigits(s[..i]) && n == DigitsValue(s[..i]) && n <= MaxUint64
    ensures p == ParseUintSpec(s)
    decreases |s| - i
  {
    if i == |s| then
      assert s[..i] == s;
      Parsed(n, NoError)
    else if !IsDigit(s[i]) then
      Parsed(0, ErrSyntax)
    else
      var n' := n * 10 + (s[i] as int - '0' as int);
      assert s[..i + 1][..i] == s[..i];
      assert AllDigits(s[..i + 1]);
      DigitsValuePrefix(s, i + 1, DigitRun(s));
      if n' > MaxUint64 then Parsed(MaxUint64, ErrRange)
      else ScanUint(s, i + 1, n')
  }

  /** `strconv.ParseUint(s, 10, 64)`. */
  function ParseUint(s: string): (p: Parsed)
    ensures p == ParseUintSpec(s)
  {
    if s == [] then Parsed(0, ErrSyntax) else ScanUint(s, 0, 0)
  }

  /**
   * `strconv.Atoi(s)` for a 64-bit `int`, which is `strconv.ParseInt(s, 10, 0)`
   * (its fast path for short texts gives the same results): an optional sign,
   * then ParseUint on the rest; a syntax error gives 0, a magnitude outside
   * `int` gives the nearest bound with ErrRange.
   */
  function Atoi(s: string): (p: Parsed)
    ensures MinInt <= p.value <= MaxInt
    ensures p.err == NoError <==> WellFormed(s) && MinInt <= SignedValue(s) <= MaxInt
    ensures WellFormed(s) ==> p.value == Clamp(SignedValue(s))
    ensures p.err == ErrSyntax ==> p.value == 0
    ensures !WellFormed(s) ==> p.err != NoError && (p.value == 0 || p.value == MaxInt || p.value == MinInt)
    ensures !WellFormed(s) && |s| < 20 ==> p == Parsed(0, ErrSyntax)
    ensures p.err == ErrRange ==> s != [] && p.value == (if s[0] == '-' then MinInt else MaxInt)
    ensures !WellFormed(s) ==> (p.err == ErrRange <==> Overflows(Magnitude(s)))
  {
    if s == [] then Parsed(0, ErrSyntax)
    else
      var neg := s[0] == '-';
      var digits := Magnitude(s);
      var u := ParseUint(digits);
      ParseUintFacts(digits);
      if u.err == ErrSyntax then Parsed(0, ErrSyntax)
      else if !neg && u.value >= 0x8000_0000_0000_0000 then Parsed(MaxInt, ErrRange)
      else if neg && u.value > 0x8000_0000_0000_0000 then Parsed(MinInt, ErrRange)
      else Parsed(if neg then -u.value else u.value, NoError)
  }

  /** The text after an optional leading sign. */
  function Magnitude(s: string): string {
    if s != [] && (s[0] == '+' || s[0] == '-') then s[1..] else s
  }

  /** The leading digits of `t` already exceed 2^64 - 1. */
  predicate Overflows(t: string) {
    DigitsValue(t[..DigitRun(t)]) > MaxUint64
  }

  /** ParseUint on a digit string gives its value or, past 2^64 - 1, a range error. */
  lemma ParseUintFacts(t: string)
    ensures t != [] && AllDigits(t) ==>
      ParseUint(t) == if DigitsValue(t) > MaxUint64 then Parsed(MaxUint64, ErrRange)
                      else Parsed(DigitsValue(t), NoError)
    ensures !(t != [] && AllDigits(t)) ==> ParseUint(t).err != NoError
    ensures ParseUint(t).err == ErrRange ==> ParseUint(t).value == MaxUint64
    ensures ParseUint(t).err == ErrSyntax ==> ParseUint(t).value == 0
    ensures |t| < 20 ==> ParseUint(t).err != ErrRange
  {
    var k := DigitRun(t);
    assert t[..|t|] == t;
    if |t| < 20 {
      ShortDigitsFit(t[..k]);
    }
  }

  /** At most 19 digits always fit in 64 unsigned bits. */
  lemma ShortDigitsFit(t: string)
    requires AllDigits(t) && |t| < 20
    ensures DigitsValue(t) <= MaxUint64
  {
    DigitsValueBound(t);
    Pow10Mono(|t|, 19);
    assert Pow10(6) == 1_000_000;
    assert Pow10(12) == 1_000_000_000_000;
    assert Pow10(18) == 1_000_000_000_000_000_000;
  }

  lemma {:induction false} Pow10Mono(i: nat, j: nat)
    requires i <= j
    ensures Pow10(i) <= Pow10(j)
    decreases j - i
  {
    if i < j {
      Pow10Mono(i, j - 1);
    }
  }
}
