/**
 * Pieces of the Go runtime that several exercises share: optional values,
 * the panic outcome, the int64 range, and the decimal conversions of
 * `strconv.Atoi` and `strconv.Itoa`.
 */
module GoBase {

  datatype Option<T> = None | Some(value: T)

  /** The result of a Go function that either returns a value or panics. */
  datatype Outcome<T> = Ok(value: T) | Panic

  /** Go's `byte`. */
  type byte = bv8

  const MinInt64: int := -0x8000_0000_0000_0000
  const MaxInt64: int := 0x7FFF_FFFF_FFFF_FFFF

  predicate IsInt64(n: int) {
    MinInt64 <= n <= MaxInt64
  }

  /**
   * The int64 Go's wrapping arithmetic leaves for the exact value x: x
   * brought into the int64 range modulo 2^64. A sum of two int64 values
   * past either end comes back from the other end.
   */
  function Wrap64(x: int): (r: int)
    ensures IsInt64(r)
    ensures IsInt64(x) ==> r == x
    ensures MaxInt64 < x <= 2 * MaxInt64 ==> r == x - 0x1_0000_0000_0000_0000
    ensures 2 * MinInt64 <= x < MinInt64 ==> r == x + 0x1_0000_0000_0000_0000
  {
    (x - MinInt64) % 0x1_0000_0000_0000_0000 + MinInt64
  }

  predicate IsDigit(c: char) {
    '0' <= c <= '9'
  }

  function DigitValue(c: char): (d: nat)
    requires IsDigit(c)
    ensures d < 10
  {
    c as int - '0' as int
  }

  function DigitChar(d: nat): (c: char)
    requires d < 10
    ensures IsDigit(c) && DigitValue(c) == d
  {
    ('0' as int + d) as char
  }

  predicate AllDigits(s: string) {
    forall i :: 0 <= i < |s| ==> IsDigit(s[i])
  }

  /** The value of a string of decimal digits, most significant first. */
  function DigitsValue(s: string): nat
    requires AllDigits(s)
  {
    if |s| == 0 then 0 else DigitsValue(s[..|s| - 1]) * 10 + DigitValue(s[|s| - 1])
  }

  predicate HasSign(s: string) {
    |s| > 0 && (s[0] == '+' || s[0] == '-')
  }

  /** The syntax `strconv.Atoi` accepts in base 10: an optional sign, then one or more digits. */
  predicate IsDecimal(s: string) {
    if HasSign(s) then |s| > 1 && AllDigits(s[1..]) else |s| > 0 && AllDigits(s)
  }

  function DecimalValue(s: string): int
    requires IsDecimal(s)
  {
    if HasSign(s) then (if s[0] == '-' then 0 - DigitsValue(s[1..]) else DigitsValue(s[1..]))
    else DigitsValue(s)
  }

  /**
   * `strconv.Atoi`: Some(value) exactly when the text is a signed decimal
   * whose value fits in an int64; None stands for the returned error (a
   * syntax error or a range error).
   */
  function Atoi(s: string): (r: Option<int>)
    ensures r.Some? ==> IsInt64(r.value) && IsDecimal(s)
    ensures !IsDecimal(s) ==> r.None?
  {
    if IsDecimal(s) && IsInt64(DecimalValue(s)) then Some(DecimalValue(s)) else None
  }

  const MaxUint64: int := 0xFFFF_FFFF_FFFF_FFFF

  /** The text after at most one leading sign. */
  function Unsigned(s: string): (t: string)
    ensures |t| <= |s|
  {
    if HasSign(s) then s[1..] else s
  }

  /**
   * The digit loop of `strconv.ParseUint` in base 10 over the front of t,
   * starting from the value n: each digit d makes it n*10 + d, and the first
   * byte that is not a digit ends the loop.
   */
  function LeadingValue(t: string, n: nat): nat {
    if t == [] || !IsDigit(t[0]) then n else LeadingValue(t[1..], n * 10 + DigitValue(t[0]))
  }

  /**
   * The digits after the sign exceed 2^64 - 1 before the first byte that is
   * not a digit. `strconv.ParseUint` reports a range error at the digit that
   * passes 2^64 - 1 and never looks further, and the value only grows.
   */
  predicate RunOverflows(s: string) {
    LeadingValue(Unsigned(s), 0) > MaxUint64
  }

  predicate Negative(s: string) {
    HasSign(s) && s[0] == '-'
  }

  /**
   * The int that `num, _ := strconv.Atoi(s)` leaves in `num` when the error
   * is ignored: 0 after a syntax error, the nearest int64 bound after a range
   * error. Digits overflowing before a syntax error count as a range error.
   */
  function AtoiIgnoringError(s: string): (n: int)
    ensures IsInt64(n)
  {
    if RunOverflows(s) then (if Negative(s) then MinInt64 else MaxInt64)
    else if !IsDecimal(s) then 0
    else if DecimalValue(s) > MaxInt64 then MaxInt64
    else if DecimalValue(s) < MinInt64 then MinInt64
    else DecimalValue(s)
  }

  /**
   * The cases of `AtoiIgnoringError`: Atoi's value on success, 0 on a syntax
   * error, the int64 bound on the side of the sign on a range error.
   */
  lemma AtoiIgnoringErrorCases(s: string)
    ensures Atoi(s).Some? ==> AtoiIgnoringError(s) == Atoi(s).value
    ensures !IsDecimal(s) && !RunOverflows(s) ==> AtoiIgnoringError(s) == 0
    ensures IsDecimal(s) && DecimalValue(s) > MaxInt64 ==> AtoiIgnoringError(s) == MaxInt64
    ensures IsDecimal(s) && DecimalValue(s) < MinInt64 ==> AtoiIgnoringError(s) == MinInt64
    ensures RunOverflows(s) && Negative(s) ==> AtoiIgnoringError(s) == MinInt64
    ensures RunOverflows(s) && !Negative(s) ==> AtoiIgnoringError(s) == MaxInt64
  {
    if IsDecimal(s) {
      var t := Unsigned(s);
      LeadingValueDigits(t, 0);
      assert t[0..] == t && t[..0] == [];
    }
  }

  /** On a string of digits the loop computes their value: the part before k is already in n. */
  lemma {:induction false} LeadingValueDigits(t: string, k: nat)
    requires AllDigits(t) && k <= |t|
    ensures LeadingValue(t[k..], DigitsValue(t[..k])) == DigitsValue(t)
    decreases |t| - k
  {
    if k == |t| {
      assert t[..k] == t;
    } else {
      assert t[..k + 1][..k] == t[..k];
      assert t[k..][1..] == t[k + 1..];
      LeadingValueDigits(t, k + 1);
    }
  }

  /** Two texts that agree up to a byte that is no digit in either give the loop the same value. */
  lemma {:induction false} LeadingValueCut(x: string, y: string, m: nat, n: nat)
    requires m < |x| && m < |y| && x[..m] == y[..m]
    requires !IsDigit(x[m]) && !IsDigit(y[m])
    ensures LeadingValue(x, n) == LeadingValue(y, n)
  {
    if m > 0 {
      assert x[0] == x[..m][0] == y[..m][0] == y[0];
      if IsDigit(x[0]) {
        assert x[1..][..m - 1] == x[..m][1..] == y[..m][1..] == y[1..][..m - 1];
        LeadingValueCut(x[1..], y[1..], m - 1, n * 10 + DigitValue(x[0]));
      }
    }
  }

  /** The decimal digits of a natural number, without leading zeros. */
  function NatToDigits(n: nat): (s: string)
    ensures |s| > 0 && AllDigits(s)
  {
    if n < 10 then [DigitChar(n)] else NatToDigits(n / 10) + [DigitChar(n % 10)]
  }

  /** A byte string read one rune per byte: the runes of an ASCII string, and all `strconv.Atoi` needs. */
  function Chars(s: seq<byte>): (t: string)
    ensures |t| == |s|
  {
    if s == [] then [] else [(s[0] as int) as char] + Chars(s[1..])
  }

  lemma {:induction false} CharsAt(s: seq<byte>, k: nat)
    requires k < |s|
    ensures Chars(s)[k] == (s[k] as int) as char
  {
    if k > 0 {
      CharsAt(s[1..], k - 1);
    }
  }

  /** `strconv.Itoa`. */
  function Itoa(n: int): string {
    if n < 0 then "-" + NatToDigits(-n) else NatToDigits(n)
  }

  lemma {:induction false} NatToDigitsValue(n: nat)
    ensures DigitsValue(NatToDigits(n)) == n
  {
    var s := NatToDigits(n);
    if n >= 10 {
      assert s[..|s| - 1] == NatToDigits(n / 10);
      NatToDigitsValue(n / 10);
    }
  }

  /** Parsing what Itoa prints gives the number back. */
  lemma AtoiItoa(n: int)
    requires IsInt64(n)
    ensures Atoi(Itoa(n)) == Some(n)
  {
    var s := Itoa(n);
    if n < 0 {
      NatToDigitsValue(-n);
      assert s[1..] == NatToDigits(-n);
    } else {
      NatToDigitsValue(n);
    }
  }

  /** Itoa is injective, so decimal keys built with it never merge two numbers. */
  lemma ItoaInjective(a: int, b: int)
    requires IsInt64(a) && IsInt64(b) && Itoa(a) == Itoa(b)
    ensures a == b
  {
    AtoiItoa(a);
    AtoiItoa(b);
  }
}
