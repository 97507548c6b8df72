/**
 * Shared vocabulary for the logger model: an Option type, prefix tests on
 * strings and the decimal rendering of unsigned integers that
 * `std::to_string` and `operator<<` produce.
 */
module Base {

  datatype Option<+T> = None | Some(value: T)

  /** `starts_with(s, p)` from the string algorithms the logger uses. */
  predicate StartsWith(s: string, p: string) {
    |p| <= |s| && s[..|p|] == p
  }

  function Max(a: nat, b: nat): nat {
    if a < b then b else a
  }

  predicate IsDigit(c: char) {
    '0' <= c <= '9'
  }

  function Digit(d: nat): (c: char)
    requires d < 10
    ensures IsDigit(c)
  {
    ('0' as int + d) as char
  }

  /** The number a decimal digit stands for. */
  function DigitValue(c: char): nat
    requires IsDigit(c)
  {
    c as int - '0' as int
  }

  /** The number a string of decimal digits denotes, most significant digit first. */
  function Value(s: string): nat
    requires forall i :: 0 <= i < |s| ==> IsDigit(s[i])
  {
    if s == [] then 0 else Value(s[..|s| - 1]) * 10 + DigitValue(s[|s| - 1])
  }

  /** Decimal rendering of a natural number, most significant digit first. */
  function Decimal(n: nat): (r: string)
    ensures 1 <= |r|
    ensures forall i :: 0 <= i < |r| ==> IsDigit(r[i])
    ensures n < 10 <==> |r| == 1
    decreases n
  {
    if n < 10 then [Digit(n)] else Decimal(n / 10) + [Digit(n % 10)]
  }

  /** Reading the rendering back gives the number: `Value` inverts `Decimal`. */
  lemma {:induction false} DecimalValue(n: nat)
    ensures Value(Decimal(n)) == n
    decreases n
  {
    var d := Decimal(n);
    if n >= 10 {
      assert d[..|d| - 1] == Decimal(n / 10);
      DecimalValue(n / 10);
    }
  }

  /** Leading zeros appear only in the rendering of zero itself. */
  lemma NoLeadingZero(n: nat)
    ensures Decimal(n)[0] == '0' <==> n == 0
  {
    DecimalValue(n);
    if n >= 10 {
      LeadingDigit(n);
    }
  }

  /** The most significant digit of a number of two or more digits is not zero. */
  lemma {:induction false} LeadingDigit(n: nat)
    requires n >= 10
    ensures Decimal(n)[0] != '0'
    decreases n
  {
    if n / 10 >= 10 {
      LeadingDigit(n / 10);
    }
  }

  lemma DigitInjective(a: nat, b: nat)
    requires a < 10 && b < 10
    requires Digit(a) == Digit(b)
    ensures a == b
  {
  }

  /** Distinct numbers have distinct decimal renderings. */
  lemma {:induction false} DecimalInjective(a: nat, b: nat)
    requires Decimal(a) == Decimal(b)
    ensures a == b
    decreases a
  {
    var da, db := Decimal(a), Decimal(b);
    if a < 10 {
      assert |db| == 1;
      DigitInjective(a, b);
    } else {
      assert 10 <= b;
      var n := |da|;
      assert da[n - 1] == Digit(a % 10);
      assert db[n - 1] == Digit(b % 10);
      DigitInjective(a % 10, b % 10);
      assert da[..n - 1] == Decimal(a / 10);
      assert db[..n - 1] == Decimal(b / 10);
      DecimalInjective(a / 10, b / 10);
    }
  }

  /** `r` is a suffix of `s`. */
  predicate IsSuffix(r: string, s: string) {
    |r| <= |s| && s[|s| - |r|..] == r
  }

  lemma SliceSuffix(s: string, i: nat)
    requires i <= |s|
    ensures IsSuffix(s[i..], s)
  {
  }

  lemma SuffixTransitive(a: string, b: string, c: string)
    requires IsSuffix(a, b) && IsSuffix(b, c)
    ensures IsSuffix(a, c)
  {
    assert c[|c| - |a|..] == c[|c| - |b|..][|b| - |a|..];
  }

  /**
   * Concatenation is associative. Stated over variables so that proofs can
   * regroup text built from literals without comparing the literals
   * character by character.
   */
  lemma Regroup(x: string, y: string, z: string)
    ensures x + (y + z) == x + y + z
  {
  }

  /** `Regroup` for a bracketed group of three. */
  lemma RegroupThree(x: string, y: string, z: string, w: string)
    ensures x + (y + z + w) == x + y + z + w
  {
  }
}
