/** Python's string operations that the core relies on: ordering of `str`
    values, `str.lower`, the `in` substring test, decimal rendering of
    integers and round-half-even division. */
module Text {

  /** Python's `a < b` on `str`: lexicographic by code point, a proper
      prefix before its extensions. */
  predicate StrLess(a: string, b: string)
    decreases |a|
  {
    if |a| == 0 then |b| > 0
    else if |b| == 0 then false
    else if a[0] != b[0] then a[0] < b[0]
    else StrLess(a[1..], b[1..])
  }

  lemma {:induction false} StrLessIrreflexive(a: string)
    ensures !StrLess(a, a)
    decreases |a|
  {
    if |a| > 0 {
      StrLessIrreflexive(a[1..]);
    }
  }

  lemma {:induction false} StrLessTransitive(a: string, b: string, c: string)
    requires StrLess(a, b) && StrLess(b, c)
    ensures StrLess(a, c)
    decreases |a|
  {
    if |a| > 0 && a[0] == b[0] && b[0] == c[0] {
      StrLessTransitive(a[1..], b[1..], c[1..]);
    }
  }

  /** Any two strings are equal or ordered one way: `<` on `str` is total. */
  lemma {:induction false} StrLessTrichotomy(a: string, b: string)
    ensures a == b || StrLess(a, b) || StrLess(b, a)
    decreases |a|
  {
    if |a| > 0 && |b| > 0 && a[0] == b[0] {
      StrLessTrichotomy(a[1..], b[1..]);
      if a[1..] == b[1..] {
        assert a == [a[0]] + a[1..] && b == [b[0]] + b[1..];
      }
    }
  }

  function LowerChar(c: char): char {
    if 'A' <= c <= 'Z' then (c as int + 32) as char else c
  }

  /** `str.lower`, restricted to the ASCII letters. */
  function Lower(s: string): (r: string)
    ensures |r| == |s|
    ensures forall i :: 0 <= i < |s| ==> r[i] == LowerChar(s[i])
  {
    seq(|s|, i requires 0 <= i < |s| => LowerChar(s[i]))
  }

  predicate OccursAt(s: string, t: string, i: int) {
    0 <= i <= |s| - |t| && s[i..i + |t|] == t
  }

  /** Python's `t in s` on strings. */
  predicate Contains(s: string, t: string) {
    exists i | 0 <= i <= |s| - |t| :: OccursAt(s, t, i)
  }

  function DigitChar(d: nat): char
    requires d < 10
  {
    "0123456789"[d]
  }

  function DigitValue(c: char): int {
    c as int - '0' as int
  }

  /** The digit character of `d` is a digit and reads back as `d`. */
  lemma {:induction false} DigitCharValue(d: nat)
    requires d < 10
    ensures '0' <= DigitChar(d) <= '9' && DigitValue(DigitChar(d)) == d
  {
    assert "0123456789"[d] as int == '0' as int + d;
  }

  predicate IsDigits(s: string) {
    forall i :: 0 <= i < |s| ==> '0' <= s[i] <= '9'
  }

  /** `str(n)` for a non-negative integer: its decimal digits, no leading zero. */
  function NatToString(n: nat): (s: string)
    decreases n
  {
    if n < 10 then [DigitChar(n)] else NatToString(n / 10) + [DigitChar(n % 10)]
  }

  /** `str(n)` for any integer. */
  function IntToString(n: int): string {
    if n < 0 then "-" + NatToString(-n) else NatToString(n)
  }

  /** `int(s)` for a string of decimal digits. */
  function ParseNat(s: string): int
    decreases |s|
  {
    if s == [] then 0 else ParseNat(s[..|s| - 1]) * 10 + DigitValue(s[|s| - 1])
  }

  /** Rendering then parsing gives the number back, and the rendering has
      no leading zero. */
  lemma {:induction false} NatToStringRoundTrip(n: nat)
    ensures IsDigits(NatToString(n)) && |NatToString(n)| > 0
    ensures ParseNat(NatToString(n)) == n
    ensures |NatToString(n)| > 1 ==> NatToString(n)[0] != '0'
    decreases n
  {
    var s := NatToString(n);
    if n >= 10 {
      NatToStringRoundTrip(n / 10);
      assert s[..|s| - 1] == NatToString(n / 10);
      assert DigitValue(s[|s| - 1]) == n % 10;
    }
  }

  /** The nearest integer to `m / d`, ties to the even one: how Python's
      `round` and `format(x, ".1f")` settle the exact value of a quotient. */
  function RoundHalfEven(m: int, d: int): (q: int)
    requires d > 0
    ensures 2 * (m - q * d) <= d && -d <= 2 * (m - q * d)
    ensures 2 * (m - q * d) == d ==> q % 2 == 0
    ensures -d == 2 * (m - q * d) ==> q % 2 == 0
    ensures m >= 0 ==> q >= 0
  {
    var q := m / d;
    var r := m % d;
    if 2 * r > d then q + 1
    else if 2 * r < d then q
    else if q % 2 == 0 then q else q + 1
  }

  /** `q` is `m / d` rounded to the nearest integer, ties to the even one. */
  predicate IsRoundedQuotient(q: int, m: int, d: int)
    requires d > 0
  {
    2 * (m - q * d) <= d && -d <= 2 * (m - q * d) &&
    (2 * (m - q * d) == d || -d == 2 * (m - q * d) ==> q % 2 == 0)
  }

  /** Rounding half to even has exactly one answer, the one `RoundHalfEven`
      computes. */
  lemma {:induction false} RoundedQuotientUnique(q: int, m: int, d: int)
    requires d > 0 && IsRoundedQuotient(q, m, d)
    ensures q == RoundHalfEven(m, d)
  {
    var r := RoundHalfEven(m, d);
    if q != r {
      var hi, lo := if q > r then q else r, if q > r then r else q;
      assert IsRoundedQuotient(hi, m, d) && IsRoundedQuotient(lo, m, d);
      // The two errors differ by (hi - lo) * d but are at most d apart, so
      // hi = lo + 1 and both are ties, which only one of them can win.
      var eHi, eLo := m - hi * d, m - lo * d;
      MulDistributes(hi, lo, d);
      AdjacentTies(eHi, eLo, hi - lo, d);
      assert false;
    }
  }

  /** Two rounding errors that lie within half a divisor of zero and differ
    * by a positive multiple of the divisor are the two ends of a tie. */
  lemma {:induction false} AdjacentTies(eHi: int, eLo: int, k: int, d: int)
    requires d > 0 && k > 0 && eLo - eHi == k * d
    requires -d <= 2 * eHi && 2 * eLo <= d
    ensures k == 1 && 2 * eLo == d && 2 * eHi == -d
  {
    MulSteps(k, d);
  }

  lemma {:induction false} MulDistributes(a: int, b: int, d: int)
    ensures a * d - b * d == (a - b) * d
  {
  }

  /** A positive multiple of `d` is at least `d`, and one of at least two
      `d`s is more than `d`. */
  lemma {:induction false} MulSteps(k: int, d: int)
    requires k > 0 && d > 0
    ensures k * d >= d
    ensures k >= 2 ==> k * d >= 2 * d
  {
    assert k * d == (k - 1) * d + d;
    if k >= 2 {
      assert k * d == (k - 2) * d + 2 * d;
    }
  }
}
