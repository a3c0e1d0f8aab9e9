/**
 * Text values as the expense store compares, buckets and splits them:
 * SQLite's default (BINARY) ordering of TEXT values, ISO calendar dates with
 * their `'%Y-%m'` month bucket, and the separator split a CSV reader applies.
 */
module Text {

  /** `a <= b` for two TEXT values under SQLite's BINARY collation: memcmp of
      the UTF-8 encodings, which orders strings like their code points. */
  predicate TextLe(a: string, b: string)
    decreases |a|
  {
    if a == [] then true
    else if b == [] then false
    else if a[0] != b[0] then a[0] < b[0]
    else TextLe(a[1..], b[1..])
  }

  predicate TextLt(a: string, b: string) {
    TextLe(a, b) && a != b
  }

  lemma {:induction false} TextLeTotal(a: string, b: string)
    ensures TextLe(a, b) || TextLe(b, a)
  {
    if a != [] && b != [] && a[0] == b[0] {
      TextLeTotal(a[1..], b[1..]);
    }
  }

  lemma {:induction false} TextLeAntisymmetric(a: string, b: string)
    requires TextLe(a, b) && TextLe(b, a)
    ensures a == b
  {
    if a != [] && b != [] {
      TextLeAntisymmetric(a[1..], b[1..]);
      assert a == [a[0]] + a[1..] && b == [b[0]] + b[1..];
    }
  }

  lemma {:induction false} TextLeTransitive(a: string, b: string, c: string)
    requires TextLe(a, b) && TextLe(b, c)
    ensures TextLe(a, c)
  {
    if a != [] && b != [] && c != [] && a[0] == b[0] && b[0] == c[0] {
      TextLeTransitive(a[1..], b[1..], c[1..]);
    }
  }

  /** Strict order: anything strictly below `b` is strictly below whatever `b` is below. */
  lemma TextLtTransitive(a: string, b: string, c: string)
    requires TextLt(a, b) && TextLe(b, c)
    ensures TextLt(a, c)
  {
    TextLeTransitive(a, b, c);
    if a == c {
      TextLeAntisymmetric(a, b);
    }
  }

  predicate IsDigit(c: char) {
    '0' <= c <= '9'
  }

  function DigitValue(c: char): (n: nat)
    requires IsDigit(c)
    ensures n <= 9
  {
    c as int - '0' as int
  }

  /** The shape `YYYY-MM-DD`: ten characters, digits except for the two dashes. */
  predicate DateShaped(d: string) {
    && |d| == 10
    && d[4] == '-' && d[7] == '-'
    && IsDigit(d[0]) && IsDigit(d[1]) && IsDigit(d[2]) && IsDigit(d[3])
    && IsDigit(d[5]) && IsDigit(d[6]) && IsDigit(d[8]) && IsDigit(d[9])
  }

  function Year(d: string): nat
    requires DateShaped(d)
  {
    1000 * DigitValue(d[0]) + 100 * DigitValue(d[1]) + 10 * DigitValue(d[2]) + DigitValue(d[3])
  }

  function Month(d: string): nat
    requires DateShaped(d)
  {
    10 * DigitValue(d[5]) + DigitValue(d[6])
  }

  function Day(d: string): nat
    requires DateShaped(d)
  {
    10 * DigitValue(d[8]) + DigitValue(d[9])
  }

  predicate IsLeapYear(y: nat) {
    y % 4 == 0 && (y % 100 != 0 || y % 400 == 0)
  }

  function DaysInMonth(y: nat, m: nat): nat
    requires 1 <= m <= 12
  {
    if m == 2 then (if IsLeapYear(y) then 29 else 28)
    else if m == 4 || m == 6 || m == 9 || m == 11 then 30
    else 31
  }

  /** A calendar date written `YYYY-MM-DD`: the one form of date for which the
      model states what SQLite's `strftime('%Y-%m', date)` yields. */
  predicate IsoDate(d: string) {
    && DateShaped(d)
    && 1 <= Month(d) <= 12
    && 1 <= Day(d) <= DaysInMonth(Year(d), Month(d))
  }

  /** `strftime('%Y-%m', d)` for a calendar date: the `YYYY-MM` text naming
      the date's year and month (read back as the first day of that month). */
  function MonthOf(d: string): (m: string)
    requires IsoDate(d)
    ensures |m| == 7
    ensures DateShaped(m + "-01") && Year(m + "-01") == Year(d) && Month(m + "-01") == Month(d)
  {
    assert (d[..7] + "-01")[..7] == d[..7];
    d[..7]
  }

  /** Positional notation is unambiguous: `base * hi + lo` with `lo < base`
      determines both digits. */
  lemma PlaceValueUnique(base: nat, a: nat, b: nat, c: nat, d: nat)
    requires b < base && d < base
    requires base * a + b == base * c + d
    ensures a == c && b == d
  {
    if a < c {
      MultiplyMonotone(base, a + 1, c);
      assert false;
    } else if c < a {
      MultiplyMonotone(base, c + 1, a);
      assert false;
    }
  }

  lemma MultiplyMonotone(k: nat, x: nat, y: nat)
    requires x <= y
    ensures k * x <= k * y
  {
  }

  lemma DigitValueInjective(c: char, d: char)
    requires IsDigit(c) && IsDigit(d) && DigitValue(c) == DigitValue(d)
    ensures c == d
  {
  }

  /** Two calendar dates share a month bucket exactly when they have the same
      year and the same month: bucketing by prefix is bucketing by calendar month. */
  lemma SameMonthBucket(a: string, b: string)
    requires IsoDate(a) && IsoDate(b)
    ensures MonthOf(a) == MonthOf(b) <==> Year(a) == Year(b) && Month(a) == Month(b)
  {
    if Year(a) == Year(b) && Month(a) == Month(b) {
      var a0, a1, a2, a3 := DigitValue(a[0]), DigitValue(a[1]), DigitValue(a[2]), DigitValue(a[3]);
      var b0, b1, b2, b3 := DigitValue(b[0]), DigitValue(b[1]), DigitValue(b[2]), DigitValue(b[3]);
      assert Year(a) == 100 * (10 * a0 + a1) + (10 * a2 + a3);
      assert Year(b) == 100 * (10 * b0 + b1) + (10 * b2 + b3);
      PlaceValueUnique(100, 10 * a0 + a1, 10 * a2 + a3, 10 * b0 + b1, 10 * b2 + b3);
      PlaceValueUnique(10, a0, a1, b0, b1);
      PlaceValueUnique(10, a2, a3, b2, b3);
      PlaceValueUnique(10, DigitValue(a[5]), DigitValue(a[6]), DigitValue(b[5]), DigitValue(b[6]));
      DigitValueInjective(a[0], b[0]);
      DigitValueInjective(a[1], b[1]);
      DigitValueInjective(a[2], b[2]);
      DigitValueInjective(a[3], b[3]);
      DigitValueInjective(a[5], b[5]);
      DigitValueInjective(a[6], b[6]);
      assert forall i | 0 <= i < 7 :: a[i] == b[i];
    }
    if MonthOf(a) == MonthOf(b) {
      assert forall i | 0 <= i < 7 :: a[i] == MonthOf(a)[i] == MonthOf(b)[i] == b[i];
    }
  }

  /** `s.split(sep)`: the pieces between separators, always at least one. */
  function Split(s: string, sep: char): (r: seq<string>)
    ensures |r| >= 1
  {
    if s == [] then [""]
    else
      var rest := Split(s[1..], sep);
      if s[0] == sep then [""] + rest
      else [[s[0]] + rest[0]] + rest[1..]
  }

  /** Text without the separator is one piece. */
  lemma {:induction false} SplitNoSeparator(a: string, sep: char)
    requires sep !in a
    ensures Split(a, sep) == [a]
  {
    if a != [] {
      SplitNoSeparator(a[1..], sep);
      assert a == [a[0]] + a[1..];
    }
  }

  /** A separator after separator-free text ends exactly the first piece. */
  lemma {:induction false} SplitAtSeparator(a: string, sep: char, b: string)
    requires sep !in a
    ensures Split(a + [sep] + b, sep) == [a] + Split(b, sep)
  {
    if a == [] {
      assert a + [sep] + b == [sep] + b;
      assert ([sep] + b)[1..] == b;
    } else {
      SplitAtSeparator(a[1..], sep, b);
      assert (a + [sep] + b)[1..] == a[1..] + [sep] + b;
      assert [a[0]] + a[1..] == a;
    }
  }
}
