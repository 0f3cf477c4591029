/**
 * Instants and the `HH:MM` text of `Message.getFormattedDate`, which takes
 * the last two characters of `"0"` followed by the decimal hours (and the
 * same for the minutes).
 */
module Clock {

  type Hour = h: int | 0 <= h < 24
  type Minute = m: int | 0 <= m < 60

  /**
   * A `Date`: its time value in milliseconds, by which stored messages are
   * ordered, and the `getHours()` and `getMinutes()` readings of it in the
   * device's time zone.
   */
  datatype Instant = Instant(stamp: int, hours: Hour, minutes: Minute)

  predicate IsDigit(c: char) {
    '0' <= c <= '9'
  }

  predicate AllDigits(s: string) {
    forall i :: 0 <= i < |s| ==> IsDigit(s[i])
  }

  function DigitChar(d: nat): (c: char)
    requires d < 10
  {
    ('0' as int + d) as char
  }

  /** The number a string of decimal digits denotes. */
  function ValueOf(s: string): nat
    requires AllDigits(s)
  {
    if s == [] then 0 else 10 * ValueOf(s[..|s| - 1]) + (s[|s| - 1] as int - '0' as int)
  }

  /** `String(n)` for a non-negative integer: its decimal digits, without leading zeros. */
  function Decimal(n: nat): (s: string)
    ensures |s| >= 1
  {
    if n < 10 then [DigitChar(n)] else Decimal(n / 10) + [DigitChar(n % 10)]
  }

  /** The digits of `Decimal(n)` denote `n`, and only `0` starts with a zero. */
  lemma {:induction false} DecimalSpec(n: nat)
    ensures AllDigits(Decimal(n)) && ValueOf(Decimal(n)) == n
    ensures Decimal(n)[0] == '0' ==> n == 0
  {
    if n >= 10 {
      DecimalSpec(n / 10);
      var s := Decimal(n);
      assert s[..|s| - 1] == Decimal(n / 10);
    }
  }

  /** `("0" + n).slice(-2)`. */
  function LastTwo(n: nat): string {
    var t := "0" + Decimal(n);
    t[|t| - 2..]
  }

  /** `getFormattedDate()` for the given readings. */
  function FormatTime(hours: nat, minutes: nat): string {
    LastTwo(hours) + ":" + LastTwo(minutes)
  }

  lemma DecimalLast(n: nat)
    ensures Decimal(n)[|Decimal(n)| - 1] == DigitChar(n % 10)
  {
  }

  /** Two digit characters denote ten times the first plus the second. */
  lemma PairValue(a: nat, b: nat)
    requires a < 10 && b < 10
    ensures AllDigits([DigitChar(a), DigitChar(b)])
    ensures ValueOf([DigitChar(a), DigitChar(b)]) == 10 * a + b
  {
    var r := [DigitChar(a), DigitChar(b)];
    assert r[..1] == [DigitChar(a)];
    assert r[..1][..0] == [];
    assert ValueOf(r[..1]) == a;
    assert r[1] as int - '0' as int == b;
  }

  /** `("0" + n).slice(-2)` is two digits that denote `n` modulo 100. */
  lemma LastTwoDigits(n: nat)
    ensures |LastTwo(n)| == 2 && AllDigits(LastTwo(n))
    ensures ValueOf(LastTwo(n)) == n % 100
  {
    if n < 10 {
      assert LastTwo(n) == [DigitChar(0), DigitChar(n)];
      PairValue(0, n);
    } else {
      DecimalLast(n / 10);
      assert LastTwo(n) == [DigitChar((n / 10) % 10), DigitChar(n % 10)];
      PairValue((n / 10) % 10, n % 10);
      assert n % 100 == 10 * ((n / 10) % 10) + n % 10;
    }
  }

  /**
   * For any hour and minute, the text is `DD:DD` and its two fields read
   * back as the hour and the minute.
   */
  lemma FormatTimeSpec(hours: Hour, minutes: Minute)
    ensures var r := FormatTime(hours, minutes);
      && |r| == 5 && r[2] == ':'
      && AllDigits(r[..2]) && AllDigits(r[3..])
      && ValueOf(r[..2]) == hours && ValueOf(r[3..]) == minutes
  {
    LastTwoDigits(hours);
    LastTwoDigits(minutes);
    var r := FormatTime(hours, minutes);
    assert r[..2] == LastTwo(hours);
    assert r[3..] == LastTwo(minutes);
  }

  /** Different readings give different texts. */
  lemma FormatTimeInjective(h1: Hour, m1: Minute, h2: Hour, m2: Minute)
    requires FormatTime(h1, m1) == FormatTime(h2, m2)
    ensures h1 == h2 && m1 == m2
  {
    FormatTimeSpec(h1, m1);
    FormatTimeSpec(h2, m2);
  }
}
