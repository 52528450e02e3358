/**
 The timestamp of a generated output name: a local date and time formatted
 with `strftime("%Y%m%d_%H%M%S")`. The time itself is a parameter; reading
 the clock is not modelled.
 */
module Clock {

  /** A broken-down local time, as `datetime.now()` would give it. */
  datatype DateTime = DateTime(year: int, month: int, day: int, hour: int, minute: int, second: int)
  {
    /** Field ranges of a `datetime`, with a four-digit year. */
    predicate Valid() {
      1000 <= year <= 9999 && 1 <= month <= 12 && 1 <= day <= 31 &&
      0 <= hour < 24 && 0 <= minute < 60 && 0 <= second < 60
    }
  }

  predicate IsDigit(c: char) {
    '0' <= c <= '9'
  }

  /** The decimal digit character for `d`. */
  function Digit(d: int): (c: char)
    requires 0 <= d < 10
    ensures IsDigit(c)
  {
    ('0' as int + d) as char
  }

  /** The value of a decimal digit character. */
  function DigitValue(c: char): (d: int)
    requires IsDigit(c)
    ensures 0 <= d < 10
  {
    c as int - '0' as int
  }

  /** `n` as two decimal digits with a leading zero (`%m`, `%d`, `%H`, `%M`, `%S`). */
  function Pad2(n: int): (s: string)
    requires 0 <= n < 100
    ensures |s| == 2 && IsDigit(s[0]) && IsDigit(s[1])
    ensures DigitValue(s[0]) * 10 + DigitValue(s[1]) == n
  {
    [Digit(n / 10), Digit(n % 10)]
  }

  /** `n` as four decimal digits (`%Y` for a four-digit year). */
  function Pad4(n: int): (s: string)
    requires 0 <= n < 10000
    ensures |s| == 4 && forall i :: 0 <= i < 4 ==> IsDigit(s[i])
    ensures DigitValue(s[0]) * 1000 + DigitValue(s[1]) * 100 + DigitValue(s[2]) * 10 + DigitValue(s[3]) == n
  {
    Pad2(n / 100) + Pad2(n % 100)
  }

  /** `t.strftime("%Y%m%d_%H%M%S")`: fifteen characters, digits except for the underscore at index 8. */
  function Strftime(t: DateTime): (s: string)
    requires t.Valid()
    ensures |s| == 15 && s[8] == '_'
    ensures forall i :: 0 <= i < 15 && i != 8 ==> IsDigit(s[i])
    ensures DigitValue(s[0]) * 1000 + DigitValue(s[1]) * 100 + DigitValue(s[2]) * 10 + DigitValue(s[3]) == t.year
    ensures DigitValue(s[4]) * 10 + DigitValue(s[5]) == t.month
    ensures DigitValue(s[6]) * 10 + DigitValue(s[7]) == t.day
    ensures DigitValue(s[9]) * 10 + DigitValue(s[10]) == t.hour
    ensures DigitValue(s[11]) * 10 + DigitValue(s[12]) == t.minute
    ensures DigitValue(s[13]) * 10 + DigitValue(s[14]) == t.second
  {
    Pad4(t.year) + Pad2(t.month) + Pad2(t.day) + "_" + Pad2(t.hour) + Pad2(t.minute) + Pad2(t.second)
  }

  /** Two-digit fields can be read back from a formatted timestamp. */
  lemma Pad2Injective(a: int, b: int)
    requires 0 <= a < 100 && 0 <= b < 100
    requires Pad2(a) == Pad2(b)
    ensures a == b
  {
    assert Pad2(a)[0] == Pad2(b)[0] && Pad2(a)[1] == Pad2(b)[1];
  }

  /**
   The timestamp has second resolution: distinct local times give distinct
   timestamps. The same local time occurring twice gives the same stamp.
   */
  lemma StrftimeInjective(t1: DateTime, t2: DateTime)
    requires t1.Valid() && t2.Valid()
    requires Strftime(t1) == Strftime(t2)
    ensures t1 == t2
  {
    var s1, s2 := Strftime(t1), Strftime(t2);
    assert s1[0..4] == Pad4(t1.year) && s2[0..4] == Pad4(t2.year);
    assert Pad4(t1.year)[0..2] == s1[0..2] == s2[0..2] == Pad4(t2.year)[0..2];
    assert Pad4(t1.year)[2..4] == s1[2..4] == s2[2..4] == Pad4(t2.year)[2..4];
    assert s1[4..6] == Pad2(t1.month) && s2[4..6] == Pad2(t2.month);
    Pad2Injective(t1.month, t2.month);
    assert s1[6..8] == Pad2(t1.day) && s2[6..8] == Pad2(t2.day);
    Pad2Injective(t1.day, t2.day);
    assert s1[9..11] == Pad2(t1.hour) && s2[9..11] == Pad2(t2.hour);
    Pad2Injective(t1.hour, t2.hour);
    assert s1[11..13] == Pad2(t1.minute) && s2[11..13] == Pad2(t2.minute);
    Pad2Injective(t1.minute, t2.minute);
    assert s1[13..15] == Pad2(t1.second) && s2[13..15] == Pad2(t2.second);
    Pad2Injective(t1.second, t2.second);
  }
}
