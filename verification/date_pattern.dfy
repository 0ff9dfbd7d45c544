/** `DATE_RE = /^\d{4}-(0[1-9]|1[0-2])-(0[1-9]|[12]\d|3[01])$/`. */
module DatePattern {
  import opened Chars
  import opened Strings

  /** `0[1-9]|1[0-2]`. */
  predicate MonthAlternatives(a: char, b: char) {
    (a == '0' && '1' <= b <= '9') || (a == '1' && '0' <= b <= '2')
  }

  /** `0[1-9]|[12]\d|3[01]`. */
  predicate DayAlternatives(a: char, b: char) {
    || (a == '0' && '1' <= b <= '9')
    || ((a == '1' || a == '2') && IsDigit(b))
    || (a == '3' && (b == '0' || b == '1'))
  }

  /** The language of the pattern, read off its structure. */
  predicate DateRe(s: string) {
    && |s| == 10
    && IsDigit(s[0]) && IsDigit(s[1]) && IsDigit(s[2]) && IsDigit(s[3])
    && s[4] == '-'
    && MonthAlternatives(s[5], s[6])
    && s[7] == '-'
    && DayAlternatives(s[8], s[9])
  }

  /** The shape `dddd-dd-dd` with only ASCII digits around the dashes. */
  predicate DateShape(s: string) {
    && |s| == 10 && s[4] == '-' && s[7] == '-'
    && forall i :: 0 <= i < 10 && i != 4 && i != 7 ==> IsDigit(s[i])
  }

  function TwoDigitValue(a: char, b: char): nat
    requires IsDigit(a) && IsDigit(b)
  {
    DigitValue(a) * 10 + DigitValue(b)
  }

  /** The pattern checks the shape and that the month lies in 1..12 and the
      day in 1..31; there is no check of the day against the month, so
      "2024-02-30" is accepted. */
  lemma DateReIsRangeCheck(s: string)
    ensures DateRe(s) <==>
      && DateShape(s)
      && 1 <= TwoDigitValue(s[5], s[6]) <= 12
      && 1 <= TwoDigitValue(s[8], s[9]) <= 31
  {
  }

  lemma DateReExamples()
    ensures DateRe("2024-02-29") && DateRe("2024-02-30") && DateRe("1999-12-31")
    ensures !DateRe("2024-13-01") && !DateRe("2024-01-32") && !DateRe("2024-00-10")
    ensures !DateRe("2024-1-01") && !DateRe("24-01-01")
  {
  }
}
