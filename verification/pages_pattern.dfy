/** `PAGES_RE = /^(0|[1-9]\d*)(\.\d{1,2})?$/`, applied to `String(pages)`. */
module PagesPattern {
  import opened Chars
  import opened Strings

  /** `0|[1-9]\d*`: zero, or digits without a leading zero. */
  predicate IntegerPart(a: string) {
    a == "0" || (|a| >= 1 && '1' <= a[0] <= '9' && AllDigits(a[1..]))
  }

  /** `(\.\d{1,2})?`: nothing, or a dot and one or two digits. */
  predicate FractionPart(b: string) {
    b == [] || (2 <= |b| <= 3 && b[0] == '.' && AllDigits(b[1..]))
  }

  /** The language of the pattern: the text splits into an integer part and
      an optional fraction. */
  ghost predicate PagesRe(s: string) {
    exists n :: 1 <= n <= |s| && IntegerPart(s[..n]) && FractionPart(s[n..])
  }

  /** The recognizer the validator runs: the integer part is the longest
      run of leading digits, and whatever follows must be the fraction. */
  function MatchPages(s: string): (ok: bool)
    ensures ok <==> PagesRe(s)
  {
    var p := RunEnd(s, 0, IsDigit);
    if IntegerPart(s[..p]) && FractionPart(s[p..]) then
      true
    else
      assert !PagesRe(s) by {
        if n :| 1 <= n <= |s| && IntegerPart(s[..n]) && FractionPart(s[n..]) {
          SplitIsDigitRun(s, n);
        }
      }
      false
  }

  /** Any split the pattern accepts ends the integer part at the first non-digit. */
  lemma SplitIsDigitRun(s: string, n: nat)
    requires 1 <= n <= |s| && IntegerPart(s[..n]) && FractionPart(s[n..])
    ensures RunEnd(s, 0, IsDigit) == n
  {
    assert AllDigits(s[..n]) by {
      if s[..n] != "0" {
        forall i | 0 < i < n ensures IsDigit(s[..n][i]) {
          assert s[..n][i] == s[..n][1..][i - 1];
        }
      }
    }
    forall k | 0 <= k < n ensures IsDigit(s[k]) {
      assert s[k] == s[..n][k];
    }
    if n < |s| {
      assert s[n] == s[n..][0];
    }
    RunEndAt(s, 0, IsDigit, n);
  }

  /** For an integer page count the check passes exactly when the count is
      not negative: `String(n)` never has a leading zero or a fraction. */
  lemma IntegerPagesAccepted(n: int)
    ensures MatchPages(DecimalString(n)) <==> n >= 0
  {
    var s := DecimalString(n);
    var p := RunEnd(s, 0, IsDigit);
    if n >= 0 {
      assert AllDigits(s);
      assert s[..p] == s && s[p..] == [];
      if n > 0 {
        assert AllDigits(s[1..]) by {
          forall i | 0 <= i < |s| - 1 ensures IsDigit(s[1..][i]) {
            assert s[1..][i] == s[i + 1];
          }
        }
      }
    } else {
      assert p == 0;
    }
  }

  lemma MatchPagesAccepts()
    ensures MatchPages("0") && MatchPages("250") && MatchPages("12.50")
  {
  }

  lemma MatchPagesRejects()
    ensures !MatchPages("") && !MatchPages("007") && !MatchPages("12.345") && !MatchPages("-3")
  {
  }
}
