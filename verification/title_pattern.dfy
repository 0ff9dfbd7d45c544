/** `TITLE_RE = /^\S(?:.*\S)?$/`, the spacing rule for titles and authors. */
module TitlePattern {
  import opened Chars
  import opened Strings

  /** The language of the pattern, read off its structure: one non-space
      character, then optionally `.*` (any characters but line terminators)
      followed by one more non-space character, and nothing else. */
  predicate TitleRe(s: string) {
    && |s| >= 1
    && !IsSpace(s[0])
    && (|s| == 1 || (NoLineTerminator(s[1..|s| - 1]) && !IsSpace(s[|s| - 1])))
  }

  predicate NoLineTerminator(s: string) {
    forall i :: 0 <= i < |s| ==> !IsLineTerminator(s[i])
  }

  /** The middle of an accepted string is all of it but its ends, and
      those are not spaces, so no line terminator is anywhere. */
  lemma TitleReHasNoLineTerminator(s: string)
    requires TitleRe(s)
    ensures NoLineTerminator(s)
  {
    forall i | 0 <= i < |s| ensures !IsLineTerminator(s[i]) {
      LineTerminatorIsSpace(s[i]);
      if 0 < i < |s| - 1 {
        assert s[i] == s[1..|s| - 1][i - 1];
      }
    }
  }

  lemma SingleLineMiddle(s: string)
    requires |s| > 1 && NoLineTerminator(s)
    ensures NoLineTerminator(s[1..|s| - 1])
  {
    var mid := s[1..|s| - 1];
    forall i | 0 <= i < |mid| ensures !IsLineTerminator(mid[i]) {
      assert mid[i] == s[i + 1];
    }
  }

  /** The pattern accepts exactly the non-empty strings that `trim` leaves
      alone and that hold no line terminator. Nothing rules out a run of
      inner spaces: "cat  dog" is accepted. */
  lemma TitleReIsTrimmedSingleLine(s: string)
    ensures TitleRe(s) <==> s != [] && Trim(s) == s && NoLineTerminator(s)
  {
    TrimFixpoint(s);
    if TitleRe(s) {
      TitleReHasNoLineTerminator(s);
    }
    if |s| > 1 && NoLineTerminator(s) {
      SingleLineMiddle(s);
    }
  }

  lemma TitleReExamples()
    ensures TitleRe("cat dog")
    ensures TitleRe("cat  dog")
    ensures TitleRe("a")
    ensures !TitleRe("  cat")
    ensures !TitleRe("cat ")
    ensures !TitleRe("")
    ensures !TitleRe("cat\ndog")
  {
    assert "cat\ndog"[1..6][2] == '\n';
  }

  lemma TitleReWordExamples()
    ensures TitleRe("the the cat")
    ensures TitleRe("The the")
  {
  }
}
