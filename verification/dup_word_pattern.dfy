/** `DUP_WORD_RE = /\b(\w+)\s+\1\b/i`: some word, whitespace, then the same
    word again (ignoring ASCII case), each a whole run of `\w` characters. */
module DupWordPattern {
  import opened Chars
  import opened Strings

  /** One way the pattern can match: `\b` at `i`, the capture `s[i..j]`, the
      whitespace `s[j..k]`, the back-reference `s[k..k + (j - i)]` equal to the
      capture up to case, and `\b` after it. Any choice the backtracking
      engine could make is such a triple. */
  ghost predicate MatchAt(s: string, i: int, j: int, k: int) {
    && 0 <= i < j < k && k + (j - i) <= |s|
    && (i == 0 || !IsWordChar(s[i - 1]))
    && (forall m :: i <= m < j ==> IsWordChar(s[m]))
    && (forall m :: j <= m < k ==> IsSpace(s[m]))
    && FoldEqual(s[i..j], s[k..k + (j - i)])
    && (k + (j - i) == |s| || !IsWordChar(s[k + (j - i)]))
  }

  /** The pattern's `test`: it matches somewhere. */
  ghost predicate DupWordRe(s: string) {
    exists i, j, k :: MatchAt(s, i, j, k)
  }

  /** Equal up to ASCII case, character by character. */
  predicate FoldEqual(a: string, b: string)
    requires |a| == |b|
  {
    forall m :: 0 <= m < |a| ==> FoldCase(a[m]) == FoldCase(b[m])
  }

  /** A word (a maximal run of `\w`) starts at `i`. */
  predicate WordStartsAt(s: string, i: nat)
    requires i < |s|
  {
    IsWordChar(s[i]) && (i == 0 || !IsWordChar(s[i - 1]))
  }

  /** The word starting at `i` is followed by whitespace and then by the same
      word, which ends there. */
  predicate RepeatedAt(s: string, i: nat)
    requires i < |s|
  {
    var j := RunEnd(s, i, IsWordChar);
    var k := RunEnd(s, j, IsSpace);
    var len := j - i;
    && j > i && k > j && k + len <= |s|
    && FoldEqual(s[i..j], s[k..k + len])
    && (k + len == |s| || !IsWordChar(s[k + len]))
  }

  /** Some word starting at or after `i` is immediately repeated. */
  predicate ScanFrom(s: string, i: nat)
    decreases |s| - i
  {
    if i >= |s| then false
    else (WordStartsAt(s, i) && RepeatedAt(s, i)) || ScanFrom(s, i + 1)
  }

  /** The recognizer the validator runs. */
  predicate HasDupWord(s: string) {
    ScanFrom(s, 0)
  }

  /** A repeat the scanner finds is a match of the pattern. */
  lemma RepeatIsMatch(s: string, i: nat)
    requires i < |s| && WordStartsAt(s, i) && RepeatedAt(s, i)
    ensures MatchAt(s, i, RunEnd(s, i, IsWordChar), RunEnd(s, RunEnd(s, i, IsWordChar), IsSpace))
  {
  }

  /** A match fixes its capture and gap: both are maximal runs. */
  lemma MatchIsRepeat(s: string, i: int, j: int, k: int)
    requires MatchAt(s, i, j, k)
    ensures WordStartsAt(s, i)
    ensures j == RunEnd(s, i, IsWordChar) && k == RunEnd(s, j, IsSpace)
    ensures RepeatedAt(s, i)
  {
    WordCharIsNotSpace(s[j]);
    RunEndAt(s, i, IsWordChar, j);
    assert s[i..j][0] == s[i] && s[k..k + (j - i)][0] == s[k];
    assert IsWordChar(s[k]);
    WordCharIsNotSpace(s[k]);
    RunEndAt(s, j, IsSpace, k);
  }

  /** Whatever the scan from `i` finds is a match at or after `i`. */
  lemma {:induction false} ScanFromSound(s: string, i: nat) returns (a: nat, j: nat, k: nat)
    requires ScanFrom(s, i)
    ensures i <= a && MatchAt(s, a, j, k)
    decreases |s| - i
  {
    if WordStartsAt(s, i) && RepeatedAt(s, i) {
      RepeatIsMatch(s, i);
      a := i;
      j := RunEnd(s, i, IsWordChar);
      k := RunEnd(s, j, IsSpace);
    } else {
      a, j, k := ScanFromSound(s, i + 1);
    }
  }

  /** A match at or after `i` is found by the scan from `i`. */
  lemma {:induction false} ScanFromComplete(s: string, i: nat, a: nat, j: nat, k: nat)
    requires i <= a && MatchAt(s, a, j, k)
    ensures ScanFrom(s, i)
    decreases a - i
  {
    if i == a {
      MatchIsRepeat(s, a, j, k);
    } else {
      ScanFromComplete(s, i + 1, a, j, k);
    }
  }

  /** The recognizer matches exactly the language of the pattern. */
  lemma HasDupWordCorrect(s: string)
    ensures HasDupWord(s) <==> DupWordRe(s)
  {
    if HasDupWord(s) {
      var a, j, k := ScanFromSound(s, 0);
    }
    if i, j, k :| MatchAt(s, i, j, k) {
      ScanFromComplete(s, 0, i, j, k);
    }
  }

  /** A whole word, a gap of whitespace, and the same word again up to
      case, with no word character after it, is a match. */
  lemma DoubledWordMatches(w: string, g: string, v: string, rest: string)
    requires w != [] && |v| == |w| && g != []
    requires forall m :: 0 <= m < |w| ==> IsWordChar(w[m])
    requires forall m :: 0 <= m < |g| ==> IsSpace(g[m])
    requires FoldEqual(w, v)
    requires rest == [] || !IsWordChar(rest[0])
    ensures DupWordRe(w + g + v + rest)
  {
    var s := w + g + v + rest;
    var j, k := |w|, |w| + |g|;
    assert s[0..j] == w;
    assert s[k..k + j] == v;
    forall m | 0 <= m < j ensures IsWordChar(s[m]) {
      assert s[m] == w[m];
    }
    forall m | j <= m < k ensures IsSpace(s[m]) {
      assert s[m] == g[m - j];
    }
    if rest != [] {
      assert s[k + j] == rest[0];
    }
    assert MatchAt(s, 0, j, k);
  }

  /** "the the cat" is a match. */
  lemma FlagsRepeat()
    ensures DupWordRe("the the cat")
  {
    DoubledWordMatches("the", " ", "the", " cat");
    assert "the" + " " + "the" + " cat" == "the the cat";
  }

  /** The word with every ASCII capital lowered. */
  function Lowered(w: string): (v: string)
    ensures |v| == |w|
  {
    seq(|w|, m requires 0 <= m < |w| => FoldCase(w[m]))
  }

  /** Any word, a gap of whitespace, and the same word in lower case is a
      match, whatever capitals the first copy has: the back-reference
      ignores case. */
  lemma IgnoresCase(w: string, g: string)
    requires w != [] && g != []
    requires forall m :: 0 <= m < |w| ==> IsWordChar(w[m])
    requires forall m :: 0 <= m < |g| ==> IsSpace(g[m])
    ensures DupWordRe(w + g + Lowered(w))
  {
    var v := Lowered(w);
    forall m | 0 <= m < |w| ensures FoldCase(w[m]) == FoldCase(v[m]) {
      assert v[m] == FoldCase(w[m]);
    }
    DoubledWordMatches(w, g, v, "");
    assert w + g + v + "" == w + g + v;
  }

  /** The scan moves past a position where no repeat starts. */
  lemma ScanSkips(s: string, i: nat)
    requires i < |s| && !(WordStartsAt(s, i) && RepeatedAt(s, i))
    ensures ScanFrom(s, i) == ScanFrom(s, i + 1)
  {
  }

  lemma SeparatedFirstWord()
    ensures !RepeatedAt("the cat the", 0)
  {
    var s := "the cat the";
    RunEndAt(s, 0, IsWordChar, 3);
    RunEndAt(s, 3, IsSpace, 4);
    assert s[0..3] == "the" && s[4..7] == "cat";
    assert FoldCase(s[0..3][0]) != FoldCase(s[4..7][0]);
  }

  lemma SeparatedSecondWord()
    ensures !RepeatedAt("the cat the", 4)
  {
    var s := "the cat the";
    RunEndAt(s, 4, IsWordChar, 7);
    RunEndAt(s, 7, IsSpace, 8);
    assert s[4..7] == "cat" && s[8..11] == "the";
    assert FoldCase(s[4..7][0]) != FoldCase(s[8..11][0]);
  }

  lemma SeparatedLastWord()
    ensures !RepeatedAt("the cat the", 8)
  {
    var s := "the cat the";
    RunEndAt(s, 8, IsWordChar, 11);
  }

  /** "the cat the" is not flagged: the repeated word is not adjacent. */
  lemma HasDupWordNeedsAdjacency()
    ensures !HasDupWord("the cat the")
  {
    var s := "the cat the";
    SeparatedFirstWord();
    SeparatedSecondWord();
    SeparatedLastWord();
    assert !ScanFrom(s, 11);
    ScanSkips(s, 10); ScanSkips(s, 9); ScanSkips(s, 8);
    ScanSkips(s, 7); ScanSkips(s, 6); ScanSkips(s, 5); ScanSkips(s, 4);
    ScanSkips(s, 3); ScanSkips(s, 2); ScanSkips(s, 1); ScanSkips(s, 0);
  }

  lemma PrefixFirstWord()
    ensures !RepeatedAt("the theory", 0)
  {
    var s := "the theory";
    RunEndAt(s, 0, IsWordChar, 3);
    RunEndAt(s, 3, IsSpace, 4);
    assert IsWordChar(s[7]);
  }

  lemma PrefixSecondWord()
    ensures !RepeatedAt("the theory", 4)
  {
    var s := "the theory";
    RunEndAt(s, 4, IsWordChar, 10);
  }

  /** "the theory" is not flagged: the closing word boundary needs the second
      word to end where the capture does. */
  lemma HasDupWordNeedsWholeWord()
    ensures !HasDupWord("the theory")
  {
    var s := "the theory";
    PrefixFirstWord();
    PrefixSecondWord();
    assert !ScanFrom(s, 10);
    ScanSkips(s, 9); ScanSkips(s, 8); ScanSkips(s, 7); ScanSkips(s, 6);
    ScanSkips(s, 5); ScanSkips(s, 4); ScanSkips(s, 3); ScanSkips(s, 2);
    ScanSkips(s, 1); ScanSkips(s, 0);
  }

  lemma SpacedFirstWord()
    ensures !RepeatedAt("cat  dog", 0)
  {
    var s := "cat  dog";
    RunEndAt(s, 0, IsWordChar, 3);
    RunEndAt(s, 3, IsSpace, 5);
    assert s[0..3] == "cat" && s[5..8] == "dog";
    assert FoldCase(s[0..3][0]) != FoldCase(s[5..8][0]);
  }

  /** "cat  dog" is not flagged: two different words. */
  lemma CatDogHasNoRepeat()
    ensures !HasDupWord("cat  dog")
  {
    var s := "cat  dog";
    SpacedFirstWord();
    RunEndAt(s, 5, IsWordChar, 8);
    assert !ScanFrom(s, 8);
    ScanSkips(s, 7); ScanSkips(s, 6); ScanSkips(s, 5); ScanSkips(s, 4);
    ScanSkips(s, 3); ScanSkips(s, 2); ScanSkips(s, 1); ScanSkips(s, 0);
  }
}
