/** `TAG_RE = /^[#A-Za-z]+(?:[ \-#][A-Za-z]+)*$/`. */
module TagPattern {
  import opened Chars

  /** `[#A-Za-z]`. */
  predicate IsHeadChar(c: char) {
    c == '#' || IsAsciiLetter(c)
  }

  /** `[ \-#]`. */
  predicate IsSeparator(c: char) {
    c == ' ' || c == '-' || c == '#'
  }

  predicate AllHead(s: string) {
    forall i :: 0 <= i < |s| ==> IsHeadChar(s[i])
  }

  predicate AllLetters(s: string) {
    forall i :: 0 <= i < |s| ==> IsAsciiLetter(s[i])
  }

  /** `(?:[ \-#][A-Za-z]+)*`: zero or more groups of one separator followed
      by letters. Every way the regex engine could cut the text is an
      existential witness. */
  ghost predicate Groups(t: string)
    decreases |t|
  {
    || t == []
    || (IsSeparator(t[0]) && exists m :: 2 <= m <= |t| && AllLetters(t[1..m]) && Groups(t[m..]))
  }

  /** The language of the pattern: a non-empty run of `[#A-Za-z]`, then groups. */
  ghost predicate TagRe(s: string) {
    exists n :: 1 <= n <= |s| && AllHead(s[..n]) && Groups(s[n..])
  }

  /** States of a deterministic recognizer for the pattern. */
  datatype TagState =
    | Start       // nothing read yet
    | InFirst     // inside the leading `[#A-Za-z]+`, or in letters a `#` began
    | NeedLetter  // just read a separator
    | InLetters   // inside the letters of a later group
    | Dead        // no way to match any more

  function Step(q: TagState, c: char): TagState {
    match q
    case Start => if IsHeadChar(c) then InFirst else Dead
    case InFirst =>
      if IsHeadChar(c) then InFirst
      else if c == ' ' || c == '-' then NeedLetter
      else Dead
    case NeedLetter => if IsAsciiLetter(c) then InLetters else Dead
    case InLetters =>
      if IsAsciiLetter(c) then InLetters
      else if IsSeparator(c) then NeedLetter
      else Dead
    case Dead => Dead
  }

  function Run(q: TagState, s: string): TagState
    decreases |s|
  {
    if s == [] then q else Run(Step(q, s[0]), s[1..])
  }

  predicate Accepting(q: TagState) {
    q == InFirst || q == InLetters
  }

  /** The recognizer the validator runs. */
  predicate MatchTag(s: string) {
    Accepting(Run(Start, s))
  }

  /** The texts each state still accepts. */
  ghost predicate Lang(q: TagState, t: string) {
    match q
    case Start => TagRe(t)
    case InFirst => exists n :: 0 <= n <= |t| && AllHead(t[..n]) && Groups(t[n..])
    case NeedLetter => exists m :: 1 <= m <= |t| && AllLetters(t[..m]) && Groups(t[m..])
    case InLetters => exists m :: 0 <= m <= |t| && AllLetters(t[..m]) && Groups(t[m..])
    case Dead => false
  }

  lemma LangEmpty(q: TagState)
    ensures Lang(q, []) <==> Accepting(q)
  {
    if q == InFirst {
      assert AllHead([][..0]) && Groups([][0..]);
    } else if q == InLetters {
      assert AllLetters([][..0]) && Groups([][0..]);
    }
  }

  /** Reading one separator and the letters after it, as the group rule does. */
  lemma GroupsCons(c: char, r: string)
    ensures Groups([c] + r) <==> IsSeparator(c) && Lang(NeedLetter, r)
  {
    var t := [c] + r;
    assert t[1..] == r;
    if Groups(t) {
      var m :| 2 <= m <= |t| && AllLetters(t[1..m]) && Groups(t[m..]);
      assert r[..m - 1] == t[1..m] && r[m - 1..] == t[m..];
    }
    if IsSeparator(c) && Lang(NeedLetter, r) {
      var m :| 1 <= m <= |r| && AllLetters(r[..m]) && Groups(r[m..]);
      assert r[..m] == t[1..m + 1] && r[m..] == t[m + 1..];
    }
  }

  lemma StartCons(c: char, r: string)
    ensures Lang(Start, [c] + r) <==> IsHeadChar(c) && Lang(InFirst, r)
  {
    var t := [c] + r;
    assert t[1..] == r;
    if TagRe(t) {
      var n :| 1 <= n <= |t| && AllHead(t[..n]) && Groups(t[n..]);
      assert t[..n][0] == c;
      assert r[..n - 1] == t[1..n] && r[n - 1..] == t[n..];
      assert AllHead(r[..n - 1]) by {
        var xs, ys := r[..n - 1], t[..n];
        forall i | 0 <= i < |xs| ensures IsHeadChar(xs[i]) {
          assert xs[i] == ys[i + 1];
        }
      }
    }
    if IsHeadChar(c) && Lang(InFirst, r) {
      var n :| 0 <= n <= |r| && AllHead(r[..n]) && Groups(r[n..]);
      assert t[n + 1..] == r[n..];
      assert AllHead(t[..n + 1]) by {
        var xs, ys := t[..n + 1], r[..n];
        forall i | 0 <= i < |xs| ensures IsHeadChar(xs[i]) {
          if i > 0 { assert xs[i] == ys[i - 1]; }
        }
      }
    }
  }

  lemma InFirstCons(c: char, r: string)
    ensures Lang(InFirst, [c] + r) <==>
      (IsHeadChar(c) && Lang(InFirst, r)) || (IsSeparator(c) && Lang(NeedLetter, r))
  {
    var t := [c] + r;
    assert t[1..] == r;
    GroupsCons(c, r);
    if Lang(InFirst, t) {
      var n :| 0 <= n <= |t| && AllHead(t[..n]) && Groups(t[n..]);
      if n > 0 {
        assert t[..n][0] == c;
        assert r[n - 1..] == t[n..];
        assert AllHead(r[..n - 1]) by {
          var xs, ys := r[..n - 1], t[..n];
          forall i | 0 <= i < |xs| ensures IsHeadChar(xs[i]) {
            assert xs[i] == ys[i + 1];
          }
        }
      } else {
        assert t[0..] == t;
      }
    }
    if IsHeadChar(c) && Lang(InFirst, r) {
      var n :| 0 <= n <= |r| && AllHead(r[..n]) && Groups(r[n..]);
      assert t[n + 1..] == r[n..];
      assert AllHead(t[..n + 1]) by {
        var xs, ys := t[..n + 1], r[..n];
        forall i | 0 <= i < |xs| ensures IsHeadChar(xs[i]) {
          if i > 0 { assert xs[i] == ys[i - 1]; }
        }
      }
    }
    if IsSeparator(c) && Lang(NeedLetter, r) {
      assert AllHead(t[..0]) && t[0..] == t;
    }
  }

  lemma NeedLetterCons(c: char, r: string)
    ensures Lang(NeedLetter, [c] + r) <==> IsAsciiLetter(c) && Lang(InLetters, r)
  {
    var t := [c] + r;
    assert t[1..] == r;
    if Lang(NeedLetter, t) {
      var m :| 1 <= m <= |t| && AllLetters(t[..m]) && Groups(t[m..]);
      assert t[..m][0] == c;
      assert r[m - 1..] == t[m..];
      assert AllLetters(r[..m - 1]) by {
        var xs, ys := r[..m - 1], t[..m];
        forall i | 0 <= i < |xs| ensures IsAsciiLetter(xs[i]) {
          assert xs[i] == ys[i + 1];
        }
      }
    }
    if IsAsciiLetter(c) && Lang(InLetters, r) {
      var m :| 0 <= m <= |r| && AllLetters(r[..m]) && Groups(r[m..]);
      assert t[m + 1..] == r[m..];
      assert AllLetters(t[..m + 1]) by {
        var xs, ys := t[..m + 1], r[..m];
        forall i | 0 <= i < |xs| ensures IsAsciiLetter(xs[i]) {
          if i > 0 { assert xs[i] == ys[i - 1]; }
        }
      }
    }
  }

  lemma InLettersCons(c: char, r: string)
    ensures Lang(InLetters, [c] + r) <==>
      (IsAsciiLetter(c) && Lang(InLetters, r)) || (IsSeparator(c) && Lang(NeedLetter, r))
  {
    var t := [c] + r;
    assert t[1..] == r;
    GroupsCons(c, r);
    if Lang(InLetters, t) {
      var m :| 0 <= m <= |t| && AllLetters(t[..m]) && Groups(t[m..]);
      if m > 0 {
        assert t[..m][0] == c;
        assert r[m - 1..] == t[m..];
        assert AllLetters(r[..m - 1]) by {
          var xs, ys := r[..m - 1], t[..m];
          forall i | 0 <= i < |xs| ensures IsAsciiLetter(xs[i]) {
            assert xs[i] == ys[i + 1];
          }
        }
      } else {
        assert t[0..] == t;
      }
    }
    if IsAsciiLetter(c) && Lang(InLetters, r) {
      NeedLetterCons(c, r);
      var m :| 1 <= m <= |t| && AllLetters(t[..m]) && Groups(t[m..]);
    }
    if IsSeparator(c) && Lang(NeedLetter, r) {
      assert AllLetters(t[..0]) && t[0..] == t;
    }
  }

  /** Letters followed by groups are also a head run followed by groups. */
  lemma NeedLetterInFirst(r: string)
    requires Lang(NeedLetter, r)
    ensures Lang(InFirst, r)
  {
    var m :| 1 <= m <= |r| && AllLetters(r[..m]) && Groups(r[m..]);
    assert AllHead(r[..m]);
  }

  /** Each state of the recognizer accepts exactly its language. */
  lemma {:induction false} RunCorrect(q: TagState, t: string)
    ensures Accepting(Run(q, t)) <==> Lang(q, t)
    decreases |t|
  {
    if t == [] {
      LangEmpty(q);
    } else {
      var c, r := t[0], t[1..];
      assert t == [c] + r;
      RunCorrect(Step(q, c), r);
      match q {
        case Start => StartCons(c, r);
        case InFirst =>
          InFirstCons(c, r);
          if c == '#' && Lang(NeedLetter, r) {
            NeedLetterInFirst(r);
          }
        case NeedLetter => NeedLetterCons(c, r);
        case InLetters => InLettersCons(c, r);
        case Dead =>
      }
    }
  }

  /** The recognizer accepts exactly the language of the pattern. */
  lemma MatchTagCorrect(s: string)
    ensures MatchTag(s) <==> TagRe(s)
  {
    RunCorrect(Start, s);
  }

  /** Characters the pattern allows: letters, `#`, space and hyphen. */
  predicate IsTagChar(c: char) {
    IsHeadChar(c) || c == ' ' || c == '-'
  }

  /** Once the recognizer has read a character outside the allowed set it
      cannot accept: a tag with stray punctuation or an underscore fails. */
  lemma {:induction false} AcceptedTagChars(q: TagState, s: string)
    requires Accepting(Run(q, s))
    ensures q != Dead
    ensures forall i :: 0 <= i < |s| ==> IsTagChar(s[i])
    decreases |s|
  {
    if s == [] {
    } else {
      AcceptedTagChars(Step(q, s[0]), s[1..]);
      assert Step(q, s[0]) != Dead;
      forall i | 0 <= i < |s| ensures IsTagChar(s[i]) {
        if i > 0 { assert s[i] == s[1..][i - 1]; }
      }
    }
  }

  lemma MatchTagAccepts()
    ensures MatchTag("#sci-fi") && MatchTag("sci fi") && MatchTag("#") && MatchTag("a#b")
  {
  }

  lemma MatchTagRejects()
    ensures !MatchTag("sci_fi!") && !MatchTag("sci  fi") && !MatchTag("")
  {
  }

  lemma MatchTagRejectsLooseHyphens()
    ensures !MatchTag("sci-") && !MatchTag("a-#b")
  {
  }
}
