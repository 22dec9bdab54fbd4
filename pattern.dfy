/**
 * The simple wildcard matcher: `?` stands for one character and `*` for any
 * run of characters, characters compare through a case-insensitive comparator.
 *
 * The source works on NUL-terminated wide strings and reads the terminator at
 * index |s|. Here a string is the sequence of its characters (none of them NUL)
 * and "at the terminator" is "the offset equals the length".
 */
module Pattern {

  /** The C library's `tolower` in the "C" locale: only A-Z are mapped. */
  function ToLower(c: char): (r: char)
    ensures 'A' <= c <= 'Z' ==> r as int == c as int + 32
    ensures !('A' <= c <= 'Z') ==> r == c
  {
    if 'A' <= c <= 'Z' then (c as int + 32) as char else c
  }

  /** Case-sensitive character comparison. */
  predicate YCaseChrCmp(c1: char, c2: char)
  {
    c1 == c2
  }

  /** Case-insensitive character comparison. */
  predicate NCaseChrCmp(c1: char, c2: char)
  {
    ToLower(c1) == ToLower(c2)
  }

  /** The comparator the matcher is bound to: the case-insensitive one. */
  predicate ChrCmp(c1: char, c2: char)
  {
    NCaseChrCmp(c1, c2)
  }

  /** The comparator is an equivalence that contains equality. */
  lemma ChrCmpProperties(c1: char, c2: char, c3: char)
    ensures YCaseChrCmp(c1, c2) <==> c1 == c2
    ensures YCaseChrCmp(c1, c2) ==> NCaseChrCmp(c1, c2)
    ensures NCaseChrCmp(c1, c1)
    ensures NCaseChrCmp(c1, c2) ==> NCaseChrCmp(c2, c1)
    ensures NCaseChrCmp(c1, c2) && NCaseChrCmp(c2, c3) ==> NCaseChrCmp(c1, c3)
  {
  }

  /** Only the character itself compares equal to a character that is not a letter. */
  lemma ChrCmpNonLetter(c: char, d: char)
    requires !('A' <= d <= 'Z') && !('a' <= d <= 'z')
    ensures ChrCmp(c, d) <==> c == d
  {
  }

  /** A C string: no character is the terminator. */
  predicate NoNul(s: string)
  {
    forall i :: 0 <= i < |s| ==> s[i] != '\0'
  }

  /**
   * What matching the pattern `w` from offset `wo` against the subject `r`
   * from offset `ro` answers.
   */
  function Match(w: string, r: string, wo: nat, ro: nat): bool
    requires wo <= |w| && ro <= |r|
    decreases |w| - wo, 1, |r| - ro
  {
    if wo == |w| then ro == |r|
    else if ro == |r| then w[wo] == '*'
    else if w[wo] == '*' then
      if wo + 1 == |w| then true else StarScan(w, r, wo, ro)
    else if w[wo] == '?' then Match(w, r, wo + 1, ro + 1)
    else ChrCmp(r[ro], w[wo]) && Match(w, r, wo + 1, ro + 1)
  }

  /**
   * The search after a `*` at `wo` that is not the last pattern character:
   * try each subject position from `ro` on whose character compares equal to
   * the next pattern character; when the subject runs out, succeed only if
   * that next pattern character is itself `*`.
   */
  function StarScan(w: string, r: string, wo: nat, ro: nat): bool
    requires wo + 1 < |w| && ro <= |r|
    decreases |w| - wo, 0, |r| - ro
  {
    if ro == |r| then w[wo + 1] == '*'
    else (ChrCmp(r[ro], w[wo + 1]) && Match(w, r, wo + 1, ro)) || StarScan(w, r, wo, ro + 1)
  }

  /** Whole-pattern against whole-subject. */
  predicate Matches(pattern: string, s: string)
  {
    Match(pattern, s, 0, 0)
  }

  /**
   * The matcher: walks the pattern, consuming subject characters; at a `*`
   * it scans ahead for the character after the `*` and recurses on the rest
   * of the pattern from each candidate position.
   */
  method Compare(w: string, wildOff: nat, r: string, rawOff: nat) returns (b: bool)
    requires wildOff <= |w| && rawOff <= |r|
    requires NoNul(w) && NoNul(r)
    ensures b == Match(w, r, wildOff, rawOff)
    decreases |w| - wildOff
  {
    var wo: nat, ro: nat := wildOff, rawOff;
    while wo < |w|
      invariant wildOff <= wo <= |w| && ro <= |r|
      invariant Match(w, r, wo, ro) == Match(w, r, wildOff, rawOff)
      decreases |w| - wo
    {
      if ro == |r| {
        return w[wo] == '*';
      }
      if w[wo] == '*' {
        if wo + 1 == |w| {
          return true;
        }
        while true
          invariant ro <= |r|
          invariant StarScan(w, r, wo, ro) == Match(w, r, wildOff, rawOff)
          decreases |r| - ro
        {
          // Find a match with the character after the '*'.
          while ro < |r| && !ChrCmp(r[ro], w[wo + 1])
            invariant ro <= |r|
            invariant StarScan(w, r, wo, ro) == Match(w, r, wildOff, rawOff)
            decreases |r| - ro
          {
            ro := ro + 1;
          }
          if ro < |r| {
            var rest := Compare(w, wo + 1, r, ro);
            if rest {
              return true;
            }
          }
          if ro < |r| {
            ro := ro + 1;
          }
          if ro == |r| {
            break;
          }
        }
        // The subject is exhausted here.
        return w[wo + 1] == '*';
      } else if w[wo] == '?' {
        ro := ro + 1;
      } else {
        if !ChrCmp(r[ro], w[wo]) {
          return false;
        }
        ro := ro + 1;
      }
      wo := wo + 1;
    }
    // Both strings are at their terminator exactly when the subject is used up.
    return ro == |r|;
  }

  /** Case-sensitive entry point; it runs the same comparison as the other one. */
  method CompareCase(pattern: string, str: string) returns (b: bool)
    requires NoNul(pattern) && NoNul(str)
    ensures b == Matches(pattern, str)
  {
    b := Compare(pattern, 0, str, 0);
  }

  /** Case-insensitive entry point. */
  method CompareNoCase(pattern: string, str: string) returns (b: bool)
    requires NoNul(pattern) && NoNul(str)
    ensures b == Matches(pattern, str)
  {
    b := Compare(pattern, 0, str, 0);
  }

  // ---------------------------------------------------------------------------
  // What the matcher accepts.

  /** `p` has neither wildcard from offset `from` on. */
  predicate LiteralFrom(p: string, from: nat)
  {
    forall i :: from <= i < |p| ==> p[i] != '*' && p[i] != '?'
  }

  /** `s` equals `p` position by position under the comparator. */
  predicate CaseEq(p: string, s: string)
  {
    |p| == |s| && forall i :: 0 <= i < |p| ==> ChrCmp(s[i], p[i])
  }

  lemma CaseEqCons(p: string, s: string)
    requires |p| > 0 && |s| > 0
    ensures CaseEq(p, s) <==> ChrCmp(s[0], p[0]) && CaseEq(p[1..], s[1..])
  {
    if ChrCmp(s[0], p[0]) && CaseEq(p[1..], s[1..]) {
      forall i | 0 <= i < |p|
        ensures ChrCmp(s[i], p[i])
      {
        if i > 0 {
          assert s[1..][i - 1] == s[i] && p[1..][i - 1] == p[i];
        }
      }
    }
  }

  /** Without wildcards, the rest of the pattern matches exactly a same-length, case-equal rest. */
  lemma {:induction false} LiteralMatch(w: string, r: string, wo: nat, ro: nat)
    requires wo <= |w| && ro <= |r| && LiteralFrom(w, wo)
    ensures Match(w, r, wo, ro) <==> CaseEq(w[wo..], r[ro..])
    decreases |w| - wo
  {
    if wo < |w| && ro < |r| {
      LiteralMatch(w, r, wo + 1, ro + 1);
      CaseEqCons(w[wo..], r[ro..]);
      assert w[wo..][1..] == w[wo + 1..];
      assert r[ro..][1..] == r[ro + 1..];
    }
  }

  /** The empty pattern matches only the empty subject. */
  lemma EmptyPattern(s: string)
    ensures Matches("", s) <==> s == ""
  {
  }

  /** A pattern without wildcards matches the subjects of its length that compare equal position by position. */
  lemma LiteralPattern(p: string, s: string)
    requires LiteralFrom(p, 0)
    ensures Matches(p, s) <==> CaseEq(p, s)
  {
    LiteralMatch(p, s, 0, 0);
    assert p[0..] == p && s[0..] == s;
  }

  /** A run of `?` matches exactly the subjects of the same length. */
  lemma {:induction false} QuestionRun(w: string, r: string, wo: nat, ro: nat)
    requires wo <= |w| && ro <= |r|
    requires forall i :: wo <= i < |w| ==> w[i] == '?'
    ensures Match(w, r, wo, ro) <==> |w| - wo == |r| - ro
    decreases |w| - wo
  {
    if wo < |w| && ro < |r| {
      QuestionRun(w, r, wo + 1, ro + 1);
    }
  }

  /** `?` consumes exactly one character: n question marks match exactly the subjects of length n. */
  lemma QuestionMarks(p: string, s: string)
    requires forall i :: 0 <= i < |p| ==> p[i] == '?'
    ensures Matches(p, s) <==> |s| == |p|
  {
    QuestionRun(p, s, 0, 0);
  }

  /** With a literal run ending in a final `*`, the subject must start with the run. */
  lemma {:induction false} PrefixMatch(w: string, r: string, wo: nat, ro: nat)
    requires 0 < |w| && wo < |w| && ro <= |r| && w[|w| - 1] == '*'
    requires forall i :: wo <= i < |w| - 1 ==> w[i] != '*' && w[i] != '?'
    ensures Match(w, r, wo, ro)
        <==> |w| - 1 - wo <= |r| - ro && CaseEq(w[wo..|w| - 1], r[ro..ro + (|w| - 1 - wo)])
    decreases |w| - wo
  {
    if wo < |w| - 1 && ro < |r| {
      PrefixMatch(w, r, wo + 1, ro + 1);
      var n := |w| - 1 - wo;
      if n <= |r| - ro {
        CaseEqCons(w[wo..|w| - 1], r[ro..ro + n]);
        assert w[wo..|w| - 1][1..] == w[wo + 1..|w| - 1];
        assert r[ro..ro + n][1..] == r[ro + 1..ro + 1 + (n - 1)];
      }
    }
  }

  /** A final `*` matches any remainder, including the empty one: `lit*` accepts exactly the subjects starting with `lit`. */
  lemma TrailingStar(lit: string, s: string)
    requires LiteralFrom(lit, 0)
    ensures Matches(lit + "*", s) <==> |lit| <= |s| && CaseEq(lit, s[..|lit|])
  {
    var w := lit + "*";
    assert |w| - 1 == |lit|;
    PrefixMatch(w, s, 0, 0);
    assert w[0..|w| - 1] == lit;
    if |lit| <= |s| {
      assert s[0..0 + (|w| - 1 - 0)] == s[..|lit|];
    }
  }

  /**
   * A subject used up just as the pattern reaches a `*` is a match, whatever
   * follows the `*`: for instance "a*b" matches "a".
   */
  lemma {:induction false} ExhaustedAtStar(w: string, r: string, wo: nat, ro: nat, star: nat)
    requires wo <= star < |w| && w[star] == '*' && ro <= |r|
    requires forall i :: wo <= i < star ==> w[i] != '*' && w[i] != '?'
    requires |r| - ro == star - wo && CaseEq(w[wo..star], r[ro..])
    ensures Match(w, r, wo, ro)
    decreases star - wo
  {
    if wo < star {
      CaseEqCons(w[wo..star], r[ro..]);
      assert w[wo..star][1..] == w[wo + 1..star];
      assert r[ro..][1..] == r[ro + 1..];
      ExhaustedAtStar(w, r, wo + 1, ro + 1, star);
    }
  }

  /** A subject that equals the literal text before the first `*` matches, whatever comes after it. */
  lemma LiteralThenStar(lit: string, rest: string, s: string)
    requires LiteralFrom(lit, 0) && CaseEq(lit, s)
    ensures Matches(lit + "*" + rest, s)
  {
    var w := lit + "*" + rest;
    assert w[|lit|] == '*';
    assert w[0..|lit|] == lit && s[0..] == s;
    ExhaustedAtStar(w, s, 0, 0, |lit|);
  }

  /** The concrete case named above. */
  lemma StarAtEndOfSubject()
    ensures Matches("a*b", "a")
  {
    LiteralThenStar("a", "b", "a");
  }

  /** After a `*` followed by a literal run, the scan succeeds exactly when the subject ends with the run. */
  lemma {:induction false} StarLiteralScan(w: string, r: string, ro: nat)
    requires |w| >= 2 && w[0] == '*' && LiteralFrom(w, 1) && ro <= |r|
    ensures StarScan(w, r, 0, ro)
        <==> ro + (|w| - 1) <= |r| && CaseEq(w[1..], r[|r| - (|w| - 1)..])
    decreases |r| - ro
  {
    if ro < |r| {
      StarLiteralScan(w, r, ro + 1);
      LiteralMatch(w, r, 1, ro);
      if CaseEq(w[1..], r[ro..]) {
        assert ChrCmp(r[ro..][0], w[1..][0]);
      }
    }
  }

  /** `*lit` accepts the empty subject and exactly the subjects that end with `lit`. */
  lemma StarThenLiteral(lit: string, s: string)
    requires |lit| > 0 && LiteralFrom(lit, 0)
    ensures Matches("*" + lit, s) <==> s == "" || (|lit| <= |s| && CaseEq(lit, s[|s| - |lit|..]))
  {
    var w := "*" + lit;
    assert w[1..] == lit;
    if s != "" {
      StarLiteralScan(w, s, 0);
    }
  }

  /** After `**` the scan looks for a literal `*`; a subject without one therefore always matches. */
  lemma {:induction false} DoubleStarScan(w: string, r: string, ro: nat)
    requires |w| >= 2 && w[0] == '*' && w[1] == '*' && ro <= |r|
    requires forall i :: 0 <= i < |r| ==> r[i] != '*'
    ensures StarScan(w, r, 0, ro)
    decreases |r| - ro
  {
    if ro < |r| {
      ChrCmpNonLetter(r[ro], '*');
      DoubleStarScan(w, r, ro + 1);
    }
  }

  /** A pattern starting with `**` matches every subject that contains no `*`, whatever follows. */
  lemma DoubleStar(rest: string, s: string)
    requires forall i :: 0 <= i < |s| ==> s[i] != '*'
    ensures Matches("**" + rest, s)
  {
    if s != "" {
      DoubleStarScan("**" + rest, s, 0);
    }
  }

  lemma {:induction false} StarQuestionScan(r: string, ro: nat)
    requires ro <= |r|
    ensures StarScan("*?", r, 0, ro) <==> ro < |r| && r[|r| - 1] == '?'
    decreases |r| - ro
  {
    if ro < |r| {
      var w := "*?";
      assert w[1] == '?' && |w| == 2;
      ChrCmpNonLetter(r[ro], '?');
      StarQuestionScan(r, ro + 1);
      assert Match(w, r, 1, ro) <==> ro + 1 == |r|;
    }
  }

  /** A `?` right after `*` is looked for literally: `*?` matches the empty subject and those ending in `?`. */
  lemma StarQuestion(s: string)
    ensures Matches("*?", s) <==> s == "" || s[|s| - 1] == '?'
  {
    if s != "" {
      StarQuestionScan(s, 0);
    }
  }
}
