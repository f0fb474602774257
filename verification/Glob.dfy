/**
 The glob matcher behind Xaccess patterns and macro names (xdm/access.c).

 `Scan` is the matcher as the code runs it, `Glob` is the relation the manual describes.
 C strings are sequences here: the end of the sequence plays the part of the NUL.
 */
module Globbing {

  /** `Overrun` marks the runs in which the C code reads past the NUL of the pattern. */
  datatype Verdict = Match | NoMatch | Overrun

  function Fold(c: char): char {
    if 'A' <= c <= 'Z' then c - 'A' + 'a' else c
  }

  // ---------------------------------------------------------------- the code

  function Scan(s: string, p: string): Verdict
    decreases |p|, |s|, 0
  {
    if p == "" then
      if s == "" then Match else NoMatch
    else if p[0] == '*' then
      if |p| == 1 then Match else ScanStar(s, p[1..])
    else if p[0] == '?' then
      if s == "" then NoMatch else Scan(s[1..], p[1..])
    else if p[0] == '\\' then
      if |p| == 1 then
        if s == "" then Overrun else NoMatch
      else if s == "" || Fold(s[0]) != Fold(p[1]) then NoMatch
      else Scan(s[1..], p[2..])
    else if s == "" || Fold(s[0]) != Fold(p[0]) then NoMatch
    else Scan(s[1..], p[1..])
  }

  /** The loop run for a `*`: the rest of the pattern is tried on every non-empty suffix. */
  function ScanStar(s: string, p: string): Verdict
    decreases |p|, |s|, 1
  {
    if s == "" then NoMatch
    else
      var v := Scan(s, p);
      if v != NoMatch then v else ScanStar(s[1..], p)
  }

  method PatternMatch(str: string, pattern: string) returns (v: Verdict)
    ensures v == Scan(str, pattern)
    decreases |pattern|
  {
    var s, p := 0, 0;
    while true
      invariant 0 <= s <= |str| && 0 <= p <= |pattern|
      invariant Scan(str, pattern) == Scan(str[s..], pattern[p..])
      decreases |pattern| - p
    {
      if p == |pattern| {
        return if s == |str| then Match else NoMatch;
      }
      var c := pattern[p];
      p := p + 1;
      if c == '*' {
        if p == |pattern| {
          return Match;
        }
        while s < |str|
          invariant 0 <= s <= |str|
          invariant Scan(str, pattern) == ScanStar(str[s..], pattern[p..])
        {
          v := PatternMatch(str[s..], pattern[p..]);
          if v != NoMatch {
            return;
          }
          assert str[s..][1..] == str[s + 1..];
          s := s + 1;
        }
        return NoMatch;
      }
      if c == '?' {
        if s == |str| {
          return NoMatch;
        }
      } else {
        if c == '\\' {
          if p == |pattern| {
            return if s == |str| then Overrun else NoMatch;
          }
          c := pattern[p];
          p := p + 1;
        }
        if s == |str| || Fold(c) != Fold(str[s]) {
          return NoMatch;
        }
      }
      assert str[s..][1..] == str[s + 1..];
      s := s + 1;
    }
  }

  // ------------------------------------------------------- the documented relation

  datatype Token = Star | AnyOne | Literal(c: char)

  function Tokens(p: string): seq<Token> {
    if p == "" then []
    else if p[0] == '*' then [Star] + Tokens(p[1..])
    else if p[0] == '?' then [AnyOne] + Tokens(p[1..])
    else if p[0] == '\\' then
      if |p| == 1 then [] else [Literal(p[1])] + Tokens(p[2..])
    else [Literal(p[0])] + Tokens(p[1..])
  }

  predicate LoneBackslash(p: string) {
    if p == "" then false
    else if p[0] == '\\' then |p| == 1 || LoneBackslash(p[2..])
    else LoneBackslash(p[1..])
  }

  /** The same character, or the two cases of a letter, as the C locale has them. */
  predicate SameLetter(a: char, b: char) {
    || a == b
    || ('A' <= a <= 'Z' && b as int == a as int + 32)
    || ('A' <= b <= 'Z' && a as int == b as int + 32)
  }

  lemma FoldExactly(a: char, b: char)
    ensures Fold(a) == Fold(b) <==> SameLetter(a, b)
  {
  }

  /** `?` stands for one character, `*` for any run of characters, case does not matter. */
  ghost predicate Glob(s: string, t: seq<Token>) {
    if t == [] then s == ""
    else match t[0]
      case Star => exists k :: 0 <= k <= |s| && Glob(s[k..], t[1..])
      case AnyOne => s != "" && Glob(s[1..], t[1..])
      case Literal(c) => s != "" && SameLetter(s[0], c) && Glob(s[1..], t[1..])
  }

  /** What the code decides: a `*` that is not last must leave something to match. */
  ghost predicate StrictGlob(s: string, t: seq<Token>) {
    if t == [] then s == ""
    else match t[0]
      case Star => |t| == 1 || exists k :: 0 <= k < |s| && StrictGlob(s[k..], t[1..])
      case AnyOne => s != "" && StrictGlob(s[1..], t[1..])
      case Literal(c) => s != "" && SameLetter(s[0], c) && StrictGlob(s[1..], t[1..])
  }

  predicate EndsInTwoStars(t: seq<Token>) {
    |t| >= 2 && t[|t| - 1] == Star && t[|t| - 2] == Star
  }

  lemma {:induction false} ScanDecidesStrictGlob(s: string, p: string)
    requires !LoneBackslash(p)
    ensures Scan(s, p) != Overrun
    ensures Scan(s, p) == Match <==> StrictGlob(s, Tokens(p))
    decreases |p|, |s|, 0
  {
    if p != "" && p[0] == '*' {
      assert Tokens(p)[1..] == Tokens(p[1..]);
      if |p| > 1 {
        StarTriesEverySuffix(s, p[1..]);
        TokensNonEmpty(p[1..]);
      }
    } else if p != "" && s != "" {
      var step := if p[0] == '\\' then 2 else 1;
      assert Tokens(p)[1..] == Tokens(p[step..]);
      FoldExactly(s[0], p[step - 1]);
      ScanDecidesStrictGlob(s[1..], p[step..]);
    }
  }

  lemma {:induction false} StarTriesEverySuffix(s: string, p: string)
    requires !LoneBackslash(p)
    ensures ScanStar(s, p) != Overrun
    ensures ScanStar(s, p) == Match <==> exists k :: 0 <= k < |s| && StrictGlob(s[k..], Tokens(p))
    decreases |p|, |s|, 1
  {
    if s != "" {
      ScanDecidesStrictGlob(s, p);
      StarTriesEverySuffix(s[1..], p);
      assert s[0..] == s;
      assert forall k :: 0 <= k < |s[1..]| ==> s[1..][k..] == s[k + 1..];
      if k :| 0 <= k < |s| && StrictGlob(s[k..], Tokens(p)) {
        assert k > 0 ==> s[1..][k - 1..] == s[k..];
      }
    }
  }

  lemma TokensNonEmpty(p: string)
    requires p != "" && !LoneBackslash(p)
    ensures Tokens(p) != []
  {
  }

  lemma {:induction false} StrictImpliesGlob(s: string, t: seq<Token>)
    requires StrictGlob(s, t)
    ensures Glob(s, t)
  {
    if t != [] {
      if t[0] == Star {
        var k := if |t| == 1 then |s| else var k :| 0 <= k < |s| && StrictGlob(s[k..], t[1..]); k;
        StrictImpliesGlob(s[k..], t[1..]);
      } else {
        StrictImpliesGlob(s[1..], t[1..]);
      }
    }
  }

  lemma {:induction false} EmptyNeedsStars(t: seq<Token>, i: nat)
    requires Glob("", t) && i < |t|
    ensures t[i] == Star
  {
    if t[0] == Star && i > 0 {
      var k :| 0 <= k <= 0 && Glob(""[k..], t[1..]);
      assert ""[k..] == "";
      EmptyNeedsStars(t[1..], i - 1);
    }
  }

  lemma {:induction false} GlobImpliesStrict(s: string, t: seq<Token>)
    requires Glob(s, t) && !EndsInTwoStars(t)
    ensures StrictGlob(s, t)
  {
    if t != [] {
      var rest := t[1..];
      assert !EndsInTwoStars(rest);
      if t[0] == Star {
        if rest != [] {
          var k :| 0 <= k <= |s| && Glob(s[k..], rest);
          if k == |s| {
            EmptyNeedsStars(rest, |rest| - 1);
            if |rest| > 1 {
              EmptyNeedsStars(rest, |rest| - 2);
            }
            assert false;
          }
          GlobImpliesStrict(s[k..], rest);
        }
      } else {
        GlobImpliesStrict(s[1..], rest);
      }
    }
  }

  /** The shortest string a token list describes. */
  function Shortest(t: seq<Token>): (s: string) {
    if t == [] then ""
    else match t[0]
      case Star => Shortest(t[1..])
      case AnyOne => "x" + Shortest(t[1..])
      case Literal(c) => [c] + Shortest(t[1..])
  }

  lemma {:induction false} ShortestIsDescribed(t: seq<Token>)
    ensures Glob(Shortest(t), t)
  {
    if t != [] {
      var s := Shortest(t);
      ShortestIsDescribed(t[1..]);
      if t[0] == Star {
        assert s[0..] == Shortest(t[1..]);
      } else {
        assert s[1..] == Shortest(t[1..]);
      }
    }
  }

  lemma {:induction false} TwoStarsNeedACharacter(s: string, t: seq<Token>)
    requires EndsInTwoStars(t) && StrictGlob(s, t)
    ensures |s| > |Shortest(t)|
  {
    if t[0] == Star {
      var k :| 0 <= k < |s| && StrictGlob(s[k..], t[1..]);
      if |t| == 2 {
        assert Shortest(t[1..]) == Shortest(t[1..][1..]) == "";
      } else {
        TwoStarsNeedACharacter(s[k..], t[1..]);
      }
    } else {
      assert |t| > 2;
      TwoStarsNeedACharacter(s[1..], t[1..]);
    }
  }

  /** Every positive answer is right, whatever the pattern (with no trailing lone backslash). */
  lemma MatcherIsSound(s: string, p: string)
    requires !LoneBackslash(p) && Scan(s, p) == Match
    ensures Glob(s, Tokens(p))
  {
    ScanDecidesStrictGlob(s, p);
    StrictImpliesGlob(s, Tokens(p));
  }

  /**
   The matcher is the documented relation for exactly the patterns that do not end in two
   adjacent unescaped stars; two stars in the middle of a pattern do no harm.
   */
  lemma MatcherIsCompleteExactly(p: string)
    requires !LoneBackslash(p)
    ensures (forall s :: Scan(s, p) == Match <==> Glob(s, Tokens(p))) <==> !EndsInTwoStars(Tokens(p))
  {
    var t := Tokens(p);
    if EndsInTwoStars(t) {
      ShortestIsDescribed(t);
      ScanDecidesStrictGlob(Shortest(t), p);
      if StrictGlob(Shortest(t), t) {
        TwoStarsNeedACharacter(Shortest(t), t);
      }
    } else {
      forall s ensures Scan(s, p) == Match <==> Glob(s, t) {
        ScanDecidesStrictGlob(s, p);
        if StrictGlob(s, t) {
          StrictImpliesGlob(s, t);
        }
        if Glob(s, t) {
          GlobImpliesStrict(s, t);
        }
      }
    }
  }

  /** Names that differ in case alone are treated alike, whatever the pattern. */
  lemma {:induction false} CaseIsIgnored(s: string, t: string, p: string)
    requires |s| == |t| && forall i :: 0 <= i < |s| ==> SameLetter(s[i], t[i])
    ensures Scan(s, p) == Scan(t, p) && ScanStar(s, p) == ScanStar(t, p)
    decreases |p|, |s|
  {
    hide SameLetter, Fold;
    if p != "" {
      CaseIsIgnored(s, t, p[1..]);
      if s != "" {
        FoldExactly(s[0], t[0]);
        CaseIsIgnored(s[1..], t[1..], p[1..]);
        if |p| > 1 {
          CaseIsIgnored(s[1..], t[1..], p[2..]);
        }
      }
    }
    if s != "" {
      CaseIsIgnored(s[1..], t[1..], p);
    }
  }

  // ----------------------------------------------------- the read past the pattern

  /** One character per token: long enough to lead the code to the lone backslash. */
  function Padded(t: seq<Token>): (s: string)
    ensures |s| == |t|
  {
    if t == [] then ""
    else [if t[0].Literal? then t[0].c else 'x'] + Padded(t[1..])
  }

  predicate LastIsStar(t: seq<Token>) {
    t != [] && t[|t| - 1] == Star
  }

  lemma {:induction false} LoneBackslashNeverMatches(s: string, p: string)
    requires LoneBackslash(p)
    ensures Scan(s, p) != Match && ScanStar(s, p) != Match
    decreases |p|, |s|
  {
    if p[0] == '*' {
      LoneBackslashNeverMatches(s, p[1..]);
    } else if s != "" && !(p[0] == '\\' && |p| == 1) {
      LoneBackslashNeverMatches(s[1..], p[if p[0] == '\\' then 2 else 1..]);
    }
    if s != "" {
      LoneBackslashNeverMatches(s[1..], p);
    }
  }

  lemma {:induction false} PaddedOverruns(p: string)
    requires LoneBackslash(p) && !LastIsStar(Tokens(p))
    ensures Scan(Padded(Tokens(p)), p) == Overrun
  {
    var t := Tokens(p);
    if t != [] {
      var step := if p[0] == '\\' then 2 else 1;
      var rest := p[step..];
      var s := Padded(t);
      assert t[1..] == Tokens(rest) && s[1..] == Padded(Tokens(rest));
      assert Tokens(rest) != [] ==> t[|t| - 1] == Tokens(rest)[|Tokens(rest)| - 1];
      PaddedOverruns(rest);
      if t[0] == Star {
        assert ScanStar(s[1..], rest) == Overrun;
        LoneBackslashNeverMatches(s, rest);
      }
    }
  }

  lemma {:induction false} OverrunHasCause(s: string, p: string)
    requires Scan(s, p) == Overrun
    ensures LoneBackslash(p) && !LastIsStar(Tokens(p))
    ensures s != "" ==> Tokens(p) != []
    decreases |p|, |s|, 0
  {
    if p[0] == '*' {
      StarOverrunHasCause(s, p[1..]);
      assert Tokens(p) == [Star] + Tokens(p[1..]);
    } else if |p| > 1 || p[0] != '\\' {
      var rest := p[if p[0] == '\\' then 2 else 1..];
      OverrunHasCause(s[1..], rest);
      assert Tokens(p)[1..] == Tokens(rest);
    }
  }

  lemma {:induction false} StarOverrunHasCause(s: string, p: string)
    requires ScanStar(s, p) == Overrun
    ensures LoneBackslash(p) && !LastIsStar(Tokens(p)) && Tokens(p) != []
    decreases |p|, |s|, 1
  {
    if Scan(s, p) == Overrun {
      OverrunHasCause(s, p);
    } else {
      StarOverrunHasCause(s[1..], p);
    }
  }

  /** Some string makes the code read past the pattern exactly for these patterns. */
  lemma OverrunExactly(p: string)
    ensures (exists s :: Scan(s, p) == Overrun) <==> LoneBackslash(p) && !LastIsStar(Tokens(p))
  {
    if s :| Scan(s, p) == Overrun {
      OverrunHasCause(s, p);
    }
    if LoneBackslash(p) && !LastIsStar(Tokens(p)) {
      PaddedOverruns(p);
    }
  }
}
