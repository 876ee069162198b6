/**
  How the matcher's single saved backtrack point relates to the language of a pattern.

  A pattern whose last token is an ordinary one, with a star before it, is accepted on a text
  exactly when the text is the *shortest* prefix of itself in the language; every other
  pattern is accepted exactly on its language.
 */
module GlobExactness {
  import opened Glob

  predicate EndsInStar(ts: seq<Token>) {
    ts != [] && ts[|ts| - 1] == Star
  }

  /** `s` is in the language and no proper prefix of it is. */
  ghost predicate Shortest(ts: seq<Token>, s: string, f: Flags) {
    && Matches(ts, s, f)
    && forall e | 0 <= e < |s| :: !Matches(ts, s[..e], f)
  }

  // ----- Facts about the language ----------------------------------------------------------

  lemma {:induction false} MatchStartsFitting(ts: seq<Token>, s: string, f: Flags)
    requires Matches(ts, s, f)
    ensures SegmentFits(ts, s, f)
  {
    if ts != [] && ts[0] != Star { MatchStartsFitting(ts[1..], s[1..], f); }
  }

  lemma StarAbsorbs(ts: seq<Token>, s: string, j: nat, f: Flags)
    requires j <= |s| && Matches(ts, s[j..], f)
    ensures Matches([Star] + ts, s, f)
  {
    assert ([Star] + ts)[1..] == ts;
  }

  lemma StarSplits(ts: seq<Token>, s: string, f: Flags) returns (j: nat)
    requires Matches([Star] + ts, s, f)
    ensures j <= |s| && Matches(ts, s[j..], f)
  {
    assert ([Star] + ts)[1..] == ts;
    j :| 0 <= j <= |s| && Matches(ts, s[j..], f);
  }

  /** If the first segment fits at the front, a match found further on can be pulled there. */
  lemma {:induction false} PullForward(ts: seq<Token>, s: string, j: nat, f: Flags)
    requires Star in ts && SegmentFits(ts, s, f)
    requires j <= |s| && Matches(ts, s[j..], f)
    ensures Matches(ts, s, f)
  {
    if ts[0] == Star {
      assert [Star] + ts[1..] == ts;
      var k := StarSplits(ts[1..], s[j..], f);
      assert s[j..][k..] == s[j + k..];
      StarAbsorbs(ts[1..], s, j + k, f);
    } else {
      assert s[j..][1..] == s[1..][j..];
      PullForward(ts[1..], s[1..], j, f);
    }
  }

  lemma {:induction false} FitsInPrefix(ts: seq<Token>, s: string, e: nat, f: Flags)
    requires e <= |s| && SegmentFits(ts, s, f) && SegmentLength(ts) <= e
    ensures SegmentFits(ts, s[..e], f)
  {
    if ts != [] && ts[0] != Star {
      assert s[..e][1..] == s[1..][..e - 1];
      FitsInPrefix(ts[1..], s[1..], e - 1, f);
    }
  }

  lemma {:induction false} PrefixFits(ts: seq<Token>, s: string, e: nat, f: Flags)
    requires e <= |s| && SegmentFits(ts, s[..e], f)
    ensures SegmentFits(ts, s, f)
  {
    if ts != [] && ts[0] != Star {
      assert s[..e][1..] == s[1..][..e - 1];
      PrefixFits(ts[1..], s[1..], e - 1, f);
    }
  }

  /** Without a star the language has one length, and fitting is matching. */
  lemma {:induction false} StarlessMatches(ts: seq<Token>, s: string, f: Flags)
    requires Star !in ts
    ensures Matches(ts, s, f) <==> SegmentFits(ts, s, f) && |s| == |ts|
    ensures Anchored(ts, s, f) <==> Matches(ts, s, f)
    ensures SegmentLength(ts) == |ts|
  {
    if ts != [] {
      StarlessMatches(ts[1..], if s == "" then s else s[1..], f);
    }
  }

  // ----- Star before the last token: shortest match ------------------------------------------

  lemma {:induction false} AnchoredIsShortest(ts: seq<Token>, s: string, f: Flags)
    requires Star in ts && !EndsInStar(ts)
    ensures Anchored(ts, s, f) <==> Shortest(ts, s, f)
    decreases |ts|, |s|, 0
  {
    if ts[0] == Star {
      assert [Star] + ts[1..] == ts;
      FloatingIsShortest(ts[1..], s, f);
    } else if s != "" && Fits(ts[0], s[0], f) {
      AnchoredIsShortest(ts[1..], s[1..], f);
      forall e | 0 < e <= |s|
        ensures Matches(ts, s[..e], f) <==> Matches(ts[1..], s[1..][..e - 1], f)
      {
        assert s[..e][1..] == s[1..][..e - 1];
      }
      assert s[..|s|] == s;
      if Shortest(ts, s, f) {
        forall e | 0 <= e < |s[1..]| ensures !Matches(ts[1..], s[1..][..e], f) {
          assert !Matches(ts, s[..e + 1], f);
        }
      }
    }
  }

  lemma {:induction false} FloatingIsShortest(ts: seq<Token>, s: string, f: Flags)
    requires ts != [] && !EndsInStar(ts)
    ensures Floating(ts, s, f) <==> Shortest([Star] + ts, s, f)
    decreases |ts|, |s|, 1
  {
    if !SegmentFits(ts, s, f) {
      if s != "" { FloatingIsShortest(ts, s[1..], f); }
      ShortestMovesOn(ts, s, f);
    } else if Star in ts {
      AnchoredIsShortest(ts, s, f);
      ShortestSettles(ts, s, f);
    } else {
      ShortestTail(ts, s, f);
    }
  }

  lemma MatchMovesOn(ts: seq<Token>, s: string, f: Flags)
    requires !SegmentFits(ts, s, f)
    ensures Matches([Star] + ts, s, f) <==> s != "" && Matches([Star] + ts, s[1..], f)
  {
    if Matches([Star] + ts, s, f) {
      var j := StarSplits(ts, s, f);
      if j == 0 { assert s[0..] == s; MatchStartsFitting(ts, s, f); assert false; }
      assert s[j..] == s[1..][j - 1..];
      StarAbsorbs(ts, s[1..], j - 1, f);
    } else if s != "" && Matches([Star] + ts, s[1..], f) {
      var j := StarSplits(ts, s[1..], f);
      assert s[1..][j..] == s[j + 1..];
      StarAbsorbs(ts, s, j + 1, f);
    }
  }

  lemma ShortestMovesOn(ts: seq<Token>, s: string, f: Flags)
    requires !SegmentFits(ts, s, f)
    ensures Shortest([Star] + ts, s, f) <==> s != "" && Shortest([Star] + ts, s[1..], f)
  {
    MatchMovesOn(ts, s, f);
    forall e | 0 <= e <= |s|
      ensures Matches([Star] + ts, s[..e], f) <==> e > 0 && Matches([Star] + ts, s[1..][..e - 1], f)
    {
      if SegmentFits(ts, s[..e], f) { PrefixFits(ts, s, e, f); }
      MatchMovesOn(ts, s[..e], f);
      if e > 0 { assert s[..e][1..] == s[1..][..e - 1]; }
    }
    if s != "" && Shortest([Star] + ts, s, f) {
      forall e | 0 <= e < |s[1..]| ensures !Matches([Star] + ts, s[1..][..e], f) {
        assert !Matches([Star] + ts, s[..e + 1], f);
      }
    }
  }

  /** When the segment fits here and a star follows, trying later positions gains nothing. */
  lemma ShortestSettles(ts: seq<Token>, s: string, f: Flags)
    requires Star in ts && SegmentFits(ts, s, f)
    ensures Shortest([Star] + ts, s, f) <==> Shortest(ts, s, f)
  {
    forall e | 0 <= e <= |s|
      ensures Matches([Star] + ts, s[..e], f) <==> Matches(ts, s[..e], f)
    {
      var t := s[..e];
      if Matches([Star] + ts, t, f) {
        var j := StarSplits(ts, t, f);
        MatchStartsFitting(ts, t[j..], f);
        FitsNeedsRoom(ts, t[j..], f);
        FitsInPrefix(ts, s, e, f);
        PullForward(ts, t, j, f);
      } else if Matches(ts, t, f) {
        assert t[0..] == t;
        StarAbsorbs(ts, t, 0, f);
      }
    }
    assert s[..|s|] == s;
  }

  /** The last segment fits here: the text is accepted only if it ends with it. */
  lemma ShortestTail(ts: seq<Token>, s: string, f: Flags)
    requires ts != [] && Star !in ts && SegmentFits(ts, s, f)
    ensures Anchored(ts, s, f) <==> Shortest([Star] + ts, s, f)
  {
    StarlessMatches(ts, s, f);
    FitsNeedsRoom(ts, s, f);
    FitsInPrefix(ts, s, |ts|, f);
    StarlessMatches(ts, s[..|ts|], f);
    assert s[..|ts|][0..] == s[..|ts|];
    StarAbsorbs(ts, s[..|ts|], 0, f);
    if |s| == |ts| {
      assert s[..|ts|] == s;
      forall e | 0 <= e < |s| ensures !Matches([Star] + ts, s[..e], f) {
        if Matches([Star] + ts, s[..e], f) {
          var j := StarSplits(ts, s[..e], f);
          StarlessMatches(ts, s[..e][j..], f);
        }
      }
    }
  }

  // ----- Star at the end ---------------------------------------------------------------------

  lemma {:induction false} StarEndedIsExact(ts: seq<Token>, s: string, f: Flags)
    requires EndsInStar(ts)
    ensures Anchored(ts, s, f) <==> Matches(ts, s, f)
    decreases |ts|, |s|, 0
  {
    if ts[0] == Star {
      assert [Star] + ts[1..] == ts;
      FloatingStarEndedIsExact(ts[1..], s, f);
    } else if s != "" {
      StarEndedIsExact(ts[1..], s[1..], f);
    }
  }

  lemma {:induction false} FloatingStarEndedIsExact(ts: seq<Token>, s: string, f: Flags)
    requires ts == [] || EndsInStar(ts)
    ensures Floating(ts, s, f) <==> Matches([Star] + ts, s, f)
    decreases |ts|, |s|, 1
  {
    if ts == [] {
      assert s[|s|..] == "";
      StarAbsorbs(ts, s, |s|, f);
    } else if !SegmentFits(ts, s, f) {
      if s != "" { FloatingStarEndedIsExact(ts, s[1..], f); }
      MatchMovesOn(ts, s, f);
    } else {
      StarEndedIsExact(ts, s, f);
      assert s[0..] == s;
      if Matches(ts, s, f) { StarAbsorbs(ts, s, 0, f); }
      if Matches([Star] + ts, s, f) {
        var j := StarSplits(ts, s, f);
        PullForward(ts, s, j, f);
      }
    }
  }

  // ----- The three results -------------------------------------------------------------------

  /** Whatever the matcher accepts is in the language. */
  lemma Sound(ts: seq<Token>, s: string, f: Flags)
    requires Anchored(ts, s, f)
    ensures Matches(ts, s, f)
  {
    if Star !in ts { StarlessMatches(ts, s, f); }
    else if EndsInStar(ts) { StarEndedIsExact(ts, s, f); }
    else { AnchoredIsShortest(ts, s, f); }
  }

  /** Patterns for which one saved backtrack point is enough on every text. */
  predicate OnePointSuffices(ts: seq<Token>) {
    Star !in ts || EndsInStar(ts) || Dangling in ts
  }

  lemma {:induction false} DanglingMatchesNothing(ts: seq<Token>, s: string, f: Flags)
    requires Dangling in ts
    ensures !Matches(ts, s, f)
  {
    if Matches(ts, s, f) {
      if ts[0] == Star {
        assert [Star] + ts[1..] == ts;
        var j := StarSplits(ts[1..], s, f);
        DanglingMatchesNothing(ts[1..], s[j..], f);
      } else {
        DanglingMatchesNothing(ts[1..], s[1..], f);
      }
    }
  }

  /** A text that meets every token once. */
  function Fill(ts: seq<Token>): string {
    if ts == [] then ""
    else (match ts[0] case Lit(c) => [c] case Any => "x" case _ => "") + Fill(ts[1..])
  }

  /** The same text with the part after the last star repeated. */
  function FillTwice(ts: seq<Token>): string
    requires Star in ts
  {
    if ts[0] == Star && Star !in ts[1..] then Fill(ts[1..]) + Fill(ts[1..])
    else (match ts[0] case Lit(c) => [c] case Any => "x" case _ => "") + FillTwice(ts[1..])
  }

  lemma {:induction false} FillMatches(ts: seq<Token>, f: Flags)
    requires Dangling !in ts && Bracket !in ts
    ensures Matches(ts, Fill(ts), f)
  {
    if ts != [] {
      FillMatches(ts[1..], f);
      if ts[0] == Star {
        assert Fill(ts)[0..] == Fill(ts[1..]);
      } else {
        assert Fill(ts)[1..] == Fill(ts[1..]);
      }
    }
  }

  lemma {:induction false} FillTwiceMatches(ts: seq<Token>, f: Flags)
    requires Dangling !in ts && Bracket !in ts && Star in ts && !EndsInStar(ts)
    ensures Matches(ts, FillTwice(ts), f)
    ensures |Fill(ts)| < |FillTwice(ts)| && FillTwice(ts)[..|Fill(ts)|] == Fill(ts)
  {
    var once := Fill(ts[1..]);
    if ts[0] == Star && Star !in ts[1..] {
      FillMatches(ts[1..], f);
      assert FillTwice(ts)[|once|..] == once;
      assert ts[1] != Star && once != "";
    } else {
      FillTwiceMatches(ts[1..], f);
      var twice := FillTwice(ts[1..]);
      if ts[0] == Star {
        assert FillTwice(ts)[0..] == twice;
      } else {
        assert FillTwice(ts)[1..] == twice;
        assert FillTwice(ts)[..|Fill(ts)|][1..] == twice[..|once|];
      }
    }
  }

  /**
    The matcher agrees with the language on every text exactly for the patterns without a
    star, the patterns ending in a star, and those that end in a lone backslash.
   */
  lemma WhenOnePointSuffices(ts: seq<Token>, f: Flags)
    requires Bracket !in ts
    ensures (forall s :: Anchored(ts, s, f) <==> Matches(ts, s, f)) <==> OnePointSuffices(ts)
  {
    if OnePointSuffices(ts) {
      forall s ensures Anchored(ts, s, f) <==> Matches(ts, s, f) {
        if Star !in ts { StarlessMatches(ts, s, f); }
        else if EndsInStar(ts) { StarEndedIsExact(ts, s, f); }
        else if Anchored(ts, s, f) { Sound(ts, s, f); }
        else { DanglingMatchesNothing(ts, s, f); }
      }
    } else {
      var s := FillTwice(ts);
      FillMatches(ts, f);
      FillTwiceMatches(ts, f);
      AnchoredIsShortest(ts, s, f);
      assert Matches(ts, s[..|Fill(ts)|], f);
      assert !(Anchored(ts, s, f) <==> Matches(ts, s, f));
    }
  }

  /** The smallest miss: "*a" does not accept "aa", which is in its language. */
  lemma MissedMatch(f: Flags)
    ensures Tokens("*a", f) == [Star, Lit('a')]
    ensures Matches(Tokens("*a", f), "aa", f) && !Anchored(Tokens("*a", f), "aa", f)
  {
    assert "*a"[1..] == "a" && "a"[1..] == "";
    assert Tokens("a", f) == [Lit('a')] + Tokens("", f);
    assert Tokens("*a", f) == [Star] + Tokens("a", f);
    var ts := [Star, Lit('a')];
    assert ts[1..] == [Lit('a')];
    assert "aa"[1..] == "a";
    assert Matches([Lit('a')], "aa"[1..], f);
    assert SegmentFits([Lit('a')], "aa", f);
    assert !Anchored([Lit('a')], "aa", f);
  }

  // ----- Texts as patterns -------------------------------------------------------------------

  /** Equal, or equal but for the case of letters where the flags say so. */
  predicate Alike(s: string, t: string, f: Flags) {
    |s| == |t| && forall i :: 0 <= i < |s| ==> s[i] == t[i] || (f.caseFold && ToLower(s[i]) == ToLower(t[i]))
  }

  function Escaped(s: string): string {
    if s == "" then "" else ['\\', s[0]] + Escaped(s[1..])
  }

  lemma AlikeFirst(s: string, t: string, f: Flags)
    requires s != ""
    ensures Alike(s, t, f) <==> t != "" && Fits(Lit(s[0]), t[0], f) && Alike(s[1..], t[1..], f)
  {
    if t != "" && Fits(Lit(s[0]), t[0], f) && Alike(s[1..], t[1..], f) {
      forall i | 0 <= i < |s| ensures s[i] == t[i] || (f.caseFold && ToLower(s[i]) == ToLower(t[i])) {
        if i > 0 { assert s[1..][i - 1] == s[i] && t[1..][i - 1] == t[i]; }
      }
    }
    if Alike(s, t, f) {
      forall i | 0 <= i < |s| - 1
        ensures s[1..][i] == t[1..][i] || (f.caseFold && ToLower(s[1..][i]) == ToLower(t[1..][i]))
      {
        assert s[1..][i] == s[i + 1] && t[1..][i] == t[i + 1];
      }
    }
  }

  /** A backslash before every character takes all meaning from it: the pattern accepts that text only. */
  lemma {:induction false} EscapedText(s: string, t: string, f: Flags)
    requires !f.noEscape
    ensures Bracket !in Tokens(Escaped(s), f) && (Anchored(Tokens(Escaped(s), f), t, f) <==> Alike(s, t, f))
  {
    hide Alike, Fits;
    if s == "" {
      AlikeNone(t, f);
    } else {
      var p := Escaped(s);
      assert p[2..] == Escaped(s[1..]);
      EscapedText(s[1..], "", f);
      if t != "" { EscapedText(s[1..], t[1..], f); }
      AlikeFirst(s, t, f);
    }
  }

  lemma AlikeNone(t: string, f: Flags)
    ensures Alike("", t, f) <==> t == ""
  {}

  /** A text without special characters is accepted as itself. */
  lemma {:induction false} PlainText(s: string, t: string, f: Flags)
    requires forall c :: c in s ==> c != '?' && c != '*' && c != '[' && (c == '\\' ==> f.noEscape)
    ensures Bracket !in Tokens(s, f) && (Anchored(Tokens(s, f), t, f) <==> Alike(s, t, f))
  {
    hide Alike, Fits;
    if s == "" {
      AlikeNone(t, f);
    } else {
      assert s[0] in s && forall c :: c in s[1..] ==> c in s;
      PlainText(s[1..], "", f);
      if t != "" { PlainText(s[1..], t[1..], f); }
      AlikeFirst(s, t, f);
    }
  }

  /** Question marks accept the texts of their number; a star accepts every text. */
  lemma {:induction false} Wildcards(n: nat, t: string, f: Flags)
    ensures Anchored(Tokens(seq(n, _ => '?'), f), t, f) <==> |t| == n
    ensures Anchored(Tokens("*", f), t, f)
  {
    var p := seq(n, _ => '?');
    if n > 0 {
      assert p[1..] == seq(n - 1, _ => '?');
      if t != "" { Wildcards(n - 1, t[1..], f); }
    }
    assert "*"[1..] == "";
    assert Tokens("*", f) == [Star];
  }
}
