/**
  The shell-pattern matcher of the kernel's C library (src/compat5.c), without FNM_PATHNAME
  and without bracket expressions.

  Patterns are read as token lists.  `Matches` is the language POSIX gives a token list;
  `Anchored`/`Floating` describe what a matcher with a single saved backtrack point accepts.
 */
module Glob {

  datatype Flags = Flags(noEscape: bool, caseFold: bool)

  datatype Token =
    | Lit(c: char)
    | Any
    | Star
    | Dangling  // a backslash that ends the pattern: no text matches it
    | Bracket   // the start of a bracket expression, not modelled further

  function ToLower(c: char): char {
    if 'A' <= c <= 'Z' then c + ' ' else c
  }

  /** The 26 capitals fold to their small letters, and nothing else changes. */
  lemma FoldsLetters(c: char, i: nat)
    requires i < 26
    ensures c == Capital(i) ==> ToLower(c) == 'a' + i as char
    ensures ToLower(c) != c <==> exists j: nat :: j < 26 && c == Capital(j)
  {
    if ToLower(c) != c { assert c == Capital((c - 'A') as nat); }
  }

  function Capital(i: nat): char
    requires i < 26
  {
    'A' + i as char
  }

  /** One non-star token against one character. */
  predicate Fits(t: Token, c: char, f: Flags) {
    match t
    case Lit(p) => p == c || (f.caseFold && ToLower(p) == ToLower(c))
    case Any => true
    case Star => false
    case Dangling => false
    case Bracket => false
  }

  // ----- Reading a pattern ---------------------------------------------------------------

  function Tokens(p: string, f: Flags): (ts: seq<Token>) {
    if p == "" then []
    else if p[0] == '?' then [Any] + Tokens(p[1..], f)
    else if p[0] == '*' then [Star] + Tokens(p[1..], f)
    else if p[0] == '[' then [Bracket] + Tokens(p[1..], f)
    else if p[0] == '\\' && !f.noEscape then
      if |p| == 1 then [Dangling] else [Lit(p[1])] + Tokens(p[2..], f)
    else [Lit(p[0])] + Tokens(p[1..], f)
  }

  // ----- The language of a pattern -------------------------------------------------------

  ghost predicate Matches(ts: seq<Token>, s: string, f: Flags)
    decreases |ts|
  {
    if ts == [] then s == ""
    else if ts[0] == Star then exists j :: 0 <= j <= |s| && Matches(ts[1..], s[j..], f)
    else s != "" && Fits(ts[0], s[0], f) && Matches(ts[1..], s[1..], f)
  }

  // ----- What one saved backtrack point accepts ------------------------------------------

  /** The tokens up to the next star fit the start of `s`. */
  predicate SegmentFits(ts: seq<Token>, s: string, f: Flags) {
    ts == [] || ts[0] == Star ||
    (s != "" && Fits(ts[0], s[0], f) && SegmentFits(ts[1..], s[1..], f))
  }

  /** Acceptance when the next segment must start here. */
  predicate Anchored(ts: seq<Token>, s: string, f: Flags)
    decreases |ts|, |s|, 0
  {
    if ts == [] then s == ""
    else if ts[0] == Star then Floating(ts[1..], s, f)
    else s != "" && Fits(ts[0], s[0], f) && Anchored(ts[1..], s[1..], f)
  }

  /** Acceptance when the next segment is placed at the first position it fits. */
  predicate Floating(ts: seq<Token>, s: string, f: Flags)
    decreases |ts|, |s|, 1
  {
    if ts == [] then true
    else if SegmentFits(ts, s, f) then Anchored(ts, s, f)
    else s != "" && Floating(ts, s[1..], f)
  }

  // ----- The matcher ---------------------------------------------------------------------

  /** How many tokens lie before the next star. */
  function SegmentLength(ts: seq<Token>): (n: nat)
    ensures n <= |ts|
  {
    if ts == [] || ts[0] == Star then 0 else 1 + SegmentLength(ts[1..])
  }

  lemma {:induction false} FitsNeedsRoom(ts: seq<Token>, s: string, f: Flags)
    requires SegmentFits(ts, s, f)
    ensures SegmentLength(ts) <= |s|
  {
    if ts != [] && ts[0] != Star {
      FitsNeedsRoom(ts[1..], s[1..], f);
    }
  }

  lemma {:induction false} NoRoomNoMatch(ts: seq<Token>, s: string, f: Flags)
    requires ts != [] && SegmentLength(ts) > |s|
    ensures !Floating(ts, s, f)
    decreases |s|
  {
    if SegmentFits(ts, s, f) { FitsNeedsRoom(ts, s, f); }
    if s != "" { NoRoomNoMatch(ts, s[1..], f); }
  }

  predicate DanglingSegment(ts: seq<Token>) {
    ts != [] && ts[0] != Star && (ts[0] == Dangling || DanglingSegment(ts[1..]))
  }

  lemma {:induction false} DanglingNeverFits(ts: seq<Token>, s: string, f: Flags)
    requires DanglingSegment(ts)
    ensures !SegmentFits(ts, s, f)
  {
    if ts[0] != Dangling && s != "" { DanglingNeverFits(ts[1..], s[1..], f); }
  }

  lemma {:induction false} DanglingNeverMatches(ts: seq<Token>, s: string, f: Flags)
    requires DanglingSegment(ts)
    ensures !Floating(ts, s, f)
    decreases |s|
  {
    DanglingNeverFits(ts, s, f);
    if s != "" { DanglingNeverMatches(ts, s[1..], f); }
  }

  /**
    Where the matcher stands: `rest` is still to be matched at `s`, and the answer for the
    whole pattern is the answer from here.  With a saved point, `btoks` is the pattern after
    the last star, tried at `bs`; the tokens between it and `rest` have fitted so far.
   */
  ghost predicate OnTrack(answer: bool, saved: bool, btoks: seq<Token>, bs: nat,
                          rest: seq<Token>, s: nat, text: string, f: Flags)
  {
    && bs <= |text| && s <= |text|
    && (!saved ==> answer == Anchored(rest, text[s..], f))
    && (saved ==>
          && btoks != [] && btoks[0] != Star
          && answer == Floating(btoks, text[bs..], f)
          && bs <= s
          && SegmentLength(btoks) == s - bs + SegmentLength(rest)
          && SegmentFits(btoks, text[bs..], f) == SegmentFits(rest, text[s..], f)
          && (SegmentFits(rest, text[s..], f) ==>
                Anchored(btoks, text[bs..], f) == Anchored(rest, text[s..], f))
          && (DanglingSegment(rest) ==> DanglingSegment(btoks)))
  }

  lemma Start(pat: string, text: string, f: Flags)
    ensures OnTrack(Anchored(Tokens(pat, f), text, f), false, Tokens(pat, f), 0, Tokens(pat, f), 0, text, f)
  {
    assert text[0..] == text;
  }

  lemma Save(answer: bool, ts: seq<Token>, s: nat, text: string, f: Flags)
    requires s <= |text| && ts != [] && ts[0] != Star && answer == Floating(ts, text[s..], f)
    ensures OnTrack(answer, true, ts, s, ts, s, text, f)
  {}

  lemma AtEnd(answer: bool, saved: bool, btoks: seq<Token>, bs: nat, s: nat, text: string, f: Flags)
    requires OnTrack(answer, saved, btoks, bs, [], s, text, f)
    ensures answer == (s == |text|)
  {}

  lemma StepFits(answer: bool, saved: bool, btoks: seq<Token>, bs: nat, ts: seq<Token>, s: nat, text: string, f: Flags)
    requires OnTrack(answer, saved, btoks, bs, ts, s, text, f)
    requires s < |text| && ts != [] && ts[0] != Star && Fits(ts[0], text[s], f)
    ensures OnTrack(answer, saved, btoks, bs, ts[1..], s + 1, text, f)
  {
    assert text[s..][1..] == text[s + 1..];
  }

  lemma StepFails(answer: bool, saved: bool, btoks: seq<Token>, bs: nat, ts: seq<Token>, s: nat, text: string, f: Flags)
    requires OnTrack(answer, saved, btoks, bs, ts, s, text, f)
    requires ts != [] && ts[0] != Star && (s < |text| ==> !Fits(ts[0], text[s], f))
    ensures !saved || bs == |text| ==> !answer
    ensures saved && bs < |text| ==> OnTrack(answer, saved, btoks, bs + 1, btoks, bs + 1, text, f)
  {
    if saved && bs < |text| { assert text[bs..][1..] == text[bs + 1..]; }
  }

  /** Out of text with a token left: moving the saved point on can only leave less text. */
  lemma StepExhausted(answer: bool, saved: bool, btoks: seq<Token>, bs: nat, ts: seq<Token>, text: string, f: Flags)
    requires OnTrack(answer, saved, btoks, bs, ts, |text|, text, f)
    requires ts != [] && ts[0] != Star
    ensures !answer
  {
    if saved { NoRoomNoMatch(btoks, text[bs..], f); }
  }

  lemma StepDangling(answer: bool, saved: bool, btoks: seq<Token>, bs: nat, s: nat, text: string, f: Flags)
    requires OnTrack(answer, saved, btoks, bs, [Dangling], s, text, f)
    ensures !answer
  {
    if saved { DanglingNeverMatches(btoks, text[bs..], f); }
  }

  lemma StepStar(answer: bool, saved: bool, btoks: seq<Token>, bs: nat, ts: seq<Token>, s: nat, text: string, f: Flags)
    requires OnTrack(answer, saved, btoks, bs, ts, s, text, f)
    requires ts != [] && ts[0] == Star
    ensures answer == Floating(ts[1..], text[s..], f)
  {}

  /** Reading one token off the pattern at position `p`. */
  lemma NextToken(pat: string, p: nat, f: Flags)
    requires p <= |pat|
    ensures p == |pat| <==> Tokens(pat[p..], f) == []
    ensures var ts := Tokens(pat[p..], f);
            if p == |pat| then true
            else if pat[p] == '\\' && !f.noEscape then
              if p + 1 == |pat| then ts == [Dangling]
              else ts[0] == Lit(pat[p + 1]) && ts[1..] == Tokens(pat[p + 2..], f)
            else
              && ts[0] == (if pat[p] == '*' then Star else if pat[p] == '?' then Any
                           else if pat[p] == '[' then Bracket else Lit(pat[p]))
              && ts[1..] == Tokens(pat[p + 1..], f)
  {
    if p < |pat| { assert pat[p..][1..] == pat[p + 1..]; }
    if p + 1 < |pat| { assert pat[p..][2..] == pat[p + 2..]; }
  }

  lemma FitsLit(pc: char, text: string, s: nat, f: Flags)
    ensures s < |text| ==>
              (Fits(Lit(pc), text[s], f) <==> pc == text[s] || (f.caseFold && ToLower(pc) == ToLower(text[s])))
    ensures s < |text| ==> Fits(Any, text[s], f)
  {}

  method Fnmatch(pat: string, text: string, f: Flags) returns (r: int)
    requires Bracket !in Tokens(pat, f)
    ensures r == 0 || r == 1  // FNM_NOMATCH
    ensures r == 0 <==> Anchored(Tokens(pat, f), text, f)
  {
    hide *;
    var p, s := 0, 0;
    var saved, btp, bts := false, 0, 0;
    ghost var answer := Anchored(Tokens(pat, f), text, f);
    ghost var ts, btoks := Tokens(pat, f), Tokens(pat, f);
    assert pat[0..] == pat;
    Start(pat, text, f);
    while true
      invariant btp <= p <= |pat| && bts <= s <= |text|
      invariant ts == Tokens(pat[p..], f) && btoks == Tokens(pat[btp..], f)
      invariant Bracket !in ts && Bracket !in btoks
      invariant OnTrack(answer, saved, btoks, bts, ts, s, text, f)
      decreases if saved then |pat| - btp else |pat| + 1, |text| - bts, |pat| - p
    {
      NextToken(pat, p, f);
      if p == |pat| {
        AtEnd(answer, saved, btoks, bts, s, text, f);
        return if s < |text| then 1 else 0;
      }
      var pc := pat[p];
      p := p + 1;
      if pc == '?' {
        if s == |text| {
          StepExhausted(answer, saved, btoks, bts, ts, text, f);
          return 1;
        }
        FitsLit(pc, text, s, f);
        StepFits(answer, saved, btoks, bts, ts, s, text, f);
        s := s + 1;
        ts := Tokens(pat[p..], f);
      } else if pc == '*' {
        StepStar(answer, saved, btoks, bts, ts, s, text, f);
        p := SkipStars(pat, p, text[s..], f);
        if p == |pat| { return 0; }
        NextToken(pat, p, f);
        saved, btp, bts := true, p, s;
        ts := Tokens(pat[p..], f);
        btoks := ts;
        Save(answer, ts, s, text, f);
      } else {
        if pc == '\\' && !f.noEscape {
          if p == |pat| {
            StepDangling(answer, saved, btoks, bts, s, text, f);
            return 1;
          }
          pc := pat[p];
          p := p + 1;
        }
        if s < |text| && (pc == text[s] || (f.caseFold && ToLower(pc) == ToLower(text[s]))) {
          FitsLit(pc, text, s, f);
          StepFits(answer, saved, btoks, bts, ts, s, text, f);
          s := s + 1;
          ts := Tokens(pat[p..], f);
        } else {
          FitsLit(pc, text, s, f);
          StepFails(answer, saved, btoks, bts, ts, s, text, f);
          if !saved || bts == |text| { return 1; }
          bts := bts + 1;
          p, s := btp, bts;
          ts := btoks;
        }
      }
    }
  }

  /** A run of stars counts as one. */
  method SkipStars(pat: string, start: nat, text: string, f: Flags) returns (p: nat)
    requires start <= |pat| && Bracket !in Tokens(pat[start..], f)
    ensures start <= p <= |pat| && Bracket !in Tokens(pat[p..], f)
    ensures p < |pat| ==> pat[p] != '*'
    ensures p == |pat| ==> Floating(Tokens(pat[start..], f), text, f)
    ensures Floating(Tokens(pat[p..], f), text, f) == Floating(Tokens(pat[start..], f), text, f)
  {
    p := start;
    while p < |pat| && pat[p] == '*'
      invariant start <= p <= |pat| && Bracket !in Tokens(pat[p..], f)
      invariant Floating(Tokens(pat[p..], f), text, f) == Floating(Tokens(pat[start..], f), text, f)
    {
      NextToken(pat, p, f);
      p := p + 1;
    }
  }
}
