/** The wildcard matcher of Utils::strcmp: '*' stands for any run of characters, '?' for
    exactly one. */
module Wildcard {
  import opened Text

  /** The meaning of a pattern: the pattern from position i on matches the text from j on. */
  ghost predicate Matches(w: string, i: nat, s: string, j: nat)
    requires i <= |w| && j <= |s|
    decreases |w| - i, 0
  {
    if i == |w| then j == |s|
    else if w[i] == '*' then MatchesSomewhere(w, i + 1, s, j)
    else j < |s| && Fits(w[i], s[j]) && Matches(w, i + 1, s, j + 1)
  }

  /** ... from some position at or after j on. */
  ghost predicate MatchesSomewhere(w: string, i: nat, s: string, j: nat)
    requires i <= |w| && j <= |s|
    decreases |w| - i, 1
  {
    exists k :: j <= k <= |s| && Matches(w, i, s, k)
  }

  /** One pattern character other than '*' against one text character. */
  predicate Fits(p: char, c: char) {
    p == '?' || p == c
  }

  ghost predicate Glob(w: string, s: string) {
    Matches(w, 0, s, 0)
  }

  /** n pattern characters from i on, none of them a star. */
  ghost predicate Starless(w: string, i: nat, n: nat)
    requires i + n <= |w|
  {
    forall t :: i <= t < i + n ==> w[t] != '*'
  }

  /** n pattern characters from i on fit the n text characters from j on. */
  ghost predicate AllFit(w: string, i: nat, s: string, j: nat, n: nat)
    requires i + n <= |w| && j + n <= |s|
  {
    forall t :: i <= t < i + n ==> Fits(w[t], s[t - i + j])
  }

  /** A starless stretch consumes exactly its own length. */
  lemma {:induction false} Stretch(w: string, i: nat, s: string, j: nat, n: nat)
    requires i + n <= |w| && j <= |s| && Starless(w, i, n)
    ensures Matches(w, i, s, j) <==>
            j + n <= |s| && AllFit(w, i, s, j, n) && Matches(w, i + n, s, j + n)
    decreases n
  {
    if n > 0 && j < |s| {
      Stretch(w, i + 1, s, j + 1, n - 1);
    }
  }

  /** The greedy step: once the stretch between two stars has been placed at its earliest
      position, the first star can be forgotten without losing a match. */
  lemma ForgetStar(w: string, a: nat, b: nat, s: string, c: nat)
    requires a < b < |w| && w[a] == '*' && w[b] == '*' && Starless(w, a + 1, b - a - 1)
    requires c + (b - a - 1) <= |s| && AllFit(w, a + 1, s, c, b - a - 1)
    ensures Matches(w, a, s, c) <==> Matches(w, b, s, c + (b - a - 1))
  {
    var n := b - a - 1;
    if Matches(w, b, s, c + n) {
      Stretch(w, a + 1, s, c, n);
    }
    if Matches(w, a, s, c) {
      assert MatchesSomewhere(w, a + 1, s, c);
      var k :| c <= k <= |s| && Matches(w, a + 1, s, k);
      Stretch(w, a + 1, s, k, n);
      assert MatchesSomewhere(w, b + 1, s, k + n);
      var k' :| k + n <= k' <= |s| && Matches(w, b + 1, s, k');
    }
  }

  /** The backtracking step: if the pattern after a star does not match at c, the star
      swallows the character at c. */
  lemma StarSwallows(w: string, a: nat, s: string, c: nat)
    requires a < |w| && w[a] == '*' && c < |s| && !Matches(w, a + 1, s, c)
    ensures Matches(w, a, s, c) <==> Matches(w, a, s, c + 1)
  {
  }

  /** A pattern matches the empty text exactly when only stars are left of it. */
  lemma {:induction false} OnlyStars(w: string, i: nat, s: string)
    requires i <= |w|
    ensures Matches(w, i, s, |s|) <==> forall t :: i <= t < |w| ==> w[t] == '*'
    decreases |w| - i
  {
    if i < |w| {
      OnlyStars(w, i + 1, s);
    }
  }

  /** Every text, wildcards or not, matches itself as a pattern. */
  lemma {:induction false} ReflexiveFrom(s: string, i: nat)
    requires i <= |s|
    ensures Matches(s, i, s, i)
    decreases |s| - i
  {
    if i < |s| {
      ReflexiveFrom(s, i + 1);
    }
  }

  lemma GlobReflexive(s: string)
    ensures Glob(s, s)
  {
    ReflexiveFrom(s, 0);
  }

  /** A pattern without a star matches the texts of its own length that agree with it wherever
      it does not hold a question mark. */
  lemma StarFreePattern(w: string, s: string)
    requires '*' !in w
    ensures Glob(w, s) <==> |w| == |s| && forall t :: 0 <= t < |w| ==> w[t] == '?' || w[t] == s[t]
  {
    Stretch(w, 0, s, 0, |w|);
    if |w| == |s| {
      assert AllFit(w, 0, s, 0, |w|) <==> forall t :: 0 <= t < |w| ==> Fits(w[t], s[t]);
    }
  }

  /** Without wildcards a pattern matches itself only. */
  lemma LiteralPattern(w: string, s: string)
    requires '*' !in w && '?' !in w
    ensures Glob(w, s) <==> w == s
  {
    StarFreePattern(w, s);
  }

  /** Whether a pattern matches from a position on depends on what is left of both texts. */
  lemma {:induction false} SameRest(w: string, i: nat, s: string, j: nat, w': string, i': nat, s': string, j': nat)
    requires i <= |w| && j <= |s| && i' <= |w'| && j' <= |s'|
    requires w[i..] == w'[i'..] && s[j..] == s'[j'..]
    requires Matches(w, i, s, j)
    ensures Matches(w', i', s', j')
    decreases |w| - i
  {
    if i < |w| {
      assert w[i] == w[i..][0] == w'[i'];
      if w[i] == '*' {
        assert MatchesSomewhere(w, i + 1, s, j);
        var k :| j <= k <= |s| && Matches(w, i + 1, s, k);
        RestOfRest(s, j, s', j', k - j);
        RestOfRest(w, i, w', i', 1);
        SameRest(w, i + 1, s, k, w', i' + 1, s', k - j + j');
        assert MatchesSomewhere(w', i' + 1, s', j');
      } else {
        assert s[j] == s[j..][0] == s'[j'];
        RestOfRest(w, i, w', i', 1);
        RestOfRest(s, j, s', j', 1);
        SameRest(w, i + 1, s, j + 1, w', i' + 1, s', j' + 1);
      }
    }
  }

  lemma RestOfRest(s: string, j: nat, s': string, j': nat, n: nat)
    requires j + n <= |s| && j' <= |s'| && s[j..] == s'[j'..]
    ensures j' + n <= |s'| && s[j + n..] == s'[j' + n..]
  {
    assert s[j + n..] == s[j..][n..] && s'[j' + n..] == s'[j'..][n..];
  }

  lemma AfterStar(w: string, i: nat, s: string, k: nat)
    requires i <= |w| && k <= |s|
    ensures Matches(w, i, s, k) <==> Glob(w[i..], s[k..])
  {
    if Matches(w, i, s, k) {
      SameRest(w, i, s, k, w[i..], 0, s[k..], 0);
    }
    if Glob(w[i..], s[k..]) {
      SameRest(w[i..], 0, s[k..], 0, w, i, s, k);
    }
  }

  lemma FrontAlone(w: string, front: string, s: string)
    requires '*' !in front && front <= w && |front| <= |s|
    ensures Glob(front, s[..|front|]) <==> AllFit(w, 0, s, 0, |front|)
  {
    var n, start := |front|, s[..|front|];
    Stretch(front, 0, start, 0, n);
    assert forall t :: 0 <= t < n ==> front[t] == w[t] && start[t] == s[t];
    assert AllFit(front, 0, start, 0, n) ==> forall t :: 0 <= t < n ==> Fits(front[t], start[t]);
    assert AllFit(w, 0, s, 0, n) ==> forall t :: 0 <= t < n ==> Fits(w[t], s[t]);
  }

  lemma RestSomewhere(w: string, i: nat, s: string, j: nat)
    requires i <= |w| && j <= |s|
    ensures MatchesSomewhere(w, i, s, j) <==> exists k :: j <= k <= |s| && Glob(w[i..], s[k..])
  {
    hide Glob, Matches;
    forall k | j <= k <= |s|
      ensures Matches(w, i, s, k) <==> Glob(w[i..], s[k..])
    {
      AfterStar(w, i, s, k);
    }
  }

  /** The first star of a pattern: what is in front of it matches the start of the text, and
      what is behind it matches the text from some later position on. */
  lemma FirstStar(front: string, rest: string, s: string)
    requires '*' !in front
    ensures Glob(front + "*" + rest, s) <==>
            && |front| <= |s| && Glob(front, s[..|front|])
            && exists k :: |front| <= k <= |s| && Glob(rest, s[k..])
  {
    var w, n := front + "*" + rest, |front|;
    Stretch(w, 0, s, 0, n);
    assert w[n + 1..] == rest;
    if n <= |s| {
      FrontAlone(w, front, s);
      RestSomewhere(w, n + 1, s, n);
      assert Matches(w, n, s, n) <==> MatchesSomewhere(w, n + 1, s, n);
      hide Matches, MatchesSomewhere, AllFit;
    }
  }

  /** The state of the second loop after its first star: m is just past the latest star of
      the pattern, c - 1 is where the stretch after it is being tried, and w and s are as far
      as that stretch has got. Whether the pattern matches is whether it matches from the
      latest star on: no earlier star is needed any more. */
  ghost predicate Trying(pat: string, str: string, w: nat, s: nat, m: nat, c: nat) {
    1 <= m <= w <= |pat| && m < |pat| && pat[m - 1] == '*' && Starless(pat, m, w - m) &&
    1 <= c && s == c - 1 + (w - m) && s <= |str| && AllFit(pat, m, str, c - 1, w - m) &&
    (Glob(pat, str) <==> Matches(pat, m - 1, str, c - 1))
  }

  lemma NextStar(pat: string, str: string, w: nat, s: nat, m: nat, c: nat)
    requires Trying(pat, str, w, s, m, c) && w < |pat| && pat[w] == '*'
    ensures Glob(pat, str) <==> Matches(pat, w, str, s)
    ensures w + 1 < |pat| ==> Trying(pat, str, w + 1, s, w + 1, s + 1)
  {
    ForgetStar(pat, m - 1, w, str, c - 1);
  }

  lemma Advance(pat: string, str: string, w: nat, s: nat, m: nat, c: nat)
    requires Trying(pat, str, w, s, m, c) && w < |pat| && s < |str|
    requires pat[w] != '*' && Fits(pat[w], str[s])
    ensures Trying(pat, str, w + 1, s + 1, m, c)
  {
  }

  lemma Backtrack(pat: string, str: string, w: nat, s: nat, m: nat, c: nat)
    requires Trying(pat, str, w, s, m, c) && s < |str|
    requires w < |pat| ==> pat[w] != '*' && !Fits(pat[w], str[s])
    ensures Trying(pat, str, m, c, m, c + 1)
  {
    Stretch(pat, m, str, c - 1, w - m);
    StarSwallows(pat, m - 1, str, c - 1);
  }

  /** When the text runs out inside the stretch after the last star, no later placement of
      that stretch can succeed. */
  lemma EndOfText(pat: string, str: string, w: nat, m: nat, c: nat)
    requires Trying(pat, str, w, |str|, m, c)
    ensures Glob(pat, str) <==> Matches(pat, w, str, |str|)
  {
    Stretch(pat, m, str, c - 1, w - m);
    if Matches(pat, m - 1, str, c - 1) {
      assert MatchesSomewhere(pat, m, str, c - 1);
      var k :| c - 1 <= k <= |str| && Matches(pat, m, str, k);
      Stretch(pat, m, str, k, w - m);
    } else if Matches(pat, w, str, |str|) {
      assert m + (w - m) == w && c - 1 + (w - m) == |str|;
      assert MatchesSomewhere(pat, m, str, c - 1);
    }
  }

  /** *(s + i) of a NUL-terminated string. */
  function At(s: string, i: nat): char {
    if i < |s| then s[i] else '\0'
  }

  /** The three loops. w, s and the backtrack variables m, c are positions in the two C
      strings; -1 is a null pointer. */
  method Strcmp(pw: Option<string>, ps: Option<string>) returns (r: bool)
    requires pw.Some? ==> NulFree(pw.value)
    requires ps.Some? ==> NulFree(ps.value)
    ensures r <==> pw.Some? && ps.Some? && Glob(pw.value, ps.value)
  {
    var c, m := -1, -1;
    if pw.None? || ps.None? {
      return false;
    }
    var pat, str := pw.value, ps.value;
    var w, s := 0, 0;
    while At(str, s) != '\0' && At(pat, w) != '*'
      invariant 0 <= w <= |pat| && 0 <= s <= |str|
      invariant Glob(pat, str) <==> Matches(pat, w, str, s)
      decreases |str| - s
    {
      if At(pat, w) != At(str, s) && At(pat, w) != '?' {
        return false;
      }
      w := w + 1;
      s := s + 1;
    }

    while At(str, s) != '\0'
      invariant 0 <= w <= |pat| && 0 <= s <= |str|
      invariant m == -1 ==> c == -1 && (s < |str| ==> At(pat, w) == '*')
      invariant m == -1 ==> (Glob(pat, str) <==> Matches(pat, w, str, s))
      invariant m != -1 ==> m >= 0 && c >= 0 && Trying(pat, str, w, s, m, c)
      decreases |str| + 1 - c, |pat| - m, |str| - s
    {
      if At(pat, w) == '*' {
        if m != -1 {
          NextStar(pat, str, w, s, m, c);
        }
        w := w + 1;
        if At(pat, w) == '\0' {
          assert Matches(pat, w, str, |str|);
          assert MatchesSomewhere(pat, w, str, s);
          return true;
        }
        m := w;
        c := s + 1;
      } else if At(pat, w) == At(str, s) || At(pat, w) == '?' {
        Advance(pat, str, w, s, m, c);
        w := w + 1;
        s := s + 1;
      } else {
        Backtrack(pat, str, w, s, m, c);
        w := m;
        s := c;
        c := c + 1;
      }
    }

    if m != -1 {
      EndOfText(pat, str, w, m, c);
    }
    OnlyStars(pat, w, str);
    while At(pat, w) == '*'
      invariant 0 <= w <= |pat|
      invariant Glob(pat, str) <==> forall t :: w <= t < |pat| ==> pat[t] == '*'
      decreases |pat| - w
    {
      w := w + 1;
    }
    return At(pat, w) == '\0';
  }

  /** The overload for std::string: both sides are cut at their first NUL. */
  method StrcmpString(wild: string, str: string) returns (r: bool)
    ensures r <==> Glob(CStr(wild), CStr(str))
  {
    r := Strcmp(Some(CStr(wild)), Some(CStr(str)));
  }
}
