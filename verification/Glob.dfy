/**
 Glob matching with `*` (any sequence) and `?` (any one character), as used for
 branch and tag protection, path permissions and CODEOWNERS.

 Two copies of one greedy loop live in the source. Both remember only the last
 star they passed. `StarFirst` (path permissions) looks for a star before it
 compares characters; `LiteralFirst` (git hooks, rbac, CODEOWNERS) compares
 characters first, so a star in the name is consumed by a star in the pattern
 as if it were a literal.
 */
module Glob {
  import opened Sequences

  /** The meaning of a pattern, with no reference to a matching strategy. */
  ghost predicate Matches(p: string, s: string)
    decreases |p|, 0
  {
    if p == "" then s == ""
    else if p[0] == '*' then MatchesRest(p[1..], s)
    else s != "" && Fits(p[0], s[0]) && Matches(p[1..], s[1..])
  }

  /** A pattern matches what is left of a name behind some first part of any length. */
  ghost predicate MatchesRest(p: string, s: string)
    decreases |p|, 1
  {
    exists k :: 0 <= k <= |s| && Matches(p, s[k..])
  }

  /** The meaning as a value that can be passed on. */
  ghost predicate ByGlob(p: string, s: string) { Matches(p, s) }

  /** One pattern character other than a star accepts one name character. */
  predicate Fits(c: char, d: char) {
    c == '?' || c == d
  }

  /** A star-free stretch of pattern laid over an equally long stretch of name. */
  ghost predicate Aligned(q: string, t: string) {
    |q| == |t| && '*' !in q && forall i :: 0 <= i < |q| ==> Fits(q[i], t[i])
  }

  // ---------------------------------------------------------------------
  // Facts about the relation
  // ---------------------------------------------------------------------

  /** How many characters a star in front takes. */
  lemma StarTakes(p: string, s: string) returns (k: nat)
    requires p != "" && p[0] == '*' && Matches(p, s)
    ensures k <= |s| && Matches(p[1..], s[k..])
  {
    assert MatchesRest(p[1..], s);
    k :| 0 <= k <= |s| && Matches(p[1..], s[k..]);
  }

  lemma StarMayTake(p: string, s: string, k: nat)
    requires p != "" && p[0] == '*' && k <= |s| && Matches(p[1..], s[k..])
    ensures Matches(p, s)
  {
    assert MatchesRest(p[1..], s);
  }

  /** A star that matches from some position also matches from any earlier one. */
  lemma StarAbsorbs(p: string, s: string, i: nat, j: nat)
    requires p != "" && p[0] == '*' && i <= j <= |s|
    requires Matches(p, s[j..])
    ensures Matches(p, s[i..])
  {
    var k := StarTakes(p, s[j..]);
    DropDrop(s, j, k);
    DropDrop(s, i, j - i + k);
    StarMayTake(p, s[i..], j - i + k);
  }

  /** A star either ends here or takes one more character. */
  lemma StarStep(p: string, s: string)
    requires p != "" && p[0] == '*' && s != ""
    ensures Matches(p, s) <==> Matches(p[1..], s) || Matches(p, s[1..])
  {
    Whole(s);
    if Matches(p, s) {
      var k := StarTakes(p, s);
      if k > 0 {
        DropDrop(s, 1, k - 1);
        StarMayTake(p, s[1..], k - 1);
      }
    }
    if Matches(p[1..], s) {
      StarMayTake(p, s, 0);
    }
    if Matches(p, s[1..]) {
      StarAbsorbs(p, s, 0, 1);
    }
  }

  /** A star-free stretch of pattern matches exactly the names it is laid over. */
  lemma {:induction false} StretchSplits(q: string, p: string, s: string)
    requires '*' !in q
    ensures Matches(q + p, s) <==> |q| <= |s| && Aligned(q, s[..|q|]) && Matches(p, s[|q|..])
  {
    if q == "" {
      assert q + p == p && s[0..] == s;
    } else if s != "" {
      StretchSplits(q[1..], p, s[1..]);
      assert (q + p)[1..] == q[1..] + p;
      var n := |q|;
      if n <= |s| {
        assert s[..n][0] == s[0] && s[..n][1..] == s[1..][..n - 1] && s[1..][n - 1..] == s[n..];
        assert Aligned(q, s[..n]) <==> Fits(q[0], s[0]) && Aligned(q[1..], s[..n][1..]) by {
          if Fits(q[0], s[0]) && Aligned(q[1..], s[..n][1..]) {
            forall i | 0 <= i < n ensures Fits(q[i], s[..n][i]) {
              if i > 0 {
                assert q[i] == q[1..][i - 1] && s[..n][i] == s[..n][1..][i - 1];
              }
            }
          }
          if Aligned(q, s[..n]) {
            assert forall i :: 0 <= i < n - 1 ==> q[1..][i] == q[i + 1] && s[..n][1..][i] == s[..n][i + 1];
          }
        }
      }
    }
  }

  /** What is left of a pattern at the end of the name matches if it is all stars. */
  lemma {:induction false} MatchesEmpty(p: string)
    ensures Matches(p, "") <==> forall i :: 0 <= i < |p| ==> p[i] == '*'
  {
    if p != "" {
      MatchesEmpty(p[1..]);
      Whole("");
      if p[0] == '*' {
        assert MatchesRest(p[1..], "") <==> Matches(p[1..], "");
      }
      assert forall i :: 0 < i < |p| ==> p[i] == p[1..][i - 1];
    }
  }

  lemma LastStarForward(p: string, q: string, rest: string, t: string)
    requires p != "" && p[0] == '*' && p[1..] == q + rest
    requires '*' !in q && rest != "" && rest[0] == '*' && |q| <= |t|
    requires Matches(p, t)
    ensures Matches(rest, t[|q|..])
  {
    var k := StarTakes(p, t);
    var u := t[k..];
    StretchSplits(q, rest, u);
    DropDrop(t, k, |q|);
    StarAbsorbs(rest, t, |q|, k + |q|);
  }

  lemma LastStarBackward(p: string, q: string, rest: string, t: string)
    requires p != "" && p[0] == '*' && p[1..] == q + rest
    requires |q| <= |t| && Aligned(q, t[..|q|]) && Matches(rest, t[|q|..])
    ensures Matches(p, t)
  {
    StretchSplits(q, rest, t);
    Whole(t);
    StarMayTake(p, t, 0);
  }

  /**
   Why one backtrack point is enough. Behind the last star the loop has laid a
   star-free stretch `q` over the name as early as it can; when the next star
   comes, any other placement of `q` ends no earlier, and the new star absorbs
   the difference.
   */
  lemma LastStarIsEnough(q: string, rest: string, s: string, from: nat)
    requires '*' !in q && rest != "" && rest[0] == '*'
    requires from + |q| <= |s| && Aligned(q, s[from..from + |q|])
    ensures Matches(['*'] + q + rest, s[from..]) <==> Matches(rest, s[from + |q|..])
  {
    ConcatAssoc(['*'], q, rest);
    ConcatSlices(['*'], q + rest);
    DropDrop(s, from, |q|);
    DropTake(s, from, |q|);
    if Matches(['*'] + (q + rest), s[from..]) {
      LastStarForward(['*'] + (q + rest), q, rest, s[from..]);
    }
    if Matches(rest, s[from + |q|..]) {
      LastStarBackward(['*'] + (q + rest), q, rest, s[from..]);
    }
  }

  /** At the end of the name no later placement of the stretch is possible. */
  lemma StretchAtEnd(q: string, rest: string, s: string, from: nat)
    requires '*' !in q && from + |q| == |s| && Aligned(q, s[from..])
    ensures Matches(['*'] + q + rest, s[from..]) <==> Matches(rest, "")
  {
    var p, t := ['*'] + q + rest, s[from..];
    ConcatAssoc(['*'], q, rest);
    ConcatSlices(['*'], q + rest);
    Whole(t);
    StretchSplits(q, rest, t);
    if Matches(p, t) {
      var k := StarTakes(p, t);
      StretchSplits(q, rest, t[k..]);
    }
    if Matches(rest, "") {
      StarMayTake(p, t, 0);
    }
  }

  // ---------------------------------------------------------------------
  // The star-first loop
  // ---------------------------------------------------------------------

  /**
   What the loop knows: behind the backtrack point `star` (-1 when no star was
   seen) the pattern up to `px` is laid over the name from `at` to `nx`, and the
   question left is the whole question.
   */
  ghost predicate LoopState(p: string, s: string, px: int, nx: int, star: int, at: int) {
    && 0 <= px <= |p| && 0 <= nx <= |s|
    && -1 <= star < px && 0 <= at <= nx
    && Aligned(p[star + 1..px], s[at..nx])
    && (star == -1 ==> at == 0)
    && (star >= 0 ==> p[star] == '*' && (Matches(p, s) <==> Matches(p[star..], s[at..])))
  }

  /** One more character laid down behind the last star. */
  lemma ExtendStretch(p: string, s: string, px: int, nx: int, star: int, at: int)
    requires LoopState(p, s, px, nx, star, at)
    requires px < |p| && nx < |s| && p[px] != '*' && Fits(p[px], s[nx])
    ensures LoopState(p, s, px + 1, nx + 1, star, at)
  {
    var q, t := p[star + 1..px], s[at..nx];
    assert p[star + 1..px + 1] == q + [p[px]] && s[at..nx + 1] == t + [s[nx]];
  }

  /** Passing a star makes it the new backtrack point. */
  lemma PassStar(p: string, s: string, px: int, nx: int, star: int, at: int)
    requires LoopState(p, s, px, nx, star, at)
    requires px < |p| && p[px] == '*'
    ensures LoopState(p, s, px + 1, nx, px, nx)
  {
    var q, rest := p[star + 1..px], p[px..];
    if star >= 0 {
      LastStarIsEnough(q, rest, s, at);
      assert p[star..] == ['*'] + q + rest;
    } else {
      assert p == q + rest && s[..px] == s[0..nx];
      StretchSplits(q, rest, s);
    }
    assert s[nx..nx] == "";
  }

  /** With no star behind it, the loop has decided nothing but the stretch itself. */
  lemma NoStarBehind(p: string, s: string, px: int, nx: int)
    requires LoopState(p, s, px, nx, -1, 0)
    ensures Matches(p, s) <==> Matches(p[px..], s[nx..])
  {
    assert p == p[0..px] + p[px..] && s[..px] == s[0..nx];
    StretchSplits(p[0..px], p[px..], s);
  }

  /** When the rest cannot match here, the last star takes one more character. */
  lemma Backtrack(p: string, s: string, px: int, nx: int, star: int, at: int)
    requires LoopState(p, s, px, nx, star, at)
    requires star >= 0 && nx < |s| && !Matches(p[px..], s[nx..])
    ensures LoopState(p, s, star + 1, at + 1, star, at + 1)
  {
    var q := p[star + 1..px];
    assert p[star..][1..] == q + p[px..] && s[at..][1..] == s[at + 1..];
    StretchSplits(q, p[px..], s[at..]);
    assert s[at..][|q|..] == s[nx..];
    StarStep(p[star..], s[at..]);
    assert p[star + 1..star + 1] == "" && s[at + 1..at + 1] == "";
  }

  /** Nothing matches from here when the next character does not fit or the pattern is used up. */
  lemma Mismatch(p: string, s: string, px: nat, nx: nat)
    requires px <= |p| && nx < |s| && (px < |p| ==> p[px] != '*' && !Fits(p[px], s[nx]))
    ensures !Matches(p[px..], s[nx..])
  {
    assert px < |p| ==> p[px..][0] == p[px];
    assert s[nx..][0] == s[nx];
  }

  /** At the end of the name the answer is whether only stars are left. */
  lemma LoopEnd(p: string, s: string, px: int, star: int, at: int)
    requires LoopState(p, s, px, |s|, star, at)
    ensures Matches(p, s) <==> forall i :: px <= i < |p| ==> p[i] == '*'
  {
    MatchesEmpty(p[px..]);
    assert forall i :: 0 <= i < |p[px..]| ==> p[px..][i] == p[px + i];
    assert (forall i :: 0 <= i < |p[px..]| ==> p[px..][i] == '*') <==> forall i :: px <= i < |p| ==> p[i] == '*' by {
      assert forall i :: px <= i < |p| ==> p[i] == p[px..][i - px];
    }
    if star >= 0 {
      assert p[star..] == ['*'] + p[star + 1..px] + p[px..];
      assert s[at..|s|] == s[at..];
      StretchAtEnd(p[star + 1..px], p[px..], s, at);
    } else {
      NoStarBehind(p, s, px, |s|);
      assert s[|s|..] == "";
    }
  }

  /** The tail of both loops: skip the stars that are left. */
  method SkipStars(p: string, start: nat) returns (px: nat)
    requires start <= |p|
    ensures start <= px <= |p|
    ensures px == |p| <==> forall i :: start <= i < |p| ==> p[i] == '*'
  {
    px := start;
    while px < |p| && p[px] == '*'
      invariant start <= px <= |p|
      invariant forall i :: start <= i < px ==> p[i] == '*'
    {
      px := px + 1;
    }
  }

  /** The path permission matcher decides the relation for every pattern and name. */
  method StarFirst(pattern: string, name: string) returns (r: bool)
    ensures r <==> Matches(pattern, name)
  {
    var px, nx := 0, 0;
    var nextPx, nextNx := -1, 0;
    while nx < |name|
      invariant LoopState(pattern, name, px, nx, nextPx, nextNx)
      decreases |pattern| - nextPx, |name| - nextNx, |name| - nx
    {
      if px < |pattern| {
        if pattern[px] == '*' {
          PassStar(pattern, name, px, nx, nextPx, nextNx);
          nextPx := px;
          nextNx := nx;
          px := px + 1;
          continue;
        } else if pattern[px] == '?' || pattern[px] == name[nx] {
          ExtendStretch(pattern, name, px, nx, nextPx, nextNx);
          px := px + 1;
          nx := nx + 1;
          continue;
        }
      }
      Mismatch(pattern, name, px, nx);
      if nextPx >= 0 {
        Backtrack(pattern, name, px, nx, nextPx, nextNx);
        px := nextPx + 1;
        nextNx := nextNx + 1;
        nx := nextNx;
        continue;
      }
      NoStarBehind(pattern, name, px, nx);
      return false;
    }
    LoopEnd(pattern, name, px, nextPx, nextNx);
    px := SkipStars(pattern, px);
    r := px == |pattern|;
  }

  // ---------------------------------------------------------------------
  // The literal-first loop
  // ---------------------------------------------------------------------

  ghost predicate Indices(p: string, s: string, px: int, sx: int, nextPx: int, nextSx: int) {
    && 0 <= px <= |p| && 0 <= sx <= |s|
    && -1 <= nextPx < px
    && (if nextPx == -1 then nextSx == 0 else 1 <= nextSx <= sx + 1)
  }

  /** The literal-first loop from a given state, one iteration per call. */
  predicate Greedy(p: string, s: string, px: int, sx: int, nextPx: int, nextSx: int)
    requires Indices(p, s, px, sx, nextPx, nextSx)
    decreases |p| - nextPx, |s| + 1 - nextSx, |s| - sx
  {
    if sx == |s| then forall i :: px <= i < |p| ==> p[i] == '*'
    else if px < |p| && (p[px] == '?' || p[px] == s[sx]) then Greedy(p, s, px + 1, sx + 1, nextPx, nextSx)
    else if px < |p| && p[px] == '*' then Greedy(p, s, px + 1, sx, px, sx + 1)
    else if nextPx != -1 then Greedy(p, s, nextPx + 1, nextSx, nextPx, nextSx + 1)
    else false
  }

  /** What the literal-first copies answer. */
  predicate LiteralFirst(pattern: string, name: string) {
    Greedy(pattern, name, 0, 0, -1, 0)
  }

  /** The loop of the git hook, rbac and CODEOWNERS copies. */
  method MatchPattern(pattern: string, name: string) returns (r: bool)
    ensures r == LiteralFirst(pattern, name)
  {
    var px, sx := 0, 0;
    var nextPx, nextSx := -1, 0;
    while sx < |name|
      invariant Indices(pattern, name, px, sx, nextPx, nextSx)
      invariant LiteralFirst(pattern, name) == Greedy(pattern, name, px, sx, nextPx, nextSx)
      decreases |pattern| - nextPx, |name| + 1 - nextSx, |name| - sx
    {
      if px < |pattern| && (pattern[px] == '?' || pattern[px] == name[sx]) {
        px := px + 1;
        sx := sx + 1;
      } else if px < |pattern| && pattern[px] == '*' {
        nextPx := px;
        nextSx := sx + 1;
        px := px + 1;
      } else if nextPx != -1 {
        px := nextPx + 1;
        sx := nextSx;
        nextSx := nextSx + 1;
      } else {
        return false;
      }
    }
    px := SkipStars(pattern, px);
    r := px == |pattern|;
  }

  /** Consuming a character on both sides is sound, even a star against a star. */
  lemma BothStep(p: string, s: string, px: nat, sx: nat)
    requires px < |p| && sx < |s| && (p[px] == '?' || p[px] == s[sx])
    ensures Matches(p[px + 1..], s[sx + 1..]) ==> Matches(p[px..], s[sx..])
  {
    DropDrop(p, px, 1);
    DropDrop(s, sx, 1);
    if p[px] == '*' && Matches(p[px + 1..], s[sx + 1..]) {
      StarMayTake(p[px..], s[sx..], 1);
    }
  }

  lemma StarSkips(p: string, s: string, px: nat, sx: nat)
    requires px < |p| && sx <= |s| && p[px] == '*'
    ensures Matches(p[px + 1..], s[sx..]) ==> Matches(p[px..], s[sx..])
  {
    DropDrop(p, px, 1);
    Whole(s[sx..]);
    if Matches(p[px + 1..], s[sx..]) {
      StarMayTake(p[px..], s[sx..], 0);
    }
  }

  /** Every state the loop passes through asks a question no easier than the first one. */
  lemma {:induction false} GreedySound(p: string, s: string, px: int, sx: int, nextPx: int, nextSx: int)
    requires Indices(p, s, px, sx, nextPx, nextSx)
    requires Matches(p[px..], s[sx..]) ==> Matches(p, s)
    requires nextPx >= 0 ==> p[nextPx] == '*' && (Matches(p[nextPx..], s[nextSx - 1..]) ==> Matches(p, s))
    requires Greedy(p, s, px, sx, nextPx, nextSx)
    ensures Matches(p, s)
    decreases |p| - nextPx, |s| + 1 - nextSx, |s| - sx
  {
    if sx == |s| {
      MatchesEmpty(p[px..]);
    } else if px < |p| && (p[px] == '?' || p[px] == s[sx]) {
      BothStep(p, s, px, sx);
      GreedySound(p, s, px + 1, sx + 1, nextPx, nextSx);
    } else if px < |p| && p[px] == '*' {
      StarSkips(p, s, px, sx);
      GreedySound(p, s, px + 1, sx, px, sx + 1);
    } else {
      StarSkips(p, s, nextPx, nextSx);
      if Matches(p[nextPx..], s[nextSx..]) {
        StarAbsorbs(p[nextPx..], s, nextSx - 1, nextSx);
      }
      GreedySound(p, s, nextPx + 1, nextSx, nextPx, nextSx + 1);
    }
  }

  /** The literal-first loop never accepts a name the pattern does not match. */
  lemma LiteralFirstSound(p: string, s: string)
    ensures LiteralFirst(p, s) ==> Matches(p, s)
  {
    if LiteralFirst(p, s) {
      assert p[0..] == p && s[0..] == s;
      GreedySound(p, s, 0, 0, -1, 0);
    }
  }

  lemma {:induction false} GreedyExact(p: string, s: string, px: int, sx: int, nextPx: int, nextSx: int, at: int)
    requires Indices(p, s, px, sx, nextPx, nextSx) && at == (if nextPx == -1 then 0 else nextSx - 1)
    requires LoopState(p, s, px, sx, nextPx, at)
    requires '*' !in p || '*' !in s
    ensures Greedy(p, s, px, sx, nextPx, nextSx) <==> Matches(p, s)
    decreases |p| - nextPx, |s| + 1 - nextSx, |s| - sx
  {
    if sx == |s| {
      LoopEnd(p, s, px, nextPx, at);
    } else if px < |p| && (p[px] == '?' || p[px] == s[sx]) {
      assert p[px] in p && s[sx] in s;
      ExtendStretch(p, s, px, sx, nextPx, at);
      GreedyExact(p, s, px + 1, sx + 1, nextPx, nextSx, at);
    } else if px < |p| && p[px] == '*' {
      PassStar(p, s, px, sx, nextPx, at);
      GreedyExact(p, s, px + 1, sx, px, sx + 1, sx);
    } else if nextPx != -1 {
      Mismatch(p, s, px, sx);
      Backtrack(p, s, px, sx, nextPx, at);
      GreedyExact(p, s, nextPx + 1, nextSx, nextPx, nextSx + 1, nextSx);
    } else {
      Mismatch(p, s, px, sx);
      NoStarBehind(p, s, px, sx);
    }
  }

  /** Unless pattern and name both hold a star, the literal-first loop decides the relation. */
  lemma LiteralFirstExact(p: string, s: string)
    requires '*' !in p || '*' !in s
    ensures LiteralFirst(p, s) <==> Matches(p, s)
  {
    GreedyExact(p, s, 0, 0, -1, 0, 0);
  }

  // Where the two loops differ ------------------------------------------

  function Questions(n: nat): (q: string)
    ensures |q| == n && forall i :: 0 <= i < n ==> q[i] == '?'
  {
    seq(n, _ => '?')
  }

  /** With no backtrack point a pattern one question mark too long is rejected. */
  lemma {:induction false} RunsOut(p: string, s: string, px: int)
    requires 0 <= px <= |s| && |p| == |s| + 1 && p[|s|] == '?'
    requires forall i :: 0 <= i < |s| ==> p[i] == '?' || p[i] == s[i]
    ensures !Greedy(p, s, px, px, -1, 0)
    decreases |s| - px
  {
    if px < |s| {
      RunsOut(p, s, px + 1);
    }
  }

  /** For every name with a star some pattern that matches it is refused. */
  lemma RefusedPattern(s: string, k: nat) returns (p: string)
    requires k < |s| && s[k] == '*'
    ensures Matches(p, s) && !LiteralFirst(p, s) && p != "" && p[|p| - 1] == '?'
  {
    var head, tail := Questions(k), Questions(|s| - k);
    var rest := ['*'] + tail;
    p := head + rest;
    assert rest[1..] == tail;
    RunsOut(p, s, 0);
    StretchSplits(tail, "", s[k..]);
    assert tail + "" == tail && s[k..][..|tail|] == s[k..] && s[k..][|tail|..] == "";
    Whole(s[k..]);
    StarMayTake(rest, s[k..], 0);
    StretchSplits(head, rest, s);
  }

  /** With no backtrack point a name longer than the pattern is rejected. */
  lemma {:induction false} TooLong(p: string, s: string, px: int)
    requires 0 <= px <= |p| < |s|
    requires forall i :: px <= i < |p| && p[i] == '*' ==> s[i] == '*'
    ensures !Greedy(p, s, px, px, -1, 0)
    decreases |p| - px
  {
    if px < |p| && (p[px] == '?' || p[px] == s[px]) {
      TooLong(p, s, px + 1);
    }
  }

  /** A pattern matches its own text. */
  lemma {:induction false} SelfMatch(q: string, p: string, s: string)
    requires Matches(p, s)
    ensures Matches(q + p, q + s)
  {
    if q == "" {
      assert q + p == p && q + s == s;
    } else {
      SelfMatch(q[1..], p, s);
      TailOfConcat(q, p);
      TailOfConcat(q, s);
      if q[0] == '*' {
        StarMayTake(q + p, q + s, 1);
      }
    }
  }

  lemma {:induction false} LastStar(p: string) returns (i: nat)
    requires '*' in p
    ensures i < |p| && p[i] == '*' && '*' !in p[i + 1..]
  {
    if '*' in p[1..] {
      i := LastStar(p[1..]);
      assert p[i + 2..] == p[1..][i + 1..];
      i := i + 1;
    } else {
      i := 0;
    }
  }

  /** For every pattern with a star some name it matches is refused. */
  lemma RefusedName(p: string) returns (s: string)
    requires '*' in p
    ensures Matches(p, s) && !LiteralFirst(p, s)
  {
    var i := LastStar(p);
    var tail := p[i + 1..];
    s := p[..i] + ("*a" + tail);
    assert forall j :: i < j < |p| ==> p[j] == tail[j - i - 1];
    TooLong(p, s, 0);
    SelfMatch(tail, "", "");
    assert tail + "" == tail;
    assert p[i..][1..] == tail && ("*a" + tail)[2..] == tail;
    StarMayTake(p[i..], "*a" + tail, 2);
    SelfMatch(p[..i], p[i..], "*a" + tail);
    assert p[..i] + p[i..] == p;
  }

  /** Whatever the name holds, the pattern with the same text accepts it. */
  lemma LiteralFirstSelf(s: string)
    ensures LiteralFirst(s, s)
  {
    SelfRun(s, 0);
  }

  lemma {:induction false} SelfRun(s: string, i: nat)
    requires i <= |s|
    ensures Greedy(s, s, i, i, -1, 0)
    decreases |s| - i
  {
    if i < |s| {
      SelfRun(s, i + 1);
    }
  }

  /** A name is safe with the literal-first loop for all patterns iff it holds no star. */
  lemma LiteralFirstByName(s: string)
    ensures (forall p :: LiteralFirst(p, s) <==> Matches(p, s)) <==> '*' !in s
  {
    if '*' in s {
      var k :| 0 <= k < |s| && s[k] == '*';
      var p := RefusedPattern(s, k);
    } else {
      forall p ensures LiteralFirst(p, s) <==> Matches(p, s) {
        LiteralFirstExact(p, s);
      }
    }
  }

  /** A pattern is safe with the literal-first loop for all names iff it holds no star. */
  lemma LiteralFirstByPattern(p: string)
    ensures (forall s :: LiteralFirst(p, s) <==> Matches(p, s)) <==> '*' !in p
  {
    if '*' in p {
      var s := RefusedName(p);
    } else {
      forall s ensures LiteralFirst(p, s) <==> Matches(p, s) {
        LiteralFirstExact(p, s);
      }
    }
  }
}
