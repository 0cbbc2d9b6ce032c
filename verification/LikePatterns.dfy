/** Escaping of user text for SQL LIKE with a backslash as the escape character. */
module LikePatterns {
  import opened Sequences

  // ---------------------------------------------------------------------
  // LIKE with ESCAPE, section 8.5 of ISO/IEC 9075-2
  // ---------------------------------------------------------------------

  /** A pattern element: a percent, an underscore, or a character to be met literally. */
  datatype Element = AnyString | AnyCharacter | Literal(c: char) | Invalid

  /** First element of a nonempty pattern, and how many characters it takes. */
  function First(p: string): (Element, nat)
    requires p != ""
  {
    if p[0] == '%' then (AnyString, 1)
    else if p[0] == '_' then (AnyCharacter, 1)
    else if p[0] != '\\' then (Literal(p[0]), 1)
    else if |p| > 1 && p[1] in "%_\\" then (Literal(p[1]), 2)
    else (Invalid, 1)
  }

  ghost predicate Like(t: string, p: string)
    decreases |p|
  {
    if p == "" then t == ""
    else
      var (e, n) := First(p);
      match e
      case AnyString => exists k :: 0 <= k <= |t| && Like(t[k..], p[n..])
      case AnyCharacter => t != "" && Like(t[1..], p[n..])
      case Literal(c) => t != "" && t[0] == c && Like(t[1..], p[n..])
      case Invalid => false
  }

  // ---------------------------------------------------------------------
  // The source's three replacements
  // ---------------------------------------------------------------------

  /** Replace every occurrence of one character by a text. */
  function ReplaceAll(s: string, c: char, with: string): string {
    if s == "" then "" else (if s[0] == c then with else [s[0]]) + ReplaceAll(s[1..], c, with)
  }

  function EscapeLike(s: string): string {
    var s1 := ReplaceAll(s, '\\', "\\\\");
    var s2 := ReplaceAll(s1, '%', "\\%");
    ReplaceAll(s2, '_', "\\_")
  }

  function ContainsPattern(s: string): string { "%" + EscapeLike(s) + "%" }

  function PrefixPattern(s: string): string { EscapeLike(s) + "%" }

  // ---------------------------------------------------------------------
  // One pass, and what the patterns mean
  // ---------------------------------------------------------------------

  function Escaped(c: char): string {
    if c in "%_\\" then ['\\', c] else [c]
  }

  function EscapeEach(s: string): string {
    if s == "" then "" else Escaped(s[0]) + EscapeEach(s[1..])
  }

  lemma {:induction false} ReplaceAllConcat(a: string, b: string, c: char, with: string)
    ensures ReplaceAll(a + b, c, with) == ReplaceAll(a, c, with) + ReplaceAll(b, c, with)
  {
    if a == "" {
      assert a + b == b;
    } else {
      ReplaceAllConcat(a[1..], b, c, with);
      TailOfConcat(a, b);
      ConcatAssoc(if a[0] == c then with else [a[0]], ReplaceAll(a[1..], c, with), ReplaceAll(b, c, with));
    }
  }

  /** The later passes leave the backslashes put in by the earlier ones alone. */
  lemma {:induction false} EscapeIsOnePass(s: string)
    ensures EscapeLike(s) == EscapeEach(s)
  {
    if s != "" {
      EscapeIsOnePass(s[1..]);
      var c := s[0];
      var a := if c == '\\' then "\\\\" else [c];
      var b := ReplaceAll(a, '%', "\\%");
      ReplaceAllConcat(a, ReplaceAll(s[1..], '\\', "\\\\"), '%', "\\%");
      ReplaceAllConcat(b, ReplaceAll(ReplaceAll(s[1..], '\\', "\\\\"), '%', "\\%"), '_', "\\_");
      assert ReplaceAll(b, '_', "\\_") == Escaped(c) by {
        EscapeOneCharacter(c);
      }
    }
  }

  lemma EscapeOneCharacter(c: char)
    ensures ReplaceAll(ReplaceAll(if c == '\\' then "\\\\" else [c], '%', "\\%"), '_', "\\_") == Escaped(c)
  {
    assert ReplaceAll("", '%', "\\%") == "" == ReplaceAll("", '_', "\\_");
    if c == '\\' {
      assert "\\\\"[1..] == "\\";
      assert ReplaceAll("\\", '%', "\\%") == "\\" == ReplaceAll("\\", '_', "\\_");
    } else if c == '%' {
      assert ReplaceAll([c], '%', "\\%") == "\\%";
      assert "\\%"[1..] == "%";
      assert ReplaceAll("%", '_', "\\_") == "%";
    } else {
      assert ReplaceAll([c], '%', "\\%") == [c];
    }
  }

  lemma PrefixStep(s: string, t: string)
    requires s != "" && t != ""
    ensures s <= t <==> s[0] == t[0] && s[1..] <= t[1..]
  {
    if s[0] == t[0] && s[1..] <= t[1..] {
      assert s == [s[0]] + s[1..] && t == [t[0]] + t[1..];
    }
  }

  lemma EscapedFirst(c: char, rest: string, t: string)
    ensures Like(t, Escaped(c) + rest) <==> t != "" && t[0] == c && Like(t[1..], rest)
  {
    var q := Escaped(c) + rest;
    ConcatSlices(Escaped(c), rest);
    assert First(q) == (Literal(c), |Escaped(c)|);
  }

  /** Escaped text in front of a pattern is met literally, character by character. */
  lemma {:induction false} EscapedIsLiteral(s: string, p: string, t: string)
    ensures Like(t, EscapeEach(s) + p) <==> s <= t && Like(t[|s|..], p)
  {
    if s == "" {
      Whole(p);
      Whole(t);
    } else {
      var rest := EscapeEach(s[1..]) + p;
      ConcatAssoc(Escaped(s[0]), EscapeEach(s[1..]), p);
      EscapedFirst(s[0], rest, t);
      if t != "" {
        EscapedIsLiteral(s[1..], p, t[1..]);
        PrefixStep(s, t);
        if s <= t {
          DropDrop(t, 1, |s| - 1);
        }
      }
    }
  }

  lemma PercentMatchesAll(t: string)
    ensures Like(t, "%")
  {
    assert t[|t|..] == "" && "%"[1..] == "";
    assert Like(t[|t|..], "%"[1..]);
  }

  /** `PrefixPattern(s)` selects exactly the texts that start with s. */
  lemma PrefixPatternMeaning(s: string, t: string)
    ensures Like(t, PrefixPattern(s)) <==> s <= t
  {
    EscapeIsOnePass(s);
    EscapedIsLiteral(s, "%", t);
    if s <= t {
      PercentMatchesAll(t[|s|..]);
    }
  }

  lemma PercentFirst(t: string, p: string)
    ensures Like(t, "%" + p) <==> exists k :: 0 <= k <= |t| && Like(t[k..], p)
  {
    var q := "%" + p;
    assert q[1..] == p && First(q) == (AnyString, 1);
  }

  /** `ContainsPattern(s)` selects exactly the texts in which s occurs. */
  lemma ContainsPatternMeaning(s: string, t: string)
    ensures Like(t, ContainsPattern(s)) <==> exists k :: 0 <= k <= |t| && s <= t[k..]
  {
    ConcatAssoc("%", EscapeLike(s), "%");
    PercentFirst(t, PrefixPattern(s));
    forall k | 0 <= k <= |t| ensures Like(t[k..], PrefixPattern(s)) <==> s <= t[k..] {
      PrefixPatternMeaning(s, t[k..]);
    }
  }
}
