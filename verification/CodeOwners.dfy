/** CODEOWNERS resolution: pattern forms, and the last matching rule wins. */
module CodeOwners {
  import opened Glob

  datatype Rule = Rule(pattern: string, owners: seq<string>)

  // ---------------------------------------------------------------------
  // Path segments
  // ---------------------------------------------------------------------

  /** Segments of a path between slashes; never empty. */
  function Split(s: string): (segs: seq<string>)
    ensures segs != []
  {
    if s == "" then [""]
    else
      var rest := Split(s[1..]);
      if s[0] == '/' then [""] + rest else [[s[0]] + rest[0]] + rest[1..]
  }

  function Join(segs: seq<string>): string {
    if segs == [] then ""
    else if |segs| == 1 then segs[0]
    else segs[0] + "/" + Join(segs[1..])
  }

  /** A position where a segment starts. */
  predicate Boundary(s: string, b: int) {
    b == 0 || (0 < b <= |s| && s[b - 1] == '/')
  }

  lemma {:induction false} JoinSplit(s: string)
    ensures Join(Split(s)) == s
  {
    if s != "" {
      JoinSplit(s[1..]);
      var rest := Split(s[1..]);
      if s[0] == '/' {
        assert ([""] + rest)[1..] == rest;
      } else {
        var segs := [[s[0]] + rest[0]] + rest[1..];
        assert segs[1..] == rest[1..];
      }
    }
  }

  /** Dropping leading segments leaves the path from some segment start. */
  lemma {:induction false} SegmentsToBoundary(s: string, i: nat) returns (b: nat)
    requires i < |Split(s)|
    ensures b <= |s| && Boundary(s, b) && (i > 0 ==> b > 0)
    ensures Join(Split(s)[i..]) == s[b..]
  {
    b := 0;
    JoinSplit(s);
    if i == 0 {
      assert Split(s)[0..] == Split(s) && s[0..] == s;
    } else if s[0] == '/' {
      b := SegmentsToBoundary(s[1..], i - 1);
      assert Split(s)[i..] == Split(s[1..])[i - 1..];
      assert s[b + 1..] == s[1..][b..];
      b := b + 1;
    } else {
      b := SegmentsToBoundary(s[1..], i);
      assert Split(s)[i..] == Split(s[1..])[i..];
      assert s[b + 1..] == s[1..][b..] && s[b] == s[1..][b - 1];
      b := b + 1;
    }
  }

  /** Every segment start is reached by dropping some number of segments. */
  lemma {:induction false} BoundaryToSegments(s: string, b: nat) returns (i: nat)
    requires b <= |s| && Boundary(s, b)
    ensures i < |Split(s)| && (b > 0 ==> i > 0)
    ensures Join(Split(s)[i..]) == s[b..]
  {
    i := 0;
    JoinSplit(s);
    if b == 0 {
      assert Split(s)[0..] == Split(s) && s[0..] == s;
    } else {
      assert b > 1 ==> s[1..][b - 2] == s[b - 1];
      i := BoundaryToSegments(s[1..], b - 1);
      assert s[1..][b - 1..] == s[b..];
      if s[0] == '/' {
        assert Split(s)[i + 1..] == Split(s[1..])[i..];
        i := i + 1;
      } else {
        assert Split(s)[i..] == Split(s[1..])[i..];
      }
    }
  }

  // ---------------------------------------------------------------------
  // Pattern forms
  // ---------------------------------------------------------------------

  function Body(pattern: string): string {
    var p := if "/" <= pattern then pattern[1..] else pattern;
    if p != "" && p[|p| - 1] == '/' then p[..|p| - 1] else p
  }

  predicate Anchored(pattern: string) { "/" <= pattern }

  predicate DirectoryOnly(pattern: string) {
    var p := if "/" <= pattern then pattern[1..] else pattern;
    p != "" && p[|p| - 1] == '/'
  }

  /** A start is allowed at the root, and without an anchor wherever a segment starts. */
  ghost predicate Start(pattern: string, path: string, b: int) {
    0 <= b <= |path| && Boundary(path, b) && (Anchored(pattern) ==> b == 0)
  }

  /**
   The meaning of a pattern over paths and positions, for a given reading of the
   wildcards: directories own what lies below them, bare names own the whole path or
   its last segment, everything else owns the path from an allowed start on.
   */
  ghost predicate Owns(pattern: string, path: string, hits: (string, string) -> bool) {
    var body := Body(pattern);
    if DirectoryOnly(pattern) then
      exists b :: Start(pattern, path, b) && body + "/" <= path[b..]
    else if '/' !in body && !Anchored(pattern) then
      hits(body, path) || exists b :: Start(pattern, path, b) && '/' !in path[b..] && hits(body, path[b..])
    else
      exists b :: Start(pattern, path, b) && hits(body, path[b..])
  }

  /** The last segment of a path. */
  method BaseName(path: string) returns (name: string)
    ensures '/' !in name
    ensures exists b :: 0 <= b <= |path| && Boundary(path, b) && name == path[b..]
  {
    var i := |path|;
    while i > 0 && path[i - 1] != '/'
      invariant 0 <= i <= |path|
      invariant '/' !in path[i..]
    {
      i := i - 1;
      assert path[i..] == [path[i]] + path[i + 1..];
    }
    name := path[i..];
    assert Boundary(path, i);
  }

  lemma LastSegmentUnique(path: string, a: int, b: int)
    requires 0 <= a <= |path| && Boundary(path, a) && '/' !in path[a..]
    requires 0 <= b <= |path| && Boundary(path, b) && '/' !in path[b..]
    ensures a == b
  {
  }

  /** Tries the path from every segment on for a directory prefix. */
  method AnySuffixBelow(prefix: string, path: string) returns (r: bool)
    ensures r <==> exists b :: 0 <= b <= |path| && Boundary(path, b) && prefix <= path[b..]
  {
    var segs := Split(path);
    for i := 0 to |segs|
      invariant forall j :: 0 <= j < i ==> !(prefix <= Join(segs[j..]))
    {
      if prefix <= Join(segs[i..]) {
        ghost var b := SegmentsToBoundary(path, i);
        return true;
      }
    }
    forall b | 0 <= b <= |path| && Boundary(path, b) ensures !(prefix <= path[b..]) {
      var j := BoundaryToSegments(path, b);
    }
    r := false;
  }

  /** Tries the path from every segment on against the wildcards. */
  method AnySuffixMatches(body: string, path: string) returns (r: bool)
    ensures r <==> exists b :: 0 <= b <= |path| && Boundary(path, b) && LiteralFirst(body, path[b..])
  {
    var segs := Split(path);
    for i := 0 to |segs|
      invariant forall j :: 0 <= j < i ==> !LiteralFirst(body, Join(segs[j..]))
    {
      var hit := MatchPattern(body, Join(segs[i..]));
      if hit {
        ghost var b := SegmentsToBoundary(path, i);
        return true;
      }
    }
    forall b | 0 <= b <= |path| && Boundary(path, b) ensures !LiteralFirst(body, path[b..]) {
      var j := BoundaryToSegments(path, b);
    }
    r := false;
  }

  /** A bare name: the whole path or its last segment. */
  method BareNameMatches(body: string, path: string) returns (r: bool)
    ensures r <==> LiteralFirst(body, path) ||
                   exists b :: 0 <= b <= |path| && Boundary(path, b) && '/' !in path[b..] &&
                               LiteralFirst(body, path[b..])
  {
    r := MatchPattern(body, path);
    if !r {
      var base := BaseName(path);
      r := MatchPattern(body, base);
      ghost var b :| 0 <= b <= |path| && Boundary(path, b) && base == path[b..];
      forall c | 0 <= c <= |path| && Boundary(path, c) && '/' !in path[c..] ensures c == b {
        LastSegmentUnique(path, b, c);
      }
    }
  }

  /** The matcher decides the meaning of each pattern form, with its own wildcard loop. */
  method MatchPath(pattern: string, path: string) returns (r: bool)
    ensures r <==> Owns(pattern, path, LiteralFirst)
  {
    var anchored := Anchored(pattern);
    var body := Body(pattern);
    assert path[0..] == path;
    if DirectoryOnly(pattern) {
      var prefix := body + "/";
      if prefix <= path {
        assert Start(pattern, path, 0);
        return true;
      }
      if !anchored {
        r := AnySuffixBelow(prefix, path);
        return;
      }
      return false;
    }
    if '/' !in body && !anchored {
      r := BareNameMatches(body, path);
      return;
    }
    if anchored {
      r := MatchPattern(body, path);
      assert Start(pattern, path, 0);
      return;
    }
    r := AnySuffixMatches(body, path);
  }

  lemma OwnsWithoutStar(pattern: string, path: string)
    requires '*' !in path
    ensures Owns(pattern, path, LiteralFirst) <==> Owns(pattern, path, ByGlob)
  {
    var body := Body(pattern);
    forall b | 0 <= b <= |path| ensures LiteralFirst(body, path[b..]) <==> ByGlob(body, path[b..]) {
      assert '*' !in path[b..];
      LiteralFirstExact(body, path[b..]);
    }
    LiteralFirstExact(body, path);
  }

  /** An anchored pattern that does not end in a slash is tried on the whole path only. */
  lemma OwnsAnchored(body: string, path: string, hits: (string, string) -> bool)
    requires body == "" || body[|body| - 1] != '/'
    ensures Owns("/" + body, path, hits) <==> hits(body, path)
  {
    var pattern := "/" + body;
    assert pattern[1..] == body && path[0..] == path;
    assert Start(pattern, path, 0);
  }

  /** A segment of the path starts here. */
  ghost predicate SegmentAt(path: string, b: int) {
    0 <= b <= |path| && (b == 0 || path[b - 1] == '/')
  }

  /** An anchored directory owns what lies below it at the root. */
  lemma OwnsAnchoredDirectory(d: string, path: string, hits: (string, string) -> bool)
    ensures Owns("/" + d + "/", path, hits) <==> d + "/" <= path
  {
    var pattern := "/" + d + "/";
    assert pattern[1..] == d + "/" && (d + "/")[..|d|] == d && path[0..] == path;
    assert Start(pattern, path, 0);
  }

  /** Any other directory owns what lies below it anywhere. */
  lemma OwnsDirectory(d: string, path: string, hits: (string, string) -> bool)
    requires d != "" && d[0] != '/'
    ensures Owns(d + "/", path, hits) <==> exists b :: SegmentAt(path, b) && d + "/" <= path[b..]
  {
    var pattern := d + "/";
    assert pattern[0] == d[0] && pattern[..|d|] == d;
    assert forall b :: SegmentAt(path, b) <==> Start(pattern, path, b);
  }

  lemma SlashFirst(s: string)
    ensures "/" <= s <==> s != "" && s[0] == '/'
  {
  }

  /** A bare name owns the whole path or its last segment. */
  lemma OwnsBareName(name: string, path: string, hits: (string, string) -> bool)
    requires '/' !in name
    ensures Owns(name, path, hits) <==>
            hits(name, path) || exists b :: SegmentAt(path, b) && '/' !in path[b..] && hits(name, path[b..])
  {
    assert forall i :: 0 <= i < |name| ==> name[i] != '/';
    SlashFirst(name);
    assert !Anchored(name) && !DirectoryOnly(name) && Body(name) == name;
    assert forall b :: SegmentAt(path, b) <==> Start(name, path, b);
  }

  /** A pattern with a slash inside owns the path from any segment on. */
  lemma OwnsInnerSlash(pattern: string, path: string, hits: (string, string) -> bool)
    requires '/' in pattern && pattern[0] != '/' && pattern[|pattern| - 1] != '/'
    ensures Owns(pattern, path, hits) <==> exists b :: SegmentAt(path, b) && hits(pattern, path[b..])
  {
    assert forall b :: SegmentAt(path, b) <==> Start(pattern, path, b);
  }

  /** For a path with a star some rule that should own it does not. */
  lemma UnownedPath(path: string) returns (pattern: string)
    requires '*' in path
    ensures Owns(pattern, path, ByGlob) && !Owns(pattern, path, LiteralFirst)
  {
    var k :| 0 <= k < |path| && path[k] == '*';
    var body := RefusedPattern(path, k);
    OwnsAnchored(body, path, LiteralFirst);
    OwnsAnchored(body, path, ByGlob);
    pattern := "/" + body;
  }

  /** A path is owned under every pattern as the glob relation says exactly when it holds no star. */
  lemma OwnsByGlob(path: string)
    ensures (forall pattern :: Owns(pattern, path, LiteralFirst) <==> Owns(pattern, path, ByGlob)) <==> '*' !in path
  {
    if '*' in path {
      var pattern := UnownedPath(path);
    } else {
      forall pattern ensures Owns(pattern, path, LiteralFirst) <==> Owns(pattern, path, ByGlob) {
        OwnsWithoutStar(pattern, path);
      }
    }
  }

  /** The last rule that owns the path gives the owners. */
  method OwnersFor(rules: seq<Rule>, path: string) returns (owners: seq<string>)
    ensures (forall j :: 0 <= j < |rules| ==> !Owns(rules[j].pattern, path, LiteralFirst)) ==> owners == []
    ensures forall i :: 0 <= i < |rules| && Owns(rules[i].pattern, path, LiteralFirst) &&
                        (forall j :: i < j < |rules| ==> !Owns(rules[j].pattern, path, LiteralFirst))
              ==> owners == rules[i].owners
  {
    owners := [];
    for i := 0 to |rules|
      invariant (forall j :: 0 <= j < i ==> !Owns(rules[j].pattern, path, LiteralFirst)) ==> owners == []
      invariant forall k :: 0 <= k < i && Owns(rules[k].pattern, path, LiteralFirst) &&
                            (forall j :: k < j < i ==> !Owns(rules[j].pattern, path, LiteralFirst))
                  ==> owners == rules[k].owners
    {
      var hit := MatchPath(rules[i].pattern, path);
      if hit {
        owners := rules[i].owners;
      }
    }
  }
}
