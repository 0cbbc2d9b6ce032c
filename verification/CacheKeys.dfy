/** Keys of cached decisions: user, repository, resource and action joined by colons. */
module CacheKeys {
  import opened Sequences

  /** A permission check against a repository (positive id) or an organization. */
  datatype Requirement = Requirement(resource: string, action: string, repo: int, org: int)

  function Digit(d: nat): char
    requires d < 10
  {
    (48 + d) as char
  }

  function Decimal(n: nat): string {
    if n < 10 then [Digit(n)] else Decimal(n / 10) + [Digit(n % 10)]
  }

  function FormatInt(n: int): string {
    if n < 0 then "-" + Decimal(-n) else Decimal(n)
  }

  function CacheKey(user: int, req: Requirement): string {
    FormatInt(user) + ":" + FormatInt(req.repo) + ":" + req.resource + ":" + req.action
  }

  // ---------------------------------------------------------------------
  // Numbers
  // ---------------------------------------------------------------------

  function Value(s: string): int {
    if s == "" then 0 else Value(s[..|s| - 1]) * 10 + (s[|s| - 1] as int - 48)
  }

  lemma {:induction false} DecimalReads(n: nat)
    ensures Value(Decimal(n)) == n
    ensures Decimal(n) != "" && forall i :: 0 <= i < |Decimal(n)| ==> '0' <= Decimal(n)[i] <= '9'
  {
    if n < 10 {
      assert Decimal(n)[..0] == "";
      assert Value(Decimal(n)) == Value("") * 10 + (Digit(n) as int - 48);
    } else {
      DecimalReads(n / 10);
      ConcatSlices(Decimal(n / 10), [Digit(n % 10)]);
    }
  }

  lemma FormatIntInjective(a: int, b: int)
    requires FormatInt(a) == FormatInt(b)
    ensures a == b
  {
    DecimalReads(if a < 0 then -a else a);
    DecimalReads(if b < 0 then -b else b);
    if a < 0 {
      assert FormatInt(a)[0] == '-' && FormatInt(a)[1..] == Decimal(-a);
    }
    if b < 0 {
      assert FormatInt(b)[0] == '-' && FormatInt(b)[1..] == Decimal(-b);
    }
  }

  lemma NoColonInNumber(n: int)
    ensures ':' !in FormatInt(n)
  {
    DecimalReads(if n < 0 then -n else n);
  }

  // ---------------------------------------------------------------------
  // Keys
  // ---------------------------------------------------------------------

  /** Texts with the same part before their first colon. */
  lemma FirstColon(a: string, b: string, c: string, d: string)
    requires ':' !in a && ':' !in c && a + ":" + b == c + ":" + d
    ensures a == c && b == d
  {
    var s := a + ":" + b;
    assert s[|a|] == ':' && s[|c|] == ':';
    assert forall i :: 0 <= i < |a| ==> s[i] == a[i] && s[i] in a;
    assert forall i :: 0 <= i < |c| ==> s[i] == c[i] && s[i] in c;
    assert |a| == |c|;
    ConcatSlices(a, ":" + b);
    ConcatSlices(c, ":" + d);
    ConcatAssoc(a, ":", b);
    ConcatAssoc(c, ":", d);
    assert (":" + b)[1..] == b && (":" + d)[1..] == d;
  }

  /** What a requirement contributes behind the numbers. */
  function Subject(req: Requirement): string {
    req.resource + ":" + req.action
  }

  lemma KeyParts(user: int, req: Requirement)
    ensures CacheKey(user, req) == FormatInt(user) + ":" + (FormatInt(req.repo) + ":" + Subject(req))
  {
    var a, b := FormatInt(user), FormatInt(req.repo);
    assert a + ":" + b + ":" + req.resource + ":" + req.action ==
           a + ":" + (b + ":" + (req.resource + ":" + req.action));
  }

  /** Two checks share a key exactly when user, repository and subject text agree. */
  lemma SameKey(u: int, q: Requirement, v: int, r: Requirement)
    ensures CacheKey(u, q) == CacheKey(v, r) <==> u == v && q.repo == r.repo && Subject(q) == Subject(r)
  {
    KeyParts(u, q);
    KeyParts(v, r);
    if CacheKey(u, q) == CacheKey(v, r) {
      NoColonInNumber(u);
      NoColonInNumber(v);
      NoColonInNumber(q.repo);
      NoColonInNumber(r.repo);
      FirstColon(FormatInt(u), FormatInt(q.repo) + ":" + Subject(q),
                 FormatInt(v), FormatInt(r.repo) + ":" + Subject(r));
      FirstColon(FormatInt(q.repo), Subject(q), FormatInt(r.repo), Subject(r));
      FormatIntInjective(u, v);
      FormatIntInjective(q.repo, r.repo);
    }
  }

  /** Without colons in the resources, a key names one permission. */
  lemma KeyNamesPermission(u: int, q: Requirement, v: int, r: Requirement)
    requires ':' !in q.resource && ':' !in r.resource && CacheKey(u, q) == CacheKey(v, r)
    ensures u == v && q.repo == r.repo && q.resource == r.resource && q.action == r.action
  {
    SameKey(u, q, v, r);
    FirstColon(q.resource, q.action, r.resource, r.action);
  }

  /** Two checks of a user that the cache cannot tell apart although they ask for different permissions. */
  ghost predicate Confused(u: int, q: Requirement, r: Requirement) {
    CacheKey(u, q) == CacheKey(u, r) && (q.resource != r.resource || q.action != r.action)
  }

  /** Splits the text of a check at another colon. */
  lemma SplitElsewhere(r: Requirement, k: nat) returns (q: Requirement)
    requires k < |Subject(r)| && Subject(r)[k] == ':' && k != |r.resource|
    ensures q.repo == r.repo && Subject(q) == Subject(r) && q.resource != r.resource
  {
    var s := Subject(r);
    q := Requirement(s[..k], s[k + 1..], r.repo, r.org);
    assert s[..k] + ":" + s[k + 1..] == s;
  }

  /** A check can be confused with another one exactly when its resource or its action holds a colon. */
  lemma ConfusableExactly(u: int, r: Requirement)
    ensures (exists q :: Confused(u, q, r)) <==> ':' in r.resource || ':' in r.action
  {
    var s, n := Subject(r), |r.resource|;
    assert s[n] == ':';
    if ':' in r.resource || ':' in r.action {
      var k: nat;
      if ':' in r.resource {
        k :| 0 <= k < n && r.resource[k] == ':';
      } else {
        var j :| 0 <= j < |r.action| && r.action[j] == ':';
        k := n + 1 + j;
      }
      assert s[k] == ':' && k != n;
      var q := SplitElsewhere(r, k);
      SameKey(u, q, u, r);
      assert Confused(u, q, r);
    }
    forall q | Confused(u, q, r) ensures ':' in r.resource || ':' in r.action {
      SameKey(u, q, u, r);
      ColonWithin(r, |q.resource|);
      if |q.resource| == n {
        SameSplit(q, r);
      } else {
        assert Subject(q)[|q.resource|] == ':';
      }
    }
  }

  /** Texts split at the same place. */
  lemma SameSplit(q: Requirement, r: Requirement)
    requires Subject(q) == Subject(r) && |q.resource| == |r.resource|
    ensures q.resource == r.resource && q.action == r.action
  {
    var n := |q.resource|;
    assert q.resource == Subject(q)[..n] && r.resource == Subject(r)[..n];
    assert q.action == Subject(q)[n + 1..] && r.action == Subject(r)[n + 1..];
  }

  lemma ColonWithin(r: Requirement, k: nat)
    ensures k < |Subject(r)| && Subject(r)[k] == ':' && k != |r.resource| ==> ':' in r.resource || ':' in r.action
  {
    if k < |r.resource| {
      assert Subject(r)[k] == r.resource[k];
    } else if |r.resource| < k < |Subject(r)| {
      assert Subject(r)[k] == r.action[k - |r.resource| - 1];
    }
  }
}
