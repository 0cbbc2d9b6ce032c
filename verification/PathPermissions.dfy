/** Path permission rules: the longest matching pattern decides, the first of equals wins. */
module PathPermissions {
  import opened Glob

  datatype Rule = Rule(id: int, pattern: string, permission: string)

  /** Rule i decides: it matches, no longer pattern matches, no earlier one of its length does. */
  ghost predicate Decides(rules: seq<Rule>, path: string, i: int) {
    && 0 <= i < |rules|
    && Matches(rules[i].pattern, path)
    && forall j :: 0 <= j < |rules| && Matches(rules[j].pattern, path) ==>
         |rules[j].pattern| <= |rules[i].pattern| &&
         (j < i ==> |rules[j].pattern| < |rules[i].pattern|)
  }

  /**
   The source finds the winning pattern in one pass and its permission in
   another, by pattern text; both passes together name the deciding rule.
   */
  method Match(rules: seq<Rule>, path: string) returns (permission: string, found: bool)
    ensures found <==> exists j :: 0 <= j < |rules| && Matches(rules[j].pattern, path)
    ensures found ==> exists i :: Decides(rules, path, i) && permission == rules[i].permission
    ensures !found ==> permission == ""
  {
    var best := "";
    found := false;
    ghost var w := 0;
    for i := 0 to |rules|
      invariant found ==> Decides(rules[..i], path, w) && best == rules[w].pattern
      invariant !found ==> best == "" && forall j :: 0 <= j < i ==> !Matches(rules[j].pattern, path)
    {
      assert rules[..i + 1][..i] == rules[..i];
      var hit := StarFirst(rules[i].pattern, path);
      if !hit {
        continue;
      }
      if !found || |rules[i].pattern| > |best| {
        best := rules[i].pattern;
        found := true;
        w := i;
      }
    }
    assert rules[..|rules|] == rules;
    if !found {
      return "", false;
    }
    for i := 0 to |rules|
      invariant forall j :: 0 <= j < i ==> rules[j].pattern != best
    {
      if rules[i].pattern == best {
        return rules[i].permission, true;
      }
    }
    assert false;
  }
}
