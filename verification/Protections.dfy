/** Branch and tag protection at push time: the pre-receive check of the git service. */
module Protections {
  import opened Common
  import opened Glob

  /** Part of the ref after the prefix, empty when the ref is not under it. */
  function Below(prefix: string, ref: string): string {
    if prefix <= ref then ref[|prefix|..] else ""
  }

  datatype RefUpdate = RefUpdate(before: string, after: string, ref: string) {
    function BranchName(): string { Below("refs/heads/", ref) }
    function TagName(): string { Below("refs/tags/", ref) }
    predicate IsDelete() { forall i :: 0 <= i < |after| ==> after[i] == '0' }
  }

  datatype Rule = Rule(pattern: string, requireReview: bool, requireSigned: bool)

  /** A signature service: absent, or a verdict (or failure) per commit. */
  type Signatures = Option<string -> Result<bool, string>>

  datatype Rejection =
    | RulesUnavailable(cause: string)
    | BranchDeletion(name: string)
    | SignatureFailure(cause: string)
    | Unsigned(name: string)
    | BranchPush(name: string)
    | TagDeletion(name: string)
    | TagOverwrite(name: string)

  // ---------------------------------------------------------------------
  // The check
  // ---------------------------------------------------------------------

  function CheckSigned(sig: Signatures, sha: string): Result<bool, string> {
    match sig
    case None => Ok(false)
    case Some(verify) => verify(sha)
  }

  /** The first branch rule that rejects an update. */
  function FirstBranchRejection(u: RefUpdate, rules: seq<Rule>, sig: Signatures): Option<Rejection> {
    if rules == [] then None
    else if !LiteralFirst(rules[0].pattern, u.BranchName()) then FirstBranchRejection(u, rules[1..], sig)
    else if u.IsDelete() then Some(BranchDeletion(u.BranchName()))
    else if !rules[0].requireSigned then Some(BranchPush(u.BranchName()))
    else match CheckSigned(sig, u.after)
         case Err(e) => Some(SignatureFailure(e))
         case Ok(false) => Some(Unsigned(u.BranchName()))
         case Ok(true) => FirstBranchRejection(u, rules[1..], sig)
  }

  /** The first tag pattern that rejects an update. */
  function FirstTagRejection(u: RefUpdate, tags: seq<string>): Option<Rejection> {
    if tags == [] then None
    else if !LiteralFirst(tags[0], u.TagName()) then FirstTagRejection(u, tags[1..])
    else Some(if u.IsDelete() then TagDeletion(u.TagName()) else TagOverwrite(u.TagName()))
  }

  function UpdateRejection(u: RefUpdate, rules: seq<Rule>, tags: seq<string>, sig: Signatures): Option<Rejection> {
    var b := if u.BranchName() == "" then None else FirstBranchRejection(u, rules, sig);
    if b.Some? then b
    else if u.TagName() == "" then None else FirstTagRejection(u, tags)
  }

  function PushRejection(updates: seq<RefUpdate>, rules: seq<Rule>, tags: seq<string>, sig: Signatures)
    : Option<Rejection>
  {
    if updates == [] then None
    else
      var first := UpdateRejection(updates[0], rules, tags, sig);
      if first.Some? then first else PushRejection(updates[1..], rules, tags, sig)
  }

  /** The loops of the source; the rejection reported is the first one met. */
  method EnforceProtections(branchRules: Result<seq<Rule>, string>, tagRules: Result<seq<string>, string>,
                            updates: seq<RefUpdate>, isAdmin: bool, sig: Signatures)
    returns (r: Option<Rejection>)
    ensures r == if isAdmin then None
                 else if branchRules.Err? then Some(RulesUnavailable(branchRules.error))
                 else if tagRules.Err? then Some(RulesUnavailable(tagRules.error))
                 else PushRejection(updates, branchRules.value, tagRules.value, sig)
  {
    if isAdmin {
      return None;
    }
    if branchRules.Err? {
      return Some(RulesUnavailable(branchRules.error));
    }
    if tagRules.Err? {
      return Some(RulesUnavailable(tagRules.error));
    }
    var rules, tags := branchRules.value, tagRules.value;
    for i := 0 to |updates|
      invariant PushRejection(updates, rules, tags, sig) == PushRejection(updates[i..], rules, tags, sig)
    {
      var u := updates[i];
      var name := u.BranchName();
      assert updates[i..][0] == u && updates[i..][1..] == updates[i + 1..];
      if name != "" {
        for j := 0 to |rules|
          invariant FirstBranchRejection(u, rules, sig) == FirstBranchRejection(u, rules[j..], sig)
        {
          assert rules[j..][0] == rules[j] && rules[j..][1..] == rules[j + 1..];
          var hit := MatchPattern(rules[j].pattern, name);
          if hit {
            if u.IsDelete() {
              return Some(BranchDeletion(name));
            }
            if rules[j].requireSigned {
              var signed := CheckSigned(sig, u.after);
              if signed.Err? {
                return Some(SignatureFailure(signed.error));
              }
              if !signed.value {
                return Some(Unsigned(name));
              }
            } else {
              return Some(BranchPush(name));
            }
          }
        }
      }
      name := u.TagName();
      if name != "" {
        for j := 0 to |tags|
          invariant FirstTagRejection(u, tags) == FirstTagRejection(u, tags[j..])
        {
          assert tags[j..][0] == tags[j] && tags[j..][1..] == tags[j + 1..];
          var hit := MatchPattern(tags[j], name);
          if hit {
            return Some(if u.IsDelete() then TagDeletion(name) else TagOverwrite(name));
          }
        }
      }
    }
    r := None;
  }

  // ---------------------------------------------------------------------
  // What it means for a push to be accepted
  // ---------------------------------------------------------------------

  /** Every matching branch rule asks for signing and gets it; no tag pattern matches. */
  ghost predicate Permitted(u: RefUpdate, rules: seq<Rule>, tags: seq<string>, sig: Signatures,
                            hits: (string, string) -> bool)
  {
    && (u.BranchName() != "" ==>
          forall r :: r in rules && hits(r.pattern, u.BranchName()) ==>
            r.requireSigned && !u.IsDelete() && CheckSigned(sig, u.after) == Ok(true))
    && (u.TagName() != "" ==> forall t :: t in tags ==> !hits(t, u.TagName()))
  }

  lemma {:induction false} BranchPermitted(u: RefUpdate, rules: seq<Rule>, sig: Signatures)
    ensures FirstBranchRejection(u, rules, sig).None? <==>
            forall r :: r in rules && LiteralFirst(r.pattern, u.BranchName()) ==>
              r.requireSigned && !u.IsDelete() && CheckSigned(sig, u.after) == Ok(true)
  {
    if rules != [] {
      BranchPermitted(u, rules[1..], sig);
      assert forall r :: r in rules <==> r == rules[0] || r in rules[1..];
    }
  }

  lemma {:induction false} TagPermitted(u: RefUpdate, tags: seq<string>)
    ensures FirstTagRejection(u, tags).None? <==> forall t :: t in tags ==> !LiteralFirst(t, u.TagName())
  {
    if tags != [] {
      TagPermitted(u, tags[1..]);
      assert forall t :: t in tags <==> t == tags[0] || t in tags[1..];
    }
  }

  lemma UpdatePermitted(u: RefUpdate, rules: seq<Rule>, tags: seq<string>, sig: Signatures)
    ensures UpdateRejection(u, rules, tags, sig).None? <==> Permitted(u, rules, tags, sig, LiteralFirst)
  {
    BranchPermitted(u, rules, sig);
    TagPermitted(u, tags);
  }

  /** A push is accepted exactly when each of its updates is. */
  lemma {:induction false} PushPermitted(updates: seq<RefUpdate>, rules: seq<Rule>, tags: seq<string>, sig: Signatures)
    ensures PushRejection(updates, rules, tags, sig).None? <==>
            forall u :: u in updates ==> Permitted(u, rules, tags, sig, LiteralFirst)
  {
    if updates != [] {
      UpdatePermitted(updates[0], rules, tags, sig);
      PushPermitted(updates[1..], rules, tags, sig);
      assert forall u :: u in updates <==> u == updates[0] || u in updates[1..];
    }
  }

  /** The check splits over concatenation: the first part that is rejected decides. */
  lemma {:induction false} PushSplits(a: seq<RefUpdate>, b: seq<RefUpdate>, rules: seq<Rule>, tags: seq<string>,
                                      sig: Signatures)
    ensures PushRejection(a + b, rules, tags, sig) ==
            var first := PushRejection(a, rules, tags, sig);
            if first.Some? then first else PushRejection(b, rules, tags, sig)
  {
    if a == [] {
      assert a + b == b;
    } else {
      PushSplits(a[1..], b, rules, tags, sig);
      assert (a + b)[0] == a[0] && (a + b)[1..] == a[1..] + b;
    }
  }

  /**
   Whatever is accepted under more rules is accepted under fewer; in particular
   neither the order nor the repetition of rules matters.
   */
  lemma RulesOnlyForbid(updates: seq<RefUpdate>, rules: seq<Rule>, more: seq<Rule>,
                        tags: seq<string>, moreTags: seq<string>, sig: Signatures)
    requires (forall r :: r in rules ==> r in more) && (forall t :: t in tags ==> t in moreTags)
    ensures PushRejection(updates, more, moreTags, sig).None? ==> PushRejection(updates, rules, tags, sig).None?
    ensures (forall r :: r in more ==> r in rules) && (forall t :: t in moreTags ==> t in tags) ==>
              (PushRejection(updates, more, moreTags, sig).None? <==> PushRejection(updates, rules, tags, sig).None?)
  {
    PushPermitted(updates, more, moreTags, sig);
    PushPermitted(updates, rules, tags, sig);
  }

  /**
   For a ref, the check agrees with the glob relation under every configuration
   exactly when its branch and tag names hold no star, as git's ref name rules
   guarantee.
   */
  lemma ExactForRef(u: RefUpdate)
    ensures (forall rules, tags, sig ::
               UpdateRejection(u, rules, tags, sig).None? <==> Permitted(u, rules, tags, sig, ByGlob))
            <==> '*' !in u.BranchName() && '*' !in u.TagName()
  {
    if '*' in u.BranchName() {
      var p := RefusedBy(u.BranchName());
      var rules, tags: seq<string>, sig: Signatures := [Rule(p, false, false)], [], None;
      UpdatePermitted(u, rules, tags, sig);
      assert rules[0] in rules && ByGlob(p, u.BranchName());
      assert !Permitted(u, rules, tags, sig, ByGlob);
      assert FirstBranchRejection(u, rules, sig) == FirstBranchRejection(u, rules[1..], sig) == None;
      assert UpdateRejection(u, rules, tags, sig).None?;
    } else if '*' in u.TagName() {
      var p := RefusedBy(u.TagName());
      var rules: seq<Rule>, tags, sig: Signatures := [], [p], None;
      UpdatePermitted(u, rules, tags, sig);
      assert tags[0] in tags && ByGlob(p, u.TagName());
      assert !Permitted(u, rules, tags, sig, ByGlob);
    } else {
      forall rules, tags, sig
        ensures UpdateRejection(u, rules, tags, sig).None? <==> Permitted(u, rules, tags, sig, ByGlob)
      {
        UpdatePermitted(u, rules, tags, sig);
        LiteralFirstByName(u.BranchName());
        LiteralFirstByName(u.TagName());
      }
    }
  }

  lemma RefusedBy(name: string) returns (p: string)
    requires '*' in name
    ensures Matches(p, name) && !LiteralFirst(p, name)
  {
    var k :| 0 <= k < |name| && name[k] == '*';
    p := RefusedPattern(name, k);
  }

  // ---------------------------------------------------------------------
  // The same, said of the ref texts
  // ---------------------------------------------------------------------

  /** Some character of the new id is not a zero. */
  ghost predicate NewCommit(id: string) { exists i :: 0 <= i < |id| && id[i] != '0' }

  /** A signature service is there and vouches for the commit. */
  ghost predicate Vouched(sig: Signatures, id: string) { sig.Some? && sig.value(id) == Ok(true) }

  lemma OneUpdate(u: RefUpdate, rules: seq<Rule>, tags: seq<string>, sig: Signatures)
    ensures PushRejection([u], rules, tags, sig) == UpdateRejection(u, rules, tags, sig)
  {
    assert [u][1..] == [];
    assert PushRejection([], rules, tags, sig) == None;
  }

  lemma Prefixed(prefix: string, name: string)
    ensures prefix <= prefix + name && (prefix + name)[|prefix|..] == name
  {
  }

  /** A branch and a tag name cannot come from one ref. */
  lemma BranchOrTag(name: string)
    ensures !("refs/tags/" <= "refs/heads/" + name) && !("refs/heads/" <= "refs/tags/" + name)
  {
    assert ("refs/heads/" + name)[5] == 'h' && ("refs/tags/" + name)[5] == 't';
  }

  /** A push to a branch passes iff every rule that hits it asks for signing, and the new commit is vouched for. */
  lemma BranchPushExactly(was: string, id: string, b: string, rules: seq<Rule>, tags: seq<string>, sig: Signatures)
    requires b != ""
    ensures PushRejection([RefUpdate(was, id, "refs/heads/" + b)], rules, tags, sig).None? <==>
            forall r :: r in rules && LiteralFirst(r.pattern, b) ==>
              r.requireSigned && NewCommit(id) && Vouched(sig, id)
  {
    var u := RefUpdate(was, id, "refs/heads/" + b);
    Prefixed("refs/heads/", b);
    BranchOrTag(b);
    OneUpdate(u, rules, tags, sig);
    UpdatePermitted(u, rules, tags, sig);
    assert u.BranchName() == b && u.TagName() == "";
    assert u.IsDelete() <==> !NewCommit(id);
  }

  /** A push to a tag passes iff no pattern hits it. */
  lemma TagPushExactly(was: string, id: string, t: string, rules: seq<Rule>, tags: seq<string>, sig: Signatures)
    requires t != ""
    ensures PushRejection([RefUpdate(was, id, "refs/tags/" + t)], rules, tags, sig).None? <==>
            forall p :: p in tags ==> !LiteralFirst(p, t)
  {
    var u := RefUpdate(was, id, "refs/tags/" + t);
    Prefixed("refs/tags/", t);
    BranchOrTag(t);
    OneUpdate(u, rules, tags, sig);
    UpdatePermitted(u, rules, tags, sig);
    assert u.TagName() == t && u.BranchName() == "";
  }

  /** Everything else passes. */
  lemma OtherRefsPass(u: RefUpdate, rules: seq<Rule>, tags: seq<string>, sig: Signatures)
    requires forall n :: n != "" ==> u.ref != "refs/heads/" + n && u.ref != "refs/tags/" + n
    ensures PushRejection([u], rules, tags, sig).None?
  {
    OneUpdate(u, rules, tags, sig);
    if "refs/heads/" <= u.ref {
      assert u.ref == "refs/heads/" + u.ref[|"refs/heads/"|..];
    }
    if "refs/tags/" <= u.ref {
      assert u.ref == "refs/tags/" + u.ref[|"refs/tags/"|..];
    }
  }

  /** What is said about a rejected branch. */
  ghost predicate BranchReason(x: Rejection, b: string, id: string, rules: seq<Rule>, sig: Signatures) {
    if !NewCommit(id) then x == BranchDeletion(b)
    else
      exists r :: r in rules && LiteralFirst(r.pattern, b) &&
        if !r.requireSigned then x == BranchPush(b)
        else if sig.None? || sig.value(id) == Ok(false) then x == Unsigned(b)
        else sig.value(id).Err? && x == SignatureFailure(sig.value(id).error)
  }

  lemma {:induction false} FirstReason(u: RefUpdate, rules: seq<Rule>, sig: Signatures)
    requires FirstBranchRejection(u, rules, sig).Some?
    ensures BranchReason(FirstBranchRejection(u, rules, sig).value, u.BranchName(), u.after, rules, sig)
  {
    assert u.IsDelete() <==> !NewCommit(u.after);
    if !LiteralFirst(rules[0].pattern, u.BranchName()) || FirstBranchRejection(u, rules[1..], sig).Some? {
      if FirstBranchRejection(u, rules, sig) == FirstBranchRejection(u, rules[1..], sig) {
        FirstReason(u, rules[1..], sig);
        assert forall r :: r in rules[1..] ==> r in rules;
      } else {
        assert rules[0] in rules;
      }
    } else {
      assert rules[0] in rules;
    }
  }

  /** The rejection names the branch and a reason that holds. */
  lemma BranchRejectionReason(was: string, id: string, b: string, rules: seq<Rule>, tags: seq<string>, sig: Signatures)
    requires b != ""
    ensures var x := PushRejection([RefUpdate(was, id, "refs/heads/" + b)], rules, tags, sig);
            x.Some? ==> BranchReason(x.value, b, id, rules, sig)
  {
    var u := RefUpdate(was, id, "refs/heads/" + b);
    Prefixed("refs/heads/", b);
    BranchOrTag(b);
    OneUpdate(u, rules, tags, sig);
    if FirstBranchRejection(u, rules, sig).Some? {
      FirstReason(u, rules, sig);
    }
  }

  lemma TagRejectionReason(was: string, id: string, t: string, rules: seq<Rule>, tags: seq<string>, sig: Signatures)
    requires t != ""
    ensures var x := PushRejection([RefUpdate(was, id, "refs/tags/" + t)], rules, tags, sig);
            x.Some? ==> x.value == if NewCommit(id) then TagOverwrite(t) else TagDeletion(t)
  {
    var u := RefUpdate(was, id, "refs/tags/" + t);
    Prefixed("refs/tags/", t);
    BranchOrTag(t);
    OneUpdate(u, rules, tags, sig);
    TagReason(u, tags);
    assert u.IsDelete() <==> !NewCommit(id);
  }

  lemma {:induction false} TagReason(u: RefUpdate, tags: seq<string>)
    ensures var x := FirstTagRejection(u, tags);
            x.Some? ==> x.value == if u.IsDelete() then TagDeletion(u.TagName()) else TagOverwrite(u.TagName())
  {
    if tags != [] {
      TagReason(u, tags[1..]);
    }
  }
}
