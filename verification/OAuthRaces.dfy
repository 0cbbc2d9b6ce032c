/**
 Exchanges step by step. An exchange selects the code's row, deletes it without looking whether that
 worked or whether there was still something to delete, and then inserts a token; exchanges of
 several clients interleave between these steps.
 */
module OAuthRaces {
  /** An exchange that passed the checks, before and after its delete. */
  datatype Exchange = Selected(code: string) | Deleted(code: string)

  /** `issued` lists every code ever issued, `minted` the codes of the tokens in the order of insertion. */
  datatype State = State(codes: set<string>, issued: set<string>, pending: map<nat, Exchange>, minted: seq<string>)

  datatype Event =
    | Issue(code: string)
    | Select(x: nat, code: string)   // finds the row and passes the checks
    | Expire(code: string)           // an exchange that comes too late deletes the row
    | Delete(x: nat, ok: bool)       // a delete that fails goes unnoticed
    | Insert(x: nat)
    | Fail(x: nat)                   // no token is stored after the delete

  const INITIAL := State({}, {}, map[], [])

  function Step(s: State, e: Event): State {
    match e
    case Issue(code) => if code in s.issued then s else s.(codes := s.codes + {code}, issued := s.issued + {code})
    case Select(x, code) =>
      if x in s.pending || code !in s.codes then s else s.(pending := s.pending[x := Selected(code)])
    case Expire(code) => s.(codes := s.codes - {code})
    case Delete(x, ok) =>
      if x !in s.pending || !s.pending[x].Selected? then s
      else
        var code := s.pending[x].code;
        s.(codes := if ok then s.codes - {code} else s.codes, pending := s.pending[x := Deleted(code)])
    case Insert(x) =>
      if x !in s.pending || !s.pending[x].Deleted? then s
      else s.(pending := s.pending - {x}, minted := s.minted + [s.pending[x].code])
    case Fail(x) => if x in s.pending && s.pending[x].Deleted? then s.(pending := s.pending - {x}) else s
  }

  function Run(es: seq<Event>, n: nat): State
    requires n <= |es|
  {
    if n == 0 then INITIAL else Step(Run(es, n - 1), es[n - 1])
  }

  /** Two exchanges have selected the code and neither has deleted it. */
  ghost predicate Overlap(s: State, x: nat, y: nat, code: string) {
    x != y && x in s.pending && y in s.pending && s.pending[x] == s.pending[y] == Selected(code)
  }

  /** The next step is a delete of the code that fails. */
  ghost predicate DeleteLost(s: State, e: Event, code: string) {
    e.Delete? && !e.ok && e.x in s.pending && s.pending[e.x] == Selected(code)
  }

  /** Two exchanges of the code overlap, or its delete is about to be lost. */
  ghost predicate Disturbed(s: State, e: Event, code: string) {
    DeleteLost(s, e, code) || exists x, y :: Overlap(s, x, y, code)
  }

  ghost predicate DisturbedAt(es: seq<Event>, k: int, code: string) {
    0 <= k < |es| && Disturbed(Run(es, k), es[k], code)
  }

  ghost predicate Twice(s: State, code: string) {
    exists i, j :: 0 <= i < j < |s.minted| && s.minted[i] == s.minted[j] == code
  }

  /** As long as exchanges of a code did not overlap and its deletes worked, whoever deleted it was alone with it. */
  ghost predicate Alone(s: State, code: string) {
    && (code in s.codes ==> code in s.issued)
    && (forall x :: x in s.pending && s.pending[x].code == code ==> code in s.issued && code !in s.minted)
    && (forall x :: x in s.pending && s.pending[x] == Deleted(code) ==>
          code !in s.codes && forall y :: y in s.pending && s.pending[y].code == code ==> y == x)
    && (code in s.minted ==> code in s.issued && code !in s.codes)
    && !Twice(s, code)
  }

  lemma StepKeepsAlone(s: State, e: Event, code: string)
    requires Alone(s, code) && !Disturbed(s, e, code)
    ensures Alone(Step(s, e), code)
  {
    if e.Delete? && e.x in s.pending && s.pending[e.x] == Selected(code) {
      forall y | y in s.pending && s.pending[y].code == code ensures y == e.x {
        assert !Overlap(s, e.x, y, code);
      }
    }
  }

  lemma {:induction false} RunKeepsAlone(es: seq<Event>, n: nat, code: string)
    requires n <= |es| && forall k :: 0 <= k < n ==> !DisturbedAt(es, k, code)
    ensures Alone(Run(es, n), code)
  {
    if n > 0 {
      RunKeepsAlone(es, n - 1, code);
      assert !DisturbedAt(es, n - 1, code);
      StepKeepsAlone(Run(es, n - 1), es[n - 1], code);
    }
  }

  /** A code yields two tokens only if two of its exchanges overlapped or a delete of it was lost. */
  lemma TwoTokensOnlyIf(es: seq<Event>, code: string)
    requires Twice(Run(es, |es|), code)
    ensures exists k :: DisturbedAt(es, k, code)
  {
    if forall k :: 0 <= k < |es| ==> !DisturbedAt(es, k, code) {
      RunKeepsAlone(es, |es|, code);
    }
  }

  /** A run that goes on after n steps. */
  lemma {:induction false} RunOn(es: seq<Event>, more: seq<Event>, n: nat)
    requires n <= |es|
    ensures Run(es + more, n) == Run(es, n)
  {
    if n > 0 {
      RunOn(es, more, n - 1);
    }
  }

  /** The last step of a longer run. */
  lemma RunSnoc(es: seq<Event>, e: Event)
    ensures Run(es + [e], |es| + 1) == Step(Run(es, |es|), e)
  {
    RunOn(es, [e], |es|);
  }

  /** An exchange that has selected the code finishes and leaves it deleted unless the delete is lost. */
  lemma Finishes(es: seq<Event>, x: nat, code: string, ok: bool) returns (more: seq<Event>)
    requires x in Run(es, |es|).pending && Run(es, |es|).pending[x] == Selected(code)
    ensures more == es + [Delete(x, ok)] + [Insert(x)]
    ensures var s, t := Run(es, |es|), Run(more, |more|);
            && t.minted == s.minted + [code] && t.pending == s.pending - {x}
            && t.codes == if ok then s.codes - {code} else s.codes
  {
    RunSnoc(es, Delete(x, ok));
    RunSnoc(es + [Delete(x, ok)], Insert(x));
    more := es + [Delete(x, ok)] + [Insert(x)];
  }

  lemma BothMinted(minted: seq<string>, s: State, code: string)
    requires s.minted == minted + [code] + [code]
    ensures Twice(s, code)
  {
    assert s.minted[|minted|] == code && s.minted[|minted| + 1] == code;
  }

  /** From every moment at which two exchanges overlap, finishing both hands out two tokens for one code. */
  lemma OverlapYieldsTwo(es: seq<Event>, x: nat, y: nat, code: string) returns (more: seq<Event>)
    requires Overlap(Run(es, |es|), x, y, code)
    ensures more == es + [Delete(x, true)] + [Insert(x)] + [Delete(y, true)] + [Insert(y)]
    ensures Twice(Run(more, |more|), code)
  {
    more := Finishes(es, x, code, true);
    more := Finishes(more, y, code, true);
    BothMinted(Run(es, |es|).minted, Run(more, |more|), code);
  }

  /** After every lost delete of a stored code a later exchange of the same code hands out a second token. */
  lemma LostDeleteYieldsTwo(es: seq<Event>, x: nat, y: nat, code: string) returns (more: seq<Event>)
    requires code in Run(es, |es|).codes && DeleteLost(Run(es, |es|), Delete(x, false), code)
    requires y !in Run(es, |es|).pending
    ensures more == es + [Delete(x, false)] + [Insert(x)] + [Select(y, code)] + [Delete(y, true)] + [Insert(y)]
    ensures Twice(Run(more, |more|), code)
  {
    more := Finishes(es, x, code, false);
    RunSnoc(more, Select(y, code));
    more := Finishes(more + [Select(y, code)], y, code, true);
    BothMinted(Run(es, |es|).minted, Run(more, |more|), code);
  }

  /** For every code there is a moment at which two exchanges overlap. */
  lemma OverlapHappens(code: string)
    ensures Overlap(Run([Issue(code), Select(1, code), Select(2, code)], 3), 1, 2, code)
  {
    var es := [Issue(code), Select(1, code), Select(2, code)];
    var s1 := State({code}, {code}, map[], []);
    assert Run(es, 0) == INITIAL;
    assert Run(es, 1) == s1;
    assert Run(es, 2) == s1.(pending := map[1 := Selected(code)]);
    assert Run(es, 3) == s1.(pending := map[1 := Selected(code), 2 := Selected(code)]);
  }
}
