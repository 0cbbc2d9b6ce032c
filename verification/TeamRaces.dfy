/**
 Moves step by step: a move checks the table and updates it later, without a transaction, so moves
 and creations interleave between these steps. When do the teams stay a forest?
 */
module TeamRaces {
  import opened Common
  import opened Sequences
  import opened Teams

  /** A move that passed its checks at step `at`; parent 0 means the top. */
  datatype Move = Move(team: int, parent: int, at: nat)

  datatype State = State(ts: Table, next: int, checked: map<nat, Move>)

  /** A creation inserts below a team it has seen; teams are never deleted. */
  datatype Event =
    | Insert(org: int, parent: int, role: Option<int>)
    | Check(x: nat, team: int, newParent: Option<int>)
    | Update(x: nat)

  function Step(s: State, e: Event, i: nat): State {
    match e
    case Insert(org, parent, role) =>
      if parent != 0 && parent !in s.ts then s
      else s.(ts := s.ts[s.next := Team(org, parent, role)], next := s.next + 1)
    case Check(x, team, newParent) =>
      if x in s.checked || (newParent.Some? && MoveError(s.ts, team, newParent.value).Some?) then s
      else s.(checked := s.checked[x := Move(team, if newParent.Some? then newParent.value else 0, i)])
    case Update(x) =>
      if x !in s.checked then s
      else s.(ts := Moved(s.ts, s.checked[x].team, s.checked[x].parent), checked := s.checked - {x})
  }

  const EMPTY := State(map[], 1, map[])

  function Run(es: seq<Event>, n: nat): State
    requires n <= |es|
  {
    if n == 0 then EMPTY else Step(Run(es, n - 1), es[n - 1], n - 1)
  }

  // ---------------------------------------------------------------------
  // One update
  // ---------------------------------------------------------------------

  /** The team is not met on the way up from its new parent. */
  ghost predicate Apart(ts: Table, t: int, p: int) { t !in Walk(ts, p, {}).teams }

  /** Below the moved team nothing changes on the way up to it. */
  lemma {:induction false} StepsToMoved(ts: Table, us: Table, t: int, c: seq<int>, d: int, i: nat)
    requires SameExcept(ts, us, t) && Chain(ts, c, d) && i < |c| && c[i] == t && t in us
    ensures StepsUp(us, d, t, i)
    decreases i
  {
    if i > 0 {
      ChainDistinct(ts, c, d, 0, i);
      ChainSuffix(ts, c, d, 1);
      StepsToMoved(ts, us, t, c[1..], ts[d].parent, i - 1);
    }
  }

  /** An update keeps the forest exactly when the team is apart from its new parent at that moment. */
  lemma UpdateExact(ts: Table, t: int, p: int)
    requires Forest(ts) && t in ts && (p == 0 || p in ts)
    ensures Forest(Moved(ts, t, p)) <==> Apart(ts, t, p)
  {
    ForestWalk(ts, p);
    var up := Walk(ts, p, {}).teams;
    var us := Moved(ts, t, p);
    if Apart(ts, t, p) {
      MovedKeepsForest(ts, t, p, up);
    } else {
      var i :| 0 <= i < |up| && up[i] == t;
      StepsToMoved(ts, us, t, up, p, i);
      assert StepsUp(us, t, t, i + 1);
      if Forest(us) {
        ForestAcyclic(us, t, i + 1);
      }
    }
  }

  // ---------------------------------------------------------------------
  // Creations
  // ---------------------------------------------------------------------

  lemma InsertKeepsForest(ts: Table, id: int, team: Team)
    requires Forest(ts) && id != 0 && id !in ts && (team.parent == 0 || team.parent in ts)
    ensures Forest(ts[id := team])
    ensures forall p :: p == 0 || p in ts ==> Walk(ts[id := team], p, {}) == Walk(ts, p, {})
  {
    var us := ts[id := team];
    forall p | p == 0 || p in ts ensures Walk(us, p, {}) == Walk(ts, p, {}) && HasChain(us, p) {
      ForestWalk(ts, p);
      var c := Walk(ts, p, {}).teams;
      ChainStaysInside(ts, c, p);
      ChainElsewhere(ts, us, id, c, p);
      ChainIsWalk(us, c, p, {});
    }
    assert HasChain(us, team.parent);
    var up :| Chain(us, up, team.parent);
    assert ([id] + up)[1..] == up;
    assert Chain(us, [id] + up, id);
  }

  // ---------------------------------------------------------------------
  // Runs
  // ---------------------------------------------------------------------

  /** Moves that passed their checks are between existing teams. */
  ghost predicate Known(s: State) {
    && 0 < s.next && (forall t :: t in s.ts ==> 0 < t < s.next)
    && (forall x :: x in s.checked && s.checked[x].parent != 0 ==>
          s.checked[x].team in s.ts && s.checked[x].parent in s.ts)
  }

  lemma StepKeepsKnown(s: State, e: Event, i: nat)
    requires Known(s)
    ensures Known(Step(s, e, i))
  {
    if e.Check? && e.newParent.Some? && MoveError(s.ts, e.team, e.newParent.value).None? {
      MoveAllowed(s.ts, e.team, e.newParent.value);
    }
  }

  lemma {:induction false} RunKeepsKnown(es: seq<Event>, n: nat)
    requires n <= |es|
    ensures Known(Run(es, n))
  {
    if n > 0 {
      RunKeepsKnown(es, n - 1);
      StepKeepsKnown(Run(es, n - 1), es[n - 1], n - 1);
    }
  }

  /** The step is an update that puts a team below itself. */
  ghost predicate Closes(s: State, e: Event) {
    && e.Update? && e.x in s.checked && s.checked[e.x].team in s.ts
    && !Apart(s.ts, s.checked[e.x].team, s.checked[e.x].parent)
  }

  lemma StepKeepsForestExactly(s: State, e: Event, i: nat)
    requires Known(s) && Forest(s.ts)
    ensures Forest(Step(s, e, i).ts) <==> !Closes(s, e)
  {
    match e
    case Insert(org, parent, role) =>
      if parent == 0 || parent in s.ts {
        InsertKeepsForest(s.ts, s.next, Team(org, parent, role));
      }
    case Check(_, _, _) =>
    case Update(x) =>
      if x in s.checked && s.checked[x].team in s.ts {
        UpdateExact(s.ts, s.checked[x].team, s.checked[x].parent);
      }
  }

  ghost predicate ClosesAt(es: seq<Event>, k: int) {
    0 <= k < |es| && Closes(Run(es, k), es[k])
  }

  /** The teams form a forest all through the first n steps. */
  ghost predicate ForestUpTo(es: seq<Event>, n: nat)
    requires n <= |es|
  {
    forall k :: 0 <= k <= n ==> Forest(Run(es, k).ts)
  }

  /** Exactly the runs in which no update finds its team above the new parent keep the forest. */
  lemma {:induction false} ForestExactly(es: seq<Event>, n: nat)
    requires n <= |es|
    ensures ForestUpTo(es, n) <==> forall k :: 0 <= k < n ==> !ClosesAt(es, k)
  {
    if n > 0 {
      ForestExactly(es, n - 1);
      RunKeepsKnown(es, n - 1);
      if ForestUpTo(es, n - 1) {
        StepKeepsForestExactly(Run(es, n - 1), es[n - 1], n - 1);
        assert ClosesAt(es, n - 1) <==> !Forest(Run(es, n).ts);
      } else {
        var k :| 0 <= k <= n - 1 && !Forest(Run(es, k).ts);
        var j :| 0 <= j < n - 1 && ClosesAt(es, j);
        assert !ForestUpTo(es, n) && ClosesAt(es, j);
      }
      assert ForestUpTo(es, n) <==> ForestUpTo(es, n - 1) && Forest(Run(es, n).ts);
    }
  }

  // ---------------------------------------------------------------------
  // When that can happen
  // ---------------------------------------------------------------------

  /** No other update came between the checks of a move and step n. */
  ghost predicate Current(es: seq<Event>, m: Move, n: nat) {
    forall j :: m.at < j < n && j < |es| ==> !es[j].Update?
  }

  /** As long as no other update comes, what the checks found stays true. */
  ghost predicate ChecksHold(es: seq<Event>, n: nat)
    requires n <= |es|
  {
    var s := Run(es, n);
    forall x :: x in s.checked ==>
      s.checked[x].at < n && (Current(es, s.checked[x], n) ==> Apart(s.ts, s.checked[x].team, s.checked[x].parent))
  }

  lemma StepKeepsChecks(es: seq<Event>, n: nat)
    requires 0 < n <= |es| && ChecksHold(es, n - 1) && Known(Run(es, n - 1)) && Forest(Run(es, n - 1).ts)
    ensures ChecksHold(es, n)
  {
    var s, t, e := Run(es, n - 1), Run(es, n), es[n - 1];
    if e.Insert? && (e.parent == 0 || e.parent in s.ts) {
      InsertKeepsForest(s.ts, s.next, Team(e.org, e.parent, e.role));
    }
    if e.Check? && e.newParent.Some? && MoveError(s.ts, e.team, e.newParent.value).None? {
      MoveAllowed(s.ts, e.team, e.newParent.value);
    }
    forall x | x in t.checked
      ensures t.checked[x].at < n
      ensures Current(es, t.checked[x], n) ==> Apart(t.ts, t.checked[x].team, t.checked[x].parent)
    {
      if x in s.checked {
        assert Current(es, s.checked[x], n) ==> Current(es, s.checked[x], n - 1) && !e.Update?;
      }
    }
  }

  /** An update of another move came between the checks of a move below a parent and its own update at step k. */
  ghost predicate OvertakenAt(es: seq<Event>, k: int) {
    && 0 <= k < |es| && es[k].Update? && es[k].x in Run(es, k).checked
    && Run(es, k).checked[es[k].x].parent != 0
    && !Current(es, Run(es, k).checked[es[k].x], k)
  }

  lemma {:induction false} UndisturbedKeeps(es: seq<Event>, n: nat)
    requires n <= |es| && forall k :: 0 <= k < n ==> !OvertakenAt(es, k)
    ensures ChecksHold(es, n) && Forest(Run(es, n).ts)
  {
    if n > 0 {
      UndisturbedKeeps(es, n - 1);
      RunKeepsKnown(es, n - 1);
      StepKeepsChecks(es, n);
      assert !OvertakenAt(es, n - 1);
      StepKeepsForestExactly(Run(es, n - 1), es[n - 1], n - 1);
    }
  }

  /** The forest is lost only in runs in which a move was overtaken by the update of another one. */
  lemma ForestLostOnlyIfOvertaken(es: seq<Event>)
    requires !Forest(Run(es, |es|).ts)
    ensures exists k :: OvertakenAt(es, k)
  {
    if forall k :: 0 <= k < |es| ==> !OvertakenAt(es, k) {
      UndisturbedKeeps(es, |es|);
    }
  }

  /** Two moves under each other. */
  function Crossing(a: int, b: int): seq<Event> {
    [Check(1, a, Some(b)), Check(2, b, Some(a)), Update(1), Update(2)]
  }

  lemma RunOn(es: seq<Event>, more: seq<Event>, n: nat)
    requires n <= |es|
    ensures Run(es + more, n) == Run(es, n)
  {
    if n > 0 {
      RunOn(es, more, n - 1);
    }
  }

  /** Wherever two teams may each be moved below the other, doing both at once makes a cycle. */
  lemma CrossingMakesCycle(es: seq<Event>, a: int, b: int)
    requires Run(es, |es|).checked == map[]
    requires MoveError(Run(es, |es|).ts, a, b).None? && MoveError(Run(es, |es|).ts, b, a).None?
    ensures var ts := Run(es + Crossing(a, b), |es| + 4).ts;
            StepsUp(ts, a, a, 2) && !Forest(ts)
  {
    CrossingRuns(es, a, b);
    RunKeepsKnown(es, |es|);
    CrossedLoop(Run(es, |es|).ts, a, b);
  }

  lemma CrossingRuns(es: seq<Event>, a: int, b: int)
    requires Run(es, |es|).checked == map[]
    requires MoveError(Run(es, |es|).ts, a, b).None? && MoveError(Run(es, |es|).ts, b, a).None?
    ensures Run(es + Crossing(a, b), |es| + 4).ts == Moved(Moved(Run(es, |es|).ts, a, b), b, a)
  {
    var all, n := es + Crossing(a, b), |es|;
    var s := Run(es, n);
    RunOn(es, Crossing(a, b), n);
    var m1, m2 := Move(a, b, n), Move(b, a, n + 1);
    assert Run(all, n + 1) == s.(checked := map[1 := m1]);
    assert Run(all, n + 2) == s.(checked := map[1 := m1, 2 := m2]);
    assert Run(all, n + 3) == s.(ts := Moved(s.ts, a, b), checked := map[2 := m2]);
  }

  lemma CrossedLoop(ts: Table, a: int, b: int)
    requires 0 !in ts && MoveError(ts, a, b).None?
    ensures var us := Moved(Moved(ts, a, b), b, a);
            StepsUp(us, a, a, 2) && !Forest(us)
  {
    MoveAllowed(ts, a, b);
    var us := Moved(Moved(ts, a, b), b, a);
    assert a != b && StepsUp(us, a, a, 0) && StepsUp(us, b, a, 1);
    if Forest(us) {
      ForestAcyclic(us, a, 2);
    }
  }

  /** Two teams at the top are such a pair. */
  lemma CrossingHappens()
    ensures var es := [Insert(1, 0, None), Insert(1, 0, None)];
            !Forest(Run(es + Crossing(1, 2), 6).ts)
  {
    var es := [Insert(1, 0, None), Insert(1, 0, None)];
    var top := Team(1, 0, None);
    assert Run(es, 0) == EMPTY && Run(es, 1) == State(map[1 := top], 2, map[]);
    var s := Run(es, 2);
    assert s == State(map[1 := top, 2 := top], 3, map[]);
    ChainIsWalk(s.ts, [1], 1, {});
    ChainIsWalk(s.ts, [2], 2, {});
    NestAdmits(s.ts, 1, 1, 1, {});
    NestAdmits(s.ts, 1, 2, 1, {});
    CrossingMakesCycle(es, 1, 2);
  }
}
