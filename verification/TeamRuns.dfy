/** What team creation and moves keep over whole runs: no cycles, organizations, depths. */
module TeamRuns {
  import opened Common
  import opened Sequences
  import opened Teams

  // ---------------------------------------------------------------------
  // Depths
  // ---------------------------------------------------------------------

  ghost predicate Shallow(ts: Table) {
    forall d, c :: d in ts && Chain(ts, c, d) ==> |c| <= MAX_NEST_DEPTH
  }

  /** Every team that has t on its chain stays within the bound when t hangs below `base` teams. */
  ghost predicate SubtreeFits(ts: Table, t: int, base: nat) {
    forall d, c, i :: d in ts && Chain(ts, c, d) && 0 <= i < |c| && c[i] == t ==> i + 1 + base <= MAX_NEST_DEPTH
  }

  ghost predicate Childless(ts: Table, t: int) {
    forall d :: d in ts ==> ts[d].parent != t
  }

  lemma CreateKeepsShallow(ts: Table, id: int, org: int, parent: Option<int>, role: Option<int>)
    requires Forest(ts) && Shallow(ts) && id != 0 && id !in ts && Create(ts, id, org, parent, role).Ok?
    ensures Shallow(Create(ts, id, org, parent, role).value)
  {
    var us := Create(ts, id, org, parent, role).value;
    CreateKeepsForest(ts, id, org, parent, role);
    forall d, c | d in us && Chain(us, c, d) ensures |c| <= MAX_NEST_DEPTH {
      if d == id {
        var e :| Chain(us, e, id) && |e| <= MAX_NEST_DEPTH;
        ChainUnique(us, c, e, d);
      } else {
        assert HasChain(ts, d);
        var e :| Chain(ts, e, d);
        ChainUnique(us, c, e, d);
      }
    }
  }

  /** Exactly when a move keeps the depth bound: the whole subtree must fit below the new parent. */
  lemma MoveKeepsShallowExactly(ts: Table, t: int, p: int, up: seq<int>)
    requires Forest(ts) && Shallow(ts) && t in ts && Chain(ts, up, p) && t !in up
    ensures Shallow(Moved(ts, t, p)) <==> SubtreeFits(ts, t, |up|)
  {
    var us := Moved(ts, t, p);
    if SubtreeFits(ts, t, |up|) {
      forall d, c | d in us && Chain(us, c, d) ensures |c| <= MAX_NEST_DEPTH {
        assert HasChain(ts, d);
        var e :| Chain(ts, e, d);
        var e' := ChainAfterMove(ts, t, p, up, d, e);
        ChainUnique(us, c, e', d);
        if t in e {
          var i :| 0 <= i < |e| && e[i] == t;
          assert |e'| == i + 1 + |up|;
        }
      }
    }
    if Shallow(us) {
      forall d, c, i | d in ts && Chain(ts, c, d) && 0 <= i < |c| && c[i] == t ensures i + 1 + |up| <= MAX_NEST_DEPTH {
        var c' := ChainAfterMove(ts, t, p, up, d, c);
        assert |c'| == i + 1 + |up|;
      }
    }
  }

  /** A team that is not at the lower end of a chain has a child on it. */
  lemma HasChild(ts: Table, c: seq<int>, d: int, i: nat)
    requires Chain(ts, c, d) && 0 < i < |c|
    ensures !Childless(ts, c[i])
  {
    ChainSuffix(ts, c, d, i - 1);
    assert c[i - 1..][1..][0] == c[i];
    assert c[i - 1] in ts && ts[c[i - 1]].parent == c[i];
  }

  lemma ChildlessFits(ts: Table, t: int, base: nat)
    requires Childless(ts, t) && t != 0 && base < MAX_NEST_DEPTH
    ensures SubtreeFits(ts, t, base)
  {
    forall d, c, i | d in ts && Chain(ts, c, d) && 0 <= i < |c| && c[i] == t ensures i == 0 {
      if i > 0 {
        HasChild(ts, c, d, i);
      }
    }
  }

  /** A move to the top only shortens chains. */
  lemma MoveToTopFits(ts: Table, t: int)
    requires Shallow(ts)
    ensures SubtreeFits(ts, t, 0)
  {
  }

  /** A chain of four teams, and a team with one child. */
  function TwoTrees(): Table {
    var top := Team(1, 0, None);
    map[1 := top, 2 := top.(parent := 1), 3 := top.(parent := 2), 4 := top.(parent := 3),
        5 := top, 6 := top.(parent := 5)]
  }

  lemma TwoTreesChains(ts: Table)
    requires ts == TwoTrees()
    ensures Chain(ts, [1], 1) && Chain(ts, [2, 1], 2) && Chain(ts, [3, 2, 1], 3) && Chain(ts, [4, 3, 2, 1], 4)
    ensures Chain(ts, [5], 5) && Chain(ts, [6, 5], 6)
  {
    Link(ts, 1, []);
    Link(ts, 2, [1]);
    Link(ts, 3, [2, 1]);
    Link(ts, 4, [3, 2, 1]);
    Link(ts, 5, []);
    Link(ts, 6, [5]);
    assert [2] + [1] == [2, 1] && [3] + [2, 1] == [3, 2, 1] && [4] + [3, 2, 1] == [4, 3, 2, 1];
    assert [1] + [] == [1] && [5] + [] == [5] && [6] + [5] == [6, 5];
  }

  lemma TwoTreesFit(ts: Table)
    requires ts == TwoTrees()
    ensures Forest(ts) && Shallow(ts)
  {
    TwoTreesChains(ts);
    forall d, c | d in ts && Chain(ts, c, d) ensures |c| <= MAX_NEST_DEPTH {
      var e := [[1], [2, 1], [3, 2, 1], [4, 3, 2, 1], [5], [6, 5]][d - 1];
      ChainUnique(ts, c, e, d);
    }
  }

  lemma TwoTreesMove(ts: Table)
    requires ts == TwoTrees()
    ensures MoveError(ts, 5, 4).None? && !SubtreeFits(ts, 5, 4)
  {
    TwoTreesChains(ts);
    ChainIsWalk(ts, [4, 3, 2, 1], 4, {});
    NestAdmits(ts, 1, 4, 1, {});
    assert 6 in ts && Chain(ts, [6, 5], 6) && [6, 5][1] == 5;
  }

  /** One more link at the lower end of a chain. */
  lemma Link(ts: Table, t: int, up: seq<int>)
    requires t != 0 && t in ts && Chain(ts, up, ts[t].parent)
    ensures Chain(ts, [t] + up, t)
  {
    assert ([t] + up)[1..] == up;
  }

  // ---------------------------------------------------------------------
  // Organizations
  // ---------------------------------------------------------------------

  /** Parent and child share the organization, except below teams created for organization 0. */
  ghost predicate OrgsKept(ts: Table) {
    forall t :: t in ts && ts[t].parent != 0 && ts[t].parent in ts ==>
      ts[ts[t].parent].org == ts[t].org || ts[t].org == 0
  }

  ghost predicate SameOrgs(ts: Table) {
    forall t :: t in ts && ts[t].parent != 0 && ts[t].parent in ts ==> ts[ts[t].parent].org == ts[t].org
  }

  lemma CreateKeepsOrgs(ts: Table, id: int, org: int, parent: Option<int>, role: Option<int>)
    requires Forest(ts) && id != 0 && id !in ts && Create(ts, id, org, parent, role).Ok?
    ensures OrgsKept(ts) ==> OrgsKept(Create(ts, id, org, parent, role).value)
    ensures SameOrgs(ts) ==>
      (SameOrgs(Create(ts, id, org, parent, role).value) <==>
       org != 0 || parent.None? || parent.value == 0 || ts[parent.value].org == 0)
  {
    var us := Create(ts, id, org, parent, role).value;
    var p := us[id].parent;
    NestAdmits(ts, org, p, 1, {});
    forall t | t in ts ensures us[t].parent != id {
      assert HasChain(ts, t);
      var c :| Chain(ts, c, t);
      assert Chain(ts, c[1..], ts[t].parent);
    }
    if p != 0 {
      assert p in Walk(ts, p, {}).teams && p in ts && us[us[id].parent] == ts[p];
    }
  }

  lemma ReparentKeepsOrgs(ts: Table, t: int, newParent: Option<int>)
    requires Reparent(ts, t, newParent).Ok?
    ensures OrgsKept(ts) ==> OrgsKept(Reparent(ts, t, newParent).value)
    ensures SameOrgs(ts) ==> SameOrgs(Reparent(ts, t, newParent).value)
  {
    if newParent.Some? {
      MoveAllowed(ts, t, newParent.value);
    }
  }

  // ---------------------------------------------------------------------
  // Runs
  // ---------------------------------------------------------------------

  datatype Op =
    | CreateTeam(org: int, parent: Option<int>, role: Option<int>)
    | ReparentTeam(team: int, newParent: Option<int>)

  /** Team ids are handed out in order and never reused. */
  datatype State = State(ts: Table, next: int)

  const EMPTY := State(map[], 1)

  function Step(s: State, op: Op): State {
    match op
    case CreateTeam(org, parent, role) =>
      (match Create(s.ts, s.next, org, parent, role)
       case Ok(us) => State(us, s.next + 1)
       case Err(_) => s)
    case ReparentTeam(t, newParent) =>
      (match Reparent(s.ts, t, newParent)
       case Ok(us) => s.(ts := us)
       case Err(_) => s)
  }

  function Run(ops: seq<Op>): State {
    if ops == [] then EMPTY else Step(Run(ops[..|ops| - 1]), ops[|ops| - 1])
  }

  ghost predicate Numbered(s: State) {
    0 < s.next && forall t :: t in s.ts ==> 0 < t < s.next
  }

  lemma StepKeeps(s: State, op: Op)
    requires Numbered(s) && Forest(s.ts) && OrgsKept(s.ts)
    ensures Numbered(Step(s, op)) && Forest(Step(s, op).ts) && OrgsKept(Step(s, op).ts)
  {
    match op
    case CreateTeam(org, parent, role) =>
      if Create(s.ts, s.next, org, parent, role).Ok? {
        CreateKeepsForest(s.ts, s.next, org, parent, role);
        CreateKeepsOrgs(s.ts, s.next, org, parent, role);
      }
    case ReparentTeam(t, newParent) =>
      if Reparent(s.ts, t, newParent).Ok? {
        ReparentKeepsForest(s.ts, t, newParent);
        ReparentKeepsOrgs(s.ts, t, newParent);
      }
  }

  /** After every run the teams form a forest whose edges stay inside organizations. */
  lemma {:induction false} RunKeepsForest(ops: seq<Op>)
    ensures Numbered(Run(ops)) && Forest(Run(ops).ts) && OrgsKept(Run(ops).ts)
  {
    if ops != [] {
      RunKeepsForest(ops[..|ops| - 1]);
      StepKeeps(Run(ops[..|ops| - 1]), ops[|ops| - 1]);
    }
  }

  /** Moves only teams without children, or to the top. */
  ghost predicate Careful(s: State, op: Op) {
    op.ReparentTeam? ==> op.newParent.None? || Childless(s.ts, op.team)
  }

  lemma StepKeepsShallow(s: State, op: Op)
    requires Numbered(s) && Forest(s.ts) && Shallow(s.ts) && Careful(s, op)
    ensures Shallow(Step(s, op).ts)
  {
    match op
    case CreateTeam(org, parent, role) =>
      if Create(s.ts, s.next, org, parent, role).Ok? {
        CreateKeepsShallow(s.ts, s.next, org, parent, role);
      }
    case ReparentTeam(t, newParent) =>
      if t in s.ts && Reparent(s.ts, t, newParent).Ok? {
        if newParent.None? {
          MoveToTopFits(s.ts, t);
          MoveKeepsShallowExactly(s.ts, t, 0, []);
        } else {
          var up := Walk(s.ts, newParent.value, {}).teams;
          MoveAllowed(s.ts, t, newParent.value);
          ChildlessFits(s.ts, t, |up|);
          MoveKeepsShallowExactly(s.ts, t, newParent.value, up);
        }
      }
  }

  /** Runs that move only childless teams (or to the top) never nest deeper than five levels. */
  lemma {:induction false} RunKeepsShallow(ops: seq<Op>)
    requires forall i :: 0 <= i < |ops| ==> Careful(Run(ops[..i]), ops[i])
    ensures Shallow(Run(ops).ts)
  {
    if ops != [] {
      var n := |ops| - 1;
      var before := ops[..n];
      forall i | 0 <= i < n ensures Careful(Run(before[..i]), before[i]) {
        assert before[..i] == ops[..i];
      }
      RunKeepsShallow(before);
      RunKeepsForest(before);
      StepKeepsShallow(Run(before), ops[n]);
    }
  }

  /** The runs that create no team for organization 0 keep parent and child in one organization. */
  lemma {:induction false} RunKeepsSameOrgs(ops: seq<Op>)
    requires forall i :: 0 <= i < |ops| && ops[i].CreateTeam? ==> ops[i].org != 0
    ensures SameOrgs(Run(ops).ts)
  {
    if ops != [] {
      var before, op := ops[..|ops| - 1], ops[|ops| - 1];
      RunKeepsSameOrgs(before);
      RunKeepsForest(before);
      var s := Run(before);
      if op.CreateTeam? && Create(s.ts, s.next, op.org, op.parent, op.role).Ok? {
        CreateKeepsOrgs(s.ts, s.next, op.org, op.parent, op.role);
      } else if op.ReparentTeam? && Reparent(s.ts, op.team, op.newParent).Ok? {
        ReparentKeepsOrgs(s.ts, op.team, op.newParent);
      }
    }
  }

  /** One more team below a team with at most three above it. */
  lemma Grows(ops: seq<Op>, s: State, parent: int, up: seq<int>) returns (more: seq<Op>, t: State)
    requires s == Run(ops) && Chain(s.ts, up, parent) && |up| <= 4
    requires forall x :: x in up ==> x in s.ts && s.ts[x].org == 1
    ensures more == ops + [CreateTeam(1, Some(parent), None)]
    ensures t == Run(more) == State(s.ts[s.next := Team(1, parent, None)], s.next + 1)
  {
    more := ops + [CreateTeam(1, Some(parent), None)];
    assert more[..|ops|] == ops;
    ChainIsWalk(s.ts, up, parent, {});
    NestAdmits(s.ts, 1, parent, 1, {});
    t := Run(more);
  }

  function ChainOfFour(): Table {
    var top := Team(1, 0, None);
    map[1 := top, 2 := top.(parent := 1), 3 := top.(parent := 2), 4 := top.(parent := 3)]
  }

  lemma FourCreated() returns (ops: seq<Op>)
    ensures Run(ops) == State(ChainOfFour(), 5)
  {
    var s := EMPTY;
    ops := [];
    ops, s := Grows(ops, s, 0, []);
    Link(s.ts, 1, []);
    assert [1] + [] == [1];
    ops, s := Grows(ops, s, 1, [1]);
    Link(s.ts, 1, []);
    Link(s.ts, 2, [1]);
    assert [2] + [1] == [2, 1];
    ops, s := Grows(ops, s, 2, [2, 1]);
    Link(s.ts, 1, []);
    Link(s.ts, 2, [1]);
    Link(s.ts, 3, [2, 1]);
    assert [3] + [2, 1] == [3, 2, 1];
    ops, s := Grows(ops, s, 3, [3, 2, 1]);
    assert s.ts == ChainOfFour();
  }

  lemma TwoTreesCreated() returns (ops: seq<Op>)
    ensures Run(ops) == State(TwoTrees(), 7)
  {
    ops := FourCreated();
    var s := Run(ops);
    ops, s := Grows(ops, s, 0, []);
    Link(s.ts, 5, []);
    assert [5] + [] == [5];
    ops, s := Grows(ops, s, 5, [5]);
    assert s.ts == TwoTrees();
  }

  /** A run within the bound, and one more step of it that exceeds the bound. */
  ghost predicate ExceedsDepth(ops: seq<Op>, op: Op) {
    Shallow(Run(ops).ts) && !Shallow(Run(ops + [op]).ts)
  }

  /** A move that the source allows can exceed the bound, since the subtree is not measured. */
  lemma MoveCanExceedDepth()
    ensures exists ops, t, p :: ExceedsDepth(ops, ReparentTeam(t, Some(p)))
  {
    var ops := TwoTreesCreated();
    var ts := TwoTrees();
    TwoTreesChains(ts);
    TwoTreesFit(ts);
    TwoTreesMove(ts);
    MoveKeepsShallowExactly(ts, 5, 4, [4, 3, 2, 1]);
    assert (ops + [ReparentTeam(5, Some(4))])[..|ops|] == ops;
    assert Run(ops + [ReparentTeam(5, Some(4))]).ts == Moved(ts, 5, 4);
    assert ExceedsDepth(ops, ReparentTeam(5, Some(4)));
  }
}
