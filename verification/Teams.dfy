/** Team nesting: parent links kept acyclic, inside one organization and of bounded depth. */
module Teams {
  import opened Common
  import opened Sequences

  /** Parent 0 means none. */
  datatype Team = Team(org: int, parent: int, role: Option<int>)

  type Table = map<int, Team>

  datatype Error = NotFound | Cycle | MaxDepth | WrongOrg | CrossOrg | TeamNotFound

  const MAX_NEST_DEPTH := 5

  // ---------------------------------------------------------------------
  // Walking up, on any table
  // ---------------------------------------------------------------------

  datatype End = Root | Missing(id: int) | Loop

  /** The teams met on the way up until a root, an unknown team or a repetition. */
  datatype Path = Path(teams: seq<int>, end: End)

  function Walk(ts: Table, cur: int, visited: set<int>): Path
    decreases ts.Keys - visited
  {
    if cur == 0 then Path([], Root)
    else if cur in visited then Path([], Loop)
    else if cur !in ts then Path([], Missing(cur))
    else
      var above := Walk(ts, ts[cur].parent, visited + {cur});
      Path([cur] + above.teams, above.end)
  }

  /** n steps up lead from team t to team a, through existing teams only. */
  ghost predicate StepsUp(ts: Table, t: int, a: int, n: nat)
    decreases n
  {
    t in ts && if n == 0 then t == a else ts[t].parent != 0 && StepsUp(ts, ts[t].parent, a, n - 1)
  }

  /** Reflexive-transitive ancestor. */
  ghost predicate Ancestor(ts: Table, t: int, a: int) {
    exists n :: StepsUp(ts, t, a, n)
  }

  lemma {:induction false} WalkIsAncestor(ts: Table, t: int, visited: set<int>, i: nat)
    requires i < |Walk(ts, t, visited).teams|
    ensures StepsUp(ts, t, Walk(ts, t, visited).teams[i], i)
    decreases ts.Keys - visited
  {
    if i > 0 {
      WalkIsAncestor(ts, ts[t].parent, visited + {t}, i - 1);
    }
  }

  /** A set of teams that holds every known parent of its members. */
  ghost predicate ClosedUp(ts: Table, s: set<int>) {
    forall a :: a in s && a in ts && ts[a].parent != 0 && ts[a].parent in ts ==> ts[a].parent in s
  }

  /** What a walk has met, together with what it had met before, is closed upwards from its start. */
  lemma {:induction false} WalkCloses(ts: Table, t: int, visited: set<int>)
    requires forall a :: a in visited && a in ts && ts[a].parent != 0 && ts[a].parent in ts ==>
               ts[a].parent in visited || ts[a].parent == t
    ensures ClosedUp(ts, visited + Elements(Walk(ts, t, visited).teams))
    decreases ts.Keys - visited
  {
    var all := visited + Elements(Walk(ts, t, visited).teams);
    if t != 0 && t !in visited && t in ts {
      WalkCloses(ts, ts[t].parent, visited + {t});
      var above := Walk(ts, ts[t].parent, visited + {t}).teams;
      assert Elements([t] + above) == {t} + Elements(above);
      assert all == visited + {t} + Elements(above);
    }
  }

  lemma {:induction false} ClosedHoldsAncestors(ts: Table, s: set<int>, t: int, a: int, n: nat)
    requires ClosedUp(ts, s) && t in s && StepsUp(ts, t, a, n)
    ensures a in s
    decreases n
  {
    if n > 0 {
      assert ts[t].parent in ts;
      ClosedHoldsAncestors(ts, s, ts[t].parent, a, n - 1);
    }
  }

  /** Even on a table with cycles or dangling parents, the walk meets exactly the ancestors. */
  lemma WalkMeetsAncestors(ts: Table, t: int, a: int)
    requires 0 !in ts
    ensures a in Walk(ts, t, {}).teams <==> Ancestor(ts, t, a)
  {
    var p := Walk(ts, t, {}).teams;
    if a in p {
      var i :| 0 <= i < |p| && p[i] == a;
      WalkIsAncestor(ts, t, {}, i);
    }
    if Ancestor(ts, t, a) {
      var n :| StepsUp(ts, t, a, n);
      WalkCloses(ts, t, {});
      assert p[0] == t && t in Elements(p);
      assert {} + Elements(p) == Elements(p);
      ClosedHoldsAncestors(ts, Elements(p), t, a, n);
    }
  }

  // ---------------------------------------------------------------------
  // Chains: the walk up in a forest
  // ---------------------------------------------------------------------

  /** c lists t, its parent, and so on up to a root. */
  ghost predicate Chain(ts: Table, c: seq<int>, t: int)
    decreases |c|
  {
    if t == 0 then c == [] else c != [] && c[0] == t && t in ts && Chain(ts, c[1..], ts[t].parent)
  }

  lemma {:induction false} ChainUnique(ts: Table, c: seq<int>, d: seq<int>, t: int)
    requires Chain(ts, c, t) && Chain(ts, d, t)
    ensures c == d
    decreases |c|
  {
    if t != 0 {
      ChainUnique(ts, c[1..], d[1..], ts[t].parent);
      assert c == [c[0]] + c[1..] && d == [d[0]] + d[1..];
    }
  }

  /** From any team on a chain the rest of the chain leads up. */
  lemma {:induction false} ChainSuffix(ts: Table, c: seq<int>, t: int, i: nat)
    requires Chain(ts, c, t) && i < |c|
    ensures c[i] != 0 && c[i] in ts && Chain(ts, c[i..], c[i])
    decreases |c|
  {
    Whole(c);
    if i > 0 {
      ChainSuffix(ts, c[1..], ts[t].parent, i - 1);
      DropDrop(c, 1, i - 1);
    }
  }

  /** No team repeats on a chain. */
  lemma ChainDistinct(ts: Table, c: seq<int>, t: int, i: nat, j: nat)
    requires Chain(ts, c, t) && i < j < |c|
    ensures c[i] != c[j]
  {
    ChainSuffix(ts, c, t, i);
    ChainSuffix(ts, c, t, j);
    if c[i] == c[j] {
      ChainUnique(ts, c[i..], c[j..], c[i]);
    }
  }

  /** A walk that ends at a root has followed a chain. */
  lemma {:induction false} WalkToRoot(ts: Table, t: int, visited: set<int>)
    requires Walk(ts, t, visited).end == Root
    ensures Chain(ts, Walk(ts, t, visited).teams, t)
    decreases ts.Keys - visited
  {
    if t != 0 {
      var above := Walk(ts, ts[t].parent, visited + {t}).teams;
      WalkToRoot(ts, ts[t].parent, visited + {t});
      assert ([t] + above)[1..] == above;
    }
  }

  lemma {:induction false} ChainIsWalk(ts: Table, c: seq<int>, t: int, visited: set<int>)
    requires Chain(ts, c, t) && forall x :: x in c ==> x !in visited
    ensures Walk(ts, t, visited) == Path(c, Root)
    decreases |c|
  {
    if t != 0 {
      forall x | x in c[1..] ensures x !in visited + {t} {
        var j :| 0 <= j < |c[1..]| && c[1..][j] == x;
        ChainDistinct(ts, c, t, 0, j + 1);
      }
      ChainIsWalk(ts, c[1..], ts[t].parent, visited + {t});
      assert c == [c[0]] + c[1..];
    }
  }

  /** Every team has a chain: no cycles, no dangling parents. */
  ghost predicate Forest(ts: Table) {
    0 !in ts && forall t :: t in ts ==> HasChain(ts, t)
  }

  ghost predicate HasChain(ts: Table, t: int) {
    exists c :: Chain(ts, c, t)
  }

  /** The chain of a team, found by walking. */
  lemma ForestWalk(ts: Table, t: int)
    requires t == 0 || HasChain(ts, t)
    ensures Walk(ts, t, {}).end == Root && Chain(ts, Walk(ts, t, {}).teams, t)
  {
    if t != 0 {
      var c :| Chain(ts, c, t);
      ChainIsWalk(ts, c, t, {});
    }
  }

  /** In a forest no team is its own proper ancestor. */
  lemma ForestAcyclic(ts: Table, t: int, n: nat)
    requires Forest(ts) && n > 0
    ensures !StepsUp(ts, t, t, n)
  {
    if StepsUp(ts, t, t, n) {
      ForestWalk(ts, t);
      StepsOnChain(ts, Walk(ts, t, {}).teams, t, t, n);
      ChainDistinct(ts, Walk(ts, t, {}).teams, t, 0, n);
    }
  }

  lemma {:induction false} StepsOnChain(ts: Table, c: seq<int>, t: int, a: int, n: nat)
    requires 0 !in ts && Chain(ts, c, t) && StepsUp(ts, t, a, n)
    ensures n < |c| && c[n] == a
    decreases n
  {
    if n > 0 {
      StepsOnChain(ts, c[1..], ts[t].parent, a, n - 1);
    }
  }

  // ---------------------------------------------------------------------
  // The checks of the source
  // ---------------------------------------------------------------------

  /** Whether a walk passes a team, or why that cannot be told. */
  function Passes(p: Path, ancestor: int): Result<bool, Error> {
    if ancestor in p.teams || p.end == Missing(ancestor) then Ok(true)
    else match p.end
         case Root => Ok(false)
         case Missing(_) => Err(NotFound)
         case Loop => Err(Cycle)
  }

  lemma {:induction false} WalkNeverZero(ts: Table, t: int, visited: set<int>)
    ensures 0 !in Walk(ts, t, visited).teams && Walk(ts, t, visited).end != Missing(0)
    decreases ts.Keys - visited
  {
    if t != 0 && t !in visited && t in ts {
      WalkNeverZero(ts, ts[t].parent, visited + {t});
    }
  }

  /** Terminates on every table, cyclic ones included. */
  method IsDescendant(ts: Table, candidate: int, ancestor: int) returns (r: Result<bool, Error>)
    ensures r == Passes(Walk(ts, candidate, {}), ancestor)
  {
    var visited: set<int> := {};
    var cur := candidate;
    WalkNeverZero(ts, candidate, {});
    while cur != 0
      invariant Passes(Walk(ts, candidate, {}), ancestor) == Passes(Walk(ts, cur, visited), ancestor)
      invariant ancestor !in visited
      decreases ts.Keys - visited
    {
      if cur == ancestor {
        return Ok(true);
      }
      if cur in visited {
        return Err(Cycle);
      }
      if cur !in ts {
        return Err(NotFound);
      }
      visited := visited + {cur};
      cur := ts[cur].parent;
    }
    WalkNeverZero(ts, candidate, {});
    r := Ok(false);
  }

  /** The nesting check from a given team on: at most five levels, one organization, no repetition. */
  function Nest(ts: Table, org: int, cur: int, depth: nat, visited: set<int>): Option<Error>
    decreases ts.Keys - visited
  {
    if cur == 0 then None
    else if cur in visited then Some(Cycle)
    else if depth + 1 > MAX_NEST_DEPTH then Some(MaxDepth)
    else if cur !in ts then Some(NotFound)
    else if org != 0 && ts[cur].org != org then Some(WrongOrg)
    else Nest(ts, org, ts[cur].parent, depth + 1, visited + {cur})
  }

  method ValidateNesting(ts: Table, org: int, parent: int) returns (r: Option<Error>)
    ensures r == Nest(ts, org, parent, 1, {})
  {
    var depth := 1;
    var cur := parent;
    var visited: set<int> := {};
    while cur != 0
      invariant Nest(ts, org, parent, 1, {}) == Nest(ts, org, cur, depth, visited)
      decreases ts.Keys - visited
    {
      if cur in visited {
        return Some(Cycle);
      }
      visited := visited + {cur};
      depth := depth + 1;
      if depth > MAX_NEST_DEPTH {
        return Some(MaxDepth);
      }
      if cur !in ts {
        return Some(NotFound);
      }
      if org != 0 && ts[cur].org != org {
        return Some(WrongOrg);
      }
      cur := ts[cur].parent;
    }
    r := None;
  }

  /** What the check admits: a chain of at most four teams, all of the organization (0 stands for any). */
  lemma {:induction false} NestAdmits(ts: Table, org: int, cur: int, depth: nat, visited: set<int>)
    requires depth <= MAX_NEST_DEPTH
    ensures Nest(ts, org, cur, depth, visited).None? <==>
            var w := Walk(ts, cur, visited);
            && w.end == Root && |w.teams| <= MAX_NEST_DEPTH - depth
            && forall x :: x in w.teams ==> x in ts && (org == 0 || ts[x].org == org)
    decreases ts.Keys - visited
  {
    if cur != 0 && cur !in visited && cur in ts {
      var above := Walk(ts, ts[cur].parent, visited + {cur}).teams;
      assert forall x :: x in [cur] + above <==> x == cur || x in above;
      if depth < MAX_NEST_DEPTH {
        NestAdmits(ts, org, ts[cur].parent, depth + 1, visited + {cur});
      }
    }
  }

  /** The walk up passes exactly the ancestors. */
  lemma DescendantExactly(ts: Table, t: int, a: int)
    requires Forest(ts) && t in ts
    ensures Passes(Walk(ts, t, {}), a) == Ok(Ancestor(ts, t, a))
  {
    ForestWalk(ts, t);
    WalkMeetsAncestors(ts, t, a);
  }

  /** With a cycle above it a team has ancestors at every distance. */
  lemma {:induction false} StepsConcat(ts: Table, t: int, x: int, y: int, m: nat, n: nat)
    requires StepsUp(ts, t, x, m) && StepsUp(ts, x, y, n)
    ensures StepsUp(ts, t, y, m + n)
    decreases m
  {
    if m > 0 {
      StepsConcat(ts, ts[t].parent, x, y, m - 1, n);
    }
  }

  lemma {:induction false} StepsPrefix(ts: Table, t: int, x: int, m: nat, n: nat) returns (y: int)
    requires StepsUp(ts, t, x, n) && m <= n
    ensures StepsUp(ts, t, y, m)
    decreases m
  {
    y := t;
    if m > 0 {
      y := StepsPrefix(ts, ts[t].parent, x, m - 1, n - 1);
    }
  }

  lemma {:induction false} CycleGoesOn(ts: Table, x: int, n: nat, m: nat) returns (y: int)
    requires StepsUp(ts, x, x, n) && n > 0
    ensures StepsUp(ts, x, y, m)
    decreases m
  {
    if m <= n {
      y := StepsPrefix(ts, x, x, m, n);
    } else {
      y := CycleGoesOn(ts, x, n, m - n);
      StepsConcat(ts, x, x, y, n, m - n);
    }
  }

  /** A walk that comes to an end has no ancestors beyond it. */
  lemma {:induction false} WalkEnds(ts: Table, t: int, visited: set<int>, y: int)
    requires 0 !in ts && !Walk(ts, t, visited).end.Loop?
    ensures !StepsUp(ts, t, y, |Walk(ts, t, visited).teams|)
    decreases ts.Keys - visited
  {
    if t != 0 && t in ts {
      WalkEnds(ts, ts[t].parent, visited + {t}, y);
    }
  }

  /** On a table with a cycle on the way up, the question whether another team is passed is refused. */
  lemma CycleReported(ts: Table, t: int, x: int, n: nat, a: int)
    requires 0 !in ts && Ancestor(ts, t, x) && StepsUp(ts, x, x, n) && n > 0 && !Ancestor(ts, t, a)
    ensures Passes(Walk(ts, t, {}), a) == Err(Cycle)
  {
    WalkMeetsAncestors(ts, t, a);
    if !Walk(ts, t, {}).end.Loop? {
      var i: nat :| StepsUp(ts, t, x, i);
      var y := CycleGoesOn(ts, x, n, |Walk(ts, t, {}).teams|);
      StepsConcat(ts, t, x, y, i, |Walk(ts, t, {}).teams|);
      var z := StepsPrefix(ts, t, y, |Walk(ts, t, {}).teams|, i + |Walk(ts, t, {}).teams|);
      WalkEnds(ts, t, {}, z);
    }
  }

  /** A parent that is missing on the way up is reported, whatever is asked for elsewhere. */
  lemma {:induction false} MissingEnds(ts: Table, t: int, visited: set<int>, x: int)
    requires x in Walk(ts, t, visited).teams && x in ts && ts[x].parent !in ts && ts[x].parent != 0
    requires forall v :: v in visited ==> v in ts
    ensures Walk(ts, t, visited).end == Missing(ts[x].parent)
    decreases ts.Keys - visited
  {
    if x != t {
      MissingEnds(ts, ts[t].parent, visited + {t}, x);
    }
  }

  lemma MissingReported(ts: Table, t: int, x: int, a: int)
    requires 0 !in ts && Ancestor(ts, t, x) && x in ts && ts[x].parent !in ts && ts[x].parent != 0
    requires a != ts[x].parent && !Ancestor(ts, t, a)
    ensures Passes(Walk(ts, t, {}), a) == Err(NotFound)
  {
    WalkMeetsAncestors(ts, t, a);
    WalkMeetsAncestors(ts, t, x);
    MissingEnds(ts, t, {}, x);
  }

  /** Among the first four teams of a chain one is of another organization. */
  ghost predicate StrangerWithin(ts: Table, c: seq<int>, org: int, n: int) {
    org != 0 && exists i :: 0 <= i < |c| && i < n && c[i] in ts && ts[c[i]].org != org
  }

  lemma StrangerBehind(ts: Table, c: seq<int>, org: int, n: int)
    requires c != [] && c[0] in ts && 0 < n
    ensures StrangerWithin(ts, c, org, n) <==>
            (org != 0 && ts[c[0]].org != org) || StrangerWithin(ts, c[1..], org, n - 1)
  {
    if StrangerWithin(ts, c, org, n) {
      var i :| 0 <= i < |c| && i < n && c[i] in ts && ts[c[i]].org != org;
      if i > 0 {
        assert c[1..][i - 1] == c[i];
      }
    }
    if StrangerWithin(ts, c[1..], org, n - 1) {
      var i :| 0 <= i < |c[1..]| && i < n - 1 && c[1..][i] in ts && ts[c[1..][i]].org != org;
      assert c[i + 1] == c[1..][i];
    }
  }

  /** On a chain the nesting check complains about a stranger met in time, then about the length. */
  lemma {:induction false} NestOnChain(ts: Table, org: int, t: int, c: seq<int>, depth: nat, visited: set<int>)
    requires Chain(ts, c, t) && 1 <= depth <= 5 && forall x :: x in c ==> x !in visited
    ensures Nest(ts, org, t, depth, visited) ==
            if StrangerWithin(ts, c, org, 5 - depth) then Some(WrongOrg)
            else if |c| > 5 - depth then Some(MaxDepth) else None
    decreases |c|
  {
    if t != 0 {
      if depth < 5 {
        StrangerBehind(ts, c, org, 5 - depth);
        if org == 0 || ts[t].org == org {
          forall x | x in c[1..] ensures x !in visited + {t} {
            var j :| 0 <= j < |c[1..]| && c[1..][j] == x;
            ChainDistinct(ts, c, t, 0, j + 1);
          }
          NestOnChain(ts, org, ts[t].parent, c[1..], depth + 1, visited + {t});
        }
      }
    }
  }

  // ---------------------------------------------------------------------
  // Creating and moving teams
  // ---------------------------------------------------------------------

  function Create(ts: Table, id: int, org: int, parent: Option<int>, role: Option<int>): Result<Table, Error> {
    if parent.Some? && Nest(ts, org, parent.value, 1, {}).Some? then Err(Nest(ts, org, parent.value, 1, {}).value)
    else Ok(ts[id := Team(org, if parent.Some? then parent.value else 0, role)])
  }

  method TryCreate(ts: Table, id: int, org: int, parent: Option<int>, role: Option<int>)
    returns (r: Result<Table, Error>)
    ensures r == Create(ts, id, org, parent, role)
  {
    if parent.Some? {
      var refused := ValidateNesting(ts, org, parent.value);
      if refused.Some? {
        return Err(refused.value);
      }
    }
    r := Ok(ts[id := Team(org, if parent.Some? then parent.value else 0, role)]);
  }

  /** Why a team may not move under a new parent. */
  function MoveError(ts: Table, t: int, p: int): Option<Error> {
    if p == t then Some(Cycle)
    else if t !in ts then Some(NotFound)
    else match Passes(Walk(ts, p, {}), t)
         case Err(e) => Some(e)
         case Ok(true) => Some(Cycle)
         case Ok(false) =>
           if p !in ts then Some(TeamNotFound)
           else if ts[p].org != ts[t].org then Some(CrossOrg)
           else Nest(ts, ts[t].org, p, 1, {})
  }

  /** The update touches the team's row, if there is one. */
  function Moved(ts: Table, t: int, p: int): Table {
    if t in ts then ts[t := ts[t].(parent := p)] else ts
  }

  function Reparent(ts: Table, t: int, newParent: Option<int>): Result<Table, Error> {
    if newParent.Some? && MoveError(ts, t, newParent.value).Some? then Err(MoveError(ts, t, newParent.value).value)
    else Ok(Moved(ts, t, if newParent.Some? then newParent.value else 0))
  }

  /** The checks of a move, in the order of the source. */
  method CheckMove(ts: Table, t: int, p: int) returns (r: Option<Error>)
    ensures r == MoveError(ts, t, p)
  {
    if p == t {
      return Some(Cycle);
    }
    if t !in ts {
      return Some(NotFound);
    }
    var desc := IsDescendant(ts, p, t);
    if desc.Err? {
      return Some(desc.error);
    }
    if desc.value {
      return Some(Cycle);
    }
    if p !in ts {
      return Some(TeamNotFound);
    }
    if ts[p].org != ts[t].org {
      return Some(CrossOrg);
    }
    r := ValidateNesting(ts, ts[t].org, p);
  }

  /** Tables that differ in one row only. */
  ghost predicate SameExcept(ts: Table, us: Table, t: int) {
    forall x :: x != t ==> (x in ts <==> x in us) && (x in ts ==> ts[x] == us[x])
  }

  /** A chain that does not meet the changed row is a chain of the new table. */
  lemma {:induction false} ChainElsewhere(ts: Table, us: Table, t: int, c: seq<int>, d: int)
    requires SameExcept(ts, us, t) && Chain(ts, c, d) && t !in c
    ensures Chain(us, c, d)
    decreases |c|
  {
    if d != 0 {
      ChainElsewhere(ts, us, t, c[1..], ts[d].parent);
    }
  }

  /** A chain through the changed row takes the new way from there on. */
  lemma {:induction false} ChainThrough(ts: Table, us: Table, t: int, c: seq<int>, d: int, i: nat, up: seq<int>)
    requires SameExcept(ts, us, t) && Chain(ts, c, d) && i < |c| && c[i] == t
    requires t != 0 && t in us && Chain(us, up, us[t].parent)
    ensures Chain(us, c[..i + 1] + up, d)
    decreases i
  {
    var whole := c[..i + 1] + up;
    if i == 0 {
      assert whole[1..] == up;
    } else {
      ChainDistinct(ts, c, d, 0, i);
      ChainThrough(ts, us, t, c[1..], ts[d].parent, i - 1, up);
      assert whole[1..] == c[1..][..i] + up;
    }
  }

  /** What a move that is allowed knows about the new parent. */
  lemma MoveAllowed(ts: Table, t: int, p: int)
    requires MoveError(ts, t, p).None?
    ensures t in ts && p in ts && ts[p].org == ts[t].org
    ensures var up := Walk(ts, p, {}).teams;
            Chain(ts, up, p) && t !in up && |up| <= MAX_NEST_DEPTH - 1
  {
    NestAdmits(ts, ts[t].org, p, 1, {});
    WalkToRoot(ts, p, {});
  }

  /** A chain up from the new parent that avoids the team and is short enough, all in one organization (0: any). */
  ghost predicate FitsAbove(ts: Table, t: int, p: int, up: seq<int>)
    requires t in ts
  {
    && Chain(ts, up, p) && t !in up && |up| <= MAX_NEST_DEPTH - 1
    && forall x :: x in up ==> x in ts && (ts[t].org == 0 || ts[x].org == ts[t].org)
  }

  /** Exactly the moves that are allowed, on any table. */
  lemma MoveAdmits(ts: Table, t: int, p: int)
    ensures MoveError(ts, t, p).None? <==>
            p != t && t in ts && p in ts && ts[p].org == ts[t].org && exists up :: FitsAbove(ts, t, p, up)
  {
    if MoveError(ts, t, p).None? {
      MoveAllowed(ts, t, p);
      NestAdmits(ts, ts[t].org, p, 1, {});
      assert FitsAbove(ts, t, p, Walk(ts, p, {}).teams);
    }
    if p != t && t in ts && p in ts && ts[p].org == ts[t].org {
      if up :| FitsAbove(ts, t, p, up) {
        ChainIsWalk(ts, up, p, {});
        NestAdmits(ts, ts[t].org, p, 1, {});
      }
    }
  }

  /** Why a creation below a parent is refused, in a forest. */
  lemma CreateRefusals(ts: Table, id: int, org: int, p: int, role: Option<int>, c: seq<int>)
    requires Forest(ts) && p != 0
    ensures p !in ts ==> Create(ts, id, org, Some(p), role) == Err(NotFound)
    ensures Chain(ts, c, p) ==>
              var r := Create(ts, id, org, Some(p), role);
              && (StrangerWithin(ts, c, org, 4) ==> r == Err(WrongOrg))
              && (!StrangerWithin(ts, c, org, 4) && |c| > 4 ==> r == Err(MaxDepth))
              && (!StrangerWithin(ts, c, org, 4) && |c| <= 4 ==> r.Ok?)
  {
    if Chain(ts, c, p) {
      NestOnChain(ts, org, p, c, 1, {});
    }
  }

  /** Why a move is refused, in a forest. */
  lemma MoveRefusals(ts: Table, t: int, p: int, c: seq<int>)
    requires Forest(ts)
    ensures t == p ==> MoveError(ts, t, p) == Some(Cycle)
    ensures t != p && t !in ts ==> MoveError(ts, t, p) == Some(NotFound)
    ensures t != p && t in ts && p !in ts ==> MoveError(ts, t, p) == Some(if p == 0 then TeamNotFound else NotFound)
    ensures t != p && t in ts && p in ts && Chain(ts, c, p) ==>
              && (Ancestor(ts, p, t) ==> MoveError(ts, t, p) == Some(Cycle))
              && (!Ancestor(ts, p, t) && ts[p].org != ts[t].org ==> MoveError(ts, t, p) == Some(CrossOrg))
              && (!Ancestor(ts, p, t) && ts[p].org == ts[t].org ==>
                    MoveError(ts, t, p) == if StrangerWithin(ts, c, ts[t].org, 4) then Some(WrongOrg)
                                           else if |c| > 4 then Some(MaxDepth) else None)
  {
    if t != p && t in ts && p in ts && Chain(ts, c, p) {
      DescendantExactly(ts, p, t);
      NestOnChain(ts, ts[t].org, p, c, 1, {});
    }
  }

  /** The new chain of a team after a move. */
  lemma ChainAfterMove(ts: Table, t: int, p: int, up: seq<int>, d: int, c: seq<int>) returns (c': seq<int>)
    requires 0 !in ts && t in ts && Chain(ts, up, p) && t !in up && Chain(ts, c, d)
    ensures Chain(Moved(ts, t, p), c', d)
    ensures t !in c ==> c' == c
    ensures forall i :: 0 <= i < |c| && c[i] == t ==> c' == c[..i + 1] + up
  {
    var us := Moved(ts, t, p);
    ChainElsewhere(ts, us, t, up, p);
    if t !in c {
      ChainElsewhere(ts, us, t, c, d);
      c' := c;
    } else {
      var i :| 0 <= i < |c| && c[i] == t;
      ChainThrough(ts, us, t, c, d, i, up);
      c' := c[..i + 1] + up;
      forall j | 0 <= j < |c| && c[j] == t ensures j == i {
        if j < i {
          ChainDistinct(ts, c, d, j, i);
        } else if i < j {
          ChainDistinct(ts, c, d, i, j);
        }
      }
    }
  }

  lemma MovedKeepsForest(ts: Table, t: int, p: int, up: seq<int>)
    requires Forest(ts) && t in ts && Chain(ts, up, p) && t !in up
    ensures Forest(Moved(ts, t, p))
  {
    var us := Moved(ts, t, p);
    forall d | d in us ensures HasChain(us, d) {
      assert HasChain(ts, d);
      var c :| Chain(ts, c, d);
      var c' := ChainAfterMove(ts, t, p, up, d, c);
    }
  }

  /** A move that is allowed keeps the forest. */
  lemma ReparentKeepsForest(ts: Table, t: int, newParent: Option<int>)
    requires Forest(ts) && Reparent(ts, t, newParent).Ok?
    ensures Forest(Reparent(ts, t, newParent).value)
  {
    if t in ts {
      if newParent.Some? {
        MoveAllowed(ts, t, newParent.value);
        MovedKeepsForest(ts, t, newParent.value, Walk(ts, newParent.value, {}).teams);
      } else {
        MovedKeepsForest(ts, t, 0, []);
      }
    }
  }

  /** A new team joins the forest with at most five teams on its chain. */
  lemma CreateKeepsForest(ts: Table, id: int, org: int, parent: Option<int>, role: Option<int>)
    requires Forest(ts) && id != 0 && id !in ts && Create(ts, id, org, parent, role).Ok?
    ensures Forest(Create(ts, id, org, parent, role).value)
    ensures exists c :: Chain(Create(ts, id, org, parent, role).value, c, id) && |c| <= MAX_NEST_DEPTH
    ensures forall d, c :: d in ts && Chain(ts, c, d) ==> Chain(Create(ts, id, org, parent, role).value, c, d)
  {
    var us := Create(ts, id, org, parent, role).value;
    var p := us[id].parent;
    var up := Walk(ts, p, {}).teams;
    NestAdmits(ts, org, p, 1, {});
    WalkToRoot(ts, p, {});
    forall d, c | Chain(ts, c, d) ensures Chain(us, c, d) {
      ChainStaysInside(ts, c, d);
      ChainElsewhere(ts, us, id, c, d);
    }
    assert ([id] + up)[1..] == up;
    assert Chain(us, [id] + up, id);
    forall d | d in us ensures HasChain(us, d) {
      if d != id {
        assert HasChain(ts, d);
        var c :| Chain(ts, c, d);
        assert Chain(us, c, d);
      }
    }
  }

  lemma {:induction false} ChainStaysInside(ts: Table, c: seq<int>, d: int)
    requires Chain(ts, c, d)
    ensures forall x :: x in c ==> x in ts
    decreases |c|
  {
    if d != 0 {
      ChainStaysInside(ts, c[1..], ts[d].parent);
      assert forall x :: x in c ==> x == c[0] || x in c[1..];
    }
  }
}
