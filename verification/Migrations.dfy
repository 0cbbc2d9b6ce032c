/** Schema migrations: a ledger of applied versions makes failed and repeated runs converge. */
module Migrations {
  import opened Sequences

  /** A script, already split into its statements. */
  datatype Migration = Migration(version: string, name: string, statements: seq<string>)

  // ---------------------------------------------------------------------
  // Version order and sorting
  // ---------------------------------------------------------------------

  /** Byte order of version strings. */
  predicate Less(a: string, b: string) {
    b != "" && (a == "" || a[0] < b[0] || (a[0] == b[0] && Less(a[1..], b[1..])))
  }

  lemma {:induction false} LessTrichotomy(a: string, b: string)
    ensures a == b <==> !Less(a, b) && !Less(b, a)
    ensures !(Less(a, b) && Less(b, a))
  {
    if a != "" && b != "" && a[0] == b[0] {
      LessTrichotomy(a[1..], b[1..]);
      assert a == [a[0]] + a[1..] && b == [b[0]] + b[1..];
    }
  }

  lemma {:induction false} LessTransitive(a: string, b: string, c: string)
    requires Less(a, b) && Less(b, c)
    ensures Less(a, c)
  {
    if a != "" && a[0] == b[0] && b[0] == c[0] {
      LessTransitive(a[1..], b[1..], c[1..]);
    }
  }

  /** The first character in which two texts differ, both behind the same beginning. */
  ghost predicate DifferAt(a: string, b: string, i: int) {
    0 <= i < |a| && i < |b| && a[..i] == b[..i] && a[i] != b[i]
  }

  /** The order is that of the first differing character; a proper beginning comes first. */
  lemma {:induction false} LessMeaning(a: string, b: string)
    ensures Less(a, b) <==> (a <= b && a != b) || exists i :: DifferAt(a, b, i) && a[i] < b[i]
  {
    if a != "" && b != "" && a[0] == b[0] {
      LessMeaning(a[1..], b[1..]);
      assert a == [a[0]] + a[1..] && b == [b[0]] + b[1..];
      assert a <= b <==> a[1..] <= b[1..];
      forall i ensures DifferAt(a, b, i) <==> DifferAt(a[1..], b[1..], i - 1) {
        DifferBehind(a, b, i);
      }
      if i :| DifferAt(a[1..], b[1..], i) && a[1..][i] < b[1..][i] {
        assert DifferAt(a, b, i + 1);
      }
    } else if a != "" && b != "" {
      assert DifferAt(a, b, 0);
      forall i | DifferAt(a, b, i) ensures i == 0 {
      }
    }
  }

  lemma DifferBehind(a: string, b: string, i: int)
    requires a != "" && b != "" && a[0] == b[0]
    ensures DifferAt(a, b, i) <==> DifferAt(a[1..], b[1..], i - 1)
  {
    if 0 < i < |a| && i < |b| {
      assert a[..i] == [a[0]] + a[1..][..i - 1] && b[..i] == [b[0]] + b[1..][..i - 1];
      assert a[..i] == b[..i] <==> a[1..][..i - 1] == b[1..][..i - 1];
    }
  }

  /** Strictly increasing versions. */
  ghost predicate Ascending(ms: seq<Migration>) {
    forall i, j :: 0 <= i < j < |ms| ==> Less(ms[i].version, ms[j].version)
  }

  ghost predicate DistinctVersions(ms: seq<Migration>) {
    forall i, j :: 0 <= i < j < |ms| ==> ms[i].version != ms[j].version
  }

  /** All versions of `a` come before all versions of `b`. */
  ghost predicate Below(a: seq<Migration>, b: seq<Migration>) {
    forall x, y :: x in a && y in b ==> Less(x.version, y.version)
  }

  function Insert(m: Migration, ms: seq<Migration>): (r: seq<Migration>)
    ensures multiset(r) == multiset(ms) + multiset{m}
  {
    if ms == [] || Less(m.version, ms[0].version) then [m] + ms
    else
      var r := Insert(m, ms[1..]);
      assert ms == [ms[0]] + ms[1..];
      [ms[0]] + r
  }

  /** The list in version order. */
  function Sort(ms: seq<Migration>): (r: seq<Migration>)
    ensures multiset(r) == multiset(ms)
  {
    if ms == [] then []
    else
      assert ms == [ms[0]] + ms[1..];
      Insert(ms[0], Sort(ms[1..]))
  }

  lemma SameElements(a: seq<Migration>, b: seq<Migration>)
    requires multiset(a) == multiset(b)
    ensures forall x :: x in a <==> x in b
  {
    assert forall x :: x in a <==> x in multiset(a);
    assert forall x :: x in b <==> x in multiset(b);
  }

  lemma SameLength(a: seq<Migration>, b: seq<Migration>)
    requires multiset(a) == multiset(b)
    ensures |a| == |b|
  {
    assert |a| == |multiset(a)| && |b| == |multiset(b)|;
  }

  lemma {:induction false} InsertAscending(m: Migration, ms: seq<Migration>)
    requires Ascending(ms) && forall x :: x in ms ==> x.version != m.version
    ensures Ascending(Insert(m, ms))
  {
    if ms != [] {
      LessTrichotomy(m.version, ms[0].version);
      if Less(m.version, ms[0].version) {
        forall j | 0 < j < |ms| ensures Less(m.version, ms[j].version) {
          LessTransitive(m.version, ms[0].version, ms[j].version);
        }
      } else {
        var r := Insert(m, ms[1..]);
        InsertAscending(m, ms[1..]);
        forall j | 0 <= j < |r| ensures Less(ms[0].version, r[j].version) {
          assert r[j] in multiset(r);
          assert r[j] == m || r[j] in ms[1..];
        }
      }
    }
  }

  lemma {:induction false} SortAscending(ms: seq<Migration>)
    requires DistinctVersions(ms)
    ensures Ascending(Sort(ms))
  {
    if ms != [] {
      SortAscending(ms[1..]);
      SameElements(Sort(ms[1..]), ms[1..]);
      InsertAscending(ms[0], Sort(ms[1..]));
    }
  }

  lemma ConsMultiset(a: seq<Migration>)
    requires a != []
    ensures multiset(a[1..]) == multiset(a) - multiset{a[0]}
  {
    assert a == [a[0]] + a[1..];
  }

  /** In ascending order the first element is the least. */
  lemma LeastIsFirst(a: seq<Migration>, x: Migration)
    requires Ascending(a) && x in a
    ensures x == a[0] || Less(a[0].version, x.version)
  {
  }

  lemma SameFirst(a: seq<Migration>, b: seq<Migration>)
    requires Ascending(a) && Ascending(b) && multiset(a) == multiset(b) && a != [] && b != []
    ensures a[0] == b[0]
    ensures multiset(a[1..]) == multiset(b[1..])
  {
    SameElements(a, b);
    LeastIsFirst(a, b[0]);
    LeastIsFirst(b, a[0]);
    LessTrichotomy(a[0].version, b[0].version);
    ConsMultiset(a);
    ConsMultiset(b);
  }

  /** There is only one ascending order of a list. */
  lemma {:induction false} AscendingUnique(a: seq<Migration>, b: seq<Migration>)
    requires Ascending(a) && Ascending(b) && multiset(a) == multiset(b)
    ensures a == b
  {
    SameLength(a, b);
    if a != [] {
      SameFirst(a, b);
      AscendingUnique(a[1..], b[1..]);
      assert a == [a[0]] + a[1..] && b == [b[0]] + b[1..];
    }
  }

  // ---------------------------------------------------------------------
  // The database
  // ---------------------------------------------------------------------

  function Versions(ms: seq<Migration>): (vs: seq<string>)
    ensures |vs| == |ms| && forall i :: 0 <= i < |ms| ==> vs[i] == ms[i].version
  {
    seq(|ms|, i requires 0 <= i < |ms| => ms[i].version)
  }

  /** All statements of a list of scripts, in order. */
  function Script(ms: seq<Migration>): seq<string> {
    if ms == [] then [] else Script(ms[..|ms| - 1]) + ms[|ms| - 1].statements
  }

  /** Those of the first i scripts of a list whose versions are not in the ledger. */
  function PendingTo(ms: seq<Migration>, i: nat, ledger: seq<string>): seq<Migration>
    requires i <= |ms|
  {
    if i == 0 then []
    else
      var before := PendingTo(ms, i - 1, ledger);
      if ms[i - 1].version in ledger then before else before + [ms[i - 1]]
  }

  function Pending(ms: seq<Migration>, ledger: seq<string>): seq<Migration> {
    PendingTo(ms, |ms|, ledger)
  }

  /** The statements of some scripts, with one more per script for its ledger row. */
  function Cost(ms: seq<Migration>): nat {
    if ms == [] then 0 else Cost(ms[..|ms| - 1]) + |ms[|ms| - 1].statements| + 1
  }

  lemma CostAppend(ms: seq<Migration>, m: Migration)
    ensures Cost(ms + [m]) == Cost(ms) + |m.statements| + 1
    ensures ms == [] ==> Cost([m]) == |m.statements| + 1
  {
    assert (ms + [m])[..|ms|] == ms;
    assert [m][..0] == [];
  }

  lemma {:induction false} CostOfPrefix(small: seq<Migration>, large: seq<Migration>)
    requires small <= large
    ensures Cost(small) <= Cost(large)
    decreases |large|
  {
    if |small| < |large| {
      CostOfPrefix(small, large[..|large| - 1]);
    } else {
      assert small == large;
    }
  }

  /** All the scripts can be applied after one another: they fit the budget and no version comes twice. */
  ghost predicate Affordable(ms: seq<Migration>, budget: nat) {
    Cost(ms) <= budget && DistinctVersions(ms)
  }

  /** The longest affordable first part of what was pending; on success, all of it. */
  ghost predicate Outcome(pending: seq<Migration>, budget: nat, done: seq<Migration>, ok: bool) {
    && done <= pending && Affordable(done, budget) && (ok <==> Affordable(pending, budget))
    && (ok ==> done == pending)
    && (!ok ==> |done| < |pending| && !Affordable(pending[..|done| + 1], budget))
  }

  lemma SpoiltBy(small: seq<Migration>, large: seq<Migration>, budget: nat)
    requires small <= large && !Affordable(small, budget)
    ensures !Affordable(large, budget)
  {
    CostOfPrefix(small, large);
  }

  /** A database that has had some scripts applied to it. */
  ghost predicate Applied(schema: seq<string>, ledger: seq<string>, done: seq<Migration>,
                          schema': seq<string>, ledger': seq<string>)
  {
    schema' == schema + Script(done) && ledger' == ledger + Versions(done)
  }

  lemma AppliedOneMore(schema: seq<string>, ledger: seq<string>, done: seq<Migration>,
                       schema': seq<string>, ledger': seq<string>, m: Migration)
    requires Applied(schema, ledger, done, schema', ledger')
    ensures Applied(schema, ledger, done + [m], schema' + m.statements, ledger' + [m.version])
  {
    ScriptAppend(done, m);
    assert Versions(done + [m]) == Versions(done) + [m.version];
  }

  /**
   The schema is kept as the list of statements that made it, so every fold of
   statements into a schema is a function of it. `budget` is the number of
   statements the connection survives: any failure point is some budget.
   */
  class Database {
    var schema: seq<string>
    var ledger: seq<string>

    constructor ()
      ensures schema == [] && ledger == []
    {
      schema, ledger := [], [];
    }

    /** One script in a transaction: all of it and its ledger row, or nothing. */
    method ApplyOne(m: Migration, budget: nat) returns (ok: bool, left: nat)
      modifies this
      ensures ok <==> Cost([m]) <= budget && m.version !in old(ledger)
      ensures ok ==> left == budget - Cost([m])
      ensures ok ==> schema == old(schema) + m.statements && ledger == old(ledger) + [m.version]
      ensures !ok ==> schema == old(schema) && ledger == old(ledger)
    {
      var tx := schema;
      left := budget;
      CostAppend([], m);
      for i := 0 to |m.statements|
        invariant tx == schema + m.statements[..i] && left == budget - i
        invariant schema == old(schema) && ledger == old(ledger)
      {
        if left == 0 {
          return false, 0;
        }
        assert m.statements[..i + 1] == m.statements[..i] + [m.statements[i]];
        tx := tx + [m.statements[i]];
        left := left - 1;
      }
      if left == 0 || m.version in ledger {
        return false, left;
      }
      left := left - 1;
      schema := tx;
      ledger := ledger + [m.version];
      ok := true;
    }

    /**
     Applies, in version order, the longest first part of what was pending that fits the budget; all
     of it on success, which it has exactly when all of it fits.
     */
    method ApplyMigrations(migs: seq<Migration>, budget: nat) returns (n: nat, ok: bool, ghost done: seq<Migration>)
      modifies this
      ensures n == |done| && Outcome(Pending(Sort(migs), old(ledger)), budget, done, ok)
      ensures Applied(old(schema), old(ledger), done, schema, ledger)
    {
      var sorted := Sort(migs);
      var applied := ledger;
      var left := budget;
      n, ok, done := 0, false, [];
      for i := 0 to |sorted|
        invariant n == |done| && Progress(old(schema), applied, sorted, budget, i, schema, ledger, left, done)
      {
        if sorted[i].version in applied {
          continue;
        }
        ghost var was, rows, had := schema, ledger, left;
        var committed;
        committed, left := ApplyOne(sorted[i], left);
        if !committed {
          Stops(old(schema), applied, sorted, budget, i, schema, ledger, had, done);
          return;
        }
        Proceeds(old(schema), applied, sorted, budget, i, was, rows, had, done);
        done := done + [sorted[i]];
        n := n + 1;
      }
      ok := true;
    }

    /**
     From a prefix of the sorted list a call reaches a later prefix, and the whole list exactly when
     the rest of it fits the budget.
     */
    method Advance(migs: seq<Migration>, budget: nat, ghost k: nat) returns (ok: bool, ghost reached: nat)
      requires DistinctVersions(migs) && Reached(schema, ledger, migs, k)
      modifies this
      ensures k <= reached && Reached(schema, ledger, migs, reached)
      ensures ok <==> Cost(Sort(migs)[k..]) <= budget
      ensures ok <==> reached == |migs|
    {
      var n;
      ghost var done;
      n, ok, done := ApplyMigrations(migs, budget);
      reached := Advances(old(schema), old(ledger), migs, budget, k, done, ok, schema, ledger);
    }
  }

  /** A call after the first i scripts of its list: what it has applied and what is left of the budget. */
  ghost predicate Progress(schema: seq<string>, ledger: seq<string>, list: seq<Migration>, budget: nat, i: nat,
                           schema': seq<string>, ledger': seq<string>, left: int, done: seq<Migration>)
  {
    && i <= |list| && done == PendingTo(list, i, ledger)
    && Affordable(done, budget) && left == budget - Cost(done)
    && Applied(schema, ledger, done, schema', ledger')
  }

  /** One more script is affordable exactly when it fits what is left and its version is new. */
  lemma OneMoreAffordable(done: seq<Migration>, m: Migration, budget: nat)
    requires Affordable(done, budget)
    ensures Affordable(done + [m], budget) <==> Cost([m]) <= budget - Cost(done) && m.version !in Versions(done)
    ensures Cost(done + [m]) == Cost(done) + Cost([m])
  {
    CostAppend(done, m);
    CostAppend([], m);
    var all := done + [m];
    if m.version in Versions(done) {
      var i :| 0 <= i < |done| && Versions(done)[i] == m.version;
      assert all[i].version == all[|done|].version;
    } else {
      forall i, j | 0 <= i < j < |all| ensures all[i].version != all[j].version {
        if j == |done| {
          assert Versions(done)[i] == all[i].version;
        }
      }
    }
  }

  lemma Proceeds(schema: seq<string>, ledger: seq<string>, list: seq<Migration>, budget: nat, i: nat,
                 schema': seq<string>, ledger': seq<string>, left: int, done: seq<Migration>)
    requires Progress(schema, ledger, list, budget, i, schema', ledger', left, done) && i < |list|
    requires list[i].version !in ledger && Cost([list[i]]) <= left && list[i].version !in ledger'
    ensures Progress(schema, ledger, list, budget, i + 1, schema' + list[i].statements, ledger' + [list[i].version],
                     left - Cost([list[i]]), done + [list[i]])
  {
    OneMoreAffordable(done, list[i], budget);
    AppliedOneMore(schema, ledger, done, schema', ledger', list[i]);
  }

  lemma Stops(schema: seq<string>, ledger: seq<string>, list: seq<Migration>, budget: nat, i: nat,
              schema': seq<string>, ledger': seq<string>, left: int, done: seq<Migration>)
    requires Progress(schema, ledger, list, budget, i, schema', ledger', left, done) && i < |list|
    requires list[i].version !in ledger && !(Cost([list[i]]) <= left && list[i].version !in ledger')
    ensures Outcome(Pending(list, ledger), budget, done, false)
  {
    var m, all := list[i], Pending(list, ledger);
    OneMoreAffordable(done, m, budget);
    PendingPrefix(list, i, |list|, ledger);
    PendingPrefix(list, i + 1, |list|, ledger);
    assert done + [m] <= all && all[..|done| + 1] == done + [m];
    SpoiltBy(done + [m], all, budget);
  }

  /** What is left of an ascending list is affordable exactly when it fits. */
  lemma RestAffordable(list: seq<Migration>, k: nat, ledger: seq<string>, budget: nat)
    requires Ascending(list) && k <= |list| && ledger == Versions(list[..k])
    ensures Affordable(Pending(list, ledger), budget) <==> Cost(list[k..]) <= budget
  {
    PendingRest(list, k, ledger);
    assert list[k..] == list[k..|list|];
    AscendingDistinct(list[k..]);
  }

  /** A call with a list in any order, from one prefix of the sorted list to a later one. */
  lemma Advances(schema: seq<string>, ledger: seq<string>, migs: seq<Migration>, budget: nat, k: nat,
                 done: seq<Migration>, ok: bool, schema': seq<string>, ledger': seq<string>)
    returns (reached: nat)
    requires DistinctVersions(migs) && Reached(schema, ledger, migs, k)
    requires Outcome(Pending(Sort(migs), ledger), budget, done, ok) && Applied(schema, ledger, done, schema', ledger')
    ensures k <= reached && Reached(schema', ledger', migs, reached)
    ensures ok <==> Cost(Sort(migs)[k..]) <= budget
    ensures ok <==> reached == |migs|
  {
    SortAscending(migs);
    SameLength(Sort(migs), migs);
    RestAffordable(Sort(migs), k, ledger, budget);
    CallAdvances(schema, ledger, Sort(migs), k, done, schema', ledger');
    reached := k + |done|;
  }

  lemma AscendingDistinct(list: seq<Migration>)
    requires Ascending(list)
    ensures DistinctVersions(list)
  {
    forall i, j | 0 <= i < j < |list| ensures list[i].version != list[j].version {
      LessTrichotomy(list[i].version, list[j].version);
    }
  }

  lemma ScriptAppend(ms: seq<Migration>, m: Migration)
    ensures Script(ms + [m]) == Script(ms) + m.statements
  {
    assert (ms + [m])[..|ms|] == ms;
  }

  /** What is pending in a first part of a list is a first part of what is pending. */
  lemma {:induction false} PendingPrefix(ms: seq<Migration>, i: nat, j: nat, ledger: seq<string>)
    requires i <= j <= |ms|
    ensures PendingTo(ms, i, ledger) <= PendingTo(ms, j, ledger)
    decreases j
  {
    if i < j {
      PendingPrefix(ms, i, j - 1, ledger);
    }
  }

  // ---------------------------------------------------------------------
  // Convergence
  // ---------------------------------------------------------------------

  /** What a database holds. */
  datatype Contents = Contents(schema: seq<string>, ledger: seq<string>)

  /** What it holds after some scripts. */
  function After(ms: seq<Migration>): Contents { Contents(Script(ms), Versions(ms)) }

  /** The database stands after the first k scripts of a list. */
  ghost predicate Stands(schema: seq<string>, ledger: seq<string>, list: seq<Migration>, k: int) {
    0 <= k <= |list| && Contents(schema, ledger) == After(list[..k])
  }

  ghost predicate Reached(schema: seq<string>, ledger: seq<string>, migs: seq<Migration>, k: int) {
    Stands(schema, ledger, Sort(migs), k)
  }

  /** The ledger holds the versions of the first k scripts. */
  ghost predicate AppliedTo(list: seq<Migration>, k: nat, ledger: seq<string>) {
    k == |ledger| <= |list| && forall i :: 0 <= i < k ==> ledger[i] == list[i].version
  }

  lemma NotApplied(list: seq<Migration>, k: nat, n: nat, ledger: seq<string>)
    requires Ascending(list) && AppliedTo(list, k, ledger) && k <= n < |list|
    ensures list[n].version !in ledger
  {
    forall i | 0 <= i < k ensures ledger[i] != list[n].version {
      LessTrichotomy(list[i].version, list[n].version);
    }
  }

  /** After the first k versions of an ascending list, exactly the others are pending. */
  lemma {:induction false} PendingUpTo(list: seq<Migration>, k: nat, n: nat, ledger: seq<string>)
    requires Ascending(list) && AppliedTo(list, k, ledger) && n <= |list|
    ensures PendingTo(list, n, ledger) == if n <= k then [] else list[k..n]
  {
    if n > 0 {
      PendingUpTo(list, k, n - 1, ledger);
      if n <= k {
        assert ledger[n - 1] == list[n - 1].version;
      } else {
        NotApplied(list, k, n - 1, ledger);
        SliceSnoc(list, k, n - 1);
      }
    }
  }

  lemma VersionsSplit(list: seq<Migration>, k: nat, n: nat)
    requires k + n <= |list|
    ensures Versions(list[..k + n]) == Versions(list[..k]) + Versions(list[k..k + n])
  {
  }

  lemma {:induction false} ScriptSplit(list: seq<Migration>, k: nat, n: nat)
    requires k + n <= |list|
    ensures Script(list[..k + n]) == Script(list[..k]) + Script(list[k..k + n])
  {
    if n > 0 {
      var last := list[k + n - 1];
      ScriptSplit(list, k, n - 1);
      ScriptAppend(list[..k + n - 1], last);
      ScriptAppend(list[k..k + n - 1], last);
      SliceSnoc(list, 0, k + n - 1);
      SliceSnoc(list, k, k + n - 1);
      ConcatAssoc(Script(list[..k]), Script(list[k..k + n - 1]), last.statements);
    }
  }

  lemma PendingRest(list: seq<Migration>, k: nat, ledger: seq<string>)
    requires Ascending(list) && k <= |list| && ledger == Versions(list[..k])
    ensures Pending(list, ledger) == list[k..|list|]
  {
    assert AppliedTo(list, k, ledger);
    PendingUpTo(list, k, |list|, ledger);
  }

  lemma StandsFurther(schema: seq<string>, ledger: seq<string>, list: seq<Migration>, k: nat, n: nat,
                      schema': seq<string>, ledger': seq<string>)
    requires Stands(schema, ledger, list, k) && k + n <= |list|
    requires Applied(schema, ledger, list[k..k + n], schema', ledger')
    ensures Stands(schema', ledger', list, k + n)
  {
    VersionsSplit(list, k, n);
    ScriptSplit(list, k, n);
  }

  /**
   A call on an ascending list moves from one of its prefixes to another, never back;
   a successful one reaches the end, and from the end nothing is pending.
   */
  lemma CallAdvances(schema: seq<string>, ledger: seq<string>, list: seq<Migration>, k: nat, done: seq<Migration>,
                     schema': seq<string>, ledger': seq<string>)
    requires Ascending(list) && Stands(schema, ledger, list, k)
    requires done <= Pending(list, ledger) && Applied(schema, ledger, done, schema', ledger')
    ensures |Pending(list, ledger)| == |list| - k
    ensures Stands(schema', ledger', list, k + |done|)
  {
    PendingRest(list, k, ledger);
    PrefixOfRest(list, k, done);
    StandsFurther(schema, ledger, list, k, |done|, schema', ledger');
  }

  lemma AscendingConcat(a: seq<Migration>, b: seq<Migration>)
    requires Ascending(a) && Ascending(b) && Below(a, b)
    ensures Ascending(a + b)
  {
    forall i, j | 0 <= i < |a| <= j < |a + b| ensures Less((a + b)[i].version, (a + b)[j].version) {
      assert (a + b)[i] in a && (a + b)[j] in b;
    }
  }

  /** A list that only grew at the top sorts to the old list followed by what is new. */
  lemma GrowthAtTop(small: seq<Migration>, new_: seq<Migration>, large: seq<Migration>)
    requires DistinctVersions(small) && DistinctVersions(new_) && Below(small, new_)
    requires multiset(large) == multiset(small) + multiset(new_) && DistinctVersions(large)
    ensures Sort(large) == Sort(small) + Sort(new_)
  {
    var a, b := Sort(small), Sort(new_);
    SortAscending(small);
    SortAscending(new_);
    SortAscending(large);
    SameElements(a, small);
    SameElements(b, new_);
    AscendingConcat(a, b);
    assert multiset(a + b) == multiset(large);
    AscendingUnique(Sort(large), a + b);
  }

  datatype Call = Call(migs: seq<Migration>, budget: nat)

  /** Each list is the previous one with scripts added above it, in any order. */
  ghost predicate Growing(calls: seq<Call>) {
    && (forall i :: 0 <= i < |calls| ==> DistinctVersions(calls[i].migs))
    && forall i :: 0 < i < |calls| ==> Grown(calls[i - 1].migs, calls[i].migs)
  }

  ghost predicate Grown(small: seq<Migration>, large: seq<Migration>) {
    exists extra :: DistinctVersions(extra) && Below(small, extra) &&
                    multiset(large) == multiset(small) + multiset(extra)
  }

  lemma ReachedAfterGrowth(schema: seq<string>, ledger: seq<string>,
                           small: seq<Migration>, large: seq<Migration>, k: nat)
    requires DistinctVersions(small) && DistinctVersions(large) && Grown(small, large)
    requires Reached(schema, ledger, small, k)
    ensures Reached(schema, ledger, large, k)
  {
    var extra :| DistinctVersions(extra) && Below(small, extra) && multiset(large) == multiset(small) + multiset(extra);
    GrowthAtTop(small, extra, large);
    StandsBelow(schema, ledger, Sort(small), Sort(extra), k);
  }

  lemma StandsBelow(schema: seq<string>, ledger: seq<string>, list: seq<Migration>, more: seq<Migration>, k: nat)
    requires Stands(schema, ledger, list, k)
    ensures Stands(schema, ledger, list + more, k)
  {
    assert (list + more)[..k] == list[..k];
  }

  /** Nothing applied yet is the beginning of every list. */
  lemma ReachedNone(migs: seq<Migration>)
    ensures Reached([], [], migs, 0)
  {
    assert Sort(migs)[..0] == [];
  }

  /** All scripts of the list are applied, in version order. */
  ghost predicate Complete(schema: seq<string>, ledger: seq<string>, migs: seq<Migration>) {
    ledger == Versions(Sort(migs)) && schema == Script(Sort(migs))
  }

  lemma CompleteAtEnd(schema: seq<string>, ledger: seq<string>, migs: seq<Migration>, k: nat)
    requires Reached(schema, ledger, migs, k)
    ensures Complete(schema, ledger, migs) <==> k == |migs|
  {
    var list := Sort(migs);
    SameLength(list, migs);
    assert list[..|migs|] == list && |Versions(list[..k])| == k && |Versions(list)| == |list|;
  }

  lemma {:induction false} CostSplit(list: seq<Migration>, k: nat)
    requires k <= |list|
    ensures Cost(list) == Cost(list[..k]) + Cost(list[k..])
    decreases |list|
  {
    if k < |list| {
      var n := |list| - 1;
      CostSplit(list[..n], k);
      assert list[..n][..k] == list[..k] && list[k..][..n - k] == list[..n][k..];
    } else {
      assert list[..k] == list;
    }
  }

  /**
   Any number of calls with growing lists, failing anywhere: the database always stands at a prefix
   of the newest list. The last call, which starts at `from`, reaches the end exactly when the rest
   fits its budget, so one call with budget for the whole list is enough whatever failed before.
   */
  method RunAll(calls: seq<Call>) returns (db: Database, ok: bool, ghost from: nat, ghost k: nat)
    requires calls != [] && Growing(calls)
    ensures ok <==> Complete(db.schema, db.ledger, calls[|calls| - 1].migs)
    ensures Cost(Sort(calls[|calls| - 1].migs)) <= calls[|calls| - 1].budget ==> ok
    ensures from <= k && Reached(db.schema, db.ledger, calls[|calls| - 1].migs, k)
    ensures from <= |Sort(calls[|calls| - 1].migs)|
    ensures ok <==> Cost(Sort(calls[|calls| - 1].migs)[from..]) <= calls[|calls| - 1].budget
  {
    db := new Database();
    ReachedNone(calls[0].migs);
    from := 0;
    ok, k := db.Advance(calls[0].migs, calls[0].budget, 0);
    for i := 1 to |calls|
      invariant fresh(db)
      invariant Reached(db.schema, db.ledger, calls[i - 1].migs, k)
      invariant from <= k && from <= |Sort(calls[i - 1].migs)|
      invariant ok <==> Cost(Sort(calls[i - 1].migs)[from..]) <= calls[i - 1].budget
      invariant ok <==> k == |calls[i - 1].migs|
    {
      ReachedAfterGrowth(db.schema, db.ledger, calls[i - 1].migs, calls[i].migs, k);
      from := k;
      ok, k := db.Advance(calls[i].migs, calls[i].budget, k);
    }
    ghost var last := calls[|calls| - 1];
    CompleteAtEnd(db.schema, db.ledger, last.migs, k);
    CostSplit(Sort(last.migs), from);
  }

  /**
   Exactly when a completed call leaves the ledger in version order: the versions
   applied before must be a first part of the list.
   */
  lemma CompletionExact(list: seq<Migration>, ledger: seq<string>)
    requires Ascending(list)
    ensures ledger + Versions(Pending(list, ledger)) == Versions(list) <==> ledger <= Versions(list)
  {
    if ledger <= Versions(list) {
      var k := |ledger|;
      assert ledger == Versions(list[..k]);
      PendingRest(list, k, ledger);
      VersionsSplit(list, k, |list| - k);
      Whole(list);
    }
  }
}
