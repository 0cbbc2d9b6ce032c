/**
 Checks and changes that interleave: looking up, evaluating and storing a decision are separate
 steps, and so are writing the tables and dropping cached decisions. How old can a served decision
 be, and when does it disagree with the tables?
 */
module Staleness {
  import opened Common
  import opened Sequences
  import opened Permissions
  import opened CacheKeys
  import opened Evaluation
  import opened RbacChanges
  import opened RbacService

  /** A check that found nothing in the cache, before and after its evaluation at step `at`. */
  datatype Check =
    | Missed(user: int, req: Requirement)
    | Decided(user: int, req: Requirement, value: bool, at: nat)

  /** A cached decision, with the check it comes from and the steps it was evaluated and stored at. */
  datatype Cached = Cached(pid: nat, user: int, req: Requirement, value: bool, expires: int,
                           evaluated: nat, stored: nat)

  datatype State = State(now: int, tables: Tables, entries: map<string, Cached>, checks: map<nat, Check>)

  datatype Event =
    | Tick(d: nat)
    | Lookup(pid: nat, user: int, req: Requirement)
    | Evaluate(pid: nat)
    | Store(pid: nat)
    | Write(change: Change)
    | DropUser(user: int)
    | DropAll
    | Evict(key: string)

  /** The cache lookup of a check. */
  function Served(s: State, user: int, req: Requirement): Option<bool> {
    var key := CacheKey(user, req);
    if key in s.entries && s.now <= s.entries[key].expires then Some(s.entries[key].value) else None
  }

  /** A check that is not served from the cache begins; what is expired goes. */
  ghost function LookupStep(s: State, pid: nat, user: int, req: Requirement): State {
    if pid in s.checks || Served(s, user, req).Some? then s
    else s.(checks := s.checks[pid := Missed(user, req)], entries := s.entries - {CacheKey(user, req)})
  }

  ghost function EvaluateStep(s: State, pid: nat, i: nat): State {
    if pid !in s.checks || !s.checks[pid].Missed? then s
    else
      var c := s.checks[pid];
      match Uncached(s.tables, c.user, c.req)
      case Ok(value) => s.(checks := s.checks[pid := Decided(c.user, c.req, value, i)])
      case Err(_) => s.(checks := s.checks - {pid})
  }

  ghost function StoreStep(s: State, pid: nat, i: nat, ttl: nat): State {
    if pid !in s.checks || !s.checks[pid].Decided? then s
    else
      var c := s.checks[pid];
      var e := Cached(pid, c.user, c.req, c.value, s.now + ttl, c.at, i);
      s.(entries := s.entries[CacheKey(c.user, c.req) := e], checks := s.checks - {pid})
  }

  ghost function Step(s: State, e: Event, i: nat, ttl: nat): State {
    match e
    case Tick(d) => s.(now := s.now + d)
    case Lookup(pid, user, req) => LookupStep(s, pid, user, req)
    case Evaluate(pid) => EvaluateStep(s, pid, i)
    case Store(pid) => StoreStep(s, pid, i, ttl)
    case Write(change) => s.(tables := After(s.tables, change))
    case DropUser(user) => s.(entries := map k | k in s.entries && s.entries[k].user != user :: s.entries[k])
    case DropAll => s.(entries := map[])
    case Evict(key) => s.(entries := s.entries - {key})
  }

  /** The state before step n. */
  ghost function Run(start: Tables, es: seq<Event>, n: nat, ttl: nat): State
    requires n <= |es|
  {
    if n == 0 then State(0, start, map[], map[]) else Step(Run(start, es, n - 1, ttl), es[n - 1], n - 1, ttl)
  }

  /** What the tables say before step i. */
  ghost function Says(start: Tables, es: seq<Event>, i: nat, ttl: nat, user: int, req: Requirement)
    : Result<bool, Teams.Error>
    requires i <= |es|
  {
    Uncached(Run(start, es, i, ttl).tables, user, req)
  }

  predicate Drops(e: Event, user: int) { e == DropAll || e == DropUser(user) }

  // ---------------------------------------------------------------------
  // What every interleaving keeps
  // ---------------------------------------------------------------------

  /** A decision was what the tables said when a check evaluated it. */
  ghost predicate WasSaid(start: Tables, es: seq<Event>, n: nat, ttl: nat,
                          pid: nat, user: int, req: Requirement, value: bool, at: nat)
  {
    at < n <= |es| && es[at] == Evaluate(pid) && Says(start, es, at, ttl, user, req) == Ok(value)
  }

  ghost predicate EntryKept(start: Tables, es: seq<Event>, n: nat, ttl: nat, k: string, e: Cached) {
    && k == CacheKey(e.user, e.req) && e.evaluated < e.stored < n <= |es| && es[e.stored] == Store(e.pid)
    && WasSaid(start, es, n, ttl, e.pid, e.user, e.req, e.value, e.evaluated)
    && e.expires == Run(start, es, e.stored, ttl).now + ttl
    && forall d :: e.stored < d < n ==> !Drops(es[d], e.user)
  }

  ghost predicate CheckKept(start: Tables, es: seq<Event>, n: nat, ttl: nat, pid: nat, c: Check) {
    c.Decided? ==> WasSaid(start, es, n, ttl, pid, c.user, c.req, c.value, c.at)
  }

  ghost predicate EntryRight(start: Tables, es: seq<Event>, n: nat, ttl: nat, k: string)
    requires n <= |es|
  {
    var s := Run(start, es, n, ttl);
    k in s.entries ==> EntryKept(start, es, n, ttl, k, s.entries[k])
  }

  ghost predicate CheckRight(start: Tables, es: seq<Event>, n: nat, ttl: nat, pid: nat)
    requires n <= |es|
  {
    var s := Run(start, es, n, ttl);
    pid in s.checks ==> CheckKept(start, es, n, ttl, pid, s.checks[pid])
  }

  ghost predicate Inv(start: Tables, es: seq<Event>, n: nat, ttl: nat)
    requires n <= |es|
  {
    && (forall k: string :: EntryRight(start, es, n, ttl, k))
    && (forall pid: nat :: CheckRight(start, es, n, ttl, pid))
  }

  lemma EntryStays(start: Tables, es: seq<Event>, n: nat, ttl: nat, k: string, e: Cached)
    requires n < |es| && EntryKept(start, es, n, ttl, k, e) && !Drops(es[n], e.user)
    ensures EntryKept(start, es, n + 1, ttl, k, e)
  {
  }

  lemma CheckStays(start: Tables, es: seq<Event>, n: nat, ttl: nat, pid: nat, c: Check)
    requires n < |es| && CheckKept(start, es, n, ttl, pid, c)
    ensures CheckKept(start, es, n + 1, ttl, pid, c)
  {
  }

  /** What is in the cache after a step was there before and is not dropped, or was stored by it. */
  lemma StepEntries(s: State, e: Event, i: nat, ttl: nat, k: string)
    requires k in Step(s, e, i, ttl).entries
    ensures var x := Step(s, e, i, ttl).entries[k];
            || (k in s.entries && x == s.entries[k] && !Drops(e, x.user))
            || (e == Store(x.pid) && x.pid in s.checks &&
                s.checks[x.pid] == Decided(x.user, x.req, x.value, x.evaluated) &&
                k == CacheKey(x.user, x.req) && x.stored == i && x.expires == s.now + ttl)
  {
  }

  /** A check after a step was there before, has begun, or was evaluated by it. */
  lemma StepChecks(s: State, e: Event, i: nat, ttl: nat, pid: nat)
    requires pid in Step(s, e, i, ttl).checks
    ensures var c := Step(s, e, i, ttl).checks[pid];
            || (pid in s.checks && c == s.checks[pid])
            || (e == Lookup(pid, c.user, c.req) && c.Missed?)
            || (e == Evaluate(pid) && pid in s.checks && s.checks[pid] == Missed(c.user, c.req) && c.Decided? &&
                Uncached(s.tables, c.user, c.req) == Ok(c.value) && c.at == i)
  {
  }

  lemma StepTables(s: State, e: Event, i: nat, ttl: nat)
    ensures s.now <= Step(s, e, i, ttl).now && (!e.Write? ==> Step(s, e, i, ttl).tables == s.tables)
  {
  }

  lemma EntriesKept(start: Tables, es: seq<Event>, n: nat, ttl: nat, k: string)
    requires 0 < n <= |es| && Inv(start, es, n - 1, ttl)
    ensures EntryRight(start, es, n, ttl, k)
  {
    var s := Run(start, es, n - 1, ttl);
    if k in Run(start, es, n, ttl).entries {
      var x := Run(start, es, n, ttl).entries[k];
      StepEntries(s, es[n - 1], n - 1, ttl, k);
      if k in s.entries && x == s.entries[k] && !Drops(es[n - 1], x.user) {
        assert EntryRight(start, es, n - 1, ttl, k);
        EntryStays(start, es, n - 1, ttl, k, x);
      } else {
        assert CheckRight(start, es, n - 1, ttl, x.pid);
        CheckStays(start, es, n - 1, ttl, x.pid, s.checks[x.pid]);
      }
    }
  }

  lemma ChecksKept(start: Tables, es: seq<Event>, n: nat, ttl: nat, pid: nat)
    requires 0 < n <= |es| && Inv(start, es, n - 1, ttl)
    ensures CheckRight(start, es, n, ttl, pid)
  {
    var s := Run(start, es, n - 1, ttl);
    if pid in Run(start, es, n, ttl).checks {
      StepChecks(s, es[n - 1], n - 1, ttl, pid);
      if pid in s.checks {
        assert CheckRight(start, es, n - 1, ttl, pid);
        CheckStays(start, es, n - 1, ttl, pid, s.checks[pid]);
      }
    }
  }

  lemma StepKeepsInv(start: Tables, es: seq<Event>, n: nat, ttl: nat)
    requires 0 < n <= |es| && Inv(start, es, n - 1, ttl)
    ensures Inv(start, es, n, ttl)
  {
    forall k: string ensures EntryRight(start, es, n, ttl, k) {
      EntriesKept(start, es, n, ttl, k);
    }
    forall pid: nat ensures CheckRight(start, es, n, ttl, pid) {
      ChecksKept(start, es, n, ttl, pid);
    }
  }

  /** Over all interleavings every decision in the cache or under way was right when evaluated. */
  lemma {:induction false} RunKeepsInv(start: Tables, es: seq<Event>, n: nat, ttl: nat)
    requires n <= |es|
    ensures Inv(start, es, n, ttl)
  {
    if n > 0 {
      RunKeepsInv(start, es, n - 1, ttl);
      StepKeepsInv(start, es, n, ttl);
    }
  }

  lemma {:induction false} TimePasses(start: Tables, es: seq<Event>, i: nat, j: nat, ttl: nat)
    requires i <= j <= |es|
    ensures Run(start, es, i, ttl).now <= Run(start, es, j, ttl).now
  {
    if i < j {
      TimePasses(start, es, i, j - 1, ttl);
      StepTables(Run(start, es, j - 1, ttl), es[j - 1], j - 1, ttl);
    }
  }

  // ---------------------------------------------------------------------
  // The age of a served decision
  // ---------------------------------------------------------------------

  /** The tables gave this decision no longer than `age` ago. */
  ghost predicate TrueWithin(start: Tables, es: seq<Event>, ttl: nat, user: int, req: Requirement,
                             value: bool, age: int)
  {
    exists i :: 0 <= i <= |es| && Says(start, es, i, ttl, user, req) == Ok(value) &&
                Run(start, es, |es|, ttl).now - age <= Run(start, es, i, ttl).now <= Run(start, es, |es|, ttl).now
  }

  /** The time between evaluating and storing a decision. */
  ghost function Gap(start: Tables, es: seq<Event>, ttl: nat, e: Cached): int
    requires e.evaluated <= e.stored <= |es|
  {
    Run(start, es, e.stored, ttl).now - Run(start, es, e.evaluated, ttl).now
  }

  /**
   What is served now was true of the tables no longer ago than the lifetime plus the time between
   evaluating and storing the decision.
   */
  ghost predicate Honest(start: Tables, es: seq<Event>, ttl: nat, user: int, req: Requirement) {
    var s := Run(start, es, |es|, ttl);
    Served(s, user, req).Some? ==>
      var e := s.entries[CacheKey(user, req)];
      && e.evaluated <= e.stored <= |es|
      && TrueWithin(start, es, ttl, user, req, e.value, ttl + Gap(start, es, ttl, e))
  }

  /** From seeded tables every state of a run has seeded tables. */
  lemma {:induction false} RunKeepsSeeded(start: Tables, es: seq<Event>, n: nat, ttl: nat)
    requires n <= |es| && Seeded(start)
    ensures Seeded(Run(start, es, n, ttl).tables)
  {
    if n > 0 {
      RunKeepsSeeded(start, es, n - 1, ttl);
      var s := Run(start, es, n - 1, ttl);
      StepTables(s, es[n - 1], n - 1, ttl);
      if es[n - 1].Write? {
        ChangesKeepCatalog(s.tables, es[n - 1].change, s.tables.catalog);
      }
    }
  }

  /** The entry behind a served decision, read as a decision about this requirement. */
  lemma ServedEntry(start: Tables, es: seq<Event>, ttl: nat, user: int, req: Requirement) returns (e: Cached)
    requires Seeded(start) && Served(Run(start, es, |es|, ttl), user, req).Some?
    ensures e == Run(start, es, |es|, ttl).entries[CacheKey(user, req)]
    ensures EntryKept(start, es, |es|, ttl, CacheKey(user, req), e) && e.user == user
    ensures Says(start, es, e.evaluated, ttl, user, req) == Ok(e.value)
  {
    RunKeepsInv(start, es, |es|, ttl);
    e := Run(start, es, |es|, ttl).entries[CacheKey(user, req)];
    assert EntryRight(start, es, |es|, ttl, CacheKey(user, req));
    RunKeepsSeeded(start, es, e.evaluated, ttl);
    SharedKeyAlike(Run(start, es, e.evaluated, ttl).tables, e.user, e.req, user, req);
  }

  /** From seeded tables the bound holds in every interleaving, for every requirement. */
  lemma StalenessBound(start: Tables, es: seq<Event>, ttl: nat, user: int, req: Requirement)
    requires Seeded(start)
    ensures Honest(start, es, ttl, user, req)
  {
    if Served(Run(start, es, |es|, ttl), user, req).Some? {
      var e := ServedEntry(start, es, ttl, user, req);
      TimePasses(start, es, e.evaluated, |es|, ttl);
    }
  }

  lemma RunNext(start: Tables, es: seq<Event>, n: nat, ttl: nat, s: State, t: State)
    requires n < |es| && Run(start, es, n, ttl) == s && Step(s, es[n], n, ttl) == t
    ensures Run(start, es, n + 1, ttl) == t
  {
  }

  /** The first two steps of a check that finds an empty cache. */
  lemma CheckBegins(s: State, pid: nat, user: int, req: Requirement, value: bool, i: nat)
    requires s.entries == map[] && s.checks == map[] && Uncached(s.tables, user, req) == Ok(value)
    ensures LookupStep(s, pid, user, req) == s.(checks := map[pid := Missed(user, req)])
    ensures EvaluateStep(s.(checks := map[pid := Missed(user, req)]), pid, i) ==
            s.(checks := map[pid := Decided(user, req, value, i)])
  {
  }

  /** One check of a requirement. */
  function OneCheck(user: int, q: Requirement): seq<Event> {
    [Lookup(0, user, q), Evaluate(0), Store(0)]
  }

  lemma OneCheckRuns(start: Tables, user: int, q: Requirement, value: bool, ttl: nat)
    requires Uncached(start, user, q) == Ok(value)
    ensures forall i :: 0 <= i <= 3 ==> Run(start, OneCheck(user, q), i, ttl).tables == start
    ensures Run(start, OneCheck(user, q), 3, ttl) ==
            State(0, start, map[CacheKey(user, q) := Cached(0, user, q, value, ttl, 1, 2)], map[])
  {
    var es := OneCheck(user, q);
    var s0 := State(0, start, map[], map[]);
    var s1, s2 := s0.(checks := map[0 := Missed(user, q)]), s0.(checks := map[0 := Decided(user, q, value, 1)]);
    assert Run(start, es, 0, ttl) == s0;
    CheckBegins(s0, 0, user, q, value, 1);
    RunNext(start, es, 0, ttl, s0, s1);
    RunNext(start, es, 1, ttl, s1, s2);
    RunNext(start, es, 2, ttl, s2, StoreStep(s2, 0, 2, ttl));
  }

  /** After a check of q, r is served a decision the tables never gave, whatever the lifetime. */
  lemma NeverTrue(catalog: set<Permission>, p: Permission, user: int, q: Requirement, r: Requirement, ttl: nat)
    requires Wanted(r) == p && Wanted(q) != p && CacheKey(user, q) == CacheKey(user, r)
    ensures !Honest(SingleGrant(catalog, user, p), OneCheck(user, q), ttl, user, r)
  {
    var start := SingleGrant(catalog, user, p);
    SingleGrantDecides(catalog, user, p, q);
    SingleGrantDecides(catalog, user, p, r);
    OneCheckRuns(start, user, q, false, ttl);
    assert Served(Run(start, OneCheck(user, q), 3, ttl), user, r) == Some(false);
  }

  /** All runs from tables linked inside a catalog, with a given lifetime, are honest to everybody. */
  ghost predicate AlwaysHonest(catalog: set<Permission>, ttl: nat) {
    forall start, es, user, req :: Catalogued(start, catalog) ==> Honest(start, es, ttl, user, req)
  }

  /** For every lifetime: the bound holds over all runs exactly when the catalog holds no colon. */
  lemma BoundExact(catalog: set<Permission>, ttl: nat)
    ensures AlwaysHonest(catalog, ttl) <==> ColonFree(catalog)
  {
    if ColonFree(catalog) {
      forall start, es, user, req | Catalogued(start, catalog) ensures Honest(start, es, ttl, user, req) {
        StalenessBound(start, es, ttl, user, req);
      }
    } else {
      var p :| p in catalog && !Plain(p);
      var q, r := ConfusedWith(0, p);
      NeverTrue(catalog, p, 0, q, r, ttl);
      SingleGrantDecides(catalog, 0, p, r);
    }
  }

  // ---------------------------------------------------------------------
  // When a served decision disagrees with the tables
  // ---------------------------------------------------------------------

  /** Step w changes a decision. */
  ghost predicate ChangesAt(start: Tables, es: seq<Event>, ttl: nat, user: int, req: Requirement, w: int) {
    0 <= w < |es| && Says(start, es, w, ttl, user, req) != Says(start, es, w + 1, ttl, user, req)
  }

  /** Every write that changed a decision of the user was followed by a drop of that user's decisions. */
  ghost predicate Settled(start: Tables, es: seq<Event>, ttl: nat, user: int) {
    forall w, q :: ChangesAt(start, es, ttl, user, q, w) ==>
      exists d :: w < d < |es| && Drops(es[d], user)
  }

  /** A check evaluated before a write and stored after the drop that followed it. */
  ghost predicate Overtaken(es: seq<Event>, user: int, pid: nat, i: int, w: int, d: int, j: int) {
    && 0 <= i < w < d < j < |es| && es[i] == Evaluate(pid) && es[w].Write? && Drops(es[d], user) && es[j] == Store(pid)
  }

  /** Between two different values of a list two neighbours differ. */
  lemma {:induction false} NeighboursDiffer<T>(values: seq<T>, i: nat, j: nat) returns (w: nat)
    requires i <= j < |values| && values[i] != values[j]
    ensures i <= w < j && values[w] != values[w + 1]
    decreases j
  {
    if values[j - 1] != values[j] {
      w := j - 1;
    } else {
      w := NeighboursDiffer(values, i, j - 1);
    }
  }

  /** Only writes change decisions. */
  lemma OnlyWritesChange(start: Tables, es: seq<Event>, ttl: nat, user: int, req: Requirement, w: nat)
    requires ChangesAt(start, es, ttl, user, req, w)
    ensures es[w].Write?
  {
    StepTables(Run(start, es, w, ttl), es[w], w, ttl);
  }

  /** Between two steps with different decisions some write changes the decision. */
  lemma SomeWriteChanges(start: Tables, es: seq<Event>, ttl: nat, user: int, req: Requirement, i: nat, j: nat)
    returns (w: nat)
    requires i <= j <= |es| && Says(start, es, i, ttl, user, req) != Says(start, es, j, ttl, user, req)
    ensures i <= w < j && ChangesAt(start, es, ttl, user, req, w) && es[w].Write?
  {
    var said := seq(|es| + 1, n requires 0 <= n <= |es| => Says(start, es, n, ttl, user, req));
    w := NeighboursDiffer(said, i, j);
    OnlyWritesChange(start, es, ttl, user, req, w);
  }

  /** A drop that the entry has survived came before it was stored. */
  lemma DroppedBefore(start: Tables, es: seq<Event>, ttl: nat, k: string, e: Cached, d: nat)
    requires EntryKept(start, es, |es|, ttl, k, e) && d < |es| && Drops(es[d], e.user)
    ensures d < e.stored < |es| && es[e.evaluated] == Evaluate(e.pid) && es[e.stored] == Store(e.pid)
  {
  }

  /** The check behind an entry was overtaken by a write that changed its decision, and by the drop after it. */
  ghost predicate EntryOvertaken(start: Tables, es: seq<Event>, ttl: nat, user: int, req: Requirement, e: Cached) {
    exists w, d :: Overtaken(es, user, e.pid, e.evaluated, w, d, e.stored) && ChangesAt(start, es, ttl, user, req, w)
  }

  /**
   Once the drops have caught up with the writes, a served decision can differ from the tables only
   if its check was overtaken: evaluated before a write that changed it and stored after the drop.
   */
  lemma StaleOnlyIfOvertaken(start: Tables, es: seq<Event>, ttl: nat, user: int, req: Requirement)
    requires Seeded(start) && Settled(start, es, ttl, user)
    requires Served(Run(start, es, |es|, ttl), user, req).Some?
    requires Says(start, es, |es|, ttl, user, req) != Ok(Served(Run(start, es, |es|, ttl), user, req).value)
    ensures EntryOvertaken(start, es, ttl, user, req, Run(start, es, |es|, ttl).entries[CacheKey(user, req)])
  {
    var e := ServedEntry(start, es, ttl, user, req);
    var w := SomeWriteChanges(start, es, ttl, user, req, e.evaluated, |es|);
    var d := DropAfter(start, es, ttl, user, req, w);
    DroppedBefore(start, es, ttl, CacheKey(user, req), e, d);
    OvertakenBy(start, es, ttl, user, req, e, w, d);
  }

  lemma DropAfter(start: Tables, es: seq<Event>, ttl: nat, user: int, req: Requirement, w: nat) returns (d: nat)
    requires Settled(start, es, ttl, user) && ChangesAt(start, es, ttl, user, req, w)
    ensures w < d < |es| && Drops(es[d], user)
  {
    d :| w < d < |es| && Drops(es[d], user);
  }

  lemma OvertakenBy(start: Tables, es: seq<Event>, ttl: nat, user: int, req: Requirement, e: Cached, w: nat, d: nat)
    requires ChangesAt(start, es, ttl, user, req, w)
    requires Overtaken(es, user, e.pid, e.evaluated, w, d, e.stored)
    ensures EntryOvertaken(start, es, ttl, user, req, e)
  {
  }

  /** Changes to the rows of one user. */
  predicate AboutOneUser(c: Change) {
    || c.AddOrgMember? || c.RemoveOrgMember? || c.AddTeamMember? || c.RemoveTeamMember?
    || c.SetCollaborator? || c.RemoveCollaborator?
  }

  /** The drop that each change of the service performs after its write. */
  function DropOf(c: Change): Event {
    if c.AddOrgMember? || c.RemoveOrgMember? || c.AddTeamMember? || c.RemoveTeamMember? ||
       c.SetCollaborator? || c.RemoveCollaborator?
    then DropUser(c.user) else DropAll
  }

  /** That drop reaches every user whose decisions the change can alter, and for rows of a user no other. */
  lemma DropReaches(T: Tables, c: Change, v: int, q: Requirement)
    ensures Uncached(T, v, q) != Uncached(After(T, c), v, q) ==> Drops(DropOf(c), v)
    ensures AboutOneUser(c) ==> (Drops(DropOf(c), v) <==> v == c.user)
  {
    match c
    case AddOrgMember(org, user, role) => OrgRowsOnly(T, T.orgMembers[(org, user) := role], user);
    case RemoveOrgMember(org, user) => OrgRowsOnly(T, T.orgMembers - {(org, user)}, user);
    case AddTeamMember(team, user) => TeamRowsOnly(T, T.teamMembers + [(team, user)], user);
    case RemoveTeamMember(team, user) => TeamRowsOnly(T, WithoutMember(T.teamMembers, (team, user)), user);
    case SetCollaborator(actor, repo, user, role, level) =>
      CollaboratorRowsOnly(T, T.collaborators[(repo, user) := LevelOr(level)], user);
    case RemoveCollaborator(repo, user) => CollaboratorRowsOnly(T, T.collaborators - {(repo, user)}, user);
    case _ =>
  }

  /** Every change that was not refused has made its drop. */
  ghost predicate CaughtUp(start: Tables, es: seq<Event>, ttl: nat) {
    forall w :: 0 <= w < |es| && es[w].Write? && Apply(Run(start, es, w, ttl).tables, es[w].change).Ok? ==>
      exists d :: w < d < |es| && es[d] == DropOf(es[w].change)
  }

  /** Whatever changes interleave, once each has dropped what it drops the writes are settled for all users. */
  lemma CaughtUpIsSettled(start: Tables, es: seq<Event>, ttl: nat, user: int)
    requires CaughtUp(start, es, ttl)
    ensures Settled(start, es, ttl, user)
  {
    forall w, q | ChangesAt(start, es, ttl, user, q, w) ensures exists d :: w < d < |es| && Drops(es[d], user) {
      var T := Run(start, es, w, ttl).tables;
      StepTables(Run(start, es, w, ttl), es[w], w, ttl);
      DropReaches(T, es[w].change, user, q);
      assert Apply(T, es[w].change).Ok?;
      var d :| w < d < |es| && es[d] == DropOf(es[w].change);
    }
  }

  // ---------------------------------------------------------------------
  // Both results are sharp
  // ---------------------------------------------------------------------

  /** A change right after the evaluation, and a slow store: the drop comes too early. */
  function LateStore(user: int, req: Requirement, c: Change, gap: nat, ttl: nat): seq<Event> {
    [Lookup(0, user, req), Evaluate(0), Write(c), DropOf(c), Tick(gap), Store(0), Tick(ttl)]
  }

  /** A check that has evaluated when the tables change. */
  lemma ChangedTooEarly(start: Tables, c: Change, ttl: nat, gap: nat, user: int, req: Requirement)
    requires Uncached(start, user, req) == Ok(true)
    ensures var es := LateStore(user, req, c, gap, ttl);
            && (forall i :: 0 <= i <= 2 ==> Run(start, es, i, ttl).tables == start && Run(start, es, i, ttl).now == 0)
            && Run(start, es, 3, ttl) == State(0, After(start, c), map[], map[0 := Decided(user, req, true, 1)])
  {
    var es := LateStore(user, req, c, gap, ttl);
    var s0 := State(0, start, map[], map[]);
    var s1 := s0.(checks := map[0 := Missed(user, req)]);
    var s2 := s0.(checks := map[0 := Decided(user, req, true, 1)]);
    assert Run(start, es, 0, ttl) == s0;
    CheckBegins(s0, 0, user, req, true, 1);
    RunNext(start, es, 0, ttl, s0, s1);
    RunNext(start, es, 1, ttl, s1, s2);
    RunNext(start, es, 2, ttl, s2, s2.(tables := After(start, c)));
  }

  /** It stores the old decision after the gap, and that is kept to the end of its lifetime. */
  lemma StoredTooLate(start: Tables, c: Change, ttl: nat, gap: nat, user: int, req: Requirement)
    requires Uncached(start, user, req) == Ok(true)
    ensures var es := LateStore(user, req, c, gap, ttl);
            && (forall i :: 3 <= i <= 7 ==> Run(start, es, i, ttl).tables == After(start, c))
            && Run(start, es, 7, ttl) == State(gap + ttl, After(start, c),
                 map[CacheKey(user, req) := Cached(0, user, req, true, gap + ttl, 1, 5)], map[])
  {
    var es := LateStore(user, req, c, gap, ttl);
    ChangedTooEarly(start, c, ttl, gap, user, req);
    var s3 := State(0, After(start, c), map[], map[0 := Decided(user, req, true, 1)]);
    var s5 := s3.(now := gap);
    var key := CacheKey(user, req);
    var s6 := State(gap, After(start, c), map[key := Cached(0, user, req, true, gap + ttl, 1, 5)], map[]);
    RunNext(start, es, 3, ttl, s3, s3);
    RunNext(start, es, 4, ttl, s3, s5);
    assert StoreStep(s5, 0, 5, ttl) == s6;
    RunNext(start, es, 5, ttl, s5, s6);
    RunNext(start, es, 6, ttl, s6, s6.(now := gap + ttl));
  }

  /**
   For every lifetime and gap there is a run, with its drop made, that serves a decision which was
   true at exactly the distance of the bound and at no later time.
   */
  lemma StalenessSharp(start: Tables, c: Change, ttl: nat, gap: nat, user: int, req: Requirement)
    requires Uncached(start, user, req) == Ok(true) && Uncached(After(start, c), user, req) == Ok(false)
    ensures var es := LateStore(user, req, c, gap, ttl);
            var s := Run(start, es, 7, ttl);
            && Settled(start, es, ttl, user) && s.now == ttl + gap && Served(s, user, req) == Some(true)
            && Says(start, es, 7, ttl, user, req) == Ok(false)
            && forall i :: 0 <= i <= 7 && Says(start, es, i, ttl, user, req) == Ok(true) ==>
                 Run(start, es, i, ttl).now <= s.now - ttl - gap
  {
    ChangedTooEarly(start, c, ttl, gap, user, req);
    StoredTooLate(start, c, ttl, gap, user, req);
    var es := LateStore(user, req, c, gap, ttl);
    forall w | 0 <= w < |es| && es[w].Write? ensures w == 2 && es[3] == DropOf(c) {
    }
    CaughtUpIsSettled(start, es, ttl, user);
  }

  /** Such runs exist on the builtin catalog: a member with one permission is removed from a team. */
  lemma SharpRunsExist(user: int, req: Requirement)
    requires Wanted(req) in BUILTIN
    ensures var start := SingleGrant(Elements(BUILTIN), user, Wanted(req));
            var c := RemoveTeamMember(1, user);
            && Seeded(start)
            && Uncached(start, user, req) == Ok(true) && Uncached(After(start, c), user, req) == Ok(false)
  {
    var start := SingleGrant(Elements(BUILTIN), user, Wanted(req));
    SingleGrantDecides(Elements(BUILTIN), user, Wanted(req), req);
    BuiltinColonFree();
    var S := After(start, RemoveTeamMember(1, user));
    assert S == start.(teamMembers := WithoutMember(start.teamMembers, (1, user)));
    assert forall t: int :: (t, user) !in S.teamMembers;
    assert !HoldsRole(S, user, req.repo, 1);
  }
}
