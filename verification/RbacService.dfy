/** The rbac service: cached checks must answer as the tables do, whatever was changed in between. */
module RbacService {
  import opened Common
  import opened Sequences
  import opened Permissions
  import opened Teams
  import opened CacheKeys
  import opened PermCache
  import opened Evaluation
  import opened RbacChanges

  function Wanted(q: Requirement): Permission { Permission(q.resource, q.action) }

  ghost function Uncached(T: Tables, u: int, q: Requirement): Result<bool, Error> {
    Decision(T, u, q.repo, Wanted(q))
  }

  // ---------------------------------------------------------------------
  // Coherence of a cache with the tables
  // ---------------------------------------------------------------------

  /**
   Two requirements under one key are decided alike: if they want different permissions both hold a
   colon, and no permission in the tables does.
   */
  lemma SharedKeyAlike(T: Tables, u: int, q: Requirement, v: int, r: Requirement)
    requires Seeded(T) && CacheKey(u, q) == CacheKey(v, r)
    ensures u == v && Uncached(T, u, q) == Uncached(T, v, r)
  {
    SameKey(u, q, v, r);
    if Wanted(q) != Wanted(r) {
      assert Confused(u, q, r) && Confused(u, r, q);
      ConfusableExactly(u, q);
      ConfusableExactly(u, r);
      ColonsDenied(T, u, q.repo, Wanted(q));
      ColonsDenied(T, u, r.repo, Wanted(r));
    }
  }

  /** Every cached decision is what the tables say now. */
  ghost predicate Sound(T: Tables, entries: map<string, Entry>) {
    forall u, q :: CacheKey(u, q) in entries ==> Uncached(T, u, q) == Ok(entries[CacheKey(u, q)].value)
  }

  ghost predicate KeyOf(u: int, key: string) {
    exists q :: key == CacheKey(u, q)
  }

  /** Keys are listed under the user they were made for. */
  ghost predicate Owned(byUser: map<int, set<string>>) {
    forall u, k :: u in byUser && k in byUser[u] ==> KeyOf(u, k)
  }

  /** On tables as the service leaves them the cache agrees with the tables. */
  ghost predicate Coherent(T: Tables, entries: map<string, Entry>, byUser: map<int, set<string>>) {
    Owned(byUser) && (Seeded(T) ==> Sound(T, entries))
  }

  /** A cached key is listed under the user it was made for. */
  lemma ListedUnderOwner(entries: map<string, Entry>, byUser: map<int, set<string>>, u: int, q: Requirement)
    requires IndexMatches(entries, byUser) && Owned(byUser) && CacheKey(u, q) in entries
    ensures u in byUser && CacheKey(u, q) in byUser[u]
  {
    var key := CacheKey(u, q);
    assert Indexed(byUser, key);
    var w :| w in byUser && key in byUser[w];
    assert KeyOf(w, key);
    var r :| key == CacheKey(w, r);
    SameKey(w, r, u, q);
  }

  /** A decision stored under its key keeps the cache sound. */
  lemma StoreKeepsSound(T: Tables, before: map<string, Entry>, after: map<string, Entry>, u: int, q: Requirement)
    requires Seeded(T) && Sound(T, before)
    requires CacheKey(u, q) in after && Uncached(T, u, q) == Ok(after[CacheKey(u, q)].value)
    requires Within(after - {CacheKey(u, q)}, before)
    ensures Sound(T, after)
  {
    forall v, r | CacheKey(v, r) in after ensures Uncached(T, v, r) == Ok(after[CacheKey(v, r)].value) {
      if CacheKey(v, r) == CacheKey(u, q) {
        SharedKeyAlike(T, v, r, u, q);
      } else {
        assert CacheKey(v, r) in after - {CacheKey(u, q)};
      }
    }
  }

  lemma StoreKeepsCoherent(T: Tables, before: map<string, Entry>, index: map<int, set<string>>,
                           after: map<string, Entry>, index': map<int, set<string>>, u: int, q: Requirement)
    requires Coherent(T, before, index)
    requires CacheKey(u, q) in after && Uncached(T, u, q) == Ok(after[CacheKey(u, q)].value)
    requires Within(after - {CacheKey(u, q)}, before) && Extended(index', index, u, CacheKey(u, q))
    ensures Coherent(T, after, index')
  {
    forall v, k | v in index' && k in index'[v] ensures KeyOf(v, k) {
      if !(v in index && k in index[v]) {
        assert v == u && k == CacheKey(u, q);
      }
    }
    if Seeded(T) {
      StoreKeepsSound(T, before, after, u, q);
    }
  }

  /** Entries that disappear do no harm. */
  lemma LossKeepsCoherent(T: Tables, before: map<string, Entry>, index: map<int, set<string>>,
                          after: map<string, Entry>, index': map<int, set<string>>)
    requires Coherent(T, before, index) && Within(after, before) && Shrunk(index', index)
    ensures Coherent(T, after, index')
  {
  }

  /** Dropping the keys listed under one user is enough when only that user's decisions changed. */
  lemma DroppingUserKeepsCoherent(T: Tables, S: Tables, entries: map<string, Entry>,
                                  byUser: map<int, set<string>>, u: int)
    requires IndexMatches(entries, byUser) && Coherent(T, entries, byUser) && OnlyFor(T, S, u)
    ensures Coherent(S, entries - (if u in byUser then byUser[u] else {}), byUser - {u})
  {
    var rest := entries - if u in byUser then byUser[u] else {};
    forall v, q | Seeded(S) && CacheKey(v, q) in rest ensures Uncached(S, v, q) == Ok(rest[CacheKey(v, q)].value) {
      ListedUnderOwner(entries, byUser, v, q);
    }
  }

  lemma NotListed(entries: map<string, Entry>, byUser: map<int, set<string>>, key: string)
    requires IndexMatches(entries, byUser) && key !in entries
    ensures forall v :: v in byUser ==> key !in byUser[v]
  {
  }

  /** Two states of the tables that differ in the decisions of one user only. */
  ghost predicate OnlyFor(T: Tables, S: Tables, u: int) {
    T.catalog == S.catalog && T.rolePerms == S.rolePerms &&
    forall v, q :: v != u ==> Uncached(T, v, q) == Uncached(S, v, q)
  }

  /** The loop that links permissions inside a transaction. */
  method Link(links: set<(int, Permission)>, catalog: set<Permission>, role: int, perms: seq<Permission>)
    returns (r: Option<set<(int, Permission)>>)
    ensures r == LinkPermissions(links, catalog, role, perms)
  {
    var tx := links;
    for i := 0 to |perms|
      invariant LinkPermissions(links, catalog, role, perms) == LinkPermissions(tx, catalog, role, perms[i..])
    {
      assert perms[i..][0] == perms[i] && perms[i..][1..] == perms[i + 1..];
      if perms[i] in catalog {
        if (role, perms[i]) in tx {
          return None;
        }
        tx := tx + {(role, perms[i])};
      }
    }
    r := Some(tx);
  }

  // ---------------------------------------------------------------------
  // The service
  // ---------------------------------------------------------------------

  class Service {
    var db: Tables
    const cache: Cache

    ghost predicate Valid()
      reads this, cache
    {
      cache.Valid() && Numbered(db) && Coherent(db, cache.entries, cache.byUser)
    }

    /** The tables and the answer are what the change says they should be. */
    ghost predicate Did(before: Tables, effect: Result<Effect, Refusal>, r: Result<int, Refusal>)
      reads this
    {
      db == Settle(before, effect) && r == Reply(effect)
    }

    constructor (db: Tables)
      requires Numbered(db)
      ensures Valid() && this.db == db && fresh(cache) && cache.entries == map[]
      ensures cache.max == 10000 && cache.ttl == 300_000_000_000
    {
      this.db := db;
      cache := new Cache(10000, 300_000_000_000);
    }

    /** The decisions listed under one user are gone, and no others. */
    ghost predicate Forgot(user: int, entries: map<string, Entry>, byUser: map<int, set<string>>)
      reads this, cache
    {
      && cache.byUser == byUser - {user}
      && cache.entries == entries - if user in byUser then byUser[user] else {}
    }

    /** After a change that was made nothing is cached; a refused one leaves the cache alone. */
    ghost predicate ForgotIf(made: bool, entries: map<string, Entry>)
      reads this, cache
    {
      cache.entries == if made then map[] else entries
    }

    /** A fresh decision is stored under the key of a requirement. */
    ghost predicate Hit(user: int, req: Requirement, now: int)
      reads this, cache
    {
      CacheKey(user, req) in cache.entries && now <= cache.entries[CacheKey(user, req)].expires
    }

    ghost predicate Remembers(user: int, req: Requirement, value: bool, now: int)
      reads this, cache
    {
      CacheKey(user, req) in cache.entries && cache.entries[CacheKey(user, req)] == Entry(value, now + cache.ttl)
    }

    /** Stores under a key that is not in use. */
    method Put(user: int, key: string, value: bool, now: int)
      requires cache.Valid() && key !in cache.entries
      modifies cache
      ensures cache.Valid() && key in cache.entries && cache.entries[key] == Entry(value, now + cache.ttl)
      ensures Within(cache.entries - {key}, old(cache.entries)) && Extended(cache.byUser, old(cache.byUser), user, key)
    {
      NotListed(cache.entries, cache.byUser, key);
      cache.Set(user, key, value, now);
    }

    /** Remembers a decision that is not in the cache. */
    method Remember(user: int, req: Requirement, value: bool, now: int)
      requires Valid() && CacheKey(user, req) !in cache.entries
      requires Uncached(db, user, req) == Ok(value)
      modifies cache
      ensures Valid() && Remembers(user, req, value, now)
    {
      ghost var entries, index := cache.entries, cache.byUser;
      Put(user, CacheKey(user, req), value, now);
      StoreKeepsCoherent(db, entries, index, cache.entries, cache.byUser, user, req);
    }

    /** Evaluates and remembers a decision that is not in the cache. */
    method Decide(user: int, req: Requirement, now: int) returns (granted: bool)
      requires Valid() && CacheKey(user, req) !in cache.entries
      modifies cache
      ensures Valid()
      ensures granted <==> Uncached(db, user, req) == Ok(true)
      ensures Uncached(db, user, req).Ok? ==> Remembers(user, req, granted, now)
    {
      var decision := Evaluate(db, user, req.repo, Wanted(req));
      if decision.Err? {
        return false;
      }
      granted := decision.value;
      Remember(user, req, granted, now);
    }

    /** The lookup of a check. */
    method Lookup(user: int, req: Requirement, now: int) returns (v: bool, hit: bool)
      requires Valid()
      modifies cache
      ensures Valid()
      ensures hit <==> old(Hit(user, req, now))
      ensures hit ==> v == old(cache.entries)[CacheKey(user, req)].value
      ensures hit && Seeded(db) ==> Uncached(db, user, req) == Ok(v)
      ensures !hit ==> CacheKey(user, req) !in cache.entries
    {
      ghost var entries, index := cache.entries, cache.byUser;
      v, hit := cache.Get(CacheKey(user, req), now);
      LossKeepsCoherent(db, entries, index, cache.entries, cache.byUser);
    }

    /** On tables as the service leaves them, the answer is what the tables say. */
    method Check(user: int, isAdmin: bool, req: Requirement, now: int) returns (granted: bool)
      requires Valid()
      modifies cache
      ensures Valid()
      ensures Seeded(db) ==> (granted <==> isAdmin || Uncached(db, user, req) == Ok(true))
      ensures !isAdmin && old(Hit(user, req, now)) ==> granted == old(cache.entries)[CacheKey(user, req)].value
      ensures !isAdmin && !old(Hit(user, req, now)) ==> (granted <==> Uncached(db, user, req) == Ok(true))
      ensures !isAdmin && !old(Hit(user, req, now)) && Uncached(db, user, req).Ok? ==>
                Remembers(user, req, granted, now)
    {
      if isAdmin {
        return true;
      }
      var v, hit := Lookup(user, req, now);
      if hit {
        return v;
      }
      granted := Decide(user, req, now);
    }

    /** After a change about one user: drop that user's decisions. */
    method ForgetUser(user: int, ghost before: Tables)
      requires cache.Valid() && Coherent(before, cache.entries, cache.byUser)
      requires Numbered(db) && OnlyFor(before, db, user)
      modifies cache
      ensures Valid() && Forgot(user, old(cache.entries), old(cache.byUser))
    {
      DroppingUserKeepsCoherent(before, db, cache.entries, cache.byUser, user);
      cache.InvalidateUser(user);
    }

    /** After any other change: drop everything. */
    method ForgetAll()
      requires Numbered(db) && 0 < cache.max && 0 < cache.ttl
      modifies cache
      ensures Valid() && cache.entries == map[]
    {
      cache.InvalidateAll();
    }

    method CreateTeam(org: int, parent: Option<int>, role: Option<int>) returns (r: Result<int, Refusal>)
      requires Valid()
      modifies this`db, cache
      ensures Valid() && Did(old(db), TeamCreation(old(db), org, parent, role), r)
      ensures ForgotIf(r.Ok?, old(cache.entries))
      ensures r.Ok? ==> r.value == old(db).nextTeam
    {
      var id := db.nextTeam;
      var created := TryCreate(db.teams, id, org, parent, role);
      if created.Err? {
        return Err(TeamRefusal(created.error));
      }
      db := db.(teams := created.value, nextTeam := id + 1);
      ForgetAll();
      r := Ok(id);
    }

    method ReparentTeam(team: int, newParent: Option<int>) returns (r: Result<int, Refusal>)
      requires Valid()
      modifies this`db, cache
      ensures Valid() && Did(old(db), TeamMove(old(db), team, newParent), r)
      ensures ForgotIf(r.Ok?, old(cache.entries))
    {
      if newParent.Some? {
        var refused := CheckMove(db.teams, team, newParent.value);
        if refused.Some? {
          return Err(TeamRefusal(refused.value));
        }
      }
      if team in db.teams {
        var p := if newParent.Some? then newParent.value else 0;
        db := db.(teams := db.teams[team := db.teams[team].(parent := p)]);
      }
      ForgetAll();
      r := Ok(0);
    }

    method CreateRole(org: int, perms: seq<Permission>) returns (r: Result<int, Refusal>)
      requires Valid()
      modifies this`db, cache
      ensures Valid() && Did(old(db), RoleCreation(old(db), org, perms), r)
      ensures ForgotIf(r.Ok?, old(cache.entries))
      ensures r.Ok? ==> r.value == old(db).nextRole
    {
      var id := db.nextRole;
      var links := Link(db.rolePerms, db.catalog, id, perms);
      if links.None? {
        return Err(DuplicatePermission);
      }
      db := WithRole(db, org, links.value);
      ForgetAll();
      r := Ok(id);
    }

    method SetRolePermissions(role: int, perms: seq<Permission>) returns (r: Result<int, Refusal>)
      requires Valid()
      modifies this`db, cache
      ensures Valid() && Did(old(db), RoleUpdate(old(db), role, perms), r)
      ensures ForgotIf(r.Ok?, old(cache.entries))
    {
      if role !in db.roles {
        return Err(RoleUnknown);
      }
      if db.roles[role].builtin {
        return Err(RoleBuiltin);
      }
      var links := Link(Unlink(db.rolePerms, role), db.catalog, role, perms);
      if links.None? {
        return Err(DuplicatePermission);
      }
      db := db.(rolePerms := links.value);
      ForgetAll();
      r := Ok(0);
    }

    method DeleteRole(role: int) returns (r: Result<int, Refusal>)
      requires Valid()
      modifies this`db, cache
      ensures Valid() && Did(old(db), RoleDeletion(old(db), role), r)
      ensures ForgotIf(r.Ok?, old(cache.entries))
    {
      if role !in db.roles {
        return Err(RoleUnknown);
      }
      if db.roles[role].builtin {
        return Err(RoleBuiltin);
      }
      db := db.(rolePerms := Unlink(db.rolePerms, role));
      db := db.(roles := db.roles - {role});
      ForgetAll();
      r := Ok(0);
    }

    method AddOrgMember(org: int, user: int, role: Option<int>) returns (r: Result<int, Refusal>)
      requires Valid()
      modifies this`db, cache
      ensures Valid() && Did(old(db), OrgRows(old(db), old(db).orgMembers[(org, user) := role]), r)
      ensures Forgot(user, old(cache.entries), old(cache.byUser))
    {
      var rows := db.orgMembers[(org, user) := role];
      OrgRowsOnly(db, rows, user);
      db := db.(orgMembers := rows);
      ForgetUser(user, old(db));
      r := Ok(0);
    }

    method RemoveOrgMember(org: int, user: int) returns (r: Result<int, Refusal>)
      requires Valid()
      modifies this`db, cache
      ensures Valid() && Did(old(db), OrgRows(old(db), old(db).orgMembers - {(org, user)}), r)
      ensures Forgot(user, old(cache.entries), old(cache.byUser))
    {
      var rows := db.orgMembers - {(org, user)};
      OrgRowsOnly(db, rows, user);
      db := db.(orgMembers := rows);
      ForgetUser(user, old(db));
      r := Ok(0);
    }

    method AddTeamMember(team: int, user: int) returns (r: Result<int, Refusal>)
      requires Valid()
      modifies this`db, cache
      ensures Valid() && Did(old(db), TeamRows(old(db), old(db).teamMembers + [(team, user)]), r)
      ensures Forgot(user, old(cache.entries), old(cache.byUser))
    {
      var rows := db.teamMembers + [(team, user)];
      TeamRowsOnly(db, rows, user);
      db := db.(teamMembers := rows);
      ForgetUser(user, old(db));
      r := Ok(0);
    }

    method RemoveTeamMember(team: int, user: int) returns (r: Result<int, Refusal>)
      requires Valid()
      modifies this`db, cache
      ensures Valid() && Did(old(db), TeamRows(old(db), WithoutMember(old(db).teamMembers, (team, user))), r)
      ensures Forgot(user, old(cache.entries), old(cache.byUser))
    {
      var rows := WithoutMember(db.teamMembers, (team, user));
      TeamRowsOnly(db, rows, user);
      db := db.(teamMembers := rows);
      ForgetUser(user, old(db));
      r := Ok(0);
    }

    method GrantTeamRepo(team: int, repo: int, role: Option<int>) returns (r: Result<int, Refusal>)
      requires Valid()
      modifies this`db, cache
      ensures Valid() && Did(old(db), TeamRepoGrant(old(db), team, repo, role), r)
      ensures ForgotIf(r.Ok?, old(cache.entries))
    {
      db := db.(teamRepos := db.teamRepos[(team, repo) := role]);
      ForgetAll();
      r := Ok(0);
    }

    method SetCollaborator(actor: int, repo: int, user: int, role: Option<int>, level: string)
      returns (r: Result<int, Refusal>)
      requires Valid()
      modifies this`db, cache
      ensures Valid() && Did(old(db), CollaboratorSetting(old(db), actor, repo, user, role, level), r)
      ensures r.Ok? ==> Forgot(user, old(cache.entries), old(cache.byUser))
      ensures r.Err? ==> cache.entries == old(cache.entries)
    {
      if role.Some? {
        var refused := RoleRefusal(db, actor, repo, role.value);
        if refused.Some? {
          return Err(refused.value);
        }
      }
      var rows := db.collaborators[(repo, user) := if level == "" then "read" else level];
      CollaboratorRowsOnly(db, rows, user);
      db := db.(collaborators := rows);
      ForgetUser(user, old(db));
      r := Ok(0);
    }

    method RemoveCollaborator(repo: int, user: int) returns (r: Result<int, Refusal>)
      requires Valid()
      modifies this`db, cache
      ensures Valid() && Did(old(db), CollaboratorRows(old(db), old(db).collaborators - {(repo, user)}), r)
      ensures Forgot(user, old(cache.entries), old(cache.byUser))
    {
      var rows := db.collaborators - {(repo, user)};
      CollaboratorRowsOnly(db, rows, user);
      db := db.(collaborators := rows);
      ForgetUser(user, old(db));
      r := Ok(0);
    }

    /** Changes to the rows of organizations and teams. */
    method ExecuteMember(c: Change) returns (r: Result<int, Refusal>)
      requires Valid() && (c.AddOrgMember? || c.RemoveOrgMember? || c.AddTeamMember? || c.RemoveTeamMember?)
      modifies this`db, cache
      ensures Valid() && Did(old(db), Apply(old(db), c), r)
    {
      match c
      case AddOrgMember(org, user, role) =>
        assert Apply(db, c) == OrgRows(db, db.orgMembers[(org, user) := role]);
        r := AddOrgMember(org, user, role);
      case RemoveOrgMember(org, user) =>
        assert Apply(db, c) == OrgRows(db, db.orgMembers - {(org, user)});
        r := RemoveOrgMember(org, user);
      case AddTeamMember(team, user) =>
        assert Apply(db, c) == TeamRows(db, db.teamMembers + [(team, user)]);
        r := AddTeamMember(team, user);
      case RemoveTeamMember(team, user) =>
        assert Apply(db, c) == TeamRows(db, WithoutMember(db.teamMembers, (team, user)));
        r := RemoveTeamMember(team, user);
    }

    /** Changes to the rows of repositories. */
    method ExecuteAccess(c: Change) returns (r: Result<int, Refusal>)
      requires Valid() && (c.GrantTeamRepo? || c.SetCollaborator? || c.RemoveCollaborator?)
      modifies this`db, cache
      ensures Valid() && Did(old(db), Apply(old(db), c), r)
    {
      match c
      case GrantTeamRepo(team, repo, role) =>
        assert Apply(db, c) == TeamRepoGrant(db, team, repo, role);
        r := GrantTeamRepo(team, repo, role);
      case SetCollaborator(actor, repo, user, role, level) =>
        assert Apply(db, c) == CollaboratorSetting(db, actor, repo, user, role, level);
        r := SetCollaborator(actor, repo, user, role, level);
      case RemoveCollaborator(repo, user) =>
        assert Apply(db, c) == CollaboratorRows(db, db.collaborators - {(repo, user)});
        r := RemoveCollaborator(repo, user);
    }

    /** Any of the changes. */
    method Execute(c: Change) returns (r: Result<int, Refusal>)
      requires Valid()
      modifies this`db, cache
      ensures Valid() && Did(old(db), Apply(old(db), c), r)
    {
      match c
      case CreateTeam(org, parent, role) =>
        assert Apply(db, c) == TeamCreation(db, org, parent, role);
        r := CreateTeam(org, parent, role);
      case ReparentTeam(team, newParent) =>
        assert Apply(db, c) == TeamMove(db, team, newParent);
        r := ReparentTeam(team, newParent);
      case CreateRole(org, perms) =>
        assert Apply(db, c) == RoleCreation(db, org, perms);
        r := CreateRole(org, perms);
      case SetRolePermissions(role, perms) =>
        assert Apply(db, c) == RoleUpdate(db, role, perms);
        r := SetRolePermissions(role, perms);
      case DeleteRole(role) =>
        assert Apply(db, c) == RoleDeletion(db, role);
        r := DeleteRole(role);
      case GrantTeamRepo(_, _, _) => r := ExecuteAccess(c);
      case SetCollaborator(_, _, _, _, _) => r := ExecuteAccess(c);
      case RemoveCollaborator(_, _) => r := ExecuteAccess(c);
      case _ => r := ExecuteMember(c);
    }
  }

  /** Organization rows of one user decide about that user only. */
  lemma OrgRowsOnly(T: Tables, rows: map<(int, int), Option<int>>, user: int)
    requires forall k: (int, int) :: k.1 != user ==>
               (k in rows <==> k in T.orgMembers) && (k in rows ==> rows[k] == T.orgMembers[k])
    ensures OnlyFor(T, T.(orgMembers := rows), user)
  {
    forall v, q | v != user ensures Uncached(T, v, q) == Uncached(T.(orgMembers := rows), v, q) {
      OrgRowsOfOneUser(T, rows, user, v);
      SameDecision(T, T.(orgMembers := rows), v, q.repo, Wanted(q));
    }
  }

  lemma TeamRowsOnly(T: Tables, rows: seq<(int, int)>, user: int)
    requires forall k: (int, int) :: k.1 != user ==> (k in rows <==> k in T.teamMembers)
    ensures OnlyFor(T, T.(teamMembers := rows), user)
  {
    forall v, q | v != user ensures Uncached(T, v, q) == Uncached(T.(teamMembers := rows), v, q) {
      TeamRowsOfOneUser(T, rows, user, v);
      SameDecision(T, T.(teamMembers := rows), v, q.repo, Wanted(q));
    }
  }

  lemma CollaboratorRowsOnly(T: Tables, rows: map<(int, int), string>, user: int)
    requires forall k: (int, int) :: k.1 != user ==>
               (k in rows <==> k in T.collaborators) && (k in rows ==> rows[k] == T.collaborators[k])
    ensures OnlyFor(T, T.(collaborators := rows), user)
  {
    forall v, q | v != user ensures Uncached(T, v, q) == Uncached(T.(collaborators := rows), v, q) {
      CollaboratorRowsOfOneUser(T, rows, user, v);
      SameDecision(T, T.(collaborators := rows), v, q.repo, Wanted(q));
    }
  }

  // ---------------------------------------------------------------------
  // Whole runs
  // ---------------------------------------------------------------------

  datatype Call = Ask(user: int, isAdmin: bool, req: Requirement) | Do(change: Change)

  /** What a call does to the tables. */
  ghost function Next(T: Tables, call: Call): Tables {
    if call.Do? then After(T, call.change) else T
  }

  /** What a service without a cache answers to a call. */
  ghost function Reported(T: Tables, call: Call): seq<bool> {
    if call.Do? then [] else [call.isAdmin || Uncached(T, call.user, call.req) == Ok(true)]
  }

  /** The tables after the first n calls. */
  ghost function TablesAfter(T: Tables, calls: seq<Call>, n: nat): Tables
    requires n <= |calls|
  {
    if n == 0 then T else Next(TablesAfter(T, calls, n - 1), calls[n - 1])
  }

  /** All answers of a service without a cache to the first n calls. */
  ghost function Answers(T: Tables, calls: seq<Call>, n: nat): seq<bool>
    requires n <= |calls|
  {
    if n == 0 then []
    else Answers(T, calls, n - 1) + Reported(TablesAfter(T, calls, n - 1), calls[n - 1])
  }

  method Handle(s: Service, call: Call, now: int) returns (answer: seq<bool>)
    requires s.Valid()
    modifies s, s.cache
    ensures s.Valid() && s.db == Next(old(s.db), call)
    ensures Seeded(old(s.db)) ==> answer == Reported(old(s.db), call)
  {
    match call
    case Ask(user, isAdmin, req) =>
      var a := s.Check(user, isAdmin, req, now);
      answer := [a];
    case Do(change) =>
      var r := s.Execute(change);
      answer := [];
  }

  /** What the first n calls did and answered. */
  ghost predicate RunOutcome(T: Tables, calls: seq<Call>, n: nat, T': Tables, answers: seq<bool>)
    requires n <= |calls|
  {
    && T' == TablesAfter(T, calls, n)
    && (Seeded(T) ==> Seeded(T') && answers == Answers(T, calls, n))
  }

  lemma OutcomeStep(T: Tables, calls: seq<Call>, i: nat, T': Tables, answers: seq<bool>, answer: seq<bool>)
    requires i < |calls| && RunOutcome(T, calls, i, T', answers)
    requires Seeded(T') ==> answer == Reported(T', calls[i])
    ensures RunOutcome(T, calls, i + 1, Next(T', calls[i]), answers + answer)
  {
    if Seeded(T') && calls[i].Do? {
      ChangesKeepCatalog(T', calls[i].change, T'.catalog);
    }
  }

  /** From seeded tables, over every run of checks and changes at any times, the cache is not observable. */
  method Serve(s: Service, calls: seq<Call>, clock: nat -> int) returns (answers: seq<bool>)
    requires s.Valid()
    modifies s, s.cache
    ensures s.Valid() && RunOutcome(old(s.db), calls, |calls|, s.db, answers)
  {
    answers := [];
    for i := 0 to |calls|
      invariant s.Valid() && RunOutcome(old(s.db), calls, i, s.db, answers)
    {
      ghost var T := s.db;
      var answer := Handle(s, calls[i], clock(i));
      OutcomeStep(old(s.db), calls, i, T, answers, answer);
      answers := answers + answer;
    }
  }

  /** An empty database with some repositories, seeded and then served: no condition is left. */
  method SeedAndServe(repos: map<int, Option<int>>, roles: seq<(int, seq<Permission>)>, calls: seq<Call>,
                      clock: nat -> int) returns (S: Tables, answers: seq<bool>)
    ensures S.catalog == Elements(BUILTIN) && S.teams == map[] && S.repos == repos
    ensures answers == Answers(S, calls, |calls|)
  {
    var empty := Tables(map[], 1, map[], 1, {}, {}, map[], [], map[], map[], repos);
    S := Seed(empty, roles);
    var s := new Service(S);
    answers := Serve(s, calls, clock);
  }

  // ---------------------------------------------------------------------
  // Catalogs with colons
  // ---------------------------------------------------------------------

  /** Tables with a catalog on which the user may do one thing, through one team. */
  function SingleGrant(catalog: set<Permission>, u: int, p: Permission): Tables {
    Tables(map[1 := Team(1, 0, Some(1))], 2, map[1 := Role(Some(1), false)], 2, catalog, {(1, p)},
           map[], [(1, u)], map[], map[], map[])
  }

  lemma SingleGrantDecides(catalog: set<Permission>, u: int, granted: Permission, asked: Requirement)
    ensures Uncached(SingleGrant(catalog, u, granted), u, asked) == Ok(Wanted(asked) == granted)
    ensures Numbered(SingleGrant(catalog, u, granted))
    ensures granted in catalog ==> Catalogued(SingleGrant(catalog, u, granted), catalog)
  {
    var T := SingleGrant(catalog, u, granted);
    assert Walk(T.teams, 1, {}) == Path([1], Root) by {
      assert Walk(T.teams, 0, {} + {1}) == Path([], Root);
    }
    assert StepsUp(T.teams, 1, 1, 0);
    assert (1, u) in T.teamMembers && Ancestor(T.teams, 1, 1);
    assert ThroughTeam(T, u, 1) && HoldsRole(T, u, asked.repo, 1);
    assert !Dangling(T, u);
  }

  /** Another check under the key of a permission with a colon. */
  lemma ConfusedWith(u: int, p: Permission) returns (q: Requirement, r: Requirement)
    requires !Plain(p)
    ensures Wanted(r) == p && Wanted(q) != p && CacheKey(u, q) == CacheKey(u, r)
  {
    r := Requirement(p.resource, p.action, 0, 0);
    ConfusableExactly(u, r);
    q :| Confused(u, q, r);
  }

  /** With one key for both, the second question gets the answer of the first. */
  method AskTwice(T: Tables, u: int, q: Requirement, r: Requirement, now: int) returns (answers: seq<bool>)
    requires Numbered(T) && CacheKey(u, q) == CacheKey(u, r) && Uncached(T, u, q).Ok?
    ensures answers == [Uncached(T, u, q).value, Uncached(T, u, q).value]
  {
    var s := new Service(T);
    assert CacheKey(u, q) !in s.cache.entries;
    var first := s.Check(u, false, q, now);
    var second := s.Check(u, false, r, now);
    answers := [first, second];
  }

  lemma TwoAnswers(T: Tables, u: int, q: Requirement, r: Requirement)
    ensures Answers(T, [Ask(u, false, q), Ask(u, false, r)], 2) ==
            [Uncached(T, u, q) == Ok(true), Uncached(T, u, r) == Ok(true)]
  {
    var calls := [Ask(u, false, q), Ask(u, false, r)];
    assert Answers(T, calls, 0) == [] && TablesAfter(T, calls, 0) == TablesAfter(T, calls, 1) == T;
    assert Answers(T, calls, 1) == [Uncached(T, u, q) == Ok(true)];
  }

  /**
   The catalog must hold no colon: for every permission in it that does, two checks on tables linked
   inside the catalog are answered alike although the tables grant the second one only.
   */
  method CollisionMisleads(catalog: set<Permission>, p: Permission, u: int, q: Requirement, r: Requirement, now: int)
    returns (answers: seq<bool>)
    requires p in catalog && Wanted(r) == p && Wanted(q) != p && CacheKey(u, q) == CacheKey(u, r)
    ensures Catalogued(SingleGrant(catalog, u, p), catalog) && answers == [false, false]
    ensures Answers(SingleGrant(catalog, u, p), [Ask(u, false, q), Ask(u, false, r)], 2) == [false, true]
  {
    var T := SingleGrant(catalog, u, p);
    SingleGrantDecides(catalog, u, p, q);
    SingleGrantDecides(catalog, u, p, r);
    TwoAnswers(T, u, q, r);
    answers := AskTwice(T, u, q, r, now);
  }
}
