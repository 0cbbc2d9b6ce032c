/** Permission evaluation over the rbac tables. */
module Evaluation {
  import opened Common
  import opened Sequences
  import opened Permissions
  import opened Teams

  /** A role; builtin roles belong to no organization. */
  datatype Role = Role(org: Option<int>, builtin: bool)

  /** The tables that decide permissions; pairs are the unique keys of the rows. */
  datatype Tables = Tables(
    teams: Table,
    nextTeam: int,
    roles: map<int, Role>,
    nextRole: int,
    catalog: set<Permission>,
    rolePerms: set<(int, Permission)>,
    orgMembers: map<(int, int), Option<int>>,   // (organization, user) -> role
    teamMembers: seq<(int, int)>,               // rows (team, user), duplicates allowed
    teamRepos: map<(int, int), Option<int>>,    // (team, repository) -> role
    collaborators: map<(int, int), string>,     // (repository, user) -> level
    repos: map<int, Option<int>>                // repository -> organization
  )

  // ---------------------------------------------------------------------
  // The closure the evaluation stands for
  // ---------------------------------------------------------------------

  ghost predicate ThroughTeam(T: Tables, u: int, r: int) {
    exists t, a :: (t, u) in T.teamMembers && Ancestor(T.teams, t, a) && a in T.teams && T.teams[a].role == Some(r)
  }

  ghost predicate ThroughTeamRepo(T: Tables, u: int, repo: int, r: int) {
    exists t :: (t, u) in T.teamMembers && (t, repo) in T.teamRepos && T.teamRepos[(t, repo)] == Some(r)
  }

  ghost predicate ThroughOrg(T: Tables, u: int, r: int) {
    exists o :: (o, u) in T.orgMembers && T.orgMembers[(o, u)] == Some(r)
  }

  /**
   Roles of all ancestors of the user's teams; for a repository also the grants of the teams the
   user is in directly, otherwise the organization memberships.
   */
  ghost predicate HoldsRole(T: Tables, u: int, repo: int, r: int) {
    || ThroughTeam(T, u, r)
    || (if repo > 0 then ThroughTeamRepo(T, u, repo, r) else ThroughOrg(T, u, r))
  }

  /** A permission comes from a role or, for a repository, from the collaborator ladder. */
  ghost predicate Grants(T: Tables, u: int, repo: int, p: Permission) {
    || (exists r :: HoldsRole(T, u, repo, r) && (r, p) in T.rolePerms)
    || (repo > 0 && (repo, u) in T.collaborators && p in Ladder(T.collaborators[(repo, u)]))
  }

  /** One of the user's teams, or a parent on the way up, does not exist. */
  ghost predicate Dangling(T: Tables, u: int) {
    exists t :: (t, u) in T.teamMembers && (t !in T.teams || Walk(T.teams, t, {}).end.Missing?)
  }

  ghost function Decision(T: Tables, u: int, repo: int, p: Permission): Result<bool, Error> {
    if Dangling(T, u) then Err(NotFound) else Ok(Grants(T, u, repo, p))
  }

  // ---------------------------------------------------------------------
  // The evaluation of the source
  // ---------------------------------------------------------------------

  function UserTeams(rows: seq<(int, int)>, u: int): (ts: seq<int>)
    ensures forall t :: t in ts <==> (t, u) in rows
  {
    if rows == [] then []
    else
      var rest := UserTeams(rows[1..], u);
      assert forall x :: x in rows <==> x == rows[0] || x in rows[1..];
      if rows[0].1 == u then [rows[0].0] + rest else rest
  }

  function RolesOn(ts: Table, path: seq<int>): set<int> {
    set a | a in path && a in ts && ts[a].role.Some? :: ts[a].role.value
  }

  /** Adds the roles of a team and of everything above it that was not visited yet. */
  method CollectTeamAncestors(ts: Table, team: int, roleIDs: set<int>, visited: set<int>)
    returns (ok: bool, roles: set<int>)
    requires 0 !in ts
    ensures ok <==> team in visited || (team in ts && !Walk(ts, team, visited).end.Missing?)
    ensures ok ==> roles == roleIDs + RolesOn(ts, if team in visited then [] else Walk(ts, team, visited).teams)
    decreases ts.Keys - visited
  {
    roles := roleIDs;
    if team in visited {
      return true, roles;
    }
    if team !in ts {
      return false, roles;
    }
    if ts[team].role.Some? {
      roles := roles + {ts[team].role.value};
    }
    ghost var above := Walk(ts, ts[team].parent, visited + {team});
    assert RolesOn(ts, [team] + above.teams) ==
           RolesOn(ts, above.teams) + if ts[team].role.Some? then {ts[team].role.value} else {};
    if ts[team].parent != 0 {
      ok, roles := CollectTeamAncestors(ts, ts[team].parent, roles, visited + {team});
    } else {
      ok := true;
    }
  }

  /** The roles one team of a user contributes. */
  function TeamRoles(T: Tables, t: int, repo: int): set<int> {
    RolesOn(T.teams, Walk(T.teams, t, {}).teams) +
    if repo > 0 && (t, repo) in T.teamRepos && T.teamRepos[(t, repo)].Some? then {T.teamRepos[(t, repo)].value} else {}
  }

  /** The walk over the user's teams; fails as soon as one is dangling. */
  method CollectRoles(T: Tables, u: int, repo: int) returns (r: Result<set<int>, Error>)
    requires 0 !in T.teams
    ensures r.Err? <==> Dangling(T, u)
    ensures r.Err? ==> r.error == NotFound
    ensures r.Ok? ==> forall x :: x in r.value <==> exists t :: (t, u) in T.teamMembers && x in TeamRoles(T, t, repo)
  {
    var seed := UserTeams(T.teamMembers, u);
    var roleIDs: set<int> := {};
    for i := 0 to |seed|
      invariant forall j :: 0 <= j < i ==> seed[j] in T.teams && !Walk(T.teams, seed[j], {}).end.Missing?
      invariant forall x :: x in roleIDs <==> exists j :: 0 <= j < i && x in TeamRoles(T, seed[j], repo)
    {
      var ok;
      ghost var before := roleIDs;
      ok, roleIDs := CollectTeamAncestors(T.teams, seed[i], roleIDs, {});
      if !ok {
        assert (seed[i], u) in T.teamMembers;
        return Err(NotFound);
      }
      if repo > 0 && (seed[i], repo) in T.teamRepos && T.teamRepos[(seed[i], repo)].Some? {
        roleIDs := roleIDs + {T.teamRepos[(seed[i], repo)].value};
      }
      assert roleIDs == before + TeamRoles(T, seed[i], repo);
    }
    forall t | (t, u) in T.teamMembers ensures t in T.teams && !Walk(T.teams, t, {}).end.Missing? {
      assert t in seed;
    }
    forall x | exists t :: (t, u) in T.teamMembers && x in TeamRoles(T, t, repo) ensures x in roleIDs {
      var t :| (t, u) in T.teamMembers && x in TeamRoles(T, t, repo);
      var j :| 0 <= j < |seed| && seed[j] == t;
    }
    forall x | x in roleIDs ensures exists t :: (t, u) in T.teamMembers && x in TeamRoles(T, t, repo) {
      var j :| 0 <= j < |seed| && x in TeamRoles(T, seed[j], repo);
      assert (seed[j], u) in T.teamMembers;
    }
    r := Ok(roleIDs);
  }

  /** Walking the user's teams finds exactly the roles held through teams. */
  lemma TeamRolesAreThrough(T: Tables, u: int, repo: int, x: int)
    requires 0 !in T.teams
    ensures (exists t :: (t, u) in T.teamMembers && x in TeamRoles(T, t, repo)) <==>
            ThroughTeam(T, u, x) || (repo > 0 && ThroughTeamRepo(T, u, repo, x))
  {
    if t :| (t, u) in T.teamMembers && x in TeamRoles(T, t, repo) {
      if x in RolesOn(T.teams, Walk(T.teams, t, {}).teams) {
        var a :| a in Walk(T.teams, t, {}).teams && a in T.teams && T.teams[a].role == Some(x);
        WalkMeetsAncestors(T.teams, t, a);
      }
    }
    if ThroughTeam(T, u, x) {
      var t, a :| (t, u) in T.teamMembers && Ancestor(T.teams, t, a) && a in T.teams && T.teams[a].role == Some(x);
      WalkMeetsAncestors(T.teams, t, a);
      assert x in RolesOn(T.teams, Walk(T.teams, t, {}).teams);
      assert x in TeamRoles(T, t, repo);
    }
    if repo > 0 && ThroughTeamRepo(T, u, repo, x) {
      var t :| (t, u) in T.teamMembers && (t, repo) in T.teamRepos && T.teamRepos[(t, repo)] == Some(x);
      assert x in TeamRoles(T, t, repo);
    }
  }

  function OrgRoles(T: Tables, u: int): set<int> {
    set k | k in T.orgMembers.Keys && k.1 == u && T.orgMembers[k].Some? :: T.orgMembers[k].value
  }

  lemma OrgRolesAreThrough(T: Tables, u: int, x: int)
    ensures x in OrgRoles(T, u) <==> ThroughOrg(T, u, x)
  {
    if ThroughOrg(T, u, x) {
      var o :| (o, u) in T.orgMembers && T.orgMembers[(o, u)] == Some(x);
      assert (o, u) in T.orgMembers.Keys && (o, u).1 == u;
    }
    if x in OrgRoles(T, u) {
      var k :| k in T.orgMembers.Keys && k.1 == u && T.orgMembers[k].Some? && T.orgMembers[k].value == x;
      var o := k.0;
      assert k == (o, u) && (o, u) in T.orgMembers && T.orgMembers[(o, u)] == Some(x);
    }
  }

  function RolePermissions(T: Tables, role: int): set<Permission> {
    set rp | rp in T.rolePerms && rp.0 == role :: rp.1
  }

  lemma RolePermissionsAre(T: Tables, role: int, p: Permission)
    ensures p in RolePermissions(T, role) <==> (role, p) in T.rolePerms
  {
    if (role, p) in T.rolePerms {
      assert (role, p).0 == role;
    }
  }

  /** The loop over the collected roles. */
  method AddRolePermissions(T: Tables, start: set<Permission>, roleIDs: set<int>) returns (out: set<Permission>)
    ensures forall p :: p in out <==> p in start || exists r :: r in roleIDs && (r, p) in T.rolePerms
  {
    out := start;
    var todo := roleIDs;
    while todo != {}
      invariant todo <= roleIDs
      invariant forall p :: p in out <==> p in start || exists r :: r in roleIDs && r !in todo && (r, p) in T.rolePerms
      decreases |todo|
    {
      var rid := AnyOf(todo);
      forall p ensures p in RolePermissions(T, rid) <==> (rid, p) in T.rolePerms {
        RolePermissionsAre(T, rid, p);
      }
      out := out + RolePermissions(T, rid);
      todo := todo - {rid};
    }
  }

  /** The evaluation computes the closure, or fails exactly on dangling teams. */
  method EffectivePermissions(T: Tables, u: int, repo: int) returns (r: Result<set<Permission>, Error>)
    requires 0 !in T.teams
    ensures r.Err? <==> Dangling(T, u)
    ensures r.Err? ==> r.error == NotFound
    ensures r.Ok? ==> forall p :: p in r.value <==> Grants(T, u, repo, p)
  {
    var collected := CollectRoles(T, u, repo);
    if collected.Err? {
      return Err(collected.error);
    }
    var roleIDs := collected.value;
    var direct: set<Permission> := {};
    if repo > 0 {
      if (repo, u) in T.collaborators {
        var list := LadderPermissions(T.collaborators[(repo, u)]);
        direct := Elements(list);
      }
    } else {
      roleIDs := roleIDs + OrgRoles(T, u);
    }
    forall x ensures x in roleIDs <==> HoldsRole(T, u, repo, x) {
      TeamRolesAreThrough(T, u, repo, x);
      OrgRolesAreThrough(T, u, x);
    }
    var out := AddRolePermissions(T, direct, roleIDs);
    r := Ok(out);
  }

  method Evaluate(T: Tables, u: int, repo: int, p: Permission) returns (r: Result<bool, Error>)
    requires 0 !in T.teams
    ensures r == Decision(T, u, repo, p)
  {
    var perms := EffectivePermissions(T, u, repo);
    r := if perms.Err? then Err(perms.error) else Ok(p in perms.value);
  }

  // ---------------------------------------------------------------------
  // What changes a decision and what does not
  // ---------------------------------------------------------------------

  /** Two states of the tables that look the same to one user's evaluation. */
  ghost predicate SameFor(T: Tables, S: Tables, u: int) {
    && T.teams == S.teams && T.rolePerms == S.rolePerms && T.teamRepos == S.teamRepos
    && (forall t: int :: (t, u) in T.teamMembers <==> (t, u) in S.teamMembers)
    && (forall o: int :: (o, u) in T.orgMembers <==> (o, u) in S.orgMembers)
    && (forall o: int :: (o, u) in T.orgMembers ==> T.orgMembers[(o, u)] == S.orgMembers[(o, u)])
    && (forall r: int :: (r, u) in T.collaborators <==> (r, u) in S.collaborators)
    && (forall r: int :: (r, u) in T.collaborators ==> T.collaborators[(r, u)] == S.collaborators[(r, u)])
  }

  lemma SameForRoles(T: Tables, S: Tables, u: int, repo: int, r: int)
    requires SameFor(T, S, u)
    ensures HoldsRole(T, u, repo, r) ==> HoldsRole(S, u, repo, r)
  {
  }

  lemma SameForSymmetric(T: Tables, S: Tables, u: int)
    requires SameFor(T, S, u)
    ensures SameFor(S, T, u)
  {
  }

  /** A change to other users' rows changes no decision of this user. */
  lemma SameDecision(T: Tables, S: Tables, u: int, repo: int, p: Permission)
    requires SameFor(T, S, u)
    ensures Decision(T, u, repo, p) == Decision(S, u, repo, p)
  {
    SameForSymmetric(T, S, u);
    forall r ensures HoldsRole(T, u, repo, r) <==> HoldsRole(S, u, repo, r) {
      SameForRoles(T, S, u, repo, r);
      SameForRoles(S, T, u, repo, r);
    }
  }

  // ---------------------------------------------------------------------
  // The permission catalog
  // ---------------------------------------------------------------------

  /** Roles are linked to permissions of the catalog only. */
  ghost predicate LinksWithin(links: set<(int, Permission)>, catalog: set<Permission>) {
    forall r, p :: (r, p) in links ==> p in catalog
  }

  /** Tables with a given catalog. */
  ghost predicate Catalogued(T: Tables, catalog: set<Permission>) {
    T.catalog == catalog && LinksWithin(T.rolePerms, catalog)
  }

  /** Tables as the service leaves them: links inside a catalog without colons. */
  ghost predicate Seeded(T: Tables) {
    LinksWithin(T.rolePerms, T.catalog) && ColonFree(T.catalog)
  }

  /** On such tables nobody has a permission with a colon. */
  lemma ColonsDenied(T: Tables, u: int, repo: int, p: Permission)
    requires Seeded(T) && !Plain(p)
    ensures !Grants(T, u, repo, p)
  {
    if repo > 0 && (repo, u) in T.collaborators && p in Ladder(T.collaborators[(repo, u)]) {
      LevelIsPlain(T.collaborators[(repo, u)], p);
    }
  }

  // ---------------------------------------------------------------------
  // Joining and promotion
  // ---------------------------------------------------------------------

  function Joined(T: Tables, team: int, u: int): Tables {
    T.(teamMembers := T.teamMembers + [(team, u)])
  }

  lemma JoinedKeepsRoles(T: Tables, team: int, u: int, repo: int, r: int)
    requires HoldsRole(T, u, repo, r)
    ensures HoldsRole(Joined(T, team, u), u, repo, r)
  {
    var S := Joined(T, team, u);
    if ThroughTeam(T, u, r) {
      var t, a :| (t, u) in T.teamMembers && Ancestor(T.teams, t, a) && a in T.teams && T.teams[a].role == Some(r);
      assert (t, u) in S.teamMembers;
    } else if repo > 0 {
      var t :| (t, u) in T.teamMembers && (t, repo) in T.teamRepos && T.teamRepos[(t, repo)] == Some(r);
      assert (t, u) in S.teamMembers;
    } else {
      assert ThroughOrg(S, u, r);
    }
  }

  /** A team that can be walked up to the end. */
  ghost predicate Reachable(ts: Table, team: int) {
    team in ts && !Walk(ts, team, {}).end.Missing?
  }

  lemma JoinedDangles(T: Tables, team: int, u: int)
    ensures Dangling(Joined(T, team, u), u) <==> Dangling(T, u) || !Reachable(T.teams, team)
  {
    var S := Joined(T, team, u);
    assert (team, u) in S.teamMembers;
    assert forall t :: (t, u) in T.teamMembers ==> (t, u) in S.teamMembers;
  }

  /**
   Joining a team takes no permission away exactly when the team exists and no parent above it is
   missing; nothing checks that, and joining any other team makes every decision fail.
   */
  lemma JoiningKeepsExactly(T: Tables, team: int, u: int, repo: int, p: Permission)
    requires Decision(T, u, repo, p) == Ok(true)
    ensures Decision(Joined(T, team, u), u, repo, p) == Ok(true) <==> Reachable(T.teams, team)
    ensures !Reachable(T.teams, team) ==>
              forall repo', p' :: Decision(Joined(T, team, u), u, repo', p') == Err(NotFound)
  {
    JoinedDangles(T, team, u);
    forall r | HoldsRole(T, u, repo, r) ensures HoldsRole(Joined(T, team, u), u, repo, r) {
      JoinedKeepsRoles(T, team, u, repo, r);
    }
  }

  /** Where the teams form a forest, an existing team can be joined without loss. */
  lemma JoiningInForest(T: Tables, team: int, u: int, repo: int, p: Permission)
    requires Forest(T.teams) && Decision(T, u, repo, p) == Ok(true)
    ensures Decision(Joined(T, team, u), u, repo, p) == Ok(true) <==> team in T.teams
  {
    JoiningKeepsExactly(T, team, u, repo, p);
    if team in T.teams {
      ForestWalk(T.teams, team);
    }
  }

  function WithLevel(T: Tables, u: int, repo: int, level: string): Tables {
    T.(collaborators := T.collaborators[(repo, u) := level])
  }

  /** A collaborator row changes no role, and puts the ladder of the new level in place of the old one. */
  lemma LevelDecides(T: Tables, u: int, repo: int, level: string, v: int, repo': int, p: Permission)
    ensures var S := WithLevel(T, u, repo, level);
            && (Dangling(S, v) <==> Dangling(T, v))
            && (forall r :: HoldsRole(S, v, repo', r) <==> HoldsRole(T, v, repo', r))
            && (Grants(S, v, repo', p) <==>
                if v == u && repo' == repo
                then (exists r :: HoldsRole(T, u, repo, r) && (r, p) in T.rolePerms) || (repo > 0 && p in Ladder(level))
                else Grants(T, v, repo', p))
  {
    var S := WithLevel(T, u, repo, level);
    forall r ensures HoldsRole(S, v, repo', r) <==> HoldsRole(T, v, repo', r) {
      assert ThroughTeam(T, v, r) <==> ThroughTeam(S, v, r);
      assert ThroughTeamRepo(T, v, repo', r) <==> ThroughTeamRepo(S, v, repo', r);
      assert ThroughOrg(T, v, r) <==> ThroughOrg(S, v, r);
    }
  }

  /** Moving a collaborator up the ladder never takes a permission away. */
  lemma PromotionOnlyAdds(T: Tables, u: int, repo: int, level: string, p: Permission)
    requires Decision(T, u, repo, p) == Ok(true)
    requires (repo, u) in T.collaborators ==> RankOf(T.collaborators[(repo, u)]) <= RankOf(level)
    ensures Decision(WithLevel(T, u, repo, level), u, repo, p) == Ok(true)
  {
    LevelDecides(T, u, repo, level, u, repo, p);
    if (repo, u) in T.collaborators {
      LadderMonotone(T.collaborators[(repo, u)], level);
    }
  }

  // ---------------------------------------------------------------------
  // Organization checks
  // ---------------------------------------------------------------------

  /** The role is held inside one organization: by membership, or through a team of it. */
  ghost predicate HoldsRoleIn(T: Tables, u: int, org: int, r: int) {
    || ((org, u) in T.orgMembers && T.orgMembers[(org, u)] == Some(r))
    || exists t, a :: (t, u) in T.teamMembers && Ancestor(T.teams, t, a) && a in T.teams &&
                      T.teams[a].org == org && T.teams[a].role == Some(r)
  }

  ghost predicate GrantsIn(T: Tables, u: int, org: int, p: Permission) {
    exists r :: HoldsRoleIn(T, u, org, r) && (r, p) in T.rolePerms
  }

  lemma HeldInIsHeld(T: Tables, u: int, org: int, r: int)
    requires HoldsRoleIn(T, u, org, r)
    ensures HoldsRole(T, u, 0, r)
  {
    if (org, u) in T.orgMembers && T.orgMembers[(org, u)] == Some(r) {
      assert ThroughOrg(T, u, r);
    } else {
      assert ThroughTeam(T, u, r);
    }
  }

  ghost predicate OrgDecidesAlike(T: Tables, u: int, org: int, links: set<(int, Permission)>, p: Permission) {
    Grants(T.(rolePerms := links), u, 0, p) <==> GrantsIn(T.(rolePerms := links), u, org, p)
  }

  /**
   The evaluation does not look at the organization of a requirement. A check for one organization
   means what it says, whatever permissions of the catalog the roles carry, exactly when the user
   holds no role elsewhere that is not held there too.
   */
  lemma OrgCheckExact(T: Tables, u: int, org: int)
    requires T.catalog != {}
    ensures (forall links, p :: LinksWithin(links, T.catalog) ==> OrgDecidesAlike(T, u, org, links, p)) <==>
            (forall r :: HoldsRole(T, u, 0, r) ==> HoldsRoleIn(T, u, org, r))
  {
    if forall links, p :: LinksWithin(links, T.catalog) ==> OrgDecidesAlike(T, u, org, links, p) {
      forall r | HoldsRole(T, u, 0, r) ensures HoldsRoleIn(T, u, org, r) {
        var p :| p in T.catalog;
        assert LinksWithin({(r, p)}, T.catalog) && OrgDecidesAlike(T, u, org, {(r, p)}, p);
        RolesIgnoreLinks(T, u, org, {(r, p)});
      }
    }
    if forall r :: HoldsRole(T, u, 0, r) ==> HoldsRoleIn(T, u, org, r) {
      forall links, p | LinksWithin(links, T.catalog) ensures OrgDecidesAlike(T, u, org, links, p) {
        RolesIgnoreLinks(T, u, org, links);
        forall r | HoldsRoleIn(T, u, org, r) ensures HoldsRole(T, u, 0, r) {
          HeldInIsHeld(T, u, org, r);
        }
      }
    }
  }

  lemma RolesIgnoreLinks(T: Tables, u: int, org: int, links: set<(int, Permission)>)
    ensures forall r :: HoldsRole(T, u, 0, r) <==> HoldsRole(T.(rolePerms := links), u, 0, r)
    ensures forall r :: HoldsRoleIn(T, u, org, r) <==> HoldsRoleIn(T.(rolePerms := links), u, org, r)
  {
    var S := T.(rolePerms := links);
    forall r ensures HoldsRole(T, u, 0, r) <==> HoldsRole(S, u, 0, r) {
      assert ThroughTeam(T, u, r) <==> ThroughTeam(S, u, r);
      assert ThroughOrg(T, u, r) <==> ThroughOrg(S, u, r);
    }
  }
}
