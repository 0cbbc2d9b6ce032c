/** The changes the rbac service makes to its tables. */
module RbacChanges {
  import opened Common
  import opened Sequences
  import opened Permissions
  import opened Teams
  import opened Evaluation
  import opened CacheKeys

  datatype Change =
    | CreateTeam(org: int, parent: Option<int>, role: Option<int>)
    | ReparentTeam(team: int, newParent: Option<int>)
    | CreateRole(org: int, perms: seq<Permission>)
    | SetRolePermissions(role_: int, perms: seq<Permission>)
    | DeleteRole(role_: int)
    | AddOrgMember(org: int, user: int, role: Option<int>)
    | RemoveOrgMember(org: int, user: int)
    | AddTeamMember(team: int, user: int)
    | RemoveTeamMember(team: int, user: int)
    | GrantTeamRepo(team: int, repo: int, role: Option<int>)
    | SetCollaborator(actor: int, repo: int, user: int, role: Option<int>, level: string)
    | RemoveCollaborator(repo: int, user: int)

  datatype Refusal =
    | TeamRefusal(error: Error)
    | RoleUnknown
    | RoleBuiltin
    | DuplicatePermission
    | RepoUnknown
    | RoleScope
    | Escalation

  /** The tables afterwards and the id a creation returns (0 for other changes). */
  datatype Effect = Effect(tables: Tables, id: int)

  /** Links a role to the known ones among some permissions; a link that exists already is an error. */
  function LinkPermissions(links: set<(int, Permission)>, catalog: set<Permission>, role: int, perms: seq<Permission>)
    : Option<set<(int, Permission)>>
    decreases |perms|
  {
    if perms == [] then Some(links)
    else if perms[0] !in catalog then LinkPermissions(links, catalog, role, perms[1..])
    else if (role, perms[0]) in links then None
    else LinkPermissions(links + {(role, perms[0])}, catalog, role, perms[1..])
  }

  function Unlink(links: set<(int, Permission)>, role: int): set<(int, Permission)> {
    set rp | rp in links && rp.0 != role
  }

  /** Permissions an actor has through its role in an organization. */
  function ActorPermissions(T: Tables, actor: int, org: int): set<Permission> {
    if (org, actor) in T.orgMembers && T.orgMembers[(org, actor)].Some?
    then RolePermissions(T, T.orgMembers[(org, actor)].value) else {}
  }

  function Text(p: Permission): string { p.resource + ":" + p.action }

  /** Whether an actor may hand out a role on a repository. */
  function RoleRefusal(T: Tables, actor: int, repo: int, role: int): Option<Refusal> {
    if role !in T.roles then Some(RoleUnknown)
    else if repo !in T.repos then Some(RepoUnknown)
    else if T.roles[role].org.None? || T.repos[repo].None? || T.roles[role].org != T.repos[repo] then Some(RoleScope)
    else
      var held := set p | p in ActorPermissions(T, actor, T.repos[repo].value) :: Text(p);
      if forall p :: p in RolePermissions(T, role) ==> Text(p) in held then None else Some(Escalation)
  }

  function WithoutMember(rows: seq<(int, int)>, row: (int, int)): (r: seq<(int, int)>)
    ensures forall x :: x in r <==> x in rows && x != row
  {
    if rows == [] then []
    else
      var rest := WithoutMember(rows[1..], row);
      assert forall x :: x in rows <==> x == rows[0] || x in rows[1..];
      if rows[0] == row then rest else [rows[0]] + rest
  }

  /** Level and membership default to the lowest, as in the source. */
  function LevelOr(level: string): string {
    if level == "" then "read" else level
  }

  // One function per change -----------------------------------------------

  function TeamCreation(T: Tables, org: int, parent: Option<int>, role: Option<int>): Result<Effect, Refusal> {
    match Create(T.teams, T.nextTeam, org, parent, role)
    case Ok(ts) => Ok(Effect(T.(teams := ts, nextTeam := T.nextTeam + 1), T.nextTeam))
    case Err(e) => Err(TeamRefusal(e))
  }

  function TeamMove(T: Tables, team: int, newParent: Option<int>): Result<Effect, Refusal> {
    match Reparent(T.teams, team, newParent)
    case Ok(ts) => Ok(Effect(T.(teams := ts), 0))
    case Err(e) => Err(TeamRefusal(e))
  }

  function WithRole(T: Tables, org: int, links: set<(int, Permission)>): Tables {
    T.(roles := T.roles[T.nextRole := Role(Some(org), false)], rolePerms := links, nextRole := T.nextRole + 1)
  }

  function RoleCreation(T: Tables, org: int, perms: seq<Permission>): Result<Effect, Refusal> {
    match LinkPermissions(T.rolePerms, T.catalog, T.nextRole, perms)
    case Some(links) => Ok(Effect(WithRole(T, org, links), T.nextRole))
    case None => Err(DuplicatePermission)
  }

  function RoleUpdate(T: Tables, role: int, perms: seq<Permission>): Result<Effect, Refusal> {
    if role !in T.roles then Err(RoleUnknown)
    else if T.roles[role].builtin then Err(RoleBuiltin)
    else match LinkPermissions(Unlink(T.rolePerms, role), T.catalog, role, perms)
         case Some(links) => Ok(Effect(T.(rolePerms := links), 0))
         case None => Err(DuplicatePermission)
  }

  function RoleDeletion(T: Tables, role: int): Result<Effect, Refusal> {
    if role !in T.roles then Err(RoleUnknown)
    else if T.roles[role].builtin then Err(RoleBuiltin)
    else Ok(Effect(T.(rolePerms := Unlink(T.rolePerms, role), roles := T.roles - {role}), 0))
  }

  function OrgRows(T: Tables, rows: map<(int, int), Option<int>>): Result<Effect, Refusal> {
    Ok(Effect(T.(orgMembers := rows), 0))
  }

  function TeamRows(T: Tables, rows: seq<(int, int)>): Result<Effect, Refusal> {
    Ok(Effect(T.(teamMembers := rows), 0))
  }

  function TeamRepoGrant(T: Tables, team: int, repo: int, role: Option<int>): Result<Effect, Refusal> {
    Ok(Effect(T.(teamRepos := T.teamRepos[(team, repo) := role]), 0))
  }

  function CollaboratorRows(T: Tables, rows: map<(int, int), string>): Result<Effect, Refusal> {
    Ok(Effect(T.(collaborators := rows), 0))
  }

  function CollaboratorSetting(T: Tables, actor: int, repo: int, user: int, role: Option<int>, level: string)
    : Result<Effect, Refusal>
  {
    if role.Some? && RoleRefusal(T, actor, repo, role.value).Some?
    then Err(RoleRefusal(T, actor, repo, role.value).value)
    else CollaboratorRows(T, T.collaborators[(repo, user) := LevelOr(level)])
  }

  function Apply(T: Tables, c: Change): Result<Effect, Refusal> {
    match c
    case CreateTeam(org, parent, role) => TeamCreation(T, org, parent, role)
    case ReparentTeam(team, newParent) => TeamMove(T, team, newParent)
    case CreateRole(org, perms) => RoleCreation(T, org, perms)
    case SetRolePermissions(role, perms) => RoleUpdate(T, role, perms)
    case DeleteRole(role) => RoleDeletion(T, role)
    case AddOrgMember(org, user, role) => OrgRows(T, T.orgMembers[(org, user) := role])
    case RemoveOrgMember(org, user) => OrgRows(T, T.orgMembers - {(org, user)})
    case AddTeamMember(team, user) => TeamRows(T, T.teamMembers + [(team, user)])
    case RemoveTeamMember(team, user) => TeamRows(T, WithoutMember(T.teamMembers, (team, user)))
    case GrantTeamRepo(team, repo, role) => TeamRepoGrant(T, team, repo, role)
    case SetCollaborator(actor, repo, user, role, level) => CollaboratorSetting(T, actor, repo, user, role, level)
    case RemoveCollaborator(repo, user) => CollaboratorRows(T, T.collaborators - {(repo, user)})
  }

  /** The tables afterwards; a refused change leaves them alone. */
  function Settle(T: Tables, r: Result<Effect, Refusal>): Tables {
    match r
    case Ok(e) => e.tables
    case Err(_) => T
  }

  function After(T: Tables, c: Change): Tables { Settle(T, Apply(T, c)) }

  /** Team ids are positive and handed out in order. */
  ghost predicate Numbered(T: Tables) {
    0 < T.nextTeam && forall t :: t in T.teams ==> 0 < t < T.nextTeam
  }

  /** The answer given to the caller: the new id, or why not. */
  function Reply(r: Result<Effect, Refusal>): Result<int, Refusal> {
    match r
    case Ok(e) => Ok(e.id)
    case Err(e) => Err(e)
  }

  // What changes about one user leave alone ------------------------------

  lemma OrgRowsOfOneUser(T: Tables, rows: map<(int, int), Option<int>>, user: int, v: int)
    requires v != user
    requires forall k: (int, int) :: k.1 != user ==>
               (k in rows <==> k in T.orgMembers) && (k in rows ==> rows[k] == T.orgMembers[k])
    ensures SameFor(T, T.(orgMembers := rows), v)
  {
    assert forall o: int :: (o, v).1 != user;
  }

  lemma TeamRowsOfOneUser(T: Tables, rows: seq<(int, int)>, user: int, v: int)
    requires v != user
    requires forall k: (int, int) :: k.1 != user ==> (k in rows <==> k in T.teamMembers)
    ensures SameFor(T, T.(teamMembers := rows), v)
  {
    assert forall t: int :: (t, v).1 != user;
  }

  lemma CollaboratorRowsOfOneUser(T: Tables, rows: map<(int, int), string>, user: int, v: int)
    requires v != user
    requires forall k: (int, int) :: k.1 != user ==>
               (k in rows <==> k in T.collaborators) && (k in rows ==> rows[k] == T.collaborators[k])
    ensures SameFor(T, T.(collaborators := rows), v)
  {
    assert forall r: int :: (r, v).1 != user;
  }

  // ---------------------------------------------------------------------
  // The permission catalog
  // ---------------------------------------------------------------------

  /** Links a builtin role to the known ones among its permissions; links that exist are left alone. */
  function SeedLinks(links: set<(int, Permission)>, catalog: set<Permission>, role: int, perms: seq<Permission>)
    : set<(int, Permission)>
  {
    links + set p | p in perms && p in catalog :: (role, p)
  }

  method SeedRole(links: set<(int, Permission)>, catalog: set<Permission>, role: int, perms: seq<Permission>)
    returns (r: set<(int, Permission)>)
    ensures r == SeedLinks(links, catalog, role, perms)
  {
    r := links;
    for i := 0 to |perms|
      invariant r == SeedLinks(links, catalog, role, perms[..i])
    {
      assert forall p :: p in perms[..i + 1] <==> p in perms[..i] || p == perms[i];
      if perms[i] in catalog && (role, perms[i]) !in r {
        r := r + {(role, perms[i])};
      }
    }
    assert perms[..|perms|] == perms;
  }

  method SeedPermissions(catalog: set<Permission>, perms: seq<Permission>) returns (r: set<Permission>)
    ensures r == catalog + Elements(perms)
  {
    r := catalog;
    for i := 0 to |perms|
      invariant r == catalog + Elements(perms[..i])
    {
      assert Elements(perms[..i + 1]) == Elements(perms[..i]) + {perms[i]};
      r := r + {perms[i]};
    }
    assert perms[..|perms|] == perms;
  }

  /** One of the first n roles has the permission and the catalog knows it. */
  ghost predicate BuiltinLink(roles: seq<(int, seq<Permission>)>, n: nat, catalog: set<Permission>,
                              link: (int, Permission))
    requires n <= |roles|
  {
    exists i :: 0 <= i < n && roles[i].0 == link.0 && link.1 in roles[i].1 && link.1 in catalog
  }

  method SeedRoles(links: set<(int, Permission)>, catalog: set<Permission>, roles: seq<(int, seq<Permission>)>)
    returns (r: set<(int, Permission)>)
    ensures forall x :: x in r <==> x in links || BuiltinLink(roles, |roles|, catalog, x)
  {
    r := links;
    for i := 0 to |roles|
      invariant forall x :: x in r <==> x in links || BuiltinLink(roles, i, catalog, x)
    {
      ghost var before := r;
      r := SeedRole(r, catalog, roles[i].0, roles[i].1);
      forall x ensures x in r <==> x in links || BuiltinLink(roles, i + 1, catalog, x) {
        assert x in before <==> x in links || BuiltinLink(roles, i, catalog, x);
        LinkedByRole(before, catalog, roles[i].0, roles[i].1, x);
      }
    }
  }

  lemma LinkedByRole(links: set<(int, Permission)>, catalog: set<Permission>, role: int, perms: seq<Permission>,
                     x: (int, Permission))
    ensures x in SeedLinks(links, catalog, role, perms) <==>
            x in links || (x.0 == role && x.1 in perms && x.1 in catalog)
  {
    if x.0 == role && x.1 in perms && x.1 in catalog {
      assert x == (role, x.1);
    }
  }

  /** Nothing is left to seed. */
  ghost predicate Complete(T: Tables, roles: seq<(int, seq<Permission>)>) {
    && Elements(BUILTIN) <= T.catalog
    && forall x :: BuiltinLink(roles, |roles|, T.catalog, x) ==> x in T.rolePerms
  }

  /**
   Fills the catalog with the builtin permissions and links the builtin roles, each with its id.
   Seeding again changes nothing.
   */
  method Seed(T: Tables, roles: seq<(int, seq<Permission>)>) returns (S: Tables)
    ensures S == T.(catalog := T.catalog + Elements(BUILTIN), rolePerms := S.rolePerms)
    ensures forall x :: x in S.rolePerms <==> x in T.rolePerms || BuiltinLink(roles, |roles|, S.catalog, x)
    ensures Seeded(T) ==> Seeded(S)
    ensures Complete(S, roles) && (Complete(T, roles) ==> S == T)
  {
    var catalog := SeedPermissions(T.catalog, BUILTIN);
    var links := SeedRoles(T.rolePerms, catalog, roles);
    SeededGrows(T, catalog);
    Unchanged(T.rolePerms, links);
    assert Elements(BUILTIN) <= T.catalog ==> catalog == T.catalog;
    S := T.(catalog := catalog, rolePerms := links);
  }

  lemma Unchanged(before: set<(int, Permission)>, after: set<(int, Permission)>)
    ensures before <= after && (forall x :: x in after ==> x in before) ==> before == after
  {
  }

  lemma SeededGrows(T: Tables, catalog: set<Permission>)
    requires catalog == T.catalog + Elements(BUILTIN)
    ensures Seeded(T) ==> LinksWithin(T.rolePerms, catalog) && ColonFree(catalog)
  {
    BuiltinColonFree();
  }

  lemma LinkingStaysWithin(links: set<(int, Permission)>, catalog: set<Permission>, role: int, perms: seq<Permission>)
    requires LinksWithin(links, catalog) && LinkPermissions(links, catalog, role, perms).Some?
    ensures LinksWithin(LinkPermissions(links, catalog, role, perms).value, catalog)
  {
    LinkedExactly(links, catalog, role, perms);
  }

  lemma RoleCreationCatalogued(T: Tables, org: int, perms: seq<Permission>, catalog: set<Permission>)
    requires Catalogued(T, catalog)
    ensures Catalogued(Settle(T, RoleCreation(T, org, perms)), catalog)
  {
    if LinkPermissions(T.rolePerms, T.catalog, T.nextRole, perms).Some? {
      LinkingStaysWithin(T.rolePerms, T.catalog, T.nextRole, perms);
    }
  }

  lemma RoleUpdateCatalogued(T: Tables, role: int, perms: seq<Permission>, catalog: set<Permission>)
    requires Catalogued(T, catalog)
    ensures Catalogued(Settle(T, RoleUpdate(T, role, perms)), catalog)
  {
    if LinkPermissions(Unlink(T.rolePerms, role), T.catalog, role, perms).Some? {
      LinkingStaysWithin(Unlink(T.rolePerms, role), T.catalog, role, perms);
    }
  }

  /** No change leaves the catalog: what a role is linked to was found there. */
  lemma ChangesKeepCatalog(T: Tables, c: Change, catalog: set<Permission>)
    requires Catalogued(T, catalog)
    ensures Catalogued(After(T, c), catalog)
  {
    match c
    case CreateRole(org, perms) => RoleCreationCatalogued(T, org, perms, catalog);
    case SetRolePermissions(role, perms) => RoleUpdateCatalogued(T, role, perms, catalog);
    case _ =>
  }

  // ---------------------------------------------------------------------
  // What handing out a collaborator row checks, and what it does not
  // ---------------------------------------------------------------------

  /** The role belongs to the organization of the repository. */
  predicate InScope(T: Tables, repo: int, role: int) {
    role in T.roles && repo in T.repos && T.roles[role].org.Some? && T.roles[role].org == T.repos[repo]
  }

  /** Texts are compared, so without colons the permissions are. */
  lemma SameText(p: Permission, q: Permission)
    requires Plain(p) && Plain(q) && Text(p) == Text(q)
    ensures p == q
  {
    FirstColon(p.resource, p.action, q.resource, q.action);
  }

  /** The actor is a member of the organization with a role that has the permission. */
  ghost predicate HoldsIn(T: Tables, actor: int, org: int, p: Permission) {
    exists r :: (org, actor) in T.orgMembers && T.orgMembers[(org, actor)] == Some(r) && (r, p) in T.rolePerms
  }

  lemma ActorHolds(T: Tables, actor: int, org: int, p: Permission)
    ensures p in ActorPermissions(T, actor, org) <==> HoldsIn(T, actor, org, p)
  {
    if (org, actor) in T.orgMembers && T.orgMembers[(org, actor)].Some? {
      RolePermissionsAre(T, T.orgMembers[(org, actor)].value, p);
    }
  }

  /** The role is of the repository's organization and has permissions of the actor there only. */
  ghost predicate RoleCovered(T: Tables, actor: int, repo: int, role: int) {
    InScope(T, repo, role) && forall p :: (role, p) in T.rolePerms ==> HoldsIn(T, actor, T.repos[repo].value, p)
  }

  ghost predicate DistinctTexts(catalog: set<Permission>) {
    forall p, q :: p in catalog && q in catalog && Text(p) == Text(q) ==> p == q
  }

  /** Accepting a role means covering it, where different permissions have different texts. */
  lemma AcceptedIsCovered(T: Tables, actor: int, repo: int, user: int, role: int, level: string)
    requires LinksWithin(T.rolePerms, T.catalog) && DistinctTexts(T.catalog)
    ensures CollaboratorSetting(T, actor, repo, user, Some(role), level).Ok? <==> RoleCovered(T, actor, repo, role)
  {
    if InScope(T, repo, role) {
      var own, held := RolePermissions(T, role), ActorPermissions(T, actor, T.repos[repo].value);
      var texts := set p | p in held :: Text(p);
      forall p | p in own ensures Text(p) in texts <==> p in held {
        if Text(p) in texts {
          var q :| q in held && Text(q) == Text(p);
          RolePermissionsAre(T, role, p);
          ActorHolds(T, actor, T.repos[repo].value, q);
        }
      }
      forall p ensures p in own <==> (role, p) in T.rolePerms {
        RolePermissionsAre(T, role, p);
      }
      forall p ensures p in held <==> HoldsIn(T, actor, T.repos[repo].value, p) {
        ActorHolds(T, actor, T.repos[repo].value, p);
      }
    }
  }

  /** On the tables of the service a role is accepted exactly when it is covered. */
  lemma RoleAcceptedExactly(T: Tables, actor: int, repo: int, user: int, role: int, level: string)
    requires Seeded(T)
    ensures CollaboratorSetting(T, actor, repo, user, Some(role), level).Ok? <==> RoleCovered(T, actor, repo, role)
  {
    forall p, q | p in T.catalog && q in T.catalog && Text(p) == Text(q) ensures p == q {
      SameText(p, q);
    }
    AcceptedIsCovered(T, actor, repo, user, role, level);
  }

  ghost predicate AcceptsCovered(T: Tables, actor: int, repo: int, user: int, role: int, level: string) {
    CollaboratorSetting(T, actor, repo, user, Some(role), level).Ok? <==> RoleCovered(T, actor, repo, role)
  }

  /** An actor with one permission in organization 1, and role 2 of that organization with another one. */
  function OtherRole(catalog: set<Permission>, actor: int, repo: int, held: Permission, given: Permission): Tables {
    Tables(map[], 1, map[1 := Role(Some(1), false), 2 := Role(Some(1), false)], 3, catalog,
           {(1, held), (2, given)}, map[(1, actor) := Some(1)], [], map[], map[], map[repo := Some(1)])
  }

  lemma SameTextIsAccepted(catalog: set<Permission>, held: Permission, given: Permission)
    requires Text(held) == Text(given) && held != given
    ensures !AcceptsCovered(OtherRole(catalog, 0, 1, held, given), 0, 1, 0, 2, "")
  {
    var T := OtherRole(catalog, 0, 1, held, given);
    forall p ensures (p in RolePermissions(T, 1) <==> p == held) && (p in RolePermissions(T, 2) <==> p == given) {
      RolePermissionsAre(T, 1, p);
      RolePermissionsAre(T, 2, p);
    }
    assert InScope(T, 1, 2) && ActorPermissions(T, 0, 1) == RolePermissions(T, 1);
    assert given in RolePermissions(T, 2) && given !in RolePermissions(T, 1);
    ActorHolds(T, 0, 1, given);
    var texts := set p | p in ActorPermissions(T, 0, 1) :: Text(p);
    assert held in ActorPermissions(T, 0, 1) && Text(given) in texts;
  }

  /** Which catalogs make the comparison of texts right on all tables linked inside them. */
  lemma TextsDecideExactly(catalog: set<Permission>)
    ensures (forall T, actor, repo, user, role, level :: Catalogued(T, catalog) ==>
               AcceptsCovered(T, actor, repo, user, role, level)) <==> DistinctTexts(catalog)
  {
    if DistinctTexts(catalog) {
      forall T, actor, repo, user, role, level | Catalogued(T, catalog)
        ensures AcceptsCovered(T, actor, repo, user, role, level)
      {
        AcceptedIsCovered(T, actor, repo, user, role, level);
      }
    } else {
      var p, q :| p in catalog && q in catalog && Text(p) == Text(q) && p != q;
      SameTextIsAccepted(catalog, p, q);
      var T := OtherRole(catalog, 0, 1, p, q);
      assert Catalogued(T, catalog);
    }
  }

  /** Whatever the user can do afterwards, the user or the actor could do before. */
  ghost predicate NoGain(T: Tables, S: Tables, actor: int, repo: int, user: int) {
    forall p :: Grants(S, user, repo, p) ==> Grants(T, user, repo, p) || Grants(T, actor, repo, p)
  }

  /**
   The accepted role has no effect on decisions, and the level that has one is not compared with
   what the actor holds: nobody gains more than the actor has exactly when the ladder of the given
   level has nothing that both lack.
   */
  lemma EscalationExact(T: Tables, actor: int, repo: int, user: int, role: Option<int>, level: string)
    requires repo > 0 && CollaboratorSetting(T, actor, repo, user, role, level).Ok?
    ensures CollaboratorSetting(T, actor, repo, user, role, level) ==
            CollaboratorSetting(T, actor, repo, user, None, level)
    ensures NoGain(T, CollaboratorSetting(T, actor, repo, user, role, level).value.tables, actor, repo, user) <==>
            forall p :: p in Ladder(LevelOr(level)) ==> Grants(T, user, repo, p) || Grants(T, actor, repo, p)
  {
    var S := WithLevel(T, user, repo, LevelOr(level));
    assert CollaboratorSetting(T, actor, repo, user, role, level).value.tables == S;
    forall p ensures Grants(S, user, repo, p) <==>
                     (exists r :: HoldsRole(T, user, repo, r) && (r, p) in T.rolePerms) || p in Ladder(LevelOr(level))
    {
      LevelDecides(T, user, repo, LevelOr(level), user, repo, p);
    }
  }

  /** After replacing a role's permissions it has exactly the known ones among those given. */
  lemma {:induction false} LinkedExactly(links: set<(int, Permission)>, catalog: set<Permission>,
                                         role: int, perms: seq<Permission>)
    requires LinkPermissions(links, catalog, role, perms).Some?
    ensures LinkPermissions(links, catalog, role, perms).value ==
            links + set p | p in perms && p in catalog :: (role, p)
    decreases |perms|
  {
    if perms != [] {
      var more := if perms[0] in catalog then links + {(role, perms[0])} else links;
      LinkedExactly(more, catalog, role, perms[1..]);
      var rest := set p | p in perms[1..] && p in catalog :: (role, p);
      var all := set p | p in perms && p in catalog :: (role, p);
      assert forall p :: p in perms <==> p == perms[0] || p in perms[1..];
      assert all == rest + if perms[0] in catalog then {(role, perms[0])} else {};
    }
  }
}
