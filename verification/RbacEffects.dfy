/** What each change of the rbac service does to the rows and to what users may do. */
module RbacEffects {
  import opened Common
  import opened Sequences
  import opened Permissions
  import opened Teams
  import opened Evaluation
  import opened RbacChanges

  /** A refused change leaves the tables alone. */
  lemma RefusedChangesNothing(T: Tables, c: Change)
    ensures Apply(T, c).Err? ==> After(T, c) == T && Reply(Apply(T, c)) == Err(Apply(T, c).error)
    ensures Apply(T, c).Ok? ==>
              After(T, c) == Apply(T, c).value.tables && Reply(Apply(T, c)) == Ok(Apply(T, c).value.id)
  {
  }

  // ---------------------------------------------------------------------
  // Roles
  // ---------------------------------------------------------------------

  /** A permission of the catalog comes twice. */
  ghost predicate KnownTwice(catalog: set<Permission>, perms: seq<Permission>) {
    exists i, j :: 0 <= i < j < |perms| && perms[i] == perms[j] && perms[i] in catalog
  }

  /** The role has a link to one of the known permissions already. */
  ghost predicate LinkedBefore(links: set<(int, Permission)>, catalog: set<Permission>, role: int,
                               perms: seq<Permission>)
  {
    exists i :: 0 <= i < |perms| && perms[i] in catalog && (role, perms[i]) in links
  }

  lemma {:induction false} LinkingFailsExactly(links: set<(int, Permission)>, catalog: set<Permission>, role: int,
                                               perms: seq<Permission>)
    ensures LinkPermissions(links, catalog, role, perms).None? <==>
            KnownTwice(catalog, perms) || LinkedBefore(links, catalog, role, perms)
    decreases |perms|
  {
    if perms != [] {
      var p, rest := perms[0], perms[1..];
      var more := if p in catalog then links + {(role, p)} else links;
      LinkingFailsExactly(more, catalog, role, rest);
      TwiceByFirst(catalog, perms);
      LinkedByFirst(links, catalog, role, perms);
      if p in catalog {
        if LinkedBefore(more, catalog, role, rest) && !LinkedBefore(links, catalog, role, rest) {
          var i :| 0 <= i < |rest| && rest[i] in catalog && (role, rest[i]) in more;
          assert rest[i] == p;
        }
        if p in rest {
          var i :| 0 <= i < |rest| && rest[i] == p;
          assert (role, rest[i]) in more;
        }
        if LinkedBefore(links, catalog, role, rest) {
          var i :| 0 <= i < |rest| && rest[i] in catalog && (role, rest[i]) in links;
          assert (role, rest[i]) in more;
        }
      }
    }
  }

  lemma TwiceByFirst(catalog: set<Permission>, perms: seq<Permission>)
    requires perms != []
    ensures KnownTwice(catalog, perms) <==>
            KnownTwice(catalog, perms[1..]) || (perms[0] in catalog && perms[0] in perms[1..])
  {
    var rest := perms[1..];
    if KnownTwice(catalog, perms) {
      var i, j :| 0 <= i < j < |perms| && perms[i] == perms[j] && perms[i] in catalog;
      assert rest[j - 1] == perms[j];
      if i > 0 {
        assert rest[i - 1] == rest[j - 1];
      }
    }
    if KnownTwice(catalog, rest) {
      var i, j :| 0 <= i < j < |rest| && rest[i] == rest[j] && rest[i] in catalog;
      assert perms[i + 1] == perms[j + 1];
    }
    if perms[0] in catalog && perms[0] in rest {
      var j :| 0 <= j < |rest| && rest[j] == perms[0];
      assert perms[0] == perms[j + 1];
    }
  }

  lemma LinkedByFirst(links: set<(int, Permission)>, catalog: set<Permission>, role: int, perms: seq<Permission>)
    requires perms != []
    ensures LinkedBefore(links, catalog, role, perms) <==>
            (perms[0] in catalog && (role, perms[0]) in links) || LinkedBefore(links, catalog, role, perms[1..])
  {
    var rest := perms[1..];
    if LinkedBefore(links, catalog, role, perms) {
      var i :| 0 <= i < |perms| && perms[i] in catalog && (role, perms[i]) in links;
      if i > 0 {
        assert rest[i - 1] == perms[i];
      }
    }
    if LinkedBefore(links, catalog, role, rest) {
      var i :| 0 <= i < |rest| && rest[i] in catalog && (role, rest[i]) in links;
      assert perms[i + 1] == rest[i];
    }
  }

  /** One role's links are replaced by some permissions, the others' stay. */
  ghost predicate Relinked(before: set<(int, Permission)>, after: set<(int, Permission)>, role: int,
                           given: set<Permission>)
  {
    forall r, p :: (r, p) in after <==> if r == role then p in given else (r, p) in before
  }

  function Known(catalog: set<Permission>, perms: seq<Permission>): set<Permission> {
    set p | p in perms && p in catalog
  }

  lemma LinkingRelinks(links: set<(int, Permission)>, catalog: set<Permission>, role: int, perms: seq<Permission>)
    requires LinkPermissions(links, catalog, role, perms).Some? && forall p :: (role, p) !in links
    ensures Relinked(links, LinkPermissions(links, catalog, role, perms).value, role, Known(catalog, perms))
  {
    LinkedExactly(links, catalog, role, perms);
  }

  /** Replacing: refused for unknown and builtin roles and repetitions; else the role has exactly the known ones. */
  lemma SetRolePermissionsEffect(T: Tables, role: int, perms: seq<Permission>)
    ensures var r := Apply(T, SetRolePermissions(role, perms));
            && (r.Err? <==> role !in T.roles || T.roles[role].builtin || KnownTwice(T.catalog, perms))
            && (role !in T.roles ==> r == Err(RoleUnknown))
            && (role in T.roles && T.roles[role].builtin ==> r == Err(RoleBuiltin))
            && (role in T.roles && !T.roles[role].builtin && KnownTwice(T.catalog, perms) ==>
                  r == Err(DuplicatePermission))
            && (r.Ok? ==> && r.value.tables == T.(rolePerms := r.value.tables.rolePerms)
                          && Relinked(T.rolePerms, r.value.tables.rolePerms, role, Known(T.catalog, perms)))
  {
    var links := Unlink(T.rolePerms, role);
    LinkingFailsExactly(links, T.catalog, role, perms);
    assert !LinkedBefore(links, T.catalog, role, perms);
    if LinkPermissions(links, T.catalog, role, perms).Some? {
      LinkingRelinks(links, T.catalog, role, perms);
    }
  }

  /** Creating: a new role of the organization under the next id, linked to exactly the known permissions as well. */
  lemma CreateRoleEffect(T: Tables, org: int, perms: seq<Permission>)
    ensures var r := Apply(T, CreateRole(org, perms));
            && (r.Err? <==> KnownTwice(T.catalog, perms) || LinkedBefore(T.rolePerms, T.catalog, T.nextRole, perms))
            && (r.Err? ==> r.error == DuplicatePermission)
            && (r.Ok? ==>
                  && r.value.id == T.nextRole && r.value.tables.nextRole == T.nextRole + 1
                  && r.value.tables.roles == T.roles[T.nextRole := Role(Some(org), false)]
                  && (forall x, p :: (x, p) in r.value.tables.rolePerms <==>
                        (x, p) in T.rolePerms || (x == T.nextRole && p in perms && p in T.catalog))
                  && r.value.tables == T.(roles := r.value.tables.roles, rolePerms := r.value.tables.rolePerms,
                                          nextRole := r.value.tables.nextRole))
  {
    LinkingFailsExactly(T.rolePerms, T.catalog, T.nextRole, perms);
    if LinkPermissions(T.rolePerms, T.catalog, T.nextRole, perms).Some? {
      LinkedExactly(T.rolePerms, T.catalog, T.nextRole, perms);
    }
  }

  /** Deleting: refused for unknown and builtin roles; else the role and its links are gone, the others stay. */
  lemma DeleteRoleEffect(T: Tables, role: int)
    ensures var r := Apply(T, DeleteRole(role));
            && (role !in T.roles ==> r == Err(RoleUnknown))
            && (role in T.roles && T.roles[role].builtin ==> r == Err(RoleBuiltin))
            && (role in T.roles && !T.roles[role].builtin ==> r.Ok?)
            && (r.Ok? ==>
                  && (forall x :: x in r.value.tables.roles <==> x in T.roles && x != role)
                  && (forall x :: x in r.value.tables.roles ==> r.value.tables.roles[x] == T.roles[x])
                  && Relinked(T.rolePerms, r.value.tables.rolePerms, role, {})
                  && r.value.tables == T.(roles := r.value.tables.roles, rolePerms := r.value.tables.rolePerms))
  {
  }

  // ---------------------------------------------------------------------
  // Rows
  // ---------------------------------------------------------------------

  /** One row of a table is set or removed, the others stay. */
  ghost predicate RowSet<V>(before: map<(int, int), V>, after: map<(int, int), V>, key: (int, int), row: Option<V>) {
    && (key in after <==> row.Some?) && (row.Some? ==> key in after && after[key] == row.value)
    && forall k :: k != key ==> (k in after <==> k in before) && (k in before && k in after ==> after[k] == before[k])
  }

  /** Membership changes never fail and set or remove one row. */
  lemma OrgMemberEffect(T: Tables, org: int, user: int, role: Option<int>)
    ensures var S := After(T, AddOrgMember(org, user, role));
            S == T.(orgMembers := S.orgMembers) && RowSet(T.orgMembers, S.orgMembers, (org, user), Some(role))
    ensures var S := After(T, RemoveOrgMember(org, user));
            S == T.(orgMembers := S.orgMembers) && RowSet(T.orgMembers, S.orgMembers, (org, user), None)
  {
  }

  lemma TeamMemberEffect(T: Tables, team: int, user: int)
    ensures var S := After(T, AddTeamMember(team, user));
            && S == T.(teamMembers := S.teamMembers)
            && forall x :: x in S.teamMembers <==> x in T.teamMembers || x == (team, user)
    ensures var S := After(T, RemoveTeamMember(team, user));
            && S == T.(teamMembers := S.teamMembers)
            && forall x :: x in S.teamMembers <==> x in T.teamMembers && x != (team, user)
  {
  }

  lemma TeamRepoEffect(T: Tables, team: int, repo: int, role: Option<int>)
    ensures var S := After(T, GrantTeamRepo(team, repo, role));
            S == T.(teamRepos := S.teamRepos) && RowSet(T.teamRepos, S.teamRepos, (team, repo), Some(role))
  {
  }

  /** Without a role the row is set in any case, with the level "read" if none is given. */
  lemma CollaboratorEffect(T: Tables, actor: int, repo: int, user: int, level: string)
    ensures var S := After(T, SetCollaborator(actor, repo, user, None, level));
            && S == T.(collaborators := S.collaborators)
            && RowSet(T.collaborators, S.collaborators, (repo, user), Some(if level == "" then "read" else level))
    ensures var S := After(T, RemoveCollaborator(repo, user));
            S == T.(collaborators := S.collaborators) && RowSet(T.collaborators, S.collaborators, (repo, user), None)
  {
  }

  /** Why a role is refused on a repository. */
  lemma RefusalReasons(T: Tables, actor: int, repo: int, user: int, role: int, level: string)
    ensures var r := Apply(T, SetCollaborator(actor, repo, user, Some(role), level));
            && (role !in T.roles ==> r == Err(RoleUnknown))
            && (role in T.roles && repo !in T.repos ==> r == Err(RepoUnknown))
            && (role in T.roles && repo in T.repos && !InScope(T, repo, role) ==> r == Err(RoleScope))
            && (InScope(T, repo, role) && r.Err? ==> r.error == Escalation)
            && (r.Ok? ==> r == Apply(T, SetCollaborator(actor, repo, user, None, level)))
  {
  }

  // ---------------------------------------------------------------------
  // Teams
  // ---------------------------------------------------------------------

  /** A created team has the fields it was given; nothing else changes. */
  lemma CreateTeamEffect(T: Tables, org: int, parent: Option<int>, role: Option<int>)
    ensures var r := Apply(T, CreateTeam(org, parent, role));
            && (parent.None? ==> r.Ok?)
            && (r.Ok? ==>
                  && r.value.id == T.nextTeam
                  && r.value.tables == T.(teams := r.value.tables.teams, nextTeam := T.nextTeam + 1)
                  && T.nextTeam in r.value.tables.teams
                  && r.value.tables.teams[T.nextTeam].org == org && r.value.tables.teams[T.nextTeam].role == role
                  && r.value.tables.teams[T.nextTeam].parent == (if parent.Some? then parent.value else 0)
                  && SameExcept(T.teams, r.value.tables.teams, T.nextTeam))
  {
  }

  /** A moved team has the new parent, or none; nothing else changes. */
  lemma ReparentTeamEffect(T: Tables, team: int, newParent: Option<int>)
    ensures var r := Apply(T, ReparentTeam(team, newParent));
            && (newParent.None? ==> r.Ok?)
            && (r.Ok? ==>
                  && r.value.tables == T.(teams := r.value.tables.teams)
                  && SameExcept(T.teams, r.value.tables.teams, team)
                  && (team in r.value.tables.teams <==> team in T.teams)
                  && (team in T.teams ==>
                        && r.value.tables.teams[team].parent == (if newParent.Some? then newParent.value else 0)
                        && r.value.tables.teams[team].org == T.teams[team].org
                        && r.value.tables.teams[team].role == T.teams[team].role))
  {
  }

  // ---------------------------------------------------------------------
  // What users gain
  // ---------------------------------------------------------------------

  /** A member of an organization has the permissions of its role there in organization checks. */
  lemma OrgMemberGains(T: Tables, org: int, user: int, role: int, p: Permission)
    requires (role, p) in T.rolePerms
    ensures Grants(After(T, AddOrgMember(org, user, Some(role))), user, 0, p)
  {
    var S := After(T, AddOrgMember(org, user, Some(role)));
    assert (org, user) in S.orgMembers && S.orgMembers[(org, user)] == Some(role);
    assert ThroughOrg(S, user, role) && HoldsRole(S, user, 0, role);
  }

  /** A member of a team has the permissions of its role and of all teams above it, everywhere. */
  lemma TeamMemberGains(T: Tables, team: int, user: int, above: int, role: int, repo: int, p: Permission)
    requires Ancestor(T.teams, team, above) && above in T.teams && T.teams[above].role == Some(role)
    requires (role, p) in T.rolePerms
    ensures Grants(After(T, AddTeamMember(team, user)), user, repo, p)
  {
    var S := After(T, AddTeamMember(team, user));
    assert (team, user) in S.teamMembers;
    assert ThroughTeam(S, user, role) && HoldsRole(S, user, repo, role);
  }

  /** A role granted to a team on a repository counts for its members there. */
  lemma TeamRepoGains(T: Tables, team: int, user: int, repo: int, role: int, p: Permission)
    requires (team, user) in T.teamMembers && repo > 0 && (role, p) in T.rolePerms
    ensures Grants(After(T, GrantTeamRepo(team, repo, Some(role))), user, repo, p)
  {
    var S := After(T, GrantTeamRepo(team, repo, Some(role)));
    assert (team, repo) in S.teamRepos && S.teamRepos[(team, repo)] == Some(role);
    assert ThroughTeamRepo(S, user, repo, role) && HoldsRole(S, user, repo, role);
  }

  /** A collaborator has the permissions of the level. */
  lemma CollaboratorGains(T: Tables, actor: int, repo: int, user: int, level: string, p: Permission)
    requires repo > 0 && p in Ladder(if level == "" then "read" else level)
    ensures Grants(After(T, SetCollaborator(actor, repo, user, None, level)), user, repo, p)
  {
  }

  // ---------------------------------------------------------------------
  // And nothing else
  // ---------------------------------------------------------------------

  /** No team of the user leads up to a role. */
  ghost predicate NoTeamRoles(T: Tables, user: int) {
    forall t, a :: (t, user) in T.teamMembers && Ancestor(T.teams, t, a) && a in T.teams ==> T.teams[a].role.None?
  }

  /** Organization roles do not count on a repository, nor do grants on other repositories or to teams further up. */
  lemma NothingOnRepository(T: Tables, user: int, repo: int, p: Permission)
    requires repo > 0 && NoTeamRoles(T, user) && (repo, user) !in T.collaborators
    requires forall t :: (t, user) in T.teamMembers && (t, repo) in T.teamRepos ==> T.teamRepos[(t, repo)].None?
    ensures !Grants(T, user, repo, p)
  {
  }

  /** Grants on repositories and collaborator rows do not count in organization checks. */
  lemma NothingInOrganizations(T: Tables, user: int, repo: int, p: Permission)
    requires repo <= 0 && NoTeamRoles(T, user)
    requires forall o :: (o, user) in T.orgMembers ==> T.orgMembers[(o, user)].None?
    ensures !Grants(T, user, repo, p)
  {
  }

  /** Taking a permission from a role takes it from everybody who has it through that role only. */
  lemma RolePermissionTaken(T: Tables, role: int, perms: seq<Permission>, user: int, repo: int, p: Permission)
    requires Apply(T, SetRolePermissions(role, perms)).Ok? && p !in perms
    requires forall r :: HoldsRole(T, user, repo, r) && (r, p) in T.rolePerms ==> r == role
    requires repo > 0 && (repo, user) in T.collaborators ==> p !in Ladder(T.collaborators[(repo, user)])
    ensures !Grants(After(T, SetRolePermissions(role, perms)), user, repo, p)
  {
    SetRolePermissionsEffect(T, role, perms);
    var S := After(T, SetRolePermissions(role, perms));
    forall r | HoldsRole(S, user, repo, r) ensures HoldsRole(T, user, repo, r) {
      assert ThroughTeam(S, user, r) ==> ThroughTeam(T, user, r);
      assert ThroughTeamRepo(S, user, repo, r) ==> ThroughTeamRepo(T, user, repo, r);
      assert ThroughOrg(S, user, r) ==> ThroughOrg(T, user, r);
    }
  }
}
