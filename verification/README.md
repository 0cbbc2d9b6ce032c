# Verified model of gitli's core services

gitli is a self-hosted git service written in Go. This project models the parts of it that
carry real logic and proves, for all inputs and all runs, what they promise:

- **Encrypted backups.** A writer cuts a byte stream into sealed 64 KiB frames and appends an
  HMAC trailer; an integrity check and a decrypting reader parse the result independently. A
  trailer is told from a frame only by the length word 32, which a final chunk of four bytes
  also has, so the round trip holds exactly when the plaintext length does not leave remainder
  4 modulo 65536. Both directions are proved (`BackupTheory.RoundTripExact`).
- **Role-based access control.** Nested teams, roles, collaborators and a bounded, expiring
  decision cache with a per-user index. From seeded tables every run of checks and changes, at any
  times, answers as a service without a cache, although cache keys can collide
  (`RbacService.Serve`, `RbacService.SeedAndServe`). With interleaved steps a served decision is at
  most one lifetime plus one evaluate-to-store gap old, and that bound is sharp
  (`Staleness.StalenessBound`, `Staleness.StalenessSharp`); once the drops have caught up with the
  writes it disagrees with the tables only if its own check evaluated before a write that changed
  it and stored after the drop (`Staleness.StaleOnlyIfOvertaken`).
- **Glob matching** in two variants of one greedy loop, and what is decided with it: push
  protection, path permissions and CODEOWNERS.
- **Login limiter**, **OAuth code flow**, **runner claims and logs**, **schema migrations** and
  **LIKE escaping**.

One module per component; `Common.dfy` holds the option and result types and the named
equations between slices that the proofs use. `dafny verify dfyconfig.toml` checks everything.

## Where the code does less than one might expect

Each of these is a theorem about the code as it is, with the exact condition.

- The literal-first glob loop (git hooks, rbac, CODEOWNERS) consumes a `*` in the name with a
  `*` in the pattern as if both were literals. It never accepts a name the pattern does not
  match; it decides the relation for every pattern exactly when the name holds no `*`, and for
  every name exactly when the pattern holds none. Git ref names never hold one.
- Backups of a plaintext whose length leaves remainder 4 modulo 65536 decrypt without an error
  to a plaintext four bytes short; whether the integrity check passes then depends on a 32-byte
  coincidence.
- `validateNesting` does not measure the subtree of a moved team: a move keeps all depths
  within five exactly when the subtree fits below the new parent. It skips the organization
  comparison when the organization id is 0.
- `cacheKey` joins resource and action with a colon, so checks of two permissions can share a key,
  exactly when a resource or action holds one (`CacheKeys.ConfusableExactly`). This is harmless as
  long as no permission of the catalog holds a colon, and over all runs only then
  (`Staleness.BoundExact`, `RbacService.CollisionMisleads`). The builtin catalog, the only one the
  service writes, holds none (`Permissions.BuiltinColonFree`, `RbacChanges.Seed`).
- `AddTeamMember` does not look whether the team exists. Joining keeps what a user may do exactly
  when the team exists and no parent above it is missing; joining any other team makes every check
  of that user fail (`Evaluation.JoiningKeepsExactly`).
- The evaluation does not look at the organization of a requirement: an organization check means
  what it says, whatever the roles carry, exactly when the user holds no role in another
  organization that is not held in this one too (`Evaluation.OrgCheckExact`).
- `SetCollaborator` checks the role it is given, and no decision reads that role. The level that
  decisions do read is not compared with what the actor holds (`RbacChanges.RoleAcceptedExactly`,
  `RbacChanges.EscalationExact`); what its callers check is outside this model.
- `ReparentTeam` checks and updates in separate statements. Over all interleavings the teams stay a
  forest exactly when no update finds its team above the new parent, which takes the update of
  another move in between; two teams that may each be moved below the other make a cycle when both
  moves are made at once (`TeamRaces`).
- `ExchangeCode` deletes a code without looking whether that worked or whether there was something
  left to delete. A code yields two tokens only if two exchanges selected it before either deleted
  it, or a delete of it failed; in either case finishing the exchanges yields two (`OAuthRaces`).
- `RevokeAuthorization` leaves outstanding codes alone: a code issued before a revocation still
  yields a token that works after it (`OAuthFlow.GrantAndUse`).
- CODEOWNERS paths may hold a star; rules own such a path as the glob relation says for all
  patterns exactly when it holds none (`CodeOwners.OwnsByGlob`).
- `AppendLog` reads the size before it inserts: with at most c appends of a job at a time the log
  stays within c times the cap, and that is reached (`RunnerLogRaces`).
- A claim can report that no job is available while one is pending, exactly when the job it
  selected was taken in between.
- `LoginLimiter` streaks stay within the maximum only when attempts do not overlap; with at
  most c overlapping attempts the bound is max + c - 1, and it is reached. A maximum below one
  acts like one, and without a lockout no streak is longer than one.

## Assumptions of the model

- Database statements are atomic and succeed unless a parameter (`storeOk`, `budget`) says
  otherwise; one clock value per call. `OAuthFlow`, `TeamRuns`, `RunnerLogs` and `RbacService` take
  each call as a whole; `OAuthRaces`, `TeamRaces`, `RunnerLogRaces` and `Staleness` interleave the
  steps of calls. Byte strings and text are sequences of characters.
- In `Staleness` a whole `evaluate` sees one state of the tables; the source runs it as several
  queries, between which a change could come.
- AES-GCM and HMAC-SHA256 are arbitrary functions of which only the length and
  open-after-seal laws are used (`BackupFormat.Lawful`); nonces are an arbitrary stream.
  Stored hashes are injective, random identifiers are fresh.
- Row ids are positive and never reused. Rbac tables are changed by the rbac service only: the
  org service has its own `AddTeamMember` without invalidation
  (internal/service/org/org.go:74-80), and a failure between the two deletes of `DeleteRole`
  is outside the coherence theorem.
- In CODEOWNERS `*` already crosses slashes, so `**` means no more than `*`, whatever the comment on
  `matchSegments` suggests.

## Model

| member | source | states |
|---|---|---|
| BackupTheory.RoundTripExact | internal/infra/backup/backup.go:383-563 | an archive passes the integrity check and decrypts to its plaintext if and only if the plaintext length modulo 65536 is not 4 |
| BackupTheory.RoundTrip | internal/infra/backup/backup.go:383-563 | the restoring direction, for every lawful cipher and nonce stream |
| BackupTheory.LosesFourBytes | internal/infra/backup/backup.go:533-541 | for remainder 4 decryption ends cleanly with the last four bytes missing |
| BackupTheory.VerdictOnFourBytes | internal/infra/backup/backup.go:497-507 | for remainder 4 the check passes if the last frame happens to equal the mac of what precedes it, and otherwise reports a bad mac |
| BackupTheory.ScannersAgree | internal/infra/backup/backup.go:490-563 | on every input: the check finds a trailer iff the reader does and no frame before it exceeds the limit, and then both see the same frames and the trailer at the same place |
| BackupTheory.DecodeOpensScan | internal/infra/backup/backup.go:528-562 | the reader opens the frames between its boundaries in order, up to the first that does not open |
| BackupTheory.ScanFramesAreSized | internal/infra/backup/backup.go:490-516 | every frame the check steps over is between 28 and 65564 bytes long |
| BackupTheory.ChunksShape | internal/infra/backup/backup.go:383-425 | emitted chunks are nonempty, at most 64 KiB, all but the last exactly 64 KiB, and lose nothing |
| BackupTheory.ChunksOfFlat | internal/infra/backup/backup.go:383-400 | buffering in full chunks yields the chunks of the concatenation, however it was written |
| BackupTheory.LastChunkLength | internal/infra/backup/backup.go:383-425 | which plaintext lengths give a last chunk of a given length |
| BackupTheory.ScanFrames | internal/infra/backup/backup.go:490-516 | the check walks a run of written frames to what follows them |
| BackupTheory.DecodeFrames | internal/infra/backup/backup.go:528-562 | the reader returns the chunks of a run of written frames and continues with what follows |
| BackupTheory.LawfulExists | internal/infra/backup/backup.go:349-360 | the laws assumed of the primitives can be met |
| BackupLayout.ArchiveExactly | internal/infra/backup/backup.go:383-440 | an archive is the magic, one frame per 64 KiB piece with its own nonce behind its length word, the word 32 and the mac of all that |
| BackupLayout.VerifyExactly | internal/infra/backup/backup.go:476-517 | a file passes the check iff it is the magic, frames of 28 to 65564 bytes (not 32) behind their length words, the word 32, the mac of all that, and anything behind it |
| BackupLayout.FaultExactly | internal/infra/backup/backup.go:476-517 | which fault every other file is refused with |
| BackupLayout.DecodeExactly | internal/infra/backup/backup.go:519-563 | however an input falls into frames and a place where reading stops, the reader delivers the opened frames and ends as that place says |
| BackupLayout.EofExactly | internal/infra/backup/backup.go:519-563 | an input is read to its end iff it is frames that all open and a trailer, and then their plaintexts are delivered |
| BackupLayout.DividesUnique | internal/infra/backup/backup.go:490-563 | an input falls into frames and a stopping place in one way only |
| BackupStreams.EncryptWriter.Write | internal/infra/backup/backup.go:383-400 | appends to the plaintext, keeps the buffer below a chunk and everything else sealed |
| BackupStreams.EncryptWriter.FlushChunk | internal/infra/backup/backup.go:402-425 | seals a nonempty buffer into one frame under the next nonce, hashed as written |
| BackupStreams.EncryptWriter.Close | internal/infra/backup/backup.go:427-440 | the destination holds the archive of the plaintext, independent of how it was split |
| BackupStreams.VerifyHmac | internal/infra/backup/backup.go:476-517 | the streaming loop gives the verdict of the scan over the whole file, with the same fault (`BackupLayout` says which files pass) |
| BackupStreams.DecryptReader.Read | internal/infra/backup/backup.go:519-563 | each read delivers the next bytes of what is left, with progress, and ends or fails only when none are left |
| BackupStreams.Drain | internal/infra/backup/backup.go:519-563 | any sequence of buffer sizes delivers everything and the way it ends |
| BackupStreams.BackupAndRestore | internal/infra/backup/backup.go:383-563 | end to end, for any split into writes and any buffer sizes: the verdict of the check, the data and the way reading ends, for every length |
| Glob.StarFirst | internal/service/pathperm/pathperm.go:144-179 | the star-first loop decides the glob relation for all patterns and names, and terminates |
| Glob.LastStarIsEnough | internal/service/pathperm/pathperm.go:148-172 | forgetting earlier stars loses no match |
| Glob.MatchPattern | internal/service/git/hook.go:88-111 | the literal-first loop computes the run from the initial state |
| Glob.GreedySound | internal/service/rbac/model.go:28-51 | from any state the literal-first loop accepts only real matches |
| Glob.LiteralFirstSound | internal/service/git/hook.go:88-111 | what the literal-first loop accepts, the pattern matches |
| Glob.LiteralFirstExact | internal/service/codeowners/codeowners.go:124-147 | it decides the relation unless pattern and name both hold a star |
| Glob.LiteralFirstByName | internal/service/git/hook.go:88-111 | a name is decided rightly for all patterns iff it holds no star |
| Glob.LiteralFirstByPattern | internal/service/git/hook.go:88-111 | a pattern decides all names rightly iff it holds no star |
| Glob.RefusedPattern | internal/service/git/hook.go:92-94 | for every name with a star, a matching pattern the loop refuses |
| Glob.RefusedName | internal/service/git/hook.go:92-94 | for every pattern with a star, a matching name the loop refuses |
| Glob.LiteralFirstSelf | internal/service/git/hook.go:88-111 | the pattern with the text of the name itself is always accepted |
| Protections.EnforceProtections | internal/service/git/hook.go:117-171 | the nested loops report the first rejection in update and rule order |
| Protections.PushPermitted | internal/service/git/hook.go:129-161 | a push is accepted iff for every update every matching branch rule asks for a signature that verifies, the update is no deletion, and no tag pattern matches |
| Protections.PushSplits | internal/service/git/hook.go:129-161 | the check splits over concatenation: the first part with a rejection decides |
| Protections.BranchPushExactly | internal/service/git/hook.go:20-163 | an update of refs/heads/b passes iff every rule that hits b asks for signing, the new id is not all zeros and a signature service vouches for it |
| Protections.TagPushExactly | internal/service/git/hook.go:29-163 | an update of refs/tags/t passes iff no tag pattern hits t |
| Protections.OtherRefsPass | internal/service/git/hook.go:20-163 | every other ref passes |
| Protections.BranchRejectionReason | internal/service/git/hook.go:129-150 | the rejection names the branch and a reason that holds of a rule that hits it |
| Protections.TagRejectionReason | internal/service/git/hook.go:151-160 | a rejected tag is reported as deleted iff the new id is all zeros, else as overwritten |
| Protections.RulesOnlyForbid | internal/service/git/hook.go:117-162 | more rules never accept more; order and repetition of rules do not matter |
| Protections.ExactForRef | internal/service/git/hook.go:84-111 | for a ref the check agrees with the glob relation under all configurations iff its names hold no star |
| PathPermissions.Match | internal/service/pathperm/pathperm.go:119-140 | both passes together return the permission of the first rule among the longest matching ones, duplicates included |
| CodeOwners.MatchPath | internal/service/codeowners/codeowners.go:71-116 | every pattern form decides ownership over positions in the path instead of split segments |
| CodeOwners.OwnsAnchored | internal/service/codeowners/codeowners.go:71-98 | the pattern /x owns exactly the paths x hits as a whole |
| CodeOwners.OwnsAnchoredDirectory | internal/service/codeowners/codeowners.go:71-92 | the pattern /d/ owns exactly the paths that start with d/ |
| CodeOwners.OwnsDirectory | internal/service/codeowners/codeowners.go:77-92 | the pattern d/ owns exactly the paths with d/ at the start of a segment |
| CodeOwners.OwnsBareName | internal/service/codeowners/codeowners.go:94-97 | a name without a slash owns what it hits as a whole or in the last segment |
| CodeOwners.OwnsInnerSlash | internal/service/codeowners/codeowners.go:101-108 | a pattern with a slash inside owns the paths it hits from some segment on |
| CodeOwners.SegmentsToBoundary | internal/service/codeowners/codeowners.go:102-107 | dropping leading segments leaves the path from a segment start |
| CodeOwners.BoundaryToSegments | internal/service/codeowners/codeowners.go:102-107 | every segment start is reached by dropping segments |
| CodeOwners.BaseName | internal/service/codeowners/codeowners.go:111-116 | the last segment |
| CodeOwners.OwnersFor | internal/service/codeowners/codeowners.go:59-67 | the last owning rule gives the owners, none gives nobody |
| CodeOwners.OwnsByGlob | internal/service/codeowners/codeowners.go:71-147 | for all patterns a path is owned as the glob relation says iff it holds no star |
| LikePatterns.EscapeIsOnePass | internal/service/store/store.go:27-32 | the three chained replacements equal one map over the characters |
| LikePatterns.EscapedIsLiteral | internal/service/store/store.go:24-32 | escaped text in front of a pattern is met literally |
| LikePatterns.ContainsPatternMeaning | internal/service/store/store.go:34-35 | the pattern selects exactly the texts that contain the value |
| LikePatterns.PrefixPatternMeaning | internal/service/store/store.go:37-38 | the pattern selects exactly the texts that start with the value |
| LoginLimiter.Limiter.Allow | internal/service/auth/limiter.go:36-49 | refuses iff the last max failures since the last clear came with gaps below the lockout and the last is younger than the lockout; sweeping cannot be observed |
| LoginLimiter.Limiter.Fail | internal/service/auth/limiter.go:51-62 | adds one failure to the history and keeps the table faithful to it |
| LoginLimiter.Limiter.Clear | internal/service/auth/limiter.go:80-90 | clears the history of the key only |
| LoginLimiter.Limiter.Sweep | internal/service/auth/limiter.go:65-76 | drops exactly the out-of-date records, at most once per interval |
| LoginLimiter.StreakMeaning | internal/service/auth/limiter.go:56-61 | the counter is the longest run of final failures with small gaps |
| LoginLimiter.StreakBound | internal/service/auth/auth.go:164-208 | when only granted attempts fail and at most c overlap, no streak exceeds max + c - 1 (a maximum below one counts as one; without a lockout, one) |
| LoginLimiter.StreakBoundSharp | internal/service/auth/auth.go:164-208 | that bound is reached for every max, lockout and c |
| OAuthFlow.Provider.IssueCode | internal/service/oauth/flow.go:35-60 | stores the code for ten minutes and the consent, or nothing |
| OAuthFlow.Provider.ExchangeCode | internal/service/oauth/flow.go:71-119 | succeeds iff the secret is that of the registered client, the code was issued to its app at most ten minutes ago, is not used up, the redirect fits and the store works; the error otherwise; which codes get used up; the token table gains exactly the token of the grant |
| OAuthFlow.Provider.TokenUser | internal/service/oauth/flow.go:122-140 | resolves iff the token was handed out, never revoked and is at most a year old, and then to user and scopes of the grant behind it |
| OAuthFlow.Provider.RevokeAuthorization | internal/service/oauth/flow.go:179-185 | removes the consent and revokes exactly the tokens handed out so far for the user and app |
| OAuthFlow.IssueKeeps | internal/service/oauth/flow.go:46-58 | issuing keeps the stored codes exactly those issued and not used up |
| OAuthFlow.ExchangeKeeps | internal/service/oauth/flow.go:101-112 | exchanging keeps one token per code, each answering a grant of its app made at most ten minutes earlier |
| OAuthFlow.RevokeKeeps | internal/service/oauth/flow.go:179-185 | revoking keeps the stored tokens exactly those handed out and not revoked |
| OAuthFlow.GrantAndUse | internal/service/oauth/flow.go:35-185 | issue, exchange, use: the token resolves to the user unless revoked after the exchange, and to the same scopes iff each is a nonempty word |
| OAuthFlow.ScopesRoundTrip | internal/service/oauth/flow.go:47-138 | scopes survive storage as text iff each is a nonempty word |
| OAuthFlow.JoinConcat | internal/service/oauth/flow.go:47-52 | scopes are stored with one space between any two parts |
| OAuthRaces.TwoTokensOnlyIf | internal/service/oauth/flow.go:82-112 | over all interleavings a code yields two tokens only if two exchanges had selected it and neither had deleted it, or a delete of it failed |
| OAuthRaces.OverlapYieldsTwo | internal/service/oauth/flow.go:82-112 | from every moment of such an overlap finishing both exchanges yields two tokens |
| OAuthRaces.LostDeleteYieldsTwo | internal/service/oauth/flow.go:100-112 | after every failed delete of a stored code a later exchange yields a second token |
| OAuthRaces.OverlapHappens | internal/service/oauth/flow.go:82-101 | for every code a run reaches an overlap |
| RunnerClaims.ClaimedOnceInOrder | internal/service/runner/job.go:62-90 | in every interleaving no job is claimed twice, claims follow creation order, runners stay |
| RunnerClaims.RunSettles | internal/service/runner/job.go:92-110 | between any two moments no job re-enters pending or changes its runner |
| RunnerClaims.UpdateIsAtomicClaim | internal/service/runner/job.go:69-88 | a successful conditional update takes the job that is oldest pending at that moment, as an atomic claim would; it fails iff the selected job left pending |
| RunnerClaims.NoJobWhilePending | internal/service/runner/job.go:83-85 | a claim can come back empty while a job is pending |
| RunnerClaims.CompleteEffect | internal/service/runner/job.go:92-103 | a completed job is successful or cancelled iff so reported, else failed; no other job changes |
| RunnerClaims.CancelEffect | internal/service/runner/job.go:105-110 | cancelling ends a pending or running job and leaves an ended one alone |
| RunnerClaims.CreateEffect | internal/service/runner/job.go:38-46 | a new job comes last, pending and without a runner |
| RunnerLogs.LogStore.AppendLog | internal/service/runner/job.go:178-194 | the stored log stays the first logMax bytes of everything sent, per job |
| RunnerLogs.AppendKeepsPrefix | internal/service/runner/job.go:186-191 | cutting each chunk to what fits equals cutting the whole log |
| RunnerLogs.LogStore.LogSize | internal/service/runner/job.go:197-201 | the sum of chunk lengths is the length of the stored log |
| RunnerLogs.LogStore.Logs | internal/service/runner/job.go:204-222 | a page is the first rows after the id, up to the effective limit |
| RunnerLogs.LogStore.ReadAll | internal/service/runner/job.go:204-222 | paging with any limits returns every stored row once, in order |
| RunnerLogRaces.OverlapBound | internal/service/runner/job.go:182-192 | with at most c appends of a job at a time no more than c times the cap is stored |
| RunnerLogRaces.SerialStoresAllThatFits | internal/service/runner/job.go:178-194 | appends one after the other store exactly what fits of all they are given |
| RunnerLogRaces.OverlapBoundReached | internal/service/runner/job.go:182-192 | that bound is reached for every cap and c |
| RunnerLogRaces.CapKeptExactly | internal/service/runner/job.go:182-192 | all runs keep the cap iff appends do not overlap |
| Migrations.Database.ApplyOne | internal/db/migrate.go:44-60 | a script and its ledger row are applied together or not at all; succeeds iff its statements and the row fit the budget and the version is new |
| Migrations.Database.ApplyMigrations | internal/db/migrate.go:22-42 | applies, in version order, the longest first part of the pending scripts that fits the budget; succeeds iff all of them fit and no version comes twice |
| Migrations.Database.Advance | internal/db/migrate.go:22-42 | from a prefix a call reaches a later prefix, and the end iff the rest fits the budget |
| Migrations.CallAdvances | internal/db/migrate.go:30-42 | a call moves from one prefix of the sorted list to a later one; from the end nothing is pending |
| Migrations.GrowthAtTop | internal/db/migrate.go:30-31 | a list that grew at the top sorts to the old list followed by the new scripts |
| Migrations.LessMeaning | internal/db/migrate.go:30 | versions are ordered by their first differing character, a proper beginning first |
| Migrations.RunAll | internal/db/migrate.go:19-42 | any calls with growing lists, failing anywhere, leave a prefix with the schema of that prefix; the last call succeeds iff the rest fits its budget, which is iff the whole list is applied |
| Migrations.CompletionExact | internal/db/migrate.go:32-41 | a completed call leaves the ledger in version order iff what was applied before is a first part of the list |
| Permissions.Union | internal/service/rbac/model.go:149-161 | all permissions of the lists, each once |
| Permissions.LadderPermissions | internal/service/rbac/rbac.go:399-414 | the list built for a level has the permissions of the ladder |
| Permissions.LadderMonotone | internal/service/rbac/model.go:99-147 | a level has all permissions of another iff it does not rank lower |
| Permissions.LevelsGrow | internal/service/rbac/rbac.go:399-414 | read, triage, write, maintain and admin each have more than the one before, admin has the whole catalog, any other name has nothing |
| Permissions.LevelsGrantTheirName | internal/service/rbac/model.go:99-147 | each level grants what it is named for and the level before it does not |
| Permissions.LevelActionsByName | internal/service/rbac/model.go:108-147 | the actions each level below admin can have |
| Permissions.ReadLevelExactly | internal/service/rbac/model.go:108-147 | the read level is the read actions of the catalog outside settings, webhooks and audit |
| Permissions.BuiltinColonFree | internal/service/rbac/model.go:61-76 | no builtin permission holds a colon |
| CacheKeys.SameKey | internal/service/rbac/rbac.go:440-443 | two checks share a key iff user, repository and the joined text agree |
| CacheKeys.KeyNamesPermission | internal/service/rbac/rbac.go:440-443 | without colons in resources a key names one user, repository and permission |
| CacheKeys.ConfusableExactly | internal/service/rbac/rbac.go:440-443 | some check of another permission shares the key iff the resource or the action holds a colon |
| PermCache.Cache.Get | internal/service/rbac/cache.go:41-53 | returns a stored decision iff it is fresh, drops it if stale |
| PermCache.Cache.Set | internal/service/rbac/cache.go:56-69 | stores the decision, keeps the index exact and the size bounded, evicts only when new and full |
| PermCache.Cache.Evict | internal/service/rbac/cache.go:99-113 | no expired entry survives, room for one is made, and no fresh entry goes unless needed |
| PermCache.Cache.Delete | internal/service/rbac/cache.go:89-97 | removes a key from entries and index, leaving no empty user |
| PermCache.Cache.InvalidateUser | internal/service/rbac/cache.go:72-79 | removes all and only the user's decisions |
| PermCache.Cache.InvalidateAll | internal/service/rbac/cache.go:82-87 | empties entries and index |
| PermCache.UnindexMatches | internal/service/rbac/cache.go:89-97 | the index stays exact when one key goes |
| PermCache.IndexAdds | internal/service/rbac/cache.go:62-68 | the index stays exact when a key is stored for its owner |
| PermCache.IndexDropsUser | internal/service/rbac/cache.go:72-79 | the index stays exact when a user's keys go |
| Teams.IsDescendant | internal/service/rbac/rbac.go:193-211 | answers for the walk up on every table, cyclic ones included |
| Teams.DescendantExactly | internal/service/rbac/rbac.go:193-211 | in a forest the answer is whether the team is an ancestor |
| Teams.CycleReported | internal/service/rbac/rbac.go:193-211 | with a cycle on the way up the question about another team is refused as a cycle |
| Teams.MissingReported | internal/service/rbac/rbac.go:193-211 | with a missing parent on the way up it is refused as not found |
| Teams.ValidateNesting | internal/service/rbac/rbac.go:166-190 | the loop gives the first violation met on the way up |
| Teams.NestAdmits | internal/service/rbac/rbac.go:166-190 | it admits exactly chains of at most four teams of the organization (any, for id 0) |
| Teams.CheckMove | internal/service/rbac/rbac.go:126-155 | the checks of a move, with the error of the first that fails |
| Teams.MoveAdmits | internal/service/rbac/rbac.go:126-190 | on any table a move is allowed iff both teams exist in one organization and a chain of at most four teams of it leads up from the new parent without the moved team |
| Teams.MoveRefusals | internal/service/rbac/rbac.go:126-190 | in a forest, which error each refused move gets |
| Teams.CreateRefusals | internal/service/rbac/rbac.go:99-190 | in a forest, which error each refused creation gets |
| Teams.WalkMeetsAncestors | internal/service/rbac/rbac.go:344-362 | the walk up meets exactly the reflexive-transitive ancestors, even on cyclic tables |
| Teams.CreateKeepsForest | internal/service/rbac/rbac.go:99-117 | a created team joins the forest with at most five teams on its chain |
| Teams.ReparentKeepsForest | internal/service/rbac/rbac.go:126-162 | an allowed move keeps the forest |
| Teams.ForestAcyclic | internal/service/rbac/rbac.go:135-142 | in a forest no team is its own proper ancestor |
| TeamRuns.RunKeepsForest | internal/service/rbac/rbac.go:99-211 | after every run the teams form a forest and edges stay inside organizations (except below organization 0) |
| TeamRuns.RunKeepsShallow | internal/service/rbac/rbac.go:99-190 | runs that move only childless teams, or to the top, never nest deeper than five |
| TeamRuns.MoveKeepsShallowExactly | internal/service/rbac/rbac.go:164-190 | a move keeps the depth bound iff the whole subtree fits below the new parent |
| TeamRuns.MoveCanExceedDepth | internal/service/rbac/rbac.go:164-190 | a run of creations within the bound and an allowed move that exceeds it |
| TeamRuns.RunKeepsSameOrgs | internal/service/rbac/rbac.go:99-190 | runs that create no team for organization 0 keep parent and child in one organization |
| TeamRaces.UpdateExact | internal/service/rbac/rbac.go:156-162 | an update keeps the forest iff the team is not on the way up from its new parent at that moment |
| TeamRaces.ForestExactly | internal/service/rbac/rbac.go:99-162 | over all interleavings the teams stay a forest iff no update finds its team above the new parent |
| TeamRaces.ForestLostOnlyIfOvertaken | internal/service/rbac/rbac.go:126-162 | the forest is lost only if the update of another move came between the checks of a move and its own update |
| TeamRaces.CrossingMakesCycle | internal/service/rbac/rbac.go:126-162 | wherever two teams may each be moved below the other, interleaving both moves makes a cycle |
| TeamRaces.CrossingHappens | internal/service/rbac/rbac.go:126-162 | a run with two new teams at the top reaches such a cycle |
| TeamRuns.CreateKeepsOrgs | internal/service/rbac/rbac.go:183-185 | creation keeps parent and child in one organization iff the id is not 0 or the parent has none |
| TeamRuns.ReparentKeepsOrgs | internal/service/rbac/rbac.go:143-151 | moves stay inside the organization |
| Evaluation.CollectTeamAncestors | internal/service/rbac/rbac.go:344-362 | adds exactly the roles met on the way up, or reports a missing team |
| Evaluation.CollectRoles | internal/service/rbac/rbac.go:324-341 | the roles of the user's teams and their repository grants; fails iff a team is dangling |
| Evaluation.TeamRolesAreThrough | internal/service/rbac/rbac.go:324-362 | what the walks collect are the roles of all ancestors plus the grants of direct teams |
| Evaluation.EffectivePermissions | internal/service/rbac/rbac.go:263-294 | computes the declarative closure, fails exactly on dangling teams |
| Evaluation.Evaluate | internal/service/rbac/rbac.go:252-258 | the decision the tables stand for |
| Evaluation.SameDecision | internal/service/rbac/rbac.go:263-294 | rows of other users decide nothing about this one |
| Evaluation.JoiningKeepsExactly | internal/service/rbac/manage.go:184-195 | joining a team keeps a granted decision iff the team exists and no parent above it is missing; otherwise every decision of the user fails |
| Evaluation.JoiningInForest | internal/service/rbac/manage.go:184-195 | where the teams form a forest, iff the team exists |
| Evaluation.LevelDecides | internal/service/rbac/rbac.go:382-414 | a collaborator row changes decisions of its user on its repository only, by the ladder of its level |
| Evaluation.PromotionOnlyAdds | internal/service/rbac/rbac.go:382-414 | moving up the ladder loses no granted decision |
| Evaluation.OrgCheckExact | internal/service/rbac/rbac.go:252-272 | an organization check equals the closure inside that organization, whatever permissions of the catalog the roles carry, iff every role the user holds is held there |
| Evaluation.ColonsDenied | internal/service/rbac/rbac.go:263-294 | on tables linked inside a catalog without colons nobody has a permission with one |
| RbacChanges.Seed | internal/service/rbac/rbac.go:39-85 | adds exactly the builtin permissions and the known links of the builtin roles, keeps tables seeded, and changes nothing when repeated |
| RbacChanges.ChangesKeepCatalog | internal/service/rbac/manage.go:43-135 | no change leaves the catalog: every link it makes is to a permission found there |
| RbacChanges.RoleAcceptedExactly | internal/service/rbac/manage.go:250-288 | on seeded tables a role is accepted iff it is of the repository's organization and its permissions are permissions of the actor there |
| RbacChanges.TextsDecideExactly | internal/service/rbac/manage.go:279-287 | over all tables linked inside a catalog the comparison of joined texts is right iff its permissions have different texts |
| RbacChanges.EscalationExact | internal/service/rbac/manage.go:225-246 | the role has no effect, and a user gains only what user or actor could do already iff that holds of the ladder of the given level |
| RbacChanges.LinkedExactly | internal/service/rbac/manage.go:97-108 | a role gets exactly the known ones among the permissions given |
| RbacEffects.SetRolePermissionsEffect | internal/service/rbac/manage.go:81-115 | refused iff the role is unknown or builtin or a known permission is repeated; else the role has exactly the known permissions given and other roles are untouched |
| RbacEffects.CreateRoleEffect | internal/service/rbac/manage.go:43-78 | a new role of the organization under the next id with exactly the known permissions given, or refused for a repeated one |
| RbacEffects.DeleteRoleEffect | internal/service/rbac/manage.go:118-135 | refused iff unknown or builtin; else the role and its links are gone and the others stay |
| RbacEffects.RolePermissionTaken | internal/service/rbac/manage.go:81-115 | a permission taken from a role is lost by everybody who has it through that role only |
| RbacEffects.OrgMemberEffect | internal/service/rbac/manage.go:157-181 | one membership row is set or removed and nothing else changes |
| RbacEffects.TeamMemberEffect | internal/service/rbac/manage.go:184-205 | one team membership is added or removed and nothing else changes |
| RbacEffects.TeamRepoEffect | internal/service/rbac/manage.go:208-222 | one grant row is set and nothing else changes |
| RbacEffects.CollaboratorEffect | internal/service/rbac/manage.go:225-246 | one collaborator row is set, with level read if none is given, or removed |
| RbacEffects.RefusalReasons | internal/service/rbac/manage.go:250-288 | why a role is refused on a repository |
| RbacEffects.CreateTeamEffect | internal/service/rbac/rbac.go:99-117 | a created team has the fields given, under the next id, and nothing else changes |
| RbacEffects.ReparentTeamEffect | internal/service/rbac/rbac.go:126-162 | a moved team has the new parent or none, and nothing else changes |
| RbacEffects.RefusedChangesNothing | internal/service/rbac/manage.go:43-322 | a refused change leaves the tables alone |
| RbacEffects.OrgMemberGains | internal/service/rbac/rbac.go:297-321 | an organization member has the permissions of its role in organization checks |
| RbacEffects.TeamMemberGains | internal/service/rbac/rbac.go:324-362 | a team member has the permissions of the roles of the team and of all above it |
| RbacEffects.TeamRepoGains | internal/service/rbac/rbac.go:324-341 | a role granted to a team on a repository counts for its members there |
| RbacEffects.CollaboratorGains | internal/service/rbac/rbac.go:382-414 | a collaborator has the permissions of the level |
| RbacEffects.NothingOnRepository | internal/service/rbac/rbac.go:263-294 | organization roles, grants on other repositories and grants to teams further up do not count on a repository |
| RbacEffects.NothingInOrganizations | internal/service/rbac/rbac.go:263-294 | repository grants and collaborator rows do not count in organization checks |
| RbacService.Service.Check | internal/service/rbac/rbac.go:234-248 | on seeded tables the answer is the uncached decision; a hit is served, a miss evaluated and stored |
| RbacService.SharedKeyAlike | internal/service/rbac/rbac.go:440-443 | on seeded tables checks under one key are of one user and decided alike |
| RbacService.StoreKeepsSound | internal/service/rbac/rbac.go:246 | storing a decision keeps every cached one right |
| RbacService.DroppingUserKeepsCoherent | internal/service/rbac/cache.go:72-79 | dropping one user's keys suffices when only that user's decisions changed |
| RbacService.CollisionMisleads | internal/service/rbac/rbac.go:238-246 | for every catalog and permission in it with a colon: on tables linked inside the catalog a check under the same key makes the next one deny what the tables grant |
| RbacService.Service.CreateTeam | internal/service/rbac/rbac.go:99-117 | creates or refuses as specified and keeps the cache coherent |
| RbacService.Service.ReparentTeam | internal/service/rbac/rbac.go:126-162 | moves or refuses as specified and keeps the cache coherent |
| RbacService.Service.CreateRole | internal/service/rbac/manage.go:43-78 | creates the role with its links and keeps the cache coherent |
| RbacService.Service.SetRolePermissions | internal/service/rbac/manage.go:81-115 | replaces the links of a custom role and keeps the cache coherent |
| RbacService.Service.DeleteRole | internal/service/rbac/manage.go:118-135 | deletes a custom role and keeps the cache coherent |
| RbacService.Service.AddOrgMember | internal/service/rbac/manage.go:157-171 | inserts or updates and keeps the cache coherent by dropping one user |
| RbacService.Service.RemoveOrgMember | internal/service/rbac/manage.go:174-181 | deletes and keeps the cache coherent by dropping one user |
| RbacService.Service.AddTeamMember | internal/service/rbac/manage.go:184-195 | inserts and keeps the cache coherent by dropping one user |
| RbacService.Service.RemoveTeamMember | internal/service/rbac/manage.go:198-205 | deletes all such rows and keeps the cache coherent by dropping one user |
| RbacService.Service.GrantTeamRepo | internal/service/rbac/manage.go:208-222 | inserts or updates and keeps the cache coherent |
| RbacService.Service.SetCollaborator | internal/service/rbac/manage.go:225-246 | checks the role, inserts or updates, keeps the cache coherent by dropping one user |
| RbacService.Service.RemoveCollaborator | internal/service/rbac/manage.go:315-322 | deletes and keeps the cache coherent by dropping one user |
| RbacService.Serve | internal/service/rbac/rbac.go:234-258 | from seeded tables, over every run of checks and changes at any times, the answers are those of a service without a cache |
| RbacService.SeedAndServe | internal/service/rbac/rbac.go:33-258 | the same for a fresh database that was seeded, with no condition left |
| Staleness.StalenessBound | internal/service/rbac/rbac.go:238-247 | from seeded tables, in every interleaving and for every requirement, a served decision was true no longer ago than lifetime plus evaluate-to-store gap |
| Staleness.BoundExact | internal/service/rbac/rbac.go:238-247 | for every lifetime, over all runs from tables linked inside a catalog, that bound holds iff the catalog holds no colon |
| Staleness.StaleOnlyIfOvertaken | internal/service/rbac/rbac.go:238-247 | when every write that matters has been followed by its drop, a served decision differs from the tables only if its own check evaluated before a write that changed it and stored after the drop |
| Staleness.DropReaches | internal/service/rbac/manage.go:43-322 | the drop each change performs reaches every user whose decisions it can alter, and for rows of a user that user only |
| Staleness.CaughtUpIsSettled | internal/service/rbac/manage.go:43-322 | interleaved changes that have each made their drop leave no write undropped for any user |
| Staleness.StalenessSharp | internal/service/rbac/rbac.go:238-247 | for every lifetime, gap and change that takes a permission away, a run whose drop was made serves a decision that old, true at no later time and false now |
| Staleness.SharpRunsExist | internal/service/rbac/manage.go:198-205 | removing a member from a team is such a change, on the builtin catalog |
| Staleness.RunKeepsInv | internal/service/rbac/cache.go:41-87 | every stored or pending decision was true when it was evaluated, over all interleavings |

## Left out

- Plain (unencrypted) archives, `prefixReader`, tar, gzip and path checks on restore: plumbing around the framing.
- Errors of the backup destination and of the random source: the writer model succeeds or is not called.
- `ParsePreReceive`, `ParsePermission`, `parseLine`: line splitting, only easy members.
- Role names, descriptions, audit rows and the role column of collaborators: evaluation does not read them.
- RbacChanges.Seed: takes the ids of the builtin roles as given and does not insert their rows; it runs before the service is used, since it drops nothing from the cache.
- A failed statement in the middle of an rbac change, and writes to rbac tables by other services.
- Transaction isolation of `ClaimJob` beyond its two statements.
- RunnerLogs.LogStore.AppendLog: calls for a job come one after the other; how much overlapping ones store is `RunnerLogRaces`, which counts bytes and not their order.
- Dialect effects: implicit commits of MySQL DDL, LENGTH in characters, case-insensitive LIKE.
- `splitStatements` and `stripSQLComments`: scripts come already split into statements.
- Redirect URI validation, scope filtering and app registration of the OAuth provider.
- HTTP handlers, SSH, CLI, web frontend, LDAP, SAML, mail, webhooks and the plain record-keeping services.
