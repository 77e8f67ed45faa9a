# Verified model of securitydept's stateful core

securitydept is an authentication toolkit: a server that decides forward-auth requests over a
file-backed credential store, a real-IP resolver for requests that came through proxies, an
OIDC client with sessions and device login, and release scripts that keep a Cargo workspace on
one version. This project models the parts that keep state, run in loops or rewrite text, and
proves what they promise for all inputs and all runs. Verify it with
`dafny verify dfyconfig.toml`.

## What is modelled

**Credential store** (`CredsModels`, `CredsMutations`, `CredsEntries`, `CredsIntegrity`,
`CredsGroups`, `WorkingCopy`, `StoreProtocol`, `StoreLinearizable`, `StoreLocks`, `StoreReads`,
`StoreSafety`, `StoreConvergence`, `StoreAccess`). The seven mutators are functions on a data file (`Apply`) and, as the program
runs them, methods of a class that changes a private copy in loops. The store is a step system:
any number of stores on one path, each with its mutex, snapshot and self-write marker; callers
that lock, read, compute, write, record the hash and publish; reload passes that read, check the
marker, compare and publish; and editors that replace the file. All steps interleave freely. A
`reload_if_external` pass does not take the store's mutex, so its steps fall between a writer's.

**Forward-auth** (`ForwardAuth`, `ForwardAccess`). Reading the Authorization header, the decision
over three store reads, its hash-map validators against plain scans, and what each mutator means
for who is let in.

**Real IP** (`RealIpChain`, `RealIpResolve`, `RealIpAnswers`, `ProviderRegistry`, `ProviderFile`).
Networks, header values, chain walking, source ordering, the provider registry with concurrent refreshes, and the provider file parser.

**Release scripts** (`ManifestBlocks`, `ManifestReading`, `ManifestRequirements`,
`ManifestEntries`, `ManifestSetting`, `ManifestRewrite`, `ManifestWriter`, `ManifestBraces`,
`CargoVersion`, `CargoReading`, `CargoLineEnds`, `VersionReading`, `VersionFollowing`,
`VersionCapture`, `VersionKeeping`, `Workspace`, `WorkspaceReport`, `WorkspaceOrder`). The block
scanner, the reader and setter of a requirement, the reverse splicing, the package version and
what rewriting requirements does to it, and the loop over a workspace.

**OIDC** (`Redirect`, `OidcLogin`, `OidcHistory`, `OidcService`, `DevicePolling`). Logins, callbacks and expiry
as interleaving steps; the same callback as one method on a store and a session object; redirect
resolution; the polling loop against a clock.

**Delimited lists** (`JsonString`, `JsonReading`, `Delimited`). JSON string literals, the two list parsers and
their printer, and OAuth scopes.

`Wrappers`, `Sequences`, `StringOrder`, `Text` and `Characters` hold shared helpers.

## Parameters and assumptions

- Clock readings, drawn ids, password and token hashes, base64, `semver.parse`, IP and RFC 7239
  parsing, regular expressions of redirect rules and URI syntax are parameters. A mutation reads
  one time; in the program each entry that is touched reads the clock again.
- The store's content hash is injective and parsing undoes rendering (`Lawful` in
  `StoreProtocol`). Two parsers are kept apart, because the program has two: a writer takes a
  file of Unicode whitespace for an empty one, loading and reloading only one of ASCII whitespace.
- The address parser of the real-IP resolver can read two different addresses (`Discerning` in
  `RealIpResolve`).
- A requirement (`~` and a version) is not itself a version (`semver(RequirementFor(version))` in
  `Workspace`).
- State tokens of logins need not be unique: `ConsumedAtMostOnce` is stated per login, and per
  token when tokens are distinct.
- Text is a sequence of Unicode scalar values. JavaScript counts offsets in UTF-16 code units;
  offsets here count characters, and the scripts only use offsets they computed themselves.
- A sleep lasts at least as long as asked, and elapsed time never decreases (`Timely`).

## What does not hold, and exactly when it does

- A snapshot can stay old although its writer has answered and one whole reload pass has followed
  (`StaleAfterOnePass`); two passes always suffice (`TwoPassesConverge`), one does exactly when
  the marker was not left for that content or they agreed already (`OnePassConverges`).
- An editor's change between a writer's read and its commit can be lost (`EditBehindLockIsLost`),
  because the advisory lock binds only other stores. In every run nothing is lost exactly as long
  as each commit finds a file that its mutation does not tell from the one its call had read
  (`StoreLinearizable.NothingLostIff`); among stores alone nothing ever is
  (`NoLostUpdatesAmongStores`).
- Overlapping refreshes of two providers can lose one of them (`OverlapLosesARefresh`). Nothing is
  lost exactly as long as each publication is made on a state that agrees with the one it
  replaces, off its own provider (`ProviderRegistry.NothingLostIff`).
- A mutation keeps the data file integral exactly when the ids it drew are new
  (`MutationKeepsIntegrity`); `create_group` then `delete_group` restores exactly when the id was
  in use nowhere (`CreateThenDelete`).
- Printed lists survive exactly without commas and without whitespace from U+0020 on. U+0085 is
  a control character but is not escaped, so it is lost (`NextLineIsLost`).
- A rewritten manifest scans into its updated blocks exactly when the braces inside replaced
  version values cancel out, or, for a block that ends the file, when its new braces do not close
  it before (`RewriteRescans`); otherwise a mismatch can be left (`UnmatchedBraceLeavesMismatch`).
- Rewriting requirements can hide the package version: a stale block inside `[package]` before the
  version line whose new entry begins a line is read in its place. A manifest reads its version
  afterwards exactly when it does so with its stale entries blanked out and none of them stands in
  such a place (`RewriteKeepsVersionIff`, `SetLeavesNoMismatchIff`); `SetSucceedsThenReportFails`
  shows a workspace where setting succeeds and the report then fails.
- A callback can answer with an error and yet leave a session, exactly when the redirect its login
  asked for is refused (`ErrorLeavesSessionIff`).
- Writing another package version replaces the version line and no other character exactly when
  the file does not mix CRLF and bare LF (`OnlyVersionLineChangesIff`); in a file that does, the
  bare LFs become CRLF (`MixedLineEndsChange`).

## Model

| member | source | states |
|---|---|---|
| `CredsIntegrity.MutationKeepsIntegrity` | packages/creds-manage/src/store.rs:173-314 | every successful mutator on an integral file (ids and names distinct, group references valid) gives an integral file if and only if each id it drew was new |
| `CredsIntegrity.CreateBasicIntegral` | packages/creds-manage/src/store.rs:173-202 | creating a basic entry keeps integrity exactly for a new entry id |
| `CredsIntegrity.CreateTokenIntegral` | packages/creds-manage/src/store.rs:204-230 | creating a token entry keeps integrity exactly for a new entry id |
| `CredsIntegrity.UpdateEntryIntegral` | packages/creds-manage/src/store.rs:232-288 | updating an entry keeps integrity |
| `CredsIntegrity.DeleteEntryIntegral` | packages/creds-manage/src/store.rs:290-314 | deleting an entry keeps integrity |
| `CredsIntegrity.DeleteEntryRemoves` | packages/creds-manage/src/store.rs:290-314 | delete succeeds exactly on an existing id, and removes that id only |
| `CredsIntegrity.CreateGroupIntegral` | packages/creds-manage/src/store.rs:371-429 | creating a group keeps integrity exactly for a new group id |
| `CredsIntegrity.UpdateGroupIntegral` | packages/creds-manage/src/store.rs:431-496 | updating a group keeps integrity |
| `CredsIntegrity.DeleteGroupIntegral` | packages/creds-manage/src/store.rs:498-531 | deleting a group keeps integrity, so no entry refers to it, and removes that group id only |
| `CredsEntries.RefusedAtOnce` | packages/creds-manage/src/store.rs:70-108 | a call is refused before any lock, with that message, exactly if it sets a username that trims to nothing or else an empty password |
| `CredsEntries.FirstMissingIsFirst` | packages/creds-manage/src/store.rs:587-596 | the id reported as unknown is the first unknown one |
| `CredsEntries.CreateBasicExactly` | packages/creds-manage/src/store.rs:173-202 | a basic entry is created exactly if no entry carries the name, every group exists and hashing works; it is added at the end with that username, that hash and that metadata; otherwise nothing changes and the first thing wrong is named |
| `CredsEntries.CreateTokenExactly` | packages/creds-manage/src/store.rs:204-230 | the same for a token entry, which stores the token's hash and answers the token |
| `CredsEntries.UpdateEntryExactly` | packages/creds-manage/src/store.rs:232-288 | an update succeeds exactly if the new name is no other entry's, every new group and the entry exist, and a basic entry's new password hashes; the entry then has the given username, name and groups or its old ones, and the new hash exactly if a password was given; every other entry and every token hash is unchanged |
| `CredsEntries.UpdateEntryReply` | packages/creds-manage/src/store.rs:232-288 | what a failing update says, in the order it asks, and that a successful one answers the entry as it now is |
| `CredsEntries.DeleteEntryExactly` | packages/creds-manage/src/store.rs:290-314 | deletion succeeds exactly on a known id and leaves exactly the entries with other ids; otherwise nothing changes |
| `CredsEntries.CreateGroupExactly` | packages/creds-manage/src/store.rs:371-429 | a group is created exactly if its name is free and every selected entry exists; exactly the selected non-members join, at the end of their list and with a new time stamp |
| `CredsEntries.UpdateGroupAllowed` | packages/creds-manage/src/store.rs:431-496 | an update succeeds exactly if no other group has the name and the selected entries and the group exist; it renames the first group with the id and no other |
| `CredsEntries.DeleteGroupExactly` | packages/creds-manage/src/store.rs:498-531 | deletion succeeds exactly on a known group; every entry leaves that group only, stamped exactly if it was a member |
| `CredsGroups.SetMembershipExact` | packages/creds-manage/src/store.rs:603-616 | the target group is joined or left as asked, every other membership stays, and the time stamp moves exactly when the list changes |
| `CredsEntries.MembershipOrdered` | packages/creds-manage/src/store.rs:603-616 | an entry made a member has its groups in strict lexicographic order, so each once; one taken out keeps the order of the others |
| `CredsGroups.SetMembershipTwice` | packages/creds-manage/src/store.rs:603-616 | setting a membership again changes nothing |
| `CredsGroups.UpdateGroupExact` | packages/creds-manage/src/store.rs:431-496 | members of the target are exactly the selected entries, or the previous ones when none were given; all else is as before |
| `CredsGroups.UpdateGroupTwice` | packages/creds-manage/src/store.rs:431-496 | a second identical call changes nothing, time stamps included, and answers the same |
| `CredsGroups.CreateThenDelete` | packages/creds-manage/src/store.rs:371-531 | create then delete of a group restores the file up to time stamps of touched entries if and only if the id was unused |
| `CredsGroups.CreateThenDeleteIntegral` | packages/creds-manage/src/store.rs:371-531 | in an integral file this holds for every group with a fresh id |
| `WorkingCopy.FirstUnknown` | packages/creds-manage/src/store.rs:563-601 | the validation loop returns the first unknown id, in order |
| `WorkingCopy.JoinEach` | packages/creds-manage/src/store.rs:371-429 | the membership loop of create equals joining every selected entry at once |
| `WorkingCopy.AssignEach` | packages/creds-manage/src/store.rs:431-496 | the membership loop of update equals assigning every entry at once |
| `WorkingCopy.LeaveEach` | packages/creds-manage/src/store.rs:498-531 | the membership loop of delete equals leaving for every entry at once |
| `WorkingCopy.Copy.UpdateEntry` | packages/creds-manage/src/store.rs:232-288 | the in-place update gives the value and answer of the mutator, also when hashing fails after a field was changed, and on success edits one entry as `UpdateEntryExactly` says |
| `WorkingCopy.Copy.EditEntry` | packages/creds-manage/src/store.rs:243-287 | field by field, with the copy half changed when hashing fails |
| `WorkingCopy.Copy.CreateGroup` | packages/creds-manage/src/store.rs:371-429 | the in-place creation gives the value and answer of the mutator |
| `WorkingCopy.Copy.UpdateGroup` | packages/creds-manage/src/store.rs:431-496 | the in-place update gives the value and answer of the mutator |
| `WorkingCopy.Copy.DeleteGroup` | packages/creds-manage/src/store.rs:498-531 | the in-place deletion gives the value and answer of the mutator |
| `WorkingCopy.Copy.Run` | packages/creds-manage/src/store.rs:173-531 | any mutation closure run on the copy is the mutator applied to its old value |
| `StoreProtocol.SnapshotsWereOnDisk` | packages/creds-manage/src/store.rs:713-872 | under every interleaving, each snapshot of each store is the parse of bytes the file has held |
| `StoreSafety.EverySnapshotIntegral` | packages/creds-manage/src/store.rs:713-872 | if the file starts integral and editors write only integral content, every snapshot ever loaded is integral |
| `StoreSafety.FailedCallTouchesNothing` | packages/creds-manage/src/store.rs:829-872 | no step of a call that failed changed the disk, a snapshot or a marker; what it does to the locks is `LocksHeldExactly` |
| `StoreLocks.LocksHeldExactly` | packages/creds-manage/src/store.rs:173-872 | in every reachable state a call holds its store's mutex if and only if it is still awaited and between entering and returning, and the file lock if and only if it is between taking it and having written or given up |
| `StoreLocks.EndedCallHoldsNothing` | packages/creds-manage/src/store.rs:173-872 | a call that has answered, failed or been dropped holds neither lock |
| `StoreLocks.EntersExactlyWhenFree` | packages/creds-manage/src/store.rs:173-531 | a valid waiting call can enter exactly when no awaited call of its store is inside |
| `StoreLocks.CallsGetOn` | packages/creds-manage/src/store.rs:798-872 | no deadlock: while a call has not ended some call can take its next step, or is to draw other ids |
| `StoreLocks.EachStepAdvances` | packages/creds-manage/src/store.rs:798-872 | each step of a call brings it closer to its end, which is at most nine steps away |
| `StoreLocks.CommitIsWhatWasRun` | packages/creds-manage/src/store.rs:829-872 | a commit writes what the closure made of the data the call had loaded, and logs its answer |
| `StoreLocks.CallPublishesItsCommit` | packages/creds-manage/src/store.rs:829-872 | a call marks its store with the hash of exactly the bytes it committed, publishes there exactly the data they parse to, and touches no other store |
| `StoreReads.FailureHasReason` | packages/creds-manage/src/store.rs:798-872 | in every run a failed call was refused for its arguments, by its mutator on data the file has held, because the file held something unreadable, or by a failing file system, and says which |
| `StoreReads.OpenReadsFile` | packages/creds-manage/src/store.rs:111-132 | a store that is opened holds what the file then holds, unmarked and unlocked, and changes nothing else |
| `StoreReads.WholePass` | packages/creds-manage/src/store.rs:713-742 | a pass that nothing interrupts drops the marker and keeps the snapshot if the content is the marked one, keeps both if the file cannot be read, and else takes what the file holds; nothing else changes |
| `StoreSafety.EditBehindLockIsLost` | packages/creds-manage/src/store.rs:798-872 | for every mutation and any two contents there is a run in which an edit between read and commit is lost, unless the mutation does not tell the two contents apart |
| `StoreLinearizable.WritersExclude` | packages/creds-manage/src/store.rs:798-872 | at most one call, over all stores, is between taking and releasing the file lock |
| `StoreLinearizable.NoLostUpdates` | packages/creds-manage/src/store.rs:798-872 | while no edit has fallen between a writer's read and its commit, the file is the initial content with all commits applied in log order, and every answer is the one that order gives |
| `StoreLinearizable.NoLostUpdatesAmongStores` | packages/creds-manage/src/store.rs:798-872 | in every run without editors this holds unconditionally |
| `StoreLinearizable.CommitFaithfulIff` | packages/creds-manage/src/store.rs:829-872 | in every reachable state a commit keeps it if and only if the mutation does on the file as it is what it did on the file as it was read |
| `StoreLinearizable.NothingLostIff` | packages/creds-manage/src/store.rs:798-872 | it holds at every moment of a run if and only if every commit of the run is of that kind |
| `StoreLinearizable.ExactlyOnceOrNotAtAll` | packages/creds-manage/src/store.rs:829-872 | a call that answered Ok has exactly one commit, made while it was in progress and carrying its answer; a failed call has none |
| `StoreLinearizable.RealTimeOrder` | packages/creds-manage/src/store.rs:798-872 | if a call's answer comes before another call is made in the run, its commit precedes the other's in the log |
| `StoreConvergence.TwoPassesConverge` | packages/creds-manage/src/store.rs:713-742 | with no writer and a stable readable file, two passes make the snapshot the parse of the file from any snapshot and marker, and nothing changes it afterwards |
| `StoreConvergence.OnePassConverges` | packages/creds-manage/src/store.rs:713-742 | one pass suffices if and only if the marker is not for that content or they agree already |
| `StoreConvergence.SettledForever` | packages/creds-manage/src/store.rs:713-742 | once settled, any number of further passes change nothing |
| `StoreConvergence.StaleAfterOnePass` | packages/creds-manage/src/store.rs:713-742 | for every mutation that changes the data there is a run after which a whole pass still leaves the old snapshot |
| `StoreAccess.AcceptedTokenWasOnDisk` | apps/server/src/routes/forward_auth.rs:149-261 | a token let in, its reads falling at any three moments of a run, was in a group with that name in contents the file has held |
| `StoreAccess.DeletedGroupIsShutOut` | packages/creds-manage/src/store.rs:498-742 | once the file holds the outcome of a group deletion, two passes later nobody is let in under that name |
| `ForwardAuth.CheckForwardAuth` | apps/server/src/routes/forward_auth.rs:149-261 | the decision with hash-map validators and its failure stage equals the decision by plain scans, which `BasicAnswer`, `BearerAnswer` and `DenialReasons` spell out |
| `ForwardAuth.TryCredentials` | apps/server/src/routes/forward_auth.rs:194-261 | basic before bearer, with the failure stage of a broken hash, equals judging the group's members by scans |
| `ForwardAuth.UserIndexIsScan` | packages/creds/src/validator.rs:41-60 | the map by username holds the last entry with that name |
| `ForwardAuth.HashIndexIsScan` | packages/creds/src/validator.rs:88-97 | the map by hash holds the last entry with that hash |
| `ForwardAuth.ValidatorsAreScans` | packages/creds-manage/src/auth.rs:16-51 | both validators answer as scans of the members do |
| `ForwardAuth.OneScheme` | apps/server/src/routes/forward_auth.rs:149-261 | no header is both a basic and a bearer credential |
| `ForwardAuth.TokenAccepted` | apps/server/src/routes/forward_auth.rs:149-261 | a header read as a bearer token is accepted if and only if some entry of the group found by name stores the token's hash, for any three snapshots; `BearerHeaderRead` says which headers those are |
| `ForwardAuth.BasicAccepted` | apps/server/src/routes/forward_auth.rs:149-261 | a basic pair is accepted if and only if the last entry of the group with that username verifies |
| `ForwardAuth.NothingElseAccepted` | apps/server/src/routes/forward_auth.rs:149-261 | no header, or one of neither scheme, is always denied |
| `ForwardAccess.BearerHeaderRead` | packages/creds/src/token.rs:3-14 | a header carries a bearer token if and only if it is the word in any case, a blank, and the token inside whitespace |
| `ForwardAccess.BasicPairRead` | packages/creds/src/basic.rs:15-30 | a header carries a username and a password if and only if it is the word in any case, a blank, and inside whitespace a text that decodes to them joined by the first colon |
| `ForwardAccess.BasicAnswer` | apps/server/src/routes/forward_auth.rs:149-261 | a basic pair is answered by the last entry of the group with its username: let in under that entry's name if the password verifies, refused if not, refused with the failure stage if the hash is broken |
| `ForwardAccess.BearerAnswer` | apps/server/src/routes/forward_auth.rs:149-261 | a token is let in as bearer, under the name of an entry of the group that stores its hash |
| `ForwardAccess.DenialReasons` | apps/server/src/routes/forward_auth.rs:149-261 | no such group, a group without entries and a missing header are told apart, each reason if and only if it holds and none before it does; the scheme answered is the one of the header |
| `ForwardAccess.TokenHeaderAccepted` | apps/server/src/routes/forward_auth.rs:149-261 | in an integral snapshot a header that spells a token is let in if and only if some entry in a group of that name stores its hash |
| `ForwardAccess.CreatedUserAdmitted` | packages/creds-manage/src/store.rs:173-202 | the user of a new basic entry is let in, in each of its groups and under its name, exactly with a password that verifies against the stored hash |
| `ForwardAccess.UpdatedUserAdmitted` | packages/creds-manage/src/store.rs:232-288 | after an update a basic pair for that user is let in exactly if it verifies against the new hash when a password was given, and the old one otherwise |
| `ForwardAccess.CreatedTokenHeader` | packages/creds-manage/src/store.rs:204-230 | the token handed out, written after the word and a blank, is let in for every group of its entry |
| `ForwardAuth.TokenAcceptedIntegral` | packages/creds-manage/src/auth.rs:35-51 | in an integral snapshot a token is accepted exactly if some entry in the group of that name stores its hash |
| `ForwardAuth.UpdateGroupGrants` | packages/creds-manage/src/store.rs:431-496 | after an update with a selection the decision under the new name accepts exactly the selected entries' tokens |
| `ForwardAuth.DeleteGroupRevokes` | packages/creds-manage/src/store.rs:498-531 | after a group deletion nothing is accepted under its name |
| `ForwardAuth.DeleteEntryRevokes` | packages/creds-manage/src/store.rs:290-314 | after an entry deletion the decision accepts a token exactly where another entry of the group holds it |
| `ForwardAuth.CreatedTokenAdmitted` | packages/creds-manage/src/store.rs:204-230 | the decision accepts the token handed out for every group the entry was created in |
| `RealIpChain.ResolveFromChain` | packages/realip/src/resolve.rs:296-318 | the loop in either direction equals the recursive walk |
| `RealIpChain.WalkFinds` | packages/realip/src/resolve.rs:296-318 | the answer is the untrusted address with only trusted ones to its right, the leftmost if all are trusted, none exactly for the empty chain |
| `RealIpChain.PrefixIrrelevantIff` | packages/realip/src/resolve.rs:296-318 | no prefix of a chain can change the answer if and only if the chain holds an untrusted address |
| `RealIpChain.WalksMirror` | packages/realip/src/resolve.rs:296-318 | left to right is right to left on the reversed chain |
| `RealIpChain.DedupTrusted` | packages/realip/src/resolve.rs:200-215 | the set-guarded loop keeps the first occurrence of every network |
| `RealIpChain.FirstOccurrencesDistinct` | packages/realip/src/resolve.rs:200-215 | no network is kept twice |
| `RealIpChain.DedupSameWalk` | packages/realip/src/resolve.rs:200-318 | and every chain is answered the same |
| `RealIpResolve.ParseForwardedFor` | packages/realip/src/resolve.rs:253-294 | the loop collects the `for` nodes that are addresses, in order |
| `RealIpResolve.ResolveHeaders` | packages/realip/src/resolve.rs:160-192 | the loop returns the first configured header that yields an address |
| `RealIpResolve.CompileSources` | packages/realip/src/resolve.rs:102-129 | the compiled list is the configured one with each provider's snapshot as it stood when it was read, stably sorted by descending priority |
| `RealIpResolve.ResolveRequest` | packages/realip/src/resolve.rs:67-100 | the loops over sources, headers and nodes with their early returns give the answer that `ResolveAnswers` describes, over the snapshots as they were read one by one |
| `RealIpResolve.SortedWalkSelects` | packages/realip/src/resolve.rs:67-130 | walking the sorted sources selects the yielding one of highest priority, ties by configuration order |
| `RealIpResolve.SelectedIsBest` | packages/realip/src/resolve.rs:67-130 | the selected source yields, none of higher priority does, and none of equal priority before it |
| `RealIpResolve.ResolveSelects` | packages/realip/src/resolve.rs:67-192 | the answer is what the yielding source of highest priority yields, the first configured among equals, or the peer if none yields; `YieldAnswers` says what a source yields |
| `RealIpAnswers.ContainsBlock` | packages/realip/src/resolve.rs:196-215 | a network holds exactly the block of 2^(32 - prefix), or 2^(128 - prefix), addresses of its family from its base with the low bits cleared |
| `RealIpAnswers.ContainsAgrees` | packages/realip/src/resolve.rs:196-215 | that is, the addresses that agree with its base once the bits behind the prefix are dropped one by one |
| `RealIpAnswers.LowerAlike` | packages/realip/src/resolve.rs:102-192 | two header or transport names are alike exactly if they differ in the case of ASCII letters only |
| `RealIpResolve.ChainJoins` | packages/realip/src/resolve.rs:241-251 | an X-Forwarded-For value is read comma by comma |
| `RealIpAnswers.ChainOfOne` | packages/realip/src/resolve.rs:241-251 | and between commas as the address its trimmed text spells, or nothing |
| `RealIpAnswers.ForwardedNode` | packages/realip/src/resolve.rs:253-274 | each node of a Forwarded header adds the address of its `for` value, if there is one, in order |
| `RealIpAnswers.ForwardedIpRead` | packages/realip/src/resolve.rs:276-294 | a `for` value is the address its text spells without whitespace, quotes and a pair of brackets; failing that the address before the last colon; failing that nothing |
| `RealIpAnswers.WalkReaches` | packages/realip/src/resolve.rs:296-318 | in either direction the walk returns an address if and only if everything before it is trusted and it is untrusted or the last |
| `RealIpAnswers.CandidateOffers` | packages/realip/src/resolve.rs:160-240 | a header offers an address if and only if its trimmed value spells it, or the walk over its chain is after it, and it is untrusted where that is demanded |
| `RealIpAnswers.YieldAnswers` | packages/realip/src/resolve.rs:133-192 | a source answers if and only if the peer is in one of its networks and it accepts the announced transport address, which is then the answer, or else some header offers one, the first of which is the answer; the answer names the peer, the source and the header |
| `RealIpAnswers.ResolveAnswers` | packages/realip/src/resolve.rs:67-192 | the resolver returns the answer of the answering source of highest priority, the first configured among equals, and the peer itself if no source answers |
| `RealIpAnswers.CompiledFrom` | packages/realip/src/resolve.rs:102-129 | a compiled source keeps name, priority and headers, accepts a transport written in any case, and holds exactly the networks of its providers that had a snapshot when they were read |
| `RealIpResolve.UnknownPeerIsItself` | packages/realip/src/resolve.rs:67-100 | if no source matches the peer, the answer is the peer for all headers and transports |
| `RealIpResolve.ReorderingIrrelevant` | packages/realip/src/resolve.rs:102-130 | reordering sources without swapping equal priorities never changes an answer |
| `RealIpResolve.ForgedHeaderIrrelevantIff` | packages/realip/src/resolve.rs:226-318 | nothing a client puts in front of the X-Forwarded-For value its proxies append to changes what the walk finds, if and only if they appended an untrusted address |
| `RealIpResolve.ForgedPrefixChangesNothing` | packages/realip/src/resolve.rs:67-318 | then, with every source that reads the header walking it from the right, no answer of the resolver changes |
| `ProviderRegistry.FlattenOrderIrrelevant` | packages/realip/src/providers.rs:362-367 | the derived list is the multiset union of the per-provider lists, whatever the iteration order |
| `ProviderRegistry.PublishedStateConsistent` | packages/realip/src/providers.rs:175-227 | in every published state the index is that union and each list is a non-empty result of some load of its provider |
| `ProviderRegistry.OneAtATime` | packages/realip/src/providers.rs:175-360 | in a run of whole refreshes each list is the output of its provider's last effective load, absent exactly if that load gave none |
| `ProviderRegistry.LatestLoadStands` | packages/realip/src/providers.rs:175-360 | in a run of whole refreshes a provider holds exactly what its last refresh that gave networks or clears on failure gave, nothing if that gave none, and what it held at first if there was none |
| `ProviderRegistry.WholeRefresh` | packages/realip/src/providers.rs:175-193 | a refresh that nothing interrupts puts its load, removes its provider after a failure under `Clear`, and changes nothing otherwise |
| `ProviderRegistry.WholeRefreshRuns` | packages/realip/src/providers.rs:175-193 | every refresh can be carried through, whatever it loads, and is then finished |
| `ProviderRegistry.PublishKeepsAllIff` | packages/realip/src/providers.rs:341-360 | a publication leaves what all publications in order give if and only if the state it had read agrees with theirs, off its own provider |
| `ProviderRegistry.FoldIsLastChange` | packages/realip/src/providers.rs:341-360 | all publications in order give a state if and only if it holds, for every provider, the last publication about it |
| `ProviderRegistry.NothingLostIff` | packages/realip/src/providers.rs:341-360 | at every moment of a run every provider holds its last publication if and only if every base agreed with the state it replaced, off the published provider |
| `ProviderRegistry.OverlapLosesARefresh` | packages/realip/src/providers.rs:341-360 | when both have read before either publishes only the second remains; the first is lost exactly if they refresh different providers and it changed something |
| `ProviderFile.ParseLine` | packages/realip/src/providers.rs:318-339 | the inner loop adds one line's networks, or stops at its first bad entry |
| `ProviderFile.ParseEntries` | packages/realip/src/providers.rs:318-339 | the nested loops parse the entries of the text in order, or report the first bad one |
| `ProviderFile.ParseListExactly` | packages/realip/src/providers.rs:318-339 | the entries parse if and only if each does, to their networks in order; otherwise the first that does not is reported |
| `ProviderFile.BareAddressIsItself` | packages/realip/src/config.rs:455-461 | a bare address stands for the network that holds it and nothing else |
| `ProviderFile.ParseJoin` | packages/realip/src/providers.rs:318-339 | two texts joined by a newline parse to the concatenation, or fail on the leftmost bad entry |
| `ProviderFile.CommentIrrelevant` | packages/realip/src/providers.rs:318-339 | a comment changes nothing |
| `ProviderFile.BlankLineIrrelevant` | packages/realip/src/providers.rs:318-339 | a blank line changes nothing |
| `ProviderFile.SeparatorsIrrelevant` | packages/realip/src/providers.rs:318-339 | whatever runs of commas and blanks stand before, between and after them, the same entries are read |
| `ProviderFile.SeparatorIs` | packages/realip/src/providers.rs:318-339 | entries are cut at commas, blanks, tabs, form feeds and line breaks |
| `Characters.WhiteSpace` | packages/realip/src/providers.rs:318-339 | whitespace is the 25 characters of the Unicode property; the ASCII test takes five of them, JavaScript all but U+0085 and U+FEFF besides |
| `ManifestBlocks.FindEnd` | scripts/lib/manifest-version.ts:276-315 | the brace-counting loop stops behind the matching brace, or at the end |
| `ManifestBlocks.BlockLengthIs` | scripts/lib/manifest-version.ts:276-315 | a block has a given length if and only if it closes there and not before, or never closes and ends with the file |
| `ManifestBlocks.CollectBlocks` | scripts/lib/manifest-version.ts:276-315 | the scanning loops record the blocks of the layout at their offsets; which blocks those are is `ManifestScanned` |
| `ManifestReading.DependencyNameRead` | scripts/lib/manifest-version.ts:276-315 | a dependency name is read if and only if the text is whitespace, `securitydept-` and one or more letters, digits and hyphens, whitespace, `=`, whitespace and an opening brace |
| `ManifestReading.FindStartFirst` | scripts/lib/manifest-version.ts:276-315 | the search returns the first position at the start of a line where the pattern matches, and none only if there is none |
| `ManifestReading.BlockEndsFirst` | scripts/lib/manifest-version.ts:276-315 | a block runs through the first closing brace that balances the opening ones, or to the end of the file |
| `ManifestReading.ManifestScanned` | scripts/lib/manifest-version.ts:276-315 | for every file, each header at the start of a line starts a recorded block of its name or stands inside one, and each recorded block starts with such a header and ends as said |
| `ManifestBlocks.ScanKeepsText` | scripts/lib/manifest-version.ts:276-315 | gaps and blocks together are the file |
| `ManifestBlocks.HeaderLocal` | scripts/lib/manifest-version.ts:276-315 | whether a block starts is decided by the text through the first opening brace |
| `ManifestRequirements.EntryReads` | scripts/lib/manifest-version.ts:317-324 | a written entry is matched with its own value, behind any whitespace |
| `ManifestEntries.VersionEntryRead` | scripts/lib/manifest-version.ts:317-324 | an entry is read if and only if the text is `version`, `=` and a quoted value without quotes, whitespace before each |
| `ManifestEntries.FindEntryFirst` | scripts/lib/manifest-version.ts:317-355 | the first place is taken: the start of the text, or behind a brace, a comma or a line feed; none only if there is none |
| `ManifestEntries.RequirementRead` | scripts/lib/manifest-version.ts:317-324 | the requirement of a block is the value at that place |
| `ManifestEntries.SetExactly` | scripts/lib/manifest-version.ts:326-355 | the first entry is replaced where it stands, behind its own whitespace; without one a new entry and a comma go behind the first opening brace, after a blank if the block has no line end and else on a line indented by four more than the block |
| `ManifestEntries.IncludesMeans` | scripts/lib/manifest-version.ts:44-76 | the word stands at some position of the text |
| `ManifestEntries.MismatchReported` | scripts/lib/manifest-version.ts:44-76 | a block is reported, with its name and requirement, if and only if its dependency is managed, it holds a path and requires something else |
| `ManifestRequirements.ReplaceFound` | scripts/lib/manifest-version.ts:326-355 | replacing the leftmost entry makes the new one the leftmost |
| `ManifestSetting.SetReads` | scripts/lib/manifest-version.ts:317-355 | the reader returns the requirement that was set, whether it was replaced or inserted |
| `ManifestSetting.SetDescribed` | scripts/lib/manifest-version.ts:326-355 | only a version entry behind the opening brace is replaced or inserted |
| `ManifestSetting.SetKeepsBraces` | scripts/lib/manifest-version.ts:326-355 | the block closes where it did if the braces of the old value cancel out |
| `ManifestSetting.SetMovesBraces` | scripts/lib/manifest-version.ts:326-355 | and only then, for a block that closed |
| `ManifestWriter.SpliceBlocks` | scripts/lib/manifest-version.ts:78-125 | splicing from the last block to the first at the original offsets equals updating all at once |
| `ManifestWriter.WriteRequirements` | scripts/lib/manifest-version.ts:78-125 | the written text is that simultaneous update, of which `WriteIsLocal` says what changes, and the count the number of mismatches, of which `MismatchReported` says which they are |
| `ManifestWriter.RewriteRescans` | scripts/lib/manifest-version.ts:78-125 | for every file, the rewritten one scans into the same gaps and names with the updated blocks if and only if the replaced braces cancel out (for a block ending the file: do not close it before) |
| `ManifestWriter.WriteSettles` | scripts/lib/manifest-version.ts:44-125 | after a write no mismatch is reported and a second write changes nothing |
| `ManifestWriter.NoMismatches` | scripts/lib/manifest-version.ts:44-76 | no mismatch is reported exactly when no managed block with a path has another requirement |
| `ManifestWriter.WriteIsLocal` | scripts/lib/manifest-version.ts:78-125 | every character outside rewritten blocks stays; inside one only the version entry is replaced, or inserted with a comma behind whitespace |
| `ManifestBraces.UnmatchedBraceLeavesMismatch` | scripts/lib/manifest-version.ts:78-125 | for every file of this shape, with an unmatched brace in a value, the write leaves a mismatch |
| `ManifestBraces.SuchAFileExists` | scripts/lib/manifest-version.ts:78-125 | a file of this shape |
| `CargoVersion.LinesJoined` | scripts/lib/manifest-version.ts:213-240 | joining and splitting again gives the same lines |
| `CargoVersion.ReadPackageVersion` | scripts/lib/manifest-version.ts:246-267 | the loop returns the value of the first version line inside `[package]` |
| `CargoReading.VersionIndexFirst` | scripts/lib/manifest-version.ts:246-267 | the version line is the first line that trims to `version = …` under a `[package]` header with no other header between; there is none only if no line is such |
| `CargoReading.PackageVersionRead` | scripts/lib/manifest-version.ts:246-267 | the package version is the JSON string on that line, whitespace aside, and missing if and only if there is no such line |
| `CargoReading.VersionLineWritten` | scripts/lib/manifest-version.ts:231-232 | the written line keeps the indentation and states the version |
| `CargoReading.VersionKeptOrRefused` | scripts/lib/manifest-version.ts:195-244 | a file with the version already is not changed; a write succeeds if and only if the current version can be read and parsed |
| `CargoVersion.WriteVersion` | scripts/lib/manifest-version.ts:195-244 | the loop replaces exactly that line, or nothing if the version is the same |
| `CargoVersion.VersionWritten` | scripts/lib/manifest-version.ts:195-267 | after a write the reader returns the written version and every other line, without its line end, is unchanged and in order |
| `CargoLineEnds.SplitThenJoin` | scripts/lib/manifest-version.ts:213-240 | splitting a file into lines and joining them gives it back if and only if it does not mix CRLF and bare LF |
| `CargoLineEnds.OnlyVersionLineChangesIff` | scripts/lib/manifest-version.ts:195-244 | a write of another version replaces the version line and no other character if and only if the file does not mix them |
| `CargoLineEnds.MixedLineEndsChange` | scripts/lib/manifest-version.ts:195-244 | a file that does: the LF behind the version line becomes CRLF |
| `Workspace.WritePackage` | scripts/lib/version.ts:91-124 | one package: its version, then if published its requirements; a missing or unreadable manifest is an error |
| `Workspace.SetWorkspaceVersion` | scripts/lib/version.ts:91-124 | the loop sets the packages in turn and stops at the first failure with the files written so far |
| `WorkspaceReport.PackageSet` | scripts/lib/version.ts:91-124 | a package fails if and only if its manifest is missing or cannot be rewritten; otherwise that file and no other is changed |
| `WorkspaceReport.ManifestSet` | scripts/lib/version.ts:91-124 | rewriting succeeds if and only if the version can be read; an unpublished package gets its version and no more, a published one then its requirements set to `~` and the version |
| `WorkspaceReport.SetStopsAt` | scripts/lib/version.ts:91-124 | when setting fails, everything before the first failing package has been set and nothing behind it touched |
| `WorkspaceReport.ReportExactly` | scripts/lib/version.ts:22-67 | a report is made if and only if every manifest can be read, and holds exactly the manifests with another version and the mismatched dependencies of published ones |
| `WorkspaceReport.FirstTroubleNamed` | scripts/lib/version.ts:22-67 | otherwise the first manifest that cannot be read is named |
| `VersionReading.ReadAllIs` | scripts/lib/manifest-version.ts:246-267 | reading character by character gives what splitting into lines and searching them gives |
| `VersionKeeping.RewrittenVersion` | scripts/lib/manifest-version.ts:78-267 | for every manifest, the version read after a rewrite is the one read with the stale entries blanked out if none of them stands in the reader's way, and the requirement or none if one does |
| `VersionKeeping.RewrittenPlainly` | scripts/lib/manifest-version.ts:78-267 | if each stale entry stands on one line nothing need be blanked out |
| `Workspace.RewriteKeepsVersionIff` | scripts/lib/version.ts:91-124 | every manifest reads the version after its rewrite if and only if it does with its stale entries blanked out and none of them stands, inside `[package]` before the version is found, at the start of a line or on a version line |
| `Workspace.PlainlyKeepsVersionIff` | scripts/lib/version.ts:91-124 | for stale entries on one line each the second half alone decides |
| `Workspace.SetLeavesNoMismatch` | scripts/lib/version.ts:22-124 | after the workspace was set no manifest and no managed dependency is reported, if published manifests have balanced values and keep their version in this sense |
| `WorkspaceReport.WorkspaceSettled` | scripts/lib/version.ts:22-124 | then every manifest reads the version, and in a published one every dependency by path on a published package requires `~` and the version |
| `Workspace.SetLeavesNoMismatchIff` | scripts/lib/version.ts:22-124 | with balanced values, nothing is reported if and only if every published manifest keeps its version |
| `WorkspaceOrder.BlockBeforeVersionBreaksReading` | scripts/lib/version.ts:91-124 | with a multi-line block before the version line inside `[package]`, the version can no longer be read |
| `WorkspaceOrder.SetSucceedsThenReportFails` | scripts/lib/version.ts:22-124 | such a manifest reads its version, setting it succeeds, and collecting mismatches then fails |
| `WorkspaceOrder.SuchAFileExists` | scripts/lib/version.ts:22-124 | such a manifest |
| `Redirect.ResolvesExactlySanctioned` | packages/utils/src/redirect.rs:188-239 | a target can be resolved if and only if it is well-formed and the default or, with dynamic targets enabled, matched by a rule |
| `Redirect.ResolvesRequest` | packages/utils/src/redirect.rs:188-239 | a requested target resolves to itself if and only if targets may be requested, it is well-formed and some rule passes it, and never to the default; without one the default resolves; each error says the first thing wrong |
| `Redirect.Validate` | packages/utils/src/redirect.rs:88-122 | exactly the valid configurations pass, and the first rule at fault is named |
| `Redirect.ValidResolves` | packages/utils/src/redirect.rs:88-239 | in a valid configuration the default and every strict target resolve |
| `OidcLogin.ConsumedAtMostOnce` | packages/oidc-client/src/client.rs:193-434 | in every run no login is consumed by two callbacks, and with distinct tokens no token is |
| `OidcLogin.SuccessMatchesLogin` | packages/oidc-client/src/client.rs:386-505 | a successful callback consumed exactly one earlier login with its token, used its nonce and verifier, and redirects where it asked, which is sanctioned |
| `OidcLogin.ReplayRefused` | packages/oidc-client/src/client.rs:408-434 | a consumed token is refused from then on |
| `OidcHistory.PendingIsIssued` | packages/oidc-client/src/client.rs:193-434 | in every run a state token can be redeemed if and only if a login stored it and nothing since has stored, redeemed or expired it; what is stored is that login's |
| `OidcHistory.CallbackFindsItsLogin` | packages/oidc-client/src/client.rs:408-434 | a callback gets past the lookup if and only if it brings such a token and the store works, and else says which was wrong |
| `OidcHistory.SessionExactlyFor` | packages/session-context/src/service.rs:400-516 | in every run a callback has a session for a subject if and only if its code was exchanged, its claims named that subject and its session was cycled and written; every answer is the one its events lead to |
| `OidcLogin.SessionExactlyWhen` | packages/session-context/src/service.rs:400-516 | a callback has established a session exactly when it redirects or fails at the redirect only, and then it fails exactly if the redirect its login asked for is refused |
| `OidcService.PendingStore.Take` | packages/oidc-client/src/pending_store/moka.rs:81-83 | what is taken is returned and gone, all else stays |
| `OidcService.Callback` | packages/session-context/src/service.rs:400-516 | reply, remaining entries, session and session id of one callback, for every answer of its surroundings; the id is renewed whenever the session is filled |
| `OidcService.CallbackIsRun` | packages/session-context/src/service.rs:400-516 | the handler does what the callback's steps do when nothing comes between |
| `OidcService.RefusedRedirectLeavesSession` | packages/session-context/src/service.rs:444-516 | for every login with a refused redirect there is a run that answers with the error and leaves a session |
| `OidcService.ErrorLeavesSessionIff` | packages/session-context/src/service.rs:400-516 | some run answers a login's callback with an error and leaves a session if and only if the redirect it asked for is refused |
| `DevicePolling.PollUntilComplete` | packages/oidc-client/src/client.rs:270-333 | the loop makes exactly the polls the replies and the clock allow |
| `DevicePolling.PollsBounded` | packages/oidc-client/src/client.rs:270-333 | with a timeout there are at most as many polls as seconds, rounded up |
| `DevicePolling.PollsSpaced` | packages/oidc-client/src/client.rs:270-333 | consecutive polls are at least the interval in force apart, never less than a second |
| `DevicePolling.SlowDownsAddUp` | packages/oidc-client/src/client.rs:239-333 | after k slow-downs the interval is the initial one (at least a second) plus 5k seconds, up to saturation (section 3.5 of RFC 8628) |
| `DevicePolling.IntervalNeverShrinks` | packages/oidc-client/src/client.rs:239-333 | the interval never shrinks and is never less than a second |
| `DevicePolling.TokenIsTheReply` | packages/oidc-client/src/client.rs:270-333 | polling ends with a token exactly when a reply in time carried it after replies that all asked to wait |
| `DevicePolling.OutcomeDecided` | packages/oidc-client/src/client.rs:270-333 | polling ends as the first turn says that is too late or does not ask to wait: time-out, token, refusal or failure; every turn before it was polled once |
| `DevicePolling.DecidedOnce` | packages/oidc-client/src/client.rs:270-333 | there is one such turn, so turns and timeout determine the outcome |
| `DevicePolling.SleepFits` | packages/oidc-client/src/client.rs:307-313 | a sleep is the interval, cut short only to end with the timeout |
| `JsonString.QuoteThenUnquote` | packages/utils/src/ser.rs:93-123 | every string survives JSON quoting and reading |
| `JsonReading.LiteralRead` | packages/utils/src/ser.rs:93-123 | a text is read as a string if and only if it is quotes around spellings of its characters: themselves, the eight short escapes, or four hexadecimal digits in either case, paired beyond the basic plane (section 7 of RFC 8259) |
| `JsonReading.CharWritten` | packages/utils/src/ser.rs:93-110 | each character is written as itself, by its short escape, or for other controls by four lower-case hexadecimal digits |
| `Delimited.Serialize` | packages/utils/src/ser.rs:93-110 | the loop prints the quoted items joined by spaces |
| `Delimited.ParsersReadWords` | packages/utils/src/ser.rs:11-57 | both parsers read the words between their delimiters; trimming and filtering add nothing |
| `Delimited.CommaOrSpaceRoundTrip` | packages/utils/src/ser.rs:11-123 | a printed list parses back if and only if no item holds a comma or whitespace from U+0020 on |
| `Delimited.SpaceRoundTrip` | packages/utils/src/ser.rs:42-123 | the same without the comma |
| `Delimited.NextLineIsLost` | packages/utils/src/ser.rs:42-123 | an item of U+0085 does not survive |
| `Delimited.ScopeRoundTrip` | packages/creds/src/jwt.rs:31-42 | a scope survives if and only if each item is non-empty, has no whitespace and is not enclosed in quotes |
| `Delimited.ScopeTokensSurvive` | packages/creds/src/jwt.rs:31-42 | lists of scope-tokens of section 3.3 of RFC 6749 survive |
| `Delimited.ScopeCharIs` | packages/creds/src/jwt.rs:31-42 | scope-tokens are made of visible ASCII without the double quote and the backslash |

## Left out

- SetLeavesNoMismatchIff: leaves out published manifests whose replaced version values have unbalanced braces, of which `RewriteRescans` says exactly what the next scan sees, and a manifest that two packages share while an old entry of it spans several lines, which TOML does not allow.
- Real file locks, atomic rename, file-system events, timers and HTTP: present only as the steps of the models.
- Argon2, SHA-256, base64, UTF-8, JWT and JWE, and the OIDC protocol library: parameters with the few laws that are used.
- The JSON text of the data file: any renderer and parser that undo each other.
- IP address parsing and the Forwarded grammar of RFC 7239: partial functions. Networks are prefixes of bit strings given as numbers.
- The pending store's time-to-live and capacity: an entry may vanish at any step.
- `check_required_scopes` and the claims script: part of the outcome the environment decides.
- Development login without OIDC and `user_info`: they would add only easy members.
- `max_stale` of provider snapshots: stored but not read by the modelled code.
- Node packages in the workspace scripts: `package.json` is rewritten by first textual occurrence; only Cargo manifests are modelled.
- Metadata synchronisation, the release policy behind `parseReleaseVersion`, and the release and docker commands: input and output plumbing.
- Diagnosis fields, error texts, HTTP status mapping and logout: field-wise tables and a plain flush.
- Configuration types and `RealIpResolveConfig::validate`, `cross_mode_config.rs`, the OAuth provider's shared runtime: table lookups.
- The web interface and its wrappers, and the documentation site.
