# Keyverse control plane: a verified model

Keyverse is a control plane over a remote Keycloak. This project models the
parts of it whose correctness depends on how steps interleave, fail or parse,
and proves what they promise for every input, every run and every reachable
state. `dafny verify dfyconfig.toml` checks the whole project.

What is modelled, by module:

- `KeyedLocks`, `MergeProtocol`, `MergeLineage`, `MergeRuns`: the user-operation
  locks, account merges and SCIM PUT/PATCH/DELETE as transition systems over any
  number of threads. One Admin API call is one atomic step with one of three
  outcomes: it succeeds, it raises before taking effect, or it raises after (a
  lost reply). `MergeTables` refines it with the accounts' links, roles and groups.
- `Matching`, `KeyedItems`, `AccountMerge`, `MergeConservation`, `MergeFields`,
  `MergeFailures`, `MergeRetry`: one merge as the service runs it, call by call and
  loop by loop, against an Admin API object whose every call may fail; what it
  leaves field by field, where it stops, and what a second attempt finds.
- `MapperOrder`, `RelyingParty`, `RelyingPartyService`, `RelyingPartyProtocol`,
  `RelyingPartyRuns`: relying-party desired state. The remote is modelled twice: as an adversary that
  answers anything (what `IN_SYNC` may mean), and as a store under concurrent
  puts, deletes, reconciles and process stops (stale applies, orphans).
- `DesiredText`, `DirectoryService`, `DirectorySnapshots`: directory desired state,
  where a receipt stands in for secrets the remote does not show, and a reconcile
  works from a snapshot taken before its lock.
- `Base64Url`, `CorrelationKey`: the token segments and the text under the
  correlation key. Python strings may hold surrogate code points, so that text is
  a sequence of numbers.
- `DistinguishedName`: the staged distinguished-name check and the one-pass
  grammar it amounts to, in the style of section 3 of RFC 4514.
- `RealmFlows`, `RateLimiter`, `BrokerPath`: the flow walk, the registration
  limiter and the broker's path check.
- `Wrappers`, `AdminOutcome`, `Ordering`, `Splitting`, `Text`, `JsonEscapes`: shared
  vocabulary.

Some results go beyond, or against, what the code's comments and documentation
suggest; the code is modelled as it is:

- Stamping a pointer closes a cycle exactly when the survivor already leads to the
  duplicate (`MergeLineage.StepKeepsAcyclicExactly`), which no check rules out. A
  merge that stops between its two tombstone calls leaves a pointer on an enabled
  account. Between calls, later merges can build a cycle exactly when such an
  account exists (`MergeRuns.CycleNeedsExactlyAStrandedPointer`).
- A directory apply whose reply is lost can later be reported `IN_SYNC` for the
  registration confirmed before it, although the remote holds another secret;
  `DirectoryService.FalseInSyncExactly` says exactly when, after any run.
- A directory reconcile can apply a registration that was replaced or deleted after
  its snapshot; `DirectorySnapshots.StaleExactly` says exactly when, and
  `DirectorySnapshots.DeletedComponentComesBack` gives the run.
- Survivor-wins means that an identity can leave the realm: exactly when a merge
  detaches it, in conflict, from the only account that has it
  (`MergeTables.IdentityLeavesExactly`).
- The registration limit is 59 admitted attempts in any 300-second span, not 60,
  for clock readings that enter the lock in order. Any disorder, however small,
  lets 88 through; `RateLimiter.DisorderDecidesTheBound` gives the exact bound for
  every amount of it.
- A merge admitted by a shared subject alone can be refused when it is retried
  after an interruption (`MergeRetry.RetryCanBeRefused`);
  `MergeRetry.RetryCompletesExactlyWhen` says exactly when it is.
- Lone surrogates are harmless to the correlation text unless a high one stands
  right before a low one (`CorrelationKey.ReadsBackExactly`); refusing all of them
  is sufficient.

## Model

| member | source | states |
|---|---|---|
| `KeyedLocks.NormaliseUserIds` | services/account_unification/app/user_locks.py:34-39 | refused exactly when there is no id or an empty one; otherwise the same ids |
| `KeyedLocks.NormaliseIsCanonical` | services/account_unification/app/user_locks.py:34-39 | the acquisition order is the one strictly increasing list of the ids, however the caller listed or repeated them |
| `KeyedLocks.RegisterSpec` | services/account_unification/app/user_locks.py:54-58 | looking lock objects up never changes a key's object and never gives two keys one object |
| `KeyedLocks.StepKeepsInv` | services/account_unification/app/user_locks.py:51-65 | every step of every `hold` call keeps the owner table equal to what the threads have acquired and not released |
| `KeyedLocks.MutualExclusion` | services/account_unification/app/user_locks.py:51-65 | two threads inside their critical sections never share a user id; under the coarse manager only one is inside |
| `KeyedLocks.OwnerWantsLater` | services/account_unification/app/user_locks.py:59-60 | a blocked thread waits for one that, if blocked itself, waits for a strictly later id |
| `KeyedLocks.ChaseOwners` | services/account_unification/app/user_locks.py:51-65 | waits that go to ever later keys in a finite set reach a thread that is not blocked |
| `KeyedLocks.DeadlockFree` | services/account_unification/app/user_locks.py:51-65 | whenever some `hold` call is unfinished, some unfinished call can take its own next step |
| `KeyedLocks.CrashKeepsInv` | services/account_unification/app/user_locks.py:68-77 | a process that stops gives back exactly the locks of its threads, wherever they were |
| `KeyedLocks.TimeoutLeavesNoTrace` | services/account_unification/app/user_locks.py:113-137 | under the SQLite manager a call that times out before it has the mutex can do so, and no call and no lock of anybody is changed by it |
| `KeyedLocks.RunsAreSafe` | services/account_unification/app/user_locks.py:34-137 | exclusion and freedom from deadlock in every state of every run, process stops included, for the keyed and the SQLite manager |
| `MergeProtocol.StepKeepsInv` | services/account_unification/app/service.py:81-99 | every step of merges, SCIM calls, lock operations and provisioning keeps what each call in its critical section relies on having read |
| `MergeProtocol.Exclusive` | services/account_unification/app/scim.py:225-243 | calls in their critical sections share no user id |
| `MergeProtocol.OthersUndisturbed` | services/account_unification/app/scim.py:235-243 | one call's request leaves what another relies on, such as a passed tombstone check, intact |
| `MergeProtocol.TombstonesArePermanent` | services/account_unification/app/service.py:314-321 | in every interleaving with any failures and process stops, a disabled user with a survivor pointer stays disabled with that pointer in every later state |
| `MergeProtocol.SomeTaskCanStep` | services/account_unification/app/service.py:72-85 | the protocol of merges and SCIM calls never deadlocks |
| `MergeLineage.AcyclicIsForest` | services/account_unification/app/service.py:314-321 | an acyclic pointer map has ranks that fall along every pointer |
| `MergeLineage.GraftKeepsForest` | services/account_unification/app/service.py:318-320 | pointing one unmerged account at another keeps a forest |
| `MergeLineage.PointerKeepsAcyclicExactly` | services/account_unification/app/service.py:318-320 | pointing any account at any other keeps an acyclic lineage acyclic exactly when the other does not already lead to it |
| `MergeLineage.StepKeepsAcyclicExactly` | services/account_unification/app/service.py:314-321 | of all steps of all calls only an effective stamp can close a cycle, and it does exactly when its survivor leads to its duplicate |
| `MergeLineage.StepKeepsLineage` | services/account_unification/app/service.py:74-99 | every step that does not strand a half tombstone keeps the pointers a forest into existing accounts |
| `MergeLineage.LineageIsAForest` | services/account_unification/app/service.py:74-99 | over whole runs in which no merge stops between its tombstone calls: pointers are acyclic with existing, non-empty targets, and following them from any account ends at one never merged away |
| `MergeRuns.MergeAlone` | services/account_unification/app/service.py:87-180 | from any quiet state two enabled accounts that the matching policy admits can be merged, and the last call's outcome decides whether the stamped duplicate is left enabled |
| `MergeRuns.PutAlone` | services/account_unification/app/scim.py:217-249 | from any quiet state a SCIM PUT gives an account without a tombstone the enabled flag it asks for |
| `MergeRuns.PatchAlone` | services/account_unification/app/scim.py:253-282 | from any quiet state a SCIM PATCH disables its account exactly when one of its operations asks for it, and changes nothing else |
| `MergeRuns.DeleteAlone` | services/account_unification/app/scim.py:286-305 | from any quiet state a SCIM DELETE disables its account, tombstoned or not, and changes nothing else |
| `MergeRuns.HalfTombstoneAllowsCycle` | services/account_unification/app/service.py:318-321 | for any two accounts there is a run in which one disable call fails and the pointers then form a cycle |
| `MergeRuns.CycleNeedsExactlyAStrandedPointer` | services/account_unification/app/service.py:74-99 | from a settled realm, calls that complete their tombstones can build a cycle exactly when some enabled account carries a pointer |
| `MergeTables.RunsProject` | services/account_unification/app/service.py:81-99 | every run with tables is a run of the protocol without them |
| `MergeTables.RequestSucceeds` | services/account_unification/app/service.py:182-312 | each move request takes a merge's three tables to the next position of a survivor-wins move |
| `MergeTables.StepKeepsInv` | services/account_unification/app/service.py:81-180 | every step of every call keeps every merge's tables a move of what it found on admission |
| `MergeTables.InterleavedMergesConserve` | services/account_unification/app/service.py:128-312 | in every interleaving, from admission until it leaves, a merge's links, roles and groups are partial moves of what it found, and complete ones before it stamps |
| `MergeTables.EveryStepHasTables` | services/account_unification/app/service.py:128-180 | each step of the protocol can be taken with tables, with the choice the lists make if it is a move request |
| `MergeTables.SomeTaskCanStep` | services/account_unification/app/service.py:72-85 | the protocol with tables never deadlocks |
| `MergeTables.StepKeepsHolder` | services/account_unification/app/service.py:182-312 | in every step a key an account holds stays with it, or the step is a request of a merge of that account and the survivor holds the key then |
| `MergeTables.KeysFollowTheMerges` | services/account_unification/app/service.py:182-312 | over whole runs with any failures and stops, a role, group or provider an account holds is held in every later state by it or by an account reached from it along the run's merges, in their order |
| `MergeTables.IdentityLeavesExactly` | services/account_unification/app/service.py:196-213 | a (provider, subject) pair leaves the realm exactly when a merge detaches its provider from the only account that has it |
| `MergeTables.DroppedIdentityWasInConflict` | services/account_unification/app/service.py:196-213 | and then the survivor is linked to another subject at that provider |
| `MergeTables.KeyIsPlace` | services/account_unification/app/service.py:192-290 | two items conflict exactly when they are links at one provider, roles of one name and one client or both of the realm, or one group |
| `Matching.SharedSubjectFindsAny` | services/account_unification/app/matching.py:23-32 | the search finds a link exactly when some (provider, subject) pair is held by both |
| `Matching.EmailMeansItsCore` | services/account_unification/app/matching.py:16-20 | an address counts as the lower case of the text between its surrounding spaces, and a blank one as none |
| `Matching.AllowedExactlyWhen` | services/account_unification/app/matching.py:46-82 | a merge is allowed exactly for a shared subject, an email verified on both sides, or an explicit link between accounts that share no email |
| `Matching.ReasonIsTheStrongest` | services/account_unification/app/matching.py:46-82 | an allowed merge is given the strongest ground there is: shared subject, then verified email, then explicit link |
| `Matching.VerdictIsSymmetric` | services/account_unification/app/service.py:101-126 | swapping the accounts changes neither verdict nor reason |
| `AccountMerge.UnificationService.MoveFederatedIdentities` | services/account_unification/app/service.py:182-230 | the loop leaves realm, lists and trail as the item-by-item specification says, stopping at the first failing call |
| `AccountMerge.UnificationService.MoveRoleMappings` | services/account_unification/app/service.py:232-275 | the same for role mappings |
| `AccountMerge.UnificationService.MoveGroupMemberships` | services/account_unification/app/service.py:277-312 | the same for group memberships |
| `AccountMerge.UnificationService.Tombstone` | services/account_unification/app/service.py:314-330 | pointer, then disable, then event, stopping at the first failing call |
| `AccountMerge.UnificationService.MergeAccounts` | services/account_unification/app/service.py:72-180 | the whole merge equals its specification, refusals and failures included |
| `KeyedItems.MoveDone` | services/account_unification/app/service.py:182-230 | a finished survivor-wins move leaves the survivor all it had plus exactly the non-conflicting items, in order, and the duplicate nothing |
| `KeyedItems.NothingLost` | services/account_unification/app/service.py:196-228 | wherever a move stops, each item is on the survivor, still on the duplicate, or one whose key the survivor had |
| `KeyedItems.MoveKeepsUnique` | services/account_unification/app/service.py:192-213 | the survivor never ends up with two items of one key |
| `MergeConservation.LoopConserves` | services/account_unification/app/service.py:182-312 | wherever any of the three loops stops, the table is a move that got part-way; if it ends normally, a complete one |
| `MergeConservation.LoopReports` | services/account_unification/app/service.py:182-312 | each item is written to exactly one of moved and conflicts and to exactly one event, in order |
| `MergeConservation.CompletedMerge` | services/account_unification/app/service.py:128-180 | a merge that reports completion had active accounts and an allowed match, moved or conflicted every item once, stamped and disabled the duplicate, and left exactly one event per item between start and completion |
| `MergeConservation.CompletesExactlyWhen` | services/account_unification/app/service.py:72-126 | when no call fails, a merge completes exactly for two different, named, existing, active accounts that the matching policy lets merge |
| `MergeConservation.EveryMergeConserves` | services/account_unification/app/service.py:72-180 | however a merge ends, only the two accounts changed, each kind of item is a partial move, and a refusal changes nothing |
| `MergeConservation.NoItemIsLost` | services/account_unification/app/service.py:182-312 | with unique keys on the duplicate, no item of either account is lost at whatever call the merge stops |
| `MergeConservation.MergedTableIsSound` | services/account_unification/app/service.py:182-312 | uniqueness per key is kept, and moved and conflicting items partition the duplicate's items as multisets |
| `MergeFields.CompletedMergeInFields` | services/account_unification/app/service.py:182-312 | after a completed merge, by fields alone: the survivor has its own items and exactly those of the duplicate's links whose provider, roles whose client and name, and groups whose id it did not have; those are reported as moved and the others as conflicts, by name; the duplicate has nothing and nobody else changed |
| `MergeFields.CompletedTrailInFields` | services/account_unification/app/service.py:128-180 | the trail is the start, one event per link, role and group in order that says moved or conflict by the same fields, the tombstone and the completion, each with actor and both ids |
| `MergeFields.RefusedExactlyWhen` | services/account_unification/app/service.py:72-126 | when no call fails, each refusal has its one cause, in the order of the checks |
| `MergeFailures.StopsAtTheFirstFailure` | services/account_unification/app/service.py:72-321 | for every pattern of failures a merge raises exactly when one of its requests failed, that request was its last, and all before it succeeded |
| `MergeRetry.ResumedMove` | services/account_unification/app/service.py:182-312 | with unique keys, a move resumed from wherever it stopped ends where one that never stopped does |
| `MergeRetry.SharedAfterStop` | services/account_unification/app/matching.py:23-32 | after a stop the accounts share a subject exactly when an undetached link was shared or was attached and not detached |
| `MergeRetry.RetryCompletesExactlyWhen` | services/account_unification/app/service.py:87-126 | an undisturbed retry of an interrupted merge completes exactly when both accounts are still active and the policy has other grounds or a shared subject is left |
| `MergeRetry.RetryCanBeRefused` | services/account_unification/app/service.py:87-126 | for any two accounts and any link: a merge that only the shared link admits completes undisturbed, but after its first detach loses its reply every retry is refused |
| `MergeRetry.RetryEndsAsUndisturbed` | services/account_unification/app/service.py:87-180 | and then leaves the tables, pointer and disabled duplicate of a merge that was never interrupted |
| `MapperOrder.ValidateProtocolMappers` | services/account_unification/app/relying_party.py:468-504 | the pass with its counters and rank list accepts exactly the empty list and the lists with the audience mapper first and then claims in strict canonical order |
| `MapperOrder.OneOrderPerSet` | services/account_unification/app/relying_party.py:468-504 | two accepted lists with the same mappers are the same list |
| `MapperOrder.NormalizedObservedMappers` | services/account_unification/app/relying_party_state.py:476-526 | the loop, the sort and the re-validation compute the normal form, malformed values included |
| `MapperOrder.MatchesExactlyPermutations` | services/account_unification/app/relying_party_state.py:476-526 | the normal form is the desired list exactly when the live list, without generated ids, is a permutation of it |
| `RelyingParty.KeyverseCodecOk` | services/account_unification/app/relying_party.py:384-465 | the concrete mapper profile parses and prints without loss, and its observed rank agrees with its validated rank |
| `RelyingParty.ObservableClientMatches` | services/account_unification/app/relying_party_state.py:529-546 | the comparison method decides exactly the match relation |
| `RelyingParty.MatchingIsUpToMapperOrder` | services/account_unification/app/relying_party_state.py:464-546 | for every valid registration a live client matches exactly when its other fields are equal and its mappers are a permutation |
| `RelyingParty.RegistrationOrderIsCanonical` | services/account_unification/app/relying_party.py:468-504 | valid registrations that agree up to mapper order are equal |
| `RelyingParty.AudienceExactly` | services/account_unification/app/relying_party.py:396-421 | for a client id exactly one audience mapper passes, given in full, and it passes exactly when the id is trimmed, bounded and free of controls and template markers |
| `RelyingParty.ClaimExactly` | services/account_unification/app/relying_party.py:424-467 | a claim mapper passes exactly when it is the one mapper its claim and value spell, for role, org or workspace and a presentable value on one line |
| `RelyingParty.ValidListInNames` | services/account_unification/app/relying_party.py:470-504 | validation admits exactly the empty list, or that audience mapper first and then such claim mappers in the order role, org, workspace, none twice |
| `RelyingParty.LiveMapperReadsExactly` | services/account_unification/app/relying_party_state.py:476-510 | a live mapper is read as a registered one exactly when it is that mapper as sent, with no id, a null one or a non-empty text |
| `RelyingParty.FieldMatchesExactly` | services/account_unification/app/relying_party_state.py:529-546 | a live field matches exactly when it equals the value sent, numbers and booleans compared as Python does |
| `RelyingParty.KeptClientMatches` | services/account_unification/app/relying_party_state.py:529-546 | a client that shows every field as sent and the mappers in any order and with any ids matches |
| `RelyingParty.ChangedFieldDoesNotMatch` | services/account_unification/app/relying_party_state.py:529-546 | a client that shows any field otherwise does not |
| `RelyingPartyService.Service.Converge` | services/account_unification/app/relying_party_state.py:237-301 | one convergence call equals its specification against every remote |
| `RelyingPartyService.Service.VerifyMutation` | services/account_unification/app/relying_party_state.py:303-356 | the observation after a mutation, and the receipt it alone may write |
| `RelyingPartyService.Service.StatusFor` | services/account_unification/app/relying_party_state.py:194-235 | one status call equals its specification |
| `RelyingPartyService.ConvergeIsSound` | services/account_unification/app/relying_party_state.py:237-383 | against any remote: `IN_SYNC` only when the call's last listing had one exact matching client and the receipt is its digest; receipts and mutations follow a listing that justifies them; none when several exact clients are listed |
| `RelyingPartyService.StatusIsSound` | services/account_unification/app/relying_party_state.py:194-235 | the same for a status, which writes nothing |
| `RelyingPartyService.ConvergeTellsItsLog` | services/account_unification/app/relying_party_state.py:237-356 | from the log of any call against any remote: `IN_SYNC` and the receipt follow a mutation exactly when the next listing shows one matching client and, if the mutation named one, that very client; the other states exactly when their listing or request says so |
| `RelyingPartyService.ConvergeExplainsItself` | services/account_unification/app/relying_party_state.py:237-356 | the mutation is a create of the registration where no client was listed or an update of the one that was, and each error code names what the log shows |
| `RelyingPartyService.StatusExactly` | services/account_unification/app/relying_party_state.py:194-235 | each status state is reported exactly for the listing and receipt it stands for |
| `RelyingPartyService.ExactByPosition` | services/account_unification/app/relying_party_state.py:358-365 | none, one or several clients count as exact as the positions of the listing say |
| `RelyingPartyService.UuidExactly` | services/account_unification/app/relying_party_state.py:438-455 | an identifier is accepted exactly when it is text that stays one segment of a request path |
| `RelyingPartyService.ConvergeIsIdempotent` | services/account_unification/app/relying_party_state.py:237-281 | after an `IN_SYNC`, against any remote, a call whose listing shows the match again sends and writes nothing |
| `RelyingPartyService.EchoedConvergeSettles` | services/account_unification/app/relying_party_state.py:237-356 | with a remote that keeps what it is given, whatever order and ids it gives the mappers, one call reaches `IN_SYNC` and the next only lists |
| `RelyingPartyProtocol.StepKeepsInv` | services/account_unification/app/relying_party_state.py:89-164 | every step keeps each call's registration in hand equal to the stored one |
| `RelyingPartyProtocol.NoStaleApply` | services/account_unification/app/relying_party_state.py:103-164 | in every interleaving, against any remote, a create or update carries the registration stored at that moment |
| `RelyingPartyProtocol.NeverAnOrphan` | services/account_unification/app/relying_party_state.py:103-141 | against a faithful remote, through failures and process stops, every live client has a stored record and no client id is live twice |
| `RelyingPartyRuns.ConvergeAlone` | services/account_unification/app/relying_party_state.py:89-106 | a put or reconcile of the protocol, run through with any answers, does to receipts and clients what one sequential convergence does; a put stores its registration first |
| `RelyingPartyRuns.RemoveAlone` | services/account_unification/app/relying_party_state.py:108-141 | a removal drops record and receipt exactly when no client is listed or the only one was deleted and confirmed; without a readable record it changes nothing |
| `DesiredText.TextIsContent` | services/account_unification/app/directory_federation_state.py:389-397 | two registrations serialise alike exactly when they differ at most in key order |
| `DesiredText.SortedEntriesAreContent` | services/account_unification/app/directory_federation_state.py:391-396 | sorting keys forgets their order and nothing else |
| `DirectoryService.Service.Converge` | services/account_unification/app/directory_federation_state.py:260-339 | one convergence call equals its specification, failing and lost replies included |
| `DirectoryService.Service.DeleteRegistration` | services/account_unification/app/directory_federation_state.py:116-194 | component first, then desired state and receipt, and what each failure leaves, an unreadable stored record included |
| `DirectoryService.ExactByPosition` | services/account_unification/app/directory_federation_state.py:341-353 | none, one or several components count as exact as the positions of the remote say |
| `DirectoryService.DuplicatesStopEverything` | services/account_unification/app/directory_federation_state.py:260-290 | in every world, sound or not: two components with one name, provider and type at different positions make a convergence and a delete leave store, receipts and remote alone, send nothing and never say `IN_SYNC` |
| `DirectoryService.SentByPosition` | services/account_unification/app/directory_federation_state.py:260-339 | what is sent, by position: a create without an exact component, an update of the only one unless it shows every open value and the receipt is current, else nothing |
| `DirectoryService.ReplyToAMutation` | services/account_unification/app/directory_federation_state.py:290-334 | after a mutation the receipt is written and `IN_SYNC` said exactly when it was confirmed; otherwise `APPLY_FAILED` with the failed request's code |
| `DirectoryService.DeleteByPosition` | services/account_unification/app/directory_federation_state.py:116-158 | with at most one exact component, each reply of a delete has its exact cause; record and receipt go exactly when it says deleted, and the components with that identifier exactly when the request took effect |
| `DirectoryService.StatusByPosition` | services/account_unification/app/directory_federation_state.py:211-258 | an unraced status, in full, for every world by the positions of its exact components |
| `DirectoryService.LdapIsBlindToTwoKeys` | services/account_unification/app/directory_federation_state.py:411-430 | the comparison passes over `bindDn` and `bindCredential` and no other key |
| `DirectoryService.StatusPredictsConverge` | services/account_unification/app/directory_federation_state.py:211-258 | a status that nothing races between its two reads says `IN_SYNC` exactly when converging would send nothing and say so |
| `DirectoryService.FalseStatusExactly` | services/account_unification/app/directory_federation_state.py:211-258 | with any events between its two reads, a status is falsely `IN_SYNC` exactly when the registration was the confirmed one at the first, another was live at the second, and the listing shows all its open values |
| `DirectoryService.RacedStatusIsFalse` | services/account_unification/app/directory_federation_state.py:211-258 | a confirmed put that changes secrets alone, between the two reads, is enough |
| `DirectoryService.HashOfTextTellsContent` | services/account_unification/app/directory_federation_state.py:389-397 | a collision-free hash of the text tells private content apart and ignores key order |
| `DirectoryService.ConvergeReachesInSync` | services/account_unification/app/directory_federation_state.py:260-339 | with at most one exact component one undisturbed call reaches `IN_SYNC`; if it sent anything, the registration is held and receipted |
| `DirectoryService.SecondConvergeIsQuiet` | services/account_unification/app/directory_federation_state.py:310-318 | a second call with the same registration sends nothing, whether or not the first had anything to send |
| `DirectoryService.AppliesExactlyChanges` | services/account_unification/app/directory_federation_state.py:355-377 | once a registration is held, converging on another of that name sends an update exactly when any private value differs, masked ones included |
| `DirectoryService.StepLeaves` | services/account_unification/app/directory_federation_state.py:93-171 | each put, reconcile and delete touches its own name alone, and leaves there exactly what its effect says |
| `DirectoryService.RunStaysHonest` | services/account_unification/app/directory_federation_state.py:93-171 | whatever happened before and to other names, a name's receipt is the digest of its live component as long as none of its applies has lost its reply since the last confirmed one |
| `DirectoryService.InSyncIsTrue` | services/account_unification/app/directory_federation_state.py:260-339 | and then `IN_SYNC` means that the remote holds the whole registration, unseen secrets included |
| `DirectoryService.FalseInSyncExactly` | services/account_unification/app/directory_federation_state.py:260-430 | after any run from any sound remote, `IN_SYNC` is false exactly when the registration is the last confirmed one, another was applied since, and the listing shows all its open values |
| `DirectoryService.DisagreementIsALostReply` | services/account_unification/app/directory_federation_state.py:319-334 | another can have been applied since only by an apply of it that lost its reply, with no confirmed apply after it |
| `DirectoryService.SomeHistory` | services/account_unification/app/directory_federation_state.py:355-377 | every sound remote with any receipts is the outcome of some history |
| `DirectoryService.LostReplyHidesSecrets` | services/account_unification/app/directory_federation_state.py:319-334 | the case of one lost update over a held registration: going back sends nothing and reports `IN_SYNC` exactly when the listing shows every open value of the old registration |
| `DirectoryService.SecretChangeIsHidden` | services/account_unification/app/directory_federation_state.py:411-430 | in particular whenever only secrets differ |
| `DirectorySnapshots.StaleExactly` | services/account_unification/app/directory_federation_state.py:160-171 | in every run a reconcile applies something other than the stored record exactly when puts or deletes of that name held the lock after its snapshot and the last to write the record left it different |
| `DirectorySnapshots.LockStopsWrites` | services/account_unification/app/directory_federation_state.py:168-170 | no record is written while a reconcile has the lock |
| `DirectorySnapshots.LockIsKept` | services/account_unification/app/directory_federation_state.py:168-170 | in every run a reconcile keeps the lock it took until it finishes, and nobody writes a record in between |
| `DirectorySnapshots.SnapshotIsWhole` | services/account_unification/app/directory_federation_state.py:160-168 | a snapshot holds every stored registration; a record that cannot be read stops it |
| `DirectorySnapshots.DeletedComponentComesBack` | services/account_unification/app/directory_federation_state.py:160-171 | for every stored registration there is a run in which its confirmed delete is followed by its re-creation, with no record left |
| `Base64Url.DecodeOfEncode` | services/account_unification/app/subject_assertion.py:290-301 | every byte string is decoded from its unpadded encoding |
| `Base64Url.AcceptsExactlyEncodings` | services/account_unification/app/subject_assertion.py:290-301 | a segment is accepted exactly when it is the encoding of some byte string, namely of its decoding |
| `Base64Url.AcceptsExactlyCleanTails` | services/account_unification/app/subject_assertion.py:299-300 | equivalently: no left-over letter and zero bits past the last byte |
| `Base64Url.EncodeIsTheBits` | services/account_unification/app/subject_assertion.py:299-300 | letter k of an encoding is the letter of the RFC 4648 table whose number is bits 6k to 6k+5 of the bytes, and there are no more letters than the bits need |
| `Base64Url.UnpackIsLoose` | services/account_unification/app/subject_assertion.py:296 | padding a segment and decoding it equals decoding it without padding |
| `Base64Url.TokensHaveOneSpelling` | services/account_unification/app/subject_assertion.py:276-301 | tokens that decode to the same three parts are the same text |
| `Base64Url.EveryTokenIsSpelled` | services/account_unification/app/subject_assertion.py:276-301 | every triple of byte strings within the length bound has a token |
| `Base64Url.LooseSpellingsCollide` | services/account_unification/app/subject_assertion.py:296-300 | without the comparison two segments would decode alike |
| `CorrelationKey.UnitsReadBack` | services/account_unification/app/subject_assertion.py:445-453 | a quoted string ends at its closing quote and its code units can be read off, whatever follows |
| `CorrelationKey.TextSeesUnits` | services/account_unification/app/subject_assertion.py:445-453 | for all tuples the texts are equal exactly when the coordinates agree in UTF-16 |
| `CorrelationKey.ReadsBackExactly` | services/account_unification/app/subject_assertion.py:402-404 | code units determine a text exactly when no high surrogate stands before a low one |
| `CorrelationKey.PairCollides` | services/account_unification/app/subject_assertion.py:402-404 | every text with such a pair is written like another, shorter text |
| `CorrelationKey.AcceptedIsPairFree` | services/account_unification/app/subject_assertion.py:389-442 | the subject, tenant, audience and issuer checks rule such pairs out |
| `CorrelationKey.KeysIdentifyCoordinates` | services/account_unification/app/subject_assertion.py:445-485 | with a collision-free hash, accepted tuples share a key exactly when they are equal |
| `CorrelationKey.OutcomeExactly` | services/account_unification/app/subject_assertion.py:225-264 | each outcome exactly: refused by issuer, subject or tenant in that order, session-only for an ephemeral subject, a durable key otherwise |
| `CorrelationKey.KeysIdentifyAssertions` | services/account_unification/app/subject_assertion.py:247-264 | over profiles and claims: two durable assertions share a key exactly when issuer, audience, subject type and subject agree and both are bound to the same tenant or both to none |
| `CorrelationKey.QuotedTextIsJson` | services/account_unification/app/subject_assertion.py:445-453 | a JSON reader gets the UTF-16 form of each coordinate back, whatever follows it |
| `CorrelationKey.VersionIsSeen` | services/account_unification/app/subject_assertion.py:445-453 | equal texts have the same contract version |
| `CorrelationKey.LonePairWouldCollide` | services/account_unification/app/subject_assertion.py:389-404 | without the surrogate check two subjects would share a text |
| `DistinguishedName.SplitUnescaped` | services/account_unification/app/directory_federation.py:277-293 | the loop with `start` and `escaped` computes the split |
| `DistinguishedName.SplitFirstUnescaped` | services/account_unification/app/directory_federation.py:296-308 | the loop finds the first unprotected separator |
| `DistinguishedName.ValidateDnValue` | services/account_unification/app/directory_federation.py:311-356 | the scanner with its two escape widths and the trailing-space test decide the value check |
| `DistinguishedName.ValidateDistinguishedName` | services/account_unification/app/directory_federation.py:359-380 | the staged check decides its specification |
| `DistinguishedName.JoinSplit` | services/account_unification/app/directory_federation.py:277-293 | joining the split parts restores the input, for every input |
| `DistinguishedName.SplitJoin` | services/account_unification/app/directory_federation.py:277-293 | splitting undoes joining on parts without unprotected separators |
| `DistinguishedName.TrailingSpaceTest` | services/account_unification/app/directory_federation.py:325-337 | counting backslashes decides whether the last token is a bare space, whatever the widths before it |
| `DistinguishedName.AcceptsExactlyTheGrammar` | services/account_unification/app/directory_federation.py:277-380 | the staged check accepts exactly the bounded strings of one left-to-right grammar |
| `DistinguishedName.NameReadsBack` | services/account_unification/app/directory_federation.py:277-380 | every well-formed name is read back from its text by the stages |
| `DistinguishedName.OneReadingPerName` | services/account_unification/app/directory_federation.py:277-380 | so each accepted text has exactly one reading |
| `DistinguishedName.OidIsDottedArcs` | services/account_unification/app/directory_federation.py:58-59 | the character-wise identifier test accepts exactly two or more numbers joined by single dots |
| `DistinguishedName.IdentifierExactly` | services/account_unification/app/directory_federation.py:260-274 | an attribute type is exactly such a number list or a letter followed by letters, digits and hyphens, 128 characters at most |
| `RealmFlows.Walk.Collect` | scripts/validate_realm.py:45-61 | a call with any shared seen set ends, and leaves the set and result its specification says |
| `RealmFlows.VisitIsReachability` | scripts/validate_realm.py:45-61 | an inner call finds exactly the authenticators reachable without passing what was seen before, and marks exactly those flows |
| `RealmFlows.AllAuthenticators` | scripts/validate_realm.py:36-61 | the top-level result is exactly the authenticators on reachable flows, cycles included |
| `RealmFlows.ReadsTheFlow` | scripts/validate_realm.py:36-42 | the executions the walk reads are those of the flow at the first position that has the alias: subflows and authenticators are exactly those it names |
| `RealmFlows.ExecutionsOfFlow` | scripts/validate_realm.py:36-42 | an alias names the first flow that has it, and none without one |
| `RateLimiter.Limiter.Record` | services/account_unification/app/registration.py:99-117 | one attempt's new window and outcome, refused attempts counted |
| `RateLimiter.OutcomesAreIndependent` | services/account_unification/app/registration.py:102-113 | in every run each outcome is the one the caller would have had alone |
| `RateLimiter.RefusedExactly` | services/account_unification/app/registration.py:99-117 | an attempt is refused exactly when at least 30 attempts lie between it and the last opening, where openings are defined on the readings alone |
| `RateLimiter.RefusedInRunExactly` | services/account_unification/app/registration.py:99-117 | the same inside any run of any callers |
| `RateLimiter.WaitingIsEnough` | services/account_unification/app/registration.py:106-113 | an attempt more than 300 seconds after all the caller's earlier readings is admitted |
| `RateLimiter.WindowNeverOverfills` | services/account_unification/app/registration.py:106-117 | from one reset to the next at most 30 attempts are admitted, whatever the clock does |
| `RateLimiter.SpanBound` | services/account_unification/app/registration.py:99-117 | at most 59 admitted attempts of a caller in any 300-second span, and 29 more for every 300 seconds by which a reading may lie behind an earlier one |
| `RateLimiter.SpanLimitIsReached` | services/account_unification/app/registration.py:99-117 | each of these bounds is reached as soon as the disorder exceeds that of the bound below |
| `RateLimiter.DisorderDecidesTheBound` | services/account_unification/app/registration.py:99-117 | for every n, the bound 59 + 29n holds for all runs with disorder at most delta exactly when delta is at most 300n seconds; 59 holds exactly for readings in order |
| `BrokerPath.ValidatePath` | scripts/ci/nim_proxy.py:64-88 | the loop over segments decides the verdict, with the first error |
| `BrokerPath.VerdictExactly` | scripts/ci/nim_proxy.py:64-88 | with no decoder: a path is accepted exactly when it is bounded, in the API alphabet, its escapes are whole and every segment spells the UTF-8 of a text without dot segment, separator, percent sign or control; and each error is the fault of the first segment that has one |
| `BrokerPath.CommutesExactlyWithoutHiddenSlash` | scripts/ci/nim_proxy.py:71-85 | for any ASCII path that decodes, decoding and splitting commute exactly when no escape hides a slash |
| `BrokerPath.DecodeCommutesWithSplit` | scripts/ci/nim_proxy.py:64-88 | for every accepted path decoding commutes with splitting on `/` |
| `BrokerPath.SecondDecodeIsIdentity` | scripts/ci/nim_proxy.py:82-85 | decoding an accepted path twice is decoding it once |
| `BrokerPath.DecodedStaysInApi` | scripts/ci/nim_proxy.py:66-88 | an accepted path is still under `/v1` when decoded, and its decoded form holds no backslash or control character |
| `BrokerPath.DotRemovalIsIdentity` | scripts/ci/nim_proxy.py:79-81 | section 5.2.4 of RFC 3986 leaves the decoded path alone, also after dropping segment parameters |

## Left out

- HTTP transport, token refresh, routing, dependency wiring and request-shape parsing; the Admin API is an object that holds maps and may fail.
- SQLite: the store is a map, the audit trail an append-only sequence, the SQLite lock one global mutex with a timeout.
- Signatures, certificates, SHA-256 and the JSON parser of tokens: a hash is a function parameter, assumed collision-free where a result needs it.
- Unicode tables: lower-casing, and which code points other than surrogates are invisible or spaces under the correlation key, are parameters.
- URL, hostname and port checks, and the relying-party fields other than mappers: one predicate parameter each.
- Writers outside the lock protocol: registration, its rollback and operators using Keycloak directly are assumed not to touch the modelled users during a merge.
- `set_user_attribute` reads and writes a user representation; it is one atomic step here.
- Re-entrant `hold` calls and several processes sharing the relying-party locks: threads do not nest, and there is one process.
- MergeLineage.LineageIsAForest: speaks of runs in which no merge stops between its tombstone calls; `StepKeepsAcyclicExactly` and `MergeRuns.CycleNeedsExactlyAStrandedPointer` say exactly what happens in the others.
- MergeRuns.MergeAlone: the matching policy is a free choice of the protocol, so the run it exhibits is one in which the policy admits the pair, and it moves no items.
- MergeTables.InterleavedMergesConserve: the two link listings and the decision of a merge are one step; under its locks nothing else can change those lists.
- DirectoryService.InSyncIsTrue: writers other than the service are excluded.
- RealmFlows.Walk.Collect: does not model the interpreter's recursion limit on very deep chains of flows.
- RateLimiter.SpanBound: readings are real numbers, not floating-point ones.
- A request that is in flight when its process stops takes effect, if at all, before the stop frees the locks; one that Keycloak executes later is not modelled.
- The flat policy checks of the realm validator, the rest of the directory and relying-party field validation, and the claim and time checks of the token verifier: each is one comparison that depends on no other step, so nothing interleaves, fails half-way or has to be read back.
- The CI scripts other than the path check: they drive Git, subprocesses and sockets.
