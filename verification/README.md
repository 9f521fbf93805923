# IAM controller: a verified model

The controller reads the state of an IAM resource, compares it with a Kubernetes
spec and issues small API calls until the two agree. Calls are not atomic and any
of them may fail. This project models the backend's objects, writes the
controller's hooks as methods over them, and proves what the hooks keep, what
they reach, and exactly when they do not reach it.

**The backend.** Each kind of object is a class with the fields the hooks change:
attached ARNs and inline documents of a role or group (`Principal.Backend`), the
versions of a managed policy (`ManagedPolicy.PolicyBackend`), tags
(`TagSync.TaggedResource`), client IDs (`ClientIds.Provider`) and the role slot of
an instance profile (`InstanceProfile.ProfileBackend`). `PolicyPass.Policy` puts a
policy's versions and tags together. Every call may fail at will (`Injected`,
chosen by `if *`), and then it has had no effect; the refusals the backend has
reasons for (unknown entity, version limit, dependants left, slot taken, repeated
tag key) are modelled. `Counted` says of every operation that it
ends in `Injected` exactly when one of its calls was made to fail, so an operation
without such a failure succeeds or is refused for a stated reason. Listings come
back in pages whose order and split are arbitrary, and Go maps are walked in an
arbitrary order.

**How the hooks are proved.** A hook that applies a difference is proved to
complete a prefix of a plan, which is a function of its inputs: all of it on
success, or everything up to the call that failed. The plan modules then prove,
for every prefix and for any number of interrupted passes, where the backend is.

**Files.** `Base` (errors, lists, pages), `Documents` (percent-encoding),
`PolicyVersions` and `ManagedPolicy` (version store and its controller),
`ManagedPlans`, `InlinePlans` and `Principal` (attached and inline policies),
`GroupPass` (the reconcile pass), `Tags`, `TagPlumbing`, `TagDelta`, `TagSync` and
`TagPass` (tags), `PolicyPass` (the reconcile pass of a managed policy),
`ClientIds`, `Conditions`, `References`, `ManagerCache`, `InstanceProfile`.

## What was found

- **Inline documents with '%' or '+'.** A put sends the decoded document, so a
  desired document that decoding changes is never what is read back. A pass
  settles exactly when every desired document was already in place or is free of
  both characters; otherwise the group differs again after every later pass.
- **Policy lists with duplicates.** One that had to be synced differs again after
  the pass, and the second attach call for a missing ARN changes nothing.
- **Tag order.** Roles, users and OIDC providers tag first and then untag by key,
  which removes a key whose value has just been changed. One pass reaches the
  desired tags exactly when no value changes; a later complete pass does.
  Policies and instance profiles untag first and need one pass. AWS-owned tags are
  mirrored from what each pass reads, and the target still stays the same from
  pass to pass.
- **A policy's pass** settles after one success for every desired tag list and
  every document, unless name, path or description differ, which no update sends,
  or the comparison takes the desired document neither for the one stored nor for
  itself. In that last case every pass adds a version.
- **Creation dates.** Eviction compares dates only. The kept versions are sure to
  be the last ones created exactly as long as no attempt meets a full store whose
  two first versions share a date; then the newer of the two can go first.
- **`EqualTags`** is an order-insensitive equality for a list, among lists of its
  length, exactly when that list repeats no key; otherwise it calls some other list
  equal, or not even the list itself, and the answer depends on the order of the
  arguments.
- **`ResolveReferences`** works on the object it is given, although its comment
  promises a copy, and goes on resolving when validation has failed. Clearing
  undoes it exactly when validation passes.
- **Conditions.** If a list already holds two Terminal conditions, an update clears
  the last one only, and an error that is not terminal is reported as terminal.
- **Manager cache.** All callers for a key get one manager exactly when it is cached
  and nobody is between lookup and store; otherwise two of them can get different
  ones. Each call gets a manager of its account and region exactly when no call of
  another account or region shares its key, which takes a '/' in one of these.

## Library behaviour taken as given

`url.QueryUnescape` is `Documents.Decode`. `sort.Slice` is an in-place insertion
sort of which callers use only that the result is sorted and a permutation.
`lo.Difference` keeps, in order, the entries the other list lacks; `lo.ToPairs`
enumerates a map in any order. `SliceStringPEqual` is any comparison that ignores
order on duplicate-free lists, `MapStringStringPEqual` is map equality,
`IAMPolicyDocumentEqual` is an arbitrary function in a policy's pass,
`HasNilDifference` tells nil from a string (backend paths are never empty),
`acktags.Merge` lets existing tags win, and the rule for the namespace of a
reference is an arbitrary function. Ranging over a map while deleting its current
key visits each remaining key once.

## Model

| member | source | states |
|---|---|---|
| Documents.DecodeInvertsEncode | pkg/resource/role/hooks.go:538-540 | decoding inverts percent-encoding (sections 2.1 and 2.3 of RFC 3986) for every document |
| Documents.StableExactlyWhenLiteral | pkg/resource/role/hooks.go:538-540 | decoding leaves a document as it is exactly when it has no '%' and no '+' |
| Documents.DecodesExactlyItsWritings | pkg/resource/role/hooks.go:538-540 | decoding a text gives a document exactly if the text writes its bytes one by one: plainly (but not '%' and '+'), a space also as '+', any byte as '%' and two hexadecimal digits of either case |
| Documents.DecodeFailsExactlyWhen | pkg/resource/role/hooks.go:538-540 | it fails exactly for texts in which some '%' is not followed by two hexadecimal digits |
| Documents.EncodedForms | pkg/resource/role/hooks.go:295-299 | what the backend returns: letters, digits and four marks plainly, everything else as an escape |
| PolicyVersions.RoomCanAlwaysBeMade | pkg/resource/policy/hooks.go:292-308 | a full store always has a version to evict, and afterwards it is valid and below the limit, so the create call cannot be rejected for it |
| PolicyVersions.UpdateEvictsOnlyTheOldest | pkg/resource/policy/hooks.go:239-311 | an update, failed or not, takes away at most one version, only from a full store, and only an oldest non-default one |
| PolicyVersions.RunKeepsInv | pkg/resource/policy/hooks.go:239-311 | over every run of updates, failures, and outside creations (of default and other versions), deletions and changes of default in between: one to five versions, exactly one default |
| PolicyVersions.UpdateReadsBack | pkg/resource/policy/hooks.go:57-62 | after any run that ends in a successful update, the default document is that update's |
| PolicyVersions.UpdateLeaves | pkg/resource/policy/hooks.go:239-311 | a successful update adds the new default with its document and date, keeps the others as they were but for the default, and only a store of five loses one of them |
| PolicyVersions.FailedAttemptsLoseAtMostOne | pkg/resource/policy/hooks.go:250-264 | any number of failed attempts in a row destroys at most one version in total, and none if the store was not full |
| PolicyVersions.RetentionWindow | pkg/resource/policy/hooks.go:239-311 | from a fresh policy, n successful updates with failures anywhere between, no tie ever heading a full store: n+1 versions were created, the kept ones are the most recent with the newest as default, and right after a success they are the last min(5, n+1) |
| PolicyVersions.AttemptKeepsWindowExactlyWhen | pkg/resource/policy/hooks.go:292-308 | from a store in which the window holds, every outcome of an attempt, successful or failed, keeps it exactly when a full store's first version is strictly older than its second |
| PolicyVersions.WindowSureExactlyWhenNoTieAtHead | pkg/resource/policy/hooks.go:239-311 | for every run without outside writers: the window is sure to be kept at every step exactly when no attempt met a full store headed by a tie |
| PolicyVersions.FirstGoesExactlyWhenStrictlyOldest | pkg/resource/policy/hooks.go:404-406 | with the newest of five versions as default, every sort outcome evicts the first created exactly when its date is strictly before the second's |
| PolicyVersions.TiedDatesBreakTheWindow | pkg/resource/policy/hooks.go:404-406 | a run of successful updates from a fresh policy, with two versions sharing a creation date, after which version 2 is gone while version 1 stays |
| ManagedPolicy.SortByCreateDate | pkg/resource/policy/hooks.go:402-406 | the array ends sorted by creation date and is a permutation of what it was |
| ManagedPolicy.GetPolicyVersions | pkg/resource/policy/hooks.go:364-408 | for every page layout: all versions exactly once, sorted by date; when a page fails, those of the pages before it, sorted |
| ManagedPolicy.EvictionTarget | pkg/resource/policy/hooks.go:292-308 | the first non-default entry of the sorted listing is an oldest non-default version and can be deleted |
| ManagedPolicy.EnsureVersionsLimitNotExceeded | pkg/resource/policy/hooks.go:279-311 | on success five versions become four, one oldest non-default one being gone; with any other number, or on error, nothing changes |
| ManagedPolicy.UpdatePolicyDocument | pkg/resource/policy/hooks.go:239-266 | success is the machine's update step and leaves the new version last, error its failed step, with any change only to a store of five; on an existing policy only an injected failure can cause an error |
| ManagedPolicy.DeleteNonDefaultPolicyVersions | pkg/resource/policy/hooks.go:432-462 | on success only the default is left; wherever it stops, only non-default versions are lost, oldest first |
| ManagedPolicy.DeletePolicy | pkg/resource/policy/sdk.go:354-381 | the policy is deleted without ever meeting a delete conflict; wherever it stops, only non-default versions are lost, oldest first |
| ManagedPolicy.FindDocument | pkg/resource/policy/sdk.go:165-179 | the document read back through the default version is the default version's document; a deleted policy is not found |
| ManagedPlans.CompletePlanReaches | pkg/resource/role/hooks.go:97-120 | a complete sync of attached policies ends at the desired set, for any desired list |
| ManagedPlans.DetachesWaitForAttaches | pkg/resource/role/hooks.go:109-120 | wherever a sync stops, a held and desired ARN is attached, and nothing is gone before everything desired is attached |
| ManagedPlans.EachCallCounts | pkg/resource/role/hooks.go:109-120 | after k completed calls the ARNs on which backend and desired list disagree are exactly k fewer |
| ManagedPlans.EveryCallCountsExactlyWhen | pkg/resource/role/hooks.go:97-120 | every call lowers the disagreement by one exactly when no missing ARN is listed twice |
| ManagedPlans.SecondAttachDoesNotCount | pkg/resource/role/hooks.go:97-120 | for example, a missing ARN listed twice is attached twice |
| ManagedPlans.ManagedConvergence | pkg/resource/role/hooks.go:84-123 | over any number of passes cut short anywhere, the backend equals a duplicate-free desired list exactly when as many calls have succeeded as ARNs disagreed at the start |
| InlinePlans.EveryOrderGivesAnExactPlan | pkg/resource/role/hooks.go:208-234 | for every enumeration of both maps there is exactly one step for each name the maps disagree on, and no other step, puts before removals |
| InlinePlans.CompletePlanReachesTarget | pkg/resource/role/hooks.go:217-245 | a complete pass leaves exactly the desired names, agreeing documents as they were and all others decoded |
| InlinePlans.TargetContents | pkg/resource/role/hooks.go:320-324 | those documents without reference to the decoder: each desired text that had to be sent writes the document that is stored |
| InlinePlans.NeverAbsentMidway | pkg/resource/role/hooks.go:230-234 | at every intermediate step a name in both maps is present, with its old or its new document, and an agreeing document is untouched |
| InlinePlans.RemovalsWaitForPuts | pkg/resource/role/hooks.go:217-245 | wherever a sync stops, once a name is gone every desired document is in place |
| InlinePlans.TargetIsDesiredExactlyWhenSettled | pkg/resource/role/hooks.go:320-324 | a complete pass ends at the desired documents exactly when each was in place or has no '%' and no '+' |
| InlinePlans.InlineConvergence | pkg/resource/role/hooks.go:197-246 | over any number of interrupted passes, the backend holds the desired documents exactly when each was in place at the start or has no '%' and no '+', and as many steps have succeeded as names disagreed at the start |
| Principal.GetManagedPolicies | pkg/resource/role/hooks.go:127-152 | for every page layout, each attached ARN once |
| Principal.GetInlinePolicies | pkg/resource/role/hooks.go:258-303 | for every page layout and walking order, exactly the stored documents |
| Principal.SyncManagedPolicies | pkg/resource/role/hooks.go:84-123 | completes a prefix of the plan, all of it on success; with a faithful reading it ends at the desired set and only an injected failure stops it |
| Principal.AddInlinePolicy | pkg/resource/role/hooks.go:307-328 | puts the document that the text writes; a text with a bad escape is an error before any call |
| Principal.SyncInlinePolicies | pkg/resource/role/hooks.go:197-246 | completes a prefix of an exact plan, all of it on success; with a faithful reading and decodable documents only an injected failure stops it |
| GroupPass.NewResourceDelta | pkg/resource/group/delta.go:34-78 | a field is in the delta exactly when the two specs differ in it |
| GroupPass.SdkFind | pkg/resource/group/sdk.go:56-131 | what is found is what the backend holds; NotFound or an injected failure exactly when the spec does not address the group |
| GroupPass.SdkUpdate | pkg/resource/group/sdk.go:241-297 | each part is written only if the delta names it, along the plan for the specs given, policies before documents before the path, with exactly the writes of that plan; nothing happens to a group that the desired name does not name |
| GroupPass.FindAndCompare | pkg/resource/group/delta.go:34-78 | the delta of a pass, field by field, in terms of what the backend holds |
| GroupPass.ReconcilePass | pkg/resource/group/sdk.go:241-297 | find, compare, update, find, compare. Wherever it stops: part of the plan, in order. Without failure: it makes exactly the writes the differences ask for, none if nothing differed; and the second delta is empty exactly when Path is set, the inline documents settle, and the policy list has no duplicates or agreed before the pass |
| GroupPass.CompletedAgreesExactlyWhen | pkg/resource/group/sdk.go:241-297 | what a complete pass leaves agrees with the spec exactly on that condition |
| GroupPass.ReconcileTwice | pkg/resource/group/sdk.go:241-297 | two complete passes: the second finds nothing exactly when the first has settled the group, and makes no write exactly when Path is set and the documents settle |
| GroupPass.GroupConvergence | pkg/resource/group/sdk.go:241-297 | over any number of passes cut short anywhere: the backend holds the desired policies and documents exactly when the documents settle and as many calls have succeeded as there were disagreements at the start |
| GroupPass.CutsMakeNoDifference | pkg/resource/group/sdk.go:241-297 | after any number of passes cut short, a complete pass settles exactly when one at the start would have |
| GroupPass.PassOutcome | pkg/resource/group/hooks.go:146-195 | the documents a gated pass leaves are the desired ones exactly when they settle |
| GroupPass.UnsettledForever | pkg/resource/group/hooks.go:256-277 | a desired document that decodes to something else and was not in place differs again after any number of complete passes |
| GroupPass.PlusNeverSettles | pkg/resource/group/hooks.go:256-277 | for example a document that is a single '+' |
| GroupPass.SdkDelete | pkg/resource/group/sdk.go:316-345 | deletion leaves nothing attached or embedded, and meets no conflict when its input agrees with the backend; the role's deletion is the same code |
| Tags.ConvertToOrderedACKTags | pkg/resource/role/tags.go:36-55 | the map (last value wins, nil is empty) and the keys in list order |
| Tags.LastWins | pkg/resource/role/tags.go:36-55 | the last tag of a key decides its value, and a missing value is the empty string |
| Tags.AwsKeys | pkg/resource/role/tags.go:80-119 | AWS-owned keys are those that begin with the four characters of the prefix |
| Tags.FromACKTags | pkg/resource/role/tags.go:61-78 | ordered keys first, each once, then the remaining entries in some order |
| Tags.NormalForm | pkg/resource/role/tags.go:36-78 | the round trip has one outcome: each non-nil key once, with its last value |
| Tags.ListedOrder | pkg/resource/role/tags.go:61-71 | keys come out in the order of their first occurrence |
| Tags.NormalOrder | pkg/resource/role/tags.go:36-78 | so the round trip lists the keys in the order in which the list first has them |
| Tags.NormalIsIdempotent | pkg/resource/role/tags.go:36-78 | the round trip is idempotent, and the identity exactly on lists without nils and repeated keys |
| TagPlumbing.IgnoreSystemTags | pkg/resource/role/tags.go:85-92 | keeps exactly the entries that are neither AWS-owned nor listed, in every walking order |
| TagPlumbing.SyncAWSTags | pkg/resource/role/tags.go:113-119 | the target map overlaid with the AWS-owned entries of the other |
| TagPlumbing.EnsuredContents | pkg/resource/role/manager.go:299-314 | adding defaults gives the list's own tags first, in order and with their values, then a default for each key it lacks |
| TagPlumbing.FilteredContents | pkg/resource/role/manager.go:335-347 | filtering leaves the tags whose key neither begins with "aws:" nor is listed |
| TagPlumbing.EnsureThenFilter | pkg/resource/role/manager.go:299-347 | adding the defaults and filtering by a key list that covers them gives the normal form without AWS-owned and listed keys, in order |
| TagPlumbing.EnsureAndFilter | pkg/resource/role/manager.go:299-347 | the two methods one after the other do so |
| TagPlumbing.MirrorAWSTags | pkg/resource/role/manager.go:360-372 | the desired tags overlaid with the AWS-owned tags of the latest list |
| TagPlumbing.MirroredContents | pkg/resource/role/manager.go:360-372 | mirroring gives the latest value of every key that begins with "aws:" and that the resource has, the desired value of all others, and nothing else |
| TagPlumbing.MirrorKeepsUserTags | pkg/resource/role/manager.go:360-372 | the user's tags come through mirroring unchanged and in order |
| TagPlumbing.MirrorProtectsAwsTags | pkg/resource/role/manager.go:349-372 | a sync from the mirrored list untags no AWS-owned key and re-tags none that the resource holds |
| TagDelta.ComputeTagsDelta | pkg/util/tags.go:24-48 | which tags are set and which keys removed, with repeated keys too |
| TagDelta.EqualTags | pkg/util/tags.go:52-58 | true exactly when the difference is empty both ways |
| TagDelta.TagsEqualExactlyWhen | pkg/util/tags.go:24-58 | on any two lists: each tag of the first has the value of the second's first tag with its key, and the second has no other keys |
| TagDelta.EqualTagsMeansSameTags | pkg/util/tags.go:50-58 | on key-unique lists, equal means a permutation, and means the same map |
| TagDelta.PermutationTestExactlyWhenUnique | pkg/util/tags.go:50-58 | among lists of one length, comparing with a list tests for a permutation, and gives the same answer either way round, exactly when that list repeats no key |
| TagDelta.NilCountsAsEmpty | pkg/util/tags.go:60-65 | making nil values empty changes no comparison |
| TagDelta.EqualTagsIsAnEquivalence | pkg/util/tags.go:50-58 | on key-unique lists the comparison is reflexive, symmetric and transitive |
| TagDelta.RepeatedKeysBreakEquality | pkg/util/tags.go:24-58 | two lists of equal length with a repeated key that are equal one way round only |
| TagDelta.CompareTags | pkg/resource/policy/hooks.go:123-135 | the gate of a tag sync: if one of the lists repeats no key, it opens exactly when they are not permutations of each other, nil values being empty |
| TagDelta.PatchReaches | pkg/util/tags.go:24-48 | applying the difference to the map of the first list gives the map of the second |
| TagSync.GetTags | pkg/resource/role/hooks.go:461-490 | for every page layout, each tag once; when a page fails, the tags of the pages before it |
| TagSync.UntagFirstOutcome | pkg/resource/policy/hooks.go:89-116 | untagging first: the agreeing tags after the first call, exactly the desired tags after both |
| TagSync.SyncTagsUntagFirst | pkg/resource/policy/hooks.go:76-119 | with an up-to-date reading the tags are those of the outcome reached, and a complete pass is a success; for any desired list and any reading: the tags are what the two difference lists make of them as far as the pass got, each list that is not empty costs one call, an empty one none, and a repeated key is the only reason for a refusal |
| TagSync.TagFirstOutcome | pkg/resource/role/hooks.go:410-437 | tagging first: old and desired tags merged after the first call; after both, the desired tags without the keys whose value changed |
| TagSync.SyncTagsTagFirst | pkg/resource/role/hooks.go:397-440 | the same in the other order |
| TagSync.SyncTagsFresh | pkg/resource/open_id_connect_provider/hooks.go:160-205 | the same when the tags are read first, for lists with repeated keys too |
| TagSync.TagFirstSettlesExactlyWhen | pkg/resource/role/hooks.go:422-437 | tagging first, one pass reaches the desired tags exactly when no key has two values |
| TagSync.ChangedValueIsLost | pkg/resource/role/hooks.go:422-437 | for example, changing the value of the only tag removes it |
| TagSync.TagFirstConverges | pkg/resource/role/hooks.go:397-440 | from any tags and with failures anywhere, a complete pass ends at the desired tags exactly when no value had to change or an earlier pass has reached its tag call |
| TagPass.MirrorAndCompare | pkg/resource/role/manager.go:360-372 | whatever the desired list looks like, the mirrored one has no nils and no repeated keys, and the comparison compares the maps |
| TagPass.TargetStandsStill | pkg/resource/role/manager.go:349-372 | however far a sync gets, in either order, the next pass mirrors to the same target, and no AWS-owned tag has been changed or removed |
| TagPass.RoleTagPass | pkg/resource/role/sdk.go:406-411 | read, mirror, compare, sync, read, mirror, compare: the tags differ again exactly when some key had two values |
| TagPass.MirroredPassesConverge | pkg/resource/role/hooks.go:397-440 | the same with a target recomputed in every pass; the AWS-owned tags stay as they were at the start |
| PolicyPass.NewResourceDelta | pkg/resource/policy/delta.go:34-75 | a field is in the delta exactly when the specs differ in it; tag lists differ when they are not permutations, if one of them repeats no key |
| PolicyPass.ReadOne | pkg/resource/policy/manager.go:98-119 | what is read is what the backend holds, and the desired tags are overlaid with its AWS-owned ones; a spec without ARN and a deleted policy are not found |
| PolicyPass.CustomUpdatePolicy | pkg/resource/policy/hooks.go:41-71 | each part is written only if the delta names it, the tags along the lists given; the version store is touched only after the tags are done |
| PolicyPass.ReadAndCompare | pkg/resource/policy/delta.go:34-75 | the delta of a pass, field by field, in terms of what the backend holds |
| PolicyPass.ReconcilePass | pkg/resource/policy/hooks.go:41-71 | for every desired tag list and wherever the pass stops: AWS-owned tags stay, at most one update of the store. Without failure: the tags are the mirrored ones, a version is added exactly when the comparison took the stored document for another one, and the second delta is empty exactly when name, path and description fit and the comparison takes the desired document for the one stored before or for itself |
| PolicyPass.ReconcileTwice | pkg/resource/policy/hooks.go:41-71 | two complete passes: the second finds nothing exactly on that condition, and adds a version exactly when the first did and the comparison does not take the document for itself |
| ClientIds.AddMissing | pkg/resource/open_id_connect_provider/hooks.go:72-93 | in every walking order, one add per ID only the desired list has, and exactly the surplus IDs are left in the other map |
| ClientIds.SyncClientIDs | pkg/resource/open_id_connect_provider/hooks.go:57-109 | for any lists with duplicates: at most one add per missing and one remove per surplus ID, exactly one each on success, removes after adds |
| ClientIds.UpdateOutcome | pkg/resource/open_id_connect_provider/hooks.go:57-109 | a complete update leaves exactly the desired IDs, each call removes one difference, and a shared ID is never dropped |
| Conditions.UpdateConditions | pkg/resource/role/sdk.go:544-617 | the result is made of new objects with the updated values, the conditions passed in are not modified, and nothing is returned exactly when there was nothing to record |
| Conditions.UpdateEffect | pkg/resource/role/sdk.go:567-610 | one outcome: Terminal holds exactly for terminal errors, Recoverable follows any other outcome, all else keeps value and place |
| Conditions.TerminalErrors | pkg/resource/role/sdk.go:619-639 | which errors are terminal, one by one |
| Conditions.OutcomeContents | pkg/resource/role/sdk.go:567-610 | what is written: true with the error's text, or false without a message |
| Conditions.TerminalHoldsExactlyWhen | pkg/resource/role/sdk.go:556-590 | for lists with repeated kinds too: Terminal holds after an outcome exactly when it was a terminal error or one before the last Terminal condition held already |
| Conditions.FirstOfTwoStays | pkg/resource/role/sdk.go:556-590 | for example, success leaves the first of two Terminal conditions standing |
| Conditions.ConditionsOverAnyRun | pkg/resource/role/sdk.go:544-617 | over any sequence of outcomes: one condition per kind, Terminal by the last outcome, Recoverable by the last one that was not a terminal error, all else unchanged |
| Conditions.OnError | pkg/resource/role/manager.go:401-421 | the caller gets the terminal sentinel exactly for terminal errors and where an earlier Terminal condition is left standing, and otherwise the error itself; with one condition per kind, exactly for the listed errors |
| Conditions.OnSuccess | pkg/resource/role/manager.go:425-436 | the updated copy, or the resource itself when there was nothing to record |
| References.GetReferencedResourceState | pkg/resource/role/references.go:138-186 | when each of the four errors comes, and otherwise the ARN |
| References.HasArnExactlyWhen | pkg/resource/role/references.go:101-186 | a reference has an ARN exactly when it gives a name, its namespace is allowed, and the object there is not terminal, is synced and has an ARN: that one |
| References.RoleObject.ResolvePolicies | pkg/resource/role/references.go:192-228 | ARNs are appended in order up to the first reference that fails; success exactly when all resolve |
| References.RoleObject.ResolveReferences | pkg/resource/role/references.go:59-81 | the object's spec after a complete or failed resolution, exactly when there is no error, and whether the object has references, resolved or not |
| References.RoleObject.ClearResolvedReferences | pkg/resource/role/references.go:38-50 | a new object without the resolved values |
| References.ClearUndoesResolveExactlyWhenValid | pkg/resource/role/references.go:38-95 | clearing undoes a resolution, complete or failed midway, exactly when validation passes |
| References.BoundaryBesideReferenceIsLost | pkg/resource/role/references.go:38-50 | for example, a boundary given beside a reference to it is gone after clearing |
| References.ResolveClearResolveExactlyWhen | pkg/resource/role/references.go:38-81 | resolving, clearing and resolving again equals resolving once exactly when no policies stand beside references, and a boundary beside a reference only if that resolves |
| References.SuccessfulResolution | pkg/resource/role/references.go:138-228 | on success the policies are, in order, the ARNs of the referenced objects, each synced and not terminal |
| References.ResolvedBoundary | pkg/resource/role/references.go:101-132 | a boundary reference that resolves puts in the ARN of an object that is there, synced and not terminal; otherwise the boundary stays |
| References.ResolvedPolicies | pkg/resource/role/references.go:192-228 | after a complete or failed resolution: the policies given, then the ARNs of the references up to the first that has none |
| ManagerCache.KeyIsInjective | pkg/resource/role/manager_factory.go:58-61 | the key determines the call when account and region have no '/' |
| ManagerCache.ManagersMatchExactlyWhenKeysTell | pkg/resource/role/manager_factory.go:58-78 | for any set of calls: every interleaving hands each call a manager of its account and region exactly when no two of the calls share a key and differ in one of these |
| ManagerCache.SlashesMixKeysUp | pkg/resource/role/manager_factory.go:58-61 | two calls with a '/' for which that fails |
| ManagerCache.SlashFreeCallsMatch | pkg/resource/role/manager_factory.go:58-78 | so calls whose account and region have no '/' always get their own manager |
| ManagerCache.SettledKeyIsStable | pkg/resource/role/manager_factory.go:62-78 | once a key is cached and nobody is between lookup and store for it, every later call gets the same manager |
| ManagerCache.OneManagerExactlyWhenSettled | pkg/resource/role/manager_factory.go:62-78 | from any state, and in every interleaving, all callers for a key get one manager exactly when the key is cached and nobody is between lookup and store for it |
| ManagerCache.ReachedOneManagerExactlyWhenSettled | pkg/resource/role/manager_factory.go:62-78 | so from wherever a run has led |
| ManagerCache.TwoMissesBuildTwice | pkg/resource/role/manager_factory.go:62-78 | from any state in which a key is not cached, two callers that both miss get different managers and the later one stays |
| ManagerCache.ManagerFactory.LookUp | pkg/resource/role/manager_factory.go:62-68 | the read-locked section is a hit or a miss of the machine |
| ManagerCache.ManagerFactory.BuildAndStore | pkg/resource/role/manager_factory.go:70-78 | the write-locked section is a store of the machine |
| ManagerCache.ManagerFactory.ManagerFor | pkg/resource/role/manager_factory.go:48-79 | a call nobody interleaves with gets the cached manager, or a new one of its own that is added to the cache |
| InstanceProfile.SyncRole | pkg/resource/instance_profile/hooks.go:46-80 | reaches the desired role; refused exactly when a change is needed and the reading is stale; a pass cut short has at most emptied the slot |
| InstanceProfile.SdkDelete | pkg/resource/instance_profile/sdk.go:297-324 | deletion empties the slot and meets no conflict when its input agrees with the backend |

## Left out

- Calls that take effect although an error comes back: an injected failure is one without effect.
- Concurrent writers inside a pass: outside changes happen between passes.
- The role's whole pass: its update call cannot change Path and sends no nil Description, so it has no one-pass fixpoint. Its hooks are modelled one by one.
- The other gates and remaining calls of the role, instance-profile and OIDC updates (permissions boundary, trust policy, thumbprints).
- The backend's refusal to set AWS-owned tag keys that a desired list names.
- The user kind: it repeats the role, and its tag listing never advances its marker.
- IAM policy equality as JSON.
- Nil tag keys and values and nil inline documents where the code follows the pointer; they are excluded by precondition or type.
- Quotas other than the five versions and the single role of a profile, and case-insensitive names.
- Late initialization, creation, and the copying of response fields that no property mentions.
- Condition messages are the error's text; how the runtime formats it is not modelled.
- SDK transport, contexts, metrics, logging.
