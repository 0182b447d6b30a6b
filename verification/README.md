# Verified models of the platform's algorithmic cores

A Dafny 4.11 project that models the parts of the AI multi-agent platform whose correctness rests on an
algorithm or a protocol, and proves what they promise. `dafny verify dfyconfig.toml` checks all of it.

| module | models |
|---|---|
| `Graphs`, `StrongComponents`, `CycleBaseline` | the package dependency audit: Tarjan's recursion with its index, lowlink and stack, the cyclic components and the baseline gate |
| `TypeText`, `SchemaText`, `SchemaTree`, `SchemaMeaning` | the OpenAPI to TypeScript generator: text, precedence, the tree a schema describes, and which JSON values schema and type accept |
| `ProfileDocuments`, `ProfileStates`, `ProfileRuns`, `ProfileHistory`, `ProfileStore` | the mobile credential store over secure storage: the JSON document, single writes as crash points, legacy migration, whole runs, and the class with all its methods |
| `EventStream`, `ResponseStream` | the incremental server-sent-event parser and the commit rule of a conversation response |
| `OffloadRegistry` | the shared offload registry with weak-reference callbacks that fire inside `resolve` |
| `SeccompFilters` | the two seccomp programs, run by an interpreter for classic BPF |
| `ReleaseVersions`, `ReleaseTexts` | SemVer comparison, the choice of the latest mobile release and the answer it gives |
| `OutlierMatching` | matching current maintainability outliers with a baseline by fingerprint |
| `RebindingDns` | the DNS question decoder and the responder of the rebinding fixture |
| `ConversationAttention`, `RetryTransport` | cursor paging with repeated-cursor detection, and the bounded retry loop |
| `Results`, `Sorting`, `Text` | options, results, JSON trees; the stable sort; trimming |

Code that changes state is a class or a method with loops, proved against functions on values; the laws are
lemmas about those functions. Where a promise needs a condition, the condition is stated and shown to be exact.

## What the proofs found

- The generator drops valid values at the object branch in two cases: `properties` without `type`, and an
  object without properties that leaves `additionalProperties` out, also inside a list of types
  (`ObjectSoundIffStated` is exact).
- A reference to the schema `Workspace` renders the type name that is exported for `WorkspaceTransport`, and
  it is the only reference that can lose values (`ReferenceSoundIffNotWorkspace` is exact,
  `WorkspaceReferenceLosesText` gives the input).
- An `allOf` with a union inside is printed without parentheses and read differently
  (`ParsesAsDescribedIffUnionFree` is exact). The misread type is only wider, so soundness holds without
  any condition on precedence (`GeneratedTypeIsSound`, `MisreadIntersectionIsWider`).
- The event parser normalizes every read on its own, so a CR LF cut between two reads keeps its CR
  (`ChunkwiseNormalization` is exact, `SplitPairChangesData` shows the difference).
- Numeric prerelease identifiers with leading zeros, which the version pattern admits, break the order:
  canonical versions that tie with such a version need not tie with each other (`TiesConsistentIffCanonical`
  is exact), and beside such a release the older of two others can be chosen as the latest
  (`ChoiceRightIffCanonical` is exact).
- A factory that resolves its own repository while running makes the registry forget the owners registered
  meanwhile, and two living owners can hold different offloads (`ResolveReentrant` is exact,
  `ReentrantFactorySplitsOwners` is the run).
- The greedy outlier matching depends on the order of the entries; it is silent in every order of modules and
  functions exactly for matched inventories (`InventoriesSilentIffMatched`).
- A crash after any storage write leaves every server either its old or its new credential, over whole runs
  (`CrashesAreAtomic`), although an operation writes token and document separately.
- A legacy pair with an unusable URL makes every operation that loads the document fail until it is removed;
  a valid one survives a crash after any single write (`MigrationStates`).

## Reading the model

- JSON values are trees with real numbers. JSON text, UTF-8 and TypeScript white space are not modelled: the
  generator produces tokens, and type names never look like keywords.
- A schema is a record of the keywords the generator reads. The members of `properties` stand in name order,
  the order the generator walks them in, and a list-valued `type` is not empty, as JSON Schema asks.
  Validity follows references at most k times; soundness holds for every k.
- `UrlLaws` states what is asked of the URL parser: the origin of a bare URL is plain text that parses to
  itself, and a host is not blank. The new identities of profiles are parameters, required to be unused;
  the two legacy keys are deleted in either order. An empty stored text counts as an absent key, as in the
  source, and text that is no JSON stands for a JSON value that is no document.
- `localeCompare` is an arbitrary total order in `ReleaseVersions`, and an arbitrary total preorder in
  `ConversationAttention`. Section 11 of Semantic Versioning 2.0.0 orders text identifiers by ASCII, which
  `localeCompare` does not.
- Version numbers are unbounded naturals; delays are exact reals.
- In `OffloadRegistry` a run is a list of events; the events nested in a resolve are the collections and
  resolves that its factory and the creation of its reference trigger. `busy` holds the repositories whose
  factory is running, which are not resolved again except in `ResolveReentrant`, and `active` the owners that
  running calls hold.
- The network is an arbitrary function from attempt or request number to outcome, so every sequence of
  outcomes is covered.
- `Examine`, `Finish`, `PopComponent`, `Migrate`, `Drain`, `ParseLines`, `ParseLine`, `CollectPage`,
  `RunAttempt`, `Append`, `Insert` and `InsertAnyway` name blocks that stand inline in the source;
  `ClearProfile` and `ClearSelected` are the two cases of `clear`, and `ResolveReentrant` is the second half
  of `resolve`.

## Model

| member | source | states |
|---|---|---|
| `StrongComponents.StronglyConnectedComponents` | scripts/ci/package_dependency_audit.py:80-121 | for every closed graph the result is the list of all classes of mutual reachability, each once, every class and the whole list in Python's order |
| `StrongComponents.TogetherIffMutual` | scripts/ci/package_dependency_audit.py:80-121 | two nodes share a returned component exactly when each reaches the other, and no node is in two components |
| `StrongComponents.ResultDeterminedByEdges` | scripts/ci/package_dependency_audit.py:80-121 | the result depends on the edges alone: dictionary order and target order never change it |
| `StrongComponents.TarjanSearch.Visit` | scripts/ci/package_dependency_audit.py:90-115 | the recursive visit terminates, keeps the search invariant and leaves the node either assigned or on the stack with a lowlink that is a reachable stacked index no lower than any escape of its subtree |
| `StrongComponents.TarjanSearch.Examine` | scripts/ci/package_dependency_audit.py:98-103 | one round over a target keeps the scan invariant in its three cases (new, stacked, already assigned) and leaves all other lowlinks alone |
| `StrongComponents.TarjanSearch.Finish` | scripts/ci/package_dependency_audit.py:105-115 | leaving the node or popping its component both restore the invariant |
| `StrongComponents.TarjanSearch.PopComponent` | scripts/ci/package_dependency_audit.py:108-115 | the popping loop removes exactly the segment above and including the node, and collects it |
| `StrongComponents.EnterKeeps` | scripts/ci/package_dependency_audit.py:92-96 | numbering and stacking a node reachable from all running visits keeps the invariant |
| `StrongComponents.LeaveKeeps` | scripts/ci/package_dependency_audit.py:105-106 | a node whose lowlink lies below its index may stay on the stack: a running visit still reaches back below it |
| `StrongComponents.SegmentIsClass` | scripts/ci/package_dependency_audit.py:105-115 | when lowlink equals index, the stack segment from the node up is exactly one class of mutual reachability |
| `StrongComponents.CloseIsComponent` | scripts/ci/package_dependency_audit.py:108-115 | the sorted popped segment is a complete component |
| `StrongComponents.CloseKeeps` | scripts/ci/package_dependency_audit.py:108-115 | popping a component keeps the invariant |
| `StrongComponents.SearchComplete` | scripts/ci/package_dependency_audit.py:117-121 | once every node is numbered and no visit runs, the sorted components partition the nodes by mutual reachability |
| `CycleBaseline.Audit` | scripts/ci/package_dependency_audit.py:177-212 | the exit code is 1 exactly when the baseline is enforced and some cycle through at least two packages, in the graph whose edges are exactly the imports between packages, lies in no baseline entry |
| `CycleBaseline.SilentIffCyclesAllowed` | scripts/ci/package_dependency_audit.py:155-163 | no unexpected cycle is reported exactly when every closed walk through two or more nodes lies inside one baseline entry |
| `CycleBaseline.CyclicIffClosedWalk` | scripts/ci/package_dependency_audit.py:124-127 | without self-edges there is no cyclic component exactly when the graph has no closed walk at all |
| `CycleBaseline.CycleInComponent` | scripts/ci/package_dependency_audit.py:124-127 | every cycle lies inside one cyclic component |
| `CycleBaseline.ComponentTour` | scripts/ci/package_dependency_audit.py:124-127 | every cyclic component has one closed walk through all its nodes |
| `CycleBaseline.CyclicMembers` | scripts/ci/package_dependency_audit.py:124-127 | the cyclic components are the returned components of more than one node |
| `CycleBaseline.UnexpectedMembers` | scripts/ci/package_dependency_audit.py:155-163 | the reported cycles are those that no baseline entry contains |
| `CycleBaseline.DependencyGraph` | scripts/ci/package_dependency_audit.py:64-77 | one node per package, all targets nodes, no self-edges, an edge exactly where an import candidate points at another package, each target tuple sorted and without duplicates |
| `CycleBaseline.SortedSet` | scripts/ci/package_dependency_audit.py:77 | the sorted tuple of a set has each of its members once, in order |
| `CycleBaseline.TargetTopLevel` | scripts/ci/package_dependency_audit.py:55-61 | the target is the known package that is the whole first component after the platform prefix, and there is one whenever that component is known |
| `SchemaMeaning.GeneratedTypeIsSound` | scripts/generate_frontend_contracts.py:105-180 | every JSON value valid under a schema is in the generated type, for all nested schemas and any number of references followed |
| `SchemaMeaning.ObjectSoundIffStated` | scripts/generate_frontend_contracts.py:131-178 | at the object branch, also when a list of types leads there, the generated type is sound exactly when the schema is typed and, without properties, states `additionalProperties` |
| `SchemaMeaning.KindMissesMember` | scripts/generate_frontend_contracts.py:140-162 | without properties and `additionalProperties` no alternative of a list of types contains an object with a member |
| `SchemaMeaning.OrJoinContainsOnly` | scripts/generate_frontend_contracts.py:131-138 | the text of a union contains no value outside its variants |
| `SchemaMeaning.UntypedObjectTooNarrow` | scripts/generate_frontend_contracts.py:154-155 | `properties` without `type` renders an object type although any non-object is valid |
| `SchemaMeaning.UnstatedObjectTooNarrow` | scripts/generate_frontend_contracts.py:156-162 | an object schema, alone or in a list of types, without properties and without `additionalProperties` renders a type that misses valid objects |
| `SchemaMeaning.BindContains` | scripts/generate_frontend_contracts.py:124-129 | joining two variants with ` & ` keeps every common value even where the text splits a union |
| `SchemaMeaning.AndJoinContains` | scripts/generate_frontend_contracts.py:124-129 | the text of an `allOf` contains every value that all its variants contain |
| `SchemaMeaning.OrJoinContains` | scripts/generate_frontend_contracts.py:124-138 | the text of a union contains every value of each variant |
| `SchemaMeaning.MisreadIntersectionIsWider` | scripts/generate_frontend_contracts.py:124-129 | an unparenthesised union inside an `allOf` widens the type: the text contains values the schema refuses |
| `SchemaMeaning.ReferenceSoundIffNotWorkspace` | scripts/generate_frontend_contracts.py:109-115 | a reference with an exported name is sound for all definitions and values exactly when it is not a reference to Workspace |
| `SchemaMeaning.WorkspaceReferenceLosesText` | scripts/generate_frontend_contracts.py:109-115 | the input: with Workspace typed as a string and every exported schema as null, the empty text is valid under a reference to Workspace and outside its rendered type |
| `SchemaText.TextParsesToDenoted` | scripts/generate_frontend_contracts.py:105-180 | every generated text parses, `[]` over `&` over `/`, to exactly one type: the one the proofs speak about |
| `SchemaText.RenderDenotes` | scripts/generate_frontend_contracts.py:105-180 | the text built by string joining is the printed form of the denoted type, for every schema that renders |
| `SchemaText.DenotedShaped` | scripts/generate_frontend_contracts.py:105-180 | the denoted type never nests what the printer cannot write, at any depth |
| `SchemaText.RenderKindDenotes` | scripts/generate_frontend_contracts.py:140-178 | the same for the branches on `type` |
| `SchemaText.RenderMembersDenote` | scripts/generate_frontend_contracts.py:163-178 | the same for the property lines with their optional marks |
| `SchemaText.Deduplicate` | scripts/generate_frontend_contracts.py:93-98 | the loop keeps the first occurrence of every part, in order |
| `SchemaText.DeduplicatedMapped` | scripts/generate_frontend_contracts.py:93-98 | removing equal texts and removing equal types give the same result, since printing is injective |
| `TypeText.ParsePrintedType` | scripts/generate_frontend_contracts.py:148-152 | printing a type and parsing the text under TypeScript precedence gives the type back, whatever follows it |
| `TypeText.PrintInjective` | scripts/generate_frontend_contracts.py:93-98 | different types have different texts |
| `TypeText.SeveralNeedParentheses` | scripts/generate_frontend_contracts.py:150-151 | every item text that is a union or an intersection triggers the added parentheses |
| `SchemaTree.ParsesAsDescribedIffUnionFree` | scripts/generate_frontend_contracts.py:124-152 | the text reads as the type tree the schema describes exactly when no `allOf` of several kept variants has a variant whose text is a top-level union |
| `SchemaTree.DescribedMatches` | scripts/generate_frontend_contracts.py:124-152 | on such schemas the denoted type has the described tree, at every depth |
| `SchemaTree.CleanIsUnionFree` | scripts/generate_frontend_contracts.py:124-129 | a described tree that TypeScript text can express comes only from such schemas |
| `SchemaTree.TypeFromTree` | scripts/generate_frontend_contracts.py:105-180 | reading a type as a tree loses nothing |
| `ProfileHistory.TokenIsLastStored` | mobile/src/session.ts:93-97 | after any run from an empty store a server's token is t exactly when t was the last credential stored for it and not removed or cleared since |
| `ProfileHistory.RunRefines` | mobile/src/session.ts:99-123 | any run from any sound storage, legacy or not, refines the list of servers with one selection and one credential each |
| `ProfileHistory.ReachedIsWellFormed` | mobile/src/session.ts:268-281 | in every reached storage identities and base URLs are pairwise distinct and the selection is null or listed |
| `ProfileHistory.OperationRefines` | mobile/src/session.ts:252-294 | one operation, its load and migration included, does to the meaning of the storage what it says, and at every crash point all other servers keep their credentials |
| `ProfileHistory.CrashesAreAtomic` | mobile/src/session.ts:252-328 | in any run whose operations may each stop after any storage write, every operation is all or nothing for every credential, and the storage stays sound |
| `ProfileHistory.CredentialsStayWithTheirServer` | mobile/src/session.ts:93-97 | from an empty store, through any crashes, a token found for a server was stored for that very server |
| `ProfileHistory.InterruptedIsAtomic` | mobile/src/session.ts:252-328 | one operation stopped after any number of its writes leaves each server its old or its new credential |
| `ProfileHistory.PossibleWasStored` | mobile/src/session.ts:252-294 | a credential that any selection of the operations can leave was there at the start or stored by one of them |
| `ProfileHistory.FinalIsLastStored` | mobile/src/session.ts:252-294 | the abstract history: the final credential is the last stored one with no removal or clearing after it, or the initial one untouched |
| `ProfileRuns.LoadIsInvisible` | mobile/src/session.ts:296-328 | loading never changes the listed servers, the selection or any credential, not even in a storage left behind by a crash between two writes |
| `ProfileRuns.MigrationStates` | mobile/src/session.ts:311-326 | after each single write of the legacy migration, deletions in either order, the storage still means the legacy pair |
| `ProfileRuns.LegacyProfileCanonical` | mobile/src/session.ts:306-325 | the migrated document is one that reading would not change |
| `ProfileRuns.StoreExisting` | mobile/src/session.ts:264-292 | storing for a known server replaces its token and name only |
| `ProfileRuns.StoreNew` | mobile/src/session.ts:264-292 | storing for a new server appends one profile with the new token |
| `ProfileRuns.SelectRefines` | mobile/src/session.ts:99-107 | selecting changes the selection only |
| `ProfileRuns.RemoveRefines` | mobile/src/session.ts:109-123 | removing drops one server and its token and moves the selection to the first remaining server only when it pointed there |
| `ProfileRuns.ClearRefines` | mobile/src/session.ts:252-256 | clearing drops one token and nothing else |
| `ProfileRuns.RecordRefines` | mobile/src/session.ts:125-145 | recording a connection changes no server, selection or credential |
| `ProfileRuns.TwoWrites` | mobile/src/session.ts:283-292 | a token write followed by a document write: both intermediate storages are sound and leave the others alone |
| `ProfileDocuments.ReadBackIffCanonical` | mobile/src/session.ts:330-332 | a saved document is read back unchanged exactly when it is canonical |
| `ProfileDocuments.ReadIsCanonical` | mobile/src/session.ts:419-443 | whatever is read successfully is canonical |
| `ProfileDocuments.ProfileReadBack` | mobile/src/session.ts:445-464 | a canonical profile survives writing and reading |
| `ProfileDocuments.NormalizeIdempotent` | mobile/src/session.ts:392-417 | a normalized server URL normalizes to itself |
| `ProfileDocuments.UniqueStringsFixedIff` | mobile/src/session.ts:516-518 | `uniqueStrings` changes nothing exactly on trimmed, non-blank, duplicate-free lists, and always yields one |
| `ProfileStore.MobileSessionStore.LoadDocument` | mobile/src/session.ts:296-328 | fails exactly on an unusable legacy URL; otherwise the stored document is settled and every account is as before |
| `ProfileStore.MobileSessionStore.Migrate` | mobile/src/session.ts:306-327 | performs the four writes of the migration in order |
| `ProfileStore.MobileSessionStore.ListProfiles` | mobile/src/session.ts:69-71 | returns the loaded profiles, whose servers are exactly the listed ones, in order |
| `ProfileStore.StaysSound` | mobile/src/session.ts:99-145 | every completed operation leaves a storage from which the next one can start |
| `ProfileStore.MobileSessionStore.SelectedProfile` | mobile/src/session.ts:73-79 | returns the profile of the selected server |
| `ProfileStore.MobileSessionStore.Current` | mobile/src/session.ts:81-91 | a session exactly when the selected server holds a non-empty credential |
| `ProfileStore.MobileSessionStore.GetToken` | mobile/src/session.ts:93-97 | returns the credential of the server the identity names, or of the selected server, and fails on a malformed identity |
| `ProfileStore.MobileSessionStore.SelectProfile` | mobile/src/session.ts:99-107 | writes what selecting means for a listed identity, and only loads otherwise |
| `ProfileStore.MobileSessionStore.RemoveProfile` | mobile/src/session.ts:109-123 | deletes the token, then saves the shortened document, and only when the identity is listed |
| `ProfileStore.MobileSessionStore.RecordSuccessfulConnection` | mobile/src/session.ts:125-145 | saves the compatibility data of a listed profile |
| `ProfileStore.MobileSessionStore.Activate` | mobile/src/session.ts:147-160 | stores the trimmed token exactly when the URL is usable, the token not blank and the server accepts it; otherwise nothing is written |
| `ProfileStore.MobileSessionStore.Pair` | mobile/src/session.ts:162-228 | once a credential is granted by the trusted server it is stored before validation and stays readable unless validation rejects it; other servers keep theirs, and every refusal before that point writes nothing |
| `ProfileStore.StoredThenCleared` | mobile/src/session.ts:213-228 | taking back a rejected pairing credential removes that credential and nothing else |
| `ProfileStore.MobileSessionStore.ClearProfile` | mobile/src/session.ts:252-256 | deletes the token of a well-formed identity |
| `ProfileStore.MobileSessionStore.ClearSelected` | mobile/src/session.ts:252-256 | clears the credential of the selected server |
| `ProfileStore.MobileSessionStore.StoreCredential` | mobile/src/session.ts:258-294 | writes the token, then the document with the server selected |
| `EventStream.ParseChunks` | frontend/src/api/conversationResponses.ts:114-137 | over all reads the incremental parser yields what one-shot parsing of the chunkwise normalized text yields |
| `EventStream.ChunkingIndependent` | frontend/src/api/conversationResponses.ts:114-137 | for every chunking that never splits a CR LF the frames are those of the whole normalized text |
| `EventStream.ChunkwiseNormalization` | frontend/src/api/conversationResponses.ts:121 | normalizing chunk by chunk equals normalizing the whole exactly when no CR LF is split |
| `EventStream.SplitPairChangesData` | frontend/src/api/conversationResponses.ts:121 | splitting a CR LF leaves a carriage return in the data, for every one-line event |
| `EventStream.EventsSurviveChunking` | frontend/src/api/conversationResponses.ts:114-154 | events written in the event-stream format come back unchanged, however the text is cut |
| `EventStream.BlocksAppend` | frontend/src/api/conversationResponses.ts:122-129 | blocks found in a prefix stay, and its leftover is all the rest of the text needs |
| `EventStream.BlocksRest` | frontend/src/api/conversationResponses.ts:122-129 | the leftover of the buffer holds no blank line |
| `EventStream.IndexOfBlank` | frontend/src/api/conversationResponses.ts:122 | the leftmost blank line |
| `EventStream.Drain` | frontend/src/api/conversationResponses.ts:122-129 | the inner loop yields the frames of all complete blocks and keeps the leftover |
| `EventStream.ParseBlock` | frontend/src/api/conversationResponses.ts:139-154 | the loop over the lines finds the frame of a block: the last event name and all data lines joined, or none without data |
| `EventStream.BlocksOfEncoded` | frontend/src/api/conversationResponses.ts:139-154 | parsing encoded events in one shot gives them back |
| `ResponseStream.Stream` | frontend/src/api/conversationResponses.ts:84-106 | the result is the last committed message; the first error frame ends the stream with its error whatever was committed; the callbacks see exactly the known events before that |
| `OffloadRegistry.Registry.LivingOwnersShare` | src/ai_multi_agent_platform/persistence_offload.py:17-31 | living owners of one repository hold one offload, and an entry exists exactly when its repository has a living owner |
| `OffloadRegistry.Registry.Resolve` | src/ai_multi_agent_platform/persistence_offload.py:37-59 | keeps the registry valid although collections and other resolves fire in the factory and in the weak-reference creation; the entry being resolved and siblings' references survive; an existing offload is shared, a requested one preferred to a new one |
| `OffloadRegistry.Registry.ResolveReentrant` | src/ai_multi_agent_platform/persistence_offload.py:46-59 | when the factory may resolve its own repository, the registry stays right exactly when no other owner got an offload for it meanwhile, and owners go on sharing exactly when that offload is the same |
| `OffloadRegistry.ReentrantFactorySplitsOwners` | src/ai_multi_agent_platform/persistence_offload.py:46-59 | the run: another owner resolves the repository inside the factory, and two living owners end up with different offloads |
| `OffloadRegistry.Registry.InsertAnyway` | src/ai_multi_agent_platform/persistence_offload.py:54-59 | the unconditional write keeps the registry right exactly when the new owner is the only living one |
| `OffloadRegistry.NewHolder` | src/ai_multi_agent_platform/persistence_offload.py:54-59 | one more holder keeps the sharing exactly when the others hold its offload |
| `OffloadRegistry.Registry.Run` | src/ai_multi_agent_platform/persistence_offload.py:37-84 | every sequence of resolves and collections, nested ones included, in which no factory resolves its own repository keeps the registry valid and never moves a holder to another offload |
| `OffloadRegistry.Registry.OwnerReference` | src/ai_multi_agent_platform/persistence_offload.py:61-69 | the new reference is fresh although its allocation may collect other owners first |
| `OffloadRegistry.Registry.ReleaseOwner` | src/ai_multi_agent_platform/persistence_offload.py:71-84 | removes exactly the released reference and the entry when it was the last |
| `OffloadRegistry.Registry.Fire` | src/ai_multi_agent_platform/persistence_offload.py:66-84 | one callback keeps the owner lists in step with the pending callbacks |
| `OffloadRegistry.Registry.CollectOwner` | src/ai_multi_agent_platform/persistence_offload.py:66-84 | collecting an owner fires all its callbacks, in any order, and no other |
| `OffloadRegistry.Registry.CollectAll` | src/ai_multi_agent_platform/persistence_offload.py:26-30 | several collections in a row leave every active owner alone |
| `OffloadRegistry.Registry.Append` | src/ai_multi_agent_platform/persistence_offload.py:49-52 | adding the new owner and writing the entry back restores an entry that a callback dropped meanwhile |
| `OffloadRegistry.Registry.Insert` | src/ai_multi_agent_platform/persistence_offload.py:54-59 | a first resolve adds one entry with one owner; the registry stays valid exactly when there was no entry |
| `OffloadRegistry.FreshEntryIffAbsent` | src/ai_multi_agent_platform/persistence_offload.py:54-58 | writing the new entry keeps all owners listed exactly when no entry for the repository appeared while the factory ran |
| `OffloadRegistry.ReleasedListed` | src/ai_multi_agent_platform/persistence_offload.py:80-84 | a release drops no other repository's entry and no sibling's reference |
| `OffloadRegistry.AppendedListed` | src/ai_multi_agent_platform/persistence_offload.py:49-51 | appending and writing back keeps lists and callbacks in step, also after a dropped entry |
| `OffloadRegistry.AppendedShared` | src/ai_multi_agent_platform/persistence_offload.py:47-52 | the new owner shares the offload of the others |
| `SeccompFilters.NoNetworkFilter` | scripts/ci/socket_denied_exec.py:93-109 | for every list the built program is well formed and decides: kill on a foreign architecture, EPERM on x32 or listed numbers, allow otherwise |
| `SeccompFilters.NoNetworkDecides` | scripts/ci/socket_denied_exec.py:93-109 | the interpreted program reaches that verdict on every input |
| `SeccompFilters.ListDecides` | scripts/ci/socket_denied_exec.py:102-109 | from any comparison on the program searches the rest of the list |
| `SeccompFilters.WellFormedReturns` | scripts/ci/socket_denied_exec.py:93-109 | a program with forward jumps in range and a final return halts with a verdict on every input |
| `SeccompFilters.InetDecides` | scripts/ci/inet_socket_deny_exec.py:72-88 | the hand-laid program denies exactly x32 numbers and socket calls for the two internet families, kills foreign architectures and allows the rest |
| `SeccompFilters.InetWellFormed` | scripts/ci/inet_socket_deny_exec.py:72-88 | all jumps of the hand-laid program are forward and in range, and it ends in a return |
| `SeccompFilters.InetNoStricterIffSocketListed` | scripts/ci/inet_socket_deny_exec.py:72-88 | the hand-laid filter is never stricter than the generated one exactly when the socket call is on the list |
| `SeccompFilters.InstalledFiltersOrdered` | scripts/ci/socket_denied_exec.py:43-62 | with the installed list the hand-laid filter is never the stricter one |
| `ReleaseVersions.CompareSemver` | mobile/src/updates.ts:220-245 | the index loops compute the recursive comparison of the two parsed versions, and fail on text that is no version |
| `ReleaseVersions.CompareIsPrecedence` | mobile/src/updates.ts:220-245 | on versions without leading zeros the sign is precedence as section 11 of Semantic Versioning 2.0.0 orders it, zero only for equal core and prerelease |
| `ReleaseVersions.CompareAntisymmetric` | mobile/src/updates.ts:220-245 | swapping the arguments flips the sign, for all versions |
| `ReleaseVersions.CompareTransitive` | mobile/src/updates.ts:220-245 | the comparison is transitive on versions without leading zeros |
| `ReleaseVersions.TiesConsistentIffCanonical` | mobile/src/updates.ts:237-242 | canonical versions that tie with a version tie with each other exactly when none of its numeric identifiers has a leading zero |
| `ReleaseVersions.LeadingZeroTies` | mobile/src/updates.ts:237-239 | a version with a leading zero ties with an older and a newer canonical version |
| `ReleaseVersions.PrereleaseSign` | mobile/src/updates.ts:230-244 | the prerelease loop decides by the first difference, a proper prefix being lower |
| `ReleaseVersions.DiscoverUpdate` | mobile/src/updates.ts:66-154 | with comparable versions the answer is `current` or `update_available` exactly when the newest candidate passes its provenance checks, and then according to whether any candidate outranks the installed version; the version it names is maximal; an announced update always outranks the installed one |
| `ReleaseVersions.NewestIsMaximal` | mobile/src/updates.ts:66-75 | among candidates without leading zeros none outranks the chosen release |
| `ReleaseVersions.CurrentIffNothingNewer` | mobile/src/updates.ts:135-137 | the chosen release is maximal, and it outranks the installed version exactly when some candidate does |
| `ReleaseVersions.AnswerMeans` | mobile/src/updates.ts:75-154 | what the answers `current` and `update_available` say about all candidates |
| `ReleaseVersions.UpdateIsNewer` | mobile/src/updates.ts:135-137 | an announced update outranks the installed version, whatever the candidates |
| `ReleaseTexts.ChoiceRightIffCanonical` | mobile/src/updates.ts:66-75 | a release never disturbs the choice among ordinary releases exactly when its version has no numeric identifier with a leading zero |
| `ReleaseTexts.LeadingZeroHidesNewest` | mobile/src/updates.ts:66-75 | beside any release with a leading zero there are two ordinary ones of which the older is chosen |
| `ReleaseTexts.TextFor` | mobile/src/updates.ts:247-254 | every list of two or more sensible identifiers is read back behind any core that was read |
| `OutlierMatching.CompareInventories` | scripts/ci/maintainability_guard.py:417-457 | modules and functions: matched inventories report nothing, moves without fingerprint are always reported, excused moves never exceed what the baseline held |
| `OutlierMatching.InventoriesSilentIffMatched` | scripts/ci/maintainability_guard.py:417-457 | the comparison is silent in every order of the modules, and of the functions inside each module, exactly when modules and functions are matched |
| `OutlierMatching.LoudOrder` | scripts/ci/maintainability_guard.py:417-457 | for unmatched inventories there is an order of modules and functions that reports something |
| `OutlierMatching.ReorderedEntries` | scripts/ci/maintainability_guard.py:313-316 | reordering modules and the functions inside them keeps all entries |
| `OutlierMatching.Drained` | scripts/ci/maintainability_guard.py:425-436 | while nothing with a fingerprint is reported, its counter pays for every kept and every moved entry |
| `OutlierMatching.LastIsReported` | scripts/ci/maintainability_guard.py:425-436 | an unexcused moved entry that comes last breaks the silence |
| `OutlierMatching.CompareEntries` | scripts/ci/maintainability_guard.py:425-436 | one loop with its shared counter reports nothing on matched entries, every moved entry without fingerprint, and excuses no more than the baseline held |
| `OutlierMatching.FingerprintCounts` | scripts/ci/maintainability_guard.py:399-407 | the counter holds, for every fingerprint, the active extremes of the baseline |
| `OutlierMatching.Consumed` | scripts/ci/maintainability_guard.py:410-414 | a fingerprint is taken exactly when one is left, and then once |
| `OutlierMatching.ExcusedAtMostHeld` | scripts/ci/maintainability_guard.py:425-436 | for every fingerprint at most as many moved entries are excused as the baseline held active |
| `OutlierMatching.SilentInEveryOrderIffMatched` | scripts/ci/maintainability_guard.py:425-436 | nothing is reported in every order of the entries exactly when the moved entries are covered by what the kept ones leave |
| `OutlierMatching.MatchedIffInjective` | scripts/ci/maintainability_guard.py:425-436 | with unique keys this means: every moved entry has a fingerprint and none moved more often than it vanished |
| `OutlierMatching.UnmatchedOrder` | scripts/ci/maintainability_guard.py:425-436 | for unmatched inventories there is an order that reports something |
| `OutlierMatching.HeldIsKeptOrVanished` | scripts/ci/maintainability_guard.py:421-430 | with unique keys the held entries split into kept and vanished ones |
| `OutlierMatching.Books` | scripts/ci/maintainability_guard.py:425-436 | conservation: what leaves the counter is paid for by kept or excused entries, and entries are reported only from an empty counter |
| `OutlierMatching.UnmarkedReported` | scripts/ci/maintainability_guard.py:410-414 | entries without a fingerprint are never excused |
| `RebindingDns.DecodeQuestion` | scripts/ci/bifrost_rebinding_dns.py:88-109 | the loop terminates inside the packet and finds the labels, or the first fault in its order |
| `RebindingDns.DecodeInvertsEncode` | scripts/ci/bifrost_rebinding_dns.py:88-109 | behind any header and before any rest, an encoded question of ASCII labels decodes to itself up to case |
| `RebindingDns.DecodedIsEncoded` | scripts/ci/bifrost_rebinding_dns.py:88-109 | only encoded questions decode, and the reported end is the end of the encoding |
| `RebindingDns.ResponseRepeatsQuestion` | scripts/ci/bifrost_rebinding_dns.py:112-139 | a controlled response keeps the transaction id and decodes to the same question and end offset |
| `RebindingDns.AnswerReadBack` | scripts/ci/bifrost_rebinding_dns.py:126-139 | a client that follows the compression pointer reads from the response the address given away under the name it asked for, and no answer where none was given |
| `RebindingDns.DnsState.TargetResponse` | scripts/ci/bifrost_rebinding_dns.py:112-139 | only well-formed questions for other names or classes are passed on; the answer given, the counters and the response agree |
| `RebindingDns.DnsState.constructor` | scripts/ci/bifrost_rebinding_dns.py:28-47 | an ASCII host name is kept without trailing dots and in lower case |
| `RebindingDns.DnsState.AnswerA` | scripts/ci/bifrost_rebinding_dns.py:49-54 | the first query since the reset gets the public address, every later one the rebound address |
| `RebindingDns.DnsState.RecordAaaa` | scripts/ci/bifrost_rebinding_dns.py:56-58 | counts one query |
| `RebindingDns.DnsState.RecordForward` | scripts/ci/bifrost_rebinding_dns.py:60-64 | counts one forward, and a failure when it failed |
| `RebindingDns.DnsState.Reset` | scripts/ci/bifrost_rebinding_dns.py:66-72 | the next query is again the first |
| `ConversationAttention.ListNotifications` | frontend/src/api/conversationAttention.ts:11-43 | with cursors from a finite set it ends after at most one fetch more than there are cursors, fails exactly on a repeated cursor, and otherwise returns every match once, in its last version, newest first |
| `ConversationAttention.LatestIsLastMatch` | frontend/src/api/conversationAttention.ts:22-32 | the map holds exactly the last matching occurrence of every identity |
| `ConversationAttention.CollectPage` | frontend/src/api/conversationAttention.ts:22-32 | one page extends the map by its matches, in order |
| `ConversationAttention.SortedListing` | frontend/src/api/conversationAttention.ts:43 | sorting keeps the entries and their distinctness and orders them newest first |
| `RetryTransport.RequestRaw` | frontend/src/api/transport.ts:136-191 | at most `maxReadRetries` + 1 attempts and one for unsafe methods; only an ok response is returned; the throw after the loop is unreachable; the requested delay is at most `retryDelayMs` * m * (m + 1) / 2; after a cancellation nothing reaches the network |
| `RetryTransport.RunAttempt` | frontend/src/api/transport.ts:142-181 | an attempt is repeated exactly when attempts are left, its outcome is transient and the delay is not interrupted; the error otherwise thrown is exact |
| `RetryTransport.RetryDelay` | frontend/src/api/transport.ts:262-288 | an interrupted delay is reported, and only a positive delay looks at the signal |
| `RetryTransport.CancelStops` | frontend/src/api/transport.ts:206-214 | after a cancellation another attempt starts only without delay, and fails before the network |
| `RetryTransport.DelaySumClosed` | frontend/src/api/transport.ts:263-264 | the delays before k further attempts sum to the k-th triangular number times the base delay |
| `RetryTransport.OnlySafeRetry` | frontend/src/api/transport.ts:193-197 | no unsafe method gets a second attempt under any policy |

## Left out

- All HTTP, sockets, files, subprocesses, camera and user interface code: `fetch`, storage and servers are inputs.
- `prctl`, `exec` and the kernel beyond interpreting the filter program; the 16-bit length field of the program header.
- Import scanning and fingerprinting of syntax trees: import candidates and fingerprints are inputs.
- The TOML parsing and its error messages in the package audit, and the printed summary.
- `render_types` beyond the renaming in `SCHEMA_EXPORTS`: the file header and the comparison with the generated file.
- Schema keywords the generator ignores, such as `pattern` or `minimum`: they only shrink the set of valid values.
- TypeScript beyond the union, intersection, array, record and object types the generator writes; excess-property checks.
- Real threads: every locked section of the registry and of the DNS state is one step, except for the re-entrant callbacks.
- The pairing URI of the QR code, upper-casing of pairing codes, and the message texts of errors.
- The URL checks on release pages and assets in `updates.ts`: each release carries their outcome.
- The message texts and the final sorting of the regressions in `compare_inventories`: reported entries stand for them.
- Forwarding of foreign DNS queries to the upstream resolver.
- The command clients in `frontend/src/api`, and the acceptance and conformance validators: lists of independent checks.
- `Number` precision above 2^53, `repr` of floats and float rounding of delays.
- ProfileHistory.TokenIsLastStored: speaks of runs whose operations finish, since a crash may keep the last operation from taking place; ProfileHistory.CrashesAreAtomic covers runs with crashes.
- ReleaseVersions.NewestIsMaximal: asks for candidates without leading zeros in numeric identifiers, since otherwise the comparison is no order; ReleaseTexts.ChoiceRightIffCanonical shows that exactly such releases disturb the choice.
- OffloadRegistry.Registry.Resolve: asks that no factory resolves its own repository, since otherwise owners are lost; OffloadRegistry.Registry.ResolveReentrant covers one such level and says exactly when.
- OffloadRegistry.Registry.Run: skips requests for a repository whose factory is running, for the same reason.
- RebindingDns.DnsState.constructor: case folding of host names outside ASCII, since questions are ASCII.
- ConversationAttention.ListNotifications: asks for cursors from a finite set, since a server that invents a new cursor for every page is never left.
- RetryTransport.RequestRaw: takes the method in upper case and leaves out the headers.
