# Verified model of the server framework's core

A Dafny model of the framework's four hardest pieces, with proofs for all inputs, all runs and all
interleavings. Check it with `dafny verify dfyconfig.toml`.

**The schema rewriter** (`src/capability/sanitize.rs`) is a small compiler pass over JSON schemas.
`StripMeta` drops meta-fields, `InlineRefs` inlines possibly cyclic `$defs`, `Flatten` turns a root
combinator into one object, and `Sanitize` is the pipeline. Each in-place walk is a method proved against
a function. `JsonSchema` gives schemas a meaning, following JSON Schema Core 2020-12 (sections 8.2.3.1,
10.2.1 and 10.3.2.1) and Validation 2020-12 (sections 6.1.1 to 6.1.3 and 6.5.3): `Accepts(schema,
instance, definitions, depth)`. `StripMeaning`, `InlineMeaning` and `FlattenMeaning` prove when each
rewrite keeps it; `FlattenProse` proves what schemas and what documentation the flat schema keeps, and
`FlattenText` what its descriptions say, to the letter.

**Replicated stores over a shared backend** (`src/session/mod.rs`, `src/auth/store.rs`,
`src/persistence.rs`). `LeasedLocks`, `SessionStore`, `OpaqueIndex` and `Deadlines` model what one process
does, as classes updated in place. `SessionReplicas`, `TokenRefresh` and `OpaqueRotation` are step
machines: any number of replicas, calls and instances over one backend and clock, with every await point
a step of its own, and invariants kept by each step under every interleaving.

**Decisions over stored state.** `Passthrough` is the passthrough branch of the bearer middleware
(`src/auth/middleware.rs`), `SessionBindings` and `JwksCache` are the two clocked tables
(`src/auth/binding.rs`, `src/auth/jwks.rs`).

**Two in-place algorithms.** `Histogram` is quantile interpolation over reals
(`src/metrics/histogram.rs`), `PeerRegistry` prunes peers by `swap_remove`
(`src/capability/registry.rs`).

## Where the code falls short of its documentation

Each is the code as it is, with the exact condition or a concrete run proved.

- Flattening is documented as a relaxation, with the variants enforced later
  (`src/capability/sanitize.rs:283-287`). It also rejects calls that a variant accepts. `FlattenExact` gives
  the condition for any variants, tagged or not, and `KeepableExactly` the usual one: every variant pins the
  discriminator to a string and requires it, and no variant is open to a property only another declares.
  `OpenUnionExample`, `NumberTagExample` and `UntaggedVariantExample` are the smallest cases of each.
- No documentation should be lost in flattening (`src/capability/sanitize.rs:289-293`). That of a variant is,
  when it has no value of the discriminator, or an earlier one has the same value and another description:
  `DocListedExactly`, `TwoDocsAreLost`.
- Inlining is documented to cut only the back-edge of a cycle (`src/capability/sanitize.rs:149-151`). It cuts
  exactly where a path of references, siblings merged in, repeats a name or is longer than 64
  (`CutsExactly`); so a sibling that refers to the same, acyclic definition is cut too:
  `SiblingReferenceIsCut`.
- After inlining no reference should dangle (`src/capability/sanitize.rs:145-147`). One does when a
  definition is a bare string that reads as a reference (`NoDanglingReference`, if and only if), and the
  root's own `$ref` is never looked at (`InlineDefsIsSelfContained`).
- No combinator should be left at the root (`src/capability/sanitize.rs:276-279`). One is, whenever the
  tool declares two or more: `SanitizedShape`.
- A replica that fails to get the session lock, or times out on it, goes on without it, and can lose an
  update: `FailedLockLosesAnUpdate`, `TimedOutLockLosesAnUpdate`. `ReplicasRefineOneMap` and
  `OneRefreshPerExpiry` are therefore about runs in which locks are obtained.
- An instance that finds its copy of a session's opaque tokens expired removes the session, and with it
  whatever mapping is in force by the time it gets to it (`src/auth/store.rs:1340-1345`,
  `src/auth/store.rs:1463-1489`), a peer's or its own: `RemovalLosesExactly`, `PeersMappingIsRemoved`,
  `OwnMappingIsRemoved`.
- A rotated token should stop being accepted from the forward write on (`src/auth/store.rs:1265-1267`). Cold
  readers do refuse it (`RetiredTokenIsRefused`); warm ones may not, even on the instance that rotated it,
  since a reader there hydrates what it judged by before: `WarmReaderIsWrongExactly`,
  `MemoryTurnsStaleExactly`, `HydrationUndoesRotation`.
- An observed bearer should never downgrade grant material (`src/auth/middleware.rs:414-420`). On a
  protocol session it does, exactly when it is the bearer stored under its own grant and that grant has
  other refresh material, or the bearer is not the newer one: `DowngradesExactly`. One late request thus
  undoes a renewal (`LateBearerUndoesRenewal`). A sessionless request never does.
- A bearer of another principal should be rejected on an occupied session
  (`src/auth/middleware.rs:320-323`). It is not when it is stored under its own grant, and takes the
  session's entry over: `StrangerLetOnExactly`.
- A rotated bearer should never be combined with the previous one's refresh token
  (`src/auth/middleware.rs:328-331`). It is, exactly when it is a validated, strictly newer one of the same
  principal, or known under its own grant with that very refresh token: `CombinesExactly`,
  `RotationInheritsRefresh`.
- Expired credentials should never be passed to the handler (`src/auth/middleware.rs:405-406`). One is, when
  upstream renews to one, or when the entry lasts by its own deadline while the token in it is past its `exp`
  and there is refresh material: `StaleCredentialExactly`, `ExpiredBearerIsPassedOn`.
- "Newer" is not an order among bearers of which only some carry `iat`, and then the order of arrival
  decides: `UndatedOrderMatters`.
- A claim reads the bindings under one lock and writes under another, so two first claims that overlap
  are both accepted: `RivalsAreBothAccepted`.
- A key still held beats rejecting a token (`src/auth/jwks.rs:221-224`), but not on the request whose own
  refresh attempt fails: `HeldKeyRefusedExactly`.

## Model

| member | source | states |
|---|---|---|
| StripMeta.FoldTitleIntoDescription | src/capability/sanitize.rs:60-73 | in place, a title leaves the node; a non-blank string title becomes the description exactly when no non-blank one is there |
| StripMeta.SanitizeSchemaNode | src/capability/sanitize.rs:80-97 | the in-place walk of a node computes `StripNode`: meta-fields dropped, data keywords skipped, named containers entered without being nodes themselves |
| StripMeta.SanitizeNames | src/capability/sanitize.rs:89-93 | every member of a `properties`-like container is stripped as a schema, whatever its name |
| StripMeta.SanitizeValueRecursive | src/capability/sanitize.rs:103-116 | the in-place walk of a value computes `StripValue`: `true` becomes `{}`, arrays and objects are walked |
| StripMeta.StripIsClean | src/capability/sanitize.rs:80-116 | no `title`, `$schema` or boolean `true` is left in any position the walker treats as a schema |
| StripMeta.CleanIsFixed | src/capability/sanitize.rs:80-116 | a schema with nothing left to strip comes out unchanged |
| StripMeta.StripFixesExactlyClean | src/capability/sanitize.rs:44-116 | the fixed points of stripping are exactly the clean schemas, and stripping is idempotent |
| StripMeta.StripKeepsPositions | src/capability/sanitize.rs:80-116 | no schema position is added, dropped or moved, and stripping acts on each on its own, wherever no title takes the place of a description on the way; every user-chosen name is such a position |
| StripMeta.TitleTakesOver | src/capability/sanitize.rs:60-73 | and there the promoted title is all that is left: whatever schema a blank, non-string description was is gone |
| StripMeta.StripEffectAtPosition | src/capability/sanitize.rs:36-97 | at any such position: exactly the meta-fields go, `enum`/`const`/`default`/`examples` stay verbatim, user-chosen names stay, and a title becomes the description only where none is present |
| StripMeta.StripOthersAtPosition | src/capability/sanitize.rs:103-116 | what else stands in a schema position: `true` becomes the empty schema, an array keeps its elements' places, the rest stays as it is |
| StripMeta.PromotesExactly | src/capability/sanitize.rs:60-73 | a title is promoted if and only if it has a character that is not whitespace and a description that is a string has none |
| StripMeta.StripNodeKeys | src/capability/sanitize.rs:60-97 | the exact keys of a stripped node |
| StripMeta.StripNodeField | src/capability/sanitize.rs:60-97 | the exact value of every field of a stripped node, the description a promoted title adds included |
| StripMeaning.StripNodeAccepts | src/capability/sanitize.rs:32-116 | a stripped node, read with stripped definitions, accepts the same instances as the original with its own |
| StripMeaning.StripKeepsMeaning | src/capability/sanitize.rs:32-116 | the same for every schema value, definitions set and reference depth: stripping preserves meaning |
| InlineRefs.MergeRequired | src/capability/sanitize.rs:226-232 | the in-place union of `required` lists computes `UnionRequired` |
| InlineRefs.UnionRequiredAdds | src/capability/sanitize.rs:226-232 | which keeps the definition's names first and as they were, and adds each name it lacks once, in the order of the siblings |
| InlineRefs.MergeSibling | src/capability/sanitize.rs:213-237 | merging one sibling into a definition: properties by name with the sibling winning, `required` by union, anything else overridden |
| InlineRefs.MergeSiblings | src/capability/sanitize.rs:209-239 | merging all of them, in any order, gives `MergeInto` |
| InlineRefs.RefTargetExactly | src/capability/sanitize.rs:189-195 | a reference is to a definition exactly when its text is `#/$defs/` and the definition's name |
| InlineRefs.MergeGivesSiblings | src/capability/sanitize.rs:204-239 | what an inlined reference makes of definition and siblings, key by key: `properties` name by name with the sibling's schema, `required` as the union with the definition's order first, any other key the sibling's |
| InlineRefs.CutLeavesSiblings | src/capability/sanitize.rs:171-203 | a reference that is cut leaves an object with exactly its siblings, each resolved where it stands, and `type: object` if it had no `type`; the `$ref` alone is gone |
| InlineRefs.DescriptionSurvives | src/capability/sanitize.rs:142-147 | at any depth of any chain, inlined any number of times or cut, a reference's own description is what the node is described by, when the definitions are objects |
| InlineRefs.ResolveRefsInner | src/capability/sanitize.rs:180-254 | the in-place walk terminates on every value and every, even mutually recursive, set of definitions, and computes `ResolveWithin` at the cap 64; on every call its chain is duplicate-free names of definitions; and it truncates something exactly when the value is not `Uncut` |
| InlineRefs.ResolveValues | src/capability/sanitize.rs:199-201 | the same for the values of a map |
| InlineRefs.InlineDefsInPlace | src/capability/sanitize.rs:260-274 | `$defs` is dropped when it is an object and every root value is resolved against it; otherwise nothing changes |
| InlineRefs.ChainFits | src/capability/sanitize.rs:180-245 | the chain is never longer than there are definitions |
| InlineRefs.CapIrrelevant | src/capability/sanitize.rs:164-254 | any two caps not below the number of definitions give the same result, on any chain |
| InlineRefs.DepthCapNeverDecides | src/capability/sanitize.rs:157-164 | with at most 64 definitions the depth cap never changes the result |
| InlineRefs.ResolveLeavesNoRef | src/capability/sanitize.rs:143-254 | a resolved value holds no reference to a definition, whatever cycles there are, if no definition is a bare string that reads as a reference |
| InlineRefs.NoDanglingReference | src/capability/sanitize.rs:143-147 | resolving leaves no reference in any value exactly when no definition is such a bare string |
| InlineRefs.StringAliasDangles | src/capability/sanitize.rs:180-254 | and if one is, the value `{"$ref": {"$ref": ...}}` resolves to a node that still refers to a definition |
| InlineRefs.InlineDefsIsSelfContained | src/capability/sanitize.rs:256-274 | a whole schema below its root refers to no dropped definition; the root itself does exactly when it did before |
| InlineRefs.CutsExactly | src/capability/sanitize.rs:142-169 | something is truncated if and only if some path of references from the value, siblings merged in, meets a name twice or more than 64 names |
| InlineRefs.UncutIsExact | src/capability/sanitize.rs:178-254 | where nothing is truncated, on any chain, resolving is the chain-free unfolding, complete at the depth left |
| InlineRefs.RankedIsUncut | src/capability/sanitize.rs:178-254 | a rank, with depth left under the cap, is enough for nothing to be truncated |
| InlineRefs.ExactOnAcyclic | src/capability/sanitize.rs:118-254 | so where a rank shows the definitions, with merged siblings, acyclic, and depth is at most 64, resolving equals the chain-free unfolding |
| InlineRefs.UncutWithoutRank | src/capability/sanitize.rs:204-243 | but no rank is needed: two references, each with the other's definition for a sibling, have none and lose nothing |
| InlineRefs.UnfoldSettles | src/capability/sanitize.rs:178-254 | that unfolding is complete: unfolding further changes nothing |
| InlineRefs.RankBoundsDepth | src/capability/sanitize.rs:164-254 | a rank bounds the nesting depth of references |
| InlineRefs.SiblingReferenceIsCut | src/capability/sanitize.rs:204-243 | a sibling referring to the definition it is merged with is truncated, though that definition is acyclic and its own reference is inlined whole |
| InlineMeaning.MergeIsConjunction | src/capability/sanitize.rs:118-130 | where definition and siblings do not disagree, the merged schema accepts exactly what both accept, which is what the standard asks of `$ref` with siblings |
| InlineMeaning.UnfoldKeepsMeaning | src/capability/sanitize.rs:118-254 | an unfolded schema, without definitions, accepts exactly the instances the original accepts with them |
| InlineMeaning.InlineDefsKeepsMeaning | src/capability/sanitize.rs:256-274 | `inline_defs` on a whole schema whose definitions are mergeable preserves the accepted instances wherever nothing is truncated |
| InlineMeaning.NoDefsMeaning | src/capability/sanitize.rs:260-269 | a schema without definitions means the same at every reference depth |
| Flatten.FindTag | src/capability/sanitize.rs:337-362 | the first pass finds the discriminator and the variant's value of it, in key order, and records new values with the variant's description |
| Flatten.MergeVariantProps | src/capability/sanitize.rs:371-390 | the second pass adds a variant's other properties, the first of a name winning |
| Flatten.NoteVariantRequired | src/capability/sanitize.rs:392-400 | and notes for which discriminant values each is required, once each |
| Flatten.AttachRequirements | src/capability/sanitize.rs:420-431 | those notes become prose after each property's description; `FlatProps` computes the whole |
| Flatten.FlattenTopLevelCombinator | src/capability/sanitize.rs:304-440 | the whole in-place pass computes `FlattenRoot`, the fold of the variants followed by the final assembly |
| Json.NonblankExactly | src/capability/sanitize.rs:14-16 | text counts as non-blank exactly when it is a string with a character that is not whitespace |
| Json.TrimEndIs | src/capability/sanitize.rs:425-428 | `trim_end` leaves what comes up to the last character that is not whitespace |
| Json.TrimIs | src/capability/sanitize.rs:464-467 | `trim` leaves what lies between the first such character and the last |
| FlattenText.JoinSplits | src/capability/sanitize.rs:424-471 | a joined list is its parts in order, the separator between any two of them and nowhere else |
| FlattenText.DescriptionIsFirst | src/capability/sanitize.rs:371-390 | a merged property that can be described says, word for word, what the first schema to describe it said |
| FlattenText.RequirementFollowsDescription | src/capability/sanitize.rs:420-431 | a property some variant requires is described by what it was described by, up to its last character that is not whitespace, one space, and the sentence naming exactly the requiring variants; by the sentence alone if it was not described |
| FlattenText.TagTextIs | src/capability/sanitize.rs:323-356 | the discriminator property's own description is taken from the first variant that has its value and describes it |
| FlattenText.DiscriminatorText | src/capability/sanitize.rs:404-416 | the flat discriminator is described by its values in order, each in backticks with the trimmed description of its variant, if any has one; else by what the property itself was first described by; else not at all |
| FlattenText.FlatRootExactly | src/capability/sanitize.rs:305-440 | what flattening leaves at the root, key by key: an object with properties, requiring the discriminator alone if there is one and nothing if not, and every other key as it was |
| FlattenMeaning.DescriptionIsAnnotation | src/capability/sanitize.rs:420-431 | schemas that differ in a description accept the same instances, so prose never changes meaning |
| FlattenMeaning.DiscriminantAccepts | src/capability/sanitize.rs:404-416 | the synthesized discriminator accepts exactly the string values it lists |
| FlattenMeaning.FlatAccepts | src/capability/sanitize.rs:404-440 | of an object the rest of the root allows, the flat schema asks exactly the discriminator, if one was found, and that each flat property it has is accepted |
| FlattenMeaning.ListedExactly | src/capability/sanitize.rs:352-361 | the synthesized enum lists a value if and only if it is some variant's value of the discriminator |
| FlattenMeaning.FlatPropAccepts | src/capability/sanitize.rs:371-431 | at the discriminator the flat schema accepts exactly the listed strings, at any other property exactly what the first schema declared for it accepts |
| FlattenMeaning.FlattenOverApproximates | src/capability/sanitize.rs:276-440 | for keepable variants, tagged or not, under any root, an object some variant accepts and the rest of the root allows is accepted by the flat schema |
| FlattenMeaning.FlattenRejectsNothing | src/capability/sanitize.rs:276-440 | the same from the schema as a whole: whatever object the schema with its combinator accepts, the flat one accepts |
| FlattenMeaning.FlattenExact | src/capability/sanitize.rs:276-440 | for any plain variants, each good for some call: flattening keeps every variant's calls if and only if every variant requires the discriminator, if one is found, and admits at each property only what the flat schema asks there |
| FlattenMeaning.KeepableExactly | src/capability/sanitize.rs:337-389 | where variants either pin the discriminator or leave it open, that is so if and only if each pins it to a string and requires it, and the first schemas suit every variant elsewhere |
| FlattenMeaning.FlatHolds | src/capability/sanitize.rs:374-440 | the flat schema holds every instance to the discriminator and to the first schema declared for a name |
| FlattenMeaning.SharedAndClosedIsKeepable | src/capability/sanitize.rs:374-389 | a tagged union whose same-named properties accept the same values, and whose variants are closed to properties they lack, loses no call |
| FlattenMeaning.OpenVariantIsRejected | src/capability/sanitize.rs:374-440 | a variant open to a property only another declares accepts an instance the flat schema rejects |
| FlattenMeaning.OpenUnionExample | src/capability/sanitize.rs:304-440 | the concrete one: variants `a` with a string `x` and `b` without, and the call `{"k": "b", "x": null}` |
| FlattenMeaning.NumberTagExample | src/capability/sanitize.rs:404-416 | a variant tagged by a number accepts a call the flat schema, which wants a string, rejects |
| FlattenMeaning.UntaggedVariantExample | src/capability/sanitize.rs:417-440 | so does a variant without the discriminator, which the flat schema requires |
| FlattenProse.FirstWins | src/capability/sanitize.rs:371-390 | a merged property is the first one any variant declares, but for its description |
| FlattenProse.DescriptionNotLost | src/capability/sanitize.rs:294-300 | a merged property is described exactly when some variant described it and the first schema is an object that can carry it |
| FlattenProse.TagKeyIs | src/capability/sanitize.rs:337-351 | the discriminator is the first property with a `const` of the first variant that has one |
| FlattenProse.TagKeyExactly | src/capability/sanitize.rs:337-351 | it is `t` if and only if some variant settles it: the first with a `const`, in which `t` is the first of its `const` properties by name |
| FlattenProse.NoTagExactly | src/capability/sanitize.rs:337-351 | and there is none if and only if no variant has a property with a `const` |
| FlattenProse.FlatHasExactly | src/capability/sanitize.rs:365-369 | the flat properties are the discriminator and whatever some variant declares other than by a `const`; a second `const` property is gone |
| FlattenProse.KeyStays | src/capability/sanitize.rs:345-351 | once found the discriminator stays, and no variant before it was found has any value of it |
| FlattenProse.EntriesExact | src/capability/sanitize.rs:352-361 | for any list of variants the enumeration is exactly their discriminant values, each once, in variant order, with the description of the first variant that has it |
| FlattenProse.FirstEntriesTag | src/capability/sanitize.rs:359-361 | a value is listed if and only if some variant has it |
| FlattenProse.RequirementsExact | src/capability/sanitize.rs:392-400 | the labels kept for a property are exactly those of the variants that require it, each once |
| FlattenProse.DocListedExactly | src/capability/sanitize.rs:289-293 | a variant's description is the one listed for it if and only if it has a value of the discriminator and is the first with it, or says the same as the first |
| FlattenProse.TwoDocsAreLost | src/capability/sanitize.rs:352-361 | the smallest losses: a second variant with the same value, and a variant with none |
| FlattenProse.VariantDocIsQuoted | src/capability/sanitize.rs:289-293 | a listed description is quoted, next to the value, in the flat discriminator's description |
| FlattenProse.RequirementIsStated | src/capability/sanitize.rs:294-296 | every property required by a tagged variant, other than by a `const`, is in the flat schema, and, being an object, ends its description with exactly the labels of the variants that require it |
| Sanitize.Tool.SanitizeOne | src/capability/sanitize.rs:640-664 | both schemas are rewritten in place, and the result says whether the input one lacked a `type` |
| Sanitize.RewriteInPlace | src/capability/sanitize.rs:641-645 | strip, inline, flatten, in that order |
| Sanitize.FlattenRemovesFirst | src/capability/sanitize.rs:305-315 | of the root combinators exactly the first of `oneOf`, `anyOf`, `allOf` is removed |
| Sanitize.SanitizedShape | src/capability/sanitize.rs:640-653 | an advertised input schema always has a type, and no root combinator is left if and only if the tool declared at most one |
| Sanitize.PatchedExactly | src/capability/sanitize.rs:640-653 | a rewritten schema without a `type` gets `object`, and empty `properties` if it has none; with one it stays as it is |
| Sanitize.InlinedMeansTheSame | src/capability/sanitize.rs:641-644 | stripping and inlining together preserve the accepted instances, with no definitions needed afterwards |
| Sanitize.PatchKeepsCalls | src/capability/sanitize.rs:647-653 | supplying a missing `type` changes nothing for argument objects |
| Sanitize.SanitizeIsExact | src/capability/sanitize.rs:640-653 | a tool without a root combinator is advertised with exactly the calls it declared |
| Sanitize.SanitizeKeepsEveryCall | src/capability/sanitize.rs:640-653 | a tool with keepable root variants is advertised with every call it declared, through all four rewrites |
| Sanitize.SanitizeKeepsUnion | src/capability/sanitize.rs:640-653 | and with a tagged union, object calls are all its schema ever accepts |
| LeasedLocks.InMemoryBackend.Set | src/persistence.rs:175-184 | writes that entry and no other |
| LeasedLocks.InMemoryBackend.Delete | src/persistence.rs:199-207 | deletes that entry and no other |
| LeasedLocks.InMemoryBackend.Keys | src/persistence.rs:209-220 | exactly the keys of the namespace |
| LeasedLocks.InMemoryBackend.TryAcquireLock | src/persistence.rs:222-242 | grants exactly when no unexpired lease is held, and then records the owner and expiry |
| LeasedLocks.InMemoryBackend.ReleaseLock | src/persistence.rs:244-257 | frees a lease only for its own owner |
| LeasedLocks.InMemoryBackend.AcquireWaiting | src/session/mod.rs:126-153 | a sole waiter behind a crashed holder acquires before its 20 s deadline, within what is left of the 15 s lease plus one 100 ms poll and scheduling delay |
| LeasedLocks.LeaseStands | src/persistence.rs:222-257 | until it runs out or its own holder releases it, a lease stays in the table through any later events |
| LeasedLocks.LeasesAreExclusive | src/persistence.rs:222-257 | in every history each key has at most one unexpired owner |
| LeasedLocks.CriticalSectionsDisjoint | src/persistence.rs:222-257 | critical sections shorter than the lease never overlap |
| LeasedLocks.LateReleaseIsHarmless | src/persistence.rs:244-257 | a release by anyone but the owner frees nothing |
| SessionReplicas.OneHolder | src/session/mod.rs:123-165 | two replicas inside a critical section are on different sessions |
| SessionReplicas.StepLogged | src/session/mod.rs:123-313 | every step keeps every call accounted for: in the log at most once, and in progress or returned with what its own entry says |
| SessionReplicas.StepInv | src/session/mod.rs:123-313 | every step of every replica keeps the whole invariant tying caches, locks, records, calls and the history |
| SessionReplicas.RunInv | src/session/mod.rs:123-313 | so every run does, while leases outlast critical sections |
| SessionReplicas.ReplicasRefineOneMap | src/session/mod.rs:123-313 | in every such interleaving of `get`, `get_or_create` and `update` by any number of replicas: each call has an entry of its own in a legal history of one atomic map, made between its begin and its return, returns what that map returns, and the backend holds that map; no update is lost |
| SessionReplicas.RealTimeOrder | src/session/mod.rs:123-313 | the history follows real time: of two calls, one that had returned before the other began has the earlier entry |
| SessionReplicas.LocksAreReleased | src/session/mod.rs:123-165 | in every such run each lease in the backend is that of a replica in its critical section on that session, so with nobody in one every lock is free |
| SessionReplicas.CachesHoldAnswers | src/session/mod.rs:171-313 | in every run, with or without locks, a replica has cached what it computes and answers, and nothing that no call on that session was told |
| SessionReplicas.WaitsForTheLock | src/session/mod.rs:123-153 | a call takes the lock for 15 s exactly when it is free or its lease has run out, and goes on without it only 20 s after it began |
| SessionReplicas.FailedLockLosesAnUpdate | src/session/mod.rs:147-150 | a run in which the backend fails to answer a replica for the lock: it goes on unlocked, two increments both answer 1 and the backend ends with 1 |
| SessionReplicas.TimedOutLockLosesAnUpdate | src/session/mod.rs:134-146 | a run in which a replica waits its 20 s while the lock changes hands, goes on unlocked, and an update is lost in the same way |
| SessionStore.Store.LoadFromBackend | src/session/mod.rs:252-280 | finds an unexpired record, and deletes an expired one |
| SessionStore.Store.PersistEntry | src/session/mod.rs:112-121 | writes the session with a full lifetime |
| SessionStore.Store.GetOrCreate | src/session/mod.rs:171-206 | the backend's value, else the cached one, else the default; cached, touched and persisted |
| SessionStore.Store.Get | src/session/mod.rs:214-247 | the same without the default; nothing is created for an unknown session |
| SessionStore.Store.Update | src/session/mod.rs:286-313 | applies the change to that value, and stores and returns the result |
| SessionStore.Store.Remove | src/session/mod.rs:316-334 | returns what was there, and clears the cache and the record |
| SessionStore.Store.PurgeExpired | src/session/mod.rs:337-361 | drops exactly the cached sessions idle for the lifetime; a record of one goes only if it has itself expired |
| SessionStore.Store.LoadPersisted | src/session/mod.rs:366-422 | loads exactly the records with time left, deletes exactly the others, and keeps what was cached beside them |
| SessionStore.FoundExactly | src/session/mod.rs:252-280 | a record is found exactly while the clock's millisecond is short of its deadline, if it has one, and deleted by looking for it exactly from then on |
| SessionStore.StartsFromRecord | src/session/mod.rs:171-313 | so an operation starts from the record while that counts, else from the cached copy, else from nothing |
| SessionStore.LoadedExactly | src/session/mod.rs:366-401 | a record is loaded exactly if it has time left, to its deadline or in the older format's seconds, and comes back touched so long ago that just that, capped by the TTL, is left of its lifetime |
| SessionStore.PurgedExactly | src/session/mod.rs:337-347 | a cached session is purged exactly once it has been idle for the TTL |
| SessionStore.WrittenExactly | src/session/mod.rs:112-121 | what is persisted has its deadline one TTL ahead, in milliseconds of the wall clock |
| SessionStore.ReloadedLifetime | src/session/mod.rs:336-401 | a reloaded session is purgeable if and only if its remaining lifetime, capped by the TTL, has gone by |
| SessionStore.RestartKeepsLifetime | src/session/mod.rs:336-401 | saved and reloaded with clocks in step, it is purgeable at its original deadline to within a millisecond |
| Deadlines.StoredExactly | src/persistence.rs:15-23 | a deadline is stored as the millisecond of the wall clock it falls in, a past one as the present |
| Deadlines.TimeLeftExactly | src/persistence.rs:26-32 | it has no time left exactly from that millisecond on, and before it the milliseconds between |
| Deadlines.StoredAndRead | src/auth/store.rs:151-176 | nothing of a token but its deadline is changed by storing and reading it, and an older record's lifetime counts from when it is read |
| Deadlines.RebuiltInItsMillisecond | src/persistence.rs:26-32 | a rebuilt deadline falls into the very millisecond that was stored |
| Deadlines.ResavedExactly | src/persistence.rs:15-32 | saving it again stores the same millisecond if and only if that millisecond has not passed |
| Deadlines.DeadlineSurvivesRestarts | src/auth/store.rs:151-176 | any number of save and load cycles leaves an unexpired persisted token exactly as it was |
| Deadlines.RebuiltWithinAMillisecond | src/auth/store.rs:151-176 | and its deadline, rebuilt, is within a millisecond of the original on the wall clock |
| TokenRefresh.OneHolder | src/auth/store.rs:1130-1190 | no two calls are past the lock at once |
| TokenRefresh.ExpiredUnderLock | src/auth/store.rs:1165-1190 | a call that decides to refresh has seen the token expired while holding the lock, and nobody has refreshed it |
| TokenRefresh.StepInv | src/auth/store.rs:1026-1215 | every step of every call keeps the invariant, whatever the interleaving |
| TokenRefresh.RunInv | src/auth/store.rs:1026-1215 | so every run from an expiry does, while locks are obtained, leases last, upstream answers and the new token stays unexpired |
| TokenRefresh.OneRefreshPerExpiry | src/auth/store.rs:1094-1215 | any number of `get_token` calls on any number of instances refresh upstream at most once; every call returns the token that refresh brought, and the backend ends up with it; that token is the access token and deadline upstream answered, with the refresh token it rotated or else the one presented, which was an expired token's |
| TokenRefresh.RunTraced | src/auth/store.rs:555-572 | in every such run each token around is one of the expired ones, or made of what upstream answered to an expired one's refresh token |
| TokenRefresh.ReturnedIsCached | src/auth/store.rs:1094-1215 | every call that has returned leaves the token it returned in its instance's cache, and no later one puts an older token there |
| TokenRefresh.LocksAreReleased | src/auth/store.rs:1106-1190 | the lock and the refresh mutexes are held only by calls under way, so once all have returned every one is free |
| TokenRefresh.AtTheLock | src/auth/store.rs:1139-1158 | a call takes the refresh lock for 15 s exactly when it is free or its lease has run out |
| TokenRefresh.WaitingForPeer | src/auth/store.rs:1146-1160 | otherwise it adopts a persisted token that is not about to expire, and without one tries again until its deadline, when it goes on unlocked |
| OpaqueRotation.StepInv | src/auth/store.rs:1242-1502 | every backend call of every rotation, cold reader, expired-token cleanup and removal keeps the invariant of forward mapping, inverse entries and memory |
| OpaqueRotation.RunInv | src/auth/store.rs:1242-1502 | so every run does, with rotations and removals of different instances interleaved at each write, and cleanups and removals delayed by the mutation lock |
| OpaqueRotation.RetiredIsNotCurrent | src/auth/store.rs:1242-1299 | a replaced, removed or expired token is borne out by no forward mapping |
| OpaqueRotation.ForwardWriteRetires | src/auth/store.rs:1263-1275 | the forward write alone retires both tokens it replaces |
| OpaqueRotation.RetiredTokenIsRefused | src/auth/store.rs:1263-1333 | from then on every cold reader refuses them, at whatever point of whatever rotations it reads |
| OpaqueRotation.ColdReaderIsRight | src/auth/store.rs:1319-1358 | in every reachable state a cold reader about to judge accepts if and only if the token has neither been replaced, nor removed, nor expired, and then by the mapping in force; one it refuses is current for no session |
| OpaqueRotation.EachTokenHasItsDeadline | src/auth/store.rs:1319-1358 | in fields: an access reader about to judge accepts if and only if its session's forward mapping holds that access token and the access deadline is ahead, a refresh reader the same with the refresh token and its own deadline |
| OpaqueRuns.DeadlinesDiffer | src/auth/store.rs:1239-1252 | a run in which, of one pair at one time, the access token is refused and the refresh token accepted |
| OpaqueRotation.ReaderEnds | src/auth/store.rs:1319-1358 | an accepting reader ends with its session, taken into memory while the refresh token lasts; a refusing one deletes the inverse entry it came by, and nothing else |
| OpaqueRotation.RotationStarts | src/auth/store.rs:1242-1262 | a rotation takes its mapping into memory under the mutation lock, and remembers the one that was there |
| OpaqueRotation.RotationWrites | src/auth/store.rs:1263-1299 | its first backend write is the forward mapping, its last frees the lock |
| OpaqueRotation.RotationInverts | src/auth/store.rs:1276-1298 | in between it writes its own inverse entries, then deletes those of the mapping it remembered |
| OpaqueRotation.RemovalSteps | src/auth/store.rs:1461-1502 | a removal waits for the lock, clears memory, reads the mapping it lacks, deletes the forward mapping and then the two inverse entries |
| OpaqueRotation.ExpiryBegins | src/auth/store.rs:1308-1346 | a token expired in memory begins the deletion of its inverse entry, or for a refresh token the removal of its session |
| OpaqueRotation.CleanupSparesCurrent | src/auth/store.rs:1293-1502 | no step of a rotation, reader, cleanup or removal deletes or redirects the inverse entry of a current token |
| OpaqueRotation.CurrentLostExactly | src/auth/store.rs:1242-1502 | a current token goes out of use at a step if and only if it expires, another mapping is committed for its session, or a removal deletes the forward record of its session |
| OpaqueRotation.RemovalLosesExactly | src/auth/store.rs:1461-1500 | a removal, an expired refresh binding's included, takes a current token out of use if and only if a mapping is in force for the session as the forward record is deleted, whoever committed it |
| OpaqueRuns.PeersMappingIsRemoved | src/auth/store.rs:1335-1346 | a run in which that is a peer's mapping |
| OpaqueRuns.OwnMappingIsRemoved | src/auth/store.rs:1335-1346 | a run in which it is the fresh mapping of the very instance, rotated in while the removal waited for the mutation lock |
| OpaqueRotation.WarmReaderIsWrongExactly | src/auth/store.rs:1308-1315 | a warm reader accepts a token gone for good if and only if its instance's memory differs from the forward mapping and is not merely ahead of its own forward write |
| OpaqueRotation.MemoryTurnsStaleExactly | src/auth/store.rs:1443-1447 | memory that agrees with the forward mapping comes to differ at a step if and only if the mapping is replaced or removed in the backend, or the instance takes another one in, by its own rotation or by hydrating |
| OpaqueRuns.HydrationUndoesRotation | src/auth/store.rs:1319-1330 | a run in which a reader hydrates, after its own instance's rotation, the mapping it judged by before: the replaced token is accepted there again |
| OpaqueRotation.CurrentTokenResolves | src/auth/store.rs:1276-1502 | once its rotation has written them, the entries of a current mapping stay, and resolve on any instance |
| OpaqueIndex.Index.Remove | src/auth/store.rs:318-326 | a session's mapping and its bindings leave together |
| OpaqueIndex.Index.Put | src/auth/store.rs:328-355 | an expired mapping is not taken in; otherwise it replaces the session's previous one |
| OpaqueIndex.Index.Rotate | src/auth/store.rs:1257-1262 | the old mapping goes out, whole, before the new one comes in, and is returned |
| OpaqueIndex.Index.ExpireAccess | src/auth/store.rs:1449-1459 | only that access binding goes |
| OpaqueIndex.Index.Purge | src/auth/store.rs:1542-1563 | purging sessions one by one removes exactly their mappings and bindings |
| OpaqueIndex.Index.Load | src/auth/store.rs:1707-1712 | loading mappings one by one is their insertion in that order |
| OpaqueIndex.Index.Resolve | src/auth/store.rs:1307-1318 | a resolved access token is the one its session's mapping holds; a binding that has run out is unbound |
| OpaqueIndex.Index.ResolveRefresh | src/auth/store.rs:1335-1346 | the same for refresh tokens, where the whole session goes |
| OpaqueIndex.InsertCoherentExactly | src/auth/store.rs:328-355 | inserting keeps the index coherent if and only if the refresh token is not another session's, or the mapping has expired |
| OpaqueIndex.InsertedExactly | src/auth/store.rs:328-355 | what an insertion leaves of the session's old tokens, nothing, and of everyone else's, all; each new binding with its own deadline, the access one only if that is ahead |
| OpaqueIndex.RemoveKeepsCoherent | src/auth/store.rs:318-326 | removing a session always does |
| OpaqueIndex.RemoveAllKeepsCoherent | src/auth/store.rs:1542-1563 | so does purging any set of them |
| OpaqueIndex.IndexStaysCoherent | src/auth/store.rs:303-355 | through any sequence of insertions, rotations, expiries, removals, purges and loads, every binding points to a session whose mapping holds exactly that token, and every mapped session has its refresh binding |
| OpaqueIndex.BindingsLastAsLong | src/auth/store.rs:303-355 | through any such sequence every binding runs out exactly with the token it is for |
| Passthrough.TokenStore.Get | src/auth/store.rs:1094-1128 | an unexpired entry as it is, else the renewed one, else nothing |
| Passthrough.TokenStore.Authorize | src/auth/middleware.rs:286-501 | the passthrough branch, step by step on the store, computes `Handle` and its outcome |
| Passthrough.SameSessionExactly | src/auth/middleware.rs:66-74 | two bearers have one key exactly when they agree on `sid`, without one on `sub`, without either on every byte |
| Passthrough.SamePrincipalExactly | src/auth/middleware.rs:325-359 | and are one principal's exactly when they agree on a `sub` both have, or on a `sid`, or are the same bytes without either |
| Passthrough.NewerExactly | src/auth/middleware.rs:703-712 | newer is by `iat` where both have one, else by `exp` where both have one, else not at all |
| Passthrough.ExpiredBearerExactly | src/auth/middleware.rs:380-396 | a bearer counts as expired exactly by its own `exp`, or half a minute before the deadline of the entry it is known by, or, unknown, of its validation |
| Passthrough.UnexpiredIsLetOn | src/auth/middleware.rs:494-500 | an unexpired bearer is passed on as it is if and only if it passes the principal and validation checks |
| Passthrough.RenewedIsLetOn | src/auth/middleware.rs:470-482 | where upstream renews, the handler gets the renewed access token |
| Passthrough.ExpiredIsLetOnExactly | src/auth/middleware.rs:405-491 | an expired bearer's request is let on with `a` if and only if there is refresh material and the entry left under its key has access token `a` and lasts, or was just renewed |
| Passthrough.StaleCredentialExactly | src/auth/middleware.rs:405-491 | a credential past its `exp` reaches the handler if and only if upstream renewed to one, or the entry lasts by its own deadline while the token in it does not |
| Passthrough.ExpiredBearerIsPassedOn | src/auth/middleware.rs:405-491 | the smallest such request: the entry has refresh material and no deadline, and the expired bearer itself is passed on |
| Passthrough.MatchingExactly | src/auth/middleware.rs:303-318 | the entry a bearer is known by holds that very bearer, the session's own before its grant's |
| Passthrough.RefreshableExactly | src/auth/middleware.rs:396-412 | an expired bearer is turned away at once exactly if neither that entry nor the session's has refresh material |
| Passthrough.ObservedExactly | src/auth/middleware.rs:414-468 | the entry a bearer leaves under its key, in every case of what was there and what the bearer is |
| Passthrough.HandledExactly | src/auth/middleware.rs:286-501 | the store after any request: as before if it is turned away, as the bearer leaves it if not, with the renewed entry if upstream renewed |
| Passthrough.RefreshLostExactly | src/auth/middleware.rs:414-468 | a request takes refresh material from an entry altogether if and only if it adopts, onto that entry's protocol session, a bearer known under its own grant without any |
| Passthrough.ObservedDowngradesExactly | src/auth/middleware.rs:414-468 | an observed bearer changes an entry's refresh token, or replaces its access token by one not newer, if and only if it is known under its own grant and that grant has another refresh token or the bearer is not the newer one |
| Passthrough.DowngradesExactly | src/auth/middleware.rs:286-492 | the same for the whole request; where upstream renews, it renews what the bearer left |
| Passthrough.LateBearerUndoesRenewal | src/auth/middleware.rs:310-318 | a run of three requests: a session is opened, renewed, and put back to the superseded pair by a late bearer |
| Passthrough.ObservedCombinesExactly | src/auth/middleware.rs:320-359 | an observed bearer takes the place of another one with that one's refresh token if and only if it is known under its own grant with that very refresh token, or is unknown, validated, of the same principal and strictly newer |
| Passthrough.CombinesExactly | src/auth/middleware.rs:286-492 | the same for the whole request; where upstream renews, it is asked with the previous one's refresh token |
| Passthrough.RotationInheritsRefresh | src/auth/middleware.rs:325-332 | on a protocol session, a client that rotates its own token leaves the new one with the old one's refresh token |
| Passthrough.StrangerLetOnExactly | src/auth/middleware.rs:320-359 | a bearer of another principal gets past an occupied session if and only if it is the one stored under its own grant, and then takes the entry over |
| Passthrough.StrangerTakesSession | src/auth/middleware.rs:320-359 | for any two principals, the request that does |
| Passthrough.SessionlessKeepsRefresh | src/auth/middleware.rs:414-468 | a sessionless request never does either, and changes the refresh token only if upstream rotated it |
| Passthrough.OnlyOwnEntry | src/auth/middleware.rs:286-501 | a request writes no entry but its own session's |
| Passthrough.ArrivalKeepsNewer | src/auth/middleware.rs:429-455 | a validated, dated, unexpired bearer of a grant, without a protocol session: the newer of the two stays, with the refresh token that was there |
| Passthrough.LatestIsLargest | src/auth/middleware.rs:703-712 | the bearer kept over a sequence is the one with the largest `iat` seen |
| Passthrough.ArrivalsKeepLatest | src/auth/middleware.rs:286-468 | after any sequence of arrivals the grant holds that bearer and its refresh token |
| Passthrough.ArrivalOrderIsIrrelevant | src/auth/middleware.rs:286-468 | any two orders of the same arrivals end with the same access token, the one with the largest `iat`, and the same refresh token |
| Passthrough.NewerOnDated | src/auth/middleware.rs:703-712 | on bearers that all carry `iat`, "newer" is transitive, asymmetric and total but for equal dates |
| Passthrough.UndatedOrderMatters | src/auth/middleware.rs:703-712 | with an undated bearer among them it is not transitive, and two orders of arrival end differently |
| SessionBindings.Bindings.Claim | src/auth/binding.rs:78-150 | refused exactly when live for another identity; kept as it is past half-life; otherwise remembered |
| SessionBindings.Bindings.Remember | src/auth/binding.rs:153-187 | room is made only when the table is full and the session new: expired bindings first, then those closest to expiring, never more than one slot's worth |
| SessionBindings.SettledExactly | src/auth/binding.rs:82-101 | a claim is settled on the spot exactly while the session is bound, to another identity, or to the claimant with more than half its lifetime left |
| SessionBindings.BoundExactly | src/auth/binding.rs:153-187 | any other leaves the session bound for a whole TTL, and what else is left in the table as it was |
| SessionBindings.BegunExactly | src/auth/binding.rs:82-139 | between the two locks of a claim that is not settled, it is under way and nothing has changed |
| SessionBindings.ClosestToExpiring | src/auth/binding.rs:165-169 | picks a binding none expires before |
| SessionBindings.OwnerChangesExactly | src/auth/binding.rs:78-187 | a live binding that is not evicted changes owner if and only if a rival claim already under way is written over it |
| SessionBindings.AcceptanceGuards | src/auth/binding.rs:78-150 | an accepted claim leaves the session bound for at least half the TTL |
| SessionBindings.GuardHolds | src/auth/binding.rs:78-187 | and that lasts through any later steps that do not evict it |
| SessionBindings.AcceptedClaimHolds | src/auth/binding.rs:78-187 | in every run of overlapping claims, for half the TTL after an accepted claim without a rival under way every other identity is refused, unless the binding is evicted |
| SessionBindings.RefusalChangesNothing | src/auth/binding.rs:88-92 | a refused claim changes nothing |
| SessionBindings.RivalsAreBothAccepted | src/auth/binding.rs:82-139 | without that condition: two identities that both look before either writes are both accepted |
| SessionBindings.TableIsBounded | src/auth/binding.rs:153-187 | in every run the table never exceeds its cap |
| SessionBindings.EvictionIsTheLastResort | src/auth/binding.rs:157-177 | a live binding goes only for a new session, when dropping the expired ones frees no slot; everything kept expires no sooner |
| JwksCache.FetchKeys | src/auth/jwks.rs:320-342 | the loop over the published keys gives the usable ones, or a failure when there is none |
| JwksCache.LastUsableWins | src/auth/jwks.rs:324-337 | under each `kid` the map holds exactly the last usable key published under it |
| JwksCache.NamedExactly | src/auth/jwks.rs:373-375 | a key without a name goes under the empty one |
| JwksCache.KeyCache.CachedKey | src/auth/jwks.rs:264-270 | a stale cache is a miss |
| JwksCache.KeyCache.RefreshKeys | src/auth/jwks.rs:279-317 | a fetch happens only after the cooldown; success replaces the keys, failure keeps them and is remembered |
| JwksCache.KeyCache.SigningKey | src/auth/jwks.rs:212-232 | the cached key, or the one held after a refresh, whatever its age |
| JwksCache.CacheIsItsAttempts | src/auth/jwks.rs:132-148 | the cache is exactly the keys and time of the last successful attempt, and the end and error of the last one made |
| JwksCache.AttemptsExactly | src/auth/jwks.rs:273-292 | a visit reaches the network if and only if no attempt ended less than a minute before |
| JwksCache.HeldExactly | src/auth/jwks.rs:153-158 | a key is answered without one if and only if the last successful attempt brought it and ended less than ten minutes ago |
| JwksCache.AttemptsAreSpaced | src/auth/jwks.rs:160-166 | consecutive attempts, successful or not, are at least a cooldown apart |
| JwksCache.SpacedApart | src/auth/jwks.rs:160-166 | so the k-th next starts at least k cooldowns later |
| JwksCache.WindowBound | src/auth/jwks.rs:273-292 | a window of length W sees at most 1 + W/cooldown attempts |
| JwksCache.KeysOnlyReplaced | src/auth/jwks.rs:294-316 | keys once held never run out, and only a successful fetch changes them, to what it brought |
| JwksCache.HeldKeyRefusedExactly | src/auth/jwks.rs:212-232 | a held key is refused if and only if the cache is stale and the attempt now due fails or brings a set without it |
| JwksCache.FailedFetchKeepsServing | src/auth/jwks.rs:219-232 | for the rest of the cooldown after a failed attempt every held key is handed out again |
| JwksCache.OutageIsNotUnknownKey | src/auth/jwks.rs:145-148 | an issuer that has never answered is reported unavailable, never as an unknown key |
| JwksCache.OutageSaysWhy | src/auth/jwks.rs:279-317 | and what it reports is the error of the last attempt made |
| JwksCache.KeyIsFromLastSuccess | src/auth/jwks.rs:219-232 | every key handed out comes from the last successful fetch |
| Histogram.Histogram.constructor | src/metrics/histogram.rs:25-33 | starts with no observations |
| Histogram.Histogram.Observe | src/metrics/histogram.rs:36-45 | adds one observation to its bucket, the sum and the count |
| Histogram.Histogram.Quantile | src/metrics/histogram.rs:66-88 | the loop computes the estimate, and it is near the order statistic of rank max(1, ceil(q*n)) |
| Histogram.Histogram.CumulativeBuckets | src/metrics/histogram.rs:93-101 | each bound is paired with the number of observations not above it |
| Histogram.CumulativeCounts | src/metrics/histogram.rs:36-45 | the buckets up to a bound hold exactly the observations not above it |
| Histogram.CumulativeTotal | src/metrics/histogram.rs:36-45 | all buckets together hold every observation |
| Histogram.FallbackExactly | src/metrics/histogram.rs:85-87 | the fallback is reached if and only if the rank is beyond the last observation, so never for 0 <= q <= 1 |
| Histogram.StopHoldsRank | src/metrics/histogram.rs:70-84 | the loop stops at the one non-empty bucket whose running count crosses the rank |
| Histogram.BucketOfRank | src/metrics/histogram.rs:36-45 | the bucket of the k-th smallest observation is the one the running count crosses k in |
| Histogram.EstimateIsNear | src/metrics/histogram.rs:64-88 | the estimate shares the bucket of the observation of its rank, so errs by at most its width, or is the overflow bucket's lower bound |
| Histogram.RankExactly | src/metrics/histogram.rs:70-72 | the rank of a quantile is the least whole number from 1 on that q*n does not exceed |
| Histogram.EstimateIsProportional | src/metrics/histogram.rs:74-84 | in the bucket of its rank the estimate lies as far from the lower bound to the upper as q*n from the observations before the bucket to those up to its bound |
| Histogram.EstimateOverflows | src/metrics/histogram.rs:68-79 | in the overflow bucket it is the last bound, and without observations 0 |
| Histogram.TotalAdds | src/metrics/histogram.rs:43-44 | the sum kept is that of any two parts of the observations, and of one the observation |
| Histogram.QuantileAscends | src/metrics/histogram.rs:64-88 | a larger quantile never has a smaller estimate |
| Histogram.OrderStatisticExists | src/metrics/histogram.rs:64-66 | every rank from 1 to n has its order statistic, so the two statements above are about something |
| PeerRegistry.Registry.NotifyPeers | src/capability/registry.rs:558-579 | exactly the peers notified without error are kept, with multiplicity, and those before the first loss stay in place |
| PeerRegistry.KeptExactly | src/capability/registry.rs:558-579 | every peer is kept exactly as many times as it was notified |
| PeerRegistry.LastDoomed | src/capability/registry.rs:561-574 | the collected indices are in range, and between two of them everybody survives |
| PeerRegistry.PruneOne | src/capability/registry.rs:576-578 | one `swap_remove` at the greatest index left is in range, drops no survivor, and moves nothing below it |

## Left out

- HTTP routing, middleware plumbing, CORS, tracing and log lines; stdio and loopback channels.
- Signature checks, hashing, base64 and JSON decoding: a bearer is the record of its claims, and the
  session key a function of `sid`, else `sub`, else the bytes. UUIDs and lock tokens are fresh values.
- Upstream calls, registration, login redirects and metadata documents: answers are inputs of the step.
- Redis: the backend is the abstract map with leased locks. Persistence TTLs do not delete entries by
  themselves, as in the in-memory backend, and backend errors other than a failed lock are not modelled.
- The description audit (`src/capability/sanitize.rs:487-615`) and its wording.
- Schema meaning of `patternProperties`, `dependentSchemas`, `prefixItems`, numeric and string bounds, and of
  non-schema booleans such as `uniqueItems`, which the walker also rewrites.
- JSON numbers are reals, compared for equality and for being an integer. The JSON text of a discriminant
  that is not a string is a parameter; it only lands in descriptions.
- InlineMeaning.InlineDefsKeepsMeaning: the root's own `$ref` must not name a definition, because the code
  never looks at it; definitions and siblings must merge without disagreeing, because the code overrides
  where the standard asks for both. Where something is truncated, nothing is claimed of the meaning.
- FlattenMeaning.FlattenExact: about objects, which is what calls are; the "only if" half needs variants whose
  properties vary independently (no `enum`, `not` or nested combinator on the variant itself), the "if" half
  is `FlattenOverApproximates`, without that condition.
- SessionReplicas.ReplicasRefineOneMap: does not model removal or expiry, where the code does not aim at
  single-map behaviour.
- TokenRefresh.OneRefreshPerExpiry: about one session; the mutation lock around `store_token` is left out,
  which only allows more interleavings.
- OpaqueRotation.StepInv: purging (`src/auth/store.rs:1524-1585`) and loading are not steps of this machine.
- The index of passthrough grants by refresh token (`src/auth/store.rs:1361-1414`).
- OpaqueIndex.Index.Resolve: without the read-through to the backend, which is the subject of `OpaqueRotation`.
- OpaqueIndex.Index.Purge: the order sessions are purged in is left open, as the iteration order of a hash
  map is.
- Passthrough.TokenStore.Authorize: one request at a time; adopting a deadline is exact, without the
  sub-millisecond rounding of a stored one.
- Passthrough.TokenStore.Get: without the distributed lock, which is the subject of `TokenRefresh`.
- SessionBindings.Bindings.Claim: without a backend, so a binding made by a peer instance is not seen.
- JwksCache.KeyCache.RefreshKeys: the lock that serialises refreshes is taken for granted; discovery and
  download are one answer.
- Histogram.Histogram.Observe: floating-point rounding is left out, and so are counter widths.
- PeerRegistry.Registry.NotifyPeers: what is sent to each peer is left out; how it answers is an input.
- Mutex poisoning, builders, environment parsing, query builders, HTML templates and small accessors.
