# Verified model of Sovereign Config

Sovereign Config keeps hierarchical configuration: values at slash-separated paths, compared without
regard to letter case but stored as written, some plain and some secret. This project models its
hardest logic in Dafny and proves what that logic promises, for every input, every run and every
interleaving of steps.

What is modelled, module by module:

- `Paths`: the path grammar, and the six independently written "is this below that" tests.
- `Sorting`, `JsonTree`, `Values`, `JsonRender`, `JsonParse`, `JsonRoundTrip`, `JsonSpelling`,
  `JsonFirstSpelling`, `TreeFolding`: the JSON view of a subtree, in both directions. A `BTreeMap` is a list kept strictly
  ordered by folded key, because its iteration order is what the codec depends on.
- `Plain`: the `path=value` line format and its escaping.
- `ProviderTree`, `ProviderLoad`: the consumer library's tree of real values.
- `Grants`: the merging of permission grants, and what the merged form allows.
- `Versions`, `Session`, `SessionHistory`, `SessionCall`: protocol negotiation and the session that re-handshakes once
  when its version is retired. `Session` is a step system: any number of concurrent calls, a served
  set that changes at will, and a three-field swap under a lock.
- `Routes`, `ProtocolCounters`, `ServerPipeline`, `ServerHistory`: classification of requests, the catch-all that
  refuses unserved versions, and the counters bumped at two layers. `ServerPipeline` is a step system.
- `Identity`, `IdentityLaws`, `IdentityFake`, `IdentityRuns`: the in-memory identity provider with scripted faults, as
  a class and as a step system in which taking a fault and applying an operation are separate steps.
- `Layers`: ordered layers of configuration, merged, under two policies.
- `Tokens`: the revocable token cache, as a class and as a step system of interleaved requests.
- `Profiles`: connection profiles and the refresh credentials beside them.
- `DeviceFlow`: polling for a device authorization (section 3.5 of RFC 8628).

`dafny verify dfyconfig.toml` checks the whole project.

How the main results fit together. Inserting into the JSON tree is proved to be insertion into a sorted
list of leaves (`InsertIsSortedInsertion`); so rendering is a stable sort (`RenderExactly`), which gives
exactly when it succeeds, and from which both round trips, the agreement with the plain format and the
provider's refinement follow. The protocol parts are step functions with an inductive invariant; each
theorem about runs holds for every sequence of enabled steps. What a run did to each call or request is
also stated from the steps alone (`SessionHistory`, `ServerHistory`, `IdentityRuns`), and what each
operation does is stated by its effect on what later operations answer (`IdentityLaws` and the laws in
`Profiles`, `Tokens` and `Layers`).

Where the code's behaviour differs from what one would first write down, the exact condition is proved:

- Rendering and parsing back keeps every value's content if and only if no plain value's text is the
  mask itself (`RoundTripKeepsContent`; it fails at `MaskTextAtA`), and parsing fails if and only if a
  text holds a NUL (`ForwardRoundTrip`).
- It restores every path as stored, letter case included, if and only if the stored paths spell the
  selection and their shared ancestors alike (`SpellingRestoredExactly`; it fails at `MixedCaseAtApp`).
  Where they disagree, the first value in the order given decides (`FirstSpellingWins`).
- The tree root "splits" into one empty segment rather than none; every caller rejects it first
  (`TreeRootSplitsIntoOneEmptySegment`).
- Sorting whole path texts would not agree with sorting segments (`WholePathOrderDisagrees`).
- The 30-second refresh margin is kept if and only if the issuer reports at least 45 seconds
  (`Lifetime`).
- A rejected first attempt drops the cached token for good; a rejected second attempt leaves it in the
  cache, and it is the next one served (`SecondRejectionKeepsTheToken`; a run that does so is
  `RejectedTokenIsResent`).
- Skipping missing layers is failing over the readable ones if and only if the first failure met there,
  if any, is not a secret removed between its listing and its reveal (`SkipIsFailOnReadable`; they
  differ at `RacedSecretAtA`).

Durations are whole nanoseconds, integers are unbounded, and clocks, replies of remote services and
served sets are parameters or steps.

## Model

| member | source | states |
|---|---|---|
| `Paths.ParsersDecideTheGrammar` | crates/sovereign-config-core/src/path.rs:63-128 | the three parsers accept exactly the canonical paths, each with its own letter-case rule, and return what was given |
| `Paths.CanonicalByCharacter` | crates/sovereign-config-core/src/path.rs:63-128 | the grammar by its characters alone: the tree root, or names of ASCII letters, digits, dash and underscore with one separator before each |
| `Paths.PathIsItsSegments` | crates/sovereign-config-core/src/path.rs:63-83 | a canonical path and its list of segments determine each other |
| `Paths.JoinName` | crates/sovereign-config-core/src/path.rs:137-152 | joining succeeds exactly for a valid segment and appends it |
| `Paths.FoldIsCanonical` | crates/sovereign-config-core/src/path.rs:164-166 | folding keeps a path canonical and folds each of its segments |
| `Paths.FoldEqualIffFoldSegmentsEqual` | crates/sovereign-config-core/src/path.rs:189-210 | equality of folded texts is equality of folded segments |
| `Text.FoldIgnoresCase` | crates/sovereign-config-core/src/path.rs:189-193 | two texts fold alike exactly when they have one length and agree at each index up to the two cases of one ASCII letter |
| `Text.FoldIsLowercase` | crates/sovereign-config-core/src/path.rs:164-166 | the fold is the one text without capitals that is the same up to case |
| `Text.StrLtByFirstDifference` | crates/sovereign-config-core/src/path.rs:203-210 | text order is decided at the first difference, by character code, a proper prefix first |
| `Text.SegsLtByFirstDifference` | crates/sovereign-config-core/src/plain.rs:35-42 | segment order is decided at the first segment that differs, a proper prefix first |
| `Paths.NameIsLastSegment` | crates/sovereign-config-core/src/path.rs:182-184 | the name is the last segment as stored, and only the tree root has none |
| `Paths.IsAtOrBelowIsWithin` | crates/sovereign-config-core/src/path.rs:169-178 | the textual test holds exactly when the root's folded segments are a prefix of the path's |
| `Paths.FoldConfinesIsWithin` | crates/sovereign-config-cli/src/session.rs:50-74 | the confinement test written for grants and for the CLI is the same prefix test |
| `Paths.JsonSegmentsAreTheRest` | crates/sovereign-config-core/src/json.rs:197-216 | relative segments exist exactly for strict descendants and are what is left of the path |
| `Paths.TreeRootSplitsIntoOneEmptySegment` | crates/sovereign-config-core/src/json.rs:197-216 | the one exception: the tree root gives one empty segment |
| `Paths.RelativeSegmentsAreJsonSegmentsFolded` | crates/sovereign-config-provider/src/mapping.rs:93-108 | the provider's relative segments are the JSON renderer's, folded |
| `Paths.DirectChildNameIsJoin` | crates/sovereign-config-layers/src/reader.rs:297-321 | it names `n` exactly when the path is the layer joined with `n` up to case and `n` is the last segment as stored |
| `Sorting.StableSortIsStable` | crates/sovereign-config-core/src/plain.rs:25-52 | the sort by folded segments is sorted, a permutation, and keeps entries with equal keys in arrival order |
| `Sorting.SortedIsUnique` | crates/sovereign-config-core/src/plain.rs:25-52 | those three properties determine the result |
| `JsonTree.InsertJsonValue` | crates/sovereign-config-core/src/json.rs:218-247 | the lookup-and-descend insertion computes the ordered-tree insertion, error cases included |
| `JsonTree.InsertIsSortedInsertion` | crates/sovereign-config-core/src/json.rs:218-247 | insertion succeeds exactly when no leaf is at, above or below the new path, and then inserts the leaf in sorted position |
| `JsonTree.InsertAllIsSorting` | crates/sovereign-config-core/src/json.rs:136-163 | inserting a list of leaves is inserting each into the sorted leaves, and succeeds exactly when no two collide |
| `JsonTree.LeavesRebuild` | crates/sovereign-config-core/src/json.rs:218-247 | inserting a tree's own leaves in order rebuilds it, every key spelled the same |
| `JsonRender.RenderSubtreeJson` | crates/sovereign-config-core/src/json.rs:136-163 | the loop computes `Render`, whose meaning `RenderExactly` states |
| `JsonRender.RenderExactly` | crates/sovereign-config-core/src/json.rs:136-163 | rendering succeeds if and only if every value lies within the selection and is not the tree root and no two paths are fold-equal or nested; the depth-first leaves are then the values in fold-segment order |
| `JsonRender.LeavesShowSorted` | crates/sovereign-config-core/src/json.rs:136-163 | leaf by leaf: same folded path, shown text |
| `TreeFolding.SameLeavesSameTree` | crates/sovereign-config-core/src/json.rs:136-163 | a tree without empty objects is determined by its leaves |
| `TreeFolding.RenderForgetsOrder` | crates/sovereign-config-core/src/json.rs:136-163 | success, and the tree up to key case, do not depend on the order of the values |
| `JsonParse.Deserialize` | crates/sovereign-config-core/src/json.rs:80-128 | the visitor's loop computes `Decode`, rejecting a repeated key |
| `JsonParse.DecodeExactly` | crates/sovereign-config-core/src/json.rs:80-128 | a document is accepted exactly when it is strings and objects without fold-equal sibling keys, and no leaf is lost or altered |
| `JsonParse.DecodeEncode` | crates/sovereign-config-core/src/json.rs:60-128 | deserializing a serialized tree restores it |
| `JsonParse.FlattenJsonNode` | crates/sovereign-config-core/src/json.rs:261-284 | pushes exactly the node's mutations onto those collected |
| `JsonParse.FlattenJsonObject` | crates/sovereign-config-core/src/json.rs:249-259 | pushes exactly the members' mutations, in order |
| `JsonParse.FlattenExactly` | crates/sovereign-config-core/src/json.rs:249-284 | accepted exactly when every key is a valid segment and no text holds a NUL; the mutations are then the leaves in order |
| `JsonParse.FlattenNodeExactly` | crates/sovereign-config-core/src/json.rs:261-284 | the same for one node |
| `JsonParse.ParseSubtreeJson` | crates/sovereign-config-core/src/json.rs:171-188 | computes `ParseDoc`, the subject of `ParseExactly` and the round trips |
| `JsonParse.ParseExactly` | crates/sovereign-config-core/src/json.rs:80-284 | a document is accepted exactly when it is strings and objects without fold-equal sibling keys, every key is a segment, no text holds a NUL, and at the tree root it is an object; the mutations are its texts one for one in fold order |
| `JsonRoundTrip.ForwardRoundTrip` | crates/sovereign-config-core/src/json.rs:136-284 | parsing a rendered subtree fails exactly on a NUL, and otherwise gives one mutation per value, in fold-segment order, at a fold-equal path, carrying what was shown |
| `JsonRoundTrip.RoundTripKeepsContent` | crates/sovereign-config-core/src/json.rs:261-284 | every plain text is kept and every secret preserved if and only if no plain text is the mask |
| `JsonRoundTrip.MaskTextComesBackSecret` | crates/sovereign-config-core/src/json.rs:261-284 | at any placed path, a plain value reading like the mask comes back as a secret to preserve |
| `JsonRoundTrip.MaskTextAtA` | crates/sovereign-config-core/src/json.rs:261-284 | the input: `/a` holding eight asterisks |
| `JsonRoundTrip.BackwardRoundTrip` | crates/sovereign-config-core/src/json.rs:108-284 | rendering the mutations of any accepted document gives the same tree, spelled the same, ordered, with empty objects pruned, and parsing that gives the same mutations |
| `JsonSpelling.InsertRespells` | crates/sovereign-config-core/src/json.rs:236-247 | insertion keeps every leaf and adds one, spelled as the tree spells the ancestors it already has |
| `JsonSpelling.InsertKeepsSpelling` | crates/sovereign-config-core/src/json.rs:218-247 | insertion keeps every leaf's spelling when shared ancestors are spelled alike |
| `JsonSpelling.LeavesSpelledAlike` | crates/sovereign-config-core/src/json.rs:218-247 | a tree spells each shared ancestor one way |
| `JsonSpelling.SpellingRestoredExactly` | crates/sovereign-config-core/src/json.rs:136-284 | the round trip restores every path as stored if and only if the values spell the selection and shared ancestors alike |
| `JsonSpelling.MixedCaseComesBackRespelled` | crates/sovereign-config-core/src/json.rs:236-247 | two values that disagree on an ancestor's letter case render, and do not both come back as stored |
| `JsonSpelling.MixedCaseAtApp` | crates/sovereign-config-core/src/json.rs:236-247 | the input: `/App/x` and `/app/y` |
| `JsonFirstSpelling.FirstSpellingWins` | crates/sovereign-config-core/src/json.rs:236-247 | every key of a rendered tree is spelled as in the first value, in the order given, below it |
| `Plain.EscapeInto` | crates/sovereign-config-core/src/plain.rs:64-73 | appends the escaped text |
| `Plain.UnescapeEscape` | crates/sovereign-config-core/src/plain.rs:64-73 | escaping is undone by the reader's unescaping |
| `Plain.EscapeOne` | crates/sovereign-config-core/src/plain.rs:64-73 | a backslash, line feed and carriage return are written as two characters each, every other character as itself |
| `Plain.EscapeLetters` | crates/sovereign-config-core/src/plain.rs:64-73 | escaping goes character by character |
| `Plain.FoldSegmentsOfIsFoldSegments` | crates/sovereign-config-core/src/plain.rs:56-62 | the sort key is the path's folded segments |
| `Plain.PushLines` | crates/sovereign-config-core/src/plain.rs:44-51 | the second loop writes one line per entry |
| `Plain.RenderSubtreePlain` | crates/sovereign-config-core/src/plain.rs:25-52 | the two loops and the sort compute `RenderPlain` |
| `Plain.PlainDecodes` | crates/sovereign-config-core/src/plain.rs:25-73 | fails exactly for a value outside the selection; splitting into lines, cutting at the first `=` and unescaping recovers the stably sorted paths and texts |
| `Plain.PlainAgreesWithJson` | crates/sovereign-config-core/src/plain.rs:25-52 | whenever JSON renders, the lines and the JSON leaves agree one for one and in order |
| `Plain.WholePathOrderDisagrees` | crates/sovereign-config-core/src/plain.rs:56-62 | ordering whole texts would put `/a-c` before `/a/b`; ordering segments does not |
| `ProviderTree.InsertLeaf` | crates/sovereign-config-provider/src/mapping.rs:110-131 | the descent computes the provider's tree insertion |
| `ProviderTree.TreeInsertFolds` | crates/sovereign-config-provider/src/mapping.rs:110-131 | inserting under folded keys is the JSON insertion, folded, failing together |
| `ProviderTree.BuildTree` | crates/sovereign-config-provider/src/mapping.rs:34-60 | the loop computes `Build` |
| `ProviderTree.BuildRefinesRender` | crates/sovereign-config-provider/src/mapping.rs:34-131 | a tree is built exactly when JSON renders and every secret is revealed, and it is the JSON tree with keys folded and each text the real one |
| `ProviderLoad.LoadTree` | crates/sovereign-config-provider/src/lib.rs:233-261 | the reveal loop and `build_tree` compute `Load` |
| `ProviderLoad.LoadRefinesRender` | crates/sovereign-config-provider/src/lib.rs:233-261 | refused exactly when revealing some secret fails; otherwise a tree exactly when JSON renders, namely the tree rendered from the values with each secret replaced by what revealing its path answered, keys folded |
| `ProviderLoad.FirstFailure` | crates/sovereign-config-provider/src/lib.rs:246-255 | the failure reported is the first in listing order |
| `ProviderLoad.LoadedLeaves` | crates/sovereign-config-provider/src/lib.rs:233-261 | leaf by leaf, in fold-segment order, the loaded texts are the values' own |
| `Grants.ValidateGrants` | crates/sovereign-config-server/src/auth.rs:512-537 | the loop computes the merged grants or rejects them |
| `Grants.MergingPreservesMeaning` | crates/sovereign-config-server/src/auth.rs:122-136 | grants are accepted exactly when each is valid, and then a request is allowed if and only if some raw grant carries the permission and its prefix contains the path |
| `Grants.AllowsIsStable` | crates/sovereign-config-server/src/auth.rs:122-136 | so the answer ignores letter case and grant order and is inherited by descendants |
| `Versions.ParseVersionInverts` | crates/sovereign-config-core/src/status.rs:98-103 | parsing inverts naming |
| `Versions.SpokenTexts` | crates/sovereign-config-core/src/status.rs:79-103 | the texts spoken are `v5`, `v4` and `v3`, and `v3` is the version spoken without a handshake |
| `Versions.SanitiseDate` | crates/sovereign-config-core/src/status.rs:179-190 | the first 40 characters, each kept if it can occur in a timestamp and otherwise a question mark |
| `Versions.SelectVersion` | crates/sovereign-config-core/src/status.rs:257-285 | the single pass computes `Select` |
| `Versions.SelectFollowsTheService` | crates/sovereign-config-core/src/status.rs:257-285 | the first spoken undated version in the service's order, else the first spoken one; fails exactly when nothing is shared |
| `Versions.UnspokenVersionsAreIgnored` | crates/sovereign-config-core/src/status.rs:257-285 | two lists with the same spoken versions give the same outcome |
| `Versions.InsertedUnspoken` | crates/sovereign-config-core/src/status.rs:257-285 | inserting unspoken versions anywhere changes no outcome |
| `Versions.NegotiateOutcome` | crates/sovereign-config-client/src/lib.rs:136-213 | one handshake; one legacy call exactly when the handshake is refused as unauthenticated or incompatible; the selection from what is served, any other handshake error, and a legacy error, are each the outcome |
| `Versions.LegacyOutcome` | crates/sovereign-config-client/src/lib.rs:149-171 | without a handshake: `v3` when the legacy route answers for it, else the first version offered that this build speaks, never dated, else incompatible |
| `Versions.UndatedFollowsTheOrder` | crates/sovereign-config-client/src/lib.rs:160-170 | from an undated list, the first version this build speaks |
| `Versions.AuthenticatingServerIsSpokenTo` | crates/sovereign-config-client/src/lib.rs:119-141 | a server that authenticates before it routes is spoken to on `v3` |
| `Session.RefusedIffNotServed` | crates/sovereign-config-server/src/protocol.rs:327-345 | a transport's call is refused by the catch-all exactly when its version is not in the served set |
| `Session.RunKeepsInv` | crates/sovereign-config-client/src/lib.rs:254-348 | every interleaving keeps the lock and call invariants |
| `Session.SessionIsCoherent` | crates/sovereign-config-client/src/lib.rs:330-348 | whenever no swap is under way, version, date and transport belong to the last completed negotiation |
| `Session.AtMostOnce` | crates/sovereign-config-client/src/lib.rs:315-348 | at most two attempts and one re-handshake; a one-RPC operation is executed at most once; a refused one was not executed |
| `Session.ResultsAreNeverStitched` | crates/sovereign-config-provider/src/lib.rs:240-259 | a result's pieces are, one for one and in order, the answers of everything one attempt executed, all on one version |
| `Session.RefusedTwiceMeansRevised` | crates/sovereign-config-client/src/lib.rs:315-348 | a second refusal after an answered handshake means the served set was revised since |
| `SessionHistory.EveryCallIsAccounted` | crates/sovereign-config-client/src/lib.rs:254-348 | in every interleaving each call is where it is for a reason found in the steps, and what the steps did to it shows |
| `SessionHistory.RefusedCallsRenegotiate` | crates/sovereign-config-client/src/lib.rs:315-348 | over every run: a call re-handshakes exactly when its first attempt was refused for its version; one that ends so refused has; any other failure of the first attempt ends it with that kind and no handshake; the first attempt is on the transport stored when taken, the second on one for the version negotiated |
| `SessionHistory.RefusedCallRetries` | crates/sovereign-config-client/src/lib.rs:315-348 | from any state with a refused first attempt and the lock free, if the current list shares a version the operation goes out again on the one selected, which the session then stores |
| `SessionHistory.DeliveryLaw` | crates/sovereign-config-server/src/protocol.rs:327-345 | a request whose version is not served when it arrives is refused without being executed; one whose version is served is never refused so |
| `SessionCall.Open` | crates/sovereign-config-client/src/lib.rs:254-265 | a fresh session bound to the negotiated status, or the negotiation's error |
| `SessionCall.NegotiatedSession.Renegotiate` | crates/sovereign-config-client/src/lib.rs:330-348 | rebinds all three fields, or leaves all as they were and reports the error |
| `SessionCall.NegotiatedSession.Call` | crates/sovereign-config-client/src/lib.rs:315-327 | one attempt, or two when and only when the first was refused for its version and the renegotiation succeeded; the retry travels on the new transport |
| `Routes.ClassifyExactly` | crates/sovereign-config-server/src/protocol.rs:82-97 | a path classifies as a call on a version exactly when it spells one |
| `Routes.ClassifyEveryPath` | crates/sovereign-config-server/src/protocol.rs:82-97 | every path is outside the namespace, a call on one version, an unversioned call, or malformed, each by its text |
| `Routes.CatchAllIsUnservedVersion` | crates/sovereign-config-server/src/protocol.rs:127-141 | the catch-all refuses exactly what the metric attributes to an unserved version |
| `Routes.ExemptRoutesAreNeverRefused` | crates/sovereign-config-server/src/auth.rs:563-571 | health probes, the handshake and `GetVersion` on a served version are never refused |
| `Routes.OperationalIsByText` | crates/sovereign-config-server/src/auth.rs:563-571 | the operational routes are exactly two health probes, the handshake, and `GetVersion` on each served version |
| `Routes.CallsOnServedVersionsPass` | crates/sovereign-config-server/src/protocol.rs:327-345 | a client's call passes the catch-all exactly when its version is served |
| `ProtocolCounters.ProtocolMetrics.constructor` | crates/sovereign-config-server/src/metrics.rs:399-413 | all counters start at zero, one per label |
| `ProtocolCounters.ProtocolMetrics.Find` | crates/sovereign-config-server/src/metrics.rs:415-419 | finds the label's counters when there are any |
| `ProtocolCounters.ProtocolMetrics.RecordAttempted` | crates/sovereign-config-server/src/metrics.rs:424-429 | counts the version, or the attempt as unrecognised |
| `ProtocolCounters.ProtocolMetrics.RecordAuthenticated` | crates/sovereign-config-server/src/metrics.rs:434-438 | counts a known version and nothing else |
| `ProtocolCounters.ProtocolMetrics.RecordOffered` | crates/sovereign-config-server/src/metrics.rs:451-456 | the stored counters become `Offered` of the old ones, so offers counted grow by exactly one |
| `ProtocolCounters.OfferedAddsOne` | crates/sovereign-config-server/src/metrics.rs:451-456 | each offer is counted exactly once, as unrecognised exactly when no label equals it, and no other counter changes |
| `ProtocolCounters.AttemptedAddsOne` | crates/sovereign-config-server/src/metrics.rs:424-429 | each attempt is counted exactly once |
| `ServerPipeline.RunKeepsInv` | crates/sovereign-config-server/src/auth.rs:691-750 | every interleaving keeps each counter equal to the size of its set of requests |
| `ServerPipeline.CountersConserved` | crates/sovereign-config-server/src/protocol.rs:244-273 | authenticated never exceeds attempted; attempts recorded equal the namespace `POST`s seen; the catch-all refuses exactly unserved versions, which go no further; what needs no token is never refused |
| `ServerHistory.RequestsGoWhereTheyShould` | crates/sovereign-config-server/src/auth.rs:691-750 | in every run each request stands where its own text and the authenticator's answers put it: refused by the catch-all, not found, let through open, challenged, rejected, accepted or counted, each exactly when |
| `ServerHistory.CountersCountByText` | crates/sovereign-config-server/src/protocol.rs:244-273 | each counter is the number of requests it is for: per served version the `POST`s calling it, those let in, and as unrecognised the other `POST`s in the namespace that are not unversioned |
| `ServerHistory.GateIsVerdict` | crates/sovereign-config-server/src/auth.rs:701-712 | the gate: telemetry paths are not found, page requests and operational routes pass, all else is challenged |
| `ServerHistory.TagIsByText` | crates/sovereign-config-server/src/protocol.rs:127-141 | a request is attributed to a label exactly when it is a `POST` calling that served version |
| `Identity.IdentifiersAreUnique` | crates/sovereign-config-identity/src/fake.rs:181-214 | ids, usernames, credentials and secrets are distinct across accounts |
| `Identity.ApplyKeepsInv` | crates/sovereign-config-identity/src/fake.rs:181-298 | every operation keeps the account invariant |
| `Identity.OnlyTheTargetIsTouched` | crates/sovereign-config-identity/src/fake.rs:216-298 | every account but the operation's target is left exactly as it was |
| `Identity.FailuresChangeNoAccount` | crates/sovereign-config-identity/src/fake.rs:181-298 | an operation that fails changes no account |
| `Identity.CredentialsChangeOnlyOnReplacement` | crates/sovereign-config-identity/src/fake.rs:273-288 | identifiers never change, and a secret only by replacing that credential |
| `IdentityLaws.CreateLaw` | crates/sovereign-config-identity/src/fake.rs:181-214 | rejected exactly when the username is in use; else one more account, stored as answered, without a grant and outside the group |
| `IdentityLaws.CreatedIsFound` | crates/sovereign-config-identity/src/fake.rs:181-260 | a created account is found by its name, which cannot be used again |
| `IdentityLaws.CreatedTexts` | crates/sovereign-config-identity/src/fake.rs:191-204 | the texts issued with an account, each from its number |
| `IdentityLaws.GrantLaw` | crates/sovereign-config-identity/src/fake.rs:216-229 | the account holds exactly the four things given and is otherwise as before; not found exactly when there is no such account |
| `IdentityLaws.LastGrantWins` | crates/sovereign-config-identity/src/fake.rs:216-229 | a second grant leaves nothing of the first |
| `IdentityLaws.AssignLaw` | crates/sovereign-config-identity/src/fake.rs:231-239 | the account is in the group and otherwise as before; not found exactly without the group or the account |
| `IdentityLaws.RenameLaw` | crates/sovereign-config-identity/src/fake.rs:241-250 | the name is the one given and nothing else changes |
| `IdentityLaws.FindLaw` | crates/sovereign-config-identity/src/fake.rs:252-271 | an account by its name or none, and exactly the credentials stored under a name; nothing changes |
| `IdentityLaws.ReplaceLaw` | crates/sovereign-config-identity/src/fake.rs:273-288 | the secret stored at the holder is the one answered and nothing else changes; not found exactly when nothing holds the credential |
| `IdentityLaws.DeleteLaw` | crates/sovereign-config-identity/src/fake.rs:290-298 | the account is gone and only it, and deleting it again is not found |
| `IdentityFake.FakeIdentityProvider.FailNext` | crates/sovereign-config-identity/src/fake.rs:79-82 | queues the fault with its default effect |
| `IdentityFake.FakeIdentityProvider.Begin` | crates/sovereign-config-identity/src/fake.rs:133-140 | counts the call and takes the oldest fault of its kind |
| `IdentityFake.KindsAreOperations` | crates/sovereign-config-identity/src/fake.rs:181-298 | every operation has its own kind, so faults and counts of one never reach another |
| `IdentityFake.FakeIdentityProvider.Perform` | crates/sovereign-config-identity/src/fake.rs:144-159 | applies the operation unless the fault says not to, and reports the fault or the result |
| `IdentityFake.FakeIdentityProvider.ApplyTo` | crates/sovereign-config-identity/src/fake.rs:180-298 | the stored accounts change, and the answer is, as `Identity.Apply` says |
| `IdentityFake.FakeIdentityProvider.Create` | crates/sovereign-config-identity/src/fake.rs:181-214 | the search for a taken username and the insertion, in place |
| `IdentityFake.FakeIdentityProvider.ReplaceSecret` | crates/sovereign-config-identity/src/fake.rs:273-288 | the search for the credential's holder and the new secret, in place |
| `IdentityRuns.RunKeepsInv` | crates/sovereign-config-identity/src/fake.rs:133-159 | every interleaving keeps the queue, call, log and account invariants |
| `IdentityRuns.FaultsAreTakenInOrder` | crates/sovereign-config-identity/src/fake.rs:97-140 | read off the steps alone: each call takes the oldest fault left for its kind when it begins, or none when none is; what is left is still queued in order; the counters count the calls begun |
| `IdentityRuns.FaultyRunsAreSequentialRuns` | crates/sovereign-config-identity/src/fake.rs:133-159 | the accounts are those of the fault-free sequential run of the log; the log is the applications in step order, no call twice, exactly the finished calls whose fault lets them through; each reports its fault, or what that sequential run answers at its place |
| `IdentityRuns.NothingIsIssuedTwice` | crates/sovereign-config-identity/src/fake.rs:180-298 | no account id, credential id or secret is issued twice over a run, even to accounts since deleted, and present accounts differ in username and credential |
| `IdentityRuns.GroupIsMissingOnceRemoved` | crates/sovereign-config-identity/src/fake.rs:105-108 | over every run the browsing group is missing exactly when a removal is among the steps; no operation, fault or other interleaving changes it |
| `IdentityFake.DefinitelyNotAppliedIsTrue` | crates/sovereign-config-identity/src/fake.rs:79-82 | a class that means "definitely not applied" is reported only when no account changed |
| `Layers.ReadLayer` | crates/sovereign-config-layers/src/reader.rs:173-248 | the read with its early returns computes `Read` |
| `Layers.ReadListed` | crates/sovereign-config-layers/src/reader.rs:197-247 | the loop over the listed values computes `Collect` |
| `Layers.ContributionIsDirectChild` | crates/sovereign-config-layers/src/reader.rs:197-246 | a value is bound exactly when it is the layer joined with one segment and its text is had; it fails the layer, or is skipped, exactly as the policy says |
| `Layers.NamesAreAsAsked` | crates/sovereign-config-layers/src/reader.rs:103-110 | a bound name is the last segment as stored, or that segment without capitals |
| `Layers.RefusedListings` | crates/sovereign-config-layers/src/reader.rs:178-195 | a refused listing is passed over when skipping exactly if denied or not found, and is the layer's failure otherwise |
| `Layers.FetchLayers` | crates/sovereign-config-layers/src/reader.rs:146-157 | the merging loops compute `Fetch` |
| `Layers.LastLayerWins` | crates/sovereign-config-layers/src/reader.rs:146-248 | each name has the text of the last layer listing it as a readable direct child, and no other name is present |
| `Layers.FetchSplits` | crates/sovereign-config-layers/src/reader.rs:146-157 | over concatenated layers: the first failure, or the second map over the first |
| `Layers.SkipIsReadableOnly` | crates/sovereign-config-layers/src/reader.rs:178-195 | skipping is exactly leaving the unreadable layers out |
| `Layers.SkipIsFailOnReadable` | crates/sovereign-config-layers/src/reader.rs:178-247 | for every store, skipping equals failing over the readable layers if and only if the first listing error or failed reveal of a direct-child secret, scanning those layers in order, is not a reveal answering not found; then failing reports not found, which skipping never does |
| `Layers.RaceIsListed` | crates/sovereign-config-layers/src/reader.rs:217-243 | such a first failure is a secret some readable layer lists directly below it, so a store without one has the policies agree |
| `Layers.RacedSecretSplitsThePolicies` | crates/sovereign-config-layers/src/reader.rs:217-243 | with one layer listing one direct-child secret that is gone when revealed, skipping gives the empty map and failing reports not found |
| `Layers.RacedSecretAtA` | crates/sovereign-config-layers/src/reader.rs:217-243 | the input: the tree root as the layer and a secret at `/a` |
| `Layers.RenderLayers` | crates/sovereign-config-cli/src/render.rs:57-73 | the merge loop computes `RenderFrom` |
| `Layers.RenderAgreesWithFetch` | crates/sovereign-config-cli/src/render.rs:57-73 | it stops at a layer exactly when that layer reads as empty and every one before it gave something; otherwise the same map or failure as `fetch` |
| `Tokens.Lifetime` | crates/sovereign-config-layers/src/token.rs:69-74 | the report less 30 s, kept between 15 s and the ceiling, as a value for every report; the 30 s margin is kept exactly when 45 s or more is reported |
| `Tokens.CachedTokenProvider.AccessToken` | crates/sovereign-config-layers/src/token.rs:79-90 | serves the cached token before its expiry, else asks the issuer and caches what it grants |
| `Tokens.CachedTokenProvider.Invalidate` | crates/sovereign-config-layers/src/token.rs:98-100 | empties the cache |
| `Tokens.CachedWhileItLasts` | crates/sovereign-config-layers/src/token.rs:63-67 | a cached token is served exactly while its lifetime lasts |
| `Tokens.BeginLaw` | crates/sovereign-config-layers/src/token.rs:79-90 | a request that begins is sent with the cached token while it lasts, and otherwise asks the issuer |
| `Tokens.AttemptAsksAndSends` | crates/sovereign-config-layers/src/token.rs:83-89 | a token granted is sent and cached for its lifetime |
| `Tokens.AnswerLaw` | crates/sovereign-config-layers/src/reader.rs:263-270 | a first rejection drops the cache and starts a second attempt that must ask the issuer; any other answer ends the request and leaves the cache |
| `Tokens.WithToken` | crates/sovereign-config-layers/src/reader.rs:259-277 | at most two sends; the first with the cached token or, on a miss, one just granted; the second only after a rejection and with a token the issuer then granted; and what the cache holds afterwards |
| `Tokens.RunKeepsInv` | crates/sovereign-config-layers/src/reader.rs:259-271 | every interleaving of requests keeps the cache, log and task invariants |
| `Tokens.TokensOverRuns` | crates/sovereign-config-layers/src/reader.rs:259-277 | in every interleaving: at most two sends per request, every send within the token's lifetime, a retry's token granted after the rejection, and a dropped token never sent again |
| `Tokens.SecondRejectionKeepsTheToken` | crates/sovereign-config-layers/src/reader.rs:259-271 | a rejection drops the served token exactly when it is a first attempt's; otherwise the next request is served it again |
| `Tokens.RejectedTokenIsResent` | crates/sovereign-config-layers/src/reader.rs:259-271 | a run from the start, for any ceiling, in which a token just rejected is sent again |
| `Profiles.WritesAreReadBack` | crates/sovereign-config-native/src/profiles.rs:56-119 | add, update and set-default keep the file loadable, are read back as written and change nothing else |
| `Profiles.ValidNameMeans` | crates/sovereign-config-native/src/profiles.rs:238-255 | a name is one to 63 small letters, digits and dashes and does not start with a dash |
| `Profiles.StoreErrors` | crates/sovereign-config-native/src/profiles.rs:56-119 | exactly when each operation fails and how: a bad name, then a damaged file, then a missing profile, or for adding one that is there |
| `Profiles.LoginLaw` | crates/sovereign-config-cli/src/session.rs:112-132 | login stores what was issued under the human profile's identity and only there, and otherwise changes nothing |
| `Profiles.LogoutLaw` | crates/sovereign-config-cli/src/session.rs:139-146 | logout forgets that credential and no other, also after a login |
| `Profiles.AccessLaw` | crates/sovereign-config-cli/src/session.rs:204-233 | a rotated credential replaces the stored one, a rejected one is forgotten, and nothing else changes |
| `Profiles.UpdateLaw` | crates/sovereign-config-cli/src/profile.rs:31-45 | an update forgets the old credential exactly when the old profile was human, the new one is not the same human identity, and no other human profile has it |
| `Profiles.ProfileStore.Add` | crates/sovereign-config-native/src/profiles.rs:56-76 | stores the configuration `AddTo` gives, or reports its error and stores nothing |
| `Profiles.ProfileStore.Update` | crates/sovereign-config-native/src/profiles.rs:83-89 | the same for `UpdateIn` |
| `Profiles.ProfileStore.SetDefault` | crates/sovereign-config-native/src/profiles.rs:96-104 | the same for `DefaultIn` |
| `Profiles.ProfileStore.ContainsOtherHumanIdentity` | crates/sovereign-config-native/src/profiles.rs:166-186 | the search answers whether some other human profile has the identity |
| `Profiles.ManageUpdate` | crates/sovereign-config-cli/src/profile.rs:31-45 | both stores change as the command specification says, and it fails exactly when the profile cannot be loaded |
| `Profiles.FinishLogin` | crates/sovereign-config-cli/src/session.rs:112-132 | a human profile's issued credential is stored under its identity |
| `Profiles.FinishLogout` | crates/sovereign-config-cli/src/session.rs:139-146 | a human profile's credential is deleted |
| `Profiles.UseCredential` | crates/sovereign-config-cli/src/session.rs:204-233 | a rotated credential replaces the stored one, a rejected one is deleted |
| `Profiles.UpdateKeepsExactlyTheOwned` | crates/sovereign-config-cli/src/profile.rs:31-45 | an update keeps exactly the credentials some human profile owns afterwards, so none that is shared is deleted and none is left without an owner |
| `Profiles.RunKeepsInv` | crates/sovereign-config-native/src/profiles.rs:56-119 | every run of commands keeps the configuration valid and every credential owned |
| `Profiles.FreshRunsAreSound` | crates/sovereign-config-native/src/profiles.rs:192-210 | from nothing, the default always names a stored profile and every credential belongs to some human profile |
| `DeviceFlow.FirstInterval` | crates/sovereign-config-native/src/oidc.rs:151-152 | five seconds when the provider names none, one when it names zero, else what it names |
| `DeviceFlow.Poll` | crates/sovereign-config-native/src/oidc.rs:161-212 | terminates; ends with the first reply that does not say to go on, or as expired at the first poll that would come too late, with the interval at its start value plus five seconds per earlier slow-down |
| `DeviceFlow.OutcomeMeans` | crates/sovereign-config-native/src/oidc.rs:183-211 | the outcome is tokens exactly for a usable token set, unauthenticated exactly for denial or expiry, and unavailable otherwise |
| `DeviceFlow.PollsFit` | crates/sovereign-config-native/src/oidc.rs:161-212 | the intervals slept sum to less than the time to expiry; they reach the quadratic total exactly when every reply before the last is `slow_down` |

## Left out

- JSON text: documents are trees of strings, ordered member lists and other values; the text syntax, pretty printing and nesting limit of `serde_json` are not modelled, nor are TOML and URL syntax.
- Update in place of nested maps: `InsertJsonValue`, `InsertLeaf` and the flattening methods return the changed tree or list instead of mutating it, so aliasing of sub-maps is not captured.
- JWT and JWKS checks, encryption, and the authentication server itself: a request is accepted, challenged or rejected by a step.
- The Authentik REST client, tonic transports, gRPC-Web framing and file storage: calls succeed or fail.
- The server's value store, managed provisioning and audit trail.
- The web interface, command-line parsing, the MCP tools, the Woodpecker broker's HTTP side, telemetry and logging.
- Error messages: only the error kind is modelled; `describe_served` and redaction are not.
- 64-bit wrap-around of the counters, and the exported metric snapshot, which reads the counters one at a time.
- SHA-256 in the credential file name: a credential is filed under its three parts directly, so collisions are not considered.
- Races between processes over the profile files: each command is one step, and storage succeeds.
- Other token providers than the caching one in `Tokens`; provider errors other than a rejection end the request.
- The order in which the identity provider lists credentials: it answers a set.
- Poll: assumes that each sleep lasts at least its interval, so that the clock read afterwards has advanced by it.
- Unicode case folding: paths are ASCII by their grammar, and only ASCII letters fold.
