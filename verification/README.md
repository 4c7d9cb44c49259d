# Proofs about the gateway

This project models six mechanisms of the gateway in Dafny 4.11 and proves what they are for.
`dafny verify dfyconfig.toml` checks all of it.

**Request-body sanitizer** (`src/delegated_fetch.rs`; `JsonPointer`, `MediaSurfaces`, `MediaProofs`,
`MediaAudit`, `ServerTools`, `BodySanitizer`, `MediaMeaning`, `ToolMeaning`, `SanitizerCode`). Before a request leaves, remote media
are removed from the protocol surfaces of an arbitrary JSON tree, provider-hosted tools are removed
from its tool lists, `tool_choice` is repaired, and every removal is recorded under a JSON Pointer.
`SanitizerCode` rewrites a body in place, with the loops of the source, and is proved to compute the
functions of the other modules. Those are shown to remove exactly what they must (the largest clean
trimming), to record each removal at its place in the original body, and to absorb one another.

**Wire parsers of the egress firewall** (`src/egress.rs`; `WireBytes`, `Utf8`, `TlsSni`, `ProxyV2`). The
cursor walk over a TLS ClientHello (section 4.1.2 of RFC 8446, section 3 of RFC 6066) and the reader
of PROXY protocol v2 headers (section 2.2 of the PROXY protocol specification) accept exactly what
the corresponding serializers write. Bytes that follow do not change a name once it is found, and
what is spliced to the destination is the client's stream without the header.

**Availability store** (`src/availability.rs`; `AvailabilityStore`, `AvailabilityRuns`,
`AvailabilityMeaning`, `ConcurrentAnnounces`, `AnnounceChain`, `AnnounceOrder`, `LockOrder`). A class holds the two maps and updates them in place, counting
as it goes. Over runs the nested map is shown to be a flat one. Announces, which give up their lock
between their two phases, are followed through every interleaving, and it is settled exactly when
two that overlap end as one order of them would. A step-level model of the two
fair read-write locks shows that no reachable state is stuck.

**Redaction of log text** (`src/config.rs`; `Redaction`, `RedactionProofs`, `RedactionValues`,
`RedactionBearer`, `RedactionMarks`, `RedactionExact`, `RedactionClear`, `RedactionStruck`,
`RedactionTokens`, `RedactionWords`, `RedactionSwallowed`, `RedactionMeaning`, `RedactionCode`). Seven query-parameter passes, a bearer pass and six key-prefix passes run one after
the other. Each loop is proved against a function, and what a pass guarantees is shown to survive
the passes after it, or exactly when it does not. The same is done for what an earlier pass takes away
from a later one.

**AWS canonical requests and job handles** (`src/aws_sigv4.rs`, `src/jobs.rs`; `AwsCanonical`,
`AwsHeaders`, `AwsMeaning`, `JobTokens`, `JobHandles`, `JobMeaning`). Canonical query strings and headers are canonical: equal
exactly for equal inputs, in the sense each is meant to have. A sealed job handle opens exactly when
it should, and in every run in which signatures cannot be forged a lifecycle call acts on a job that
its own key was given.

**Claim limiter** (`src/device_ingress.rs`; `ClaimWindow`). The deque decides as if it remembered
every claim ever admitted, and no minute holds more than sixty.

`Wrappers`, `Text` and `Sequences` hold an option type, character classes with decimal numbers, and
sequence algebra.

## How the source is rendered

- A JSON object is a map and a number keeps its text, so key order and number formats are not
  observable. Texts of bodies and logs are sequences of characters; tokens and wire data are bytes.
- `JsonSlot` and `AuditLog` are the mutable body and the growing audit buffer. A media array or a
  nested session is taken out, rewritten and stored back, as the source does with its arrays.
- Clocks, random values, the network access list, the HTTP `Host` parser, the key validator, the MAC
  and the hash of a key are parameters. A contract holds for every choice of them.
- The modules named `...Meaning`, and `Utf8`, state their theorems without the definitions that the
  other modules reason about: the member names, pointers, characters, addresses, bytes and times of the
  protocols are written out, and the operations are shown to act on exactly those.
- The functions of `AvailabilityStore` are what its class is proved against; runs, interleavings and
  provenance are stated on those functions.

## Where the code and its comments differ

- `src/availability.rs:290-291` says that operator entries survive a probe. The code at
  `src/availability.rs:335` removes any entry of a served model. `AvailabilityRuns.OperatorEntrySurvives`
  states exactly when one survives, and `AvailabilityRuns.ServedOperatorEntryIsLost` gives an instance.
- `src/availability.rs:287-292` says that models a probe does not find served are deactivated. An
  entry of another writer whose time has run out is neither overwritten (`src/availability.rs:315-317`)
  nor counted (`src/availability.rs:138-139`), so such a model is reported available.
  `AvailabilityRuns.MissingModelReported` states exactly when a missing model is reported unavailable,
  and `AvailabilityRuns.ExpiredEntryHidesMissingModel` gives an instance.
- The query pass of `src/config.rs:332` uses a character index as a byte offset, so beyond ASCII it
  can skip a parameter. `RedactionValues.QueryPassExact` says when a pass leaves nothing of any value,
  `RedactionValues.NonAsciiValueLeftOpen` gives a text where it leaves one.
- The bearer pass may cut a token inside a mark that a query pass has put in place: "bearer
  ?key=hello" ends as "bearer ?key=[RE[REDACTED]" (`RedactionStruck.MarkCutByBearer`).
  `RedactionExact.SensitiveMarkedExactly` says exactly when every mark stays whole, by a condition on the
  output of the query passes,
  `RedactionClear.ClearTextIsMarked` gives a condition on the logged text, which is sufficient only, and
  `RedactionMarks.SensitiveRedacted` says what is left of a mark otherwise.
- `src/config.rs:303` promises that bearer tokens are cut. Two things can leave one as it is. A query
  pass takes the word away with a value that ends in it: "GET /v1?token=Bearer abcdefghi" ends as "GET
  /v1?token=[REDACTED] abcdefghi" (`RedactionSwallowed.TokenLeftByQuery`). Or the bearer pass steps over
  a "bearer " whose word ends the token of the one before it, as in "bearer bearer X"
  (`RedactionBearer.TokenMissed`). `RedactionWords.BearerPromiseExact` says that these are all, over all
  passes: every "bearer " reaches its pass and is followed by a short token in the output if and only if
  neither happens. The second half of that condition is on the output of the query passes.
- `replace_active` is documented as a switch to the announced set. Two announces that overlap can
  leave a state that neither order of them gives (`AnnounceOrder.AnnouncesAreNotAtomic`). They leave
  the models available that one order would if and only if, within the universe, one active set
  contains the other (`AnnounceOrder.OverlapExact`; for the entries, `AnnounceOrder.OverlapEntriesExact`).
  Any number of them whose active sets form a chain end as one of them (`AnnounceChain.ChainEndsAsOne`).
- The address that `lifecycle_target` builds for fal does not always tell two jobs apart: a status
  request for a job called `requests` is also a result request for another model's job called
  `status`. `JobHandles.FalTargetExact` shows that this is the only way, `JobHandles.FalJobsCollide`
  that handles may name such jobs.

## Model

| member | source | states |
|---|---|---|
| JsonPointer.PointerOfRender | src/delegated_fetch.rs:83-85 | A recorded path, resolved as a JSON Pointer (section 4 of RFC 6901), leads where its steps lead |
| JsonPointer.RenderInjective | src/delegated_fetch.rs:104-122 | Different places are recorded under different strings |
| JsonPointer.ParseIndexExact | src/delegated_fetch.rs:110-122 | A token is an array index if and only if it is the decimal numeral of one, as `{index}` writes it |
| JsonPointer.UnescapeExact | src/delegated_fetch.rs:144-144 | Unescaping a pointer token (section 3 of RFC 6901) gives back the member name it was written for |
| MediaProofs.ReferencesFrame | src/delegated_fetch.rs:141-180 | What an item refers to does not depend on its nested media arrays |
| MediaProofs.CleanItemFrame | src/delegated_fetch.rs:101-137 | Nested stripping never makes a reference-free item a referencing one, nor changes whether it is a container |
| MediaProofs.CleanBodyIsLargestFreeTrimming | src/delegated_fetch.rs:86-137 | The cleaned body has no remote reference at any surface, and every other reference-free trimming of the original deletes more |
| MediaProofs.CleanBodyUnchanged | src/delegated_fetch.rs:86-137 | Media stripping changes a body if and only if some surface item refers to remote media |
| MediaAudit.BodyAuditExact | src/delegated_fetch.rs:101-137 | Media records are exactly the references of the outermost removed items; each path leads to the removed URI in the original body; no path occurs twice |
| MediaAudit.BodyAuditSilent | src/delegated_fetch.rs:101-137 | No media record if and only if the body is unchanged |
| ServerTools.StripToolsIsLargestFreeSublist | src/delegated_fetch.rs:198-230 | What stays of a tool list is its longest sublist without a disallowed hosted tool |
| ServerTools.ToolsAuditExact | src/delegated_fetch.rs:198-230 | Tool records are exactly the stripped tools with their original indices, in order |
| ServerTools.RemovedKindsAreGone | src/delegated_fetch.rs:198-230 | No remaining tool has a removed type, in any letter case |
| ServerTools.ChoiceIsUsable | src/delegated_fetch.rs:261-297 | When a tool was removed, a present `tool_choice` ends as "auto", or stays, names no removed type and is "none" if no tool remains; else nothing changes |
| ServerTools.StripHostedAbsorbs | src/delegated_fetch.rs:182-230 | Stripping under a stricter allowlist after a looser one is stripping under the stricter alone, `tool_choice` included |
| BodySanitizer.CleanStripCommute | src/delegated_fetch.rs:65-81 | Removing media and stripping tools touch disjoint members: they commute |
| BodySanitizer.Absorption | src/delegated_fetch.rs:65-81 | Sanitizing for a policy after a more permissive one gives the same body as sanitizing for it alone; with equal policies, idempotence |
| BodySanitizer.SilentIffUnchanged | src/delegated_fetch.rs:61-81 | The audit is empty if and only if the body is unchanged |
| BodySanitizer.SecondAuditIsEmpty | src/delegated_fetch.rs:65-81 | Sanitizing a sanitized body again records nothing |
| BodySanitizer.AuditExact | src/delegated_fetch.rs:101-137 | Each media or tool record resolves in the original body to exactly what was removed, and no two share a path |
| BodySanitizer.EveryHostedToolIsRecorded | src/delegated_fetch.rs:198-230 | Every disallowed hosted tool has its record, at the top level and in a session update |
| BodySanitizer.SanitizedIsClean | src/delegated_fetch.rs:65-81 | The result has no remote media at any surface when those are denied, and no disallowed hosted tool in either tool list |
| BodySanitizer.OnlySurfacesChange | src/delegated_fetch.rs:61-81 | But for `tools` and `tool_choice`, at the top level and in the session of a session update, the result is the largest reference-free trimming of the body; both tool lists are the longest clean sublists |
| BodySanitizer.ResultChoiceIsUsable | src/delegated_fetch.rs:65-81 | In the result, `tool_choice` is usable with the tools that remain, at the top level and in a session update |
| MediaMeaning.InlineExact | src/delegated_fetch.rs:145-149 | A URI is let through as inline if and only if it is white space followed by the letters d, a, t, a in either case and a colon |
| MediaMeaning.RemoteExact | src/delegated_fetch.rs:154-177 | An item is removed if and only if one of the pointers listed for its type, written out, holds a string that is no such URI |
| MediaMeaning.MediaElementExact | src/delegated_fetch.rs:86-124 | The surfaces are the elements of the five named arrays, directly or in the four named envelopes, and of `content` and `parts` of untyped elements, messages and tool results |
| MediaMeaning.OutermostExact | src/delegated_fetch.rs:117-134 | A surface is reached by the audit if and only if no element on the way to it holds a remote URI |
| MediaMeaning.NothingRemoteLeft | src/delegated_fetch.rs:65-81 | With remote content denied, no such element of the result holds a remote URI at any listed pointer |
| MediaMeaning.KeptExactly | src/delegated_fetch.rs:65-81 | And each array, at every depth, keeps exactly the elements that hold none, in their order, rebuilt likewise; no other member changes but the tools and their choice |
| MediaMeaning.RecordedExactly | src/delegated_fetch.rs:101-137 | A record with a URI is made if and only if an outermost element holds that URI at a listed pointer; its path is the element's and that pointer, its capability the listed one |
| MediaMeaning.TopLevelElement | src/delegated_fetch.rs:101-137 | For an element of an array of the request itself: it is absent from the result and each of its remote URIs is recorded under "/field/index/pointer" |
| ToolMeaning.HostedExact | src/delegated_fetch.rs:210-259 | A tool is stripped, under its type, if and only if that type is no letter-case variant of "function", "custom" or an allowed name |
| ToolMeaning.ClientToolsStay | src/delegated_fetch.rs:198-253 | Both tool lists keep exactly the other tools, in their order |
| ToolMeaning.ChoiceExact | src/delegated_fetch.rs:261-297 | `tool_choice` becomes "auto" if and only if a tool was stripped and the choice means a stripped one by text, type or name, or none is left and it is neither "auto" nor "none"; else it stays |
| ToolMeaning.ToolsRecordedExactly | src/delegated_fetch.rs:198-297 | The records without a URI are exactly those of the stripped tools, with path and capability written out, and of lost choices |
| ToolMeaning.AbsorptionSpelled | src/delegated_fetch.rs:65-81 | Absorption, with the order on policies written out |
| SanitizerCode.RemoteMediaReferences | src/delegated_fetch.rs:141-180 | The references found, in order, spelled out: exactly the remote URIs at the listed pointers of the item |
| SanitizerCode.SanitizeItem | src/delegated_fetch.rs:117-134 | An item is dropped with a record per reference, or kept with its nested arrays sanitized |
| SanitizerCode.SanitizeItems | src/delegated_fetch.rs:101-137 | The rebuilt array and the records, with original indices, of one media array |
| SanitizerCode.SanitizeMediaArrays | src/delegated_fetch.rs:101-137 | Every listed array field is cleaned in place and nothing else is touched |
| SanitizerCode.SanitizeEnvelopes | src/delegated_fetch.rs:86-99 | Every envelope is cleaned in place, recursively |
| SanitizerCode.SanitizeRemoteMedia | src/delegated_fetch.rs:86-99 | The body in place becomes the largest reference-free trimming, and the audit grows by exactly its records |
| SanitizerCode.StripServerToolsFromArray | src/delegated_fetch.rs:198-230 | The kept tools, the removed types and the records of one tool list |
| SanitizerCode.NormalizeToolChoice | src/delegated_fetch.rs:261-297 | When and how `tool_choice` is replaced, and that this alone is recorded |
| SanitizerCode.SanitizeServerTools | src/delegated_fetch.rs:182-192 | The `tools` member in place, the removed types and the records |
| SanitizerCode.SanitizeRealtimeSessionUpdate | src/delegated_fetch.rs:234-253 | `session` is stripped and repaired like a body of its own, everything else is kept |
| SanitizerCode.Sanitize | src/delegated_fetch.rs:65-81 | The in-place rewrite computes the body and the audit trail that the theorems above are about |
| TlsSni.ExtractSni | src/egress.rs:276-324 | The cursor walk terminates within bounds and finds what the recursive reading finds |
| TlsSni.WalkExtensions | src/egress.rs:303-324 | So does its loop over any extension block |
| TlsSni.SniExact | src/egress.rs:276-324 | A name is found if and only if the bytes are some ClientHello whose first server_name extension carries it as valid UTF-8, whatever precedes that extension |
| TlsSni.SniComplete | src/egress.rs:276-324 | For every ClientHello within its length fields the name found is the one it was built with |
| TlsSni.SniStable | src/egress.rs:276-324 | Appending bytes never changes a name once found |
| Utf8.Utf8Exact | src/egress.rs:317-319 | A name is valid UTF-8 if and only if it is the concatenated encodings of some sequence of Unicode scalar values |
| ProxyV2.HeaderExact | src/egress.rs:194-258 | A stream opens with a destination if and only if it starts with some well-formed header for it; exactly the header is consumed |
| ProxyV2.HeaderComplete | src/egress.rs:213-258 | Every well-formed header is read back, and the bytes after it are left |
| ProxyV2.RefusalExact | src/egress.rs:213-243 | From the values of the header's fields, which reason a header is refused for, if it is |
| ProxyV2.SignatureExact | src/egress.rs:213-216 | A stream is refused for its signature if and only if it has sixteen bytes and does not start with it |
| ProxyV2.TargetExact | src/egress.rs:156-160 | The access list is asked about the host of the ClientHello that a first byte 0x16 announces, about the HTTP host for any other first byte, and about the address where there is no name |
| ProxyV2.Handle | src/egress.rs:147-191 | A connection is refused on a bad header, dropped if and only if enforced and the access list denies its ClientHello's host, its HTTP host or, without either, its address; otherwise, if the destination can be reached, it gets the client's stream without the header |
| AvailabilityStore.Availability.Deactivate | src/availability.rs:175-211 | The new map, and a count equal to the number of models whose entry changed, duplicates included |
| AvailabilityStore.Availability.Activate | src/availability.rs:214-240 | Likewise for re-activation of some or all models |
| AvailabilityStore.Availability.ReplaceActive | src/availability.rs:248-283 | Likewise for an announce that is not interleaved |
| AvailabilityStore.Availability.ApplyProbe | src/availability.rs:293-371 | The new entries and probe status, and what the two counts count |
| AvailabilityStore.Availability.ProbeUniverse | src/availability.rs:311-328 | The first loop sets exactly the unserved models that no one but a probe holds |
| AvailabilityStore.Availability.ProbeServed | src/availability.rs:329-336 | The second loop removes every entry of a served model and counts those of probes |
| AvailabilityRuns.StepEntry | src/availability.rs:175-337 | What every operation makes of one model's entry depends on that entry alone |
| AvailabilityRuns.RunRefinesFlat | src/availability.rs:175-337 | Over every run the nested map, empty slots included, refines a flat map of (provider, model) |
| AvailabilityRuns.ReportsAreFlat | src/availability.rs:131-172 | Both reports depend on the flat map alone |
| AvailabilityRuns.UnavailableIffListed | src/availability.rs:131-172 | A model is reported unavailable if and only if the snapshot of that instant lists it, with the same entry |
| AvailabilityRuns.ProbeEffect | src/availability.rs:293-354 | A probe touches no other provider, leaves no entry of a served model, keeps other writers' entries of unserved ones, and sets its own entry for every other unserved universe model |
| AvailabilityRuns.MissingModelReported | src/availability.rs:311-328 | An unserved universe model is reported unavailable if and only if no expired entry of another writer holds it |
| AvailabilityRuns.ExpiredEntryHidesMissingModel | src/availability.rs:315-317 | An expired operator entry under which an unserved model is reported available |
| AvailabilityRuns.OperatorEntrySurvives | src/availability.rs:329-336 | Another writer's entry survives a probe if and only if the model is not served |
| AvailabilityRuns.ServedOperatorEntryIsLost | src/availability.rs:329-336 | An operator entry that a probe removes |
| AvailabilityRuns.ProbeProvenance | src/availability.rs:293-354 | In runs where only probes sign as "probe", each such entry was set by a probe that found the model unserved |
| AvailabilityMeaning.EntryHolds | src/availability.rs:36-38 | An entry makes both reports give it until its time, and not from then on; without a time, for ever; a model without an entry is never reported |
| AvailabilityMeaning.AfterDeactivate | src/availability.rs:175-211 | After a deactivation, both reports for every model at every instant |
| AvailabilityMeaning.AfterActivate | src/availability.rs:214-240 | Likewise after an activation |
| AvailabilityMeaning.AfterAnnounce | src/availability.rs:248-283 | Likewise after an announce |
| AvailabilityMeaning.AfterProbe | src/availability.rs:293-337 | Likewise after a probe, which leaves the entries of writers other than "probe" |
| ConcurrentAnnounces.AvailabilityExact | src/availability.rs:248-283 | Under every interleaving, exactly which models end up available, and whose entry the others hold |
| ConcurrentAnnounces.AnnouncesConverge | src/availability.rs:248-283 | The last finisher's whole active set is available, so is what every announce lists; universe models that none lists are deactivated |
| AnnounceChain.ChainEndsAsOne | src/availability.rs:248-283 | If within the universe the active sets of any number of announces form a chain, every interleaving leaves exactly the active set of one of them available |
| AnnounceChain.OutsideUniverse | src/availability.rs:248-283 | Outside the universe exactly the models that some announce lists, or that had no entry, end available |
| AnnounceChain.ChainEndsAsSequence | src/availability.rs:248-283 | In a chain every interleaving leaves the same models available, in the universe and outside, as one announce after the other with one of them last |
| AnnounceOrder.FourSteps | src/availability.rs:248-283 | Every interleaving of two announces either runs one after the other or takes both first phases before both second ones |
| AnnounceOrder.OverlapExact | src/availability.rs:248-283 | Two announces leave the models available that one order of them would if and only if they do not overlap, or within the universe one active set contains the other |
| AnnounceOrder.OverlapEntriesExact | src/availability.rs:248-283 | The same for the entries, but for the instants they were set at |
| AnnounceOrder.AnnouncesAreNotAtomic | src/availability.rs:248-283 | Two announces whose overlap leaves what neither order gives |
| LockOrder.ProgramOrdered | src/availability.rs:184-205 | Every operation requests `entries` before `probe`, never while holding `probe`, and gives both back before and after `persist` |
| LockOrder.ProgramSpelled | src/availability.rs:131-406 | The lock requests and releases of each operation, one by one |
| LockOrder.StepKeepsInv | src/availability.rs:375-405 | Each step keeps mutual exclusion and the queues consistent |
| LockOrder.NeverStuck | src/availability.rs:307-366 | An unfinished participant means some step is enabled |
| LockOrder.NoDeadlock | src/availability.rs:307-366 | For any number of participants running any operations: no reachable state is stuck, every run is bounded, and where no step is possible every participant has run to its end |
| RedactionProofs.PrefixedKeyExact | src/config.rs:402-432 | A key pass leaves at most eight key characters after its prefix, is the identity exactly on such texts, and is idempotent |
| RedactionProofs.PrefixedKeyCuts | src/config.rs:402-432 | A key pass copies its text, but for putting the mark over stretches inside a key or up to the end of a value |
| RedactionProofs.BearerCuts | src/config.rs:360-387 | So does the bearer pass |
| RedactionProofs.QueryCuts | src/config.rs:325-357 | And so does every query pass |
| RedactionProofs.CutsKeepKeysShort | src/config.rs:305-322 | A pass's guarantee survives every later rewriting that cuts key characters away |
| RedactionProofs.KeyPatternsRedacted | src/config.rs:390-399 | For every text, after all six passes each prefix is followed by at most eight key characters; a second round changes nothing |
| RedactionValues.QueryPassExact | src/config.rs:325-357 | After a query pass every value of its parameter is the mark and nothing else, up to its end, if and only if the pass misreads no position |
| RedactionValues.AsciiNeverMisread | src/config.rs:325-357 | On ASCII it never does |
| RedactionValues.QueryKeepsValues | src/config.rs:309-316 | A pass for one parameter leaves the replaced values of another as they are, on any text |
| RedactionValues.NonAsciiValueLeftOpen | src/config.rs:325-357 | A non-ASCII text whose parameter value stays in the open |
| RedactionValues.QueriesRedacted | src/config.rs:305-316 | On ASCII, after the seven query passes every listed name at the start or behind a separator is followed by "=[REDACTED]", and that by the end of the value: nothing of the value is left |
| RedactionBearer.BearerIdempotent | src/config.rs:360-387 | The bearer pass is idempotent |
| RedactionBearer.BearerTokensExact | src/config.rs:360-387 | After the bearer pass every "bearer " is followed by a token that is short or cut, if and only if none with a long token ended the token before it |
| RedactionTokens.SensitiveTokensExact | src/config.rs:305-322 | In the output of all passes every "bearer " is followed by such a token, under exactly that condition on the output of the query passes |
| RedactionWords.QueryBearers | src/config.rs:325-357 | A query pass never adds a "bearer ", and keeps their number if and only if no value it replaces ends in the word with a blank behind it |
| RedactionWords.QueriesBearers | src/config.rs:309-316 | The same for any list of query passes |
| RedactionWords.BearerPromiseExact | src/config.rs:299-322 | Every "bearer " of the logged text reaches the bearer pass and every one in the output is followed by a short token, if and only if no query pass takes a word away and the bearer pass steps over no long token |
| RedactionSwallowed.TokenLeftByQuery | src/config.rs:305-322 | A logged text whose bearer token stays long because a query pass takes the word |
| RedactionBearer.TokenMissed | src/config.rs:364-383 | The texts "bearer bearer X", whose long X stays |
| RedactionMarks.SensitiveRedacted | src/config.rs:305-322 | On ASCII, in the output of all passes every listed parameter's value is the mark, up to the end of the value or of its token, before which at most three ("key") or one ("token") characters of a mark may stand; every listed prefix is followed by at most eight key characters |
| RedactionExact.SensitiveMarkedExactly | src/config.rs:305-322 | On ASCII, in the output of all passes every value of a listed name is the literal mark if and only if the bearer pass cuts no token inside a value of that name |
| RedactionClear.ClearTextIsMarked | src/config.rs:305-322 | That is so where no "bearer " of the logged text is followed within eight characters by the start of such a value |
| RedactionStruck.MarkCutByBearer | src/config.rs:375-377 | A text for which it does |
| RedactionMeaning.NoLongKeyLeft | src/config.rs:305-322 | In the output of all passes, for every text, none of the six prefixes is followed by nine ASCII letters, digits, dashes or underscores |
| RedactionMeaning.FirstKey | src/config.rs:402-432 | A key pass keeps a run of at most eight of these characters behind its prefix whole, and of a longer one the first eight, with "[REDACTED]" behind them |
| RedactionMeaning.FirstToken | src/config.rs:360-387 | Likewise the bearer pass, whose tokens go on to white space, a quotation mark or the end |
| RedactionMeaning.TokensShortExact | src/config.rs:360-387 | What a short token is, wherever the word "bearer " stands, written out |
| RedactionMeaning.FirstParameterValue | src/config.rs:325-357 | A query pass replaces the value of the first match, up to '&', blank or line end, if the character at the byte offset before it is '?' or '&', and else skips the name |
| RedactionMeaning.BytesExact | src/config.rs:331-333 | That offset counts the bytes of the UTF-8 encoding of the text before the match |
| RedactionMeaning.OpenedOnAscii | src/config.rs:331-335 | On ASCII the character looked at is the one before the name |
| RedactionMeaning.EveryValueHidden | src/config.rs:305-316 | On ASCII, after the query passes each of the seven names, where a parameter may stand, is followed by "=[REDACTED]" and the end of the value |
| RedactionMeaning.EveryValueMarked | src/config.rs:305-322 | On ASCII, in the output of all passes, what stands behind each of the seven names |
| RedactionMeaning.PassesSpelled | src/config.rs:305-322 | The seven names and the six prefixes, in their order |
| RedactionCode.KeyTurn | src/config.rs:406-427 | Up to its first key, prefix included, the text is copied; of the whole run of key characters the first eight stay, marked if there were more |
| RedactionCode.BearerTurn | src/config.rs:364-383 | Likewise up to the first "bearer ", in any letter case, and the token behind it |
| RedactionCode.QueryTurn | src/config.rs:329-353 | Up to the first `name=` the text is copied; the value is replaced whole if the name stands where a parameter may |
| RedactionCode.RedactPrefixedKeyLoop | src/config.rs:402-432 | The loop computes the key pass |
| RedactionCode.RedactApiKeyPatterns | src/config.rs:390-399 | The six key passes in their order |
| RedactionCode.RedactBearerToken | src/config.rs:360-387 | The loop computes the bearer pass |
| RedactionCode.RedactQueryParam | src/config.rs:325-357 | The loop computes the query pass, byte offsets included |
| RedactionCode.RedactSensitiveText | src/config.rs:305-322 | All passes in their order |
| AwsCanonical.EncodeExact | src/aws_sigv4.rs:162-166 | Percent decoding undoes the encoding, and the encoding holds no separator |
| AwsCanonical.SortedUnique | src/aws_sigv4.rs:106-117 | Two sorted lists with the same pairs are equal: the order is total on pairs |
| AwsCanonical.ParseJoin | src/aws_sigv4.rs:106-117 | The joined string determines the encoded pairs |
| AwsCanonical.CanonicalReadsBack | src/aws_sigv4.rs:106-117 | Parsed and decoded, the canonical query gives back the pairs it was made from, as a multiset |
| AwsCanonical.CanonicalQueryExact | src/aws_sigv4.rs:106-117 | Two lists of query pairs have the same canonical string if and only if they are equal as multisets |
| AwsMeaning.BytesLeqExact | src/aws_sigv4.rs:111-111 | The order of texts: a prefix first, else by the first byte that differs, the smaller one first |
| AwsMeaning.EncodeByteSpelled | src/aws_sigv4.rs:162-166 | Letters, digits and "*-._" stay, any other byte becomes "%" and two upper-case hexadecimal digits |
| AwsMeaning.EncodeParts | src/aws_sigv4.rs:162-166 | And texts are encoded byte by byte |
| AwsMeaning.CanonicalQuerySpelled | src/aws_sigv4.rs:106-117 | The canonical query is the encoded pairs, in that ascending order, joined |
| AwsMeaning.JoinSpelled | src/aws_sigv4.rs:112-116 | Pairs read "key=value" and stand between ampersands |
| AwsHeaders.CollapseSpaces | src/aws_sigv4.rs:145-160 | The loop yields the words of a value, joined by single spaces |
| AwsHeaders.CollapseExact | src/aws_sigv4.rs:145-160 | Two values collapse to the same text if and only if they have the same words |
| AwsHeaders.SortByNameKeeps | src/aws_sigv4.rs:119-130 | The stable sort orders names and keeps the values of each name in order |
| AwsHeaders.LinesInjective | src/aws_sigv4.rs:138-141 | The header lines determine the names and values |
| AwsHeaders.CanonicalHeadersExact | src/aws_sigv4.rs:119-143 | Two header lists have the same canonical form if and only if every name has the same values in the same order, up to white space |
| AwsMeaning.CanonicalHeadersSpelled | src/aws_sigv4.rs:119-143 | Lines and signed names come from one list in ascending order of names; the signed names, split at ';', are the names of the lines in their order |
| JobTokens.Base64Exact | src/jobs.rs:64-64 | Decoding (section 5 of RFC 4648, strict) accepts exactly the encoding of each byte string |
| JobTokens.SplitThree | src/jobs.rs:87-92 | The three parts of a token are what surrounds its two dots, and no other text has them |
| JobHandles.PayloadInjective | src/jobs.rs:58-63 | No two handles have the same JSON text |
| JobHandles.OpenOfSeal | src/jobs.rs:57-121 | A sealed handle opens as itself exactly when length, provider, owner, expiry and component checks hold, and otherwise with which refusal |
| JobHandles.OpenedIsAuthentic | src/jobs.rs:78-121 | Whatever opens carries the right signature of its middle part and passes the later checks |
| JobHandles.FitsExact | src/jobs.rs:84-86 | A token is within 2048 bytes if and only if its payload is within 1485 |
| JobHandles.SubmittedHandle | src/jobs.rs:437-466 | A submitted handle never fails the component checks, and fits whenever the escaped provider name has at most 937 bytes |
| JobHandles.CallsStayWithOwner | src/jobs.rs:571-592 | In every run with unforgeable signatures, a lifecycle call that goes upstream acts on the provider, owner, model and job id of an earlier submission, unexpired, by the method and at the address, written out for both kinds, of that action on that job; with one configuration throughout, at that provider |
| JobHandles.FollowedCall | src/jobs.rs:496-523 | What goes upstream has the address and method of its action at the provider, written out for fal and for Replicate |
| JobHandles.SealedHandleExact | src/jobs.rs:525-592 | Exactly when a sealed handle, brought back, lets a call go upstream |
| JobHandles.FalTargetExact | src/jobs.rs:497-523 | Which pairs of fal requests have the same method and address |
| JobHandles.FalJobsCollide | src/jobs.rs:497-523 | Two jobs that handles may name and that share an address |
| JobMeaning.ReplicateRequestExact | src/jobs.rs:507-522 | Two Replicate requests have the same method and address if and only if they are for the same job and the same action, up to status and result |
| JobMeaning.FalRequestExact | src/jobs.rs:498-506 | Two fal requests have if and only if they are for the same action, model and job, or are the one colliding pair |
| JobMeaning.PlainPathExact | src/jobs.rs:45-55 | What a model may be: at most 256 bytes, words of up to 128 ASCII letters, digits, dashes and underscores with slashes between them |
| JobMeaning.SubmissionSpelled | src/jobs.rs:425-466 | Exactly when a submission gives out a handle, and each field of it |
| JobMeaning.SealedHandleSpelled | src/jobs.rs:525-592 | Exactly when a sealed handle, brought back, lets a call go upstream, every check written out |
| JobMeaning.HonestRunIsUnforged | src/jobs.rs:57-121 | The assumption on signatures holds of a run that brings back the very token a submission gave out |
| JobMeaning.TokenSpelled | src/jobs.rs:57-76 | A token reads "v1.", payload, dot, signature |
| JobMeaning.PayloadSpelled | src/jobs.rs:26-35 | The JSON text of a handle whose fields need no escaping |
| ClaimWindow.Claims.Redeem | src/device_ingress.rs:69-91 | The deque after each call, and that the claim is admitted if and only if fewer than 60 were admitted in the preceding 60 seconds |
| ClaimWindow.AdmissionExact | src/device_ingress.rs:73-87 | The deque's decision is that of the whole history, for every run of a clock that does not go back |
| ClaimWindow.WindowBound | src/device_ingress.rs:73-87 | No half-open window of 60 seconds holds more than 60 admitted claims |
| ClaimWindow.DequeBound | src/device_ingress.rs:73-87 | The deque never holds more than 60 instants, whatever the clock does |
| ClaimWindow.SixtiethBack | src/device_ingress.rs:73-87 | A claim is admitted if and only if the sixtieth admitted claim before it, if there is one, is at least 60,000,000,000 nanoseconds old |
| ClaimWindow.SixtyApart | src/device_ingress.rs:73-87 | So that much lies between any admitted claim and the sixtieth after it |

## Left out

- BodySanitizer.AuditExact: does not cover `tool_choice` records, because the source writes `/tool_choice` for them also when the repaired member is inside `session`.
- RedactionValues.QueriesRedacted: assumes ASCII, because beyond it the query pass can miss a parameter (`RedactionValues.NonAsciiValueLeftOpen`).
- RedactionMarks.SensitiveRedacted: assumes ASCII, for the same reason and because the bearer pass indexes one text by another's offsets.
- RedactionProofs.BearerCuts: like every statement about the bearer pass, takes the lower-cased copy of the text character by character, which is what the source does on ASCII only.
- RedactionCode.RedactBearerToken: the same; beyond ASCII the source may also slice inside a character, at `src/config.rs:376` or by an offset of the lower-cased copy, and panic.
- RedactionCode.BearerTurn: the same.
- RedactionCode.RedactSensitiveText: the same, through its bearer pass.
- RedactionBearer.BearerIdempotent: the same.
- RedactionBearer.BearerTokensExact: the same.
- RedactionTokens.SensitiveTokensExact: the same.
- RedactionWords.BearerPromiseExact: the same.
- AnnounceOrder.OverlapExact: compares two announces; for any number of them `AnnounceChain.ChainEndsAsOne` settles chains and `ConcurrentAnnounces.AvailabilityExact` says what is left, not which order would leave it.
- AnnounceOrder.OverlapEntriesExact: leaves out the instants at which entries are set, because the source reads the clock when it holds the lock.
- SanitizerCode.SanitizeItem: a record keeps the whole URI in place of its host; URL parsing is not part of this model.
- SanitizerCode.Sanitize: the same, through its records.
- AvailabilityStore.Availability.ApplyProbe: does not say whether the store is written to disk afterwards.
- AwsCanonical.EncodeExact: says nothing of the reserved characters that AWS prescribes; the source uses form encoding.
- JobHandles.CallsStayWithOwner: assumes that signatures cannot be forged, since the MAC itself is a parameter; the second provider lookup of a call is an answer of its own, as runtime providers may change between the two.
- JobHandles.OpenedIsAuthentic: JSON texts other than those the serializer writes are read by a parameter of the model.
- JobHandles.SubmittedHandle: assumes a 32-byte MAC, a 64-character key hash and a time within 64 bits, which the types of the source give.
- ProxyV2.Handle: takes the size of the first read, the access list, the HTTP host parser and whether the destination accepts as parameters; other input and output errors are not modelled.
- TlsSni.ExtractSni: like the source, does not compare the record and handshake lengths with what follows.
- Body checks of a job submission (webhooks, remote URLs, versions) and upstream replies are one boolean of the event: they only decide whether a handle is sealed.
- Persistence and loading of the availability store, and the order of the snapshot list.
- Header insertion, dates and the signature chain of a signed AWS request; cryptographic functions.
- The catalog projection and registry checks of `src/device.rs`: accumulating loops over validated fields that would only add easy members.
- HTTP handlers, sockets, command line, terminal interface, database, keychain, OAuth and tracing.
- Pricing and benchmark arithmetic on floating-point numbers.
- Poisoning of the mutex around the claim deque, which denies the claim.
