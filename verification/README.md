# Verified model of OpenHuman's host-side algorithms

A Dafny 4.11 model of seven pieces of the OpenHuman repository, with proofs of
the properties each is relied on for. `dafny verify dfyconfig.toml` checks the
whole project.

| file | models |
|---|---|
| `DepGraph.dfy`, `DepCuts.dfy`, `DepEdits.dfy` | the dependency-floor simulator: a graph rebuilt from a de-duplicated depth listing, a worklist walk with cuts, and what the walk says about an edited manifest |
| `FleetTenants.dfy`, `FleetProtocol.dfy` | the process-per-user supervisor and proxy: tenant tables, boot loop, token file, and the protocol of requests that snapshot the tables and are sent later |
| `Utf8.dfy`, `Base64.dfy`, `Handoff.dfy` | key decoding in four base64 variants and the encrypted handoff payload |
| `ChannelPath.dfy` | the channel-message routes: percent-encoding, the URL path, the sliding-window reader, and what a 404 is taken to mean |
| `Registry.dfy`, `ParamTypes.dfy` | the controller registry: validation, the two gated lookups, the filtered lists, and parameter type checking |
| `BusGuard.dfy` | scoped stubs on the global handler registry, over all interleavings |
| `JsLiterals.dfy`, `StoredText.dfy`, `Locale.dfy`, `LocaleRuns.dfy`, `Coverage.dfy` | the locale writer, what its file keeps of the text written, and the coverage gate it has to satisfy |
| `Hosts.dfy` | endpoint classification and base-URL resolution |
| `Prelude.dfy` | options, results, splitting, joining and trimming |

Code that changes state is modelled as methods on classes or with loops, each
proved equal to a function of its inputs or old state; the main results are
lemmas about those functions and about the step relations built from them.

## Main results

- Rebuilding a graph from a listing that expands each package once loses nothing
  (`DepGraph.ListingRebuildsGraph`). Walking it with a cut never drops more than
  deleting those dependency lines and listing again
  (`DepEdits.SimulationMatchesEdit`). It drops the same for every cut exactly
  when every path of crates through the listed graph is followed by a route of
  packages (`DepEdits.CutsAreExactIff`); for gates that is when the crates below
  each direct dependency need nothing else in any build
  (`DepEdits.GatesAreExactIff`).
- In every run of the fleet, every request ever sent went to its own tenant's
  port and bearer (`FleetProtocol.SentRequestsAreProper`); a removed tenant is
  never admitted again (`FleetProtocol.RemovedIsNeverAdmitted`).
- Key decoding is characterised exactly, whatever the order of attempts
  (`Handoff.KeyBytesIff`); a payload opens, or is refused with one of five
  errors, exactly as its parts say (`Handoff.OpenedIff`, `Handoff.OpenedErrors`),
  and what is sealed opens (`Handoff.HandoffRoundTrip`).
- A built message path reads back as its two ids exactly when neither is a dot
  segment (`ChannelPath.BuiltPathReadsBack`), and where the request goes instead
  is known for every pair of ids (`ChannelPath.RequestGoesTo`).
- Lookup and dispatch cannot be told apart under any context exactly when all
  controllers of a name share the first one's gates (`Registry.AlwaysAgreeIff`),
  so in particular when names are distinct
  (`Registry.LookupAgreesWithDispatch`); type checking is an exact
  conformance relation with an exact widening order (`ParamTypes.CheckTypeIff`,
  `ParamTypes.WidensIff`).
- In every interleaving a free lock leaves only stubs whose own closure failed
  to restore them (`BusGuard.GuardsAreSafe`); the registry is clean in every run
  exactly when every closure does its job (`BusGuard.CleanWhenFreeIff`), and only
  because restoring comes before unlocking (`BusGuard.UnlockFirstIsUnsafe`).
- A locale file read back from disk holds its pairs as stored
  (`Locale.LocaleRoundTrip`), loads as the merged messages
  (`LocaleRuns.LoadsAsMergedIff`), passes the coverage gate
  (`Coverage.MergePassesGateIff`), and leaves a second run idle
  (`LocaleRuns.SecondRunIsIdleIff`), each exactly when the keys and values concerned
  hold no surrogate without its partner.

## Where the code decides, not its comments

- The comment on key decoding lists the raw 32-byte key last and calls it
  ASCII (`src/api/rest.rs:1180-1190`). The code tries it first and accepts any
  text whose UTF-8 form has 32 bytes, so that is what `Handoff` models. The
  order turns out not to matter (`Handoff.RawKeysAreNotEncoded`,
  `Handoff.AttemptOrderIsIrrelevant`), but a raw key holding any of
  `+ / - _ =` is refused (`Handoff.RawKeyIff`, `Handoff.RawKeyRefused`).
- The comment on the local-host test says that IPv4-mapped IPv6 addresses
  classify correctly (`src/api/config.rs:698-701`). The code asks only whether an
  IPv6 address is the loopback or the unspecified one, so `::ffff:127.0.0.1` is
  not local; a mapped address agrees with its IPv4 form exactly when that form is
  not local either (`Hosts.MappedAddressIff`).
- The doc comment on the graph builder speaks of the most recent line one level
  up. The code keeps stale stack entries on an ill-nested listing; the statement
  still holds for every listing (`DepGraph.BuildEdges`).
- A channel or message id that is a dot segment is swallowed by URL
  resolution, so its 404 is not recognised; `ChannelPath.BuiltPathReadsBack`
  and `ChannelPath.DeleteNotFoundIff` give the exact condition.
- The ids carried by a not-found error are the percent-encoded segments, not
  the caller's texts; they are equal when the texts use unreserved characters
  only (`ChannelPath.PlainEncodesToItself`).
- A delete or edit of message `..` is sent to `/channels/<channel>/`, and one on
  channel `..` leaves the collection altogether (`ChannelPath.RequestGoesTo`).
- Registry validation covers the public registry only. Lookup and dispatch
  agree under every context exactly when the controllers of a name share their
  gates; a name used in both registries with different gates can split them
  (`Registry.AlwaysAgreeIff`, `Registry.SharedNameSplitsLookup`).
- The simulator names a node by crate and version, while the listing can expand
  several builds of one crate. Merging them can keep a crate that the edit
  drops, never the reverse; whether it ever does is decided by the resolved table
  alone (`DepEdits.CutsAreExactIff`, `DepEdits.GatesAreExactIff`), and
  `DepEdits.MergedBuildsKeepMore` is a table without cycles where it does.
- The locale writer promises that a run settles the file. It writes UTF-8
  without escaping surrogates, so a lone one becomes U+FFFD: such a translation
  is rewritten and counted by every later run (`LocaleRuns.LoneSurrogateNeverSettles`),
  such an English key is missing from the file it was just written to
  (`Coverage.MergePassesGateIff`), and such an English value falls back
  unreported (`Coverage.FallbackIsReportedIff`).
- Stripping slashes after trimming blanks is not idempotent;
  `Hosts.NormalizeTwiceIff` says for which texts a second pass changes the result, and
  `Hosts.NormalizeTwiceExample` gives one.

## What stands for the outside world

- Identifiers drawn at random are a sequence of strings, assumed distinct where
  a statement needs it. Which cores become ready, when a core exits and when an
  admitted request is sent are free choices.
- AES-GCM is a pair of functions with opening undoing sealing
  (`Handoff.Cipher`). The JSON parser's verdict, the URL parser, path stripping
  and the built-in cloud host list are parameters.
- The base64 and percent-encoding crates are modelled from RFC 4648 (sections
  3.5, 4 and 5) and RFC 3986 (sections 2.1 and 2.3), string literals from
  section 12.9.4 of ECMA-262.
- Lists that come from a standard or a table in the code are spelled out once
  more as literals: white space (`Handoff.WhitespaceIff`, `Coverage.JsSpaceIff`),
  letter case (`Prelude.LowerCharIff`), UTF-8 and base64
  (`Utf8.EncodingExamples`, `Base64.LastGroupIsNumber`), dot segments
  (`ChannelPath.DotSegments`), JSON kinds (`ParamTypes.JsonTypeNameIff`) and
  provider domains (`Hosts.ProviderDomains`).
- A stub's restore closure is the set of methods it re-registers, and whether it
  may panic; a panic leaves any part of that set re-registered. A guard dropped
  by unwinding runs the same steps as one dropped at the end of its scope.
- The resolver's table is given and stays as it is when dependency lines are
  deleted. A resolver run after a real edit may unify features differently and
  drop more crates than that.
- Writing and loading a locale file is UTF-8 encoding and decoding; evaluating
  it is reading its object literal.

## Model

| member | source | states |
|---|---|---|
| DepGraph.BuildGraph | scripts/dep-sim.py:84-113 | the line loop, with its stack and children dictionaries, computes the specified graph and fails only without a root line; no dictionary access can fail |
| DepGraph.BuildEdges | scripts/dep-sim.py:84-113 | on any listing, an edge is recorded exactly when a line for the child has a line for the parent as its most recent line one level up |
| DepGraph.BuildKeysAndRoot | scripts/dep-sim.py:84-113 | the keys are exactly the listed crates and the root is the first line at depth 0 |
| DepGraph.TreeBelow | scripts/dep-sim.py:87-91 | printing a subtree adds the edge from the line above and all edges of the newly expanded packages, and disturbs nothing above its depth |
| DepGraph.TreeCloses | scripts/dep-sim.py:87-91 | every expanded package has its dependencies expanded by the end, and is reachable |
| DepGraph.ListingRebuildsGraph | scripts/dep-sim.py:87-91 | for every finite table, cycles and several builds of a crate included, the de-duplicated listing rebuilds the root and exactly the reachable packages with all their dependencies, as crates: nothing is lost at back-references |
| DepCuts.Reachable | scripts/dep-sim.py:116-152 | the worklist terminates and returns exactly the crates joined to the root by permitted edges, and the empty set for a cut root |
| DepCuts.RootDecides | scripts/dep-sim.py:136-139 | a cut root leaves nothing, and any other cut leaves the root |
| DepEdits.SimulationMatchesEdit | scripts/dep-sim.py:14-16 | in gate and global mode, the simulated cut keeps at least what deleting those lines from the resolved table, listing again and rebuilding keeps; for one cut it keeps the same just when no build of a kept crate needs a dropped one |
| DepEdits.CutsAreExactIff | scripts/dep-sim.py:14-16 | in either mode, simulation and edit keep the same for every cut exactly when each path of crates in the listed graph is followed by a route of packages that passes no further name where a cut could stop it |
| DepEdits.GatesAreExactIff | scripts/dep-sim.py:121-124 | for gates that is the case exactly when, for every name, the crates below the root's dependencies of that name need no other crate in any of their builds |
| DepEdits.UniformIsExact | scripts/dep-sim.py:14-16 | with any cut the simulation is exact when all builds of a crate depend on the same crates |
| DepEdits.MergedBuildsKeepMore | scripts/dep-sim.py:100-111 | on a table without cycles, two builds of a crate under one node keep a crate the edit drops |
| DepEdits.CutNothingCountsAll | scripts/dep-sim.py:29-31 | cutting nothing counts every listed crate |
| DepCuts.ModesNest | scripts/dep-sim.py:119-134 | global survivors are within gate survivors, within the baseline |
| DepCuts.CutsAntitone | scripts/dep-sim.py:136-152 | a larger cut never keeps more, in either mode |
| DepCuts.CohortLosesParts | scripts/dep-sim.py:6-16 | what two cuts lose separately is lost by cutting both |
| DepCuts.GateKeepsExactly | scripts/dep-sim.py:121-124 | a gate keeps a crate exactly when an uncut root dependency leads to it without returning to the root |
| DepCuts.DisjointGatesAdd | scripts/dep-sim.py:6-16 | losses of disjoint gates are disjoint, so summing them never exceeds the cohort's loss |
| DepCuts.CohortCanLoseMore | scripts/dep-sim.py:8-10 | a gate cohort can lose a crate neither part loses |
| DepCuts.GlobalSumsOverCount | scripts/dep-sim.py:8-10 | summing global cuts can count a shared subtree twice |
| FleetTenants.Supervisor.Provision | src/bin/fleet.rs:466-501 | succeeds exactly for valid, distinct users whose last port fits 16 bits, building the specified tables; otherwise reports the first offender's first fault |
| FleetTenants.ValidUserIdIff | src/bin/fleet.rs:164-172 | an id is one to 128 ASCII letters, digits, dashes and underscores, and nothing else is |
| FleetTenants.ErrorAtIff | src/bin/fleet.rs:476-483 | a tenant is refused for its id, else for a repeated id, else for a port past 65535 |
| FleetTenants.ProvisionedRows | src/bin/fleet.rs:475-498 | each user gets its row in every table and there are no other rows |
| FleetTenants.ProvisionedAligned | src/bin/fleet.rs:466-501 | after provisioning the three tables hold the same tenants, once each, tokens one to one |
| FleetTenants.TenantsDoNotShare | src/bin/fleet.rs:144-162 | two tenants never share a port, bearer, workspace or action directory |
| FleetTenants.RenderedDirs | src/bin/fleet.rs:151-162 | written as text and split again, each tenant's directory is the root's pieces and then its own segment or segments |
| FleetTenants.ActionDirsOutsideWorkspaces | src/bin/fleet.rs:151-172 | read as text, no action directory lies in or above any workspace, and no directory of one tenant in that of another |
| FleetTenants.SecretsUseOwnIds | src/bin/fleet.rs:484-485 | no identifier goes into two secrets, so no edge token gives away a core bearer |
| FleetTenants.AdmitIff | src/bin/fleet.rs:218-245 | unauthorized, forbidden, not found and forward, each exactly when the tables say so |
| FleetTenants.KeptAligned | src/bin/fleet.rs:503-512 | dropping any set of tenants keeps the tables aligned on exactly the rest |
| FleetTenants.RemovedKept | src/bin/fleet.rs:503-512 | removing one tenant from what is kept is keeping one fewer |
| FleetTenants.Supervisor.RemoveTenant | src/bin/fleet.rs:503-512 | the tenant leaves all three tables and nothing else changes |
| FleetTenants.Supervisor.Boot | src/bin/fleet.rs:657-695 | in any order, with any set of failures, instances, tokens, minted list and children end as the same tenants, once each |
| FleetTenants.Supervisor.CheckRequest | src/bin/fleet.rs:218-245 | the checks in order decide unauthorized, forbidden, not found or the tenant's own target; it forwards exactly for a token of the path's user with an instance |
| FleetTenants.Supervisor.ChildExited | src/bin/fleet.rs:713-723 | an exited child loses its instance and keeps its token, so its token gets not-found and nobody else's answer changes |
| FleetTenants.WriteEdgeTokens | src/bin/fleet.rs:518-524 | the buffer loop writes one line per minted token |
| FleetTenants.TokenFileRoundTrip | src/bin/fleet.rs:518-524 | the file text determines the minted list when tokens hold no newline |
| FleetProtocol.BearerIff | src/bin/fleet.rs:192-206 | a header yields a token exactly when it is the word bearer in any case, blanks, and the token |
| FleetProtocol.BlankIff | src/bin/fleet.rs:196-200 | of the characters a header can be read with, the blanks are the white space |
| FleetProtocol.AdmittedIsProper | src/bin/fleet.rs:218-245 | an admitted request targets the one user its token stands for and nobody else's port or bearer |
| FleetProtocol.RunsKeepInv | src/bin/fleet.rs:644-724 | every reachable state of boot, serve and exit keeps the table and target invariant |
| FleetProtocol.SentRequestsAreProper | src/bin/fleet.rs:247-258 | every request ever sent, however late after its snapshot, went to its own tenant's provisioned port and bearer |
| FleetProtocol.ServingStartsAligned | src/bin/fleet.rs:655-708 | when serving starts the four lists of tenants agree, once each |
| FleetProtocol.ServingOnlyShrinks | src/bin/fleet.rs:710-724 | while serving, instances only disappear and tokens never change |
| FleetProtocol.RemovedStaysOut | src/bin/fleet.rs:655-724 | a tenant gone from the instances never returns |
| FleetProtocol.RemovedIsNeverAdmitted | src/bin/fleet.rs:221-239 | later requests for a gone tenant are never admitted: not found with its token after serving, unauthorized if it failed to boot |
| FleetProtocol.LiveTenantIsServed | src/bin/fleet.rs:192-245 | a live tenant's minted token, sent as a bearer header, reaches its own core |
| Utf8.DecodeEncode | src/api/rest.rs:1175 | UTF-8 decoding undoes encoding |
| Utf8.EncodeDecode | src/api/rest.rs:1175 | strict UTF-8 decoding accepts only what encoding produces |
| Base64.DecodeIff | src/api/rest.rs:1205-1222 | each of the four decoders accepts exactly what its encoder writes |
| Base64.DecodersAgree | src/api/rest.rs:1178-1190 | a text read by several decoders gives the same bytes from each |
| Base64.SymbolTable | src/api/rest.rs:1205 | the two alphabets are the ones of RFC 4648 |
| Base64.GroupIsNumber | src/api/rest.rs:1205 | three bytes and their four symbols stand for the same 24-bit number, the first weighing most |
| Handoff.FirstKeyIff | src/api/rest.rs:1210-1222 | a chain of attempts finds a key exactly when one of its decoders writes it so |
| Handoff.AttemptOrderIsIrrelevant | src/api/rest.rs:1219-1222 | any order of the same attempts gives the same outcome |
| Handoff.RawKeysAreNotEncoded | src/api/rest.rs:1200-1203 | no text of 32 bytes is read as a key by any decoder |
| Handoff.KeyBytesIff | src/api/rest.rs:1197-1228 | a text is accepted as a key exactly when it is that raw key without the excluded characters or one of the encodings tried, in whatever order |
| Handoff.RawKeyIff | src/api/rest.rs:1200-1203 | a trimmed text of 32 bytes is its own key without the excluded characters and refused with one |
| Handoff.RawKeyRefused | src/api/rest.rs:1200-1203 | thirty-two underscores are refused |
| Handoff.KeyRefusedIff | src/api/rest.rs:1224-1227 | a text is refused exactly when it is neither a raw key nor an encoding of one, and reported with its trimmed length in bytes |
| Handoff.EncodedKeyRoundTrip | src/api/rest.rs:1197-1228 | every encoding of every 32-byte key decodes back to it, blanks around it aside |
| Handoff.DecryptHandoffBlob | src/api/rest.rs:1145-1176 | the steps and the rearranged buffer compute the specified result and error |
| Handoff.OpenedIff | src/api/rest.rs:1145-1176 | a blob opens to a text exactly when the key text is accepted and the blob is the base64 of nonce, tag and body that the cipher opens to that text's UTF-8 |
| Handoff.OpenedErrors | src/api/rest.rs:1146-1175 | each of the five refusals, exactly when its step is the first to fail |
| Handoff.HandoffRoundTrip | src/api/rest.rs:1144-1176 | what is sealed as nonce, tag, text opens to the text under any accepted spelling of the key |
| ChannelPath.PercentRoundTrip | src/api/rest.rs:1007-1008 | an encoded segment percent-decodes and UTF-8-decodes to its text |
| ChannelPath.PlainEncodesToItself | src/api/rest.rs:1007-1008 | unreserved text is its own encoding |
| ChannelPath.EncodeByteIs | src/api/rest.rs:1007-1008 | letters, digits and four marks stand for themselves, any other byte becomes a percent sign and two capital digits |
| ChannelPath.ChannelNameOf | src/api/rest.rs:1004 | blanks come off a channel's name, and then slashes |
| ChannelPath.ParseMessagePath | src/api/rest.rs:148-161 | the fast path and the window loop return the first window's pair |
| ChannelPath.FirstWindowIff | src/api/rest.rs:148-161 | a pair is found exactly at the first window there is |
| ChannelPath.PrefixedRouteIsFound | src/api/rest.rs:144-147 | behind a prefix without a window of its own the route is found whole |
| ChannelPath.BuiltPathReadsBack | src/api/rest.rs:1004-1014 | the built path reads back as its two encoded segments exactly when neither text is a dot segment |
| ChannelPath.RequestGoesTo | src/api/rest.rs:1004-1014 | the path asked for, for any two texts: a dot segment drops its part, and a double one the part before it too |
| ChannelPath.WebhookGate | src/api/rest.rs:580-585 | the local gate fires exactly when channel or id is the word webhooks in any case |
| ChannelPath.NamesWebhooksIff | src/api/rest.rs:580-585 | on any path, the gate fires exactly for the word, in any case, standing between slashes, question marks or the ends |
| ChannelPath.CallOutcome | src/api/rest.rs:660-684 | the local checks in order, then a rejected session on any verb with the path asked for, then any other status |
| ChannelPath.NotFoundIff | src/api/rest.rs:686-770 | what a 404 is taken to mean, each outcome exactly by the path's pieces, the verb and whether the body holds JSON |
| ChannelPath.NotFoundNamesTheMessage | src/api/rest.rs:693-751 | a 404 on delete is not-found with the encoded ids; on edit it is that when the trimmed body is JSON, and unsupported for any other body, a blank one included |
| ChannelPath.DeleteNotFoundIff | src/api/rest.rs:1021-1039 | a delete reports not-found exactly for a 404 on names that are no dot segment and no webhook |
| ChannelPath.EditUnsupportedIff | src/api/rest.rs:693-735 | an edit reports its message's route unsupported exactly for a 404 on such names whose body holds no JSON |
| ChannelPath.AnnouncementIff | src/api/rest.rs:163-171 | the announcement route is recognised by its last two pieces, behind any prefix, trailing slash or not, and no other route is |
| Registry.AllowedIff | src/core/all.rs:1418-1429 | a controller is allowed exactly when its domain is enabled or no context is active, and its capability is advertised or it has none |
| Registry.PublicComesFirst | src/core/all.rs:1417-1439 | the public registry is searched before the internal one |
| Registry.LookupsAgreeIff | src/core/all.rs:1417-1439 | lookup and dispatch agree exactly when the first controller of the name is allowed or none is |
| Registry.AlwaysAgreeIff | src/core/all.rs:1582-1614 | lookup and dispatch agree under every context exactly when all controllers of the name share the first one's gates |
| Registry.LookupAgreesWithDispatch | src/core/all.rs:1582-1614 | with distinct names both find the same controller or neither does, under every context |
| Registry.GatedLooksUnregistered | src/core/all.rs:1418-1429 | a gated method is absent from lookup and dispatch alike |
| Registry.SharedNameSplitsLookup | src/core/all.rs:350-358 | an internal controller under a public name can split lookup from dispatch |
| Registry.VisibleMonotone | src/core/all.rs:1127-1150 | the visible list is an order-preserving subsequence that grows with domains and capabilities |
| Registry.ListsAreVisible | src/core/all.rs:1127-1150 | both public lists follow the visible registry entry by entry, which holds exactly the registered and allowed |
| Registry.AdvertisedIsCallable | src/core/all.rs:1127-1150 | every advertised schema is found by its own name and routed to a listed controller |
| Registry.SoleCapabilityForNamespace | src/core/all.rs:1389-1411 | a family is returned exactly when the namespace is non-empty and all its controllers carry it |
| Registry.SoleFamilyVanishes | src/core/all.rs:1379-1388 | such a namespace is wholly invisible when its family is not advertised |
| Registry.ValidateRegistry | src/core/all.rs:1649-1700 | the errors are exactly the faults present, and there are none exactly when no parts collide across a dot or an underscore, none is blank and no required name repeats |
| Registry.RepeatedRequired | src/core/all.rs:1680-1686 | the names collected are exactly the required inputs declared twice |
| Registry.RpcNamesCollideIff | src/core/all.rs:1153-1155 | rendered method names are equal exactly for equal parts or a cut shifted across an underscore |
| Registry.KeysCollideIff | src/core/all.rs:1659-1662 | keys are equal exactly for equal parts or a cut shifted across a dot |
| Registry.UndottedKeysAreParts | src/core/all.rs:1659-1662 | with no dot in the namespaces, only for equal parts |
| ParamTypes.CheckTypeIff | src/core/all.rs:1509-1573 | a value is accepted exactly when everything in it, down to the type's array depth, is null, an array, or fit for the leaf type |
| ParamTypes.IntegersSplit | src/core/all.rs:1541-1546 | every integer the parser keeps is signed or unsigned, both just from 0 below 2^63, and no other number is either |
| ParamTypes.ErrorNamesOffender | src/core/all.rs:1503-1508 | a refusal names what was expected of a value that really does not fit where it sits |
| ParamTypes.WidensIff | src/core/all.rs:1512-1572 | the widening relation is exactly inclusion of accepted values |
| ParamTypes.ValidateParams | src/core/all.rs:1446-1488 | succeeds exactly when every required name has an entry, every entry's key is declared and every value given conforms; reports missing before unknown before mistyped, first offender first |
| ParamTypes.WiderInputsStillFit | src/core/all.rs:1468-1485 | widening declared types never refuses accepted parameters |
| BusGuard.MockBusStub | src/core/bus_testing.rs:133-151 | with the lock granted, the stub is registered and the guard holds the closure |
| BusGuard.MockBusGuard.TakeAndRunRestore | src/core/bus_testing.rs:97-108 | the closure runs once, and only while the lock is held |
| BusGuard.MockBusGuard.Drop | src/core/bus_testing.rs:88-108 | dropping runs the closure and then, in that order, releases the lock |
| BusGuard.StubScope | src/core/bus_testing.rs:77-87 | a scope whose closure restores its own method leaves every handler a production one |
| BusGuard.GuardsAreSafe | src/core/bus_testing.rs:75-151 | in every interleaving, panics before installing and inside closures included, at most one stub is live and resolves to itself, closures run exactly once, and a free lock leaves production handlers and stubs whose own closure was not honest |
| BusGuard.CleanWhenFreeIff | src/core/bus_testing.rs:79-87 | a free lock means a clean registry in every run exactly when every closure restores its own method and cannot panic |
| BusGuard.UnlockFirstIsUnsafe | src/core/bus_testing.rs:89-91 | releasing the lock before restoring lets a late restore remove the next live stub |
| JsLiterals.LiteralRoundTrip | scripts/apply-i18n-translations.ts:51-72 | a printed literal evaluates to its string and ends at its own quote, whatever follows |
| JsLiterals.LiteralIsOneLine | scripts/apply-i18n-translations.ts:51-72 | a printed literal holds no control character and no line terminator |
| StoredText.WriteReadsStored | scripts/apply-i18n-translations.ts:106-107 | a string written as UTF-8 comes back with each surrogate that has no partner replaced |
| StoredText.StoredSameIff | scripts/apply-i18n-translations.ts:106-107 | it comes back unchanged exactly when every surrogate has its partner |
| StoredText.SameFileIff | scripts/apply-i18n-translations.ts:106-107 | two strings give the same bytes exactly when they come back the same |
| StoredText.StoredLiteral | scripts/apply-i18n-translations.ts:51-72 | the literal of a string is stored as the literal of the stored string |
| Locale.WriteLocale | scripts/apply-i18n-translations.ts:83-108 | the line loop writes the bytes of the specified file |
| Locale.LocaleRoundTrip | scripts/apply-i18n-translations.ts:88-107 | a written file reads back as its ordered pairs as stored, and as the very pairs exactly when all are well formed |
| Locale.ApplyLocale | scripts/apply-i18n-translations.ts:110-140 | refuses English; otherwise counts the updates and writes the merged file |
| Locale.CountIsSize | scripts/apply-i18n-translations.ts:117-131 | the update count is the number of English keys given a value they did not have |
| LocaleRuns.LoadsAsMergedIff | scripts/apply-i18n-translations.ts:125-138 | the written file loads as exactly the merged messages just when all keys and values are well formed |
| LocaleRuns.WrittenHolds | scripts/apply-i18n-translations.ts:101-107 | for any keys, the written file loads as the value of the last key stored under each name, and nothing else |
| LocaleRuns.LastStoredAsIff | scripts/apply-i18n-translations.ts:101-105 | that key is the last one in the list that is stored so |
| LocaleRuns.SecondRunCounts | scripts/apply-i18n-translations.ts:11-16 | every later run on the same input counts exactly the translations that the file does not hold under their keys; when English keys stay distinct in the file, exactly those it cannot hold |
| LocaleRuns.SecondRunWritesSameIff | scripts/apply-i18n-translations.ts:11-16 | a second run writes the same bytes exactly when what it carries over for untranslated keys is stored as before |
| LocaleRuns.SecondRunIsIdleIff | scripts/apply-i18n-translations.ts:11-16 | with well-formed English keys, a second run writes the same file, and reports no updates exactly when every translation used is well formed |
| LocaleRuns.LoneSurrogateNeverSettles | scripts/apply-i18n-translations.ts:126-128 | a translation that is a lone surrogate is counted by every run |
| Coverage.DiffKeys | scripts/i18n-coverage.ts:165-178 | missing and extra are the two key differences, in order, once each |
| Coverage.FindUntranslated | scripts/i18n-coverage.ts:180-192 | the report lists exactly the shared keys whose value is the non-blank English one, in order |
| Coverage.BlankIff | scripts/i18n-coverage.ts:188 | a value is blank exactly when every unit of it is white space |
| Coverage.LessIff | scripts/i18n-coverage.ts:175-176 | the reports' order is by the first differing unit, shorter first |
| Coverage.OrderedListUnique | scripts/i18n-coverage.ts:175-176 | an ordered list of given keys is unique, so the reports are determined |
| Coverage.MergePassesGateIff | scripts/i18n-coverage.ts:309-311 | whatever is merged, the written file has no missing and no extra key exactly when every English key is well formed; one that is not is reported missing |
| Coverage.FallbackIsReportedIff | scripts/apply-i18n-translations.ts:134-136 | in the written file, a key that fell back to English is reported exactly when its English is not blank and the file holds it under the key; when English keys stay distinct, exactly when key and English are well formed |
| Hosts.HostMatchesIffLabels | src/api/config.rs:372-374 | the textual suffix test is the label suffix test, for every host and domain |
| Hosts.LongerLabelNeverMatches | src/api/config.rs:302-310 | a label that merely ends in the domain's first label never matches |
| Hosts.MappedAddressIff | src/api/config.rs:698-716 | a mapped IPv6 address classifies like its IPv4 form exactly when that form is not local; the loopback does not |
| Hosts.LocalAiIff | src/api/config.rs:264-300 | the local-runner test in terms of path segments, port, and address or last host label |
| Hosts.MatchesAnyIff | src/api/config.rs:369-378 | the provider test is membership at or below a listed domain, label by label |
| Hosts.ProviderIff | src/api/config.rs:345-386 | a provider endpoint is a host at or below a listed domain or a bare version path, and not the own host |
| Hosts.OverrideByLabels | src/api/config.rs:182-228 | calls go to the override exactly when it is not blank and is the own backend or no inference endpoint, in terms of labels and segments; otherwise to the environment's base or the default |
| Hosts.NormalizeTwiceIff | src/api/config.rs:449-451 | a second normalization changes the result exactly when the trimmed text ends in slashes after a blank |
| Hosts.NormalizeTwiceExample | src/api/config.rs:449-451 | `x /` becomes `x ` and then `x` |
| Hosts.NormalizeOf | src/api/config.rs:449-451 | a base between blanks and with slashes after it normalizes to itself |
| Hosts.ApiBaseFromEnv | src/api/config.rs:551-573 | both loops together return the first usable value |
| Hosts.FirstUsableIff | src/api/config.rs:542-550 | an unset or blank variable never hides a later one |

## Left out

- HTTP transport, process spawning, readiness probing, timers and logging: they are free choices or absent.
- The text of error messages, and the joined and sorted form in which registry validation reports its faults; the faults themselves are modelled.
- `cargo tree` line matching and command-line handling of the simulator: the model starts from depth and crate pairs.
- Package and name counts printed by the simulator: sizes of the sets whose contents are proved.
- CORS handling and file permissions of the fleet binary: shallow branching and I/O.
- Ports beyond the tables: whether another program listens on an assigned port is not modelled.
- Case-insensitive file systems, on which two user ids may name one directory.
- URL parsing beyond path dot segments, and path stripping of the backend base: parameters of the model.
- Handler execution, context scoping and async dispatch in the registry: a dispatched controller is the result.
- DepEdits.GatesAreExactIff: takes no other listed package to have the root's name and version, so that the walk's `cur == root` means the root; `DepEdits.CutsAreExactIff` does not.
- DepEdits.SimulationMatchesEdit: does not re-resolve features after the edit, which can drop more crates; the table keeps its other lines.
- BusGuard.MockBusGuard.Drop: does not model the process abort when a restore closure panics while the guard is already unwinding.
- Locale.ReadLocale: reads imports, comments, the map's declaration, its object literal and the default export of its name, as the writer prints them; other module syntax is refused. The label must hold no line terminator, since one would end the comment it stands in.
- Object keys named `__proto__` and the reordering of integer-like keys by JavaScript objects.
- Translation values that are not strings.
- Unused-key scanning and report formatting of the coverage script: text output without an invariant.
- The concrete controller list, namespace descriptions and enum tables: the registry is arbitrary.
