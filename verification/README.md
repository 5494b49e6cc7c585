# nostr-vpn control plane: a verified model

nostr-vpn is a mesh VPN whose peers find each other over Nostr. Its control plane keeps several
time-stamped books that one event loop updates step by step. This project models those books in
Dafny and proves what holds over whole runs of them: that loops over hash maps do not depend on
their iteration order, that replicated rosters converge, that bookkeeping loses and invents
nothing, and that multi-step changes of the machine are undone when they fail.

Run `dafny verify dfyconfig.toml` to check everything.

## Components

- **Relay fallback** (`Relay*.dfy`). A node that cannot reach a peer asks public relays for a
  session. Five books are kept: pending requests, active sessions, standby queues, cooldowns per
  participant and relay, and the verification and backoff record of each relay operator.
  `RelayState` holds the books and the functions on one book, `RelayReconcile` the pass that
  confirms, retires and replaces sessions together with a specification that treats all
  participants at once, `RelayOperators` the order in which operators are noted, `RelayProtocol` the
  events (request batch, grant, rejection, pass, prunes, pause) and their runs, and `RelayBooks` the
  object whose methods perform them in place. `RelayVerdicts` and `RelayAsking` say in terms of single
  fields which sessions a pass keeps and whom a batch asks.
- **Networks and rosters** (`Config.dfy`, `ConfigSafety.dfy`, `RosterConvergence.dfy`,
  `ConfigMeaning.dfy`, `Profile.dfy`, `Refilling.dfy`, `AppConfig.dfy`, `Labels.dfy`). Membership lists that administrators sign and other
  nodes adopt by last-writer-wins, local edits that advance a logical timestamp, the rules for the list of
  networks (one active, distinct ids), and what each operation does to the chosen exit node and the
  alias book.
- **Names** (`Labels.dfy`, `Naming.dfy`, `Resolver.dfy`). Label normalisation, the alias book, and
  the lookup of `alias` or `alias.suffix`.
- **Peer paths** (`Paths.dfy`, `PathSelection.dfy`, `PathRuns.dfy`, `PathTrace.dfy`, `PathBook.dfy`).
  Endpoints tracked per peer, their sources and times, and the sticky rule that selects one.
- **Presence** (`Presence.dfy`, `PresenceBook.dfy`). Who is reachable and what each peer last
  announced, proved against the trace of signals, prunes, retains and restores.
- **Routes** (`Masks.dfy`, `Routes.dfy`, `RouteOwners.dfy`, `RouteChoice.dfy`). Canonical prefixes,
  the assignment of each advertised route to one peer, and the data plane's longest-prefix choice.
- **Exit-node forwarding** (`Forwarding.dfy`, `ExitNode.dfy`). The Linux IPv4 set-up of a forwarding
  flag and three firewall rules, with calls that may fail.
- **Service description** (`Plist.dfy`, `Decimal.dfy`). The launchd property list, its escaping by
  global replaces, and reading the program path and all other strings back.
- `Common.dfy` and `Order.dfy` hold shared vocabulary: trimming, string order, sort and dedup.

## How the model is set up

- Times are natural numbers. Where the program saturates or wraps (roster timestamps at the `u64`
  maximum, the `u32` failure counter, subtraction of times) the model does so too.
- A hash map is a `map`. Where the program iterates over one, the order is a parameter or is drawn
  arbitrarily, and what is proved holds for every order. `max_by_key` over a hash map becomes any
  fixed choice among the maximal entries.
- Libraries outside the repository are values passed in, with what is assumed of them named in a
  predicate `Sound`: key parsing fixes canonical keys and rejects empty text, npub encoding is
  injective on canonical keys (64 lower-case hexadecimal digits), reading undoes printing for prefixes, lower-casing keeps lower-case ASCII text.
- Time, discovery results, probe outcomes, failing calls and runtime peers are inputs of the steps.
- Each class keeps the fields of the program's struct; its methods are proved equal to functions on
  snapshots of the fields, and the theorems about runs are about those functions.

## Findings

Where the code does less than one would expect, the exact condition is proved.

- The pass over active sessions is independent of hash-map order exactly when no participant name
  continues another one across a `:`, which holds for hexadecimal keys
  (`RelayOutcome.OrderFreeExactly`). The record of relay operators is independent of it exactly when
  no two sessions of one relay end differently; one confirmed and one failed, or two confirmed by
  handshakes of different times, are enough (`RelayOperators.OperatorsOrderFreeExactly`).
- Pruning standby queues is invisible to later promotions, but not to queueing: a grant that matches
  only expired standby sessions is queued if the prune ran first and refused as a duplicate if it
  did not (`RelayPruning.QueueingSeesPrune`).
- An administrator that removes itself while another one remains changes the roster without a new
  timestamp or signature, because the list of administrators is checked after the edit. A node that
  has the roster before it ignores the changed one as not newer (`ConfigSafety.SelfRemovalIsUnstamped`, and
  `ConfigSafety.EditStampsRoster` for exactly which edits are stamped).
- Rosters that would each be accepted converge in every order exactly when all of them list the
  signer of the newest one (`RosterConvergence.ConvergesExactly`).
- An accepted roster makes its signer the inviter if it drops the old one, even if it drops the signer as
  well; edits, in contrast, keep an inviter who is an admin among the admins (`ConfigMeaning.RosterInviterExactly`,
  `ConfigMeaning.EditsKeepInviter`).
- Activating another network does not look at the chosen exit node, which can then belong to an
  inactive network (`Profile.ExitStaysMemberExactly`). Adding or removing an administrator does not
  rebuild the alias book, so a new administrator has no alias, and a removed one keeps his, until
  something else rebuilds it (`Profile.BookStaysFittingExactly`, and `Profile.RunsKeepBookExactly` for
  whole runs).
- Loading and saving both fill in defaults, and doing so again can rename networks: ids are cut to 63 characters before they
  are made distinct, and the suffix that makes one distinct may exceed that. Ten networks under one id
  of 61 characters are enough (`Refilling.TenthNamesakeIsRenamed`). It changes nothing exactly when
  each loaded id has at most 63 characters, or a dash as its 63rd or 64th
  (`Refilling.FillingSettlesExactly`).
- `refresh_from_announcement` reports no change when it only adds endpoints, and is right in every
  other case (`PathRuns.RefreshFlagIsRightExactly`). `note_success` reports no change although it
  adds an endpoint exactly when the time is 0 and the endpoint was not tracked, and is right in every
  other case (`PathBook.PathBook.NoteSuccessAt`).
- Restoring a cached announcement over an active peer leaves the known announcement older than the
  active one exactly when the cached one is older (`Presence.StepIsCoherentExactly`). The daemon
  restores only at start-up and when a pause ends, with an empty book.
- If turning forwarding off fails once, the next set-up takes the flag it finds for the original one,
  and forwarding stays on in every later run (`Forwarding.LostRestoreSticks`).

## Model

| member | source | states |
|---|---|---|
| `RelayReconcile.WalkIsBatch` | crates/nostr-vpn-cli/src/relay_runtime.rs:301-387 | The in-place loop, over any part of the sessions in any order, leaves every book as the order-free simultaneous specification says and reports exactly the retired participants. |
| `RelayReconcile.VisitParts` | crates/nostr-vpn-cli/src/relay_runtime.rs:316-384 | What one round does to each of the five books, in terms of the verdict on the session and the standby that replaces it. |
| `RelayReconcile.VisitExtendsBatch` | crates/nostr-vpn-cli/src/relay_runtime.rs:326-384 | One more loop round extends the simultaneous specification by one more participant, whatever was visited before. |
| `RelayReconcile.ColonFreeNamesCannotClash` | crates/nostr-vpn-cli/src/relay_runtime.rs:18-20 | Names without a colon never produce the same joined cooldown key for two participants. |
| `RelayOutcome.OrderFreeExactly` | crates/nostr-vpn-cli/src/relay_runtime.rs:301-387 | For a set of participants, every two iteration orders give the same sessions, queues, cooldowns, pending requests and changed participants in every state if and only if no name continues another across the key's colon. |
| `RelayOperators.OperatorsOrderFreeExactly` | crates/nostr-vpn-cli/src/relay_runtime.rs:301-387 | In every state, every two iteration orders leave the same record of relay operators if and only if, judged before the pass, all sessions of one relay that are confirmed or have failed end alike: all failed, or all confirmed by handshakes of one time. |
| `RelayOperators.ProvidersDependOnOrder` | crates/nostr-vpn-cli/src/relay_runtime.rs:65-112 | In every state where one relay is confirmed for one participant and times out for another, there are two orders of which one leaves it cooling down and the other does not. |
| `RelayOutcome.SessionsAreLive` | crates/nostr-vpn-cli/src/relay_runtime.rs:3-16 | After a pass in any order, whatever the participants are called, every active session is unexpired, has both endpoints, and is verified or was granted less than 8 s ago. |
| `RelayOutcome.RetiredIsReplacedOrCleared` | crates/nostr-vpn-cli/src/relay_runtime.rs:259-387 | A participant reported as changed runs on a freshly granted former standby whose relay is not cooling down, or has no usable standby left and no pending request. |
| `RelayOutcome.ReconcileConserves` | crates/nostr-vpn-cli/src/relay_runtime.rs:259-387 | Counting sessions by relay, endpoints and expiry, a pass loses exactly the old active session of each changed participant and creates none. |
| `RelayVerdicts.PassDecides` | crates/nostr-vpn-cli/src/relay_runtime.rs:284-387 | In a pass in any order a participant changes exactly if its session is expired or lacks an endpoint, or was granted 8 s ago and never verified while its peer reports no handshake since the grant at the local ingress; any other session stays, verified by the first such handshake. |
| `RelayVerdicts.PassCools` | crates/nostr-vpn-cli/src/relay_runtime.rs:33-43 | A pass in any order cools down for 60 s exactly the relays of sessions that fail now, each for its participant. |
| `RelayVerdicts.PassDropsRequests` | crates/nostr-vpn-cli/src/relay_runtime.rs:326-384 | A pass in any order drops exactly the requests of participants whose session fails or runs out unreplaced. |
| `RelayVerdicts.RetiredTakesFirstReady` | crates/nostr-vpn-cli/src/relay_runtime.rs:259-282 | A changed participant runs on the first standby of its queue that is unexpired and not cooling down for it, and the rest of the queue keeps its order; without one it has no session and its queue is untouched. |
| `RelayVerdicts.PassRecords` | crates/nostr-vpn-cli/src/relay_runtime.rs:65-112 | What a pass notes about a relay about which one session tells, and that it notes nothing if none does. |
| `RelayVerdicts.GrantAcceptedExactly` | crates/nostr-vpn-cli/src/main.rs:2623-2659 | A grant that answers a pending request in time, from a relay not cooling down, becomes the session of a participant without one and is queued last for one with a session unless one like it is queued; no other grant does either. |
| `RelayVerdicts.GrantIsConfirmed` | crates/nostr-vpn-cli/src/relay_runtime.rs:220-299 | A handshake at a grant's requester ingress confirms the session made of it in the next pass, in any order. |
| `RelayVerdicts.RejectionExactly` | crates/nostr-vpn-cli/src/main.rs:2661-2685 | A rejection uses up its request; from the relay that was asked it also cools the relay down for the participant for 60 s and notes one more failure of its operator. |
| `RelayVerdicts.SessionPrunesKeepExactly` | crates/nostr-vpn-cli/src/relay_runtime.rs:190-218 | The prunes of active and queued sessions keep exactly those that are unexpired and have both endpoints. |
| `RelayVerdicts.CooldownPrunesKeepExactly` | crates/nostr-vpn-cli/src/relay_runtime.rs:45-52 | The prunes of cooldowns drop exactly those that have ended, and records with nothing in them. |
| `RelayPending.AtMostTwelvePending` | crates/nostr-vpn-cli/src/main.rs:2522-2621 | With a clock that does not go back, no run of batches, grants, rejections, passes and prunes ever leaves more than 12 pending requests for one participant. |
| `RelayPending.AtMostNineSurvive` | crates/nostr-vpn-cli/src/main.rs:2243-2284 | A participant that a batch may ask for has at most nine requests left, because batches are 30 s apart and requests of 120 s are gone. |
| `RelayPending.PlanIsModest` | crates/nostr-vpn-cli/src/main.rs:2495-2519 | One batch adds at most three requests per participant, and only for one without a request younger than 30 s. |
| `RelayAccounting.AtMostOneSessionPerIssue` | crates/nostr-vpn-cli/src/main.rs:2623-2685 | Over every run from empty books, a request id creates at most as many sessions as requests were published under it. |
| `RelayAccounting.CreatedAnswersRequest` | crates/nostr-vpn-cli/src/main.rs:2623-2659 | A session is only created for the participant and relay of a pending request, unexpired, with a relay that is not cooling down for it at that moment, and the request is used up. |
| `RelayAccounting.HeldSessionsWereGranted` | crates/nostr-vpn-cli/src/main.rs:2623-2659 | After any run a participant holds no more sessions of a given relay, endpoints and expiry than grants created for it along the run. |
| `RelayProviders.BackoffClosedForm` | crates/nostr-vpn-cli/src/relay_runtime.rs:91-112 | The n-th failure in a row cools an operator down for min(b * 2^min(n-1, 4), 900) seconds, with b = 60, or the operator's hint raised to at least 1, whatever probe notes, prunes and other operators intervene. |
| `RelayProviders.BackoffGrows` | crates/nostr-vpn-cli/src/relay_runtime.rs:91-112 | More failures never shorten the cooldown, and it never exceeds 900 s. |
| `RelayProviders.CooldownEnds` | crates/nostr-vpn-cli/src/relay_runtime.rs:54-63 | Nobody is cooling down 900 s after the last failure, nor without one. |
| `RelayProviders.PruneRemovesNoProvider` | crates/nostr-vpn-cli/src/relay_runtime.rs:138-156 | On every reachable state the operator prune removes no entry. |
| `RelayPruning.CooldownSurvivesPrune` | crates/nostr-vpn-cli/src/relay_runtime.rs:22-52 | Pruning cooldowns changes no later cooldown answer. |
| `RelayPruning.ProviderQueriesSurvivePrune` | crates/nostr-vpn-cli/src/relay_runtime.rs:114-188 | Pruning the operator record changes no later cooldown, probe-due or sort-key answer. |
| `RelayPruning.PopSurvivesPrune` | crates/nostr-vpn-cli/src/relay_runtime.rs:209-282 | Pruning standby queues changes no later promotion. |
| `RelayPruning.QueueingSeesPrune` | crates/nostr-vpn-cli/src/relay_runtime.rs:209-257 | Pruning first changes whether a grant is queued exactly when the queue held a match for it and every match had expired. |
| `RelayPruning.PruningIsInvisible` | crates/nostr-vpn-cli/src/session_runtime.rs:912-915 | Take any reachable state and prune cooldowns and operators at `now` or not: every later run gives the same outputs, sessions, queues and requests. |
| `RelayCandidates.CandidatesAreTheBest` | crates/nostr-vpn-cli/src/main.rs:2495-2519 | At most three admissible relays are asked, fewer only when no more are admissible, and none left out ranks strictly ahead of one chosen. |
| `RelayAsking.BatchAsksExactly` | crates/nostr-vpn-cli/src/main.rs:2251-2284 | If the client does not fail, some request is published for a participant exactly if it is a peer without an active session and without a request younger than 30 s, and some discovered relay, neither it nor this node, is out of both cooldowns after the probes. |
| `RelayAsking.BatchAsksBest` | crates/nostr-vpn-cli/src/main.rs:2522-2621 | It is then asked of the best three relays that may serve it, or of all if there are fewer: verified ones first, the latest first, then those that failed longest ago. |
| `RelayAsking.NoNeedlessRequest` | crates/nostr-vpn-cli/src/main.rs:2522-2621 | Even if the client fails on the way, each request published was wanted and its relay may serve. |
| `RelayAsking.BatchRecords` | crates/nostr-vpn-cli/src/main.rs:2588-2616 | After a batch the pending requests are those younger than 120 s and those just published, under the text of network, participant, relay and time. |
| `RelayAsking.BatchProbesBest` | crates/nostr-vpn-cli/src/main.rs:2407-2464 | A batch probes at most two operators that are due, none due going before them, and changes no other record; each record follows from how the probe turned out. |
| `RelayBooks.RelayBooks.ReconcileSessions` | crates/nostr-vpn-cli/src/relay_runtime.rs:301-387 | The loop over the session map, in place, equals the pass that the theorems speak of, with its list of changed participants. |
| `RelayBooks.RelayBooks.VisitParticipant` | crates/nostr-vpn-cli/src/relay_runtime.rs:326-384 | One loop round on all five books equals one visit. |
| `RelayBooks.RelayBooks.PopNext` | crates/nostr-vpn-cli/src/relay_runtime.rs:259-282 | The search for the first usable standby promotes it, shortens the queue and removes an empty one. |
| `RelayBooks.RelayBooks.Enqueue` | crates/nostr-vpn-cli/src/relay_runtime.rs:241-257 | A standby is appended unless the queue holds one with the same relay and endpoints; the flag says which. |
| `RelayBooks.RelayBooks.AcceptGrant` | crates/nostr-vpn-cli/src/main.rs:2623-2659 | Every way a grant can end (unknown, wrong relay, expired, cooling down, duplicate, standby, active) on every book. |
| `RelayBooks.RelayBooks.AcceptRejection` | crates/nostr-vpn-cli/src/main.rs:2661-2685 | A rejection uses up its request and, if it comes from the asked relay, blames the relay for that participant and the operator. |
| `RelayBooks.RelayBooks.RequestRelays` | crates/nostr-vpn-cli/src/main.rs:2522-2621 | The nested loops publish and record exactly the planned requests up to the point where the client fails. |
| `RelayBooks.RelayBooks.NoteFailedProvider` | crates/nostr-vpn-cli/src/relay_runtime.rs:91-112 | The in-place note equals the backoff step. |
| `RelayBooks.RelayBooks.PruneProviderVerifications` | crates/nostr-vpn-cli/src/relay_runtime.rs:138-156 | The in-place prune, with a flag that is up exactly when an entry was lost. |
| `RelayBooks.RelayBooks.PruneStandbySessions` | crates/nostr-vpn-cli/src/relay_runtime.rs:209-219 | Expired standbys and empty queues go, with a flag that is up exactly when a participant lost its whole queue. |
| `RelayBooks.RelayBooks.PruneFailureCooldowns` | crates/nostr-vpn-cli/src/relay_runtime.rs:45-52 | Ended cooldowns go; the flag is up exactly when one went. |
| `RelayBooks.RelayBooks.PruneActiveSessions` | crates/nostr-vpn-cli/src/relay_runtime.rs:190-197 | Inactive sessions go; the flag is up exactly when one went. |
| `ConfigSafety.RunsAreSafe` | crates/nostr-vpn-core/src/config.rs:309-448 | Distinct network ids, exactly one active network, sorted duplicate-free canonical key lists and a signer for every positive roster timestamp survive every run of edits, rosters, added and removed networks and default-filling. |
| `ConfigSafety.RunsAdvance` | crates/nostr-vpn-core/src/config.rs:769-1070 | Followed along any such run, a network that is not removed never sees its roster timestamp decrease and never loses its last administrator. |
| `ConfigSafety.DefaultsAreSafe` | crates/nostr-vpn-core/src/config.rs:392-448 | Whatever was loaded, default-filling establishes all of these invariants. |
| `ConfigMeaning.FilledExactly` | crates/nostr-vpn-core/src/config.rs:392-448 | What default-filling makes of every field of every network but its id, and which one it leaves enabled. |
| `ConfigMeaning.EmptyIsSeeded` | crates/nostr-vpn-core/src/config.rs:376-391 | An empty list is filled with one enabled network. |
| `ConfigMeaning.AddedExactly` | crates/nostr-vpn-core/src/config.rs:576-606 | A new network comes last, disabled and without members, under the id of its number if that is free. |
| `ConfigMeaning.RemovedExactly` | crates/nostr-vpn-core/src/config.rs:623-643 | Any network but the only one may be removed; the others stay as they are, but that the first is enabled if none is left that is. |
| `ConfigMeaning.EnabledExactly` | crates/nostr-vpn-core/src/config.rs:645-667 | Enabling a network disables all others; the enabled one may not be disabled. |
| `ConfigMeaning.MeshNames` | crates/nostr-vpn-core/src/config_defaults.rs:35-42 | A mesh id goes by its text without the legacy prefix. |
| `Order.LessExactly` | crates/nostr-vpn-core/src/config.rs:421-426 | Keys are sorted by code point: a text before its continuations and before what has a greater character where they first differ. |
| `ConfigSafety.EditStampsRoster` | crates/nostr-vpn-core/src/config.rs:769-877 | A local edit never turns the roster clock back. Below the `u64` maximum the clock rises exactly for the edits told apart before the edit by `Stamps`: this node is an administrator or makes itself one, does not remove its own key, and does not remove somebody who is no administrator. Those edits are signed with a time not before now; all others leave clock and signer alone. |
| `ConfigSafety.SelfRemovalIsUnstamped` | crates/nostr-vpn-core/src/config.rs:796-877 | Whenever an administrator removes itself while another one remains, by either operation, the roster changes and keeps its old timestamp and signer, so a node that has the old one ignores it. |
| `ConfigSafety.EditKeepsAdmins` | crates/nostr-vpn-core/src/config.rs:796-877 | No edit takes away the last administrator. |
| `ConfigSafety.EditChangesMembership` | crates/nostr-vpn-core/src/config.rs:769-877 | What each membership edit does to the sets of participants and administrators. |
| `ConfigMeaning.EditExactly` | crates/nostr-vpn-core/src/config.rs:769-967 | When each edit goes through, and what it does to name and inviter: a removed inviter is succeeded by the least admin left. |
| `ConfigMeaning.EditsKeepInviter` | crates/nostr-vpn-core/src/config.rs:827-967 | If the inviter is nobody or an admin, no edit changes that. |
| `ConfigSafety.AcceptedIsNewer` | crates/nostr-vpn-core/src/config.rs:969-1070 | An accepted roster is strictly newer than the one it replaces, signed by an administrator of that one, and leaves at least one administrator. |
| `ConfigMeaning.RosterAcceptedExactly` | crates/nostr-vpn-core/src/config.rs:969-1034 | A roster changes the first network of its mesh exactly if it is signed by one of its admins, newer, at most 600 s ahead, all its participants parse and some admin is left; every field is then as stated. |
| `ConfigMeaning.RosterInviterExactly` | crates/nostr-vpn-core/src/config.rs:1012-1032 | After a roster that names some admin is accepted, the inviter is an admin exactly if the roster names the inviter or its own signer among the admins. |
| `RosterConvergence.NewestRosterWins` | crates/nostr-vpn-core/src/config.rs:969-1070 | Delivering rosters in any order with any repetitions, mixed with rosters of other networks, ends with the participants, administrators, timestamp and signer of the newest, given that its signer is an administrator initially and in the older ones. |
| `RosterConvergence.NodesConverge` | crates/nostr-vpn-core/src/network_roster.rs:34-48 | Two nodes with different keys and different delivery orders end alike, except that each drops its own key from the same sorted list of participants. |
| `RosterConvergence.RecognitionIsNeeded` | crates/nostr-vpn-core/src/config.rs:994-1018 | Of two acceptable rosters, the newer one delivered second is accepted if and only if the older one lists its signer. |
| `RosterConvergence.ConvergesExactly` | crates/nostr-vpn-core/src/config.rs:969-1070 | A finite set of rosters, each of which would be accepted on arrival, ends in the newest one in every order of delivery with any repetitions if and only if all of them list the signer of the newest. |
| `AppConfig.AppConfig.ApplyAdminSignedSharedRoster` | crates/nostr-vpn-core/src/config.rs:969-1070 | The in-place method accepts, ignores or fails as the model says; an ignored or failed roster leaves the whole profile unchanged, and an accepted one enters its aliases and settles exit node and alias book. |
| `AppConfig.AppConfig.AddParticipantToNetwork` | crates/nostr-vpn-core/src/config.rs:769-794 | Parse, add, sort, bump, then settle exit node and alias book; nothing changes when the key or the network is unknown. |
| `AppConfig.AppConfig.RemoveParticipantFromNetwork` | crates/nostr-vpn-core/src/config.rs:796-825 | Removes the key from both lists unless that would remove the last administrator, then settles exit node and alias book. |
| `AppConfig.AppConfig.AddAdminToNetwork` | crates/nostr-vpn-core/src/config.rs:827-849 | Adds the key in order, names a missing inviter, bumps, and settles the exit node but not the alias book. |
| `AppConfig.AppConfig.RemoveAdminFromNetwork` | crates/nostr-vpn-core/src/config.rs:851-877 | Refuses to remove the last administrator, hands the inviter role on, bumps, and settles the exit node but not the alias book; a key that is no administrator returns at once. |
| `AppConfig.AppConfig.RemoveNetwork` | crates/nostr-vpn-core/src/config.rs:623-643 | Refuses the last network; otherwise removes it, keeps one active and settles exit node and alias book. |
| `AppConfig.AppConfig.SetNetworkEnabled` | crates/nostr-vpn-core/src/config.rs:645-667 | Enabling one network disables the others; disabling the active one is refused. The exit node stays a member exactly if the network that becomes active lists it. |
| `AppConfig.AppConfig.EnsureSingleActiveNetwork` | crates/nostr-vpn-core/src/config.rs:1082-1101 | Two loops leave exactly the first enabled network enabled, or the first one if none is. |
| `AppConfig.AppConfig.EnsureDefaults` | crates/nostr-vpn-core/src/config.rs:368-448 | The loops with the set of used ids, the exit node read back and the alias book rebuilt equal the model's default-filling; the exit node is then a member or cleared. |
| `AppConfig.AppConfig.NormalizeSelectedExitNode` | crates/nostr-vpn-core/src/config.rs:1191-1203 | Afterwards the exit node is cleared or a key of the active network. |
| `AppConfig.AppConfig.NormalizePeerAliases` | crates/nostr-vpn-core/src/config.rs:1165-1189 | Collects the members of all networks in a loop and rebuilds the alias book for them. |
| `Profile.ExitStaysMemberExactly` | crates/nostr-vpn-core/src/config.rs:645-667 | A chosen exit node that is in the active network still is after any operation, if and only if the operation does not activate a network without it. |
| `Profile.RunsKeepExitExactly` | crates/nostr-vpn-core/src/config.rs:645-667 | Over whole runs from a safe profile it is so at every point if and only if no step activates a network without the exit node. |
| `Profile.SettlingRestoresExit` | crates/nostr-vpn-core/src/config.rs:1191-1203 | Every operation that settles the exit node repairs it, whatever it found. |
| `Profile.LoadingKeepsExitExactly` | crates/nostr-vpn-core/src/config.rs:368-374 | Loading keeps an exit node exactly if its text names a key other than this node's that the active network then lists. |
| `Profile.RosterAliasesExactly` | crates/nostr-vpn-core/src/config.rs:1044-1066 | The aliases of a roster enter the book for other members of its network, the last one for each. |
| `Profile.BookStaysFittingExactly` | crates/nostr-vpn-core/src/config.rs:827-877 | An alias book with one valid, distinct label for each member and nobody else stays so after any operation, for up to 9,997 members, if and only if the operation does not add an administrator whom no network lists nor remove one whom no network lists any more. |
| `Profile.RunsKeepBookExactly` | crates/nostr-vpn-core/src/config.rs:827-877 | Over every run from a safe profile that never lists more than 9,997 members, a fitting alias book fits at every point if and only if no step adds an administrator whom no network listed at that point or removes one whom none lists afterwards. |
| `Profile.SettledBookFits` | crates/nostr-vpn-core/src/config.rs:1165-1189 | Rebuilding the alias book makes it fit, whatever it was before. |
| `Naming.RebuildIsIdempotent` | crates/nostr-vpn-core/src/config.rs:1165-1189 | Rebuilding a rebuilt alias book, whatever order its entries come in, changes nothing. |
| `Refilling.IdsStayExactly` | crates/nostr-vpn-core/src/config_magic_dns.rs:15-36 | Normalising ids that were made distinct and making them distinct again keeps them all if and only if each has at most 63 characters or a dash as its 63rd or 64th. |
| `Refilling.FillingSettlesExactly` | crates/nostr-vpn-core/src/config.rs:368-448 | Filling defaults a second time, exit node and alias book included, changes nothing if and only if each network id has at most 63 characters or a dash as its 63rd or 64th. |
| `Refilling.TenthNamesakeIsRenamed` | crates/nostr-vpn-core/src/config.rs:392-411 | Ten networks under one label of 61 characters: the tenth is called by suffix 10 after one loading and by suffix 1 after the next. |
| `Labels.UniquifyEntryId` | crates/nostr-vpn-core/src/config_magic_dns.rs:19-36 | The unbounded search for a free suffix ends, and the id it returns was unused. |
| `Labels.Normalize` | crates/nostr-vpn-core/src/config_magic_dns.rs:106-139 | The character loop with its buffer computes the normal label. |
| `Labels.NormalizeMeaning` | crates/nostr-vpn-core/src/config_magic_dns.rs:106-139 | The normal label is valid (1 to 63 lower-case letters, digits and single inner dashes), is the longest valid beginning of the dashed text, and is missing exactly when the text has no letter or digit. |
| `Labels.NormalizeFixed` | crates/nostr-vpn-core/src/config_magic_dns.rs:106-139 | Valid labels normalise to themselves. |
| `Labels.NormalizeIdempotent` | crates/nostr-vpn-core/src/config_magic_dns.rs:106-139 | Normalising a label twice is normalising it once. |
| `Naming.UniqueLabelIsFree` | crates/nostr-vpn-core/src/config_magic_dns.rs:160-188 | With at most 9,997 labels in use the counter loop finds an unused one. |
| `Naming.AliasIsValid` | crates/nostr-vpn-core/src/config.rs:1165-1189 | Every member gets a valid label, different from this node's own. |
| `Naming.AliasesAreInjective` | crates/nostr-vpn-core/src/config.rs:1165-1189 | No two members share a label. |
| `Naming.AskedLabelIsGiven` | crates/nostr-vpn-core/src/config.rs:1165-1189 | A member is given the label the book asks for exactly if no member before it has that label and it is not this node's own. |
| `Naming.TakenLabelIsNumbered` | crates/nostr-vpn-core/src/config_magic_dns.rs:160-185 | Otherwise it gets the first free one of the label cut short and numbered from 2 on. |
| `Naming.DefaultLabelExactly` | crates/nostr-vpn-core/src/config_magic_dns.rs:141-158 | Without one asked for, a key starts from the first unused animal name from its own place on, once round the list, or else from its first twelve digits. |
| `Naming.BookHoldsMembers` | crates/nostr-vpn-core/src/config.rs:1165-1189 | Aliases of former members are dropped. |
| `Naming.NormalizePeerAliases` | crates/nostr-vpn-core/src/config.rs:1165-1189 | The loops over old aliases and sorted members compute the alias book. |
| `Naming.DefaultMagicDnsLabel` | crates/nostr-vpn-core/src/config_magic_dns.rs:141-158 | The walk over the animal list from the hashed start returns the first unused name, or falls back to the key's text. |
| `Naming.UniquifyLabel` | crates/nostr-vpn-core/src/config_magic_dns.rs:160-188 | The counter loop returns the first free candidate and marks it used. |
| `Resolver.ParticipantResolves` | crates/nostr-vpn-core/src/config.rs:1288-1337 | Every raw query that cleans to a participant's alias, bare or followed by the suffix, finds that participant: outer blanks, trailing dots and capitals do not matter. |
| `Resolver.ResolvesExactly` | crates/nostr-vpn-core/src/config.rs:1297-1337 | A participant other than this node is found by exactly the queries that clean to one of its two names. |
| `Resolver.OwnNamesResolve` | crates/nostr-vpn-core/src/config.rs:1288-1295 | Both names of a participant find it as they stand. |
| `Resolver.AnswersAreNames` | crates/nostr-vpn-core/src/config.rs:1297-1337 | Conversely every answer but this node's own key is a participant asked for by one of its names. |
| `Resolver.AnsweredExactly` | crates/nostr-vpn-core/src/config.rs:1297-1337 | A query has an answer exactly if it cleans to this node's label, bare or with the suffix, while this node has a key, or to a name of some participant. |
| `Resolver.OwnAnsweredExactly` | crates/nostr-vpn-core/src/config.rs:1297-1316 | This node's key, unless it is a participant's, is the answer to exactly the queries that clean to its own label, bare or with the suffix. |
| `Resolver.OwnLabel` | crates/nostr-vpn-core/src/config.rs:1209-1225 | With a rebuilt alias book this node's label is its normalised name. |
| `Resolver.QueryCleans` | crates/nostr-vpn-core/src/config.rs:1298 | Outer blanks and final dots of a query do not matter. |
| `Resolver.SelfIsFree` | crates/nostr-vpn-core/src/config.rs:1209-1217 | This node's preferred label is nobody's alias, so it keeps it. |
| `Resolver.SuffixIsClean` | crates/nostr-vpn-core/src/config_magic_dns.rs:90-104 | A normalised suffix is never empty and survives the cleaning of queries. |
| `Resolver.SplitMeaning` | crates/nostr-vpn-core/src/config_magic_dns.rs:90-98 | The parts of a suffix hold no dot and join to it again. |
| `Resolver.SuffixFixed` | crates/nostr-vpn-core/src/config_magic_dns.rs:90-104 | A suffix made of labels, in whatever number and order, is normal. |
| `Resolver.SuffixIdempotent` | crates/nostr-vpn-core/src/config_magic_dns.rs:90-104 | Normalising a suffix twice is normalising it once. |
| `PathSelection.SelectionIsTracked` | crates/nostr-vpn-core/src/paths.rs:300-386 | Selection returns a tracked endpoint, or the announcement's default if none is tracked, and unless it keeps the current one its choice has maximal rank. |
| `PathSelection.BestPrefersSources` | crates/nostr-vpn-core/src/paths.rs:461-481 | Between endpoints proven equally recently the choice prefers relays, then shared subnets, then public or observed, then legacy endpoints, then the default, then the later announcement. |
| `PathSelection.LeavesExactlyWhen` | crates/nostr-vpn-core/src/paths.rs:340-386 | The exact condition under which the current endpoint is left. |
| `PathSelection.SelectsExactly` | crates/nostr-vpn-core/src/paths.rs:291-387 | The whole rule in plain terms: without tracked endpoints the suggested one; otherwise an unbeaten candidate, unless the current one may not be left for it. |
| `PathSelection.ProvenEndpointsStick` | crates/nostr-vpn-core/src/paths.rs:483-497 | An endpoint with an applicable success is left only for one with a strictly later applicable success. |
| `PathSelection.UnprovenEndpointsWait` | crates/nostr-vpn-core/src/paths.rs:340-386 | An unproven endpoint usable here is kept until its retry window has passed. |
| `PathSelection.SelectionIsStable` | crates/nostr-vpn-core/src/paths.rs:142-166 | Select, note the selection, select again at the same time: the same endpoint, for every fixed tie-break and retry window. |
| `PathSelection.SelectionSurvivesRetieing` | crates/nostr-vpn-core/src/paths.rs:300-386 | With a positive retry window this holds even if ties are broken differently the second time, unless the endpoint is an off-subnet local one. |
| `PathRuns.RunsAreSane` | crates/nostr-vpn-core/src/paths.rs:85-248 | After every run the current endpoint is tracked, and the only relay path of a peer is the relay endpoint of its last refreshed announcement. |
| `PathRuns.RunsRise` | crates/nostr-vpn-core/src/paths.rs:85-187 | While an endpoint stays tracked its source, announcement time and success time never go down. |
| `PathTrace.PruneKeepsExactly` | crates/nostr-vpn-core/src/paths.rs:189-217 | A prune keeps exactly the tracked paths whose announcement, selection or success is later than the start of the window, unchanged, and the peers that keep one. |
| `PathTrace.RunFreshAtLastMention` | crates/nostr-vpn-core/src/paths.rs:68-72 | Over every run whose mentions of an endpoint come in order, a tracked path was last fresh when its endpoint was last announced, selected or reported as working. |
| `PathTrace.RunPruneExpires` | crates/nostr-vpn-core/src/paths.rs:189-217 | After every such run a prune keeps exactly the tracked paths whose endpoint was mentioned within the window. |
| `PathTrace.RefreshExactly` | crates/nostr-vpn-core/src/paths.rs:85-140 | A refresh endpoint by endpoint: which tracked paths give way, what is raised on the others, and what starts afresh. |
| `PathTrace.NotesExactly` | crates/nostr-vpn-core/src/paths.rs:142-187 | What noting a selection or a success changes: the current endpoint, one time of one path, and nothing else. |
| `PathTrace.AnnouncedExactly` | crates/nostr-vpn-core/src/paths.rs:389-419 | An announcement tells of the endpoints it lists that are not blank, each under its first heading. |
| `PathTrace.DropsExactly` | crates/nostr-vpn-core/src/paths.rs:219-248 | Dropping relay paths, retaining participants and clearing keep exactly the other paths. |
| `PathRuns.RefreshIsIdempotent` | crates/nostr-vpn-core/src/paths.rs:85-140 | Refreshing twice with one announcement at one time is refreshing once, and the second reports no change. |
| `PathRuns.SupersededEndpointsAreGone` | crates/nostr-vpn-core/src/paths.rs:421-452 | After a refresh an observed endpoint stands beside an announced one of its host only if it is local or worked within 180 s. |
| `PathRuns.RelayIsUnique` | crates/nostr-vpn-core/src/paths.rs:389-419 | An announcement tags at most one endpoint as a relay. |
| `PathRuns.QuietRefreshOnlyAdds` | crates/nostr-vpn-core/src/paths.rs:85-140 | A refresh reports no change if and only if each tracked path, judged before it, is retained and, if announced, has a source and time no lower than the announcement's; it then only adds announced endpoints. |
| `PathRuns.RefreshFlagIsRightExactly` | crates/nostr-vpn-core/src/paths.rs:85-140 | The flag of a refresh tells truly whether anything changed, except exactly when all tracked paths stay as they are and some announced endpoint was not tracked. |
| `PathRuns.ReportMeansChange` | crates/nostr-vpn-core/src/paths.rs:85-140 | A raised flag is never wrong. |
| `PathBook.PathBook.RefreshFromAnnouncement` | crates/nostr-vpn-core/src/paths.rs:85-140 | The retain and the loop over announced endpoints equal the refresh of the model, flag included. |
| `PathBook.PathBook.NoteSelectedEndpoint` | crates/nostr-vpn-core/src/paths.rs:142-166 | The flag is up exactly when the peer's state changed. |
| `PathBook.PathBook.NoteSuccessAt` | crates/nostr-vpn-core/src/paths.rs:168-187 | A success time only rises; the flag is down when the time is no news, and tells truly whether the state changed except exactly when an untracked endpoint enters at time 0. |
| `PathBook.PathBook.PruneStalePaths` | crates/nostr-vpn-core/src/paths.rs:189-217 | The walk over the peers in any order drops stale endpoints and peers left without any, and its flag is up exactly when the book changed. |
| `PathBook.PathBook.RemoveRelayPathsFor` | crates/nostr-vpn-core/src/paths.rs:224-248 | Relay paths go; the flag is up exactly when the book changed. |
| `Presence.RunSummarisesTrace` | crates/nostr-vpn-core/src/presence.rs:15-60 | Over every run, `known` is the last of the newest announcements since the sender's last disconnect, drop or restore, `active` that since it was last absent, `active_since` the time it came back, and `last_seen` its last signal. |
| `Presence.LatestIsUnique` | crates/nostr-vpn-core/src/presence.rs:29-38 | A list of announcements has at most one latest, so the trace determines what the book holds. |
| `Presence.RunsAreCoherent` | crates/nostr-vpn-core/src/presence.rs:15-133 | Throughout a run `active` and `active_since` have the same keys, contained in those of `known` and `last_seen`, and no active announcement is newer than the known one, if and only if no restore of the run is older than what its peer is active with at that point. |
| `Presence.StepIsCoherentExactly` | crates/nostr-vpn-core/src/presence.rs:15-133 | From every coherent book a step leads to a coherent one, except exactly a restore older than what its peer is active with. |
| `Presence.KnownPeersWereSeen` | crates/nostr-vpn-core/src/presence.rs:76-87 | Every known peer has a last-seen time unless it was restored without one. |
| `Presence.KnownIgnoresDeliveryOrder` | crates/nostr-vpn-core/src/presence.rs:27-38 | If each participant has at most one newest announcement among those delivered, `known` does not depend on their order, repetition or times, nor on other signals and prunes in between. |
| `Presence.KnownOrderFreeExactly` | crates/nostr-vpn-core/src/presence.rs:27-38 | After any earlier trace, `known` is the same for every delivery of the same announcements if and only if no participant has two different newest ones among them. |
| `Presence.TiesDependOnOrder` | crates/nostr-vpn-core/src/presence.rs:29-38 | Two different announcements with one timestamp do make the order matter. |
| `Presence.PruneExpires` | crates/nostr-vpn-core/src/presence.rs:101-122 | Just after a prune a peer is active exactly when it was and its last signal lies within the window. |
| `Presence.RestoreOverActive` | crates/nostr-vpn-core/src/presence.rs:76-87 | After every coherent run, restoring over an active peer keeps the book coherent if and only if the restored announcement is no older than the active one. |
| `Presence.RestoreAfterSignal` | crates/nostr-vpn-core/src/presence.rs:27-87 | For every peer and every two announcements: announce one, restore the other, and the book is coherent if and only if the restored one is no older. |
| `PresenceBook.PresenceBook.ApplySignal` | crates/nostr-vpn-core/src/presence.rs:15-60 | The in-place method equals the step, and its flag says whether an announcement became active or a disconnect removed anything. |
| `PresenceBook.PresenceBook.AnnouncementFor` | crates/nostr-vpn-core/src/presence.rs:70-74 | Finds an announcement exactly for known peers, never one newer than the known one. |
| `PresenceBook.PresenceBook.PruneStale` | crates/nostr-vpn-core/src/presence.rs:101-122 | Returns, in ascending order, exactly the peers that stopped being active. |
| `PresenceBook.PresenceBook.RestoreKnown` | crates/nostr-vpn-core/src/presence.rs:76-87 | A peer restored while absent is known by the restored announcement and the book stays coherent; over an active peer it stays coherent exactly if the active announcement is no newer. |
| `Routes.SameCoverIsSameNetwork` | crates/nostr-vpn-core/src/network_routes.rs:88-104 | Two prefixes of either family match the same addresses if and only if they have the same masked network and length. |
| `Masks.LeadingBits4` | crates/nostr-vpn-cli/src/userspace_wg.rs:16-34 | Two IPv4 addresses lie in one network of a length exactly if they agree on that many leading bits. |
| `Routes.NormalRouteMeaning` | crates/nostr-vpn-core/src/network_routes.rs:27-47 | A normal route covers what the advertised text covered, is its own normal form, and reads alike in both readers. |
| `Routes.NormalFormsDecideCoverage` | crates/nostr-vpn-core/src/network_routes.rs:27-47 | Two readable routes have equal normal forms if and only if they match the same addresses. |
| `Routes.NormalRoutesMeaning` | crates/nostr-vpn-core/src/network_routes.rs:49-63 | A normalised list holds each normal form once and nothing else, and normalising it again changes nothing. |
| `Routes.NormalizeAdvertisedRoutes` | crates/nostr-vpn-core/src/network_routes.rs:49-63 | The loop with its set of seen routes keeps first occurrences in order. |
| `Routes.EffectiveAdvertisedRoutes` | crates/nostr-vpn-core/src/network_routes.rs:65-78 | The own routes come first and unchanged, an exit node's default routes are there exactly once, and the list is normal. |
| `RouteOwners.AdvertisedRouteAssignments` | crates/nostr-vpn-cli/src/main.rs:4678-4718 | The loops list for each participant, in ascending order, exactly the routes it owns; a route has one owner. |
| `RouteOwners.OwnerIsLeastClaimant` | crates/nostr-vpn-cli/src/main.rs:4686-4708 | Over sorted participants a route's owner is its least claimant, whatever order announcements and maps come in. |
| `RouteOwners.ExitNodeOwnsDefaultRoute` | crates/nostr-vpn-cli/src/main.rs:4658-4676 | A default route is owned by nobody but the chosen exit node, and a participating exit node that announces the IPv4 default route owns it. |
| `RouteOwners.NetworkBelongsTo` | crates/nostr-vpn-cli/src/main.rs:4658-4718 | Over sorted participants an IPv4 network belongs to the least of the other announced ones that advertise some route covering just its addresses; all of IPv4 to nobody but the configured exit node that advertises it. |
| `RouteOwners.V4RoutesMeaning` | crates/nostr-vpn-cli/src/main.rs:4639-4656 | What counts as a peer's IPv4 routes: the normal forms of what it advertises. |
| `RouteOwners.NormalizedPeerIpv4Routes` | crates/nostr-vpn-cli/src/main.rs:4639-4656 | The loop computes them, each once, in order. |
| `RouteChoice.DataPlaneAgrees` | crates/nostr-vpn-cli/src/userspace_wg.rs:16-34 | The data plane matches an address against a normal route exactly when the route as first advertised covers it. |
| `RouteChoice.SelectionIsLongestPrefix` | crates/nostr-vpn-cli/src/userspace_wg.rs:266-283 | The chosen peer is the last of those that carry the longest matching prefix of all peers; none is chosen exactly when none matches. |
| `RouteChoice.ChoiceIgnoresOrderExactly` | crates/nostr-vpn-cli/src/userspace_wg.rs:266-283 | Every reordering of the peers gives an address the same peer if and only if a single peer carries its longest match. |
| `RouteChoice.OwnedRoutesLeaveOneCarrier` | crates/nostr-vpn-cli/src/userspace_wg.rs:266-283 | Peers that share no route leave a single such peer. |
| `RouteChoice.DestinationHasOnePeer` | crates/nostr-vpn-cli/src/main.rs:4729-4755 | Peers built from the assignment, with tunnel addresses apart from each other and from assigned routes, give every destination one peer whatever order they are listed in. |
| `RouteChoice.DestinationServed` | crates/nostr-vpn-cli/src/main.rs:4678-4755 | A destination goes to exactly the listed participant that owns a route covering it, or has it as tunnel address, while no other listed one has a longer one, and to nobody exactly if none has one. |
| `RouteChoice.TunnelRouteMeaning` | crates/nostr-vpn-cli/src/main.rs:4729-4739 | The tunnel route is what stands before the first slash of the tunnel address, as a single address. |
| `RouteChoice.AllowedIps` | crates/nostr-vpn-cli/src/main.rs:4729-4745 | A peer's allowed addresses are its tunnel address first and its assigned routes, each once. |
| `Forwarding.AllOrNothing` | crates/nostr-vpn-cli/src/main.rs:3764-3982 | Over every run with succeeding restores and deletes and arbitrary other failures: nothing recorded, none of the rules, the original flag; or all three rules for the recorded device and network, forwarding on, the original flag saved. |
| `Forwarding.SetupIsAtomic` | crates/nostr-vpn-cli/src/main.rs:3826-3905 | A set-up completes if and only if each call it needs succeeds, and otherwise restores the machine. |
| `Forwarding.CleanupIsCleanExactly` | crates/nostr-vpn-cli/src/main.rs:3923-3982 | A cleanup restores the machine if and only if all deletes succeed and, if forwarding was off, the restore does; it forgets in any case. |
| `Forwarding.ReconcileReachesWish` | crates/nostr-vpn-cli/src/main.rs:3764-3830 | Without failures a reconcile reaches the wanted set-up from any settled state, and repeating it changes nothing. |
| `Forwarding.LostRestoreSticks` | crates/nostr-vpn-cli/src/main.rs:3923-3982 | Clean up a set-up that found forwarding off: forwarding is on at the end of every later run, whatever calls fail in it and whatever others do to their rules, if and only if the restore failed. |
| `Forwarding.StuckStaysOn` | crates/nostr-vpn-cli/src/main.rs:3832-3846 | If forwarding is on when nothing is recorded, it is on after every later run and no set-up remembers it as once off. |
| `Forwarding.OthersRulesSurvive` | crates/nostr-vpn-cli/src/platform_routing.rs:737-776 | Whatever calls fail, rules of other programs are changed by those programs alone. |
| `ExitNode.ExitNode.Reconcile` | crates/nostr-vpn-cli/src/main.rs:3764-3905 | The branches of the method, failures included, equal the model's step. |
| `ExitNode.ExitNode.SetUp` | crates/nostr-vpn-cli/src/main.rs:3826-3905 | Read, enable and install, with a cleanup at each failure. |
| `ExitNode.ExitNode.Cleanup` | crates/nostr-vpn-cli/src/main.rs:3923-3982 | Deletes, restores and forgets, going on after failures. |
| `ExitNode.Machine.EnsureRule` | crates/nostr-vpn-cli/src/platform_routing.rs:737-755 | A check and an append that can fail separately: on success the rule is there, it never becomes double, and no other rule is touched. |
| `ExitNode.Machine.DeleteRule` | crates/nostr-vpn-cli/src/platform_routing.rs:757-776 | A check and a delete that can fail separately: on success a single copy is gone, and no other rule is touched. |
| `Plist.UnescapeUndoesEscape` | crates/nostr-vpn-cli/src/service_management.rs:1023-1040 | Unescaping an escaped text returns it, for every text, although the five replaces run in different orders. |
| `Plist.AmpersandMustComeLast` | crates/nostr-vpn-cli/src/service_management.rs:1033-1040 | With the ampersand decoded first, unescaping an escaped text returns it if and only if none of the four other entities occurs in the text; in general it decodes every entity written there. |
| `Plist.DecodeBare` | crates/nostr-vpn-cli/src/service_management.rs:1033-1040 | Decoding an entity where ampersands stand for themselves decodes the character it stands for and every place where the entity was written out. |
| `Plist.EscapeIsPerCharacter` | crates/nostr-vpn-cli/src/service_management.rs:1023-1030 | The five global replaces write each character by itself. |
| `Plist.ReadingWhatWasPrinted` | crates/nostr-vpn-cli/src/macos_service.rs:169-216 | Reading a printed description gives the trimmed program path, or nothing if it is blank, whatever the other fields hold. |
| `Plist.RoundTripsExactly` | crates/nostr-vpn-cli/src/macos_service.rs:18-27 | The path comes back unchanged if and only if it is not empty and has no outer white space. |
| `Plist.AllStringsAreRead` | crates/nostr-vpn-cli/src/macos_service.rs:168-216 | Reading every string element of a printed description gives the label, the program with each of its arguments in order, and the two logs, whatever characters the fields hold. |

## Left out

- Nostr relay clients, encryption, serialisation, key parsing and hashing: foreign libraries, represented by values with stated assumptions. The hash behind animal aliases and labels is any function.
- Handshakes, sockets, hole punching, port mapping, DNS serving, process control and the graphical client: input and output without state rules of their own.
- IPv6 forwarding, macOS and Windows routing: `reconcile_linux_exit_node_forwarding` drops what it saved for IPv6 when a step fails, so nothing comparable holds there. IPv6 routes are covered up to normalisation; the data plane refuses IPv6 packets.
- AllOrNothing: assumes that restores and deletes succeed and that nobody else writes the forwarding flag; `Forwarding.CleanupIsCleanExactly` and `Forwarding.LostRestoreSticks` say what happens otherwise. Rule order within `iptables` chains is not modelled.
- OrderFreeExactly: does not cover the record of relay operators, whose own exact condition is `RelayOperators.OperatorsOrderFreeExactly`.
- PruningIsInvisible: covers cooldowns and operators. Pruning active sessions or standby queues is visible in runs, because it takes away keys and duplicates that later steps look at.
- ReconcileConserves: compares sessions by relay, endpoints and expiry, since promotion and verification rewrite their times.
- NewestRosterWins: join-request lists, aliases, the inviter and the network name are not part of what converges; they depend on the order of delivery by design.
- RunsAreSafe: join-request lists are not part of the network record, and aliases set by hand with their roster bump are no operation of the model.
- BatchProbesBest: takes discovery to name each relay once, as the map it collects does. An error in discovery or before a probe ends the batch with nothing done, and is left out.
- PassRecords: for relays about which at most one session tells; with more, `RelayOperators.OperatorsOrderFreeExactly` says when the order matters.
- RunFreshAtLastMention, RunPruneExpires: a clock that goes back may leave a path with an older selection time, so mentions are taken in order; `PathTrace.PruneKeepsExactly` needs no order.
- AliasIsValid, AliasesAreInjective, AskedLabelIsGiven, TakenLabelIsNumbered: stated for at most 9,997 members, because the label loop gives up after the counter reaches 9,999 and then reuses a label.
- ApplyAdminSignedSharedRoster: the join-request lists that an accepted roster trims are not modelled.
- EnsureDefaults: covers networks, exit node and aliases; node name, keys, endpoints and advertised routes that loading also fills in are left out.
- FillingSettlesExactly: speaks of networks, exit node and alias book, for at most 9,997 members. It assumes that npubs are read back as themselves and that deriving a mesh id is settled after one round, as the two branches of `derive_default_network_ids` are.
- BookStaysFittingExactly, RunsKeepBookExactly: stated while there are at most 9,997 members. The order in which the alias map yields its entries is any fixed function of the map.
- ParticipantResolves: lower-casing beyond ASCII is an arbitrary function, so which capitals a query may use there is left to it.
- The runtime peer lookup by tunnel key is collapsed into a map from participants to endpoint and last handshake.
- Address text: parsing and printing of addresses and prefixes are abstract; private-subnet and local-only tests are predicates on endpoint text.
- Tunnel addresses derived from a hash need not be distinct; `RouteChoice.DestinationHasOnePeer` takes their distinctness as its condition.
- The keys of the printed description between its strings, and what `iptables` makes of the texts of the three rules: both are carried as they stand.
- `systemd_quote`, `windows_command_line_quote`, status parsers and command-line handling: single-function string work.
