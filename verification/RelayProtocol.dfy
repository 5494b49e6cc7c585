/** The relay fallback as a state machine: the request batch of the announce tick,
    grants, rejections, the reconcile pass of the state tick, the prunes and the
    pause, each a step at a clock time. */
module RelayProtocol {
  import opened Common
  import opened RelayState
  import opened RelayReconcile
  import Decimal

  // ---- Choosing relays ----

  function InsertByKey(book: ProviderBook, now: nat, x: string, xs: seq<string>): (r: seq<string>)
    ensures multiset(r) == multiset(xs) + multiset{x}
  {
    if xs == [] || KeyAtMost(ProviderSortKey(book, x, now), ProviderSortKey(book, xs[0], now)) then [x] + xs
    else
      assert xs == [xs[0]] + xs[1..];
      [xs[0]] + InsertByKey(book, now, x, xs[1..])
  }

  /** `sort_by_key(relay_provider_sort_key)`: a stable sort. */
  function SortByKey(book: ProviderBook, now: nat, xs: seq<string>): (r: seq<string>)
    ensures multiset(r) == multiset(xs)
  {
    if xs == [] then []
    else
      assert xs == [xs[0]] + xs[1..];
      InsertByKey(book, now, xs[0], SortByKey(book, now, xs[1..]))
  }

  /** `dedup()`: drops an element equal to its predecessor. */
  function DedupAdjacent(xs: seq<string>): seq<string>
  {
    if |xs| < 2 then xs
    else if xs[0] == xs[1] then DedupAdjacent(xs[1..])
    else [xs[0]] + DedupAdjacent(xs[1..])
  }

  function OutOfCooldown(book: ProviderBook, now: nat, xs: seq<string>): seq<string>
  {
    if xs == [] then []
    else (if ProviderInCooldown(book, xs[0], now) then [] else [xs[0]]) + OutOfCooldown(book, now, xs[1..])
  }

  function Pool(book: ProviderBook, now: nat, relays: seq<string>): seq<string>
  {
    DedupAdjacent(SortByKey(book, now, OutOfCooldown(book, now, relays)))
  }

  function Take(xs: seq<string>, n: nat): seq<string>
  {
    if |xs| <= n then xs else xs[..n]
  }

  function Eligible(pool: seq<string>, participant: string, own: Option<string>, failures: Failures, book: ProviderBook, now: nat): seq<string>
  {
    if pool == [] then []
    else
      (if pool[0] != participant && Some(pool[0]) != own
          && !InCooldown(failures, participant, pool[0], now) && !ProviderInCooldown(book, pool[0], now)
       then [pool[0]] else [])
      + Eligible(pool[1..], participant, own, failures, book, now)
  }

  function Candidates(pool: seq<string>, participant: string, own: Option<string>, failures: Failures, book: ProviderBook, now: nat): seq<string>
  {
    Take(SortByKey(book, now, Eligible(pool, participant, own, failures, book, now)), MAX_REQUESTS_PER_PARTICIPANT)
  }

  // ---- Probing providers ----

  datatype ProbeOutcome = ProbeVerified | ProbeRejected(retryAfter: Option<nat>) | ProbeFailed

  function Due(book: ProviderBook, now: nat, relays: seq<string>): seq<string>
  {
    if relays == [] then []
    else (if ProbeDue(book, relays[0], now) then [relays[0]] else []) + Due(book, now, relays[1..])
  }

  function ProbeAll(book: ProviderBook, now: nat, relays: seq<string>, outcome: string -> ProbeOutcome): ProviderBook
    decreases relays
  {
    if relays == [] then book
    else
      var tried := NoteProbe(book, relays[0], now);
      var next :=
        match outcome(relays[0])
        case ProbeVerified => NoteVerified(tried, relays[0], now)
        case ProbeRejected(retry) => NoteProviderFailed(tried, relays[0], now, retry)
        case ProbeFailed => NoteProviderFailed(tried, relays[0], now, Some(PROVIDER_PROBE_RETRY_AFTER));
      ProbeAll(next, now, relays[1..], outcome)
  }

  // ---- The request batch ----

  /** Everything a batch reads from outside the relay books: the active network, the local key,
      the configured peers that have an announcement and no recent handshake, the relays found by
      discovery, how probes turn out, and after how many publications the client fails. */
  datatype Ask = Ask(
    network: string,
    own: Option<string>,
    peers: seq<string>,
    discovered: seq<string>,
    outcome: string -> ProbeOutcome,
    published: nat)

  datatype Request = Request(participant: string, relay: string)

  function RequestId(network: string, r: Request, now: nat): string
  {
    network + ":" + r.participant + ":" + r.relay + ":" + Decimal.Print(now)
  }

  predicate HasRecentRequest(pending: map<string, Pending>, participant: string, now: nat)
  {
    exists id :: id in pending && pending[id].participant == participant
                 && SatSub(now, pending[id].requestedAt) < REQUEST_RETRY_AFTER
  }

  predicate NeedsRelay(st: State, participant: string, now: nat)
  {
    && !(participant in st.sessions && IsActive(st.sessions[participant], now))
    && !HasRecentRequest(st.pending, participant, now)
  }

  function Needing(st: State, peers: seq<string>, now: nat): seq<string>
  {
    if peers == [] then []
    else (if NeedsRelay(st, peers[0], now) then [peers[0]] else []) + Needing(st, peers[1..], now)
  }

  function RequestsTo(participant: string, relays: seq<string>): (r: seq<Request>)
    ensures |r| == |relays| && forall k :: 0 <= k < |r| ==> r[k] == Request(participant, relays[k])
  {
    seq(|relays|, k requires 0 <= k < |relays| => Request(participant, relays[k]))
  }

  function AllRequests(participants: seq<string>, pool: seq<string>, own: Option<string>, failures: Failures, book: ProviderBook, now: nat): seq<Request>
  {
    if participants == [] then []
    else
      RequestsTo(participants[0], Candidates(pool, participants[0], own, failures, book, now))
      + AllRequests(participants[1..], pool, own, failures, book, now)
  }

  function Found(st: State, ask: Ask, now: nat): seq<string>
  {
    Pool(st.providers, now, ask.discovered)
  }

  /** The provider book after probing the first providers that are due. */
  function Probed(st: State, ask: Ask, now: nat): ProviderBook
  {
    ProbeAll(st.providers, now, Take(Due(st.providers, now, Found(st, ask, now)), MAX_PROVIDER_PROBES), ask.outcome)
  }

  function Wanted(st: State, ask: Ask, now: nat): seq<Request>
  {
    var book := Probed(st, ask, now);
    AllRequests(Needing(st, ask.peers, now), Pool(book, now, Found(st, ask, now)), ask.own, st.failures, book, now)
  }

  /** The probes made and the requests published by one batch. */
  function Plan(st: State, ask: Ask, now: nat): (ProviderBook, seq<Request>)
  {
    if Needing(st, ask.peers, now) == [] || Found(st, ask, now) == [] then (st.providers, [])
    else
      var wanted := Wanted(st, ask, now);
      (Probed(st, ask, now), wanted[..Min(ask.published, |wanted|)])
  }

  function Record(pending: map<string, Pending>, network: string, requests: seq<Request>, now: nat): map<string, Pending>
  {
    if requests == [] then pending
    else
      var last := |requests| - 1;
      var r := requests[last];
      Record(pending, network, requests[..last], now)[RequestId(network, r, now) := Pending(r.participant, r.relay, now)]
  }

  // ---- Grants and rejections ----

  datatype Grant = Grant(id: string, relay: string, requesterIngress: string, targetIngress: string, expiresAt: nat)

  function SessionFrom(g: Grant, now: nat): Session
  {
    Session(g.relay, g.requesterIngress, g.targetIngress, now, None, g.expiresAt)
  }

  datatype Output =
    | Quiet
    | Requested(requests: seq<Request>)
    | Activated(participant: string)
    | QueuedStandby(participant: string)
    | Ignored
    | Rejection(blamed: Option<string>)
    | Retired(participants: seq<string>)

  function AcceptGrant(st: State, g: Grant, now: nat): (State, Output)
  {
    if g.expiresAt <= now || g.id !in st.pending then (st, Ignored)
    else
      var request := st.pending[g.id];
      var taken := st.(pending := st.pending - {g.id});
      var p := request.participant;
      if request.relay != g.relay || InCooldown(st.failures, p, request.relay, now) then (taken, Ignored)
      else if p in st.sessions && IsActive(st.sessions[p], now) then
        var (standby, queued) := QueueStandby(st.standby, p, SessionFrom(g, now));
        (taken.(standby := standby), if queued then QueuedStandby(p) else Ignored)
      else
        (taken.(sessions := st.sessions[p := SessionFrom(g, now)]), Activated(p))
  }

  function AcceptRejection(st: State, id: string, relay: string, retryAfter: Option<nat>, now: nat): (State, Output)
  {
    if id !in st.pending then (st, Rejection(None))
    else
      var request := st.pending[id];
      var taken := st.(pending := st.pending - {id});
      if request.relay != relay then (taken, Rejection(None))
      else
        (taken.(
           failures := NoteFailed(st.failures, request.participant, request.relay, now),
           providers := NoteProviderFailed(st.providers, request.relay, now, retryAfter)),
         Rejection(Some(request.participant)))
  }

  // ---- Steps and runs ----

  datatype Event =
    | AnnounceRequests(now: nat, ask: Ask)
    | GrantArrives(now: nat, grant: Grant)
    | RejectionArrives(now: nat, id: string, relay: string, retryAfter: Option<nat>)
    | StateTick(now: nat, peers: RuntimePeers, order: seq<string>)
    | ExpireSessions(now: nat)
    | ExpireStandby(now: nat)
    | ExpireFailures(now: nat)
    | ExpireProviders(now: nat)
    | Pause(now: nat)

  /** The announce tick prunes the pending requests and then issues the batch. */
  function RequestBatch(st: State, ask: Ask, now: nat): (State, Output)
  {
    var kept := st.(pending := PrunePending(st.pending, now));
    var (book, requests) := Plan(kept, ask, now);
    (kept.(providers := book, pending := Record(kept.pending, ask.network, requests, now)), Requested(requests))
  }

  function Step(st: State, e: Event): (State, Output)
  {
    match e
    case AnnounceRequests(now, ask) => RequestBatch(st, ask, now)
    case GrantArrives(now, grant) => AcceptGrant(st, grant, now)
    case RejectionArrives(now, id, relay, retryAfter) => AcceptRejection(st, id, relay, retryAfter, now)
    case StateTick(now, peers, order) =>
      var (end, changed) := Reconcile(st, peers, now, order);
      (end, Retired(changed))
    case ExpireSessions(now) => (st.(sessions := PruneSessions(st.sessions, now)), Quiet)
    case ExpireStandby(now) => (st.(standby := PruneStandby(st.standby, now)), Quiet)
    case ExpireFailures(now) => (st.(failures := PruneFailures(st.failures, now)), Quiet)
    case ExpireProviders(now) => (st.(providers := PruneProviders(st.providers, now)), Quiet)
    case Pause(_) => (EMPTY, Quiet)
  }

  function Run(st: State, events: seq<Event>): State
  {
    if events == [] then st
    else
      var last := |events| - 1;
      Step(Run(st, events[..last]), events[last]).0
  }

  /** The clock never goes back along a run. */
  ghost predicate InOrder(events: seq<Event>)
  {
    forall i, j :: 0 <= i < j < |events| ==> events[i].now <= events[j].now
  }
}
