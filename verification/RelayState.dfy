/** The books of the public-relay fallback and the pure operations on them:
    session predicates, failure cooldowns, the provider verification book, the
    standby queues and the prunes. */
module RelayState {
  import opened Common

  const REQUEST_RETRY_AFTER: nat := 30
  const REQUEST_TIMEOUT: nat := 120
  const SESSION_VERIFY_TIMEOUT: nat := 8
  const FAILED_RETRY_AFTER: nat := 60
  const PROVIDER_MAX_COOLDOWN: nat := 900
  const PROVIDER_PROBE_RETRY_AFTER: nat := 60
  const MAX_PROVIDER_PROBES: nat := 2
  const MAX_REQUESTS_PER_PARTICIPANT: nat := 3
  const U32_MAX: nat := 0xFFFF_FFFF

  datatype Session = Session(
    relay: string,
    localIngress: string,
    advertisedIngress: string,
    grantedAt: nat,
    verifiedAt: Option<nat>,
    expiresAt: nat)

  datatype Pending = Pending(participant: string, relay: string, requestedAt: nat)

  datatype Provider = Provider(
    verifiedAt: Option<nat>,
    cooldownUntil: Option<nat>,
    lastFailureAt: Option<nat>,
    lastProbeAt: Option<nat>,
    consecutiveFailures: nat)

  type Failures = map<string, nat>
  type ProviderBook = map<string, Provider>
  type Queues = map<string, seq<Session>>

  datatype State = State(
    sessions: map<string, Session>,
    standby: Queues,
    failures: Failures,
    providers: ProviderBook,
    pending: map<string, Pending>)

  const EMPTY: State := State(map[], map[], map[], map[], map[])
  const FRESH_PROVIDER: Provider := Provider(None, None, None, None, 0)

  // ---- Sessions ----

  predicate IsActive(s: Session, now: nat)
  {
    s.expiresAt > now && !IsBlank(s.localIngress) && !IsBlank(s.advertisedIngress)
  }

  predicate TimedOut(s: Session, now: nat)
  {
    s.verifiedAt.None? && SatSub(now, s.grantedAt) >= SESSION_VERIFY_TIMEOUT
  }

  predicate SameEndpoints(a: Session, b: Session)
  {
    a.relay == b.relay && a.localIngress == b.localIngress && a.advertisedIngress == b.advertisedIngress
  }

  // ---- Failure cooldowns per (participant, relay) ----

  function FailureKey(participant: string, relay: string): string
  {
    participant + ":" + relay
  }

  predicate InCooldown(failures: Failures, participant: string, relay: string, now: nat)
  {
    var key := FailureKey(participant, relay);
    key in failures && failures[key] > now
  }

  function NoteFailed(failures: Failures, participant: string, relay: string, now: nat): Failures
  {
    failures[FailureKey(participant, relay) := now + FAILED_RETRY_AFTER]
  }

  function PruneFailures(failures: Failures, now: nat): Failures
  {
    map k | k in failures && failures[k] > now :: failures[k]
  }

  // ---- Provider verifications ----

  function ProviderOf(book: ProviderBook, relay: string): Provider
  {
    if relay in book then book[relay] else FRESH_PROVIDER
  }

  predicate ProviderInCooldown(book: ProviderBook, relay: string, now: nat)
  {
    relay in book && book[relay].cooldownUntil.Some? && book[relay].cooldownUntil.value > now
  }

  function NoteVerified(book: ProviderBook, relay: string, now: nat): ProviderBook
  {
    book[relay := Provider(Some(now), None, None, Some(now), 0)]
  }

  function NoteProbe(book: ProviderBook, relay: string, now: nat): ProviderBook
  {
    book[relay := ProviderOf(book, relay).(lastProbeAt := Some(now))]
  }

  function Min(a: nat, b: nat): nat
  {
    if a <= b then a else b
  }

  /** `1_u64 << shift`, for the shifts 0 to 4 that occur. */
  function Multiplier(shift: nat): nat
    requires shift <= 4
  {
    match shift
    case 0 => 1
    case 1 => 2
    case 2 => 4
    case 3 => 8
    case _ => 16
  }

  function Cooldown(failures: nat, retryAfter: Option<nat>): nat
  {
    var wanted := if retryAfter.Some? then retryAfter.value else FAILED_RETRY_AFTER;
    var base := if wanted < 1 then 1 else wanted;
    Min(base * Multiplier(Min(SatSub(failures, 1), 4)), PROVIDER_MAX_COOLDOWN)
  }

  function NoteProviderFailed(book: ProviderBook, relay: string, now: nat, retryAfter: Option<nat>): ProviderBook
  {
    var entry := ProviderOf(book, relay);
    var failures := Min(entry.consecutiveFailures + 1, U32_MAX);
    book[relay := entry.(
      lastFailureAt := Some(now),
      lastProbeAt := Some(now),
      consecutiveFailures := failures,
      cooldownUntil := Some(now + Cooldown(failures, retryAfter)))]
  }

  predicate ProbeDue(book: ProviderBook, relay: string, now: nat)
  {
    if relay !in book then true
    else
      var entry := book[relay];
      && entry.verifiedAt.None?
      && !(entry.cooldownUntil.Some? && entry.cooldownUntil.value > now)
      && (entry.lastProbeAt.Some? ==> SatSub(now, entry.lastProbeAt.value) >= PROVIDER_PROBE_RETRY_AFTER)
  }

  function ClearExpiredCooldown(entry: Provider, now: nat): Provider
  {
    if entry.cooldownUntil.Some? && entry.cooldownUntil.value <= now then entry.(cooldownUntil := None) else entry
  }

  predicate WorthKeeping(entry: Provider)
  {
    entry.verifiedAt.Some? || entry.cooldownUntil.Some? || entry.lastFailureAt.Some? || entry.lastProbeAt.Some?
  }

  function PruneProviders(book: ProviderBook, now: nat): ProviderBook
  {
    map relay | relay in book && WorthKeeping(ClearExpiredCooldown(book[relay], now))
      :: ClearExpiredCooldown(book[relay], now)
  }

  /** `relay_provider_sort_key`: class, then the most recent verification, then the oldest failure. */
  datatype SortKey = SortKey(rank: nat, verified: nat, failed: nat)

  function ProviderSortKey(book: ProviderBook, relay: string, now: nat): SortKey
  {
    if relay !in book then SortKey(1, 0, 0)
    else
      var entry := book[relay];
      var failed := if entry.lastFailureAt.Some? then entry.lastFailureAt.value else 0;
      if entry.cooldownUntil.Some? && entry.cooldownUntil.value > now then SortKey(2, 0, failed)
      else if entry.verifiedAt.Some? then SortKey(0, entry.verifiedAt.value, failed)
      else SortKey(1, 0, failed)
  }

  /** Tuple order of `(u8, Reverse<u64>, u64)`. */
  predicate KeyAtMost(a: SortKey, b: SortKey)
  {
    || a.rank < b.rank
    || (a.rank == b.rank && a.verified > b.verified)
    || (a.rank == b.rank && a.verified == b.verified && a.failed <= b.failed)
  }

  // ---- Standby queues ----

  predicate Usable(s: Session, failures: Failures, participant: string, now: nat)
  {
    IsActive(s, now) && !InCooldown(failures, participant, s.relay, now)
  }

  /** Index of the first usable session, or the length of the queue if there is none. */
  function NextUsable(queue: seq<Session>, failures: Failures, participant: string, now: nat): (i: nat)
    ensures i <= |queue|
    ensures i < |queue| ==> Usable(queue[i], failures, participant, now)
    ensures forall k :: 0 <= k < i ==> !Usable(queue[k], failures, participant, now)
  {
    if queue == [] || Usable(queue[0], failures, participant, now) then 0
    else 1 + NextUsable(queue[1..], failures, participant, now)
  }

  function Promote(s: Session, now: nat): Session
  {
    s.(grantedAt := now, verifiedAt := None)
  }

  function Remove<T>(xs: seq<T>, i: nat): seq<T>
    requires i < |xs|
  {
    xs[..i] + xs[i + 1..]
  }

  /** The session that a pop would promote. */
  function PopResult(standby: Queues, failures: Failures, participant: string, now: nat): Option<Session>
  {
    if participant !in standby then None
    else
      var queue := standby[participant];
      var i := NextUsable(queue, failures, participant, now);
      if i < |queue| then Some(Promote(queue[i], now)) else None
  }

  /** The queues after a pop: the promoted session is gone, and so is a queue it leaves empty. */
  function PopRest(standby: Queues, failures: Failures, participant: string, now: nat): Queues
  {
    if participant !in standby then standby
    else
      var queue := standby[participant];
      var i := NextUsable(queue, failures, participant, now);
      if i == |queue| then standby
      else if |queue| == 1 then standby - {participant}
      else standby[participant := Remove(queue, i)]
  }

  function QueueOf(standby: Queues, participant: string): seq<Session>
  {
    if participant in standby then standby[participant] else []
  }

  predicate HoldsMatch(queue: seq<Session>, s: Session)
  {
    exists k :: 0 <= k < |queue| && SameEndpoints(queue[k], s)
  }

  function QueueStandby(standby: Queues, participant: string, session: Session): (Queues, bool)
  {
    var queue := QueueOf(standby, participant);
    if HoldsMatch(queue, session) then (standby[participant := queue], false)
    else (standby[participant := queue + [session]], true)
  }

  function ActiveOnly(queue: seq<Session>, now: nat): seq<Session>
  {
    if queue == [] then []
    else (if IsActive(queue[0], now) then [queue[0]] else []) + ActiveOnly(queue[1..], now)
  }

  function PruneStandby(standby: Queues, now: nat): Queues
  {
    map p | p in standby && ActiveOnly(standby[p], now) != [] :: ActiveOnly(standby[p], now)
  }

  // ---- Active sessions and pending requests ----

  function PruneSessions(sessions: map<string, Session>, now: nat): map<string, Session>
  {
    map p | p in sessions && IsActive(sessions[p], now) :: sessions[p]
  }

  function PrunePending(pending: map<string, Pending>, now: nat): map<string, Pending>
  {
    map id | id in pending && SatSub(now, pending[id].requestedAt) < REQUEST_TIMEOUT :: pending[id]
  }

  function DropRequestsOf(pending: map<string, Pending>, participant: string): map<string, Pending>
  {
    map id | id in pending && pending[id].participant != participant :: pending[id]
  }

  // ---- What the tunnel runtime reports about a peer ----

  /** A WireGuard peer's endpoint and the time of its last handshake, as seen at `now`. */
  datatype Runtime = Runtime(endpoint: Option<string>, handshakeAt: Option<nat>)

  /** The peers that have both an announcement and a runtime entry, by participant. */
  type RuntimePeers = map<string, Runtime>

  function VerifiedBy(peers: RuntimePeers, participant: string, s: Session): Option<nat>
  {
    if participant in peers
       && peers[participant].endpoint == Some(s.localIngress)
       && peers[participant].handshakeAt.Some?
       && peers[participant].handshakeAt.value >= s.grantedAt
    then peers[participant].handshakeAt
    else None
  }
}
