/** The peer path book: which endpoints a peer was seen at, where they came from, when they
    last worked, and the rule that picks one. */
module Paths {
  import opened Common

  const OBSERVED_STICKY: nat := 180

  datatype Source = Local | Public | Relay | Legacy | Observed

  function Order(s: Source): nat
  {
    match s
    case Local => 0
    case Public => 1
    case Relay => 2
    case Legacy => 3
    case Observed => 4
  }

  /** The later of two sources in the derived order. */
  function Merge(a: Source, b: Source): Source
  {
    if Order(a) >= Order(b) then a else b
  }

  function SourceRank(s: Source, sameSubnet: bool): nat
  {
    if s.Relay? then 5
    else if sameSubnet then 4
    else
      match s
      case Public => 2
      case Observed => 2
      case Legacy => 1
      case _ => 0
  }

  datatype Path = Path(source: Source, announcedAt: nat, selectedAt: Option<nat>, successAt: Option<nat>)

  function NewPath(source: Source, at: nat): Path
  {
    Path(source, at, None, None)
  }

  datatype PeerState = PeerState(current: Option<string>, endpoints: map<string, Path>)

  const NO_STATE: PeerState := PeerState(None, map[])

  type Book = map<string, PeerState>

  /** The endpoints of a peer announcement. */
  datatype Announcement = Announcement(
    endpoint: string,
    localEndpoint: Option<string>,
    publicEndpoint: Option<string>,
    relayEndpoint: Option<string>)

  /** What parsing an endpoint tells: whether its host is only reachable locally, which host it
      names, and whether two endpoints lie in one private /24. */
  datatype Net = Net(localOnly: string -> bool, host: string -> Option<string>, sameSubnet: (string, string) -> bool)

  predicate SharesSubnet(net: Net, endpoint: string, locals: seq<string>)
  {
    exists i :: 0 <= i < |locals| && net.sameSubnet(endpoint, locals[i])
  }

  function OrZero(t: Option<nat>): nat
  {
    if t.Some? then t.value else 0
  }

  function Max(a: nat, b: nat): nat
  {
    if a >= b then a else b
  }

  function Freshness(path: Path): nat
  {
    Max(Max(path.announcedAt, OrZero(path.selectedAt)), OrZero(path.successAt))
  }

  // ---- Announcements ----

  /** `announcement_endpoints`: local, public, relay, legacy; blanks and repeats are skipped. */
  function Listed(list: seq<(string, Source)>, endpoint: Option<string>, source: Source): seq<(string, Source)>
  {
    if endpoint.None? || IsBlank(endpoint.value) || (exists i :: 0 <= i < |list| && list[i].0 == endpoint.value) then list
    else list + [(endpoint.value, source)]
  }

  function AnnouncedList(ann: Announcement): seq<(string, Source)>
  {
    Listed(Listed(Listed(Listed([], ann.localEndpoint, Local), ann.publicEndpoint, Public), ann.relayEndpoint, Relay),
           Some(ann.endpoint), Legacy)
  }

  /** A list of announced endpoints as a map. */
  function AsMap(list: seq<(string, Source)>): map<string, Source>
  {
    if list == [] then map[]
    else AsMap(list[..|list| - 1])[list[|list| - 1].0 := list[|list| - 1].1]
  }

  function Announced(ann: Announcement): map<string, Source>
  {
    AsMap(AnnouncedList(ann))
  }

  /** The endpoint that an announcement tags as a relay, if any. */
  function RelayOf(ann: Announcement): Option<string>
  {
    if ann.relayEndpoint.Some? && ann.relayEndpoint.value in Announced(ann) && Announced(ann)[ann.relayEndpoint.value].Relay?
    then ann.relayEndpoint else None
  }

  /** An observed endpoint gives way to an announced one on the same host, unless it worked recently. */
  predicate Superseded(net: Net, endpoint: string, path: Path, announced: map<string, Source>, seenAt: nat)
  {
    && path.source.Observed? && !net.localOnly(endpoint)
    && !(path.successAt.Some? && SatSub(seenAt, path.successAt.value) <= OBSERVED_STICKY)
    && net.host(endpoint).Some?
    && exists a :: a in announced && !announced[a].Observed? && !net.localOnly(a) && a != endpoint
                   && net.host(a) == net.host(endpoint)
  }

  predicate Retained(net: Net, endpoint: string, path: Path, announced: map<string, Source>, seenAt: nat)
  {
    && (path.source.Relay? ==> endpoint in announced && announced[endpoint].Relay?)
    && !Superseded(net, endpoint, path, announced, seenAt)
  }

  function Survivors(net: Net, endpoints: map<string, Path>, announced: map<string, Source>, seenAt: nat): map<string, Path>
  {
    map e | e in endpoints && Retained(net, e, endpoints[e], announced, seenAt) :: endpoints[e]
  }

  /** An announced endpoint is entered, or its source and time are raised. */
  function Touched(path: Option<Path>, source: Source, seenAt: nat): Path
  {
    if path.None? then NewPath(source, seenAt)
    else path.value.(source := Merge(path.value.source, source), announcedAt := Max(path.value.announcedAt, seenAt))
  }

  function Entered(endpoints: map<string, Path>, announced: map<string, Source>, seenAt: nat): map<string, Path>
  {
    map e | e in endpoints.Keys + announced.Keys
      :: if e in announced then Touched(Lookup(endpoints, e), announced[e], seenAt) else endpoints[e]
  }

  function KeepCurrent(current: Option<string>, endpoints: map<string, Path>): Option<string>
  {
    if current.Some? && current.value in endpoints then current else None
  }

  function Refresh(net: Net, state: PeerState, ann: Announcement, seenAt: nat): PeerState
  {
    var survivors := Survivors(net, state.endpoints, Announced(ann), seenAt);
    PeerState(KeepCurrent(state.current, survivors), Entered(survivors, Announced(ann), seenAt))
  }

  /** The flag `refresh_from_announcement` returns: something was dropped or raised. A newly
      entered endpoint alone does not set it. */
  predicate RefreshReports(net: Net, state: PeerState, ann: Announcement, seenAt: nat)
  {
    var survivors := Survivors(net, state.endpoints, Announced(ann), seenAt);
    || survivors.Keys != state.endpoints.Keys
    || KeepCurrent(state.current, survivors) != state.current
    || exists e :: e in survivors && e in Announced(ann) && Touched(Some(survivors[e]), Announced(ann)[e], seenAt) != survivors[e]
  }

  // ---- Notes and prunes ----

  function NoteSelected(state: PeerState, endpoint: string, at: nat): PeerState
  {
    var path := if endpoint in state.endpoints then state.endpoints[endpoint] else NewPath(Observed, at);
    PeerState(Some(endpoint), state.endpoints[endpoint := path.(selectedAt := Some(at))])
  }

  function NoteSuccess(state: PeerState, endpoint: string, at: nat): PeerState
  {
    var path := if endpoint in state.endpoints then state.endpoints[endpoint] else NewPath(Observed, at);
    state.(endpoints := state.endpoints[endpoint := if OrZero(path.successAt) >= at then path else path.(successAt := Some(at))])
  }

  function FreshOnly(endpoints: map<string, Path>, cutoff: nat): map<string, Path>
  {
    map e | e in endpoints && Freshness(endpoints[e]) > cutoff :: endpoints[e]
  }

  function Restrict(state: PeerState, endpoints: map<string, Path>): PeerState
  {
    PeerState(KeepCurrent(state.current, endpoints), endpoints)
  }

  function PruneStale(book: Book, now: nat, staleAfter: nat): Book
  {
    if staleAfter == 0 then book
    else
      var cutoff := SatSub(now, staleAfter);
      map p | p in book && FreshOnly(book[p].endpoints, cutoff) != map[]
        :: Restrict(book[p], FreshOnly(book[p].endpoints, cutoff))
  }

  function NonRelay(endpoints: map<string, Path>): map<string, Path>
  {
    map e | e in endpoints && !endpoints[e].source.Relay? :: endpoints[e]
  }

  function RemoveRelayPaths(book: Book, p: string): Book
  {
    if p !in book then book
    else if NonRelay(book[p].endpoints) == map[] then book - {p}
    else book[p := Restrict(book[p], NonRelay(book[p].endpoints))]
  }

  function StateOf(book: Book, p: string): PeerState
  {
    if p in book then book[p] else NO_STATE
  }

  // ---- Selection ----

  /** `select_peer_endpoint_from_local_endpoints`. */
  function DefaultEndpoint(net: Net, ann: Announcement, locals: seq<string>): string
  {
    if ann.localEndpoint.Some? && SharesSubnet(net, ann.localEndpoint.value, locals) then ann.localEndpoint.value
    else if ann.publicEndpoint.Some? && !IsBlank(ann.publicEndpoint.value) then ann.publicEndpoint.value
    else ann.endpoint
  }

  /** The time of the last success, if it still says anything about this network. */
  function ProvenAt(net: Net, endpoint: string, path: Path, locals: seq<string>): nat
  {
    if path.successAt.Some? && (!net.localOnly(endpoint) || SharesSubnet(net, endpoint, locals)) then path.successAt.value else 0
  }

  datatype Rank = Rank(provenAt: nat, source: nat, isDefault: nat, announcedAt: nat)

  function RankOf(net: Net, endpoint: string, path: Path, locals: seq<string>, default: string): Rank
  {
    Rank(
      ProvenAt(net, endpoint, path, locals),
      SourceRank(path.source, SharesSubnet(net, endpoint, locals)),
      if endpoint == default then 1 else 0,
      path.announcedAt)
  }

  predicate AtMost(a: Rank, b: Rank)
  {
    || a.provenAt < b.provenAt
    || (a.provenAt == b.provenAt && a.source < b.source)
    || (a.provenAt == b.provenAt && a.source == b.source && a.isDefault < b.isDefault)
    || (a.provenAt == b.provenAt && a.source == b.source && a.isDefault == b.isDefault && a.announcedAt <= b.announcedAt)
  }

  /** The endpoints of maximal rank; `max_by_key` over the hash map returns one of them. */
  function Best(net: Net, endpoints: map<string, Path>, locals: seq<string>, default: string): set<string>
  {
    set e | e in endpoints
      && forall f :: f in endpoints ==> AtMost(RankOf(net, f, endpoints[f], locals, default), RankOf(net, e, endpoints[e], locals, default))
  }

  /** A tie-break: any fixed way of choosing from a non-empty set. */
  type TieBreak = set<string> -> string

  ghost predicate Chooses(pick: TieBreak)
  {
    forall s: set<string> :: s != {} ==> pick(s) in s
  }

  predicate OffSubnetLocal(net: Net, endpoint: string, locals: seq<string>)
  {
    net.localOnly(endpoint) && !SharesSubnet(net, endpoint, locals)
  }

  /** Whether the retry window of the current endpoint has passed. */
  predicate MayRotate(path: Path, now: nat, retryAfter: nat)
  {
    path.selectedAt.None? || SatSub(now, path.selectedAt.value) >= retryAfter
  }

  function Select(net: Net, pick: TieBreak, state: PeerState, ann: Announcement, locals: seq<string>, now: nat, retryAfter: nat): string
  {
    var default := DefaultEndpoint(net, ann, locals);
    if state.endpoints == map[] then default
    else
      var preferred := pick(Best(net, state.endpoints, locals, default));
      if state.current.None? || state.current.value !in state.endpoints then preferred
      else
        var current := state.current.value;
        if current == preferred || OffSubnetLocal(net, current, locals) then preferred
        else
          var provenAt := ProvenAt(net, current, state.endpoints[current], locals);
          var rival := if preferred in state.endpoints then ProvenAt(net, preferred, state.endpoints[preferred], locals) else 0;
          if provenAt > 0 then if rival > provenAt then preferred else current
          else if MayRotate(state.endpoints[current], now, retryAfter) then preferred
          else current
  }
}
