/** Invariants of the path book over every run of refreshes, notes and prunes. */
module PathRuns {
  import opened Common
  import opened Paths

  datatype Op =
    | Refreshed(participant: string, ann: Announcement, seenAt: nat)
    | Selected(participant: string, endpoint: string, at: nat)
    | Succeeded(participant: string, endpoint: string, at: nat)
    | Pruned(now: nat, staleAfter: nat)
    | Retain(participants: set<string>)
    | DropRelays(participant: string)
    | Clear

  function Apply(net: Net, book: Book, op: Op): Book
  {
    match op
    case Refreshed(p, ann, seenAt) => book[p := Refresh(net, StateOf(book, p), ann, seenAt)]
    case Selected(p, e, at) => book[p := NoteSelected(StateOf(book, p), e, at)]
    case Succeeded(p, e, at) => book[p := NoteSuccess(StateOf(book, p), e, at)]
    case Pruned(now, staleAfter) => PruneStale(book, now, staleAfter)
    case Retain(participants) => map p | p in book && p in participants :: book[p]
    case DropRelays(p) => RemoveRelayPaths(book, p)
    case Clear => map[]
  }

  function Run(net: Net, book: Book, ops: seq<Op>): Book
  {
    if ops == [] then book
    else Apply(net, Run(net, book, ops[..|ops| - 1]), ops[|ops| - 1])
  }

  // ---- Announcements tag one relay ----

  /** At most one listed endpoint is tagged as a relay, and it is the announced one. */
  ghost predicate RelayTagged(list: seq<(string, Source)>, relay: Option<string>)
  {
    && (forall i :: 0 <= i < |list| && list[i].1.Relay? ==> relay == Some(list[i].0))
    && (forall i, j :: 0 <= i < j < |list| ==> list[i].0 != list[j].0)
  }

  lemma ListedKeepsTag(list: seq<(string, Source)>, endpoint: Option<string>, source: Source, relay: Option<string>)
    requires RelayTagged(list, relay) && (source.Relay? ==> endpoint == relay)
    ensures RelayTagged(Listed(list, endpoint, source), relay)
  {
  }

  lemma {:induction false} AsMapEntries(list: seq<(string, Source)>, e: string)
    requires e in AsMap(list)
    ensures exists i :: 0 <= i < |list| && list[i] == (e, AsMap(list)[e])
  {
    var last := |list| - 1;
    if list[last].0 != e {
      AsMapEntries(list[..last], e);
      var i :| 0 <= i < last && list[..last][i] == (e, AsMap(list[..last])[e]);
      assert list[i] == (e, AsMap(list)[e]);
    }
  }

  /** The only endpoint an announcement tags as a relay is `RelayOf`. */
  lemma RelayIsUnique(ann: Announcement, e: string)
    requires e in Announced(ann) && Announced(ann)[e].Relay?
    ensures RelayOf(ann) == Some(e)
  {
    hide Listed;
    var a := Listed([], ann.localEndpoint, Local);
    var b := Listed(a, ann.publicEndpoint, Public);
    var c := Listed(b, ann.relayEndpoint, Relay);
    ListedKeepsTag([], ann.localEndpoint, Local, ann.relayEndpoint);
    ListedKeepsTag(a, ann.publicEndpoint, Public, ann.relayEndpoint);
    ListedKeepsTag(b, ann.relayEndpoint, Relay, ann.relayEndpoint);
    ListedKeepsTag(c, Some(ann.endpoint), Legacy, ann.relayEndpoint);
    AsMapEntries(AnnouncedList(ann), e);
  }

  // ---- Invariants ----

  /** The relay endpoint of the last announcement refreshed for a participant. */
  function LastRelay(ops: seq<Op>, p: string): Option<string>
  {
    if ops == [] then None
    else
      match ops[|ops| - 1]
      case Refreshed(q, ann, _) => if q == p then RelayOf(ann) else LastRelay(ops[..|ops| - 1], p)
      case _ => LastRelay(ops[..|ops| - 1], p)
  }

  /** The current endpoint is tracked and every relay path is the given one. */
  ghost predicate Sane(state: PeerState, relay: Option<string>)
  {
    && (state.current.Some? ==> state.current.value in state.endpoints)
    && (forall e :: e in state.endpoints && state.endpoints[e].source.Relay? ==> relay == Some(e))
  }

  ghost predicate SaneBook(book: Book, ops: seq<Op>)
  {
    forall p :: p in book ==> Sane(book[p], LastRelay(ops, p))
  }

  lemma RefreshIsSane(net: Net, state: PeerState, ann: Announcement, seenAt: nat, relay: Option<string>)
    requires Sane(state, relay)
    ensures Sane(Refresh(net, state, ann, seenAt), RelayOf(ann))
  {
    var after := Refresh(net, state, ann, seenAt);
    forall e | e in after.endpoints && after.endpoints[e].source.Relay? ensures RelayOf(ann) == Some(e) {
      if e in Announced(ann) && Announced(ann)[e].Relay? { RelayIsUnique(ann, e); }
    }
  }

  lemma NotesAreSane(state: PeerState, e: string, at: nat, relay: Option<string>)
    requires Sane(state, relay)
    ensures Sane(NoteSelected(state, e, at), relay) && Sane(NoteSuccess(state, e, at), relay)
  {
  }

  lemma RestrictIsSane(state: PeerState, endpoints: map<string, Path>, relay: Option<string>)
    requires Sane(state, relay) && forall e :: e in endpoints ==> e in state.endpoints && endpoints[e] == state.endpoints[e]
    ensures Sane(Restrict(state, endpoints), relay)
  {
  }

  lemma ApplyIsSane(net: Net, book: Book, before: seq<Op>, op: Op)
    requires SaneBook(book, before)
    ensures SaneBook(Apply(net, book, op), before + [op])
  {
    hide Sane, Refresh, NoteSelected, NoteSuccess, FreshOnly, NonRelay, Restrict;
    var after, ops := Apply(net, book, op), before + [op];
    assert ops[..|ops| - 1] == before;
    forall p | p in after ensures Sane(after[p], LastRelay(ops, p)) {
      EmptyIsSane(LastRelay(before, p));
      var state := StateOf(book, p);
      assert Sane(state, LastRelay(before, p));
      match op
      case Refreshed(_, ann, seenAt) => RefreshIsSane(net, state, ann, seenAt, LastRelay(before, p));
      case Selected(_, e, at) => NotesAreSane(state, e, at, LastRelay(before, p));
      case Succeeded(_, e, at) => NotesAreSane(state, e, at, LastRelay(before, p));
      case Pruned(now, staleAfter) => FreshIsSane(state, SatSub(now, staleAfter), LastRelay(before, p));
      case DropRelays(_) => NonRelayIsSane(state, LastRelay(before, p));
      case _ =>
    }
  }

  lemma EmptyIsSane(relay: Option<string>)
    ensures Sane(NO_STATE, relay)
  {
  }

  lemma FreshIsSane(state: PeerState, cutoff: nat, relay: Option<string>)
    requires Sane(state, relay)
    ensures Sane(Restrict(state, FreshOnly(state.endpoints, cutoff)), relay)
  {
    RestrictIsSane(state, FreshOnly(state.endpoints, cutoff), relay);
  }

  lemma NonRelayIsSane(state: PeerState, relay: Option<string>)
    requires Sane(state, relay)
    ensures Sane(Restrict(state, NonRelay(state.endpoints)), relay)
  {
    RestrictIsSane(state, NonRelay(state.endpoints), relay);
  }

  /** After every run from the empty book the current endpoint of each peer is tracked, and at most
      one path of each peer is a relay path: that of the last announcement refreshed for it. */
  lemma {:induction false} RunsAreSane(net: Net, ops: seq<Op>)
    ensures SaneBook(Run(net, map[], ops), ops)
  {
    RunUnfolds(net, ops);
    if ops != [] {
      hide Apply, SaneBook, Run;
      var before := ops[..|ops| - 1];
      RunsAreSane(net, before);
      ApplyIsSane(net, Run(net, map[], before), before, ops[|ops| - 1]);
      assert ops == before + [ops[|ops| - 1]];
    }
  }

  lemma {:induction false} RunUnfolds(net: Net, ops: seq<Op>)
    ensures ops == [] ==> Run(net, map[], ops) == map[]
    ensures ops != [] ==> Run(net, map[], ops) == Apply(net, Run(net, map[], ops[..|ops| - 1]), ops[|ops| - 1])
  {
    hide Apply;
  }

  // ---- Times and sources only rise ----

  /** The operation does not throw the path away, even to enter it anew in the same step. */
  predicate Keeps(net: Net, book: Book, op: Op, p: string, e: string)
  {
    && p in book && e in book[p].endpoints
    && p in Apply(net, book, op) && e in Apply(net, book, op)[p].endpoints
    && (op.Refreshed? && op.participant == p ==>
          Retained(net, e, book[p].endpoints[e], Announced(op.ann), op.seenAt))
  }

  ghost predicate Rises(a: Path, b: Path)
  {
    Order(a.source) <= Order(b.source) && a.announcedAt <= b.announcedAt && OrZero(a.successAt) <= OrZero(b.successAt)
  }

  lemma {:induction false} StepRises(net: Net, book: Book, op: Op, p: string, e: string)
    requires Keeps(net, book, op, p, e)
    ensures Rises(book[p].endpoints[e], Apply(net, book, op)[p].endpoints[e])
  {
    if op.Refreshed? && op.participant == p {
      hide Announced;
      var survivors := Survivors(net, book[p].endpoints, Announced(op.ann), op.seenAt);
      assert e in survivors && survivors[e] == book[p].endpoints[e];
    }
  }

  /** The path is tracked throughout the run, never dropped on the way. */
  predicate KeptThroughout(net: Net, book: Book, ops: seq<Op>, p: string, e: string)
  {
    if ops == [] then p in book && e in book[p].endpoints
    else
      && KeptThroughout(net, book, ops[..|ops| - 1], p, e)
      && Keeps(net, Run(net, book, ops[..|ops| - 1]), ops[|ops| - 1], p, e)
  }

  /** While a path stays tracked, its source, announcement time and success time never go down. */
  lemma {:induction false} RunsRise(net: Net, book: Book, ops: seq<Op>, p: string, e: string)
    requires KeptThroughout(net, book, ops, p, e)
    ensures var after := Run(net, book, ops);
            && p in book && e in book[p].endpoints && p in after && e in after[p].endpoints
            && Rises(book[p].endpoints[e], after[p].endpoints[e])
  {
    if ops != [] {
      var before := ops[..|ops| - 1];
      RunsRise(net, book, before, p, e);
      StepRises(net, Run(net, book, before), ops[|ops| - 1], p, e);
    }
  }

  // ---- Refreshing is idempotent ----

  /** What a refresh leaves is retained by the same refresh. */
  lemma {:induction false} EnteredIsRetained(net: Net, endpoints: map<string, Path>, announced: map<string, Source>, seenAt: nat, e: string)
    requires forall a :: a in announced ==> !announced[a].Observed?
    requires e in Entered(Survivors(net, endpoints, announced, seenAt), announced, seenAt)
    ensures Retained(net, e, Entered(Survivors(net, endpoints, announced, seenAt), announced, seenAt)[e], announced, seenAt)
  {
  }

  lemma TouchTwice(path: Option<Path>, source: Source, seenAt: nat)
    ensures Touched(Some(Touched(path, source, seenAt)), source, seenAt) == Touched(path, source, seenAt)
  {
  }

  lemma {:induction false} NeverObserved(ann: Announcement, e: string)
    requires e in Announced(ann)
    ensures !Announced(ann)[e].Observed?
  {
    hide Listed;
    var a := Listed([], ann.localEndpoint, Local);
    var b := Listed(a, ann.publicEndpoint, Public);
    var c := Listed(b, ann.relayEndpoint, Relay);
    ListedIsTagged([], ann.localEndpoint, Local);
    ListedIsTagged(a, ann.publicEndpoint, Public);
    ListedIsTagged(b, ann.relayEndpoint, Relay);
    ListedIsTagged(c, Some(ann.endpoint), Legacy);
    AsMapEntries(AnnouncedList(ann), e);
  }

  lemma ListedIsTagged(list: seq<(string, Source)>, endpoint: Option<string>, source: Source)
    requires !source.Observed? && forall i :: 0 <= i < |list| ==> !list[i].1.Observed?
    ensures forall i :: 0 <= i < |Listed(list, endpoint, source)| ==> !Listed(list, endpoint, source)[i].1.Observed?
  {
  }

  /** After a refresh an observed endpoint shares its host with another announced endpoint only if
      it is local or unparsable, or worked within the last three minutes. */
  lemma {:induction false} SupersededEndpointsAreGone(net: Net, state: PeerState, ann: Announcement, seenAt: nat, e: string, a: string)
    requires e in Refresh(net, state, ann, seenAt).endpoints && Refresh(net, state, ann, seenAt).endpoints[e].source.Observed?
    requires a in Announced(ann) && a != e && !net.localOnly(a) && net.host(a) == net.host(e)
    ensures var path := Refresh(net, state, ann, seenAt).endpoints[e];
            || net.localOnly(e) || net.host(e).None?
            || (path.successAt.Some? && SatSub(seenAt, path.successAt.value) <= OBSERVED_STICKY)
  {
    hide Announced, Touched;
    forall b | b in Announced(ann) ensures !Announced(ann)[b].Observed? { NeverObserved(ann, b); }
    EnteredIsRetained(net, state.endpoints, Announced(ann), seenAt, e);
  }

  /** Refreshing twice with one announcement at one time is refreshing once, and the second
      refresh reports no change. */
  lemma {:induction false} RefreshIsIdempotent(net: Net, state: PeerState, ann: Announcement, seenAt: nat)
    ensures var once := Refresh(net, state, ann, seenAt);
            && Refresh(net, once, ann, seenAt) == once
            && !RefreshReports(net, once, ann, seenAt)
  {
    hide Announced, Retained, Touched;
    var announced := Announced(ann);
    var first := Survivors(net, state.endpoints, announced, seenAt);
    var once := Refresh(net, state, ann, seenAt);
    forall a | a in announced ensures !announced[a].Observed? { NeverObserved(ann, a); }
    var second := Survivors(net, once.endpoints, announced, seenAt);
    forall e | e in once.endpoints ensures e in second && second[e] == once.endpoints[e] {
      EnteredIsRetained(net, state.endpoints, announced, seenAt, e);
    }
    assert second == once.endpoints;
    forall e | e in announced ensures Touched(Lookup(once.endpoints, e), announced[e], seenAt) == once.endpoints[e] {
      TouchTwice(Lookup(first, e), announced[e], seenAt);
    }
    assert Entered(second, announced, seenAt) == once.endpoints;
  }

  /** The announcement has nothing new to say about a tracked path: it is retained, and if it is
      announced, neither its source nor its time would rise. */
  ghost predicate StaysAsItIs(net: Net, e: string, path: Path, ann: Announcement, seenAt: nat)
  {
    && Retained(net, e, path, Announced(ann), seenAt)
    && (e in Announced(ann) ==> Order(Announced(ann)[e]) <= Order(path.source) && seenAt <= path.announcedAt)
  }

  ghost predicate AllStay(net: Net, state: PeerState, ann: Announcement, seenAt: nat)
  {
    forall e :: e in state.endpoints ==> StaysAsItIs(net, e, state.endpoints[e], ann, seenAt)
  }

  ghost predicate AddsSomething(state: PeerState, ann: Announcement)
  {
    exists e :: e in Announced(ann) && e !in state.endpoints
  }

  lemma TouchLeavesAlone(path: Path, source: Source, seenAt: nat)
    ensures Touched(Some(path), source, seenAt) == path <==> Order(source) <= Order(path.source) && seenAt <= path.announcedAt
  {
  }

  /** The change flag of a refresh stays down exactly when every tracked path stays as it is, which
      can be told before the refresh; endpoints that are announced for the first time do not count. */
  lemma {:induction false} QuietRefreshOnlyAdds(net: Net, state: PeerState, ann: Announcement, seenAt: nat)
    requires state.current.Some? ==> state.current.value in state.endpoints
    ensures !RefreshReports(net, state, ann, seenAt) <==> AllStay(net, state, ann, seenAt)
    ensures !RefreshReports(net, state, ann, seenAt) ==>
              var after := Refresh(net, state, ann, seenAt);
              && after.current == state.current
              && (forall e :: e in state.endpoints ==> e in after.endpoints && after.endpoints[e] == state.endpoints[e])
              && (forall e :: e in after.endpoints && e !in state.endpoints ==> e in Announced(ann))
  {
    hide Announced, Retained, Touched;
    var survivors := Survivors(net, state.endpoints, Announced(ann), seenAt);
    forall e | e in state.endpoints && e in Announced(ann) {
      TouchLeavesAlone(state.endpoints[e], Announced(ann)[e], seenAt);
    }
    if AllStay(net, state, ann, seenAt) {
      forall e | e in state.endpoints ensures e in survivors { assert StaysAsItIs(net, e, state.endpoints[e], ann, seenAt); }
      assert survivors == state.endpoints;
      forall e | e in survivors && e in Announced(ann) ensures Touched(Some(survivors[e]), Announced(ann)[e], seenAt) == survivors[e] {
        assert StaysAsItIs(net, e, state.endpoints[e], ann, seenAt);
      }
    }
    if !RefreshReports(net, state, ann, seenAt) {
      forall e | e in state.endpoints ensures StaysAsItIs(net, e, state.endpoints[e], ann, seenAt) {
        assert e in survivors.Keys;
      }
    }
  }

  lemma {:induction false} RefreshChangesExactly(net: Net, state: PeerState, ann: Announcement, seenAt: nat)
    requires state.current.Some? ==> state.current.value in state.endpoints
    ensures Refresh(net, state, ann, seenAt) != state <==> !AllStay(net, state, ann, seenAt) || AddsSomething(state, ann)
  {
    hide Announced, Retained, Touched, AllStay;
    var after := Refresh(net, state, ann, seenAt);
    QuietRefreshOnlyAdds(net, state, ann, seenAt);
    if AllStay(net, state, ann, seenAt) {
      if AddsSomething(state, ann) {
        var e :| e in Announced(ann) && e !in state.endpoints;
        assert e in after.endpoints;
      } else {
        assert after.endpoints.Keys == state.endpoints.Keys;
        assert after.endpoints == state.endpoints;
      }
    } else {
      ReportMeansChange(net, state, ann, seenAt);
    }
  }

  /** A raised flag is never wrong. */
  lemma {:induction false} ReportMeansChange(net: Net, state: PeerState, ann: Announcement, seenAt: nat)
    requires RefreshReports(net, state, ann, seenAt)
    ensures Refresh(net, state, ann, seenAt) != state
  {
    hide Announced, Touched;
    var announced := Announced(ann);
    var survivors := Survivors(net, state.endpoints, announced, seenAt);
    var after := Refresh(net, state, ann, seenAt);
    if survivors.Keys != state.endpoints.Keys {
      var e :| e in state.endpoints && e !in survivors;
      if e in announced { DroppedIsReset(net, state, ann, seenAt, e); }
    } else if KeepCurrent(state.current, survivors) == state.current {
      var e :| e in survivors && e in announced && Touched(Some(survivors[e]), announced[e], seenAt) != survivors[e];
      assert after.endpoints[e] != state.endpoints[e];
    }
  }

  /** A path that is dropped and announced again in one refresh starts afresh, and is not what it was. */
  lemma {:induction false} DroppedIsReset(net: Net, state: PeerState, ann: Announcement, seenAt: nat, e: string)
    requires e in state.endpoints && !Retained(net, e, state.endpoints[e], Announced(ann), seenAt) && e in Announced(ann)
    ensures e in Refresh(net, state, ann, seenAt).endpoints && Refresh(net, state, ann, seenAt).endpoints[e] != state.endpoints[e]
  {
    hide Announced;
    NeverObserved(ann, e);
  }

  /** The flag of a refresh tells whether it changed anything, except exactly when every tracked
      path stays as it is and something is announced that was not tracked. */
  lemma {:induction false} RefreshFlagIsRightExactly(net: Net, state: PeerState, ann: Announcement, seenAt: nat)
    requires state.current.Some? ==> state.current.value in state.endpoints
    ensures (RefreshReports(net, state, ann, seenAt) <==> Refresh(net, state, ann, seenAt) != state) <==>
              !(AllStay(net, state, ann, seenAt) && AddsSomething(state, ann))
  {
    hide RefreshReports, Refresh, AllStay, AddsSomething;
    QuietRefreshOnlyAdds(net, state, ann, seenAt);
    RefreshChangesExactly(net, state, ann, seenAt);
  }
}
