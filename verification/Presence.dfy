/** The presence book: who is reachable now, what each peer last announced, and the trace of
    signals, prunes and retains that the book summarises. */
module Presence {
  import opened Common

  datatype Announcement = Announcement(timestamp: nat, body: string)

  datatype Payload = Hello | Announce(announcement: Announcement) | Disconnect | Roster | JoinRequest

  datatype Book = Book(
    active: map<string, Announcement>,
    known: map<string, Announcement>,
    lastSeenAt: map<string, nat>,
    activeSinceAt: map<string, nat>)

  const EMPTY: Book := Book(map[], map[], map[], map[])

  datatype Event =
    | Signal(sender: string, payload: Payload, seenAt: nat)
    | Prune(now: nat, staleAfter: nat)
    | Retain(participants: set<string>)
    | Restore(peer: string, announcement: Announcement, lastSeen: Option<nat>)

  function Only<V>(m: map<string, V>, keep: set<string>): map<string, V>
  {
    map p | p in m && p in keep :: m[p]
  }

  /** A stored announcement gives way to one that is not older. */
  predicate Accepts(stored: map<string, Announcement>, p: string, a: Announcement)
  {
    p in stored ==> stored[p].timestamp <= a.timestamp
  }

  function Entered(stored: map<string, Announcement>, p: string, a: Announcement): map<string, Announcement>
  {
    if Accepts(stored, p, a) then stored[p := a] else stored
  }

  function ApplySignal(book: Book, p: string, payload: Payload, seenAt: nat): Book
  {
    var seen := book.lastSeenAt[p := seenAt];
    match payload
    case Announce(a) =>
      Book(
        Entered(book.active, p, a),
        Entered(book.known, p, a),
        seen,
        if p in book.active then book.activeSinceAt else book.activeSinceAt[p := seenAt])
    case Disconnect => Book(book.active - {p}, book.known - {p}, seen, book.activeSinceAt - {p})
    case _ => book.(lastSeenAt := seen)
  }

  predicate HeardSince(lastSeen: Option<nat>, cutoff: nat)
  {
    lastSeen.Some? && lastSeen.value > cutoff
  }

  function Fresh(book: Book, cutoff: nat): set<string>
  {
    set p | p in book.active && HeardSince(Lookup(book.lastSeenAt, p), cutoff)
  }

  function PruneStale(book: Book, now: nat, staleAfter: nat): Book
  {
    if staleAfter == 0 then book
    else
      var stale := book.active.Keys - Fresh(book, SatSub(now, staleAfter));
      book.(active := book.active - stale, activeSinceAt := book.activeSinceAt - stale)
  }

  function Step(book: Book, e: Event): Book
  {
    match e
    case Signal(p, payload, seenAt) => ApplySignal(book, p, payload, seenAt)
    case Prune(now, staleAfter) => PruneStale(book, now, staleAfter)
    case Retain(ps) =>
      Book(Only(book.active, ps), Only(book.known, ps), Only(book.lastSeenAt, ps), Only(book.activeSinceAt, ps))
    case Restore(p, a, lastSeen) =>
      book.(known := book.known[p := a],
            lastSeenAt := if lastSeen.Some? then book.lastSeenAt[p := lastSeen.value] else book.lastSeenAt)
  }

  function Run(trace: seq<Event>): Book
  {
    if trace == [] then EMPTY else Step(Run(trace[..|trace| - 1]), trace[|trace| - 1])
  }

  // ---- What a trace says about one participant ----

  function LastSeen(trace: seq<Event>, p: string): Option<nat>
  {
    if trace == [] then None
    else
      var before := LastSeen(trace[..|trace| - 1], p);
      match trace[|trace| - 1]
      case Signal(q, _, seenAt) => if q == p then Some(seenAt) else before
      case Retain(ps) => if p in ps then before else None
      case Restore(q, _, lastSeen) => if q == p && lastSeen.Some? then lastSeen else before
      case Prune(_, _) => before
  }

  /** Announcements since the sender last disconnected or was dropped; a restored one starts afresh. */
  function SinceDropped(trace: seq<Event>, p: string): seq<Announcement>
  {
    if trace == [] then []
    else
      var before := SinceDropped(trace[..|trace| - 1], p);
      match trace[|trace| - 1]
      case Signal(q, payload, _) =>
        if q != p then before
        else if payload.Announce? then before + [payload.announcement]
        else if payload.Disconnect? then []
        else before
      case Retain(ps) => if p in ps then before else []
      case Restore(q, a, _) => if q == p then [a] else before
      case Prune(_, _) => before
  }

  /** Nothing was seen after the start of the window, which is never before time 0. */
  predicate IsSilent(lastSeen: Option<nat>, now: nat, window: nat)
  {
    lastSeen == None || lastSeen.value == 0 || lastSeen.value + window <= now
  }

  /** Announcements, and when they were seen, since the sender was last absent: a disconnect, a
      drop, or a prune that found it silent for too long. */
  function SinceAbsent(trace: seq<Event>, p: string): seq<(Announcement, nat)>
  {
    if trace == [] then []
    else
      var before := SinceAbsent(trace[..|trace| - 1], p);
      match trace[|trace| - 1]
      case Signal(q, payload, seenAt) =>
        if q != p then before
        else if payload.Announce? then before + [(payload.announcement, seenAt)]
        else if payload.Disconnect? then []
        else before
      case Retain(ps) => if p in ps then before else []
      case Prune(now, staleAfter) =>
        if staleAfter > 0 && IsSilent(LastSeen(trace[..|trace| - 1], p), now, staleAfter) then [] else before
      case Restore(_, _, _) => before
  }

  function Announcements(entries: seq<(Announcement, nat)>): seq<Announcement>
  {
    seq(|entries|, i requires 0 <= i < |entries| => entries[i].0)
  }

  /** `a` has the greatest timestamp of the list, and comes last among those that have it. */
  ghost predicate IsLatest(a: Announcement, list: seq<Announcement>)
  {
    exists i :: 0 <= i < |list| && list[i] == a
      && (forall j :: 0 <= j < |list| ==> list[j].timestamp <= a.timestamp)
      && (forall j :: i < j < |list| ==> list[j].timestamp < a.timestamp)
  }

  /** At most one announcement of a list is the latest, so `Holds` determines its slot. */
  lemma LatestIsUnique(a: Announcement, b: Announcement, list: seq<Announcement>)
    requires IsLatest(a, list) && IsLatest(b, list)
    ensures a == b
  {
  }

  /** A slot of the book holds the latest of a list of announcements, or is empty with it. */
  ghost predicate Holds(slot: Option<Announcement>, list: seq<Announcement>)
  {
    match slot
    case None => list == []
    case Some(a) => IsLatest(a, list)
  }

  lemma EnteredHolds(stored: map<string, Announcement>, p: string, a: Announcement, list: seq<Announcement>)
    requires Holds(Lookup(stored, p), list)
    ensures Holds(Lookup(Entered(stored, p, a), p), list + [a])
  {
    var longer := list + [a];
    if Accepts(stored, p, a) {
      assert longer[|list|] == a;
      if p in stored {
        var i :| 0 <= i < |list| && list[i] == stored[p] && (forall j :: 0 <= j < |list| ==> list[j].timestamp <= list[i].timestamp);
        assert forall j :: 0 <= j < |longer| ==> longer[j].timestamp <= a.timestamp;
      }
    } else {
      var i :| 0 <= i < |list| && list[i] == stored[p]
               && (forall j :: 0 <= j < |list| ==> list[j].timestamp <= stored[p].timestamp)
               && (forall j :: i < j < |list| ==> list[j].timestamp < stored[p].timestamp);
      assert longer[i] == stored[p];
    }
  }

  /** What the book holds for one participant: when it was last seen, the latest announcement
      since it was dropped, the latest since it was absent, and when it came back. */
  ghost predicate Says(book: Book, p: string, seen: Option<nat>, dropped: seq<Announcement>, present: seq<(Announcement, nat)>)
  {
    && Lookup(book.lastSeenAt, p) == seen
    && Holds(Lookup(book.known, p), dropped)
    && Holds(Lookup(book.active, p), Announcements(present))
    && Lookup(book.activeSinceAt, p) == if present == [] then None else Some(present[0].1)
  }

  ghost predicate Summarises(book: Book, trace: seq<Event>, p: string)
  {
    Says(book, p, LastSeen(trace, p), SinceDropped(trace, p), SinceAbsent(trace, p))
  }

  lemma {:induction false} AnnounceExtends(book: Book, p: string, a: Announcement, t: nat,
                                           seen: Option<nat>, dropped: seq<Announcement>, present: seq<(Announcement, nat)>)
    requires Says(book, p, seen, dropped, present)
    ensures Says(ApplySignal(book, p, Announce(a), t), p, Some(t), dropped + [a], present + [(a, t)])
  {
    hide IsLatest, Accepts;
    EnteredHolds(book.known, p, a, dropped);
    EnteredHolds(book.active, p, a, Announcements(present));
    assert Announcements(present + [(a, t)]) == Announcements(present) + [a];
    LatestNonEmpty(Lookup(book.active, p), Announcements(present));
  }

  lemma {:induction false} SignalSummarises(book: Book, trace: seq<Event>, p: string)
    requires trace != [] && trace[|trace| - 1].Signal? && Summarises(book, trace[..|trace| - 1], p)
    ensures Summarises(Step(book, trace[|trace| - 1]), trace, p)
  {
    hide Holds;
    var before := trace[..|trace| - 1];
    var Signal(q, payload, seenAt) := trace[|trace| - 1];
    var after := Step(book, trace[|trace| - 1]);
    if q != p {
      assert Lookup(after.known, p) == Lookup(book.known, p) && Lookup(after.active, p) == Lookup(book.active, p);
    } else if payload.Announce? {
      AnnounceExtends(book, p, payload.announcement, seenAt, LastSeen(before, p), SinceDropped(before, p), SinceAbsent(before, p));
    } else if payload.Disconnect? {
      assert Announcements([]) == [];
      EmptyHolds([]);
    }
  }

  lemma RestoredHolds(a: Announcement)
    ensures Holds(Some(a), [a])
  {
    assert [a][0] == a;
  }

  lemma EmptyHolds(list: seq<Announcement>)
    ensures Holds(None, list) <==> list == []
  {
  }

  lemma LatestNonEmpty(slot: Option<Announcement>, list: seq<Announcement>)
    requires Holds(slot, list)
    ensures slot.None? <==> list == []
  {
  }

  lemma {:induction false} StepSummarises(book: Book, trace: seq<Event>, p: string)
    requires trace != [] && Summarises(book, trace[..|trace| - 1], p)
    ensures Summarises(Step(book, trace[|trace| - 1]), trace, p)
  {
    hide IsLatest;
    var e := trace[|trace| - 1];
    match e
    case Signal(_, _, _) => SignalSummarises(book, trace, p);
    case Restore(q, a, _) => RestoredHolds(a);
    case Retain(ps) =>
      assert p in ps ==> Lookup(Step(book, e).active, p) == Lookup(book.active, p);
    case Prune(now, staleAfter) =>
      if p in book.active { assert Lookup(book.active, p).Some?; }
  }

  /** Every run refines its trace: `known` carries the latest announcement since the sender last
      disconnected or was dropped, `active` the latest since it was last absent, and
      `active_since` the time at which it came back. */
  lemma {:induction false} RunSummarisesTrace(trace: seq<Event>, p: string)
    ensures Summarises(Run(trace), trace, p)
  {
    if trace == [] {
      assert Announcements([]) == [];
    } else {
      RunSummarisesTrace(trace[..|trace| - 1], p);
      StepSummarises(Run(trace[..|trace| - 1]), trace, p);
    }
  }

  // ---- Consequences ----

  /** The keys of the four maps, and the times of `active` and `known`, agree with each other. */
  predicate Coherent(book: Book)
  {
    && book.activeSinceAt.Keys == book.active.Keys
    && book.active.Keys <= book.known.Keys
    && book.active.Keys <= book.lastSeenAt.Keys
    && forall p :: p in book.active ==> book.active[p].timestamp <= book.known[p].timestamp
  }

  /** A restored announcement is not older than the one its peer is active with, if it is. */
  predicate RestoresNoOlder(book: Book, e: Event)
  {
    e.Restore? && e.peer in book.active ==> book.active[e.peer].timestamp <= e.announcement.timestamp
  }

  lemma SignalIsCoherent(book: Book, p: string, payload: Payload, seenAt: nat)
    requires Coherent(book)
    ensures Coherent(ApplySignal(book, p, payload, seenAt))
  {
  }

  /** Signals, prunes and retains keep a coherent book coherent, and a restore does so exactly when
      it is no older than what its peer is active with. */
  lemma {:induction false} StepIsCoherentExactly(book: Book, e: Event)
    requires Coherent(book)
    ensures Coherent(Step(book, e)) <==> RestoresNoOlder(book, e)
  {
    hide ApplySignal;
    match e
    case Signal(p, payload, seenAt) => SignalIsCoherent(book, p, payload, seenAt);
    case Restore(p, a, _) =>
      var after := Step(book, e);
      assert after.active == book.active && after.known[p] == a;
      if p in book.active { assert after.active[p].timestamp <= after.known[p].timestamp <==> RestoresNoOlder(book, e); }
    case _ =>
  }

  /** Every restore of the run is no older than what its peer is active with at that point. */
  predicate AllRestoresNoOlder(trace: seq<Event>)
  {
    trace == [] ||
    (AllRestoresNoOlder(trace[..|trace| - 1]) && RestoresNoOlder(Run(trace[..|trace| - 1]), trace[|trace| - 1]))
  }

  /** The book is coherent at the end of the run and at every point of it. */
  predicate AlwaysCoherent(trace: seq<Event>)
  {
    Coherent(Run(trace)) && (trace == [] || AlwaysCoherent(trace[..|trace| - 1]))
  }

  /** A run keeps the book coherent throughout, the keys of `active` and `active_since` equal, known
      and seen and no active announcement newer than the known one, exactly when none of its
      restores brings back an announcement older than the one its peer is active with. */
  lemma {:induction false} RunsAreCoherent(trace: seq<Event>)
    ensures AlwaysCoherent(trace) <==> AllRestoresNoOlder(trace)
    ensures AllRestoresNoOlder(trace) ==> Coherent(Run(trace))
  {
    if trace != [] {
      RunsAreCoherent(trace[..|trace| - 1]);
      if AlwaysCoherent(trace[..|trace| - 1]) {
        StepIsCoherentExactly(Run(trace[..|trace| - 1]), trace[|trace| - 1]);
      }
    }
  }

  /** Every known peer has a time at which it was last seen, unless it was restored without one. */
  lemma {:induction false} KnownPeersWereSeen(trace: seq<Event>)
    requires forall i :: 0 <= i < |trace| && trace[i].Restore? ==> trace[i].lastSeen.Some?
    ensures Run(trace).known.Keys <= Run(trace).lastSeenAt.Keys
  {
    if trace != [] { KnownPeersWereSeen(trace[..|trace| - 1]); }
  }

  /** A restore over an active peer breaks it exactly when it is older: for every coherent run,
      every peer that is active in it, and every restored announcement. */
  lemma {:induction false} RestoreOverActive(trace: seq<Event>, p: string, a: Announcement, lastSeen: Option<nat>)
    requires Coherent(Run(trace)) && p in Run(trace).active
    ensures Coherent(Run(trace + [Restore(p, a, lastSeen)])) <==> Run(trace).active[p].timestamp <= a.timestamp
  {
    var longer := trace + [Restore(p, a, lastSeen)];
    assert longer[..|trace|] == trace;
    StepIsCoherentExactly(Run(trace), Restore(p, a, lastSeen));
  }

  /** Such a run is easily had: one announcement, then a restore of an older one. */
  lemma {:induction false} RestoreAfterSignal(p: string, a: Announcement, t: nat, b: Announcement, lastSeen: Option<nat>)
    ensures Coherent(Run([Signal(p, Announce(a), t), Restore(p, b, lastSeen)])) <==> a.timestamp <= b.timestamp
  {
    var first := [Signal(p, Announce(a), t)];
    assert first[..0] == [] && Run([]) == EMPTY;
    assert Run(first) == ApplySignal(EMPTY, p, Announce(a), t);
    assert Run(first).active == map[p := a];
    SignalIsCoherent(EMPTY, p, Announce(a), t);
    assert first + [Restore(p, b, lastSeen)] == [Signal(p, Announce(a), t), Restore(p, b, lastSeen)];
    RestoreOverActive(first, p, b, lastSeen);
  }

  /** Just after a prune, a peer is active exactly when it was active and a signal from it, of
      whatever kind, was last seen within the window. */
  lemma {:induction false} PruneExpires(trace: seq<Event>, now: nat, staleAfter: nat, p: string)
    requires staleAfter > 0
    ensures p in Run(trace + [Prune(now, staleAfter)]).active <==>
              p in Run(trace).active && !IsSilent(LastSeen(trace, p), now, staleAfter)
  {
    var longer := trace + [Prune(now, staleAfter)];
    assert longer[..|trace|] == trace;
    RunSummarisesTrace(trace, p);
  }

  // ---- Delivery order ----

  /** The event neither drops nor restores anyone. */
  predicate Keeps(e: Event)
  {
    match e
    case Signal(_, payload, _) => !payload.Disconnect?
    case Prune(_, _) => true
    case _ => false
  }

  function AnnouncedBy(events: seq<Event>, p: string): set<Announcement>
  {
    set i | 0 <= i < |events| && events[i].Signal? && events[i].sender == p && events[i].payload.Announce?
      :: events[i].payload.announcement
  }

  lemma AnnouncedBySnoc(events: seq<Event>, p: string)
    requires events != []
    ensures var e := events[|events| - 1];
            AnnouncedBy(events, p) == AnnouncedBy(events[..|events| - 1], p) +
              if e.Signal? && e.sender == p && e.payload.Announce? then {e.payload.announcement} else {}
  {
    var last := |events| - 1;
    forall a | a in AnnouncedBy(events[..last], p) ensures a in AnnouncedBy(events, p) {
      var i :| 0 <= i < last && events[..last][i].Signal? && events[..last][i].sender == p
               && events[..last][i].payload.Announce? && events[..last][i].payload.announcement == a;
      assert events[i] == events[..last][i];
    }
    forall a | a in AnnouncedBy(events, p)
      ensures a in AnnouncedBy(events[..last], p) || (events[last].Signal? && events[last].sender == p && events[last].payload == Announce(a))
    {
      var i :| 0 <= i < |events| && events[i].Signal? && events[i].sender == p
               && events[i].payload.Announce? && events[i].payload.announcement == a;
      if i < last { assert events[..last][i] == events[i]; }
    }
  }

  /** A delivered announcement that nothing earlier or delivered is newer than. */
  ghost predicate IsTop(earlier: seq<Announcement>, delivered: set<Announcement>, a: Announcement)
  {
    && a in delivered
    && (forall b :: b in delivered ==> b.timestamp <= a.timestamp)
    && (forall i :: 0 <= i < |earlier| ==> earlier[i].timestamp <= a.timestamp)
  }

  /** At most one delivered announcement is a newest one. */
  ghost predicate TopIsUnique(earlier: seq<Announcement>, delivered: set<Announcement>)
  {
    forall a, b :: IsTop(earlier, delivered, a) && IsTop(earlier, delivered, b) ==> a == b
  }

  /** Where the latest of a list comes from, when the list is an earlier one followed by deliveries. */
  lemma {:induction false} LatestAfterDelivery(earlier: seq<Announcement>, more: seq<Announcement>, a: Announcement)
    requires IsLatest(a, earlier + more)
    ensures || IsTop(earlier, Elems(more), a)
            || (IsLatest(a, earlier) && forall b :: b in Elems(more) ==> b.timestamp < a.timestamp)
  {
    var all := earlier + more;
    var i :| 0 <= i < |all| && all[i] == a
             && (forall j :: 0 <= j < |all| ==> all[j].timestamp <= a.timestamp)
             && (forall j :: i < j < |all| ==> all[j].timestamp < a.timestamp);
    forall j | 0 <= j < |earlier| ensures earlier[j].timestamp <= a.timestamp { assert all[j] == earlier[j]; }
    forall j | 0 <= j < |more| ensures more[j].timestamp <= a.timestamp { assert all[|earlier| + j] == more[j]; }
    if i < |earlier| {
      assert earlier[i] == a;
      forall j | i < j < |earlier| ensures earlier[j].timestamp < a.timestamp { assert all[j] == earlier[j]; }
      forall j | 0 <= j < |more| ensures more[j].timestamp < a.timestamp { assert all[|earlier| + j] == more[j]; }
    } else {
      assert more[i - |earlier|] == a;
    }
  }

  /** What events that keep everybody add to a segment. */
  lemma {:induction false} SegmentExtends(before: seq<Event>, events: seq<Event>, p: string) returns (more: seq<Announcement>)
    requires forall i :: 0 <= i < |events| ==> Keeps(events[i])
    ensures SinceDropped(before + events, p) == SinceDropped(before, p) + more && Elems(more) == AnnouncedBy(events, p)
  {
    if events == [] {
      assert before + events == before;
      more := [];
    } else {
      var last := |events| - 1;
      var whole := before + events;
      assert whole[..|whole| - 1] == before + events[..last];
      more := SegmentExtends(before, events[..last], p);
      AnnouncedBySnoc(events, p);
      var e := events[last];
      if e.Signal? && e.sender == p && e.payload.Announce? {
        ElemsConcat(more, [e.payload.announcement]);
        more := more + [e.payload.announcement];
      }
    }
  }

  ghost predicate AllKeep(events: seq<Event>)
  {
    forall i :: 0 <= i < |events| ==> Keeps(events[i])
  }

  /** Two deliveries of the same announcements: in any order, repeated or not, at any times, and
      with any other signals and prunes in between. */
  ghost predicate SameDelivery(xs: seq<Event>, ys: seq<Event>)
  {
    AllKeep(xs) && AllKeep(ys) && forall p :: AnnouncedBy(xs, p) == AnnouncedBy(ys, p)
  }

  lemma {:induction false} SameLatest(earlier: seq<Announcement>, xs: seq<Announcement>, ys: seq<Announcement>, a: Announcement, b: Announcement)
    requires Elems(xs) == Elems(ys) && TopIsUnique(earlier, Elems(xs))
    requires IsLatest(a, earlier + xs) && IsLatest(b, earlier + ys)
    ensures a == b
  {
    LatestAfterDelivery(earlier, xs, a);
    LatestAfterDelivery(earlier, ys, b);
    if !IsTop(earlier, Elems(xs), a) && !IsTop(earlier, Elems(xs), b) {
      LatestIsUnique(a, b, earlier);
    }
  }

  lemma {:induction false} KnownSlotAgrees(before: seq<Event>, xs: seq<Event>, ys: seq<Event>, p: string)
    requires SameDelivery(xs, ys) && TopIsUnique(SinceDropped(before, p), AnnouncedBy(xs, p))
    ensures Lookup(Run(before + xs).known, p) == Lookup(Run(before + ys).known, p)
  {
    hide IsLatest, TopIsUnique, Run, SinceDropped, SinceAbsent, LastSeen, Keeps, AnnouncedBy;
    var one, two := Run(before + xs).known, Run(before + ys).known;
    RunSummarisesTrace(before + xs, p);
    RunSummarisesTrace(before + ys, p);
    var more := SegmentExtends(before, xs, p);
    var others := SegmentExtends(before, ys, p);
    LatestNonEmpty(Lookup(one, p), SinceDropped(before + xs, p));
    LatestNonEmpty(Lookup(two, p), SinceDropped(before + ys, p));
    ElemsEmpty(more);
    ElemsEmpty(others);
    if p in one && p in two {
      SameLatest(SinceDropped(before, p), more, others, one[p], two[p]);
    }
  }

  /** As long as each participant has at most one newest announcement among those delivered,
      `known` does not depend on how they are delivered. */
  lemma {:induction false} KnownIgnoresDeliveryOrder(before: seq<Event>, xs: seq<Event>, ys: seq<Event>)
    requires SameDelivery(xs, ys)
    requires forall p :: TopIsUnique(SinceDropped(before, p), AnnouncedBy(xs, p))
    ensures Run(before + xs).known == Run(before + ys).known
  {
    hide TopIsUnique, Run, SinceDropped, SameDelivery;
    var one, two := Run(before + xs).known, Run(before + ys).known;
    forall p ensures Lookup(one, p) == Lookup(two, p) { KnownSlotAgrees(before, xs, ys, p); }
    assert forall p :: p in one <==> Lookup(one, p).Some?;
    assert forall p :: p in two <==> Lookup(two, p).Some?;
    assert forall p :: p in one && p in two ==> Lookup(one, p) == Lookup(two, p);
  }

  /** Delivering a newest announcement once more, at the end, makes it the known one. */
  lemma {:induction false} LastTopIsKnown(before: seq<Event>, xs: seq<Event>, p: string, a: Announcement) returns (ys: seq<Event>)
    requires AllKeep(xs) && IsTop(SinceDropped(before, p), AnnouncedBy(xs, p), a)
    ensures SameDelivery(xs, ys) && Lookup(Run(before + ys).known, p) == Some(a)
  {
    hide IsLatest, Run, SinceDropped, SinceAbsent, LastSeen;
    var extra := Signal(p, Announce(a), 0);
    ys := xs + [extra];
    assert ys[..|xs|] == xs;
    forall q ensures AnnouncedBy(ys, q) == AnnouncedBy(xs, q) { AnnouncedBySnoc(ys, q); }
    var more := SegmentExtends(before, xs, p);
    var segment := SinceDropped(before, p) + more + [a];
    assert (before + ys)[..|before + ys| - 1] == before + xs;
    assert SinceDropped(before + ys, p) == segment by { SnocAnnounce(before + xs, p, a); assert before + ys == before + xs + [extra]; }
    forall j | 0 <= j < |segment| ensures segment[j].timestamp <= a.timestamp {
      if |SinceDropped(before, p)| <= j < |segment| - 1 { assert more[j - |SinceDropped(before, p)|] in Elems(more); }
    }
    EndIsLatest(segment, a);
    RunSummarisesTrace(before + ys, p);
    LatestNonEmpty(Lookup(Run(before + ys).known, p), segment);
    LatestIsUnique(a, Run(before + ys).known[p], segment);
  }

  lemma SnocAnnounce(trace: seq<Event>, p: string, a: Announcement)
    ensures SinceDropped(trace + [Signal(p, Announce(a), 0)], p) == SinceDropped(trace, p) + [a]
  {
    assert (trace + [Signal(p, Announce(a), 0)])[..|trace|] == trace;
  }

  lemma EndIsLatest(list: seq<Announcement>, a: Announcement)
    requires list != [] && list[|list| - 1] == a && forall j :: 0 <= j < |list| ==> list[j].timestamp <= a.timestamp
    ensures IsLatest(a, list)
  {
  }

  /** `known` is the same after every delivery of the same announcements exactly when each
      participant has at most one newest announcement among them. */
  lemma {:induction false} KnownOrderFreeExactly(before: seq<Event>, xs: seq<Event>)
    requires AllKeep(xs)
    ensures (forall ys :: SameDelivery(xs, ys) ==> Run(before + ys).known == Run(before + xs).known) <==>
              forall p :: TopIsUnique(SinceDropped(before, p), AnnouncedBy(xs, p))
  {
    hide Run, SinceDropped, AnnouncedBy, IsTop;
    if forall p :: TopIsUnique(SinceDropped(before, p), AnnouncedBy(xs, p)) {
      forall ys | SameDelivery(xs, ys) ensures Run(before + ys).known == Run(before + xs).known {
        KnownIgnoresDeliveryOrder(before, xs, ys);
      }
    } else {
      var p, a, b :| IsTop(SinceDropped(before, p), AnnouncedBy(xs, p), a) && IsTop(SinceDropped(before, p), AnnouncedBy(xs, p), b) && a != b;
      var one := LastTopIsKnown(before, xs, p, a);
      var two := LastTopIsKnown(before, xs, p, b);
      assert Run(before + one).known != Run(before + two).known;
    }
  }

  /** Two announcements that share a timestamp do make the order matter. */
  lemma TiesDependOnOrder(p: string, a: Announcement, b: Announcement, t: nat)
    requires a != b && a.timestamp == b.timestamp
    ensures var (x, y) := (Signal(p, Announce(a), t), Signal(p, Announce(b), t));
            Run([x, y]).known != Run([y, x]).known
  {
    var (x, y) := (Signal(p, Announce(a), t), Signal(p, Announce(b), t));
    assert [x, y][..1] == [x] && [y, x][..1] == [y] && [x][..0] == [] && [y][..0] == [];
    assert Run([x]).known[p] == a && Run([y]).known[p] == b;
    assert Run([x, y]).known[p] == b && Run([y, x]).known[p] == a;
  }
}
