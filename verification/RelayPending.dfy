/** No run ever holds more than twelve pending relay requests for one participant. */
module RelayPending {
  import opened Common
  import opened RelayState
  import opened RelayReconcile
  import opened RelayProtocol

  function IdsOf(pending: map<string, Pending>, p: string): set<string>
  {
    set id | id in pending && pending[id].participant == p
  }

  /** The requests of one participant made after `lo` and not after `hi`. */
  function Window(pending: map<string, Pending>, p: string, lo: int, hi: int): set<string>
  {
    set id | id in pending && pending[id].participant == p && lo < pending[id].requestedAt <= hi
  }

  /** The requests of one participant made at one moment. */
  function MadeAt(pending: map<string, Pending>, p: string, t: nat): set<string>
  {
    set id | id in pending && pending[id].participant == p && pending[id].requestedAt == t
  }

  /** Requests of one participant come in batches of at most three, thirty seconds apart. */
  ghost predicate Spaced(pending: map<string, Pending>)
  {
    && (forall i, j :: i in pending && j in pending && pending[i].participant == pending[j].participant
          && pending[i].requestedAt < pending[j].requestedAt
          ==> pending[i].requestedAt + REQUEST_RETRY_AFTER <= pending[j].requestedAt)
    && (forall p, t: nat :: |MadeAt(pending, p, t)| <= MAX_REQUESTS_PER_PARTICIPANT)
  }

  const LIMIT: nat := 12

  ghost predicate Bounded(pending: map<string, Pending>, clock: nat)
  {
    && Spaced(pending)
    && (forall id :: id in pending ==> pending[id].requestedAt <= clock)
    && (forall p :: |IdsOf(pending, p)| <= LIMIT)
  }

  /** Dropping requests keeps every bound. */
  lemma BoundedShrinks(small: map<string, Pending>, big: map<string, Pending>, clock: nat, later: nat)
    requires Bounded(big, clock) && clock <= later
    requires forall id :: id in small ==> id in big && small[id] == big[id]
    ensures Bounded(small, later)
  {
    forall p, t: nat ensures |MadeAt(small, p, t)| <= MAX_REQUESTS_PER_PARTICIPANT {
      SubsetSize(MadeAt(small, p, t), MadeAt(big, p, t));
    }
    forall p ensures |IdsOf(small, p)| <= LIMIT {
      SubsetSize(IdsOf(small, p), IdsOf(big, p));
    }
  }

  /** A window of thirty seconds holds requests of one moment only, hence at most three. */
  lemma NarrowWindow(pending: map<string, Pending>, p: string, lo: int)
    requires Spaced(pending)
    ensures |Window(pending, p, lo, lo + REQUEST_RETRY_AFTER)| <= MAX_REQUESTS_PER_PARTICIPANT
  {
    var w := Window(pending, p, lo, lo + REQUEST_RETRY_AFTER);
    if w != {} {
      var first :| first in w;
      var t := pending[first].requestedAt;
      SubsetSize(w, MadeAt(pending, p, t));
    }
  }

  /** A participant without a request younger than 30 s, and with none of 120 s or more, has at most nine. */
  lemma AtMostNineSurvive(pending: map<string, Pending>, p: string, now: nat)
    requires Spaced(pending) && !HasRecentRequest(pending, p, now)
    requires forall id :: id in pending ==> pending[id].requestedAt <= now
                                            && SatSub(now, pending[id].requestedAt) < REQUEST_TIMEOUT
    ensures |IdsOf(pending, p)| <= 9
  {
    var a, b, c := Window(pending, p, now - 120, now - 90), Window(pending, p, now - 90, now - 60), Window(pending, p, now - 60, now - 30);
    NarrowWindow(pending, p, now - 120);
    NarrowWindow(pending, p, now - 90);
    NarrowWindow(pending, p, now - 60);
    SubsetSize(IdsOf(pending, p), a + b + c);
  }

  // ---- What a batch adds ----

  /** The ids a batch gives to one participant. */
  function NewIds(network: string, requests: seq<Request>, p: string, now: nat): set<string>
  {
    set k | 0 <= k < |requests| && requests[k].participant == p :: RequestId(network, requests[k], now)
  }

  lemma {:induction false} RecordEntries(pending: map<string, Pending>, network: string, requests: seq<Request>, now: nat, id: string)
    requires id in Record(pending, network, requests, now)
    ensures var entry := Record(pending, network, requests, now)[id];
            || (id in pending && entry == pending[id])
            || (entry.requestedAt == now && id in NewIds(network, requests, entry.participant, now))
  {
    if requests != [] {
      var last := |requests| - 1;
      var r := requests[last];
      if id != RequestId(network, r, now) {
        RecordEntries(pending, network, requests[..last], now, id);
      }
    }
  }

  lemma {:induction false} NeedingSound(st: State, peers: seq<string>, now: nat)
    requires Distinct(peers)
    ensures Distinct(Needing(st, peers, now))
    ensures forall p :: p in Needing(st, peers, now) ==> p in peers && NeedsRelay(st, p, now)
  {
    if peers != [] {
      NeedingSound(st, peers[1..], now);
      assert peers[0] !in peers[1..];
    }
  }

  /** Each participant asked for gets at most three requests, and nobody else gets any. */
  lemma {:induction false} FewRequestsEach(participants: seq<string>, pool: seq<string>, own: Option<string>, failures: Failures, book: ProviderBook, now: nat, network: string, p: string)
    requires Distinct(participants)
    ensures var all := AllRequests(participants, pool, own, failures, book, now);
            && |NewIds(network, all, p, now)| <= MAX_REQUESTS_PER_PARTICIPANT
            && (p !in participants ==> NewIds(network, all, p, now) == {})
  {
    var all := AllRequests(participants, pool, own, failures, book, now);
    if participants != [] {
      var head := participants[0];
      var mine := RequestsTo(head, Candidates(pool, head, own, failures, book, now));
      var rest := AllRequests(participants[1..], pool, own, failures, book, now);
      FewRequestsEach(participants[1..], pool, own, failures, book, now, network, p);
      NewIdsConcat(network, mine, rest, p, now);
      NewIdsFew(network, mine, p, now);
      if p == head {
        assert p !in participants[1..];
      } else {
        assert NewIds(network, mine, p, now) == {};
      }
    }
  }

  lemma NewIdsConcat(network: string, a: seq<Request>, b: seq<Request>, p: string, now: nat)
    ensures NewIds(network, a + b, p, now) == NewIds(network, a, p, now) + NewIds(network, b, p, now)
  {
    var both := a + b;
    forall id | id in NewIds(network, b, p, now) ensures id in NewIds(network, both, p, now) {
      var k :| 0 <= k < |b| && b[k].participant == p && RequestId(network, b[k], now) == id;
      assert both[|a| + k] == b[k];
    }
    forall id | id in NewIds(network, a, p, now) ensures id in NewIds(network, both, p, now) {
      var k :| 0 <= k < |a| && a[k].participant == p && RequestId(network, a[k], now) == id;
      assert both[k] == a[k];
    }
  }

  lemma {:induction false} NewIdsFew(network: string, requests: seq<Request>, p: string, now: nat)
    ensures |NewIds(network, requests, p, now)| <= |requests|
  {
    if requests != [] {
      var last := |requests| - 1;
      NewIdsFew(network, requests[..last], p, now);
      SubsetSize(NewIds(network, requests, p, now),
                 NewIds(network, requests[..last], p, now) + {RequestId(network, requests[last], now)});
    }
  }

  /** A batch asks at most three relays for a participant, and only if it has no request younger than 30 s. */
  lemma PlanIsModest(st: State, ask: Ask, now: nat, p: string)
    requires Distinct(ask.peers)
    ensures var added := NewIds(ask.network, Plan(st, ask, now).1, p, now);
            && |added| <= MAX_REQUESTS_PER_PARTICIPANT
            && (added != {} ==> !HasRecentRequest(st.pending, p, now))
  {
    var participants := Needing(st, ask.peers, now);
    NeedingSound(st, ask.peers, now);
    if participants != [] && Found(st, ask, now) != [] {
      var book := Probed(st, ask, now);
      FewRequestsEach(participants, Pool(book, now, Found(st, ask, now)), ask.own, st.failures, book, now, ask.network, p);
      NewIdsPrefix(ask.network, Wanted(st, ask, now), Min(ask.published, |Wanted(st, ask, now)|), p, now);
      assert p in participants ==> NeedsRelay(st, p, now);
    }
  }

  lemma NewIdsPrefix(network: string, requests: seq<Request>, n: nat, p: string, now: nat)
    requires n <= |requests|
    ensures NewIds(network, requests[..n], p, now) <= NewIds(network, requests, p, now)
    ensures |NewIds(network, requests[..n], p, now)| <= |NewIds(network, requests, p, now)|
  {
    SubsetSize(NewIds(network, requests[..n], p, now), NewIds(network, requests, p, now));
  }

  lemma RecordIsSpaced(pending: map<string, Pending>, network: string, requests: seq<Request>, now: nat)
    requires Spaced(pending) && forall id :: id in pending ==> pending[id].requestedAt <= now
    requires forall p :: |NewIds(network, requests, p, now)| <= MAX_REQUESTS_PER_PARTICIPANT
    requires forall p :: NewIds(network, requests, p, now) != {} ==> !HasRecentRequest(pending, p, now)
    ensures Spaced(Record(pending, network, requests, now))
  {
    var after := Record(pending, network, requests, now);
    forall id | id in after
      ensures || (id in pending && after[id] == pending[id])
              || (after[id].requestedAt == now && id in NewIds(network, requests, after[id].participant, now))
    {
      RecordEntries(pending, network, requests, now, id);
    }
    forall p, t: nat ensures |MadeAt(after, p, t)| <= MAX_REQUESTS_PER_PARTICIPANT {
      var added := NewIds(network, requests, p, now);
      if t == now && added != {} {
        assert !HasRecentRequest(pending, p, now);
        SubsetSize(MadeAt(after, p, t), added);
      } else {
        SubsetSize(MadeAt(after, p, t), MadeAt(pending, p, t));
      }
    }
  }

  lemma {:induction false} BatchKeepsBound(st: State, ask: Ask, clock: nat, now: nat)
    requires Bounded(st.pending, clock) && clock <= now && Distinct(ask.peers)
    ensures Bounded(RequestBatch(st, ask, now).0.pending, now)
  {
    var kept := st.(pending := PrunePending(st.pending, now));
    BoundedShrinks(kept.pending, st.pending, clock, now);
    var requests := Plan(kept, ask, now).1;
    forall p
      ensures |NewIds(ask.network, requests, p, now)| <= MAX_REQUESTS_PER_PARTICIPANT
      ensures NewIds(ask.network, requests, p, now) != {} ==> !HasRecentRequest(kept.pending, p, now)
    {
      PlanIsModest(kept, ask, now, p);
    }
    RecordIsSpaced(kept.pending, ask.network, requests, now);
    var after := Record(kept.pending, ask.network, requests, now);
    forall id | id in after
      ensures || (id in kept.pending && after[id] == kept.pending[id])
              || (after[id].requestedAt == now && id in NewIds(ask.network, requests, after[id].participant, now))
    {
      RecordEntries(kept.pending, ask.network, requests, now, id);
    }
    forall p ensures |IdsOf(after, p)| <= LIMIT {
      var added := NewIds(ask.network, requests, p, now);
      SubsetSize(IdsOf(after, p), IdsOf(kept.pending, p) + added);
      if added != {} {
        AtMostNineSurvive(kept.pending, p, now);
      }
    }
  }

  // ---- Every other step only drops requests ----

  lemma {:induction false} WalkDropsRequests(st: State, peers: RuntimePeers, now: nat, order: seq<string>)
    ensures var end := Walk(st, peers, now, order).0;
            forall id :: id in end.pending ==> id in st.pending && end.pending[id] == st.pending[id]
  {
    if order != [] {
      WalkDropsRequests(st, peers, now, order[..|order| - 1]);
    }
  }

  /** Distinct configured peers, as `participant_pubkeys_hex` returns them. */
  ghost predicate WellFormed(e: Event)
  {
    e.AnnounceRequests? ==> Distinct(e.ask.peers)
  }

  lemma StepDropsRequests(st: State, e: Event, id: string)
    requires !e.AnnounceRequests? && id in Step(st, e).0.pending
    ensures id in st.pending && Step(st, e).0.pending[id] == st.pending[id]
  {
    if e.StateTick? { WalkDropsRequests(st, e.peers, e.now, e.order); }
  }

  lemma StepKeepsBound(st: State, e: Event, clock: nat)
    requires Bounded(st.pending, clock) && clock <= e.now && WellFormed(e)
    ensures Bounded(Step(st, e).0.pending, e.now)
  {
    if e.AnnounceRequests? {
      BatchKeepsBound(st, e.ask, clock, e.now);
    } else {
      var after := Step(st, e).0.pending;
      forall id | id in after ensures id in st.pending && after[id] == st.pending[id] {
        StepDropsRequests(st, e, id);
      }
      BoundedShrinks(after, st.pending, clock, e.now);
    }
  }

  function Clock(events: seq<Event>): nat
  {
    if events == [] then 0 else events[|events| - 1].now
  }

  lemma {:induction false} RunKeepsBound(events: seq<Event>)
    requires InOrder(events) && forall i :: 0 <= i < |events| ==> WellFormed(events[i])
    ensures Bounded(Run(EMPTY, events).pending, Clock(events))
  {
    if events != [] {
      var last := |events| - 1;
      RunKeepsBound(events[..last]);
      StepKeepsBound(Run(EMPTY, events[..last]), events[last], Clock(events[..last]));
    } else {
      forall p ensures IdsOf(map[], p) == {} {}
      forall p, t: nat ensures MadeAt(map[], p, t) == {} {}
    }
  }

  /** Whatever is requested, granted, rejected, reconciled or pruned, and in whatever order, at most
      twelve requests are pending for a participant as long as the clock does not go back. */
  lemma {:induction false} AtMostTwelvePending(events: seq<Event>, p: string)
    requires InOrder(events) && forall i :: 0 <= i < |events| ==> WellFormed(events[i])
    ensures |IdsOf(Run(EMPTY, events).pending, p)| <= 12
  {
    RunKeepsBound(events);
  }
}
