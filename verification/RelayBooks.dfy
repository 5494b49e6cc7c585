/** The mutable books that the daemon's event loop owns, updated in place. Every method is
    specified by the pure operation of the same step, so what is proved about runs of steps
    holds of runs of these calls. */
module RelayBooks {
  import opened Common
  import opened Order
  import opened RelayState
  import opened RelayReconcile
  import opened RelayProtocol

  class RelayBooks {
    var sessions: map<string, Session>
    var standby: Queues
    var failures: Failures
    var providers: ProviderBook
    var pending: map<string, Pending>

    function Snapshot(): State
      reads this
    {
      State(sessions, standby, failures, providers, pending)
    }

    constructor ()
      ensures Snapshot() == EMPTY
    {
      sessions, standby, failures, providers, pending := map[], map[], map[], map[], map[];
    }

    method Clear(now: nat)
      modifies this
      ensures Snapshot() == Step(old(Snapshot()), Pause(now)).0
    {
      sessions, standby, failures, providers, pending := map[], map[], map[], map[], map[];
    }

    method NoteFailedRelay(participant: string, relay: string, now: nat)
      modifies this`failures
      ensures failures == NoteFailed(old(failures), participant, relay, now)
    {
      failures := failures[FailureKey(participant, relay) := now + FAILED_RETRY_AFTER];
    }

    method NoteVerifiedProvider(relay: string, now: nat)
      modifies this`providers
      ensures providers == NoteVerified(old(providers), relay, now)
    {
      var entry := ProviderOf(providers, relay);
      entry := entry.(verifiedAt := Some(now), cooldownUntil := None, lastFailureAt := None);
      entry := entry.(lastProbeAt := Some(now), consecutiveFailures := 0);
      providers := providers[relay := entry];
    }

    method NoteProbeAttempt(relay: string, now: nat)
      modifies this`providers
      ensures providers == NoteProbe(old(providers), relay, now)
    {
      providers := providers[relay := ProviderOf(providers, relay).(lastProbeAt := Some(now))];
    }

    method NoteFailedProvider(relay: string, now: nat, retryAfter: Option<nat>)
      modifies this`providers
      ensures providers == NoteProviderFailed(old(providers), relay, now, retryAfter)
    {
      var entry := ProviderOf(providers, relay);
      entry := entry.(lastFailureAt := Some(now), lastProbeAt := Some(now));
      entry := entry.(consecutiveFailures := Min(entry.consecutiveFailures + 1, U32_MAX));
      providers := providers[relay := entry.(cooldownUntil := Some(now + Cooldown(entry.consecutiveFailures, retryAfter)))];
    }

    /** Each prune tells whether the book it cleans lost an entry. */
    method PruneActiveSessions(now: nat) returns (changed: bool)
      modifies this`sessions
      ensures Snapshot() == Step(old(Snapshot()), ExpireSessions(now)).0
      ensures changed <==> sessions.Keys != old(sessions).Keys
    {
      var kept := PruneSessions(sessions, now);
      KeysBySize(kept, sessions);
      changed := |kept| != |sessions|;
      sessions := kept;
    }

    method PruneStandbySessions(now: nat) returns (changed: bool)
      modifies this`standby
      ensures Snapshot() == Step(old(Snapshot()), ExpireStandby(now)).0
      ensures changed <==> standby.Keys != old(standby).Keys
    {
      var kept := PruneStandby(standby, now);
      KeysBySize(kept, standby);
      changed := |kept| != |standby|;
      standby := kept;
    }

    method PruneFailureCooldowns(now: nat) returns (changed: bool)
      modifies this`failures
      ensures Snapshot() == Step(old(Snapshot()), ExpireFailures(now)).0
      ensures changed <==> failures.Keys != old(failures).Keys
    {
      var kept := PruneFailures(failures, now);
      KeysBySize(kept, failures);
      changed := |kept| != |failures|;
      failures := kept;
    }

    method PruneProviderVerifications(now: nat) returns (changed: bool)
      modifies this`providers
      ensures Snapshot() == Step(old(Snapshot()), ExpireProviders(now)).0
      ensures changed <==> providers.Keys != old(providers).Keys
    {
      var kept := PruneProviders(providers, now);
      KeysBySize(kept, providers);
      changed := |kept| != |providers|;
      providers := kept;
    }

    /** Comparing sizes before and after detects every loss of keys. */
    static lemma KeysBySize<V>(small: map<string, V>, big: map<string, V>)
      requires small.Keys <= big.Keys
      ensures |small| == |big| <==> small.Keys == big.Keys
    {
      assert big.Keys == small.Keys + (big.Keys - small.Keys);
      assert |small| == |small.Keys| && |big| == |big.Keys|;
    }

    method Enqueue(participant: string, session: Session) returns (queued: bool)
      modifies this`standby
      ensures (standby, queued) == QueueStandby(old(standby), participant, session)
    {
      var queue := if participant in standby then standby[participant] else [];
      var i, found := 0, false;
      while i < |queue| && !found
        invariant i <= |queue|
        invariant found <==> exists k :: 0 <= k < i && SameEndpoints(queue[k], session)
      {
        found := SameEndpoints(queue[i], session);
        i := i + 1;
      }
      assert found <==> HoldsMatch(queue, session);
      queued := !found;
      standby := standby[participant := if found then queue else queue + [session]];
    }

    method PopNext(participant: string, now: nat) returns (next: Option<Session>)
      modifies this`standby
      ensures next == PopResult(old(standby), failures, participant, now)
      ensures standby == PopRest(old(standby), failures, participant, now)
    {
      if participant !in standby { return None; }
      var queue := standby[participant];
      var i := 0;
      while i < |queue| && !Usable(queue[i], failures, participant, now)
        invariant i <= |queue|
        invariant forall k :: 0 <= k < i ==> !Usable(queue[k], failures, participant, now)
      {
        i := i + 1;
      }
      NextUsableUnique(queue, failures, participant, now, i);
      if i == |queue| { return None; }
      next := Some(Promote(queue[i], now));
      queue := Remove(queue, i);
      standby := if queue == [] then standby - {participant} else standby[participant := queue];
    }

    static lemma {:induction false} NextUsableUnique(queue: seq<Session>, failures: Failures, p: string, now: nat, i: nat)
      requires i <= |queue| && (i < |queue| ==> Usable(queue[i], failures, p, now))
      requires forall k :: 0 <= k < i ==> !Usable(queue[k], failures, p, now)
      ensures NextUsable(queue, failures, p, now) == i
    {
      if i > 0 {
        NextUsableUnique(queue[1..], failures, p, now, i - 1);
      }
    }

    /** Drops the active session and promotes the next usable standby, if there is one. */
    method Replace(participant: string, now: nat) returns (promoted: bool)
      modifies this`sessions, this`standby
      ensures sessions == Install(old(sessions), participant, PopResult(old(standby), failures, participant, now))
      ensures standby == PopRest(old(standby), failures, participant, now)
      ensures promoted == PopResult(old(standby), failures, participant, now).Some?
    {
      sessions := sessions - {participant};
      var next := PopNext(participant, now);
      promoted := next.Some?;
      if promoted {
        sessions := sessions[participant := next.value];
        assert sessions == old(sessions)[participant := next.value];
      }
    }

    method VisitParticipant(participant: string, peers: RuntimePeers, now: nat) returns (pushed: bool)
      modifies this
      ensures (Snapshot(), pushed) == Visit(old(Snapshot()), peers, participant, now)
    {
      if participant !in sessions { return false; }
      var session := sessions[participant];
      if !IsActive(session, now) {
        var promoted := Replace(participant, now);
        if !promoted { pending := DropRequestsOf(pending, participant); }
        return true;
      }
      var verifiedAt := VerifiedBy(peers, participant, session);
      if verifiedAt.Some? {
        NoteVerifiedProvider(session.relay, verifiedAt.value);
        if session.verifiedAt.None? {
          sessions := sessions[participant := session.(verifiedAt := verifiedAt)];
        } else {
          assert sessions == old(sessions)[participant := session];
        }
        return false;
      }
      if !TimedOut(session, now) { return false; }
      NoteFailedRelay(participant, session.relay, now);
      NoteFailedProvider(session.relay, now, None);
      pending := DropRequestsOf(pending, participant);
      var promoted := Replace(participant, now);
      return true;
    }

    /** The state tick's pass over the sessions, in the order the map yields them. */
    method ReconcileSessions(peers: RuntimePeers, now: nat, order: seq<string>) returns (changed: seq<string>)
      modifies this
      ensures (Snapshot(), changed) == Reconcile(old(Snapshot()), peers, now, order)
    {
      changed := [];
      assert order[..0] == [];
      for i := 0 to |order|
        invariant (Snapshot(), changed) == Walk(old(Snapshot()), peers, now, order[..i])
      {
        assert order[..i + 1][..i] == order[..i];
        var pushed := VisitParticipant(order[i], peers, now);
        if pushed { changed := changed + [order[i]]; }
      }
      assert order[..|order|] == order;
      changed := SortDedup(changed);
    }

    method AcceptGrant(g: Grant, now: nat) returns (action: Output)
      modifies this
      ensures (Snapshot(), action) == RelayProtocol.AcceptGrant(old(Snapshot()), g, now)
    {
      if g.expiresAt <= now || g.id !in pending { return Ignored; }
      var request := pending[g.id];
      pending := pending - {g.id};
      if request.relay != g.relay { return Ignored; }
      var participant := request.participant;
      if InCooldown(failures, participant, request.relay, now) { return Ignored; }
      var session := SessionFrom(g, now);
      if participant in sessions && IsActive(sessions[participant], now) {
        var queued := Enqueue(participant, session);
        return if queued then QueuedStandby(participant) else Ignored;
      }
      sessions := sessions[participant := session];
      return Activated(participant);
    }

    method AcceptRejection(id: string, relay: string, retryAfter: Option<nat>, now: nat) returns (action: Output)
      modifies this
      ensures (Snapshot(), action) == RelayProtocol.AcceptRejection(old(Snapshot()), id, relay, retryAfter, now)
    {
      if id !in pending { return Rejection(None); }
      var request := pending[id];
      pending := pending - {id};
      if request.relay != relay { return Rejection(None); }
      NoteFailedRelay(request.participant, request.relay, now);
      NoteFailedProvider(request.relay, now, retryAfter);
      return Rejection(Some(request.participant));
    }

    method ProbeProviders(relays: seq<string>, outcome: string -> ProbeOutcome, now: nat)
      modifies this`providers
      ensures providers == ProbeAll(old(providers), now, relays, outcome)
    {
      for i := 0 to |relays|
        invariant ProbeAll(providers, now, relays[i..], outcome) == ProbeAll(old(providers), now, relays, outcome)
      {
        assert relays[i..][1..] == relays[i + 1..];
        NoteProbeAttempt(relays[i], now);
        match outcome(relays[i])
        case ProbeVerified => NoteVerifiedProvider(relays[i], now);
        case ProbeRejected(retry) => NoteFailedProvider(relays[i], now, retry);
        case ProbeFailed => NoteFailedProvider(relays[i], now, Some(PROVIDER_PROBE_RETRY_AFTER));
      }
    }

    /** Publishes the requests to one participant's relays until the client fails. */
    method RequestFor(participant: string, candidates: seq<string>, ask: Ask, now: nat, sent: seq<Request>, ghost kept: map<string, Pending>)
      returns (requests: seq<Request>)
      requires pending == Record(kept, ask.network, sent, now) && |sent| <= ask.published
      modifies this`pending
      ensures pending == Record(kept, ask.network, requests, now)
      ensures var mine := RequestsTo(participant, candidates);
              requests == sent + mine[..Min(ask.published - |sent|, |mine|)]
    {
      requests := sent;
      ghost var mine := RequestsTo(participant, candidates);
      var j := 0;
      while j < |candidates| && |requests| < ask.published
        invariant j <= |candidates| && |requests| <= ask.published
        invariant requests == sent + mine[..j]
        invariant pending == Record(kept, ask.network, requests, now)
      {
        var request := Request(participant, candidates[j]);
        pending := pending[RequestId(ask.network, request, now) := Pending(participant, candidates[j], now)];
        assert (requests + [request])[..|requests|] == requests;
        requests := requests + [request];
        j := j + 1;
      }
    }

    /** The announce tick's prune of pending requests followed by the batch: publish request after
        request and record each, stopping where the client fails. */
    method RequestRelays(ask: Ask, now: nat) returns (requests: seq<Request>)
      modifies this
      ensures (Snapshot(), Requested(requests)) == RequestBatch(old(Snapshot()), ask, now)
    {
      pending := PrunePending(pending, now);
      requests := [];
      var participants := Needing(Snapshot(), ask.peers, now);
      if participants == [] { return; }
      var found := Pool(providers, now, ask.discovered);
      if found == [] { return; }
      ghost var start := Snapshot();
      ProbeProviders(Take(Due(providers, now, found), MAX_PROVIDER_PROBES), ask.outcome, now);
      requests := RequestEach(participants, Pool(providers, now, found), ask, now);
      assert AllRequests(participants, Pool(providers, now, found), ask.own, failures, providers, now) == Wanted(start, ask, now);
    }

    static lemma AllRequestsAt(participants: seq<string>, i: nat, pool: seq<string>, own: Option<string>, failures: Failures, book: ProviderBook, now: nat)
      requires i < |participants|
      ensures AllRequests(participants[i..], pool, own, failures, book, now)
           == RequestsTo(participants[i], Candidates(pool, participants[i], own, failures, book, now))
              + AllRequests(participants[i + 1..], pool, own, failures, book, now)
    {
      assert participants[i..][1..] == participants[i + 1..];
    }

    /** What has been published of the whole list, and what is still to come unless the client failed. */
    static ghost predicate Progress(requests: seq<Request>, rest: seq<Request>, wanted: seq<Request>, cap: nat, failed: bool)
    {
      if failed then cap <= |wanted| && requests == wanted[..cap] else |requests| <= cap && requests + rest == wanted
    }

    static lemma NextChunk(sent: seq<Request>, mine: seq<Request>, rest: seq<Request>, wanted: seq<Request>, cap: nat, requests: seq<Request>)
      requires Progress(sent, mine + rest, wanted, cap, false)
      requires requests == sent + mine[..Min(cap - |sent|, |mine|)]
      ensures Progress(requests, rest, wanted, cap, |requests| < |sent| + |mine|)
    {
      assert sent + (mine + rest) == (sent + mine) + rest;
    }

    /** Asks the relays of participant number `i`; `failed` says that the client gave up. */
    method RequestNext(participants: seq<string>, i: nat, pool: seq<string>, ask: Ask, now: nat, sent: seq<Request>,
                       ghost kept: map<string, Pending>, ghost wanted: seq<Request>)
      returns (requests: seq<Request>, failed: bool)
      requires i < |participants| && |sent| <= ask.published
      requires Progress(sent, AllRequests(participants[i..], pool, ask.own, failures, providers, now), wanted, ask.published, false)
      requires pending == Record(kept, ask.network, sent, now)
      modifies this`pending
      ensures Progress(requests, AllRequests(participants[i + 1..], pool, ask.own, failures, providers, now), wanted, ask.published, failed)
      ensures pending == Record(kept, ask.network, requests, now)
    {
      AllRequestsAt(participants, i, pool, ask.own, failures, providers, now);
      var candidates := Candidates(pool, participants[i], ask.own, failures, providers, now);
      requests := RequestFor(participants[i], candidates, ask, now, sent, kept);
      failed := |requests| < |sent| + |candidates|;
      ghost var rest := AllRequests(participants[i + 1..], pool, ask.own, failures, providers, now);
      NextChunk(sent, RequestsTo(participants[i], candidates), rest, wanted, ask.published, requests);
    }

    method RequestEach(participants: seq<string>, pool: seq<string>, ask: Ask, now: nat) returns (requests: seq<Request>)
      modifies this`pending
      ensures var wanted := AllRequests(participants, pool, ask.own, failures, providers, now);
              requests == wanted[..Min(ask.published, |wanted|)]
      ensures pending == Record(old(pending), ask.network, requests, now)
    {
      requests := [];
      var failed, i := false, 0;
      ghost var wanted := AllRequests(participants, pool, ask.own, failures, providers, now);
      assert participants[0..] == participants && Record(pending, ask.network, [], now) == pending;
      while i < |participants| && !failed
        invariant i <= |participants|
        invariant Progress(requests, AllRequests(participants[i..], pool, ask.own, failures, providers, now), wanted, ask.published, failed)
        invariant pending == Record(old(pending), ask.network, requests, now)
      {
        requests, failed := RequestNext(participants, i, pool, ask, now, requests, old(pending), wanted);
        i := i + 1;
      }
      if !failed { assert participants[i..] == [] && requests + [] == requests; }
    }
  }
}
