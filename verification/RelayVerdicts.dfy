/** Which sessions a pass keeps, confirms and retires, told from the session and the report of its
    peer alone, and what a failed session leaves on record. */
module RelayVerdicts {
  import opened Common
  import opened Order
  import opened RelayState
  import opened RelayReconcile
  import opened RelayOutcome
  import opened RelayProtocol
  import RelayOperators
  import RelayProviders

  /** The peer runs at the session's local ingress and shook hands at `h`, not before the grant. */
  predicate Shook(peers: RuntimePeers, p: string, s: Session, h: nat)
  {
    && p in peers && peers[p] == Runtime(Some(s.localIngress), Some(h)) && h >= s.grantedAt
  }

  predicate HasShaken(peers: RuntimePeers, p: string, s: Session)
  {
    p in peers && peers[p].handshakeAt.Some? && Shook(peers, p, s, peers[p].handshakeAt.value)
  }

  /** Unexpired, with two endpoints that are not all white space. */
  predicate Unexpired(s: Session, now: nat)
  {
    s.expiresAt > now && Trim(s.localIngress) != "" && Trim(s.advertisedIngress) != ""
  }

  /** Granted eight seconds ago or more and never verified. */
  predicate Overdue(s: Session, now: nat)
  {
    s.verifiedAt.None? && s.grantedAt + 8 <= now
  }

  predicate FailsNow(peers: RuntimePeers, p: string, s: Session, now: nat)
  {
    Unexpired(s, now) && !HasShaken(peers, p, s) && Overdue(s, now)
  }

  lemma JudgeMeaning(peers: RuntimePeers, p: string, s: Session, now: nat)
    ensures Judge(peers, p, s, now) ==
              if !Unexpired(s, now) then Expired
              else if HasShaken(peers, p, s) then Confirmed(peers[p].handshakeAt.value)
              else if Overdue(s, now) then Failed
              else Waiting
  {
  }

  /** The visit of a participant is the only one that decides about its session. */
  lemma {:induction false} WalkDecides(st: State, peers: RuntimePeers, now: nat, order: seq<string>, p: string)
    requires Distinct(order) && p in order && p in st.sessions
    ensures var (end, changed) := Walk(st, peers, now, order);
            var verdict := Judge(peers, p, st.sessions[p], now);
            && (p in changed <==> verdict.Expired? || verdict.Failed?)
            && (verdict.Confirmed? ==> Lookup(end.sessions, p) == Some(FirstVerified(st.sessions[p], verdict.at)))
            && (verdict.Waiting? ==> Lookup(end.sessions, p) == Some(st.sessions[p]))
  {
    hide Visit, Judge, FirstVerified;
    var last := |order| - 1;
    var before := order[..last];
    var (mid, changed) := Walk(st, peers, now, before);
    assert order == before + [order[last]];
    if order[last] == p {
      WalkLeavesUnvisited(st, peers, now, before, p);
      ChangedWereVisited(st, peers, now, before, p);
      assert Lookup(mid.sessions, p).Some?;
      VisitParts(mid, peers, p, now);
    } else {
      WalkDecides(st, peers, now, before, p);
      VisitLeavesOthers(mid, peers, order[last], now, p);
    }
  }

  lemma {:induction false} ChangedWereVisited(st: State, peers: RuntimePeers, now: nat, order: seq<string>, p: string)
    requires p !in order
    ensures p !in Walk(st, peers, now, order).1
  {
    if order != [] {
      hide Visit;
      assert order[|order| - 1] in order && forall x :: x in order[..|order| - 1] ==> x in order;
      ChangedWereVisited(st, peers, now, order[..|order| - 1], p);
    }
  }

  lemma InSorted(xs: seq<string>, p: string)
    ensures p in SortDedup(xs) <==> p in xs
  {
    assert p in xs <==> p in Elems(xs);
    assert p in SortDedup(xs) <==> p in Elems(SortDedup(xs));
  }

  /** In a pass in any order a participant is reported as changed exactly if its session is expired
      or lacks an endpoint, or was granted eight seconds ago without ever being verified while its peer
      reports no handshake since the grant at the session's local ingress. Any other session is
      kept as it is, except that the first such handshake verifies it. */
  lemma {:induction false} PassDecides(st: State, peers: RuntimePeers, now: nat, order: seq<string>, p: string)
    requires Enumerates(order, st.sessions) && p in st.sessions
    ensures var (end, changed) := Reconcile(st, peers, now, order);
            var s := st.sessions[p];
            && (p in changed <==> !Unexpired(s, now) || FailsNow(peers, p, s, now))
            && (p !in changed ==>
                  && p in end.sessions
                  && end.sessions[p] == s.(verifiedAt := if s.verifiedAt.None? && HasShaken(peers, p, s)
                                                         then peers[p].handshakeAt else s.verifiedAt))
  {
    hide Walk, Judge;
    assert p in Elems(order);
    WalkDecides(st, peers, now, order, p);
    JudgeMeaning(peers, p, st.sessions[p], now);
    InSorted(Walk(st, peers, now, order).1, p);
  }

  /** A session that is granted and becomes active is confirmed in the next pass, in any order, by a
      handshake of its participant at the grant's requester ingress. */
  lemma {:induction false} GrantIsConfirmed(st: State, g: Grant, now: nat, p: string, peers: RuntimePeers, later: nat, order: seq<string>, h: nat)
    requires Step(st, GrantArrives(now, g)).1 == Activated(p)
    requires Enumerates(order, Step(st, GrantArrives(now, g)).0.sessions)
    requires now <= h && later < g.expiresAt && Trim(g.requesterIngress) != "" && Trim(g.targetIngress) != ""
    requires p in peers && peers[p] == Runtime(Some(g.requesterIngress), Some(h))
    ensures var (end, changed) := Reconcile(Step(st, GrantArrives(now, g)).0, peers, later, order);
            && p !in changed && p in end.sessions
            && end.sessions[p] == Session(g.relay, g.requesterIngress, g.targetIngress, now, Some(h), g.expiresAt)
  {
    hide Reconcile, Trim;
    PassDecides(Step(st, GrantArrives(now, g)).0, peers, later, order, p);
  }

  // ---- What else a pass leaves ----

  ghost function FailedNow(st: State, peers: RuntimePeers, now: nat, order: seq<string>): set<string>
  {
    set p | p in order && p in st.sessions && FailsNow(peers, p, st.sessions[p], now) :: FailureKey(p, st.sessions[p].relay)
  }

  /** A session that was not visited yet is judged as it was at the start. */
  lemma {:induction false} VisitedAtLast(st: State, peers: RuntimePeers, now: nat, order: seq<string>)
    requires order != [] && Distinct(order) && order[|order| - 1] in st.sessions
    ensures var last := |order| - 1;
            var (mid, changed) := Walk(st, peers, now, order[..last]);
            && order[last] !in order[..last]
            && order[last] in mid.sessions && mid.sessions[order[last]] == st.sessions[order[last]]
            && Walk(st, peers, now, order).0 == Visit(mid, peers, order[last], now).0
  {
    hide Visit;
    var last := |order| - 1;
    assert forall i :: 0 <= i < last ==> order[i] != order[last];
    WalkLeavesUnvisited(st, peers, now, order[..last], order[last]);
    assert Lookup(Walk(st, peers, now, order[..last]).0.sessions, order[last]).Some?;
  }

  lemma {:induction false} VisitCools(st: State, peers: RuntimePeers, p: string, now: nat)
    requires p in st.sessions
    ensures var s := st.sessions[p];
            Visit(st, peers, p, now).0.failures ==
              if FailsNow(peers, p, s, now) then st.failures[FailureKey(p, s.relay) := now + FAILED_RETRY_AFTER] else st.failures
  {
    JudgeIs(peers, p, st.sessions[p], now);
    hide Visit, Judge, FailsNow, FailureKey;
    VisitParts(st, peers, p, now);
  }

  lemma {:induction false} WalkCools(st: State, peers: RuntimePeers, now: nat, order: seq<string>)
    requires Distinct(order) && Elems(order) <= st.sessions.Keys
    ensures Walk(st, peers, now, order).0.failures == WithFailed(st.failures, FailedNow(st, peers, now, order), now)
  {
    hide Visit, FailsNow, WithFailed, FailedNow, FailureKey;
    if order == [] {
      NobodyFailed(st, peers, now);
    } else {
      var last := |order| - 1;
      var p, before := order[last], order[..last];
      assert p in Elems(order) && Elems(before) <= Elems(order);
      WalkCools(st, peers, now, before);
      VisitedAtLast(st, peers, now, order);
      FailedSnoc(st, peers, now, order);
      hide Elems, Distinct, Walk;
      VisitCools(Walk(st, peers, now, before).0, peers, p, now);
      WithOneMore(st.failures, FailedNow(st, peers, now, before), FailureKey(p, st.sessions[p].relay), now);
      assert FailedNow(st, peers, now, before) + {} == FailedNow(st, peers, now, before);
    }
  }

  lemma NobodyFailed(st: State, peers: RuntimePeers, now: nat)
    ensures WithFailed(st.failures, FailedNow(st, peers, now, []), now) == st.failures
  {
    hide FailsNow;
    assert FailedNow(st, peers, now, []) == {};
  }

  lemma FailedSnoc(st: State, peers: RuntimePeers, now: nat, order: seq<string>)
    requires order != [] && order[|order| - 1] in st.sessions
    ensures var p := order[|order| - 1];
            FailedNow(st, peers, now, order) ==
              FailedNow(st, peers, now, order[..|order| - 1])
              + (if FailsNow(peers, p, st.sessions[p], now) then {FailureKey(p, st.sessions[p].relay)} else {})
  {
    var p := order[|order| - 1];
    hide FailsNow;
    assert order == order[..|order| - 1] + [p];
  }

  /** A pass in any order cools down for sixty seconds exactly the relays of the sessions that fail now,
      each for its participant, and leaves every other cooldown alone. */
  lemma {:induction false} PassCools(st: State, peers: RuntimePeers, now: nat, order: seq<string>, key: string)
    requires Enumerates(order, st.sessions)
    ensures Lookup(Reconcile(st, peers, now, order).0.failures, key) ==
              if exists p :: p in st.sessions && FailsNow(peers, p, st.sessions[p], now) && key == p + ":" + st.sessions[p].relay
              then Some(now + 60) else Lookup(st.failures, key)
  {
    hide Walk, FailsNow;
    WalkCools(st, peers, now, order);
    assert forall p :: p in order <==> p in Elems(order);
  }

  /** The participant's session fails now, or runs out without being replaced. */
  predicate GivesUp(st: State, peers: RuntimePeers, now: nat, p: string, end: State)
  {
    && p in st.sessions
    && (FailsNow(peers, p, st.sessions[p], now) || (!Unexpired(st.sessions[p], now) && p !in end.sessions))
  }

  /** The requests of the listed participants are gone if they gave up, and all others are there. */
  ghost predicate RequestsGone(st: State, peers: RuntimePeers, now: nat, order: seq<string>, end: State)
  {
    end.pending == map id | id in st.pending && !(st.pending[id].participant in order
                                                   && GivesUp(st, peers, now, st.pending[id].participant, end)) :: st.pending[id]
  }

  lemma {:induction false} WalkDropsExactly(st: State, peers: RuntimePeers, now: nat, order: seq<string>)
    requires Distinct(order) && Elems(order) <= st.sessions.Keys
    ensures RequestsGone(st, peers, now, order, Walk(st, peers, now, order).0)
  {
    if order != [] {
      hide Visit, Judge, FailsNow, Unexpired;
      var last := |order| - 1;
      var p, before := order[last], order[..last];
      assert order == before + [p];
      assert p in Elems(order) && Elems(before) <= Elems(order);
      WalkDropsExactly(st, peers, now, before);
      VisitedAtLast(st, peers, now, order);
      var mid, end := Walk(st, peers, now, before).0, Walk(st, peers, now, order).0;
      VisitParts(mid, peers, p, now);
      JudgeIs(peers, p, st.sessions[p], now);
      assert GivesUp(st, peers, now, p, end) ==> end.pending == DropRequestsOf(mid.pending, p);
      assert !GivesUp(st, peers, now, p, end) ==> end.pending == mid.pending;
      forall q | q != p ensures GivesUp(st, peers, now, q, end) <==> GivesUp(st, peers, now, q, mid) {
        VisitLeavesOthers(mid, peers, p, now, q);
        assert (q in mid.sessions <==> Lookup(mid.sessions, q).Some?) && (q in end.sessions <==> Lookup(end.sessions, q).Some?);
      }
      DropsOnce(st, peers, now, before, p, mid, end);
    }
  }

  lemma JudgeIs(peers: RuntimePeers, p: string, s: Session, now: nat)
    ensures Judge(peers, p, s, now).Expired? <==> !Unexpired(s, now)
    ensures Judge(peers, p, s, now).Failed? <==> FailsNow(peers, p, s, now)
  {
  }

  lemma DropsOnce(st: State, peers: RuntimePeers, now: nat, before: seq<string>, p: string, mid: State, end: State)
    requires p !in before && RequestsGone(st, peers, now, before, mid)
    requires end.pending == if GivesUp(st, peers, now, p, end) then DropRequestsOf(mid.pending, p) else mid.pending
    requires forall q :: q != p ==> (GivesUp(st, peers, now, q, end) <==> GivesUp(st, peers, now, q, mid))
    ensures RequestsGone(st, peers, now, before + [p], end)
  {
    hide GivesUp;
  }

  /** A pass in any order drops exactly the requests of participants whose session fails now or runs
      out without being replaced. */
  lemma {:induction false} PassDropsRequests(st: State, peers: RuntimePeers, now: nat, order: seq<string>, id: string)
    requires Enumerates(order, st.sessions)
    ensures var end := Reconcile(st, peers, now, order).0;
            Lookup(end.pending, id) ==
              if id in st.pending && GivesUp(st, peers, now, st.pending[id].participant, end) then None else Lookup(st.pending, id)
  {
    hide Walk, FailsNow, Unexpired;
    WalkDropsExactly(st, peers, now, order);
    assert forall p :: p in order <==> p in Elems(order);
  }

  // ---- What replaces a retired session ----

  /** Unexpired, with both endpoints, and its relay not cooling down for the participant. */
  predicate Ready(s: Session, failures: Failures, p: string, now: nat)
  {
    var key := p + ":" + s.relay;
    Unexpired(s, now) && (key in failures ==> failures[key] <= now)
  }

  /** The first ready session of the queue is at `k`. */
  ghost predicate FirstReady(queue: seq<Session>, failures: Failures, p: string, now: nat, k: nat)
  {
    k < |queue| && Ready(queue[k], failures, p, now) && forall j :: 0 <= j < k ==> !Ready(queue[j], failures, p, now)
  }

  lemma PopMeaning(standby: Queues, failures: Failures, p: string, now: nat)
    ensures var queue := if p in standby then standby[p] else [];
            var next, rest := PopResult(standby, failures, p, now), PopRest(standby, failures, p, now);
            if next.Some? then
              exists k: nat :: FirstReady(queue, failures, p, now, k) && next.value == queue[k].(grantedAt := now, verifiedAt := None)
                          && Lookup(rest, p) == if |queue| == 1 then None else Some(queue[..k] + queue[k + 1..])
            else (forall k :: 0 <= k < |queue| ==> !Ready(queue[k], failures, p, now)) && Lookup(rest, p) == Lookup(standby, p)
  {
    hide IsBlank, Trim;
    assert forall s: string :: IsBlank(s) <==> Trim(s) == "" by { BlankMeaning(); }
    if p in standby {
      var queue := standby[p];
      var k := NextUsable(queue, failures, p, now);
      assert forall j :: 0 <= j < |queue| ==> (Usable(queue[j], failures, p, now) <==> Ready(queue[j], failures, p, now));
      if k < |queue| { assert FirstReady(queue, failures, p, now, k); }
    }
  }

  lemma BlankMeaning()
    ensures forall s: string :: IsBlank(s) <==> Trim(s) == ""
  {
  }

  /** A changed participant runs on the first standby of its queue that is unexpired and not cooling
      down for it, granted anew and unverified, and the rest of the queue keeps its order; without such
      a standby it has no session and the queue is untouched. */
  lemma {:induction false} RetiredTakesFirstReady(st: State, peers: RuntimePeers, now: nat, order: seq<string>, p: string)
    requires KeysCannotClash(st.sessions.Keys) && Enumerates(order, st.sessions)
    requires p in Reconcile(st, peers, now, order).1
    ensures var end, queue := Reconcile(st, peers, now, order).0, if p in st.standby then st.standby[p] else [];
            if p in end.sessions then
              exists k: nat :: FirstReady(queue, end.failures, p, now, k) && end.sessions[p] == queue[k].(grantedAt := now, verifiedAt := None)
                          && Lookup(end.standby, p) == if |queue| == 1 then None else Some(queue[..k] + queue[k + 1..])
            else (forall k :: 0 <= k < |queue| ==> !Ready(queue[k], end.failures, p, now)) && Lookup(end.standby, p) == Lookup(st.standby, p)
  {
    var end := Reconcile(st, peers, now, order).0;
    PoppedAtEnd(st, peers, now, order, p);
    PopMeaning(st.standby, end.failures, p, now);
  }

  lemma {:induction false} PoppedAtEnd(st: State, peers: RuntimePeers, now: nat, order: seq<string>, p: string)
    requires KeysCannotClash(st.sessions.Keys) && Enumerates(order, st.sessions)
    requires p in Reconcile(st, peers, now, order).1
    ensures var end := Reconcile(st, peers, now, order).0;
            && Lookup(end.sessions, p) == PopResult(st.standby, end.failures, p, now)
            && Lookup(end.standby, p) == Lookup(PopRest(st.standby, end.failures, p, now), p)
  {
    ReconcileIsBatch(st, peers, now, order);
    var end := Reconcile(st, peers, now, order).0;
    assert p in Elems(Reconcile(st, peers, now, order).1);
    assert p in Changed(st, peers, now, st.sessions.Keys);
    hide Reconcile, Judge, KeysCannotClash, NoteFailed, FailureKey, PopResult, InCooldown;
    var own := OwnFailures(st, peers, now, p);
    SeesOwnCooldowns(st, peers, now, p);
    PopLocal(st.standby, st.standby, end.failures, own, p, now);
  }

  lemma SeesOwnCooldowns(st: State, peers: RuntimePeers, now: nat, p: string)
    requires KeysCannotClash(st.sessions.Keys) && p in st.sessions
    ensures forall r :: InCooldown(BatchFailures(st, peers, now, st.sessions.Keys), p, r, now)
                     == InCooldown(OwnFailures(st, peers, now, p), p, r, now)
  {
    hide BatchFailures, OwnFailures, KeysCannotClash, FailureKey;
    forall r ensures InCooldown(BatchFailures(st, peers, now, st.sessions.Keys), p, r, now)
                  == InCooldown(OwnFailures(st, peers, now, p), p, r, now)
    {
      FinalCooldowns(st, peers, now, p, r);
      SameCooldown(BatchFailures(st, peers, now, st.sessions.Keys), OwnFailures(st, peers, now, p), p, r, now);
    }
  }

  lemma SameCooldown(f: Failures, g: Failures, p: string, r: string, now: nat)
    requires Lookup(f, FailureKey(p, r)) == Lookup(g, FailureKey(p, r))
    ensures InCooldown(f, p, r, now) == InCooldown(g, p, r, now)
  {
  }

  // ---- The record of the relay's operator ----

  /** The session's visit tells on its relay: it is confirmed or it fails. */
  predicate Tells(st: State, peers: RuntimePeers, now: nat, p: string)
  {
    && p in st.sessions && Unexpired(st.sessions[p], now)
    && (HasShaken(peers, p, st.sessions[p]) || Overdue(st.sessions[p], now))
  }

  lemma JudgeTells(st: State, peers: RuntimePeers, now: nat, p: string)
    requires p in st.sessions
    ensures var fate := Judge(peers, p, st.sessions[p], now);
            && (Tells(st, peers, now, p) <==> fate.Confirmed? || fate.Failed?)
            && (Tells(st, peers, now, p) ==>
                  if HasShaken(peers, p, st.sessions[p]) then fate.Confirmed? && Some(fate.at) == peers[p].handshakeAt else fate == Failed)
  {
  }

  lemma OneNote(book: ProviderBook, relay: string, fate: Verdict, now: nat)
    requires fate.Confirmed? || fate.Failed?
    ensures var was := ProviderOf(book, relay);
            var n := if was.consecutiveFailures < 0xFFFF_FFFF then was.consecutiveFailures + 1 else 0xFFFF_FFFF;
            Lookup(RelayOperators.NotedTimes(book, relay, fate, now, 1), relay) ==
              if fate.Confirmed? then Some(Provider(Some(fate.at), None, None, Some(fate.at), 0))
              else Some(Provider(was.verifiedAt, Some(now + RelayProviders.Backoff(60, n)), Some(now), Some(now), n))
  {
    assert RelayOperators.NotedTimes(book, relay, fate, now, 0) == book;
    var n := Min(ProviderOf(book, relay).consecutiveFailures + 1, U32_MAX);
    RelayProviders.MultiplierIsPower(Min(SatSub(n, 1), 4));
  }

  /** A relay about which one session tells: a confirmation clears its operator's record but for the time of
      the handshake; a failure counts one more and cools it down for a minute, doubled with each failure
      before it, up to four times and fifteen minutes. About which none tells: nothing is noted. */
  lemma {:induction false} PassRecords(st: State, peers: RuntimePeers, now: nat, order: seq<string>, relay: string, p: string)
    requires Enumerates(order, st.sessions)
    requires forall q :: Tells(st, peers, now, q) && st.sessions[q].relay == relay ==> q == p
    ensures var end, was := Reconcile(st, peers, now, order).0, ProviderOf(st.providers, relay);
            Lookup(end.providers, relay) ==
              if !(Tells(st, peers, now, p) && st.sessions[p].relay == relay) then Lookup(st.providers, relay)
              else if HasShaken(peers, p, st.sessions[p]) then
                var h := peers[p].handshakeAt;
                Some(Provider(h, None, None, h, 0))
              else
                var n := if was.consecutiveFailures < 0xFFFF_FFFF then was.consecutiveFailures + 1 else 0xFFFF_FFFF;
                Some(Provider(was.verifiedAt, Some(now + RelayProviders.Backoff(60, n)), Some(now), Some(now), n))
  {
    hide Walk, Judge, Unexpired, HasShaken, Overdue;
    var fate := if p in st.sessions then Judge(peers, p, st.sessions[p], now) else Waiting;
    forall q | q in st.sessions ensures RelayOperators.Reports(st, peers, now, q) <==> Tells(st, peers, now, q) { JudgeTells(st, peers, now, q); }
    RelayOperators.WalkIsTallied(st, peers, now, order, relay, fate);
    var reports := RelayOperators.ReportsOn(st, peers, now, Elems(order), relay);
    if Tells(st, peers, now, p) && st.sessions[p].relay == relay {
      assert p in Elems(order);
      assert reports == {p};
      JudgeTells(st, peers, now, p);
      OneNote(st.providers, relay, fate, now);
    } else {
      assert reports == {};
    }
  }

  // ---- Grants and prunes ----

  /** The grant answers a pending request of `p` to that relay in time, and the relay is not cooling down for `p`. */
  predicate Answers(st: State, g: Grant, now: nat, p: string)
  {
    var key := p + ":" + g.relay;
    && g.expiresAt > now && g.id in st.pending
    && st.pending[g.id].participant == p && st.pending[g.id].relay == g.relay
    && (key in st.failures ==> st.failures[key] <= now)
  }

  predicate IsServed(st: State, p: string, now: nat)
  {
    p in st.sessions && Unexpired(st.sessions[p], now)
  }

  /** The queue holds a session of the grant's relay and endpoints. */
  predicate HoldsAlike(st: State, p: string, g: Grant)
  {
    p in st.standby && exists k :: 0 <= k < |st.standby[p]| && MadeLike(st.standby[p][k], g)
  }

  predicate MadeLike(s: Session, g: Grant)
  {
    s.relay == g.relay && s.localIngress == g.requesterIngress && s.advertisedIngress == g.targetIngress
  }

  /** A grant that answers a request becomes the session of a participant without one; for a participant with
      one it is queued last, unless it is like one in the queue. Any other grant does neither. */
  lemma {:induction false} GrantAcceptedExactly(st: State, g: Grant, now: nat, p: string)
    ensures var (end, action) := Step(st, GrantArrives(now, g));
            var made := Session(g.relay, g.requesterIngress, g.targetIngress, now, None, g.expiresAt);
            && (action == Activated(p) <==> Answers(st, g, now, p) && !IsServed(st, p, now))
            && (action == QueuedStandby(p) <==> Answers(st, g, now, p) && IsServed(st, p, now) && !HoldsAlike(st, p, g))
            && (action == Activated(p) ==> Lookup(end.sessions, p) == Some(made))
            && (action == QueuedStandby(p) ==>
                  Lookup(end.standby, p) == Some((if p in st.standby then st.standby[p] else []) + [made]))
  {
    BlankMeaning();
    hide IsBlank, Trim;
    var made := SessionFrom(g, now);
    assert forall k :: p in st.standby && 0 <= k < |st.standby[p]| ==> (MadeLike(st.standby[p][k], g) <==> SameEndpoints(st.standby[p][k], made));
    assert HoldsMatch(QueueOf(st.standby, p), made) <==> HoldsAlike(st, p, g);
  }

  /** A rejection uses up the request of its id. If it comes from the relay that was asked, the relay cools down for the
      participant for a minute and its operator has failed once more, with a base the operator may set. */
  lemma {:induction false} RejectionExactly(st: State, id: string, relay: string, retryAfter: Option<nat>, now: nat)
    ensures var (end, action) := Step(st, RejectionArrives(now, id, relay, retryAfter));
            var answered := id in st.pending && st.pending[id].relay == relay;
            && end == st.(pending := st.pending - {id}, failures := end.failures, providers := end.providers)
            && (if answered then
                  var p, was := st.pending[id].participant, ProviderOf(st.providers, relay);
                  var n := if was.consecutiveFailures < 0xFFFF_FFFF then was.consecutiveFailures + 1 else 0xFFFF_FFFF;
                  var base := if retryAfter.None? then 60 else if retryAfter.value == 0 then 1 else retryAfter.value;
                  && action == Rejection(Some(p))
                  && end.failures == st.failures[p + ":" + relay := now + 60]
                  && end.providers == st.providers[relay :=
                       Provider(was.verifiedAt, Some(now + RelayProviders.Backoff(base, n)), Some(now), Some(now), n)]
                else action == Rejection(None) && end.failures == st.failures && end.providers == st.providers)
  {
    OneFailure(st.providers, relay, retryAfter, now);
    hide NoteProviderFailed, ProviderOf, RelayProviders.Backoff;
    if id !in st.pending { assert st.pending - {id} == st.pending; }
  }

  lemma OneFailure(book: ProviderBook, relay: string, retryAfter: Option<nat>, now: nat)
    ensures var was := ProviderOf(book, relay);
            var n := if was.consecutiveFailures < 0xFFFF_FFFF then was.consecutiveFailures + 1 else 0xFFFF_FFFF;
            var base := if retryAfter.None? then 60 else if retryAfter.value == 0 then 1 else retryAfter.value;
            NoteProviderFailed(book, relay, now, retryAfter) ==
              book[relay := Provider(was.verifiedAt, Some(now + RelayProviders.Backoff(base, n)), Some(now), Some(now), n)]
  {
    var n := Min(ProviderOf(book, relay).consecutiveFailures + 1, U32_MAX);
    RelayProviders.MultiplierIsPower(Min(SatSub(n, 1), 4));
  }

  lemma {:induction false} ActiveOnlyMeaning(queue: seq<Session>, now: nat, s: Session)
    ensures multiset(ActiveOnly(queue, now))[s] == if Unexpired(s, now) then multiset(queue)[s] else 0
  {
    if queue != [] {
      ActiveOnlyMeaning(queue[1..], now, s);
      assert queue == [queue[0]] + queue[1..];
      UnexpiredIsActive(queue[0], now);
      hide Unexpired, IsActive;
    }
  }

  lemma UnexpiredIsActive(s: Session, now: nat)
    ensures IsActive(s, now) <==> Unexpired(s, now)
  {
  }

  /** The prunes keep the sessions, active and queued, that are unexpired and have both endpoints, and no
      queue that is empty. */
  lemma {:induction false} SessionPrunesKeepExactly(st: State, now: nat, p: string, s: Session)
    ensures Lookup(Step(st, ExpireSessions(now)).0.sessions, p) ==
              if p in st.sessions && Unexpired(st.sessions[p], now) then Some(st.sessions[p]) else None
    ensures multiset(QueueOf(Step(st, ExpireStandby(now)).0.standby, p))[s] ==
              if Unexpired(s, now) then multiset(QueueOf(st.standby, p))[s] else 0
    ensures var queues := Step(st, ExpireStandby(now)).0.standby; p in queues <==> QueueOf(queues, p) != []
  {
    if p in st.sessions { UnexpiredIsActive(st.sessions[p], now); }
    hide IsActive, Unexpired, ActiveOnly;
    if p in st.standby { ActiveOnlyMeaning(st.standby[p], now, s); }
  }

  /** The prunes keep the cooldowns that have not ended, and of an operator's record all but one that has, and
      no record with nothing in it. */
  lemma {:induction false} CooldownPrunesKeepExactly(st: State, now: nat, key: string)
    ensures Lookup(Step(st, ExpireFailures(now)).0.failures, key) ==
              if key in st.failures && st.failures[key] > now then Some(st.failures[key]) else None
    ensures Lookup(Step(st, ExpireProviders(now)).0.providers, key) ==
              if key !in st.providers then None
              else
                var was := st.providers[key];
                var cooldown := if was.cooldownUntil.Some? && was.cooldownUntil.value > now then was.cooldownUntil else None;
                if was.verifiedAt == None && cooldown == None && was.lastFailureAt == None && was.lastProbeAt == None then None
                else Some(was.(cooldownUntil := cooldown))
  {
  }
}
