/** Pruning is housekeeping: it changes no later answer of the books it cleans, and along
    a whole run the failure and provider prunes change nothing anyone can see. */
module RelayPruning {
  import opened Common
  import opened RelayState
  import opened RelayReconcile
  import opened RelayProtocol
  import opened RelayProviders

  // ---- Single queries ----

  /** Failure cooldowns answer the same at every later time. */
  lemma CooldownSurvivesPrune(failures: Failures, now: nat, t: nat, p: string, relay: string)
    requires t >= now
    ensures InCooldown(PruneFailures(failures, now), p, relay, t) == InCooldown(failures, p, relay, t)
  {
  }

  /** So do all three questions asked of the provider book. */
  lemma ProviderQueriesSurvivePrune(book: ProviderBook, now: nat, t: nat, relay: string)
    requires t >= now
    ensures var kept := PruneProviders(book, now);
            && ProviderInCooldown(kept, relay, t) == ProviderInCooldown(book, relay, t)
            && ProbeDue(kept, relay, t) == ProbeDue(book, relay, t)
            && ProviderSortKey(kept, relay, t) == ProviderSortKey(book, relay, t)
  {
  }

  function FirstUsable(queue: seq<Session>, failures: Failures, p: string, t: nat): Option<Session>
  {
    if queue == [] then None
    else if Usable(queue[0], failures, p, t) then Some(queue[0])
    else FirstUsable(queue[1..], failures, p, t)
  }

  lemma {:induction false} NextUsableIsFirst(queue: seq<Session>, failures: Failures, p: string, t: nat)
    ensures var i := NextUsable(queue, failures, p, t);
            FirstUsable(queue, failures, p, t) == if i < |queue| then Some(queue[i]) else None
  {
    if queue != [] { NextUsableIsFirst(queue[1..], failures, p, t); }
  }

  lemma ExpiredStaysUnusable(s: Session, now: nat, failures: Failures, p: string, t: nat)
    requires t >= now && !IsActive(s, now)
    ensures !Usable(s, failures, p, t)
  {
  }

  lemma {:induction false} FirstUsableAfterPrune(queue: seq<Session>, now: nat, failures: Failures, p: string, t: nat)
    requires t >= now
    ensures FirstUsable(ActiveOnly(queue, now), failures, p, t) == FirstUsable(queue, failures, p, t)
  {
    if queue != [] {
      FirstUsableAfterPrune(queue[1..], now, failures, p, t);
      var rest := ActiveOnly(queue[1..], now);
      if IsActive(queue[0], now) {
        assert ([queue[0]] + rest)[1..] == rest;
      } else {
        assert ActiveOnly(queue, now) == rest;
        ExpiredStaysUnusable(queue[0], now, failures, p, t);
      }
    }
  }

  /** A later pop promotes the same session from pruned queues. */
  lemma PopSurvivesPrune(standby: Queues, now: nat, failures: Failures, p: string, t: nat)
    requires t >= now
    ensures PopResult(PruneStandby(standby, now), failures, p, t) == PopResult(standby, failures, p, t)
  {
    if p in standby {
      FirstUsableAfterPrune(standby[p], now, failures, p, t);
      NextUsableIsFirst(standby[p], failures, p, t);
      NextUsableIsFirst(ActiveOnly(standby[p], now), failures, p, t);
    }
  }

  lemma {:induction false} ActiveOnlyElements(queue: seq<Session>, now: nat)
    ensures forall s :: s in ActiveOnly(queue, now) <==> s in queue && IsActive(s, now)
  {
    if queue != [] {
      ActiveOnlyElements(queue[1..], now);
      assert queue == [queue[0]] + queue[1..];
    }
  }

  predicate HoldsLiveMatch(queue: seq<Session>, s: Session, now: nat)
  {
    exists k :: 0 <= k < |queue| && SameEndpoints(queue[k], s) && IsActive(queue[k], now)
  }

  lemma MatchesAfterPrune(queue: seq<Session>, s: Session, now: nat)
    ensures HoldsMatch(ActiveOnly(queue, now), s) <==> HoldsLiveMatch(queue, s, now)
  {
    var kept := ActiveOnly(queue, now);
    ActiveOnlyElements(queue, now);
    if HoldsMatch(kept, s) {
      var k :| 0 <= k < |kept| && SameEndpoints(kept[k], s);
      assert kept[k] in queue;
    }
    if HoldsLiveMatch(queue, s, now) {
      var k :| 0 <= k < |queue| && SameEndpoints(queue[k], s) && IsActive(queue[k], now);
      assert queue[k] in kept;
    }
  }

  /** Queueing is not such a question: pruning first lets a grant in exactly when the queue
      held a match for it but every match had expired. */
  lemma QueueingSeesPrune(standby: Queues, now: nat, p: string, s: Session)
    ensures QueueStandby(PruneStandby(standby, now), p, s).1 != QueueStandby(standby, p, s).1
       <==> HoldsMatch(QueueOf(standby, p), s) && !HoldsLiveMatch(QueueOf(standby, p), s, now)
  {
    var queue := QueueOf(standby, p);
    MatchesAfterPrune(queue, s, now);
    assert QueueOf(PruneStandby(standby, now), p) == ActiveOnly(queue, now);
  }

  // ---- Whole runs ----

  function Live(failures: Failures, key: string, t: nat): Option<nat>
  {
    if key in failures && failures[key] > t then Some(failures[key]) else None
  }

  /** Two states that differ only in cooldowns that have run out by `t`. */
  ghost predicate FailuresAlike(f: Failures, g: Failures, t: nat)
  {
    forall key :: Live(f, key, t) == Live(g, key, t)
  }

  ghost predicate BooksAlike(b: ProviderBook, c: ProviderBook, t: nat)
  {
    && b.Keys == c.Keys
    && forall relay :: relay in b ==> ClearExpiredCooldown(b[relay], t) == ClearExpiredCooldown(c[relay], t)
  }

  ghost predicate Alike(a: State, b: State, t: nat)
  {
    && a.sessions == b.sessions && a.standby == b.standby && a.pending == b.pending
    && FailuresAlike(a.failures, b.failures, t)
    && BooksAlike(a.providers, b.providers, t)
  }

  lemma AlikeLater(a: State, b: State, t: nat, later: nat)
    requires Alike(a, b, t) && t <= later
    ensures Alike(a, b, later)
  {
    forall key ensures Live(a.failures, key, later) == Live(b.failures, key, later) {
      assert Live(a.failures, key, t) == Live(b.failures, key, t);
    }
  }

  lemma SameCooldown(f: Failures, g: Failures, now: nat, p: string, relay: string)
    requires FailuresAlike(f, g, now)
    ensures InCooldown(f, p, relay, now) == InCooldown(g, p, relay, now)
  {
    assert Live(f, FailureKey(p, relay), now) == Live(g, FailureKey(p, relay), now);
  }

  lemma SameProviderAnswers(b: ProviderBook, c: ProviderBook, now: nat, relay: string)
    requires BooksAlike(b, c, now)
    ensures ProviderInCooldown(b, relay, now) == ProviderInCooldown(c, relay, now)
    ensures ProbeDue(b, relay, now) == ProbeDue(c, relay, now)
    ensures ProviderSortKey(b, relay, now) == ProviderSortKey(c, relay, now)
  {
  }

  lemma NoteFailedAlike(f: Failures, g: Failures, now: nat, p: string, relay: string)
    requires FailuresAlike(f, g, now)
    ensures FailuresAlike(NoteFailed(f, p, relay, now), NoteFailed(g, p, relay, now), now)
  {
    var f', g' := NoteFailed(f, p, relay, now), NoteFailed(g, p, relay, now);
    forall key ensures Live(f', key, now) == Live(g', key, now) {
      assert Live(f, key, now) == Live(g, key, now);
    }
  }

  /** Writing alike entries keeps two alike books alike. */
  lemma EntryAlike(b: ProviderBook, c: ProviderBook, now: nat, relay: string, one: Provider, two: Provider)
    requires BooksAlike(b, c, now) && ClearExpiredCooldown(one, now) == ClearExpiredCooldown(two, now)
    ensures BooksAlike(b[relay := one], c[relay := two], now)
  {
    hide ClearExpiredCooldown;
  }

  lemma AlikeEntries(b: ProviderBook, c: ProviderBook, now: nat, relay: string)
    requires BooksAlike(b, c, now)
    ensures ClearExpiredCooldown(ProviderOf(b, relay), now) == ClearExpiredCooldown(ProviderOf(c, relay), now)
  {
  }

  /** Every note, at any time, keeps two alike books alike. */
  lemma {:induction false} NoteAlike(b: ProviderBook, c: ProviderBook, now: nat, relay: string, at: nat, retryAfter: Option<nat>)
    requires BooksAlike(b, c, now)
    ensures BooksAlike(NoteVerified(b, relay, at), NoteVerified(c, relay, at), now)
    ensures BooksAlike(NoteProbe(b, relay, at), NoteProbe(c, relay, at), now)
    ensures BooksAlike(NoteProviderFailed(b, relay, at, retryAfter), NoteProviderFailed(c, relay, at, retryAfter), now)
  {
    hide BooksAlike, ProviderOf, Cooldown;
    AlikeEntries(b, c, now, relay);
    EntryAlike(b, c, now, relay, NoteVerified(b, relay, at)[relay], NoteVerified(c, relay, at)[relay]);
    EntryAlike(b, c, now, relay, NoteProbe(b, relay, at)[relay], NoteProbe(c, relay, at)[relay]);
    EntryAlike(b, c, now, relay, NoteProviderFailed(b, relay, at, retryAfter)[relay], NoteProviderFailed(c, relay, at, retryAfter)[relay]);
  }

  lemma VisitAlike(a: State, b: State, peers: RuntimePeers, p: string, now: nat)
    requires Alike(a, b, now)
    ensures Alike(Visit(a, peers, p, now).0, Visit(b, peers, p, now).0, now)
    ensures Visit(a, peers, p, now).1 == Visit(b, peers, p, now).1
  {
    hide Visit, Judge, PopResult, PopRest, NoteFailed, NoteVerified, NoteProviderFailed, FailuresAlike, BooksAlike;
    if p in a.sessions {
      var s := a.sessions[p];
      var f, g := SeenFailures(a, peers, p, now), SeenFailures(b, peers, p, now);
      VisitParts(a, peers, p, now);
      VisitParts(b, peers, p, now);
      NoteFailedAlike(a.failures, b.failures, now, p, s.relay);
      PopAlike(a.standby, f, g, p, now);
      var verdict := Judge(peers, p, s, now);
      NoteAlike(a.providers, b.providers, now, s.relay, if verdict.Confirmed? then verdict.at else now, None);
    } else {
      assert Visit(a, peers, p, now) == (a, false) && Visit(b, peers, p, now) == (b, false) by { AbsentIsSkipped(a, peers, p, now); AbsentIsSkipped(b, peers, p, now); }
    }
  }

  lemma PopAlike(standby: Queues, f: Failures, g: Failures, p: string, now: nat)
    requires FailuresAlike(f, g, now)
    ensures PopResult(standby, f, p, now) == PopResult(standby, g, p, now)
    ensures PopRest(standby, f, p, now) == PopRest(standby, g, p, now)
  {
    forall relay ensures InCooldown(f, p, relay, now) == InCooldown(g, p, relay, now) {
      SameCooldown(f, g, now, p, relay);
    }
    if p in standby {
      NextUsableLocal(standby[p], f, g, p, now);
    }
  }

  lemma {:induction false} WalkAlike(a: State, b: State, peers: RuntimePeers, now: nat, order: seq<string>)
    requires Alike(a, b, now)
    ensures Alike(Walk(a, peers, now, order).0, Walk(b, peers, now, order).0, now)
    ensures Walk(a, peers, now, order).1 == Walk(b, peers, now, order).1
  {
    if order != [] {
      var last := |order| - 1;
      WalkAlike(a, b, peers, now, order[..last]);
      VisitAlike(Walk(a, peers, now, order[..last]).0, Walk(b, peers, now, order[..last]).0, peers, order[last], now);
    }
  }

  lemma {:induction false} SortAlike(b: ProviderBook, c: ProviderBook, now: nat, xs: seq<string>)
    requires BooksAlike(b, c, now)
    ensures SortByKey(b, now, xs) == SortByKey(c, now, xs)
  {
    if xs != [] {
      SortAlike(b, c, now, xs[1..]);
      InsertAlike(b, c, now, xs[0], SortByKey(b, now, xs[1..]));
    }
  }

  lemma {:induction false} InsertAlike(b: ProviderBook, c: ProviderBook, now: nat, x: string, xs: seq<string>)
    requires BooksAlike(b, c, now)
    ensures InsertByKey(b, now, x, xs) == InsertByKey(c, now, x, xs)
  {
    if xs != [] {
      SameProviderAnswers(b, c, now, x);
      SameProviderAnswers(b, c, now, xs[0]);
      InsertAlike(b, c, now, x, xs[1..]);
    }
  }

  lemma {:induction false} FiltersAlike(b: ProviderBook, c: ProviderBook, now: nat, xs: seq<string>)
    requires BooksAlike(b, c, now)
    ensures OutOfCooldown(b, now, xs) == OutOfCooldown(c, now, xs)
    ensures Due(b, now, xs) == Due(c, now, xs)
  {
    if xs != [] {
      SameProviderAnswers(b, c, now, xs[0]);
      FiltersAlike(b, c, now, xs[1..]);
    }
  }

  lemma PoolAlike(b: ProviderBook, c: ProviderBook, now: nat, relays: seq<string>)
    requires BooksAlike(b, c, now)
    ensures Pool(b, now, relays) == Pool(c, now, relays)
  {
    FiltersAlike(b, c, now, relays);
    SortAlike(b, c, now, OutOfCooldown(b, now, relays));
  }

  lemma {:induction false} EligibleAlike(pool: seq<string>, p: string, own: Option<string>, f: Failures, g: Failures, b: ProviderBook, c: ProviderBook, now: nat)
    requires FailuresAlike(f, g, now) && BooksAlike(b, c, now)
    ensures Eligible(pool, p, own, f, b, now) == Eligible(pool, p, own, g, c, now)
  {
    if pool != [] {
      SameCooldown(f, g, now, p, pool[0]);
      SameProviderAnswers(b, c, now, pool[0]);
      EligibleAlike(pool[1..], p, own, f, g, b, c, now);
    }
  }

  lemma {:induction false} RequestsAlike(participants: seq<string>, pool: seq<string>, own: Option<string>, f: Failures, g: Failures, b: ProviderBook, c: ProviderBook, now: nat)
    requires FailuresAlike(f, g, now) && BooksAlike(b, c, now)
    ensures AllRequests(participants, pool, own, f, b, now) == AllRequests(participants, pool, own, g, c, now)
  {
    if participants != [] {
      EligibleAlike(pool, participants[0], own, f, g, b, c, now);
      SortAlike(b, c, now, Eligible(pool, participants[0], own, f, b, now));
      RequestsAlike(participants[1..], pool, own, f, g, b, c, now);
    }
  }

  lemma {:induction false} ProbeAllAlike(b: ProviderBook, c: ProviderBook, now: nat, relays: seq<string>, outcome: string -> ProbeOutcome)
    requires BooksAlike(b, c, now)
    ensures BooksAlike(ProbeAll(b, now, relays, outcome), ProbeAll(c, now, relays, outcome), now)
    decreases relays
  {
    if relays != [] {
      var relay := relays[0];
      var retry := if outcome(relay).ProbeRejected? then outcome(relay).retryAfter else Some(PROVIDER_PROBE_RETRY_AFTER);
      NoteAlike(b, c, now, relay, now, None);
      var b', c' := NoteProbe(b, relay, now), NoteProbe(c, relay, now);
      NoteAlike(b', c', now, relay, now, retry);
      if outcome(relay).ProbeVerified? {
        ProbeAllAlike(NoteVerified(b', relay, now), NoteVerified(c', relay, now), now, relays[1..], outcome);
      } else {
        ProbeAllAlike(NoteProviderFailed(b', relay, now, retry), NoteProviderFailed(c', relay, now, retry), now, relays[1..], outcome);
      }
    }
  }

  lemma {:induction false} NeedingAlike(a: State, b: State, peers: seq<string>, now: nat)
    requires a.sessions == b.sessions && a.pending == b.pending
    ensures Needing(a, peers, now) == Needing(b, peers, now)
  {
    if peers != [] { NeedingAlike(a, b, peers[1..], now); }
  }

  lemma {:induction false} PlanAlike(a: State, b: State, ask: Ask, now: nat)
    requires Alike(a, b, now)
    ensures BooksAlike(Plan(a, ask, now).0, Plan(b, ask, now).0, now)
    ensures Plan(a, ask, now).1 == Plan(b, ask, now).1
  {
    NeedingAlike(a, b, ask.peers, now);
    PoolAlike(a.providers, b.providers, now, ask.discovered);
    var found := Found(a, ask, now);
    FiltersAlike(a.providers, b.providers, now, found);
    ProbeAllAlike(a.providers, b.providers, now, Take(Due(a.providers, now, found), MAX_PROVIDER_PROBES), ask.outcome);
    var b', c' := Probed(a, ask, now), Probed(b, ask, now);
    PoolAlike(b', c', now, found);
    RequestsAlike(Needing(a, ask.peers, now), Pool(b', now, found), ask.own, a.failures, b.failures, b', c', now);
  }

  lemma RejectionAlike(a: State, b: State, id: string, relay: string, retryAfter: Option<nat>, now: nat)
    requires Alike(a, b, now)
    ensures AcceptRejection(a, id, relay, retryAfter, now).1 == AcceptRejection(b, id, relay, retryAfter, now).1
    ensures Alike(AcceptRejection(a, id, relay, retryAfter, now).0, AcceptRejection(b, id, relay, retryAfter, now).0, now)
  {
    if id in a.pending && a.pending[id].relay == relay {
      var p := a.pending[id].participant;
      NoteFailedAlike(a.failures, b.failures, now, p, relay);
      NoteAlike(a.providers, b.providers, now, relay, now, retryAfter);
      var a', b' := AcceptRejection(a, id, relay, retryAfter, now).0, AcceptRejection(b, id, relay, retryAfter, now).0;
      assert a'.failures == NoteFailed(a.failures, p, relay, now) && b'.failures == NoteFailed(b.failures, p, relay, now);
      assert a'.providers == NoteProviderFailed(a.providers, relay, now, retryAfter);
      assert b'.providers == NoteProviderFailed(b.providers, relay, now, retryAfter);
    }
  }

  lemma ExpireFailuresAlike(f: Failures, g: Failures, now: nat)
    requires FailuresAlike(f, g, now)
    ensures FailuresAlike(PruneFailures(f, now), PruneFailures(g, now), now)
  {
    var f', g' := PruneFailures(f, now), PruneFailures(g, now);
    forall key ensures Live(f', key, now) == Live(g', key, now) {
      assert Live(f, key, now) == Live(g, key, now);
    }
  }

  lemma GrantKeepsBooks(st: State, grant: Grant, now: nat)
    ensures AcceptGrant(st, grant, now).0.failures == st.failures
    ensures AcceptGrant(st, grant, now).0.providers == st.providers
  {
  }

  /** A grant's effect depends on the sessions, queues, requests and one cooldown answer. */
  lemma GrantReads(a: State, b: State, grant: Grant, now: nat)
    requires a.sessions == b.sessions && a.standby == b.standby && a.pending == b.pending
    requires grant.id in a.pending ==>
               var request := a.pending[grant.id];
               InCooldown(a.failures, request.participant, request.relay, now) == InCooldown(b.failures, request.participant, request.relay, now)
    ensures AcceptGrant(a, grant, now).1 == AcceptGrant(b, grant, now).1
    ensures var a', b' := AcceptGrant(a, grant, now).0, AcceptGrant(b, grant, now).0;
            a'.sessions == b'.sessions && a'.standby == b'.standby && a'.pending == b'.pending
  {
    hide IsActive, InCooldown, SessionFrom, QueueStandby;
  }

  lemma GrantAlike(a: State, b: State, grant: Grant, now: nat)
    requires Alike(a, b, now)
    ensures AcceptGrant(a, grant, now).1 == AcceptGrant(b, grant, now).1
    ensures Alike(AcceptGrant(a, grant, now).0, AcceptGrant(b, grant, now).0, now)
  {
    GrantKeepsBooks(a, grant, now);
    GrantKeepsBooks(b, grant, now);
    if grant.id in a.pending {
      SameCooldown(a.failures, b.failures, now, a.pending[grant.id].participant, a.pending[grant.id].relay);
    }
    GrantReads(a, b, grant, now);
  }

  lemma StepAlike(a: State, b: State, e: Event)
    requires Alike(a, b, e.now)
    ensures Step(a, e).1 == Step(b, e).1
    ensures Alike(Step(a, e).0, Step(b, e).0, e.now)
  {
    hide AcceptGrant, AcceptRejection, Walk, Plan, Record;
    match e
    case AnnounceRequests(now, ask) =>
      PlanAlike(a.(pending := PrunePending(a.pending, now)), b.(pending := PrunePending(b.pending, now)), ask, now);
    case GrantArrives(now, grant) => GrantAlike(a, b, grant, now);
    case RejectionArrives(now, id, relay, retryAfter) => RejectionAlike(a, b, id, relay, retryAfter, now);
    case StateTick(now, peers, order) => WalkAlike(a, b, peers, now, order);
    case ExpireFailures(now) => ExpireFailuresAlike(a.failures, b.failures, now);
    case _ =>
  }

  function Outputs(st: State, events: seq<Event>): seq<Output>
  {
    if events == [] then []
    else
      var last := |events| - 1;
      Outputs(st, events[..last]) + [Step(Run(st, events[..last]), events[last]).1]
  }

  lemma {:induction false} RunsAlike(a: State, b: State, t: nat, events: seq<Event>)
    requires Alike(a, b, t) && InOrder(events)
    requires forall i :: 0 <= i < |events| ==> t <= events[i].now
    ensures Outputs(a, events) == Outputs(b, events)
    ensures Alike(Run(a, events), Run(b, events), if events == [] then t else events[|events| - 1].now)
  {
    if events != [] {
      var last := |events| - 1;
      RunsAlike(a, b, t, events[..last]);
      var before := if last == 0 then t else events[last - 1].now;
      AlikeLater(Run(a, events[..last]), Run(b, events[..last]), before, events[last].now);
      StepAlike(Run(a, events[..last]), Run(b, events[..last]), events[last]);
    }
  }

  lemma {:induction false} PruneIsAlike(past: seq<Event>, now: nat)
    ensures var st := Run(EMPTY, past);
            Alike(st, st.(failures := PruneFailures(st.failures, now), providers := PruneProviders(st.providers, now)), now)
  {
    PruneRemovesNoProvider(past, now);
  }

  /** Take any reachable state and prune its failure and provider books at `now`, or do not.
      Every later run, at times from `now` on, gives the same outputs (requests, grant actions,
      blamed and retired participants) and the same sessions, queues and pending requests. */
  lemma {:induction false} PruningIsInvisible(past: seq<Event>, now: nat, future: seq<Event>)
    requires InOrder(future) && forall i :: 0 <= i < |future| ==> now <= future[i].now
    ensures var st := Run(EMPTY, past);
            var pruned := st.(failures := PruneFailures(st.failures, now), providers := PruneProviders(st.providers, now));
            var one, two := Run(st, future), Run(pruned, future);
            && Outputs(st, future) == Outputs(pruned, future)
            && one.sessions == two.sessions && one.standby == two.standby && one.pending == two.pending
  {
    PruneIsAlike(past, now);
    var st := Run(EMPTY, past);
    var pruned := st.(failures := PruneFailures(st.failures, now), providers := PruneProviders(st.providers, now));
    RunsAlike(st, pruned, now, future);
  }
}
