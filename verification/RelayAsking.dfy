/** Whom a batch asks for and whom it asks: which participants get requests, from which relays, what
    is recorded of them, and which operators are probed before. */
module RelayAsking {
  import opened Common
  import opened RelayState
  import opened RelayReconcile
  import opened RelayProtocol
  import opened RelayCandidates
  import opened RelayVerdicts
  import RelayProviders
  import Decimal

  // ---- In plain terms ----

  /** A request for the participant younger than thirty seconds is pending. */
  predicate AskedLately(pending: map<string, Pending>, p: string, now: nat)
  {
    exists id :: id in pending && pending[id].participant == p && now < pending[id].requestedAt + 30
  }

  predicate WantsRelay(st: State, ask: Ask, p: string, now: nat)
  {
    p in ask.peers && !IsServed(st, p, now) && !AskedLately(st.pending, p, now)
  }

  predicate OperatorCools(book: ProviderBook, relay: string, now: nat)
  {
    relay in book && book[relay].cooldownUntil.Some? && book[relay].cooldownUntil.value > now
  }

  /** The relay may serve the participant: it is neither the participant nor this node, and neither
      it nor its operator is cooling down. */
  predicate MayServe(relay: string, p: string, own: Option<string>, failures: Failures, book: ProviderBook, now: nat)
  {
    var key := p + ":" + relay;
    && relay != p && own != Some(relay)
    && (key in failures ==> failures[key] <= now)
    && !OperatorCools(book, relay, now)
  }

  function LastFailed(book: ProviderBook, relay: string): nat
  {
    if relay in book && book[relay].lastFailureAt.Some? then book[relay].lastFailureAt.value else 0
  }

  function VerifiedTime(book: ProviderBook, relay: string): Option<nat>
  {
    if relay in book then book[relay].verifiedAt else None
  }

  /** Of two relays not cooling down, the first goes before the second: it alone is verified, or was
      verified later, or else failed longer ago. */
  predicate Prefers(book: ProviderBook, a: string, b: string)
  {
    var x, y := VerifiedTime(book, a), VerifiedTime(book, b);
    || (x.Some? && y.None?)
    || (x.Some? && y.Some? && x.value > y.value)
    || (x == y && LastFailed(book, a) < LastFailed(book, b))
  }

  lemma PrefersIsRank(book: ProviderBook, a: string, b: string, now: nat)
    requires !OperatorCools(book, a, now) && !OperatorCools(book, b, now)
    ensures Prefers(book, a, b) <==> !KeyAtMost(ProviderSortKey(book, b, now), ProviderSortKey(book, a, now))
  {
  }

  /** Operators that cool down rank behind all others. */
  lemma CoolingGoesLast(book: ProviderBook, a: string, b: string, now: nat)
    requires OperatorCools(book, a, now) && !OperatorCools(book, b, now)
    ensures KeyAtMost(ProviderSortKey(book, b, now), ProviderSortKey(book, a, now))
    ensures !KeyAtMost(ProviderSortKey(book, a, now), ProviderSortKey(book, b, now))
  {
  }

  // ---- The pool ----

  lemma {:induction false} OutOfCooldownElems(book: ProviderBook, now: nat, xs: seq<string>)
    ensures forall r :: r in OutOfCooldown(book, now, xs) <==> r in xs && !OperatorCools(book, r, now)
  {
    if xs != [] {
      OutOfCooldownElems(book, now, xs[1..]);
      assert xs == [xs[0]] + xs[1..];
    }
  }

  lemma {:induction false} DedupElems(xs: seq<string>)
    ensures forall r :: r in DedupAdjacent(xs) <==> r in xs
  {
    if |xs| >= 2 {
      DedupElems(xs[1..]);
      assert xs == [xs[0]] + xs[1..];
    }
  }

  lemma SortElems(book: ProviderBook, now: nat, xs: seq<string>)
    ensures forall r :: r in SortByKey(book, now, xs) <==> r in xs
  {
    assert forall r :: r in xs <==> r in multiset(xs);
    assert forall r :: r in SortByKey(book, now, xs) <==> r in multiset(SortByKey(book, now, xs));
  }

  lemma PoolElems(book: ProviderBook, now: nat, xs: seq<string>)
    ensures forall r :: r in Pool(book, now, xs) <==> r in xs && !OperatorCools(book, r, now)
  {
    hide OperatorCools;
    OutOfCooldownElems(book, now, xs);
    SortElems(book, now, OutOfCooldown(book, now, xs));
    DedupElems(SortByKey(book, now, OutOfCooldown(book, now, xs)));
  }

  // ---- Who needs a relay ----

  lemma {:induction false} NeedingExactly(st: State, peers: seq<string>, now: nat, p: string)
    ensures p in Needing(st, peers, now) <==> p in peers && NeedsRelay(st, p, now)
  {
    hide NeedsRelay;
    if peers != [] {
      NeedingExactly(st, peers[1..], now, p);
      assert peers == [peers[0]] + peers[1..];
    }
  }

  lemma NeedMeaning(st: State, p: string, now: nat)
    ensures NeedsRelay(st.(pending := PrunePending(st.pending, now)), p, now) <==> !IsServed(st, p, now) && !AskedLately(st.pending, p, now)
  {
    if p in st.sessions { UnexpiredIsActive(st.sessions[p], now); }
    hide IsActive, Unexpired;
    var kept := PrunePending(st.pending, now);
    if AskedLately(st.pending, p, now) {
      var id :| id in st.pending && st.pending[id].participant == p && now < st.pending[id].requestedAt + 30;
      assert id in kept && kept[id] == st.pending[id];
      assert HasRecentRequest(kept, p, now);
    }
    if HasRecentRequest(kept, p, now) {
      var id :| id in kept && kept[id].participant == p && SatSub(now, kept[id].requestedAt) < REQUEST_RETRY_AFTER;
      assert id in st.pending && kept[id] == st.pending[id];
    }
  }

  lemma WantsExactly(st: State, ask: Ask, now: nat, p: string)
    ensures p in Needing(st.(pending := PrunePending(st.pending, now)), ask.peers, now) <==> WantsRelay(st, ask, p, now)
  {
    NeedMeaning(st, p, now);
    NeedingExactly(st.(pending := PrunePending(st.pending, now)), ask.peers, now, p);
  }

  // ---- Probes ----

  lemma {:induction false} ProbedElsewhere(book: ProviderBook, now: nat, relays: seq<string>, outcome: string -> ProbeOutcome, r: string)
    requires r !in relays
    ensures Lookup(ProbeAll(book, now, relays, outcome), r) == Lookup(book, r)
    decreases relays
  {
    if relays != [] {
      var tried := NoteProbe(book, relays[0], now);
      var next :=
        match outcome(relays[0])
        case ProbeVerified => NoteVerified(tried, relays[0], now)
        case ProbeRejected(retry) => NoteProviderFailed(tried, relays[0], now, retry)
        case ProbeFailed => NoteProviderFailed(tried, relays[0], now, Some(PROVIDER_PROBE_RETRY_AFTER));
      assert relays == [relays[0]] + relays[1..];
      ProbedElsewhere(next, now, relays[1..], outcome, r);
    }
  }

  lemma TakeElems(xs: seq<string>, n: nat)
    ensures forall r :: r in Take(xs, n) ==> r in xs
  {
  }

  lemma {:induction false} DueElems(book: ProviderBook, now: nat, relays: seq<string>)
    ensures forall r :: r in Due(book, now, relays) <==> r in relays && ProbeDue(book, r, now)
  {
    if relays != [] {
      DueElems(book, now, relays[1..]);
      assert relays == [relays[0]] + relays[1..];
    }
  }

  /** Probing takes nobody out of a cooldown that was on before. */
  lemma StillCooling(st: State, ask: Ask, now: nat, r: string)
    requires r in ask.discovered && !OperatorCools(Probed(st, ask, now), r, now)
    ensures r in Found(st, ask, now)
  {
    var found := Found(st, ask, now);
    PoolElems(st.providers, now, ask.discovered);
    if r !in found {
      var due := Due(st.providers, now, found);
      DueElems(st.providers, now, found);
      TakeElems(due, MAX_PROVIDER_PROBES);
      ProbedElsewhere(st.providers, now, Take(due, MAX_PROVIDER_PROBES), ask.outcome, r);
    }
  }

  // ---- The requests ----

  lemma {:induction false} RequestsExactly(participants: seq<string>, pool: seq<string>, own: Option<string>, failures: Failures, book: ProviderBook, now: nat, p: string, r: string)
    ensures Request(p, r) in AllRequests(participants, pool, own, failures, book, now) <==>
              p in participants && r in Candidates(pool, p, own, failures, book, now)
  {
    if participants != [] {
      hide Candidates;
      var mine := RequestsTo(participants[0], Candidates(pool, participants[0], own, failures, book, now));
      RequestsExactly(participants[1..], pool, own, failures, book, now, p, r);
      assert participants == [participants[0]] + participants[1..];
      InRequestsTo(participants[0], Candidates(pool, participants[0], own, failures, book, now), p, r);
      assert Request(p, r) in mine + AllRequests(participants[1..], pool, own, failures, book, now) <==>
        Request(p, r) in mine || Request(p, r) in AllRequests(participants[1..], pool, own, failures, book, now);
    }
  }

  lemma InRequestsTo(head: string, relays: seq<string>, p: string, r: string)
    ensures Request(p, r) in RequestsTo(head, relays) <==> p == head && r in relays
  {
    var mine := RequestsTo(head, relays);
    if p == head && r in relays {
      var k :| 0 <= k < |relays| && relays[k] == r;
      assert mine[k] == Request(p, r);
    }
  }

  lemma AdmissibleMeaning(r: string, p: string, own: Option<string>, failures: Failures, book: ProviderBook, now: nat)
    ensures Admissible(r, p, own, failures, book, now) <==> MayServe(r, p, own, failures, book, now)
  {
  }

  /** The relays a batch asks for a participant who wants one, told from the books after its probes. */
  ghost predicate AsksBest(st: State, ask: Ask, now: nat, p: string, book: ProviderBook, chosen: seq<string>)
  {
    && |chosen| <= 3
    && (forall r :: r in chosen ==> r in ask.discovered && MayServe(r, p, ask.own, st.failures, book, now))
    && (forall r :: r in ask.discovered && MayServe(r, p, ask.own, st.failures, book, now) && r !in chosen ==>
          |chosen| == 3 && forall c :: c in chosen ==> !Prefers(book, r, c))
  }

  lemma {:induction false} ChosenAreBest(st: State, ask: Ask, now: nat, p: string)
    ensures var book := Probed(st, ask, now);
            AsksBest(st, ask, now, p, book, Candidates(Pool(book, now, Found(st, ask, now)), p, ask.own, st.failures, book, now))
  {
    hide Candidates, Pool, Found, Probed, Prefers, Admissible, MayServe, OperatorCools, KeyAtMost, ProviderSortKey;
    var book, found := Probed(st, ask, now), Found(st, ask, now);
    var pool := Pool(book, now, found);
    var chosen := Candidates(pool, p, ask.own, st.failures, book, now);
    CandidatesAreTheBest(pool, p, ask.own, st.failures, book, now);
    PoolElems(book, now, found);
    FoundElems(st, ask, now);
    forall r ensures Admissible(r, p, ask.own, st.failures, book, now) <==> MayServe(r, p, ask.own, st.failures, book, now) {
      AdmissibleMeaning(r, p, ask.own, st.failures, book, now);
    }
    forall r | r in ask.discovered && MayServe(r, p, ask.own, st.failures, book, now) ensures r in pool && !OperatorCools(book, r, now) {
      NotCooling(r, p, ask.own, st.failures, book, now);
      StillCooling(st, ask, now, r);
    }
    forall r, c | r in ask.discovered && MayServe(r, p, ask.own, st.failures, book, now) && r !in chosen && c in chosen
      ensures !Prefers(book, r, c)
    {
      PrefersIsRank(book, r, c, now);
    }
  }

  lemma NotCooling(relay: string, p: string, own: Option<string>, failures: Failures, book: ProviderBook, now: nat)
    requires MayServe(relay, p, own, failures, book, now)
    ensures !OperatorCools(book, relay, now)
  {
  }

  lemma FoundElems(st: State, ask: Ask, now: nat)
    ensures forall r :: r in Found(st, ask, now) ==> r in ask.discovered
  {
    PoolElems(st.providers, now, ask.discovered);
  }

  ghost predicate AskedFor(requests: seq<Request>, p: string, chosen: seq<string>)
  {
    forall r :: Request(p, r) in requests <==> r in chosen
  }

  lemma {:induction false} NothingFound(st: State, ask: Ask, now: nat, p: string)
    requires Found(st, ask, now) == []
    ensures AsksBest(st, ask, now, p, st.providers, [])
  {
    FoundIs(st, ask, now);
    hide Found, Pool, Prefers, OperatorCools, MayServe;
    PoolElems(st.providers, now, ask.discovered);
    forall r | r in ask.discovered ensures !MayServe(r, p, ask.own, st.failures, st.providers, now) {
      if MayServe(r, p, ask.own, st.failures, st.providers, now) { NotCooling(r, p, ask.own, st.failures, st.providers, now); }
    }
  }

  lemma FoundIs(st: State, ask: Ask, now: nat)
    ensures Found(st, ask, now) == Pool(st.providers, now, ask.discovered)
  {
  }

  /** The three shapes of a plan. */
  lemma PlanParts(st: State, ask: Ask, now: nat)
    ensures var (book, requests) := Plan(st, ask, now);
            if Needing(st, ask.peers, now) == [] || Found(st, ask, now) == [] then book == st.providers && requests == []
            else
              var wanted := AllRequests(Needing(st, ask.peers, now), Pool(book, now, Found(st, ask, now)), ask.own, st.failures, book, now);
              && book == Probed(st, ask, now)
              && requests <= wanted && (|requests| < ask.published ==> requests == wanted)
  {
    hide Probed, Needing, Found, AllRequests, Pool;
  }

  /** If the client does not fail, a batch asks for each participant that wants a relay the best three
      of the relays that may serve it, or all if there are fewer, and for nobody else. */
  lemma {:induction false} BatchAsksBest(st: State, ask: Ask, now: nat, p: string)
    ensures var (end, out) := RequestBatch(st, ask, now);
            && out.Requested?
            && (|out.requests| < ask.published ==>
                  exists chosen :: AskedFor(out.requests, p, chosen)
                    && if WantsRelay(st, ask, p, now) then AsksBest(st, ask, now, p, end.providers, chosen) else chosen == [])
  {
    hide Plan, Needing, Found, Pool, Probed, Candidates, AllRequests, WantsRelay, AsksBest;
    var kept := st.(pending := PrunePending(st.pending, now));
    var (end, out) := RequestBatch(st, ask, now);
    PlanParts(kept, ask, now);
    WantsExactly(st, ask, now, p);
    if |out.requests| < ask.published {
      var needing, found := Needing(kept, ask.peers, now), Found(kept, ask, now);
      if needing == [] || found == [] {
        assert AskedFor(out.requests, p, []);
        if found == [] { NothingFound(kept, ask, now, p); SameAsks(st, kept, ask, now, p, end.providers, []); }
      } else {
        var pool := Pool(end.providers, now, found);
        var chosen := if p in needing then Candidates(pool, p, ask.own, st.failures, end.providers, now) else [];
        forall r ensures Request(p, r) in out.requests <==> r in chosen {
          RequestsExactly(needing, pool, ask.own, st.failures, end.providers, now, p, r);
        }
        assert AskedFor(out.requests, p, chosen);
        ChosenAreBest(kept, ask, now, p);
        SameAsks(st, kept, ask, now, p, end.providers, chosen);
      }
    }
  }

  /** Which relays are best does not depend on the pending requests. */
  lemma SameAsks(st: State, kept: State, ask: Ask, now: nat, p: string, book: ProviderBook, chosen: seq<string>)
    requires kept.failures == st.failures
    ensures AsksBest(st, ask, now, p, book, chosen) <==> AsksBest(kept, ask, now, p, book, chosen)
  {
    hide MayServe, Prefers;
  }

  /** If the client does not fail, some request is published for a participant exactly if it is a peer without
      an active session and without a request younger than thirty seconds, and some discovered relay, neither
      it nor this node, is out of both cooldowns after the probes. */
  lemma {:induction false} BatchAsksExactly(st: State, ask: Ask, now: nat, p: string)
    ensures var (end, out) := RequestBatch(st, ask, now);
            && out.Requested?
            && (|out.requests| < ask.published ==>
                  ((exists r :: Request(p, r) in out.requests) <==>
                     WantsRelay(st, ask, p, now)
                     && exists r :: r in ask.discovered && MayServe(r, p, ask.own, st.failures, end.providers, now)))
  {
    hide RequestBatch, WantsRelay, MayServe, Prefers;
    BatchAsksBest(st, ask, now, p);
    var (end, out) := RequestBatch(st, ask, now);
    if |out.requests| < ask.published {
      var chosen :| AskedFor(out.requests, p, chosen)
                    && if WantsRelay(st, ask, p, now) then AsksBest(st, ask, now, p, end.providers, chosen) else chosen == [];
      if chosen != [] { assert chosen[0] in chosen; }
    }
  }

  /** Even if the client fails on the way, every request published is one that was wanted. */
  lemma {:induction false} NoNeedlessRequest(st: State, ask: Ask, now: nat, p: string, r: string)
    requires RequestBatch(st, ask, now).1.Requested? && Request(p, r) in RequestBatch(st, ask, now).1.requests
    ensures WantsRelay(st, ask, p, now) && r in ask.discovered && MayServe(r, p, ask.own, st.failures, RequestBatch(st, ask, now).0.providers, now)
  {
    hide Plan, Needing, Found, Pool, Probed, Candidates, AllRequests, WantsRelay, MayServe, Prefers;
    var kept := st.(pending := PrunePending(st.pending, now));
    var (end, out) := RequestBatch(st, ask, now);
    PlanParts(kept, ask, now);
    WantsExactly(st, ask, now, p);
    var needing, found := Needing(kept, ask.peers, now), Found(kept, ask, now);
    RequestsExactly(needing, Pool(end.providers, now, found), ask.own, st.failures, end.providers, now, p, r);
    ChosenAreBest(kept, ask, now, p);
  }

  // ---- What is recorded ----

  function IdOf(network: string, p: string, r: string, now: nat): string
  {
    network + ":" + p + ":" + r + ":" + Decimal.Print(now)
  }

  lemma {:induction false} RecordMeaning(pending: map<string, Pending>, network: string, requests: seq<Request>, now: nat, id: string)
    ensures var after := Lookup(Record(pending, network, requests, now), id);
            if exists p, r :: Request(p, r) in requests && id == IdOf(network, p, r, now) then
              exists p, r :: Request(p, r) in requests && id == IdOf(network, p, r, now) && after == Some(Pending(p, r, now))
            else after == Lookup(pending, id)
  {
    hide IdOf, Decimal.Print;
    if requests != [] {
      var last := |requests| - 1;
      var q := requests[last];
      RecordMeaning(pending, network, requests[..last], now, id);
      assert requests == requests[..last] + [q];
      IdAgrees(network, q, now);
      assert q == Request(q.participant, q.relay);
    }
  }

  lemma IdAgrees(network: string, q: Request, now: nat)
    ensures RequestId(network, q, now) == IdOf(network, q.participant, q.relay, now)
  {
  }

  /** After a batch the pending requests are those of the last two minutes and those just published, each under
      the text of network, participant, relay and time. */
  lemma {:induction false} BatchRecords(st: State, ask: Ask, now: nat, id: string)
    ensures var (end, out) := RequestBatch(st, ask, now);
            && out.Requested?
            && if exists p, r :: Request(p, r) in out.requests && id == IdOf(ask.network, p, r, now) then
                 exists p, r :: Request(p, r) in out.requests && id == IdOf(ask.network, p, r, now)
                                && Lookup(end.pending, id) == Some(Pending(p, r, now))
               else
                 Lookup(end.pending, id) == if id in st.pending && now < st.pending[id].requestedAt + 120 then Some(st.pending[id]) else None
  {
    hide Plan, Record, IdOf;
    var (end, out) := RequestBatch(st, ask, now);
    RecordMeaning(PrunePending(st.pending, now), ask.network, out.requests, now, id);
  }

  // ---- Which operators are probed ----

  /** Never verified, not cooling down, and not probed within the last minute. */
  predicate IsDue(book: ProviderBook, relay: string, now: nat)
  {
    relay in book ==>
      && book[relay].verifiedAt.None? && !OperatorCools(book, relay, now)
      && (book[relay].lastProbeAt.Some? ==> book[relay].lastProbeAt.value + 60 <= now)
  }

  /** The record of an operator after a probe: as after a confirmation, or after one more failure, for which the
      operator may ask for a base of its own. */
  function AfterProbe(was: Provider, outcome: ProbeOutcome, now: nat): Provider
  {
    if outcome.ProbeVerified? then Provider(Some(now), None, None, Some(now), 0)
    else
      var n := if was.consecutiveFailures < 0xFFFF_FFFF then was.consecutiveFailures + 1 else 0xFFFF_FFFF;
      var base := if outcome.ProbeFailed? || outcome.retryAfter.None? then 60
                  else if outcome.retryAfter.value == 0 then 1 else outcome.retryAfter.value;
      Provider(was.verifiedAt, Some(now + RelayProviders.Backoff(base, n)), Some(now), Some(now), n)
  }

  lemma {:induction false} ProbedThere(book: ProviderBook, now: nat, relays: seq<string>, outcome: string -> ProbeOutcome, r: string)
    requires Distinct(relays) && r in relays
    ensures Lookup(ProbeAll(book, now, relays, outcome), r) == Some(AfterProbe(ProviderOf(book, r), outcome(r), now))
    decreases relays
  {
    var tried := NoteProbe(book, relays[0], now);
    var next :=
      match outcome(relays[0])
      case ProbeVerified => NoteVerified(tried, relays[0], now)
      case ProbeRejected(retry) => NoteProviderFailed(tried, relays[0], now, retry)
      case ProbeFailed => NoteProviderFailed(tried, relays[0], now, Some(PROVIDER_PROBE_RETRY_AFTER));
    assert relays == [relays[0]] + relays[1..];
    if r == relays[0] {
      ProbeNoted(book, r, outcome(r), now);
      ProbedElsewhere(next, now, relays[1..], outcome, r);
    } else {
      hide NoteProbe, NoteVerified, NoteProviderFailed, AfterProbe, ProviderOf;
      NotedElsewhere(book, relays[0], outcome(relays[0]), now, r);
      ProbedThere(next, now, relays[1..], outcome, r);
    }
  }

  lemma ProbeNoted(book: ProviderBook, r: string, outcome: ProbeOutcome, now: nat)
    ensures var tried := NoteProbe(book, r, now);
            var next :=
              match outcome
              case ProbeVerified => NoteVerified(tried, r, now)
              case ProbeRejected(retry) => NoteProviderFailed(tried, r, now, retry)
              case ProbeFailed => NoteProviderFailed(tried, r, now, Some(PROVIDER_PROBE_RETRY_AFTER));
            Lookup(next, r) == Some(AfterProbe(ProviderOf(book, r), outcome, now))
  {
    var n := Min(ProviderOf(book, r).consecutiveFailures + 1, U32_MAX);
    RelayProviders.MultiplierIsPower(Min(SatSub(n, 1), 4));
  }

  lemma NotedElsewhere(book: ProviderBook, r: string, outcome: ProbeOutcome, now: nat, other: string)
    requires other != r
    ensures var tried := NoteProbe(book, r, now);
            var next :=
              match outcome
              case ProbeVerified => NoteVerified(tried, r, now)
              case ProbeRejected(retry) => NoteProviderFailed(tried, r, now, retry)
              case ProbeFailed => NoteProviderFailed(tried, r, now, Some(PROVIDER_PROBE_RETRY_AFTER));
            Lookup(next, other) == Lookup(book, other) && ProviderOf(next, other) == ProviderOf(book, other)
  {
  }

  lemma {:induction false} DistinctCounts(xs: seq<string>)
    ensures Distinct(xs) <==> forall x :: multiset(xs)[x] <= 1
  {
    if xs != [] {
      var rest := xs[1..];
      DistinctCounts(rest);
      assert xs == [xs[0]] + rest;
      assert multiset(xs)[xs[0]] == 1 + multiset(rest)[xs[0]];
      if Distinct(xs) { assert xs[0] !in rest; }
      if forall x :: multiset(xs)[x] <= 1 {
        assert xs[0] !in multiset(rest);
        forall x ensures multiset(rest)[x] <= 1 { assert multiset(rest)[x] <= multiset(xs)[x]; }
      }
    }
  }

  lemma {:induction false} OutOfCooldownDistinct(book: ProviderBook, now: nat, xs: seq<string>)
    requires Distinct(xs)
    ensures Distinct(OutOfCooldown(book, now, xs))
  {
    if xs != [] {
      OutOfCooldownDistinct(book, now, xs[1..]);
      OutOfCooldownElems(book, now, xs[1..]);
      var rest := OutOfCooldown(book, now, xs[1..]);
      forall j | 0 <= j < |rest| ensures rest[j] != xs[0] {
        assert rest[j] in rest;
        assert xs[0] !in xs[1..];
      }
    }
  }

  lemma {:induction false} DueSublist(book: ProviderBook, now: nat, xs: seq<string>)
    requires Distinct(xs) && Ranked(xs, book, now)
    ensures Distinct(Due(book, now, xs)) && Ranked(Due(book, now, xs), book, now)
  {
    if xs != [] {
      hide KeyAtMost, ProviderSortKey, ProbeDue;
      DueSublist(book, now, xs[1..]);
      DueElems(book, now, xs[1..]);
      var rest := Due(book, now, xs[1..]);
      forall j | 0 <= j < |rest|
        ensures rest[j] != xs[0] && KeyAtMost(ProviderSortKey(book, xs[0], now), ProviderSortKey(book, rest[j], now))
      {
        assert rest[j] in xs[1..];
        var i :| 0 <= i < |xs| - 1 && xs[1..][i] == rest[j];
        assert xs[i + 1] == rest[j];
      }
    }
  }

  lemma {:induction false} DedupDistinct(xs: seq<string>)
    requires Distinct(xs)
    ensures DedupAdjacent(xs) == xs
  {
    if |xs| >= 2 {
      DedupDistinct(xs[1..]);
      assert xs == [xs[0]] + xs[1..];
    }
  }

  lemma FoundInOrder(st: State, ask: Ask, now: nat)
    requires Distinct(ask.discovered)
    ensures Distinct(Found(st, ask, now)) && Ranked(Found(st, ask, now), st.providers, now)
  {
    hide Ranked, OutOfCooldown, SortByKey;
    var open := OutOfCooldown(st.providers, now, ask.discovered);
    var sorted := SortByKey(st.providers, now, open);
    OutOfCooldownDistinct(st.providers, now, ask.discovered);
    DistinctCounts(open);
    DistinctCounts(sorted);
    SortByKeyRanked(st.providers, now, open);
    DedupDistinct(sorted);
  }

  /** The relays probed: at most two that are due, and none due goes before them. */
  ghost predicate ProbesBest(book: ProviderBook, discovered: seq<string>, now: nat, probed: seq<string>)
  {
    && |probed| <= 2
    && (forall r :: r in probed ==> r in discovered && IsDue(book, r, now))
    && (forall r :: r in discovered && IsDue(book, r, now) && r !in probed ==>
          |probed| == 2 && forall c :: c in probed ==> !Prefers(book, r, c))
  }

  lemma {:induction false} FirstDueAreBest(st: State, ask: Ask, now: nat)
    requires Distinct(ask.discovered)
    ensures var probed := Take(Due(st.providers, now, Found(st, ask, now)), MAX_PROVIDER_PROBES);
            Distinct(probed) && ProbesBest(st.providers, ask.discovered, now, probed)
  {
    DueInOrder(st, ask, now);
    hide Found, Due, Ranked, Distinct, ProbesBest;
    TakenAreBest(st.providers, ask.discovered, now, Due(st.providers, now, Found(st, ask, now)));
  }

  lemma {:induction false} TakenAreBest(book: ProviderBook, discovered: seq<string>, now: nat, due: seq<string>)
    requires Distinct(due) && Ranked(due, book, now)
    requires forall r :: r in due <==> r in discovered && IsDue(book, r, now)
    ensures var probed := Take(due, MAX_PROVIDER_PROBES); Distinct(probed) && ProbesBest(book, discovered, now, probed)
  {
    hide Prefers, IsDue, Ranked, Take, Distinct, KeyAtMost, ProviderSortKey;
    var probed := Take(due, MAX_PROVIDER_PROBES);
    TakenFirst(due, MAX_PROVIDER_PROBES);
    forall r | r in due && r !in probed ensures forall c :: c in probed ==> !Prefers(book, r, c) {
      forall c | c in probed ensures !Prefers(book, r, c) {
        FirstGoFirst(book, now, due, MAX_PROVIDER_PROBES, r, c);
        DueIsNotCooling(book, r, now);
        DueIsNotCooling(book, c, now);
        PrefersIsRank(book, r, c, now);
      }
    }
  }

  lemma {:induction false} DueInOrder(st: State, ask: Ask, now: nat)
    requires Distinct(ask.discovered)
    ensures var due := Due(st.providers, now, Found(st, ask, now));
            && Distinct(due) && Ranked(due, st.providers, now)
            && forall r :: r in due <==> r in ask.discovered && IsDue(st.providers, r, now)
  {
    var book, found := st.providers, Found(st, ask, now);
    FoundInOrder(st, ask, now);
    FoundIs(st, ask, now);
    hide Found, Due, Pool, ProbeDue, IsDue, Ranked, Distinct;
    DueSublist(book, now, found);
    DueElems(book, now, found);
    PoolElems(book, now, ask.discovered);
    forall r ensures r in Due(book, now, found) <==> r in ask.discovered && IsDue(book, r, now) { DueMeaning(book, r, now); }
  }

  lemma TakenFirst(due: seq<string>, n: nat)
    requires Distinct(due)
    ensures var first := Take(due, n);
            && Distinct(first) && |first| <= n
            && (forall r :: r in first ==> r in due)
            && (forall r :: r in due && r !in first ==> |first| == n)
  {
  }

  /** The first entries of a ranked list rank no lower than the others. */
  lemma FirstGoFirst(book: ProviderBook, now: nat, due: seq<string>, n: nat, r: string, c: string)
    requires Ranked(due, book, now) && r in due && r !in Take(due, n) && c in Take(due, n)
    ensures KeyAtMost(ProviderSortKey(book, c, now), ProviderSortKey(book, r, now))
  {
    hide KeyAtMost, ProviderSortKey;
    var first := Take(due, n);
    var rest := due[|first|..];
    assert due == first + rest;
    var i :| 0 <= i < |rest| && rest[i] == r;
    var j :| 0 <= j < |first| && first[j] == c;
    assert due[|first| + i] == r && due[j] == c;
  }

  lemma DueMeaning(book: ProviderBook, r: string, now: nat)
    ensures ProbeDue(book, r, now) <==> IsDue(book, r, now)
    ensures IsDue(book, r, now) ==> !OperatorCools(book, r, now)
  {
  }

  lemma DueIsNotCooling(book: ProviderBook, r: string, now: nat)
    requires IsDue(book, r, now)
    ensures !OperatorCools(book, r, now)
  {
  }

  function RecordOf(before: ProviderBook, probed: seq<string>, ask: Ask, now: nat, r: string): Option<Provider>
  {
    if r in probed then Some(AfterProbe(ProviderOf(before, r), ask.outcome(r), now)) else Lookup(before, r)
  }

  /** The probed operators have the record their probe leaves, and all others the one they had. */
  ghost predicate RecordsProbes(before: ProviderBook, probed: seq<string>, ask: Ask, now: nat, after: ProviderBook)
  {
    forall r :: Lookup(after, r) == RecordOf(before, probed, ask, now, r)
  }

  /** Discovery names each relay once. A batch then probes the two operators that are due and go before
      all others due, or all that are due if there are fewer, unless nobody wants a relay; what it
      notes of them follows from how the probe turned out, and no other record changes. */
  lemma {:induction false} BatchProbesBest(st: State, ask: Ask, now: nat)
    requires Distinct(ask.discovered)
    ensures var end := RequestBatch(st, ask, now).0;
            exists probed: seq<string> :: RecordsProbes(st.providers, probed, ask, now, end.providers)
              && if exists p :: WantsRelay(st, ask, p, now) then ProbesBest(st.providers, ask.discovered, now, probed) else probed == []
  {
    hide Plan, Needing, Found, WantsRelay, ProbesBest, AfterProbe, ProviderOf, Due, Take, ProbeAll;
    var kept := st.(pending := PrunePending(st.pending, now));
    var end := RequestBatch(st, ask, now).0;
    PlanParts(kept, ask, now);
    forall p ensures p in Needing(kept, ask.peers, now) <==> WantsRelay(st, ask, p, now) { WantsExactly(st, ask, now, p); }
    var needing, found := Needing(kept, ask.peers, now), Found(kept, ask, now);
    if needing == [] {
      assert RecordsProbes(st.providers, [], ask, now, end.providers);
    } else {
      assert needing[0] in needing && WantsRelay(st, ask, needing[0], now);
      var probed := Take(Due(st.providers, now, found), MAX_PROVIDER_PROBES);
      FirstDueAreBest(kept, ask, now);
      NothingDue(st.providers, now, found);
      forall r ensures Lookup(end.providers, r) == RecordOf(st.providers, probed, ask, now, r) {
        if r in probed { ProbedThere(st.providers, now, probed, ask.outcome, r); } else { ProbedElsewhere(st.providers, now, probed, ask.outcome, r); }
      }
      assert RecordsProbes(st.providers, probed, ask, now, end.providers);
    }
  }

  lemma NothingDue(book: ProviderBook, now: nat, found: seq<string>)
    ensures found == [] ==> Take(Due(book, now, found), MAX_PROVIDER_PROBES) == []
  {
  }
}
