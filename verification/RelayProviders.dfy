/** The provider verification book: exponential backoff in closed form over any history,
    and the fact that pruning never removes a provider the daemon has noted. */
module RelayProviders {
  import opened Common
  import opened RelayState
  import opened RelayReconcile
  import opened RelayProtocol

  datatype Note =
    | Verified(relay: string, at: nat)
    | ProbeSent(relay: string, at: nat)
    | Failure(relay: string, at: nat, retryAfter: Option<nat>)
    | Pruned(at: nat)
    | Cleared

  function Apply(book: ProviderBook, note: Note): ProviderBook
  {
    match note
    case Verified(relay, at) => NoteVerified(book, relay, at)
    case ProbeSent(relay, at) => NoteProbe(book, relay, at)
    case Failure(relay, at, retryAfter) => NoteProviderFailed(book, relay, at, retryAfter)
    case Pruned(at) => PruneProviders(book, at)
    case Cleared => map[]
  }

  function Replay(book: ProviderBook, notes: seq<Note>): ProviderBook
  {
    if notes == [] then book
    else Apply(Replay(book, notes[..|notes| - 1]), notes[|notes| - 1])
  }

  /** Failures of a relay noted since it was last verified or the book was cleared. */
  function Streak(notes: seq<Note>, relay: string): nat
  {
    if notes == [] then 0
    else
      var before := Streak(notes[..|notes| - 1], relay);
      match notes[|notes| - 1]
      case Failure(r, _, _) => if r == relay then before + 1 else before
      case Verified(r, _) => if r == relay then 0 else before
      case Cleared => 0
      case _ => before
  }

  function LastFailure(notes: seq<Note>, relay: string): Option<nat>
  {
    if notes == [] then None
    else
      match notes[|notes| - 1]
      case Failure(r, at, _) => if r == relay then Some(at) else LastFailure(notes[..|notes| - 1], relay)
      case _ => LastFailure(notes[..|notes| - 1], relay)
  }

  function Power2(n: nat): nat
  {
    if n == 0 then 1 else 2 * Power2(n - 1)
  }

  function Backoff(base: nat, failures: nat): nat
  {
    Min(base * Power2(Min(SatSub(failures, 1), 4)), 900)
  }

  lemma MultiplierIsPower(shift: nat)
    requires shift <= 4
    ensures Multiplier(shift) == Power2(shift)
  {
    assert Power2(1) == 2 && Power2(2) == 4;
    assert Power2(3) == 2 * Power2(2) && Power2(4) == 2 * Power2(3);
  }

  lemma {:induction false} Power2Grows(m: nat, n: nat)
    requires m <= n
    ensures 1 <= Power2(m) <= Power2(n)
  {
    if m < n { Power2Grows(m, n - 1); } else if m > 0 { Power2Grows(m - 1, m - 1); }
  }

  /** More failures never shorten the backoff, and it never exceeds fifteen minutes. */
  lemma BackoffGrows(base: nat, m: nat, n: nat)
    requires m <= n
    ensures Backoff(base, m) <= Backoff(base, n) <= 900
  {
    var a, b := Min(SatSub(m, 1), 4), Min(SatSub(n, 1), 4);
    Power2Grows(a, b);
    assert base * Power2(a) <= base * Power2(b);
  }

  /** An entry that notes alone can produce: probed at least once, cooling down at most
      fifteen minutes past its last failure, and counting its streak. */
  ghost predicate Plausible(book: ProviderBook, notes: seq<Note>, relay: string)
  {
    if relay !in book then Streak(notes, relay) == 0
    else
      var entry := book[relay];
      && entry.lastProbeAt.Some?
      && entry.consecutiveFailures == Min(Streak(notes, relay), U32_MAX)
      && (entry.cooldownUntil.Some? ==>
            && LastFailure(notes, relay).Some?
            && entry.cooldownUntil.value <= LastFailure(notes, relay).value + PROVIDER_MAX_COOLDOWN)
  }

  lemma {:induction false} HistoryIsPlausible(notes: seq<Note>, relay: string)
    ensures Plausible(Replay(map[], notes), notes, relay)
  {
    if notes != [] {
      HistoryIsPlausible(notes[..|notes| - 1], relay);
    }
  }

  /** Whatever verifications, probes, prunes and failures of other relays intervene, the n-th
      consecutive failure cools a relay down for `min(base * 2^min(n-1, 4), 900)` seconds. */
  lemma BackoffClosedForm(notes: seq<Note>, relay: string, at: nat, retryAfter: Option<nat>)
    ensures var book := Replay(map[], notes + [Failure(relay, at, retryAfter)]);
            var base := if retryAfter == None then 60 else if retryAfter.value == 0 then 1 else retryAfter.value;
            && relay in book
            && book[relay].cooldownUntil == Some(at + Backoff(base, Streak(notes, relay) + 1))
  {
    var before := Replay(map[], notes);
    HistoryIsPlausible(notes, relay);
    assert (notes + [Failure(relay, at, retryAfter)])[..|notes|] == notes;
    var counted := Min(ProviderOf(before, relay).consecutiveFailures + 1, U32_MAX);
    assert Min(SatSub(counted, 1), 4) == Min(Streak(notes, relay), 4);
    MultiplierIsPower(Min(Streak(notes, relay), 4));
  }

  /** Fifteen minutes after its last failure no provider is cooling down, nor is one that never failed. */
  lemma {:induction false} CooldownEnds(notes: seq<Note>, relay: string, t: nat)
    requires LastFailure(notes, relay).Some? ==> t >= LastFailure(notes, relay).value + PROVIDER_MAX_COOLDOWN
    ensures !ProviderInCooldown(Replay(map[], notes), relay, t)
  {
    HistoryIsPlausible(notes, relay);
  }

  // ---- The daemon's book is always the replay of some notes ----

  lemma {:induction false} ReplayConcat(book: ProviderBook, a: seq<Note>, b: seq<Note>)
    ensures Replay(book, a + b) == Replay(Replay(book, a), b)
  {
    if b == [] {
      assert a + b == a;
    } else {
      ReplayConcat(book, a, b[..|b| - 1]);
      assert (a + b)[..|a + b| - 1] == a + b[..|b| - 1];
    }
  }

  function OutcomeNote(relay: string, outcome: ProbeOutcome, now: nat): Note
  {
    match outcome
    case ProbeVerified => Verified(relay, now)
    case ProbeRejected(retry) => Failure(relay, now, retry)
    case ProbeFailed => Failure(relay, now, Some(PROVIDER_PROBE_RETRY_AFTER))
  }

  function ProbeNotes(relays: seq<string>, outcome: string -> ProbeOutcome, now: nat): seq<Note>
  {
    if relays == [] then []
    else [ProbeSent(relays[0], now), OutcomeNote(relays[0], outcome(relays[0]), now)] + ProbeNotes(relays[1..], outcome, now)
  }

  lemma {:induction false} ProbeAllReplays(book: ProviderBook, now: nat, relays: seq<string>, outcome: string -> ProbeOutcome)
    ensures ProbeAll(book, now, relays, outcome) == Replay(book, ProbeNotes(relays, outcome, now))
    decreases relays
  {
    if relays != [] {
      var first := [ProbeSent(relays[0], now), OutcomeNote(relays[0], outcome(relays[0]), now)];
      assert first[..1] == [ProbeSent(relays[0], now)] && first[..1][..0] == [];
      assert Replay(book, first[..1]) == NoteProbe(book, relays[0], now);
      ProbeAllReplays(Replay(book, first), now, relays[1..], outcome);
      ReplayConcat(book, first, ProbeNotes(relays[1..], outcome, now));
    }
  }

  lemma {:induction false} WalkReplays(st: State, peers: RuntimePeers, now: nat, order: seq<string>) returns (notes: seq<Note>)
    ensures Walk(st, peers, now, order).0.providers == Replay(st.providers, notes)
  {
    if order == [] {
      notes := [];
    } else {
      var last := |order| - 1;
      var mid := Walk(st, peers, now, order[..last]).0;
      notes := WalkReplays(st, peers, now, order[..last]);
      var p := order[last];
      if p in mid.sessions {
        hide Visit, Judge;
        var s := mid.sessions[p];
        VisitParts(mid, peers, p, now);
        match Judge(peers, p, s, now)
        case Confirmed(at) =>
          assert (notes + [Verified(s.relay, at)])[..|notes|] == notes;
          notes := notes + [Verified(s.relay, at)];
        case Failed =>
          assert (notes + [Failure(s.relay, now, None)])[..|notes|] == notes;
          notes := notes + [Failure(s.relay, now, None)];
        case _ =>
      }
    }
  }

  lemma StepReplays(st: State, e: Event) returns (notes: seq<Note>)
    ensures Step(st, e).0.providers == Replay(st.providers, notes)
  {
    hide Due, Found, Needing, Take, Wanted, Record, Walk, IsActive, InCooldown, QueueStandby;
    notes := [];
    match e
    case AnnounceRequests(now, ask) =>
      var kept := st.(pending := PrunePending(st.pending, now));
      if Needing(kept, ask.peers, now) != [] && Found(kept, ask, now) != [] {
        var relays := Take(Due(st.providers, now, Found(kept, ask, now)), MAX_PROVIDER_PROBES);
        ProbeAllReplays(st.providers, now, relays, ask.outcome);
        notes := ProbeNotes(relays, ask.outcome, now);
      }
    case RejectionArrives(now, id, relay, retryAfter) =>
      if id in st.pending && st.pending[id].relay == relay {
        notes := [Failure(relay, now, retryAfter)];
        assert notes[..0] == [];
      }
    case StateTick(now, peers, order) =>
      notes := WalkReplays(st, peers, now, order);
    case ExpireProviders(now) =>
      notes := [Pruned(now)];
      assert notes[..0] == [];
    case Pause(_) =>
      notes := [Cleared];
      assert notes[..0] == [];
    case _ =>
  }

  lemma {:induction false} RunReplays(events: seq<Event>) returns (notes: seq<Note>)
    ensures Run(EMPTY, events).providers == Replay(map[], notes)
  {
    if events == [] {
      notes := [];
    } else {
      var last := |events| - 1;
      var before := RunReplays(events[..last]);
      var more := StepReplays(Run(EMPTY, events[..last]), events[last]);
      ReplayConcat(map[], before, more);
      notes := before + more;
    }
  }

  /** On every book the daemon can reach, pruning removes no entry. */
  lemma {:induction false} PruneRemovesNoProvider(events: seq<Event>, now: nat)
    ensures PruneProviders(Run(EMPTY, events).providers, now).Keys == Run(EMPTY, events).providers.Keys
  {
    var notes := RunReplays(events);
    var book := Run(EMPTY, events).providers;
    forall relay | relay in book ensures WorthKeeping(ClearExpiredCooldown(book[relay], now)) {
      HistoryIsPlausible(notes, relay);
    }
  }
}
