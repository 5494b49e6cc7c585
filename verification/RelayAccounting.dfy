/** Bookkeeping over whole runs: a request id yields at most one session per time it is
    issued, and every session held was created by a grant for that very participant. */
module RelayAccounting {
  import opened Common
  import opened RelayState
  import opened RelayReconcile
  import opened RelayOutcome
  import opened RelayProtocol
  import RelayPending

  // ---- At most one session per issued id ----

  /** The step turned a grant carrying this id into a session. */
  predicate Creates(st: State, e: Event, id: string)
  {
    && e.GrantArrives? && e.grant.id == id
    && (Step(st, e).1.Activated? || Step(st, e).1.QueuedStandby?)
  }

  function Occurrences(network: string, requests: seq<Request>, now: nat, id: string): nat
  {
    if requests == [] then 0
    else
      var last := |requests| - 1;
      Occurrences(network, requests[..last], now, id) + One(RequestId(network, requests[last], now) == id)
  }

  /** How often the step publishes a request under this id. */
  function IssuedBy(st: State, e: Event, id: string): nat
  {
    if e.AnnounceRequests? then Occurrences(e.ask.network, Step(st, e).1.requests, e.now, id) else 0
  }

  function Creations(st: State, events: seq<Event>, id: string): nat
  {
    if events == [] then 0
    else
      var last := |events| - 1;
      Creations(st, events[..last], id) + One(Creates(Run(st, events[..last]), events[last], id))
  }

  function Issues(st: State, events: seq<Event>, id: string): nat
  {
    if events == [] then 0
    else
      var last := |events| - 1;
      Issues(st, events[..last], id) + IssuedBy(Run(st, events[..last]), events[last], id)
  }

  lemma {:induction false} RecordedWasIssued(pending: map<string, Pending>, network: string, requests: seq<Request>, now: nat, id: string)
    ensures One(id in Record(pending, network, requests, now)) <= One(id in pending) + Occurrences(network, requests, now, id)
  {
    if requests != [] {
      RecordedWasIssued(pending, network, requests[..|requests| - 1], now, id);
    }
  }

  /** A session costs the pending entry of its id; only publishing a request pays for an entry. */
  lemma StepPaysForSessions(st: State, e: Event, id: string)
    ensures One(Creates(st, e, id)) + One(id in Step(st, e).0.pending) <= One(id in st.pending) + IssuedBy(st, e, id)
  {
    match e
    case AnnounceRequests(now, ask) =>
      var kept := st.(pending := PrunePending(st.pending, now));
      RecordedWasIssued(kept.pending, ask.network, Plan(kept, ask, now).1, now, id);
    case StateTick(now, peers, order) =>
      RelayPending.WalkDropsRequests(st, peers, now, order);
    case _ =>
  }

  lemma {:induction false} SessionsNeverOutnumberIssues(st: State, events: seq<Event>, id: string)
    ensures Creations(st, events, id) + One(id in Run(st, events).pending) <= One(id in st.pending) + Issues(st, events, id)
  {
    if events != [] {
      var last := |events| - 1;
      SessionsNeverOutnumberIssues(st, events[..last], id);
      StepPaysForSessions(Run(st, events[..last]), events[last], id);
    }
  }

  /** Replays, rejections, passes and prunes may interleave at will: an id issued once
      creates at most one session, and one that was never issued creates none. */
  lemma {:induction false} AtMostOneSessionPerIssue(events: seq<Event>, id: string)
    ensures Creations(EMPTY, events, id) <= Issues(EMPTY, events, id)
  {
    SessionsNeverOutnumberIssues(EMPTY, events, id);
  }

  // ---- Where held sessions come from ----

  /** The participant and the session that a grant creates, if it creates one. */
  function Created(st: State, e: Event): Option<(string, Core)>
  {
    if e.GrantArrives? then
      match Step(st, e).1
      case Activated(p) => Some((p, CoreOf(SessionFrom(e.grant, e.now))))
      case QueuedStandby(p) => Some((p, CoreOf(SessionFrom(e.grant, e.now))))
      case _ => None
    else None
  }

  function CreatedFor(st: State, events: seq<Event>, p: string, c: Core): nat
  {
    if events == [] then 0
    else
      var last := |events| - 1;
      CreatedFor(st, events[..last], p, c) + One(Created(Run(st, events[..last]), events[last]) == Some((p, c)))
  }

  /** An accepted grant answers a pending request of that participant to that relay, is unexpired,
      and its relay is not cooling down for the participant at that moment. */
  lemma CreatedAnswersRequest(st: State, e: Event)
    requires Created(st, e).Some?
    ensures var (p, c) := Created(st, e).value;
            && e.grant.id in st.pending
            && st.pending[e.grant.id].participant == p && st.pending[e.grant.id].relay == c.relay
            && c.expiresAt > e.now
            && !InCooldown(st.failures, p, c.relay, e.now)
            && e.grant.id !in Step(st, e).0.pending
  {
  }

  lemma {:induction false} ActiveOnlyDrops(queue: seq<Session>, now: nat, c: Core)
    ensures Copies(ActiveOnly(queue, now), c) <= Copies(queue, c)
  {
    if queue != [] {
      ActiveOnlyDrops(queue[1..], now, c);
      var rest := ActiveOnly(queue[1..], now);
      if IsActive(queue[0], now) {
        assert ([queue[0]] + rest)[1..] == rest;
      } else {
        assert ActiveOnly(queue, now) == rest;
      }
    }
  }

  lemma {:induction false} CopiesSnoc(queue: seq<Session>, s: Session, c: Core)
    ensures Copies(queue + [s], c) == Copies(queue, c) + One(CoreOf(s) == c)
  {
    if queue != [] {
      CopiesSnoc(queue[1..], s, c);
      assert (queue + [s])[1..] == queue[1..] + [s];
    }
  }

  lemma {:induction false} WalkCreatesNothing(st: State, peers: RuntimePeers, now: nat, order: seq<string>, p: string, c: Core)
    ensures Held(Walk(st, peers, now, order).0, p, c) <= Held(st, p, c)
  {
    if order != [] {
      var last := |order| - 1;
      WalkCreatesNothing(st, peers, now, order[..last], p, c);
      VisitConserves(Walk(st, peers, now, order[..last]).0, peers, order[last], now, p, c);
    }
  }

  /** What a grant does to one participant: nothing, a new active session, or one more standby. */
  lemma {:induction false} GrantTouches(st: State, e: Event, p: string)
    requires e.GrantArrives?
    ensures var (end, s) := (Step(st, e).0, SessionFrom(e.grant, e.now));
            if Created(st, e).Some? && Created(st, e).value.0 == p then
              || (Lookup(end.sessions, p) == Some(s) && Lookup(end.standby, p) == Lookup(st.standby, p))
              || (Lookup(end.sessions, p) == Lookup(st.sessions, p)
                  && Lookup(end.standby, p) == Some((if p in st.standby then st.standby[p] else []) + [s]))
            else Lookup(end.sessions, p) == Lookup(st.sessions, p) && Lookup(end.standby, p) == Lookup(st.standby, p)
  {
    hide IsActive, InCooldown, SessionFrom, CoreOf;
  }

  lemma {:induction false} GrantCreatesOne(st: State, e: Event, p: string, c: Core)
    requires e.GrantArrives?
    ensures Held(Step(st, e).0, p, c) <= Held(st, p, c) + One(Created(st, e) == Some((p, c)))
  {
    GrantTouches(st, e, p);
    if Created(st, e).Some? && Created(st, e).value.0 == p {
      assert Created(st, e).value.1 == CoreOf(SessionFrom(e.grant, e.now));
      hide Step, Created, SessionFrom, CoreOf;
      CopiesSnoc(if p in st.standby then st.standby[p] else [], SessionFrom(e.grant, e.now), c);
    }
  }

  lemma StepCreatesOnlyByGrant(st: State, e: Event, p: string, c: Core)
    ensures Held(Step(st, e).0, p, c) <= Held(st, p, c) + One(Created(st, e) == Some((p, c)))
  {
    match e
    case GrantArrives(_, _) => GrantCreatesOne(st, e, p, c);
    case StateTick(now, peers, order) => WalkCreatesNothing(st, peers, now, order, p, c);
    case ExpireStandby(now) => if p in st.standby { ActiveOnlyDrops(st.standby[p], now, c); }
    case _ =>
  }

  lemma {:induction false} RunCreatesOnlyByGrant(st: State, events: seq<Event>, p: string, c: Core)
    ensures Held(Run(st, events), p, c) <= Held(st, p, c) + CreatedFor(st, events, p, c)
  {
    if events != [] {
      var last := |events| - 1;
      RunCreatesOnlyByGrant(st, events[..last], p, c);
      StepCreatesOnlyByGrant(Run(st, events[..last]), events[last], p, c);
    }
  }

  /** After any run a participant holds, active or standing by, no more sessions of a given relay,
      endpoints and expiry than grants created for that participant along the run. */
  lemma HeldSessionsWereGranted(events: seq<Event>, p: string, c: Core)
    ensures Held(Run(EMPTY, events), p, c) <= CreatedFor(EMPTY, events, p, c)
  {
    RunCreatesOnlyByGrant(EMPTY, events, p, c);
  }
}
