/** `reconcile_active_relay_sessions`: a loop over the session keys in whatever order
    the hash map yields them, and the order-free batch it amounts to. */
module RelayReconcile {
  import opened Common
  import opened Order
  import opened RelayState

  /** What one visit does with a participant's active session. */
  datatype Verdict = Expired | Confirmed(at: nat) | Waiting | Failed

  function Judge(peers: RuntimePeers, participant: string, s: Session, now: nat): Verdict
  {
    if !IsActive(s, now) then Expired
    else if VerifiedBy(peers, participant, s).Some? then Confirmed(VerifiedBy(peers, participant, s).value)
    else if TimedOut(s, now) then Failed
    else Waiting
  }

  function FirstVerified(s: Session, at: nat): Session
  {
    if s.verifiedAt.None? then s.(verifiedAt := Some(at)) else s
  }

  function Install(sessions: map<string, Session>, participant: string, next: Option<Session>): map<string, Session>
  {
    if next.Some? then sessions[participant := next.value] else sessions - {participant}
  }

  /** One iteration of the loop; the flag says whether the participant is pushed on the changed list. */
  function Visit(st: State, peers: RuntimePeers, participant: string, now: nat): (State, bool)
  {
    if participant !in st.sessions then (st, false)
    else
      var s := st.sessions[participant];
      match Judge(peers, participant, s, now)
      case Expired =>
        var next := PopResult(st.standby, st.failures, participant, now);
        (st.(
           sessions := Install(st.sessions, participant, next),
           standby := PopRest(st.standby, st.failures, participant, now),
           pending := if next.Some? then st.pending else DropRequestsOf(st.pending, participant)),
         true)
      case Confirmed(at) =>
        (st.(
           sessions := st.sessions[participant := FirstVerified(s, at)],
           providers := NoteVerified(st.providers, s.relay, at)),
         false)
      case Waiting =>
        (st, false)
      case Failed =>
        var failures := NoteFailed(st.failures, participant, s.relay, now);
        (st.(
           sessions := Install(st.sessions, participant, PopResult(st.standby, failures, participant, now)),
           standby := PopRest(st.standby, failures, participant, now),
           failures := failures,
           providers := NoteProviderFailed(st.providers, s.relay, now, None),
           pending := DropRequestsOf(st.pending, participant)),
         true)
  }

  /** The cooldowns a visit looks at: with the participant's own failure, if it failed. */
  function SeenFailures(st: State, peers: RuntimePeers, participant: string, now: nat): Failures
    requires participant in st.sessions
  {
    var s := st.sessions[participant];
    if Judge(peers, participant, s, now).Failed? then NoteFailed(st.failures, participant, s.relay, now) else st.failures
  }

  /** A visit, book by book. */
  lemma {:induction false} VisitParts(st: State, peers: RuntimePeers, p: string, now: nat)
    requires p in st.sessions
    ensures var (end, pushed) := Visit(st, peers, p, now);
            var s := st.sessions[p];
            var verdict, seen := Judge(peers, p, s, now), SeenFailures(st, peers, p, now);
            var next := PopResult(st.standby, seen, p, now);
            && pushed == (verdict.Expired? || verdict.Failed?)
            && end.failures == seen
            && end.sessions == (if pushed then Install(st.sessions, p, next)
                                else if verdict.Confirmed? then st.sessions[p := FirstVerified(s, verdict.at)] else st.sessions)
            && end.standby == (if pushed then PopRest(st.standby, seen, p, now) else st.standby)
            && end.pending == (if verdict.Failed? || (verdict.Expired? && next.None?) then DropRequestsOf(st.pending, p) else st.pending)
            && end.providers == (if verdict.Confirmed? then NoteVerified(st.providers, s.relay, verdict.at)
                                 else if verdict.Failed? then NoteProviderFailed(st.providers, s.relay, now, None) else st.providers)
  {
    hide Judge, PopResult, PopRest, Install, FirstVerified, NoteVerified, NoteProviderFailed, NoteFailed, DropRequestsOf;
  }

  lemma AbsentIsSkipped(st: State, peers: RuntimePeers, p: string, now: nat)
    requires p !in st.sessions
    ensures Visit(st, peers, p, now) == (st, false)
  {
  }

  /** The loop over the keys in the given order: the state and the pushed participants. */
  function Walk(st: State, peers: RuntimePeers, now: nat, order: seq<string>): (State, seq<string>)
  {
    if order == [] then (st, [])
    else
      var last := |order| - 1;
      var (mid, changed) := Walk(st, peers, now, order[..last]);
      var (end, pushed) := Visit(mid, peers, order[last], now);
      (end, if pushed then changed + [order[last]] else changed)
  }

  function Reconcile(st: State, peers: RuntimePeers, now: nat, order: seq<string>): (State, seq<string>)
  {
    var (end, changed) := Walk(st, peers, now, order);
    (end, SortDedup(changed))
  }

  lemma {:induction false} VisitLeavesOthers(st: State, peers: RuntimePeers, p: string, now: nat, q: string)
    requires q != p
    ensures Lookup(Visit(st, peers, p, now).0.sessions, q) == Lookup(st.sessions, q)
  {
    if p in st.sessions {
      hide Visit, Judge;
      VisitParts(st, peers, p, now);
    }
  }

  /** Participants not yet visited still have their session. */
  lemma {:induction false} WalkLeavesUnvisited(st: State, peers: RuntimePeers, now: nat, order: seq<string>, q: string)
    requires q !in order
    ensures Lookup(Walk(st, peers, now, order).0.sessions, q) == Lookup(st.sessions, q)
  {
    if order != [] {
      hide Visit;
      var last := |order| - 1;
      var mid := Walk(st, peers, now, order[..last]).0;
      assert order[last] in order && forall x :: x in order[..last] ==> x in order;
      WalkLeavesUnvisited(st, peers, now, order[..last], q);
      VisitLeavesOthers(mid, peers, order[last], now, q);
    }
  }

  // ---- The batch: every participant judged against the books as they were ----

  ghost function Fate(st: State, peers: RuntimePeers, now: nat, p: string): Verdict
    requires p in st.sessions
  {
    Judge(peers, p, st.sessions[p], now)
  }

  /** The cooldown book a participant's own failure leaves behind. */
  ghost function OwnFailures(st: State, peers: RuntimePeers, now: nat, p: string): Failures
    requires p in st.sessions
  {
    if Fate(st, peers, now, p).Failed? then NoteFailed(st.failures, p, st.sessions[p].relay, now) else st.failures
  }

  ghost predicate Leaves(st: State, peers: RuntimePeers, now: nat, p: string)
  {
    p in st.sessions && (Fate(st, peers, now, p).Expired? || Fate(st, peers, now, p).Failed?)
  }

  ghost function Successor(st: State, peers: RuntimePeers, now: nat, p: string): Option<Session>
    requires p in st.sessions
  {
    PopResult(st.standby, OwnFailures(st, peers, now, p), p, now)
  }

  ghost function SessionAfter(st: State, peers: RuntimePeers, now: nat, p: string): Option<Session>
    requires p in st.sessions
  {
    match Fate(st, peers, now, p)
    case Expired => Successor(st, peers, now, p)
    case Failed => Successor(st, peers, now, p)
    case Confirmed(at) => Some(FirstVerified(st.sessions[p], at))
    case Waiting => Some(st.sessions[p])
  }

  ghost function QueueAfter(st: State, peers: RuntimePeers, now: nat, p: string): Option<seq<Session>>
    requires p in st.standby
  {
    if Leaves(st, peers, now, p) then Lookup(PopRest(st.standby, OwnFailures(st, peers, now, p), p, now), p)
    else Some(st.standby[p])
  }

  ghost predicate LosesRequests(st: State, peers: RuntimePeers, now: nat, p: string)
  {
    && p in st.sessions
    && (Fate(st, peers, now, p).Failed? || (Fate(st, peers, now, p).Expired? && Successor(st, peers, now, p).None?))
  }

  ghost function FailedKeys(st: State, peers: RuntimePeers, now: nat, done: set<string>): set<string>
  {
    set p | p in done && p in st.sessions && Fate(st, peers, now, p).Failed? :: FailureKey(p, st.sessions[p].relay)
  }

  ghost function BatchSessions(st: State, peers: RuntimePeers, now: nat, done: set<string>): map<string, Session>
  {
    map p | p in st.sessions && (p in done ==> SessionAfter(st, peers, now, p).Some?)
      :: if p in done then SessionAfter(st, peers, now, p).value else st.sessions[p]
  }

  ghost function BatchStandby(st: State, peers: RuntimePeers, now: nat, done: set<string>): Queues
  {
    map p | p in st.standby && (p in done ==> QueueAfter(st, peers, now, p).Some?)
      :: if p in done then QueueAfter(st, peers, now, p).value else st.standby[p]
  }

  ghost function BatchFailures(st: State, peers: RuntimePeers, now: nat, done: set<string>): Failures
  {
    WithFailed(st.failures, FailedKeys(st, peers, now, done), now)
  }

  ghost function BatchPending(st: State, peers: RuntimePeers, now: nat, done: set<string>): map<string, Pending>
  {
    map id | id in st.pending && !(st.pending[id].participant in done && LosesRequests(st, peers, now, st.pending[id].participant))
      :: st.pending[id]
  }

  ghost function Changed(st: State, peers: RuntimePeers, now: nat, done: set<string>): set<string>
  {
    set p | p in done && Leaves(st, peers, now, p)
  }

  /** A state whose four order-free books are those of the batch over `done`. */
  ghost predicate IsBatch(st: State, peers: RuntimePeers, now: nat, done: set<string>, end: State)
  {
    && end.sessions == BatchSessions(st, peers, now, done)
    && end.standby == BatchStandby(st, peers, now, done)
    && end.failures == BatchFailures(st, peers, now, done)
    && end.pending == BatchPending(st, peers, now, done)
  }

  // ---- When joined failure keys cannot clash ----

  predicate StartsWith(s: string, prefix: string)
  {
    |prefix| <= |s| && s[..|prefix|] == prefix
  }

  /** No participant's name continues another's across the `:` of the failure key. */
  ghost predicate KeysCannotClash(participants: set<string>)
  {
    forall p, q :: p in participants && q in participants && p != q ==> !StartsWith(q, p + ":")
  }

  lemma ContinuationHasColon(p: string, q: string)
    requires StartsWith(q, p + ":")
    ensures ':' in q
  {
    assert q[..|p + ":"|][|p|] == ':';
  }

  /** Colon-free names, such as hexadecimal public keys, never clash. */
  lemma ColonFreeNamesCannotClash(participants: set<string>)
    requires forall p :: p in participants ==> ':' !in p
    ensures KeysCannotClash(participants)
  {
    forall p, q | p in participants && q in participants && p != q ensures !StartsWith(q, p + ":") {
      if StartsWith(q, p + ":") { ContinuationHasColon(p, q); }
    }
  }

  lemma ClashNeedsContinuation(p: string, q: string, r: string, s: string)
    requires FailureKey(p, r) == FailureKey(q, s) && |p| < |q|
    ensures StartsWith(q, p + ":")
  {
    var left, right := p + ":" + r, q + ":" + s;
    assert left == right;
    forall i | 0 <= i < |p| + 1 ensures q[i] == (p + ":")[i] {
      assert left[i] == (p + ":")[i] && right[i] == q[i];
    }
    assert q[..|p| + 1] == p + ":";
  }

  lemma KeysOfTwo(participants: set<string>, p: string, q: string, r: string, s: string)
    requires KeysCannotClash(participants) && p in participants && q in participants && p != q
    ensures FailureKey(p, r) != FailureKey(q, s)
  {
    assert FailureKey(p, r)[..|p|] == p && FailureKey(q, s)[..|q|] == q;
    if FailureKey(p, r) == FailureKey(q, s) {
      if |p| < |q| {
        ClashNeedsContinuation(p, q, r, s);
      } else if |q| < |p| {
        ClashNeedsContinuation(q, p, s, r);
      }
    }
  }

  // ---- One visit extends the batch by one participant ----

  /** A participant not yet visited sees the cooldowns it saw at the start. */
  lemma UntouchedCooldowns(st: State, peers: RuntimePeers, now: nat, done: set<string>, p: string)
    requires KeysCannotClash(st.sessions.Keys) && done <= st.sessions.Keys
    requires p in st.sessions && p !in done
    ensures var now' := BatchFailures(st, peers, now, done);
            forall r :: Lookup(now', FailureKey(p, r)) == Lookup(st.failures, FailureKey(p, r))
  {
    forall r ensures FailureKey(p, r) !in FailedKeys(st, peers, now, done) {
      forall q | q in done ensures FailureKey(q, st.sessions[q].relay) != FailureKey(p, r) {
        KeysOfTwo(st.sessions.Keys, q, p, st.sessions[q].relay, r);
      }
    }
  }

  /** Looking for a usable session reads only the participant's own cooldowns. */
  lemma {:induction false} NextUsableLocal(queue: seq<Session>, f: Failures, g: Failures, p: string, now: nat)
    requires forall r :: InCooldown(f, p, r, now) == InCooldown(g, p, r, now)
    ensures NextUsable(queue, f, p, now) == NextUsable(queue, g, p, now)
  {
    if queue != [] { NextUsableLocal(queue[1..], f, g, p, now); }
  }

  lemma PopLocal(one: Queues, two: Queues, f: Failures, g: Failures, p: string, now: nat)
    requires forall r :: InCooldown(f, p, r, now) == InCooldown(g, p, r, now)
    requires Lookup(one, p) == Lookup(two, p)
    ensures PopResult(one, f, p, now) == PopResult(two, g, p, now)
    ensures Lookup(PopRest(one, f, p, now), p) == Lookup(PopRest(two, g, p, now), p)
    ensures PopRest(one, f, p, now) - {p} == one - {p}
  {
    if p in one { NextUsableLocal(one[p], f, g, p, now); }
  }

  lemma SessionsStep(st: State, peers: RuntimePeers, now: nat, done: set<string>, p: string)
    requires p in st.sessions && p !in done
    ensures var before := BatchSessions(st, peers, now, done);
            && p in before && before[p] == st.sessions[p]
            && BatchSessions(st, peers, now, done + {p}) == Install(before, p, SessionAfter(st, peers, now, p))
  {
    var before := BatchSessions(st, peers, now, done);
    SameLookups(BatchSessions(st, peers, now, done + {p}), Install(before, p, SessionAfter(st, peers, now, p)));
  }

  lemma StandbyStep(st: State, peers: RuntimePeers, now: nat, done: set<string>, p: string, rest: Queues)
    requires p in st.sessions && p !in done
    requires rest - {p} == BatchStandby(st, peers, now, done) - {p}
    requires p in st.standby ==> Lookup(rest, p) == QueueAfter(st, peers, now, p)
    requires p !in st.standby ==> p !in rest
    ensures BatchStandby(st, peers, now, done + {p}) == rest
  {
    var before, after := BatchStandby(st, peers, now, done), BatchStandby(st, peers, now, done + {p});
    forall q ensures Lookup(after, q) == Lookup(rest, q) {
      if q != p {
        assert Lookup(rest - {p}, q) == Lookup(before - {p}, q);
      }
    }
    SameLookups(after, rest);
  }

  lemma FailedKeysStep(st: State, peers: RuntimePeers, now: nat, done: set<string>, p: string)
    requires p in st.sessions
    ensures FailedKeys(st, peers, now, done + {p}) ==
            FailedKeys(st, peers, now, done)
            + (if Fate(st, peers, now, p).Failed? then {FailureKey(p, st.sessions[p].relay)} else {})
  {
  }

  /** The book of cooldowns after the given keys have failed. */
  ghost function WithFailed(failures: Failures, keys: set<string>, now: nat): Failures
  {
    map k | k in failures.Keys + keys :: if k in keys then now + FAILED_RETRY_AFTER else failures[k]
  }

  lemma WithOneMore(failures: Failures, keys: set<string>, key: string, now: nat)
    ensures WithFailed(failures, keys + {key}, now) == WithFailed(failures, keys, now)[key := now + FAILED_RETRY_AFTER]
  {
  }

  lemma {:induction false} FailuresStep(st: State, peers: RuntimePeers, now: nat, done: set<string>, p: string)
    requires p in st.sessions && p !in done
    ensures var before := BatchFailures(st, peers, now, done);
            BatchFailures(st, peers, now, done + {p}) ==
            if Fate(st, peers, now, p).Failed? then NoteFailed(before, p, st.sessions[p].relay, now) else before
  {
    FailedKeysStep(st, peers, now, done, p);
    WithOneMore(st.failures, FailedKeys(st, peers, now, done), FailureKey(p, st.sessions[p].relay), now);
  }

  lemma PendingStep(st: State, peers: RuntimePeers, now: nat, done: set<string>, p: string)
    requires p in st.sessions && p !in done
    ensures var before := BatchPending(st, peers, now, done);
            BatchPending(st, peers, now, done + {p}) ==
            if LosesRequests(st, peers, now, p) then DropRequestsOf(before, p) else before
  {
  }

  /** Visiting a participant that the batch has not reached yet gives the batch with it. */
  lemma {:induction false} VisitExtendsBatch(st: State, peers: RuntimePeers, now: nat, done: set<string>, mid: State, p: string)
    requires KeysCannotClash(st.sessions.Keys) && done <= st.sessions.Keys
    requires p in st.sessions && p !in done
    requires IsBatch(st, peers, now, done, mid)
    ensures var (end, pushed) := Visit(mid, peers, p, now);
            IsBatch(st, peers, now, done + {p}, end) && pushed == Leaves(st, peers, now, p)
  {
    hide Visit, Judge, PopResult, PopRest, FirstVerified, NoteFailed, DropRequestsOf;
    hide BatchSessions, BatchStandby, BatchFailures, BatchPending, KeysCannotClash;
    SessionsStep(st, peers, now, done, p);
    FailuresStep(st, peers, now, done, p);
    PendingStep(st, peers, now, done, p);
    VisitParts(mid, peers, p, now);
    var seen := SeenFailures(mid, peers, p, now);
    PopAgrees(st, peers, now, done, p, seen);
    var rest := if Leaves(st, peers, now, p) then PopRest(mid.standby, seen, p, now) else mid.standby;
    SameDomain(mid.standby, st.standby, rest, p);
    assert mid.sessions[p := st.sessions[p]] == mid.sessions;
    StandbyStep(st, peers, now, done, p, rest);
  }

  lemma SameDomain(mid: Queues, start: Queues, rest: Queues, p: string)
    requires Lookup(mid, p) == Lookup(start, p)
    requires rest == mid || exists f, now :: rest == PopRest(mid, f, p, now)
    ensures p !in start ==> p !in rest
  {
    assert p in mid <==> Lookup(mid, p).Some?;
    assert p in start <==> Lookup(start, p).Some?;
  }

  lemma {:induction false} PopAgrees(st: State, peers: RuntimePeers, now: nat, done: set<string>, p: string, seen: Failures)
    requires KeysCannotClash(st.sessions.Keys) && done <= st.sessions.Keys
    requires p in st.sessions && p !in done
    requires var mid := BatchFailures(st, peers, now, done);
             seen == if Fate(st, peers, now, p).Failed? then NoteFailed(mid, p, st.sessions[p].relay, now) else mid
    ensures var queues := BatchStandby(st, peers, now, done);
            && PopResult(queues, seen, p, now) == Successor(st, peers, now, p)
            && Lookup(PopRest(queues, seen, p, now), p) == Lookup(PopRest(st.standby, OwnFailures(st, peers, now, p), p, now), p)
            && PopRest(queues, seen, p, now) - {p} == queues - {p}
            && Lookup(queues, p) == Lookup(st.standby, p)
  {
    UntouchedCooldowns(st, peers, now, done, p);
    var own := OwnFailures(st, peers, now, p);
    forall r ensures InCooldown(seen, p, r, now) == InCooldown(own, p, r, now) {
      assert Lookup(BatchFailures(st, peers, now, done), FailureKey(p, r)) == Lookup(st.failures, FailureKey(p, r));
    }
    PopLocal(BatchStandby(st, peers, now, done), st.standby, seen, own, p, now);
  }

  lemma SameLookups<V>(a: map<string, V>, b: map<string, V>)
    requires forall k :: Lookup(a, k) == Lookup(b, k)
    ensures a == b
  {
    assert forall k :: k in a <==> Lookup(a, k).Some?;
    assert forall k :: k in b <==> Lookup(b, k).Some?;
    assert a.Keys == b.Keys;
    forall k | k in a ensures a[k] == b[k] {
      assert Lookup(a, k) == Lookup(b, k);
    }
  }

  lemma NothingDone(st: State, peers: RuntimePeers, now: nat)
    ensures IsBatch(st, peers, now, {}, st)
  {
    hide Judge, PopResult, PopRest;
    assert FailedKeys(st, peers, now, {}) == {};
  }

  /** The loop, over any part of the keys in any order, is the batch over that part. */
  lemma {:induction false} WalkIsBatch(st: State, peers: RuntimePeers, now: nat, order: seq<string>)
    requires KeysCannotClash(st.sessions.Keys)
    requires Distinct(order) && Elems(order) <= st.sessions.Keys
    ensures var (end, changed) := Walk(st, peers, now, order);
            && IsBatch(st, peers, now, Elems(order), end)
            && Elems(changed) == Changed(st, peers, now, Elems(order))
  {
    hide Visit, IsBatch, Leaves, KeysCannotClash;
    if order == [] {
      NothingDone(st, peers, now);
      assert Elems(order) == {};
    } else {
      var last := |order| - 1;
      var p := order[last];
      ElemsSnoc(order);
      assert p !in order[..last];
      WalkIsBatch(st, peers, now, order[..last]);
      var (mid, changed) := Walk(st, peers, now, order[..last]);
      VisitExtendsBatch(st, peers, now, Elems(order[..last]), mid, p);
      ElemsConcat(changed, [p]);
    }
  }
}
