/** What a whole reconcile pass guarantees: it does not depend on the hash-map order
    exactly when failure keys cannot clash, it leaves only live sessions, and it
    neither invents nor loses sessions beyond the ones it retires. */
module RelayOutcome {
  import opened Common
  import opened Order
  import opened RelayState
  import opened RelayReconcile

  /** A possible iteration order of the session map. */
  ghost predicate Enumerates(order: seq<string>, sessions: map<string, Session>)
  {
    Distinct(order) && Elems(order) == sessions.Keys
  }

  /** Equality of everything a pass produces except the provider book. */
  ghost predicate SameOutcome(a: (State, seq<string>), b: (State, seq<string>))
  {
    && a.0.sessions == b.0.sessions
    && a.0.standby == b.0.standby
    && a.0.failures == b.0.failures
    && a.0.pending == b.0.pending
    && a.1 == b.1
  }

  lemma ReconcileIsBatch(st: State, peers: RuntimePeers, now: nat, order: seq<string>)
    requires KeysCannotClash(st.sessions.Keys) && Enumerates(order, st.sessions)
    ensures var (end, changed) := Reconcile(st, peers, now, order);
            && IsBatch(st, peers, now, st.sessions.Keys, end)
            && Elems(changed) == Changed(st, peers, now, st.sessions.Keys)
            && Sorted(changed)
  {
    WalkIsBatch(st, peers, now, order);
    SortDedupSorted(Walk(st, peers, now, order).1);
  }

  /** Order independence over every state whose sessions belong to the given participants. */
  ghost predicate OrderFree(participants: set<string>)
  {
    forall st: State, peers: RuntimePeers, now: nat, one: seq<string>, two: seq<string> ::
      st.sessions.Keys <= participants && Enumerates(one, st.sessions) && Enumerates(two, st.sessions) ==>
        SameOutcome(Reconcile(st, peers, now, one), Reconcile(st, peers, now, two))
  }

  lemma OrdersAgree(st: State, peers: RuntimePeers, now: nat, one: seq<string>, two: seq<string>)
    requires KeysCannotClash(st.sessions.Keys)
    requires Enumerates(one, st.sessions) && Enumerates(two, st.sessions)
    ensures SameOutcome(Reconcile(st, peers, now, one), Reconcile(st, peers, now, two))
  {
    ReconcileIsBatch(st, peers, now, one);
    ReconcileIsBatch(st, peers, now, two);
    SortedIsCanonical(Reconcile(st, peers, now, one).1, Reconcile(st, peers, now, two).1);
  }

  function LiveSession(relay: string): Session
  {
    Session(relay, "a", "b", 0, None, 100)
  }

  /** `p` times out on relay `t:r` while `q == p:t` could promote a standby on relay `r`:
      both share one failure key, so `q` is served only if it is visited first. */
  function ClashState(p: string, q: string): State
    requires StartsWith(q, p + ":")
  {
    State(
      map[p := LiveSession(q[|p| + 1..] + ":r"), q := LiveSession("x").(expiresAt := 0)],
      map[q := [LiveSession("r")]],
      map[], map[], map[])
  }

  lemma WalkTwo(st: State, peers: RuntimePeers, now: nat, a: string, b: string)
    ensures Walk(st, peers, now, [a, b]).0 == Visit(Visit(st, peers, a, now).0, peers, b, now).0
  {
    assert [a, b][..1] == [a] && [a][..0] == [];
    assert Walk(st, peers, now, [a]).0 == Visit(st, peers, a, now).0;
  }

  lemma LiveSessionIsActive(relay: string)
    ensures IsActive(LiveSession(relay), 8)
  {
    assert Trim("a") == "a" && Trim("b") == "b";
  }

  lemma ClashKeys(p: string, q: string)
    requires StartsWith(q, p + ":")
    ensures FailureKey(p, q[|p| + 1..] + ":r") == FailureKey(q, "r")
  {
    assert q == q[..|p| + 1] + q[|p| + 1..];
    assert q == p + ":" + q[|p| + 1..];
  }

  lemma ClashBlocksLateVisit(p: string, q: string)
    requires p != q && StartsWith(q, p + ":")
    ensures q !in Walk(ClashState(p, q), map[], 8, [p, q]).0.sessions
  {
    var st := ClashState(p, q);
    ClashKeys(p, q);
    WalkTwo(st, map[], 8, p, q);
    LiveSessionIsActive(st.sessions[p].relay);
    var first := Visit(st, map[], p, 8).0;
    assert first.failures == map[FailureKey(q, "r") := 68];
    assert first.standby == st.standby && q in first.sessions && first.sessions[q] == st.sessions[q];
    assert InCooldown(first.failures, q, "r", 8);
    assert PopResult(first.standby, first.failures, q, 8) == None;
  }

  lemma ClashServesEarlyVisit(p: string, q: string)
    requires p != q && StartsWith(q, p + ":")
    ensures q in Walk(ClashState(p, q), map[], 8, [q, p]).0.sessions
  {
    var st := ClashState(p, q);
    WalkTwo(st, map[], 8, q, p);
    LiveSessionIsActive("r");
    assert PopResult(st.standby, st.failures, q, 8) == Some(Promote(LiveSession("r"), 8));
    assert q in Visit(st, map[], q, 8).0.sessions;
  }

  lemma ClashDependsOnOrder(p: string, q: string)
    requires p != q && StartsWith(q, p + ":")
    ensures var st := ClashState(p, q);
            && Enumerates([p, q], st.sessions) && Enumerates([q, p], st.sessions)
            && q !in Reconcile(st, map[], 8, [p, q]).0.sessions
            && q in Reconcile(st, map[], 8, [q, p]).0.sessions
  {
    var st := ClashState(p, q);
    ClashBlocksLateVisit(p, q);
    ClashServesEarlyVisit(p, q);
    assert Enumerates([p, q], st.sessions) && Enumerates([q, p], st.sessions);
  }

  /** A pass is independent of the iteration order, on every state of the given
      participants, exactly when no name continues another across the `:` of a failure key. */
  lemma OrderFreeExactly(participants: set<string>)
    ensures OrderFree(participants) <==> KeysCannotClash(participants)
  {
    if KeysCannotClash(participants) {
      forall st: State, peers: RuntimePeers, now: nat, one: seq<string>, two: seq<string> |
        st.sessions.Keys <= participants && Enumerates(one, st.sessions) && Enumerates(two, st.sessions)
        ensures SameOutcome(Reconcile(st, peers, now, one), Reconcile(st, peers, now, two))
      {
        OrdersAgree(st, peers, now, one, two);
      }
    } else {
      var p, q :| p in participants && q in participants && p != q && StartsWith(q, p + ":");
      ClashDependsOnOrder(p, q);
      var st := ClashState(p, q);
      assert st.sessions.Keys <= participants;
      assert !SameOutcome(Reconcile(st, map[], 8, [p, q]), Reconcile(st, map[], 8, [q, p]));
    }
  }

  // ---- What a pass leaves behind ----

  /** Unexpired, with both endpoints, and verified or younger than the verify timeout. */
  predicate IsLive(s: Session, now: nat)
  {
    IsActive(s, now) && (s.verifiedAt.Some? || SatSub(now, s.grantedAt) < SESSION_VERIFY_TIMEOUT)
  }

  lemma PromotedIsLive(standby: Queues, failures: Failures, p: string, now: nat)
    ensures var next := PopResult(standby, failures, p, now); next.Some? ==> IsLive(next.value, now)
  {
    if p in standby {
      var i := NextUsable(standby[p], failures, p, now);
      if i < |standby[p]| { assert Usable(standby[p][i], failures, p, now); }
    }
  }

  lemma KeptIsLive(peers: RuntimePeers, p: string, s: Session, now: nat)
    ensures Judge(peers, p, s, now).Confirmed? ==> IsLive(FirstVerified(s, Judge(peers, p, s, now).at), now)
    ensures Judge(peers, p, s, now).Waiting? ==> IsLive(s, now)
  {
    hide IsBlank, VerifiedBy;
  }

  lemma {:induction false} VisitLeavesLive(st: State, peers: RuntimePeers, p: string, now: nat)
    requires p in st.sessions && p in Visit(st, peers, p, now).0.sessions
    ensures IsLive(Visit(st, peers, p, now).0.sessions[p], now)
  {
    hide Visit, Judge, PopResult, PopRest, IsLive, FirstVerified, NoteFailed;
    VisitParts(st, peers, p, now);
    KeptIsLive(peers, p, st.sessions[p], now);
    PromotedIsLive(st.standby, SeenFailures(st, peers, p, now), p, now);
  }

  lemma {:induction false} WalkLeavesLive(st: State, peers: RuntimePeers, now: nat, order: seq<string>, p: string)
    requires Distinct(order) && p in order && p in st.sessions
    ensures p in Walk(st, peers, now, order).0.sessions ==> IsLive(Walk(st, peers, now, order).0.sessions[p], now)
  {
    hide Visit, IsLive;
    var last := |order| - 1;
    var before := order[..last];
    var mid := Walk(st, peers, now, before).0;
    if order[last] == p {
      assert forall i :: 0 <= i < last ==> order[i] != p;
      WalkLeavesUnvisited(st, peers, now, before, p);
      assert p in mid.sessions <==> Lookup(mid.sessions, p).Some?;
      if p in Walk(st, peers, now, order).0.sessions { VisitLeavesLive(mid, peers, p, now); }
    } else {
      assert p in before by { assert order == before + [order[last]]; }
      WalkLeavesLive(st, peers, now, before, p);
      VisitLeavesOthers(mid, peers, order[last], now, p);
    }
  }

  /** A pass never adds a participant. */
  lemma {:induction false} WalkAddsNobody(st: State, peers: RuntimePeers, now: nat, order: seq<string>)
    ensures Walk(st, peers, now, order).0.sessions.Keys <= st.sessions.Keys
  {
    if order != [] {
      hide Visit, Judge, PopResult, PopRest, FirstVerified, NoteFailed;
      var last := |order| - 1;
      var mid := Walk(st, peers, now, order[..last]).0;
      WalkAddsNobody(st, peers, now, order[..last]);
      if order[last] in mid.sessions {
        VisitParts(mid, peers, order[last], now);
      } else {
        AbsentIsSkipped(mid, peers, order[last], now);
      }
    }
  }

  /** Every session left is unexpired, has both endpoints, and is verified or younger than the
      verify timeout, whatever the participants are called and in whatever order they are visited. */
  lemma {:induction false} SessionsAreLive(st: State, peers: RuntimePeers, now: nat, order: seq<string>, p: string)
    requires Enumerates(order, st.sessions)
    requires p in Reconcile(st, peers, now, order).0.sessions
    ensures var s := Reconcile(st, peers, now, order).0.sessions[p];
            && IsActive(s, now)
            && (s.verifiedAt.Some? || SatSub(now, s.grantedAt) < SESSION_VERIFY_TIMEOUT)
  {
    hide Walk, IsActive;
    WalkAddsNobody(st, peers, now, order);
    assert p in Elems(order);
    WalkLeavesLive(st, peers, now, order, p);
  }

  /** A participant whose session was retired either runs on a freshly promoted standby whose
      relay is not in its cooldown, or has no usable standby and no pending request. */
  lemma RetiredIsReplacedOrCleared(st: State, peers: RuntimePeers, now: nat, order: seq<string>, p: string)
    requires KeysCannotClash(st.sessions.Keys) && Enumerates(order, st.sessions)
    requires p in Reconcile(st, peers, now, order).1
    ensures var end := Reconcile(st, peers, now, order).0;
            if p in end.sessions then
              var s := end.sessions[p];
              && s.grantedAt == now && s.verifiedAt.None?
              && !InCooldown(end.failures, p, s.relay, now)
              && p in st.standby && exists k :: 0 <= k < |st.standby[p]| && s == Promote(st.standby[p][k], now)
            else
              && PopResult(end.standby, end.failures, p, now).None?
              && (forall id :: id in end.pending ==> end.pending[id].participant != p)
  {
    ReconcileIsBatch(st, peers, now, order);
    var end := Reconcile(st, peers, now, order).0;
    assert p in Elems(Reconcile(st, peers, now, order).1);
    assert p in Changed(st, peers, now, st.sessions.Keys);
    var own := OwnFailures(st, peers, now, p);
    forall r ensures InCooldown(end.failures, p, r, now) == InCooldown(own, p, r, now) {
      FinalCooldowns(st, peers, now, p, r);
    }
    SuccessorIsUsable(st, peers, now, p);
    if p !in end.sessions {
      PopLocal(end.standby, st.standby, end.failures, own, p, now);
    }
  }

  lemma SuccessorIsUsable(st: State, peers: RuntimePeers, now: nat, p: string)
    requires p in st.sessions
    ensures var next := Successor(st, peers, now, p);
            next.Some? ==>
              && !InCooldown(OwnFailures(st, peers, now, p), p, next.value.relay, now)
              && p in st.standby && exists k :: 0 <= k < |st.standby[p]| && next.value == Promote(st.standby[p][k], now)
  {
  }

  /** At the end of a pass a participant sees its old cooldowns plus its own failure. */
  lemma FinalCooldowns(st: State, peers: RuntimePeers, now: nat, p: string, r: string)
    requires KeysCannotClash(st.sessions.Keys) && p in st.sessions
    ensures Lookup(BatchFailures(st, peers, now, st.sessions.Keys), FailureKey(p, r))
         == Lookup(OwnFailures(st, peers, now, p), FailureKey(p, r))
  {
    forall q | q in st.sessions && q != p ensures FailureKey(q, st.sessions[q].relay) != FailureKey(p, r) {
      KeysOfTwo(st.sessions.Keys, q, p, st.sessions[q].relay, r);
    }
  }

  // ---- Conservation ----

  /** What identifies a session once grant and verification times are forgotten. */
  datatype Core = Core(relay: string, localIngress: string, advertisedIngress: string, expiresAt: nat)

  function CoreOf(s: Session): Core
  {
    Core(s.relay, s.localIngress, s.advertisedIngress, s.expiresAt)
  }

  function One(b: bool): nat
  {
    if b then 1 else 0
  }

  /** How many sessions of a queue have the given core. */
  function Copies(queue: seq<Session>, c: Core): nat
  {
    if queue == [] then 0 else One(CoreOf(queue[0]) == c) + Copies(queue[1..], c)
  }

  function CopiesIn(slot: Option<Session>, c: Core): nat
  {
    One(slot.Some? && CoreOf(slot.value) == c)
  }

  function CopiesQueued(queue: Option<seq<Session>>, c: Core): nat
  {
    if queue.Some? then Copies(queue.value, c) else 0
  }

  /** How many sessions with the given core are held for a participant, active or standing by. */
  function Held(st: State, p: string, c: Core): nat
  {
    CopiesIn(Lookup(st.sessions, p), c) + CopiesQueued(Lookup(st.standby, p), c)
  }

  lemma {:induction false} CopiesRemove(queue: seq<Session>, i: nat, c: Core)
    requires i < |queue|
    ensures Copies(queue, c) == One(CoreOf(queue[i]) == c) + Copies(Remove(queue, i), c)
  {
    if i == 0 {
      assert Remove(queue, 0) == queue[1..];
    } else {
      CopiesRemove(queue[1..], i - 1, c);
      assert Remove(queue, i) == [queue[0]] + Remove(queue[1..], i - 1);
      assert Remove(queue, i)[1..] == Remove(queue[1..], i - 1);
    }
  }

  /** A pop moves one session out of the queue and changes only its times. */
  lemma PopConserves(standby: Queues, failures: Failures, p: string, now: nat, c: Core)
    ensures CopiesQueued(Lookup(standby, p), c)
         == CopiesIn(PopResult(standby, failures, p, now), c)
            + CopiesQueued(Lookup(PopRest(standby, failures, p, now), p), c)
  {
    if p in standby {
      var queue := standby[p];
      var i := NextUsable(queue, failures, p, now);
      if i < |queue| {
        CopiesRemove(queue, i, c);
        if |queue| == 1 { assert Remove(queue, i) == []; }
      }
    }
  }

  lemma PopLeavesOthers(standby: Queues, failures: Failures, p: string, now: nat, q: string)
    requires q != p
    ensures Lookup(PopRest(standby, failures, p, now), q) == Lookup(standby, q)
  {
  }

  /** One visit: the retired session is all that is lost, and nothing appears. */
  lemma VisitConserves(st: State, peers: RuntimePeers, p: string, now: nat, q: string, c: Core)
    ensures var (end, pushed) := Visit(st, peers, p, now);
            && (pushed ==> p in st.sessions)
            && Held(st, q, c) == Held(end, q, c) + One(pushed && q == p && CoreOf(st.sessions[p]) == c)
            && (q != p ==> Lookup(end.sessions, q) == Lookup(st.sessions, q))
  {
    hide Judge, PopResult, PopRest, NoteFailed, CopiesQueued;
    if p in st.sessions {
      VisitParts(st, peers, p, now);
      var seen := SeenFailures(st, peers, p, now);
      if q == p {
        PopConserves(st.standby, seen, p, now, c);
      } else {
        PopLeavesOthers(st.standby, seen, p, now, q);
      }
    }
  }

  lemma {:induction false} WalkConserves(st: State, peers: RuntimePeers, now: nat, order: seq<string>, q: string, c: Core)
    requires Distinct(order)
    ensures var (end, changed) := Walk(st, peers, now, order);
            && (q in changed ==> q in order && q in st.sessions)
            && (q !in order ==> Lookup(end.sessions, q) == Lookup(st.sessions, q))
            && Held(st, q, c) == Held(end, q, c) + One(q in changed && CoreOf(st.sessions[q]) == c)
  {
    if order != [] {
      var last := |order| - 1;
      var p := order[last];
      WalkConserves(st, peers, now, order[..last], q, c);
      var (mid, changed) := Walk(st, peers, now, order[..last]);
      VisitConserves(mid, peers, p, now, q, c);
      assert p !in order[..last];
      assert order == order[..last] + [p];
    }
  }

  /** For every participant a pass loses exactly the old session of a changed participant
      and otherwise keeps every session, active or standing by; it creates none. */
  lemma ReconcileConserves(st: State, peers: RuntimePeers, now: nat, order: seq<string>, q: string, c: Core)
    requires Enumerates(order, st.sessions)
    ensures var (end, changed) := Reconcile(st, peers, now, order);
            && (q in changed ==> q in st.sessions)
            && Held(st, q, c) == Held(end, q, c) + One(q in changed && CoreOf(st.sessions[q]) == c)
  {
    WalkConserves(st, peers, now, order, q, c);
    var changed := Walk(st, peers, now, order).1;
    assert Elems(SortDedup(changed)) == Elems(changed);
    assert q in changed <==> q in Elems(changed);
    assert q in SortDedup(changed) <==> q in Elems(SortDedup(changed));
  }
}
