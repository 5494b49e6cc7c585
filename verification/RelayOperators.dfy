/** When the record of relay operators is independent of the order of a pass: exactly when no two
    sessions of one relay end differently. */
module RelayOperators {
  import opened Common
  import opened Order
  import opened RelayState
  import opened RelayReconcile
  import opened RelayOutcome

  /** The visit of the participant writes to the record of its relay's operator. */
  ghost predicate Reports(st: State, peers: RuntimePeers, now: nat, p: string)
  {
    p in st.sessions && (Fate(st, peers, now, p).Confirmed? || Fate(st, peers, now, p).Failed?)
  }

  /** Sessions of one relay that are confirmed or have failed, judged on the books before the pass,
      all ended alike: all failed, or all confirmed by a handshake of the same time. */
  ghost predicate ReportsAgree(st: State, peers: RuntimePeers, now: nat)
  {
    forall p, q :: Reports(st, peers, now, p) && Reports(st, peers, now, q) && st.sessions[p].relay == st.sessions[q].relay ==>
      Fate(st, peers, now, p) == Fate(st, peers, now, q)
  }

  /** The record does not depend on the order in which the pass visits the sessions. */
  ghost predicate OperatorsOrderFree(st: State, peers: RuntimePeers, now: nat)
  {
    forall one: seq<string>, two: seq<string> :: Enumerates(one, st.sessions) && Enumerates(two, st.sessions) ==>
      Reconcile(st, peers, now, one).0.providers == Reconcile(st, peers, now, two).0.providers
  }

  /** One visit's note about a relay. */
  function Noted(book: ProviderBook, relay: string, fate: Verdict, now: nat): ProviderBook
  {
    match fate
    case Confirmed(at) => NoteVerified(book, relay, at)
    case Failed => NoteProviderFailed(book, relay, now, None)
    case _ => book
  }

  lemma NotedElsewhere(book: ProviderBook, relay: string, fate: Verdict, now: nat, other: string)
    requires other != relay
    ensures Lookup(Noted(book, relay, fate, now), other) == Lookup(book, other)
  {
  }

  lemma NotedLocally(one: ProviderBook, two: ProviderBook, relay: string, fate: Verdict, now: nat)
    requires Lookup(one, relay) == Lookup(two, relay)
    ensures Lookup(Noted(one, relay, fate, now), relay) == Lookup(Noted(two, relay, fate, now), relay)
  {
    assert ProviderOf(one, relay) == ProviderOf(two, relay) by {
      assert relay in one <==> Lookup(one, relay).Some?;
      assert relay in two <==> Lookup(two, relay).Some?;
    }
  }

  /** A visit in the middle of a pass notes the fate judged before the pass. */
  lemma {:induction false} VisitNotesFate(st: State, peers: RuntimePeers, now: nat, order: seq<string>, p: string)
    requires p in st.sessions && p !in order
    ensures Walk(st, peers, now, order + [p]).0.providers ==
              Noted(Walk(st, peers, now, order).0.providers, st.sessions[p].relay, Fate(st, peers, now, p), now)
  {
    hide Visit, Judge;
    var longer := order + [p];
    assert longer[..|order|] == order;
    var mid := Walk(st, peers, now, order).0;
    WalkLeavesUnvisited(st, peers, now, order, p);
    assert p in mid.sessions <==> Lookup(mid.sessions, p).Some?;
    VisitParts(mid, peers, p, now);
  }

  // ---- If all reports agree ----

  /** How many of the listed participants report on the relay. */
  ghost function ReportsOn(st: State, peers: RuntimePeers, now: nat, done: set<string>, relay: string): set<string>
  {
    set p | p in done && Reports(st, peers, now, p) && st.sessions[p].relay == relay
  }

  /** The record after `n` notes of one fate. */
  function NotedTimes(book: ProviderBook, relay: string, fate: Verdict, now: nat, n: nat): ProviderBook
  {
    if n == 0 then book else Noted(NotedTimes(book, relay, fate, now, n - 1), relay, fate, now)
  }

  /** All reports on the relay note the same fate. */
  ghost predicate AllNote(st: State, peers: RuntimePeers, now: nat, relay: string, fate: Verdict)
  {
    forall p :: Reports(st, peers, now, p) && st.sessions[p].relay == relay ==> Fate(st, peers, now, p) == fate
  }

  /** Once some participants are visited, the record has noted the fate of a relay once for each report. */
  ghost predicate Tallied(st: State, peers: RuntimePeers, now: nat, order: seq<string>, relay: string, fate: Verdict)
  {
    var reports := ReportsOn(st, peers, now, Elems(order), relay);
    Lookup(Walk(st, peers, now, order).0.providers, relay) == Lookup(NotedTimes(st.providers, relay, fate, now, |reports|), relay)
  }

  lemma {:induction false} ReportsSnoc(st: State, peers: RuntimePeers, now: nat, order: seq<string>, relay: string)
    requires order != [] && Distinct(order)
    ensures var last := |order| - 1;
            var p, before := order[last], ReportsOn(st, peers, now, Elems(order[..last]), relay);
            && p !in before
            && ReportsOn(st, peers, now, Elems(order), relay) ==
                 before + (if Reports(st, peers, now, p) && st.sessions[p].relay == relay then {p} else {})
  {
    hide Reports;
    ElemsSnoc(order);
    assert forall i :: 0 <= i < |order| - 1 ==> order[i] != order[|order| - 1];
  }

  lemma NotedQuietly(book: ProviderBook, relay: string, fate: Verdict, now: nat)
    requires !fate.Confirmed? && !fate.Failed?
    ensures Noted(book, relay, fate, now) == book
  {
  }

  lemma {:induction false} WalkIsTallied(st: State, peers: RuntimePeers, now: nat, order: seq<string>, relay: string, fate: Verdict)
    requires AllNote(st, peers, now, relay, fate)
    requires Distinct(order) && Elems(order) <= st.sessions.Keys
    ensures Tallied(st, peers, now, order, relay, fate)
  {
    if order == [] {
      assert ReportsOn(st, peers, now, Elems(order), relay) == {};
    } else {
      hide Walk, Noted, NotedTimes;
      var last := |order| - 1;
      var p, before := order[last], order[..last];
      assert order == before + [p];
      assert forall i :: 0 <= i < last ==> order[i] != p;
      assert p in Elems(order) && Elems(before) <= Elems(order);
      WalkIsTallied(st, peers, now, before, relay, fate);
      VisitNotesFate(st, peers, now, before, p);
      ReportsSnoc(st, peers, now, order, relay);
      hide Elems, Distinct;
      TallyStep(st.providers, Walk(st, peers, now, before).0.providers, st.sessions[p].relay, relay, Fate(st, peers, now, p), fate, now,
                ReportsOn(st, peers, now, Elems(before), relay), p);
    }
  }

  lemma {:induction false} TallyStep(start: ProviderBook, mid: ProviderBook, own: string, relay: string, fate: Verdict, common: Verdict, now: nat,
                                     earlier: set<string>, p: string)
    requires Lookup(mid, relay) == Lookup(NotedTimes(start, relay, common, now, |earlier|), relay)
    requires own == relay && (fate.Confirmed? || fate.Failed?) ==> fate == common && p !in earlier
    ensures var reports := earlier + (if own == relay && (fate.Confirmed? || fate.Failed?) then {p} else {});
            Lookup(Noted(mid, own, fate, now), relay) == Lookup(NotedTimes(start, relay, common, now, |reports|), relay)
  {
    hide NotedTimes, Noted;
    if own != relay {
      NotedElsewhere(mid, own, fate, now, relay);
      assert earlier + {} == earlier;
    } else if fate.Confirmed? || fate.Failed? {
      NotedOnceMore(start, mid, relay, fate, now, |earlier|);
    } else {
      NotedQuietly(mid, own, fate, now);
      assert earlier + {} == earlier;
    }
  }

  lemma NotedOnceMore(start: ProviderBook, mid: ProviderBook, relay: string, fate: Verdict, now: nat, n: nat)
    requires Lookup(mid, relay) == Lookup(NotedTimes(start, relay, fate, now, n), relay)
    ensures Lookup(Noted(mid, relay, fate, now), relay) == Lookup(NotedTimes(start, relay, fate, now, n + 1), relay)
  {
    hide Noted;
    NotedLocally(mid, NotedTimes(start, relay, fate, now, n), relay, fate, now);
  }

  lemma {:induction false} AgreeingReportsCommute(st: State, peers: RuntimePeers, now: nat, one: seq<string>, two: seq<string>)
    requires ReportsAgree(st, peers, now)
    requires Enumerates(one, st.sessions) && Enumerates(two, st.sessions)
    ensures Walk(st, peers, now, one).0.providers == Walk(st, peers, now, two).0.providers
  {
    hide Walk, NotedTimes;
    var a, b := Walk(st, peers, now, one).0.providers, Walk(st, peers, now, two).0.providers;
    forall relay ensures Lookup(a, relay) == Lookup(b, relay) {
      var fate := CommonFate(st, peers, now, relay);
      WalkIsTallied(st, peers, now, one, relay, fate);
      WalkIsTallied(st, peers, now, two, relay, fate);
    }
    SameLookups(a, b);
  }

  lemma CommonFate(st: State, peers: RuntimePeers, now: nat, relay: string) returns (fate: Verdict)
    requires ReportsAgree(st, peers, now)
    ensures AllNote(st, peers, now, relay, fate)
  {
    hide Judge;
    if p :| Reports(st, peers, now, p) && st.sessions[p].relay == relay {
      fate := Fate(st, peers, now, p);
    } else {
      fate := Waiting;
    }
  }

  // ---- If two reports differ ----

  /** Two different notes about one relay leave a record that tells which came last. */
  lemma DifferentNotesDoNotCommute(book: ProviderBook, relay: string, a: Verdict, b: Verdict, now: nat)
    requires a != b && (a.Confirmed? || a.Failed?) && (b.Confirmed? || b.Failed?)
    ensures Noted(Noted(book, relay, a, now), relay, b, now) != Noted(Noted(book, relay, b, now), relay, a, now)
  {
    var one, two := Noted(Noted(book, relay, a, now), relay, b, now), Noted(Noted(book, relay, b, now), relay, a, now);
    assert one[relay].cooldownUntil.Some? <==> b.Failed?;
    assert two[relay].cooldownUntil.Some? <==> a.Failed?;
  }

  lemma {:induction false} Listing(s: set<string>) returns (order: seq<string>)
    ensures Distinct(order) && Elems(order) == s
    decreases s
  {
    if s == {} {
      order := [];
    } else {
      var x :| x in s;
      var rest := Listing(s - {x});
      ElemsConcat(rest, [x]);
      order := rest + [x];
      assert forall i :: 0 <= i < |rest| ==> rest[i] in Elems(rest);
    }
  }

  lemma {:induction false} LastTwo(st: State, peers: RuntimePeers, now: nat, rest: seq<string>, p: string, q: string)
    requires p != q && p in st.sessions && q in st.sessions
    requires Distinct(rest) && Elems(rest) == st.sessions.Keys - {p, q}
    ensures Enumerates(rest + [p] + [q], st.sessions)
    ensures Walk(st, peers, now, rest + [p] + [q]).0.providers ==
              Noted(Noted(Walk(st, peers, now, rest).0.providers, st.sessions[p].relay, Fate(st, peers, now, p), now),
                    st.sessions[q].relay, Fate(st, peers, now, q), now)
  {
    hide Walk, Judge, Noted;
    assert p !in rest && q !in rest by { assert p !in Elems(rest) && q !in Elems(rest); }
    VisitNotesFate(st, peers, now, rest, p);
    VisitNotesFate(st, peers, now, rest + [p], q);
    ElemsConcat(rest, [p]);
    ElemsConcat(rest + [p], [q]);
  }

  lemma {:induction false} DifferingReportsShow(st: State, peers: RuntimePeers, now: nat, p: string, q: string)
    requires Reports(st, peers, now, p) && Reports(st, peers, now, q) && st.sessions[p].relay == st.sessions[q].relay
    requires Fate(st, peers, now, p) != Fate(st, peers, now, q)
    ensures !OperatorsOrderFree(st, peers, now)
  {
    hide Walk, Judge, Noted;
    var rest := Listing(st.sessions.Keys - {p, q});
    LastTwo(st, peers, now, rest, p, q);
    LastTwo(st, peers, now, rest, q, p);
    DifferentNotesDoNotCommute(Walk(st, peers, now, rest).0.providers, st.sessions[p].relay, Fate(st, peers, now, p), Fate(st, peers, now, q), now);
    var one, two := rest + [p] + [q], rest + [q] + [p];
    assert Reconcile(st, peers, now, one).0.providers != Reconcile(st, peers, now, two).0.providers;
  }

  /** The record is the same after every order exactly when all reports on one relay agree. Two
      confirmations by handshakes of different times already make the order matter. */
  lemma {:induction false} OperatorsOrderFreeExactly(st: State, peers: RuntimePeers, now: nat)
    ensures OperatorsOrderFree(st, peers, now) <==> ReportsAgree(st, peers, now)
  {
    hide Walk, Judge;
    if ReportsAgree(st, peers, now) {
      forall one: seq<string>, two: seq<string> | Enumerates(one, st.sessions) && Enumerates(two, st.sessions)
        ensures Reconcile(st, peers, now, one).0.providers == Reconcile(st, peers, now, two).0.providers
      {
        AgreeingReportsCommute(st, peers, now, one, two);
      }
    } else {
      var p, q :| Reports(st, peers, now, p) && Reports(st, peers, now, q) && st.sessions[p].relay == st.sessions[q].relay
                  && Fate(st, peers, now, p) != Fate(st, peers, now, q);
      DifferingReportsShow(st, peers, now, p, q);
    }
  }

  lemma LastNoteDecides(book: ProviderBook, r: string, at: nat, now: nat)
    ensures ProviderInCooldown(Noted(Noted(book, r, Confirmed(at), now), r, Failed, now), r, now)
    ensures !ProviderInCooldown(Noted(Noted(book, r, Failed, now), r, Confirmed(at), now), r, now)
  {
  }

  /** In particular, if one relay is confirmed for one participant and times out for another, the
      visit that comes last decides whether it is cooling down after the pass. */
  lemma {:induction false} ProvidersDependOnOrder(st: State, peers: RuntimePeers, now: nat, p: string, q: string)
    requires p in st.sessions && q in st.sessions && st.sessions[p].relay == st.sessions[q].relay
    requires Fate(st, peers, now, p).Confirmed? && Fate(st, peers, now, q).Failed?
    ensures exists one: seq<string>, two: seq<string> :: Enumerates(one, st.sessions) && Enumerates(two, st.sessions)
              && ProviderInCooldown(Reconcile(st, peers, now, one).0.providers, st.sessions[p].relay, now)
              && !ProviderInCooldown(Reconcile(st, peers, now, two).0.providers, st.sessions[p].relay, now)
  {
    hide Walk, Judge, Noted, ProviderInCooldown;
    var rest := Listing(st.sessions.Keys - {p, q});
    LastTwo(st, peers, now, rest, p, q);
    LastTwo(st, peers, now, rest, q, p);
    LastNoteDecides(Walk(st, peers, now, rest).0.providers, st.sessions[p].relay, Fate(st, peers, now, p).at, now);
    var one, two := rest + [p] + [q], rest + [q] + [p];
    assert Reconcile(st, peers, now, one).0 == Walk(st, peers, now, one).0 && Reconcile(st, peers, now, two).0 == Walk(st, peers, now, two).0;
  }
}
