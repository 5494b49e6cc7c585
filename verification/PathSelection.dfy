/** The selection rule: total, sticky, and stable under being acted on. */
module PathSelection {
  import opened Common
  import opened Paths

  lemma AtMostTotal(a: Rank, b: Rank)
    ensures AtMost(a, b) || AtMost(b, a)
  {
  }

  lemma AtMostTransitive(a: Rank, b: Rank, c: Rank)
    requires AtMost(a, b) && AtMost(b, c)
    ensures AtMost(a, c)
  {
  }

  ghost predicate Tops(net: Net, endpoints: map<string, Path>, locals: seq<string>, default: string, among: set<string>, e: string)
    requires among <= endpoints.Keys
  {
    && e in among
    && forall f :: f in among ==> AtMost(RankOf(net, f, endpoints[f], locals, default), RankOf(net, e, endpoints[e], locals, default))
  }

  /** Every non-empty set of tracked endpoints has one of maximal rank. */
  lemma {:induction false} SomeTop(net: Net, endpoints: map<string, Path>, locals: seq<string>, default: string, among: set<string>) returns (e: string)
    requires among != {} && among <= endpoints.Keys
    ensures Tops(net, endpoints, locals, default, among, e)
    decreases among
  {
    hide RankOf, AtMost;
    var x :| x in among;
    var rest := among - {x};
    var rx := RankOf(net, x, endpoints[x], locals, default);
    AtMostTotal(rx, rx);
    if rest == {} {
      e := x;
      assert among == {x};
    } else {
      var y := SomeTop(net, endpoints, locals, default, rest);
      var ry := RankOf(net, y, endpoints[y], locals, default);
      AtMostTotal(rx, ry);
      AtMostTotal(ry, ry);
      e := if AtMost(rx, ry) then y else x;
      forall f | f in among
        ensures AtMost(RankOf(net, f, endpoints[f], locals, default), RankOf(net, e, endpoints[e], locals, default))
      {
        if f != x && e == x {
          AtMostTransitive(RankOf(net, f, endpoints[f], locals, default), ry, rx);
        }
      }
    }
  }

  lemma BestExists(net: Net, endpoints: map<string, Path>, locals: seq<string>, default: string)
    requires endpoints != map[]
    ensures Best(net, endpoints, locals, default) != {}
  {
    hide RankOf, AtMost;
    assert endpoints.Keys == {} ==> endpoints == map[];
    var e := SomeTop(net, endpoints, locals, default, endpoints.Keys);
    assert e in Best(net, endpoints, locals, default);
  }

  lemma PreferredIsBest(net: Net, pick: TieBreak, endpoints: map<string, Path>, locals: seq<string>, default: string)
    requires Chooses(pick) && endpoints != map[]
    ensures pick(Best(net, endpoints, locals, default)) in Best(net, endpoints, locals, default)
    ensures pick(Best(net, endpoints, locals, default)) in endpoints
  {
    BestExists(net, endpoints, locals, default);
  }

  /** No tracked endpoint was proven later than a best one. */
  lemma BestIsProvenLast(net: Net, endpoints: map<string, Path>, locals: seq<string>, default: string, e: string, f: string)
    requires e in Best(net, endpoints, locals, default) && f in endpoints
    ensures ProvenAt(net, f, endpoints[f], locals) <= ProvenAt(net, e, endpoints[e], locals)
  {
  }

  /** What a best endpoint has over one that was proven no less recently: a relay comes before an
      endpoint on a shared subnet, that before a public or observed one, those before a legacy one
      and a foreign local one last; then the announcement's default, then the later announcement. */
  lemma BestPrefersSources(net: Net, endpoints: map<string, Path>, locals: seq<string>, default: string, e: string, f: string)
    requires e in Best(net, endpoints, locals, default) && f in endpoints
    requires ProvenAt(net, f, endpoints[f], locals) == ProvenAt(net, e, endpoints[e], locals)
    ensures var (a, b) := (endpoints[e].source, endpoints[f].source);
            var (near, rivalNear) := (SharesSubnet(net, e, locals), SharesSubnet(net, f, locals));
            && (b.Relay? ==> a.Relay?)
            && (rivalNear ==> a.Relay? || near)
            && (b.Public? || b.Observed? ==> a.Relay? || near || a.Public? || a.Observed?)
            && (b.Legacy? ==> a.Relay? || near || !a.Local?)
            && (a == b && near == rivalNear && f == default ==> e == default)
            && (a == b && near == rivalNear && e != default && f != default ==> endpoints[f].announcedAt <= endpoints[e].announcedAt)
  {
    hide SharesSubnet, ProvenAt;
    assert AtMost(RankOf(net, f, endpoints[f], locals, default), RankOf(net, e, endpoints[e], locals, default));
  }

  /** Selection returns a tracked endpoint, and the announcement's default when nothing is tracked.
      Unless it keeps the current endpoint, its choice has maximal rank. */
  lemma SelectionIsTracked(net: Net, pick: TieBreak, state: PeerState, ann: Announcement, locals: seq<string>, now: nat, retryAfter: nat)
    requires Chooses(pick)
    ensures var e, default := Select(net, pick, state, ann, locals, now, retryAfter), DefaultEndpoint(net, ann, locals);
            if state.endpoints == map[] then e == default
            else e in state.endpoints && (Some(e) == state.current || e in Best(net, state.endpoints, locals, default))
  {
    hide Best;
    if state.endpoints != map[] {
      PreferredIsBest(net, pick, state.endpoints, locals, DefaultEndpoint(net, ann, locals));
    }
  }

  /** The current endpoint is left exactly when the tie-break prefers another one and either the
      current one is off-subnet and local, or it is proven but the other is proven later, or it is
      unproven and its retry window has passed. */
  lemma LeavesExactlyWhen(net: Net, pick: TieBreak, state: PeerState, ann: Announcement, locals: seq<string>, now: nat, retryAfter: nat)
    requires Chooses(pick) && state.current.Some? && state.current.value in state.endpoints
    ensures var current := state.current.value;
            var other := pick(Best(net, state.endpoints, locals, DefaultEndpoint(net, ann, locals)));
            var path := state.endpoints[current];
            Select(net, pick, state, ann, locals, now, retryAfter) != current <==>
              && other != current
              && (|| OffSubnetLocal(net, current, locals)
                  || (ProvenAt(net, current, path, locals) > 0
                      && other in state.endpoints
                      && ProvenAt(net, other, state.endpoints[other], locals) > ProvenAt(net, current, path, locals))
                  || (ProvenAt(net, current, path, locals) == 0 && MayRotate(path, now, retryAfter)))
  {
    hide Best;
    PreferredIsBest(net, pick, state.endpoints, locals, DefaultEndpoint(net, ann, locals));
  }

  /** A current endpoint with an applicable success is left only for one with a strictly later applicable success. */
  lemma ProvenEndpointsStick(net: Net, pick: TieBreak, state: PeerState, ann: Announcement, locals: seq<string>, now: nat, retryAfter: nat)
    requires Chooses(pick) && state.current.Some? && state.current.value in state.endpoints
    requires ProvenAt(net, state.current.value, state.endpoints[state.current.value], locals) > 0
    ensures var e, current := Select(net, pick, state, ann, locals, now, retryAfter), state.current.value;
            e == current ||
            (e in state.endpoints
             && ProvenAt(net, e, state.endpoints[e], locals) > ProvenAt(net, current, state.endpoints[current], locals))
  {
    hide Best;
    LeavesExactlyWhen(net, pick, state, ann, locals, now, retryAfter);
  }

  /** An unproven current endpoint that is usable here is kept until its retry window has passed. */
  lemma UnprovenEndpointsWait(net: Net, pick: TieBreak, state: PeerState, ann: Announcement, locals: seq<string>, now: nat, retryAfter: nat)
    requires Chooses(pick) && state.current.Some? && state.current.value in state.endpoints
    requires ProvenAt(net, state.current.value, state.endpoints[state.current.value], locals) == 0
    requires !OffSubnetLocal(net, state.current.value, locals)
    requires !MayRotate(state.endpoints[state.current.value], now, retryAfter)
    ensures Select(net, pick, state, ann, locals, now, retryAfter) == state.current.value
  {
    LeavesExactlyWhen(net, pick, state, ann, locals, now, retryAfter);
  }

  // ---- The rule in plain terms ----

  predicate Near(net: Net, e: string, locals: seq<string>)
  {
    exists l :: l in locals && net.sameSubnet(e, l)
  }

  /** The last success, if it counts here: an endpoint that is only reachable locally must be near. */
  function Worked(net: Net, e: string, path: Path, locals: seq<string>): nat
  {
    if path.successAt == None || (net.localOnly(e) && !Near(net, e, locals)) then 0 else path.successAt.value
  }

  /** Relays come first, then what is near, public or observed, legacy, and far local ones. */
  function Grade(source: Source, near: bool): nat
  {
    if source == Relay then 10 else if near then 8 else if source == Public || source == Observed then 6
    else if source == Legacy then 4 else 2
  }

  /** What the announcement alone suggests: its local endpoint if near, or its public one unless blank. */
  function Suggested(net: Net, ann: Announcement, locals: seq<string>): string
  {
    match (ann.localEndpoint, ann.publicEndpoint)
    case (Some(l), None) => if Near(net, l, locals) then l else ann.endpoint
    case (Some(l), Some(q)) => if Near(net, l, locals) then l else if Trim(q) != "" then q else ann.endpoint
    case (None, Some(q)) => if Trim(q) != "" then q else ann.endpoint
    case (None, None) => ann.endpoint
  }

  /** `f` goes before `e`: it worked later, or else is of a higher grade, or else is the suggested one, or else
      was announced later. */
  predicate Outranks(net: Net, endpoints: map<string, Path>, locals: seq<string>, suggested: string, f: string, e: string)
    requires e in endpoints && f in endpoints
  {
    var (x, y) := (endpoints[f], endpoints[e]);
    var (worked, other) := (Worked(net, f, x, locals), Worked(net, e, y, locals));
    var (grade, otherGrade) := (Grade(x.source, Near(net, f, locals)), Grade(y.source, Near(net, e, locals)));
    || worked > other
    || (worked == other && grade > otherGrade)
    || (worked == other && grade == otherGrade && f == suggested && e != suggested)
    || (worked == other && grade == otherGrade && (f == suggested <==> e == suggested) && x.announcedAt > y.announcedAt)
  }

  lemma NearMeaning(net: Net, e: string, locals: seq<string>)
    ensures SharesSubnet(net, e, locals) <==> Near(net, e, locals)
  {
  }

  lemma {:induction false} SuggestedIsDefault(net: Net, ann: Announcement, locals: seq<string>)
    ensures Suggested(net, ann, locals) == DefaultEndpoint(net, ann, locals)
  {
    if ann.localEndpoint.Some? { NearMeaning(net, ann.localEndpoint.value, locals); }
    hide Near, SharesSubnet, Trim;
  }

  lemma {:induction false} WorkedIsProven(net: Net, e: string, path: Path, locals: seq<string>)
    ensures Worked(net, e, path, locals) == ProvenAt(net, e, path, locals)
  {
    NearMeaning(net, e, locals);
    hide Near, SharesSubnet;
  }

  lemma {:induction false} OutranksExactly(net: Net, endpoints: map<string, Path>, locals: seq<string>, suggested: string, f: string, e: string)
    requires e in endpoints && f in endpoints
    ensures AtMost(RankOf(net, f, endpoints[f], locals, suggested), RankOf(net, e, endpoints[e], locals, suggested)) <==>
              !Outranks(net, endpoints, locals, suggested, f, e)
  {
    NearMeaning(net, e, locals);
    NearMeaning(net, f, locals);
    WorkedIsProven(net, e, endpoints[e], locals);
    WorkedIsProven(net, f, endpoints[f], locals);
    hide Near, SharesSubnet, Worked, ProvenAt;
  }

  ghost predicate Unbeaten(net: Net, endpoints: map<string, Path>, locals: seq<string>, suggested: string, e: string)
  {
    e in endpoints && forall f :: f in endpoints ==> !Outranks(net, endpoints, locals, suggested, f, e)
  }

  lemma {:induction false} BestAreUnbeaten(net: Net, endpoints: map<string, Path>, locals: seq<string>, suggested: string, e: string)
    ensures e in Best(net, endpoints, locals, suggested) <==> Unbeaten(net, endpoints, locals, suggested, e)
  {
    hide RankOf, AtMost, Outranks;
    if e in endpoints {
      forall f | f in endpoints ensures AtMost(RankOf(net, f, endpoints[f], locals, suggested), RankOf(net, e, endpoints[e], locals, suggested))
                                  <==> !Outranks(net, endpoints, locals, suggested, f, e)
      {
        OutranksExactly(net, endpoints, locals, suggested, f, e);
      }
    }
  }

  /** The current endpoint may be left for the other: it is local and not near; or it works and the other worked
      later; or it does not and was not selected within the retry window. */
  predicate MayLeave(net: Net, state: PeerState, locals: seq<string>, now: nat, retryAfter: nat, current: string, other: string)
    requires current in state.endpoints && other in state.endpoints
  {
    var path := state.endpoints[current];
    var worked := Worked(net, current, path, locals);
    || (net.localOnly(current) && !Near(net, current, locals))
    || (worked > 0 && Worked(net, other, state.endpoints[other], locals) > worked)
    || (worked == 0 && (path.selectedAt.Some? ==> path.selectedAt.value + retryAfter <= now || (retryAfter == 0 && now < path.selectedAt.value)))
  }

  /** Without a tracked endpoint the suggested one is selected. Otherwise some unbeaten endpoint is the candidate: it is
      selected unless another tracked endpoint is current that may not be left for it, which is then kept. */
  lemma {:induction false} SelectsExactly(net: Net, pick: TieBreak, state: PeerState, ann: Announcement, locals: seq<string>, now: nat, retryAfter: nat)
    requires Chooses(pick)
    ensures var e, suggested := Select(net, pick, state, ann, locals, now, retryAfter), Suggested(net, ann, locals);
            if state.endpoints == map[] then e == suggested
            else
              exists candidate :: Unbeaten(net, state.endpoints, locals, suggested, candidate)
                && e == match state.current
                        case None => candidate
                        case Some(current) =>
                          if current in state.endpoints && current != candidate
                             && !MayLeave(net, state, locals, now, retryAfter, current, candidate)
                          then current else candidate
  {
    hide Best, Unbeaten;
    SuggestedIsDefault(net, ann, locals);
    var suggested := Suggested(net, ann, locals);
    if state.endpoints != map[] {
      PreferredIsBest(net, pick, state.endpoints, locals, suggested);
      var candidate := pick(Best(net, state.endpoints, locals, suggested));
      BestAreUnbeaten(net, state.endpoints, locals, suggested, candidate);
      WorkedIsProven(net, candidate, state.endpoints[candidate], locals);
      if state.current.Some? && state.current.value in state.endpoints {
        var current := state.current.value;
        WorkedIsProven(net, current, state.endpoints[current], locals);
        NearMeaning(net, current, locals);
      }
      hide Worked, ProvenAt, Near, SharesSubnet, DefaultEndpoint, Suggested;
    }
  }

  // ---- Acting on a selection ----

  /** Noting a selection changes no rank, so the best endpoints stay the same. */
  lemma NoteKeepsBest(net: Net, state: PeerState, e: string, at: nat, locals: seq<string>, default: string)
    requires e in state.endpoints
    ensures Best(net, NoteSelected(state, e, at).endpoints, locals, default) == Best(net, state.endpoints, locals, default)
    ensures forall f :: f in state.endpoints ==>
              && f in NoteSelected(state, e, at).endpoints
              && RankOf(net, f, NoteSelected(state, e, at).endpoints[f], locals, default) == RankOf(net, f, state.endpoints[f], locals, default)
  {
    hide AtMost;
    var after := NoteSelected(state, e, at).endpoints;
    assert after.Keys == state.endpoints.Keys;
  }

  lemma SoleEndpointIsBest(net: Net, endpoints: map<string, Path>, locals: seq<string>, default: string, e: string)
    requires endpoints.Keys == {e}
    ensures Best(net, endpoints, locals, default) == {e}
  {
    AtMostTotal(RankOf(net, e, endpoints[e], locals, default), RankOf(net, e, endpoints[e], locals, default));
  }

  /** Select, note the selection, and select again at the same time: the same endpoint comes out,
      for every fixed tie-break and every retry window, zero included. */
  lemma SelectionIsStable(net: Net, pick: TieBreak, state: PeerState, ann: Announcement, locals: seq<string>, now: nat, retryAfter: nat)
    requires Chooses(pick)
    ensures var e := Select(net, pick, state, ann, locals, now, retryAfter);
            Select(net, pick, NoteSelected(state, e, now), ann, locals, now, retryAfter) == e
  {
    hide Best, AtMost;
    var default := DefaultEndpoint(net, ann, locals);
    var e := Select(net, pick, state, ann, locals, now, retryAfter);
    var after := NoteSelected(state, e, now);
    assert e in after.endpoints && after.endpoints != map[];
    if state.endpoints == map[] {
      SoleEndpointIsBest(net, after.endpoints, locals, default, e);
    } else {
      SelectionIsTracked(net, pick, state, ann, locals, now, retryAfter);
      NoteKeepsBest(net, state, e, now, locals, default);
      PreferredIsBest(net, pick, state.endpoints, locals, default);
      assert forall f :: f in state.endpoints ==>
        ProvenAt(net, f, after.endpoints[f], locals) == RankOf(net, f, after.endpoints[f], locals, default).provenAt;
    }
  }

  /** With a positive retry window the answer does not even depend on the tie-break being the same
      both times, unless the endpoint is an off-subnet local one. */
  lemma SelectionSurvivesRetieing(net: Net, pick: TieBreak, again: TieBreak, state: PeerState, ann: Announcement, locals: seq<string>, now: nat, retryAfter: nat)
    requires Chooses(pick) && Chooses(again) && retryAfter > 0 && state.endpoints != map[]
    requires !OffSubnetLocal(net, Select(net, pick, state, ann, locals, now, retryAfter), locals)
    ensures var e := Select(net, pick, state, ann, locals, now, retryAfter);
            Select(net, again, NoteSelected(state, e, now), ann, locals, now, retryAfter) == e
  {
    hide Best, AtMost;
    var default := DefaultEndpoint(net, ann, locals);
    var e := Select(net, pick, state, ann, locals, now, retryAfter);
    var after := NoteSelected(state, e, now);
    SelectionIsTracked(net, pick, state, ann, locals, now, retryAfter);
    NoteKeepsBest(net, state, e, now, locals, default);
    PreferredIsBest(net, pick, state.endpoints, locals, default);
    PreferredIsBest(net, again, state.endpoints, locals, default);
    var one, two := pick(Best(net, state.endpoints, locals, default)), again(Best(net, state.endpoints, locals, default));
    BestIsProvenLast(net, state.endpoints, locals, default, one, two);
    assert forall f :: f in state.endpoints ==>
      ProvenAt(net, f, after.endpoints[f], locals) == RankOf(net, f, after.endpoints[f], locals, default).provenAt;
  }
}
