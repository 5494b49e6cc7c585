/** The path book as the object the daemon mutates; each method performs one operation of a run
    and reports whether it changed anything. */
module PathBook {
  import opened Common
  import opened Paths
  import opened PathRuns

  class PathBook {
    const net: Net
    var peers: Book

    constructor (net: Net)
      ensures this.net == net && peers == map[]
    {
      this.net, this.peers := net, map[];
    }

    method RefreshFromAnnouncement(p: string, ann: Announcement, seenAt: nat) returns (changed: bool)
      modifies this`peers
      ensures peers == Apply(net, old(peers), Refreshed(p, ann, seenAt))
      ensures changed == RefreshReports(net, StateOf(old(peers), p), ann, seenAt)
    {
      hide AnnouncedList, Announced, Survivors, Entered, RefreshReports, Raises;
      var state := StateOf(peers, p);
      var announced := AnnouncedList(ann);
      var survivors := Survivors(net, state.endpoints, Announced(ann), seenAt);
      ReportsMeaning(net, state, ann, seenAt);
      FewerByCount(state.endpoints, survivors);
      changed := |survivors| != |state.endpoints|;
      var current := state.current;
      if current.Some? && current.value !in survivors {
        current := None;
        changed := true;
      }
      AnnouncedIsDistinct(ann);
      var endpoints, raised := EnterAll(survivors, announced, seenAt);
      changed := changed || raised;
      ListIsMap(ann);
      peers := peers[p := PeerState(current, endpoints)];
    }

    static lemma {:induction false} ReportsMeaning(net: Net, state: PeerState, ann: Announcement, seenAt: nat)
      ensures var survivors := Survivors(net, state.endpoints, Announced(ann), seenAt);
              && survivors.Keys <= state.endpoints.Keys
              && (RefreshReports(net, state, ann, seenAt) <==>
                    || survivors.Keys != state.endpoints.Keys
                    || KeepCurrent(state.current, survivors) != state.current
                    || Raises(survivors, Announced(ann), seenAt))
    {
      hide Announced, Retained, Touched;
    }

    static lemma FewerByCount(endpoints: map<string, Path>, survivors: map<string, Path>)
      requires survivors.Keys <= endpoints.Keys
      ensures |survivors| == |endpoints| <==> survivors.Keys == endpoints.Keys
    {
      assert endpoints.Keys == survivors.Keys + (endpoints.Keys - survivors.Keys);
      assert |survivors| == |survivors.Keys| && |endpoints| == |endpoints.Keys|;
    }

    static ghost predicate DistinctKeys(list: seq<(string, Source)>)
    {
      forall i, j :: 0 <= i < j < |list| ==> list[i].0 != list[j].0
    }

    static lemma ListIsMap(ann: Announcement)
      ensures AsMap(AnnouncedList(ann)) == Announced(ann)
    {
    }

    static lemma ListIsDistinct(list: seq<(string, Source)>, endpoint: Option<string>, source: Source)
      requires DistinctKeys(list)
      ensures DistinctKeys(Listed(list, endpoint, source))
    {
    }

    static lemma AnnouncedIsDistinct(ann: Announcement)
      ensures DistinctKeys(AnnouncedList(ann))
    {
      hide Listed;
      var a := Listed([], ann.localEndpoint, Local);
      var b := Listed(a, ann.publicEndpoint, Public);
      var c := Listed(b, ann.relayEndpoint, Relay);
      ListIsDistinct([], ann.localEndpoint, Local);
      ListIsDistinct(a, ann.publicEndpoint, Public);
      ListIsDistinct(b, ann.relayEndpoint, Relay);
      ListIsDistinct(c, Some(ann.endpoint), Legacy);
    }

    static ghost predicate Raises(survivors: map<string, Path>, announced: map<string, Source>, seenAt: nat)
    {
      exists e :: e in survivors && e in announced && Touched(Some(survivors[e]), announced[e], seenAt) != survivors[e]
    }

    static lemma EnterOneMore(survivors: map<string, Path>, list: seq<(string, Source)>, i: nat, seenAt: nat)
      requires DistinctKeys(list) && i < |list|
      ensures var before, after := AsMap(list[..i]), AsMap(list[..i + 1]);
              var (e, source) := list[i];
              && Lookup(Entered(survivors, before, seenAt), e) == Lookup(survivors, e)
              && Entered(survivors, after, seenAt) == Entered(survivors, before, seenAt)[e := Touched(Lookup(survivors, e), source, seenAt)]
              && (Raises(survivors, after, seenAt) <==>
                    Raises(survivors, before, seenAt) || (e in survivors && Touched(Some(survivors[e]), source, seenAt) != survivors[e]))
    {
      hide Touched;
      var before, after := AsMap(list[..i]), AsMap(list[..i + 1]);
      var (e, source) := list[i];
      assert list[..i + 1][..i] == list[..i];
      assert after == before[e := source];
      if e in before {
        AsMapEntries(list[..i], e);
      }
      assert e !in before;
      if Raises(survivors, before, seenAt) {
        var f :| f in survivors && f in before && Touched(Some(survivors[f]), before[f], seenAt) != survivors[f];
        assert f in after && after[f] == before[f];
      }
      if e in survivors && Touched(Some(survivors[e]), source, seenAt) != survivors[e] {
        assert e in after;
      }
    }

    static lemma NothingEntered(survivors: map<string, Path>, seenAt: nat)
      ensures Entered(survivors, AsMap([]), seenAt) == survivors && !Raises(survivors, AsMap([]), seenAt)
    {
    }

    /** The loop over the announced endpoints. */
    static method EnterAll(survivors: map<string, Path>, list: seq<(string, Source)>, seenAt: nat)
      returns (endpoints: map<string, Path>, raised: bool)
      requires DistinctKeys(list)
      ensures endpoints == Entered(survivors, AsMap(list), seenAt)
      ensures raised == Raises(survivors, AsMap(list), seenAt)
    {
      hide Entered, Raises, AsMap;
      endpoints, raised := survivors, false;
      NothingEntered(survivors, seenAt);
      assert list[..0] == [];
      for i := 0 to |list|
        invariant endpoints == Entered(survivors, AsMap(list[..i]), seenAt)
        invariant raised == Raises(survivors, AsMap(list[..i]), seenAt)
      {
        EnterOneMore(survivors, list, i, seenAt);
        var (endpoint, source) := list[i];
        var path := if endpoint in endpoints then endpoints[endpoint] else NewPath(source, seenAt);
        var merged := Merge(path.source, source);
        if path.source != merged {
          path := path.(source := merged);
          raised := true;
        }
        if path.announcedAt < seenAt {
          path := path.(announcedAt := seenAt);
          raised := true;
        }
        endpoints := endpoints[endpoint := path];
      }
      assert list[..|list|] == list;
    }

    method NoteSelectedEndpoint(p: string, endpoint: string, at: nat) returns (changed: bool)
      modifies this`peers
      ensures peers == Apply(net, old(peers), Selected(p, endpoint, at))
      ensures changed <==> StateOf(peers, p) != StateOf(old(peers), p)
    {
      var state := StateOf(peers, p);
      var path := if endpoint in state.endpoints then state.endpoints[endpoint] else NewPath(Observed, at);
      changed := false;
      if path.selectedAt != Some(at) {
        path := path.(selectedAt := Some(at));
        changed := true;
      }
      if state.current != Some(endpoint) { changed := true; }
      var endpoints := state.endpoints[endpoint := path];
      assert !changed ==> endpoints == state.endpoints;
      peers := peers[p := PeerState(Some(endpoint), endpoints)];
    }

    /** Notes a success. The flag is down when the time is no news, even if the endpoint is: it tells
        a change of state except exactly when an untracked endpoint enters at time 0. */
    method NoteSuccessAt(p: string, endpoint: string, at: nat) returns (changed: bool)
      modifies this`peers
      ensures peers == Apply(net, old(peers), Succeeded(p, endpoint, at))
      ensures changed <==> at > 0 && (endpoint in StateOf(old(peers), p).endpoints ==>
                                        OrZero(StateOf(old(peers), p).endpoints[endpoint].successAt) < at)
      ensures (changed <==> StateOf(peers, p) != StateOf(old(peers), p))
                <==> at > 0 || endpoint in StateOf(old(peers), p).endpoints
    {
      var state := StateOf(peers, p);
      var path := if endpoint in state.endpoints then state.endpoints[endpoint] else NewPath(Observed, at);
      changed := OrZero(path.successAt) < at;
      if changed { path := path.(successAt := Some(at)); }
      peers := peers[p := state.(endpoints := state.endpoints[endpoint := path])];
    }

    /** Prunes one peer: whether it lost an endpoint or its current one, or has none left. */
    static method PrunePeer(state: PeerState, cutoff: nat) returns (pruned: PeerState, changed: bool)
      ensures pruned == Restrict(state, FreshOnly(state.endpoints, cutoff))
      ensures changed <==> pruned != state || pruned.endpoints == map[]
    {
      var endpoints := FreshOnly(state.endpoints, cutoff);
      FewerByCount(state.endpoints, endpoints);
      changed := |endpoints| != |state.endpoints|;
      assert !changed ==> endpoints == state.endpoints;
      var current := state.current;
      if current.Some? && current.value !in endpoints {
        current := None;
        changed := true;
      }
      if endpoints == map[] { changed := true; }
      pruned := PeerState(current, endpoints);
    }

    /** The walk over the peers, in some order, with a flag that is up exactly when the book changed. */
    method PruneStalePaths(now: nat, staleAfter: nat) returns (changed: bool)
      modifies this`peers
      ensures peers == Apply(net, old(peers), Pruned(now, staleAfter))
      ensures changed <==> peers != old(peers)
    {
      if staleAfter == 0 { return false; }
      hide FreshOnly, Restrict;
      var cutoff := SatSub(now, staleAfter);
      changed := false;
      var todo := peers.Keys;
      ghost var start := peers;
      while todo != {}
        invariant todo <= start.Keys && PrunedSoFar(start, peers, todo, cutoff)
        invariant changed <==> TouchedSoFar(start, todo, cutoff)
        decreases |todo|
      {
        hide PrunedSoFar, TouchedSoFar, PrunedPeer;
        var p :| p in todo;
        PruneOneMore(start, peers, todo, cutoff, p);
        var pruned, touched := PrunePeer(peers[p], cutoff);
        changed := changed || touched;
        if pruned.endpoints != map[] { peers := peers[p := pruned]; } else { peers := peers - {p}; }
        todo := todo - {p};
      }
      PrunedBook(start, peers, now, staleAfter);
    }

    static ghost predicate PrunedSoFar(start: Book, now: Book, todo: set<string>, cutoff: nat)
    {
      && now.Keys <= start.Keys
      && forall p :: p in start ==> Lookup(now, p) == if p in todo then Some(start[p]) else PrunedPeer(start[p], cutoff)
    }

    static ghost predicate TouchedSoFar(start: Book, todo: set<string>, cutoff: nat)
    {
      exists p :: p in start && p !in todo && PrunedPeer(start[p], cutoff) != Some(start[p])
    }

    static lemma {:induction false} PruneOneMore(start: Book, now: Book, todo: set<string>, cutoff: nat, p: string)
      requires PrunedSoFar(start, now, todo, cutoff) && p in todo && todo <= start.Keys
      ensures p in now && now[p] == start[p]
      ensures var pruned := Restrict(now[p], FreshOnly(now[p].endpoints, cutoff));
              && PrunedSoFar(start, if pruned.endpoints != map[] then now[p := pruned] else now - {p}, todo - {p}, cutoff)
              && (TouchedSoFar(start, todo - {p}, cutoff) <==>
                    TouchedSoFar(start, todo, cutoff) || pruned != now[p] || pruned.endpoints == map[])
    {
      assert Lookup(now, p) == Some(start[p]);
      var pruned := Restrict(start[p], FreshOnly(start[p].endpoints, cutoff));
      assert pruned.endpoints == FreshOnly(start[p].endpoints, cutoff);
      hide FreshOnly, Restrict;
      if PrunedPeer(start[p], cutoff) != Some(start[p]) { assert p !in todo - {p}; }
    }

    /** What is left of a peer, if anything is. */
    static function PrunedPeer(state: PeerState, cutoff: nat): Option<PeerState>
    {
      var endpoints := FreshOnly(state.endpoints, cutoff);
      if endpoints == map[] then None else Some(Restrict(state, endpoints))
    }

    static lemma PrunedBook(start: Book, end: Book, now: nat, staleAfter: nat)
      requires staleAfter > 0 && PrunedSoFar(start, end, {}, SatSub(now, staleAfter))
      ensures end == PruneStale(start, now, staleAfter)
      ensures end != start <==> TouchedSoFar(start, {}, SatSub(now, staleAfter))
    {
      hide FreshOnly, Restrict;
      var spec := PruneStale(start, now, staleAfter);
      forall p | p in start ensures Lookup(end, p) == Lookup(spec, p) && (p in end <==> Lookup(end, p).Some?) {}
      assert end.Keys == spec.Keys;
      if exists p :: p in start && PrunedPeer(start[p], SatSub(now, staleAfter)) != Some(start[p]) {
        var p :| p in start && PrunedPeer(start[p], SatSub(now, staleAfter)) != Some(start[p]);
        assert Lookup(end, p) != Lookup(start, p);
      } else {
        forall p | p in start ensures p in end && end[p] == start[p] { assert Lookup(end, p) == Some(start[p]); }
        assert end == start;
      }
    }

    method RetainParticipants(participants: set<string>)
      modifies this`peers
      ensures peers == Apply(net, old(peers), Retain(participants))
    {
      peers := map p | p in peers && p in participants :: peers[p];
    }

    method RemoveRelayPathsFor(p: string) returns (changed: bool)
      modifies this`peers
      ensures peers == Apply(net, old(peers), DropRelays(p))
      ensures changed <==> peers != old(peers)
    {
      if p !in peers { return false; }
      var state := peers[p];
      var endpoints := NonRelay(state.endpoints);
      FewerByCount(state.endpoints, endpoints);
      changed := |endpoints| != |state.endpoints|;
      assert !changed ==> endpoints == state.endpoints;
      if state.current.Some? && state.current.value !in endpoints { changed := true; }
      if endpoints == map[] {
        peers := peers - {p};
        assert p !in peers && p in old(peers);
        return true;
      }
      peers := peers[p := Restrict(state, endpoints)];
      assert peers[p] == old(peers)[p] ==> peers == old(peers);
    }
  }
}
