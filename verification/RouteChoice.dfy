/** The data plane's choice of a peer for a packet: the longest matching prefix, the last peer
    winning ties, and why the order of the peers does not matter once routes are owned. */
module RouteChoice {
  import opened Common
  import opened Masks
  import opened Routes
  import opened RouteOwners

  datatype Route4 = Route4(network: bv32, bits: bv8)

  datatype Peer = Peer(key: string, routes: seq<Route4>)

  /** `Ipv4Route::parse`. */
  function ParseRoute(text: Text, s: string): Option<Route4>
  {
    var c := text.parseV4(s);
    if c.Some? && c.value.addr.V4? && c.value.bits <= 32
    then Some(Route4(Network4(c.value.addr.v4, c.value.bits), c.value.bits)) else None
  }

  predicate Matches(r: Route4, ip: bv32)
    requires r.bits <= 32
  {
    Network4(ip, r.bits) == r.network
  }

  predicate InRange(peers: seq<Peer>)
  {
    forall i, j :: 0 <= i < |peers| && 0 <= j < |peers[i].routes| ==> peers[i].routes[j].bits <= 32
  }

  datatype Best = Best(index: nat, bits: bv8)

  predicate NoLonger(a: Option<bv8>, b: Option<bv8>)
  {
    a.None? || (b.Some? && a.value <= b.value)
  }

  function Length(best: Option<Best>): Option<bv8>
  {
    if best.None? then None else Some(best.value.bits)
  }

  /** `max_by_key` keeps the last of equally long prefixes. */
  function Considered(best: Option<Best>, index: nat, r: Route4, ip: bv32): Option<Best>
    requires r.bits <= 32
  {
    if Matches(r, ip) && NoLonger(Length(best), Some(r.bits)) then Some(Best(index, r.bits)) else best
  }

  function AmongRoutes(best: Option<Best>, index: nat, routes: seq<Route4>, ip: bv32): Option<Best>
    requires forall j :: 0 <= j < |routes| ==> routes[j].bits <= 32
  {
    if routes == [] then best
    else Considered(AmongRoutes(best, index, routes[..|routes| - 1], ip), index, routes[|routes| - 1], ip)
  }

  function AmongPeers(peers: seq<Peer>, ip: bv32): Option<Best>
    requires InRange(peers)
  {
    if peers == [] then None
    else
      var last := |peers| - 1;
      AmongRoutes(AmongPeers(peers[..last], ip), last, peers[last].routes, ip)
  }

  /** `select_peer_for_packet`, for an IPv4 destination. */
  function SelectPeer(peers: seq<Peer>, ip: bv32): Option<nat>
    requires InRange(peers)
  {
    var best := AmongPeers(peers, ip);
    if best.None? then None else Some(best.value.index)
  }

  // ---- The longest match ----

  function Lengthened(before: Option<bv8>, r: Route4, ip: bv32): Option<bv8>
    requires r.bits <= 32
  {
    if Matches(r, ip) && NoLonger(before, Some(r.bits)) then Some(r.bits) else before
  }

  function LongestOf(routes: seq<Route4>, ip: bv32): Option<bv8>
    requires forall j :: 0 <= j < |routes| ==> routes[j].bits <= 32
  {
    if routes == [] then None else Lengthened(LongestOf(routes[..|routes| - 1], ip), routes[|routes| - 1], ip)
  }

  /** The length of the longest route of a peer that matches. */
  function Longest(peer: Peer, ip: bv32): Option<bv8>
    requires forall j :: 0 <= j < |peer.routes| ==> peer.routes[j].bits <= 32
  {
    LongestOf(peer.routes, ip)
  }

  lemma NoLongerIsAnOrder(a: Option<bv8>, b: Option<bv8>, c: Option<bv8>)
    ensures NoLonger(a, a) && (NoLonger(a, b) || NoLonger(b, a))
    ensures NoLonger(a, b) && NoLonger(b, c) ==> NoLonger(a, c)
    ensures NoLonger(a, b) && NoLonger(b, a) ==> a == b
  {
  }

  /** `LongestOf` is the greatest length of a matching route, if any matches. */
  lemma {:induction false} LongestMeaning(routes: seq<Route4>, ip: bv32)
    requires forall j :: 0 <= j < |routes| ==> routes[j].bits <= 32
    ensures forall j :: 0 <= j < |routes| && Matches(routes[j], ip) ==> NoLonger(Some(routes[j].bits), LongestOf(routes, ip))
    ensures LongestOf(routes, ip).Some? ==>
              exists j :: 0 <= j < |routes| && Matches(routes[j], ip) && LongestOf(routes, ip) == Some(routes[j].bits)
  {
    hide NoLonger, Matches;
    if routes != [] {
      var last := |routes| - 1;
      var shorter := routes[..last];
      LongestMeaning(shorter, ip);
      var before, here := LongestOf(shorter, ip), Some(routes[last].bits);
      if before.Some? {
        var j :| 0 <= j < last && Matches(shorter[j], ip) && before == Some(shorter[j].bits);
        assert routes[j] == shorter[j];
      }
      forall j | 0 <= j < |routes| && Matches(routes[j], ip) ensures NoLonger(Some(routes[j].bits), LongestOf(routes, ip)) {
        if j < last { assert shorter[j] == routes[j]; }
        NoLongerIsAnOrder(Some(routes[j].bits), before, here);
        NoLongerIsAnOrder(here, before, here);
      }
    }
  }

  /** A longest match moves the choice exactly when it is not shorter than the choice so far. */
  function Moved(best: Option<Best>, index: nat, longest: Option<bv8>): Option<Best>
  {
    if longest.Some? && NoLonger(Length(best), longest) then Some(Best(index, longest.value)) else best
  }

  lemma ConsideringMoves(best: Option<Best>, index: nat, longest: Option<bv8>, r: Route4, ip: bv32)
    requires r.bits <= 32
    ensures Considered(Moved(best, index, longest), index, r, ip) == Moved(best, index, Lengthened(longest, r, ip))
  {
    hide Matches;
    NoLongerIsAnOrder(Length(best), longest, Some(r.bits));
  }

  lemma {:induction false} AmongRoutesMeaning(best: Option<Best>, index: nat, routes: seq<Route4>, ip: bv32)
    requires forall j :: 0 <= j < |routes| ==> routes[j].bits <= 32
    ensures AmongRoutes(best, index, routes, ip) == Moved(best, index, LongestOf(routes, ip))
  {
    hide Considered, Lengthened;
    if routes != [] {
      var last := |routes| - 1;
      AmongRoutesMeaning(best, index, routes[..last], ip);
      ConsideringMoves(best, index, LongestOf(routes[..last], ip), routes[last], ip);
    }
  }

  /** The choice is the last peer that carries the longest matching prefix of all peers. */
  lemma {:induction false} SelectionIsLongestPrefix(peers: seq<Peer>, ip: bv32)
    requires InRange(peers)
    ensures var r := AmongPeers(peers, ip);
            && (r.None? <==> forall i :: 0 <= i < |peers| ==> Longest(peers[i], ip).None?)
            && (r.Some? ==>
                  && r.value.index < |peers| && Longest(peers[r.value.index], ip) == Length(r)
                  && (forall i :: 0 <= i < |peers| ==> NoLonger(Longest(peers[i], ip), Length(r)))
                  && (forall i :: r.value.index < i < |peers| ==> !NoLonger(Length(r), Longest(peers[i], ip))))
  {
    hide LongestOf, NoLonger, AmongRoutes;
    if peers != [] {
      var last := |peers| - 1;
      var shorter := peers[..last];
      assert forall i :: 0 <= i < last ==> shorter[i] == peers[i];
      SelectionIsLongestPrefix(shorter, ip);
      var before, here := AmongPeers(shorter, ip), Longest(peers[last], ip);
      AmongRoutesMeaning(before, last, peers[last].routes, ip);
      NoneIsShortest(here);
      NoneIsShortest(Length(before));
      forall i | 0 <= i < |peers| ensures NoLonger(Longest(peers[i], ip), Length(AmongPeers(peers, ip))) {
        NoneIsShortest(Longest(peers[i], ip));
        NoLongerIsAnOrder(Longest(peers[i], ip), Length(before), here);
        NoLongerIsAnOrder(here, Length(before), here);
      }
    }
  }

  lemma NoneIsShortest(a: Option<bv8>)
    ensures NoLonger(None, a) && NoLonger(a, a) && (NoLonger(a, None) <==> a.None?)
  {
  }

  /** The data plane's reading of a normal IPv4 route matches exactly the addresses that the route,
      as it was first advertised, covers. */
  lemma {:induction false} DataPlaneAgrees(text: Text, s: string, ip: bv32)
    requires Sound(text) && ReadRoute(text, s).Some? && ReadRoute(text, s).value.addr.V4?
    ensures var r := ParseRoute(text, NormalRoute(text, s).value);
            && r.Some? && r.value.bits <= 32
            && (Matches(r.value, ip) <==> Covers(ReadRoute(text, s).value, V4(ip)))
  {
    hide Network4;
    NormalRouteMeaning(text, s);
    var c := ReadRoute(text, s).value;
    KeepAgain4(c.addr.v4, c.bits);
    assert Covers(Masked(c), V4(ip)) <==> Covers(c, V4(ip));
  }

  // ---- The order of the peers ----

  function Chosen(peers: seq<Peer>, ip: bv32): Option<Peer>
    requires InRange(peers)
  {
    var i := SelectPeer(peers, ip);
    SelectionIsLongestPrefix(peers, ip);
    if i.None? then None else Some(peers[i.value])
  }

  /** The peer carries a matching prefix that no peer beats. */
  ghost predicate CarriesLongest(peers: seq<Peer>, p: Peer, ip: bv32)
    requires InRange(peers)
  {
    p in peers && Longest(p, ip).Some? && forall q :: q in peers ==> NoLonger(Longest(q, ip), Longest(p, ip))
  }

  lemma {:induction false} ChosenCarriesLongest(peers: seq<Peer>, ip: bv32)
    requires InRange(peers)
    ensures Chosen(peers, ip).None? <==> forall p :: !CarriesLongest(peers, p, ip)
    ensures Chosen(peers, ip).Some? ==> CarriesLongest(peers, Chosen(peers, ip).value, ip)
  {
    hide Longest, NoLonger, AmongPeers;
    SelectionIsLongestPrefix(peers, ip);
    var r := AmongPeers(peers, ip);
    if r.Some? {
      var p := peers[r.value.index];
      assert CarriesLongest(peers, p, ip);
    }
  }

  lemma SamePeersSameLongest(xs: seq<Peer>, ys: seq<Peer>, p: Peer, ip: bv32)
    requires multiset(xs) == multiset(ys) && InRange(xs) && InRange(ys)
    ensures CarriesLongest(xs, p, ip) <==> CarriesLongest(ys, p, ip)
  {
    hide Longest, NoLonger;
    assert forall q :: q in xs <==> q in multiset(xs);
    assert forall q :: q in ys <==> q in multiset(ys);
  }

  lemma SamePeersInRange(xs: seq<Peer>, ys: seq<Peer>)
    requires multiset(xs) == multiset(ys) && InRange(xs)
    ensures InRange(ys)
  {
    forall i | 0 <= i < |ys| ensures forall j :: 0 <= j < |ys[i].routes| ==> ys[i].routes[j].bits <= 32 {
      assert ys[i] in multiset(ys);
      assert ys[i] in xs;
    }
  }

  lemma {:induction false} LastCarrierIsChosen(peers: seq<Peer>, ip: bv32)
    requires InRange(peers) && peers != [] && CarriesLongest(peers, peers[|peers| - 1], ip)
    ensures Chosen(peers, ip) == Some(peers[|peers| - 1])
  {
    hide Longest, NoLonger, AmongPeers;
    SelectionIsLongestPrefix(peers, ip);
    var last := |peers| - 1;
    var r := AmongPeers(peers, ip);
    NoneIsShortest(Longest(peers[last], ip));
    assert r.Some?;
    assert peers[r.value.index] in peers;
  }

  function MovedLast(peers: seq<Peer>, i: nat): seq<Peer>
    requires i < |peers|
  {
    peers[..i] + peers[i + 1..] + [peers[i]]
  }

  lemma MovedLastKeepsPeers(peers: seq<Peer>, i: nat)
    requires i < |peers|
    ensures multiset(MovedLast(peers, i)) == multiset(peers)
  {
    assert peers == peers[..i] + [peers[i]] + peers[i + 1..];
  }

  /** Whatever order the peers are listed in, the same peer is chosen for an address, exactly when
      only one of them carries the longest prefix that matches it. */
  lemma {:induction false} ChoiceIgnoresOrderExactly(xs: seq<Peer>, ip: bv32)
    requires InRange(xs)
    ensures (forall ys :: multiset(ys) == multiset(xs) && InRange(ys) ==> Chosen(ys, ip) == Chosen(xs, ip)) <==>
            (forall p, q :: CarriesLongest(xs, p, ip) && CarriesLongest(xs, q, ip) ==> p == q)
  {
    hide CarriesLongest, Chosen, InRange;
    if forall p, q :: CarriesLongest(xs, p, ip) && CarriesLongest(xs, q, ip) ==> p == q {
      forall ys | multiset(ys) == multiset(xs) && InRange(ys) ensures Chosen(ys, ip) == Chosen(xs, ip) {
        OneCarrierOneChoice(xs, ys, ip);
      }
    }
    if forall ys :: multiset(ys) == multiset(xs) && InRange(ys) ==> Chosen(ys, ip) == Chosen(xs, ip) {
      forall p, q | CarriesLongest(xs, p, ip) && CarriesLongest(xs, q, ip) ensures p == q {
        MovedCarrierIsChosen(xs, p, ip);
        MovedCarrierIsChosen(xs, q, ip);
      }
    }
  }

  lemma {:induction false} OneCarrierOneChoice(xs: seq<Peer>, ys: seq<Peer>, ip: bv32)
    requires InRange(xs) && InRange(ys) && multiset(xs) == multiset(ys)
    requires forall p, q :: CarriesLongest(xs, p, ip) && CarriesLongest(xs, q, ip) ==> p == q
    ensures Chosen(ys, ip) == Chosen(xs, ip)
  {
    hide CarriesLongest, Chosen;
    ChosenCarriesLongest(xs, ip);
    ChosenCarriesLongest(ys, ip);
    forall p ensures CarriesLongest(xs, p, ip) <==> CarriesLongest(ys, p, ip) { SamePeersSameLongest(xs, ys, p, ip); }
  }

  lemma {:induction false} MovedCarrierIsChosen(xs: seq<Peer>, p: Peer, ip: bv32)
    requires InRange(xs) && CarriesLongest(xs, p, ip)
    ensures exists ys :: multiset(ys) == multiset(xs) && InRange(ys) && Chosen(ys, ip) == Some(p)
  {
    assert p in xs;
    hide CarriesLongest, Chosen;
    var i :| 0 <= i < |xs| && xs[i] == p;
    var ys := MovedLast(xs, i);
    MovedLastKeepsPeers(xs, i);
    SamePeersInRange(xs, ys);
    SamePeersSameLongest(xs, ys, p, ip);
    LastCarrierIsChosen(ys, ip);
  }

  /** No route is listed by two different peers. */
  ghost predicate RoutesAreOwned(peers: seq<Peer>)
  {
    forall p, q, r :: p in peers && q in peers && r in p.routes && r in q.routes ==> p == q
  }

  /** Peers that share no route leave one peer per address: two matching routes of one length
      are the same route. */
  lemma {:induction false} OwnedRoutesLeaveOneCarrier(xs: seq<Peer>, p: Peer, q: Peer, ip: bv32)
    requires InRange(xs) && RoutesAreOwned(xs)
    requires CarriesLongest(xs, p, ip) && CarriesLongest(xs, q, ip)
    ensures p == q
  {
    hide Network4, NoLonger, LongestOf;
    NoLongerIsAnOrder(Longest(p, ip), Longest(q, ip), Longest(p, ip));
    LongestMeaning(p.routes, ip);
    LongestMeaning(q.routes, ip);
    var i :| 0 <= i < |p.routes| && Matches(p.routes[i], ip) && Longest(p, ip) == Some(p.routes[i].bits);
    var j :| 0 <= j < |q.routes| && Matches(q.routes[j], ip) && Longest(q, ip) == Some(q.routes[j].bits);
    assert p.routes[i] == q.routes[j];
    assert p.routes[i] in p.routes && q.routes[j] in q.routes;
  }

  // ---- Peers built from assigned routes ----

  /** `strip_cidr`: what stands before the first slash. */
  function StripCidr(s: string): string
  {
    if s == "" || s[0] == '/' then "" else [s[0]] + StripCidr(s[1..])
  }

  function TunnelRoute(mesh: Mesh, p: string): string
    requires p in mesh.announcements
  {
    StripCidr(mesh.announcements[p].tunnelIp) + "/32"
  }

  /** The allowed addresses of a peer: its tunnel address, then its assigned routes. */
  method AllowedIps(mesh: Mesh, p: string, routed: seq<string>) returns (allowed: seq<string>)
    requires p in mesh.announcements
    ensures allowed == FirstOccurrences([TunnelRoute(mesh, p)] + routed)
    ensures Distinct(allowed) && Elems(allowed) == {TunnelRoute(mesh, p)} + Elems(routed)
  {
    hide StripCidr;
    var first := [TunnelRoute(mesh, p)];
    allowed := first;
    assert first[..0] == [];
    for i := 0 to |routed|
      invariant allowed == FirstOccurrences(first + routed[..i])
    {
      var longer := first + routed[..i + 1];
      assert longer[..|longer| - 1] == first + routed[..i];
      if routed[i] !in allowed { allowed := allowed + [routed[i]]; }
    }
    assert routed[..|routed|] == routed;
    FirstOccurrencesMeaning(first + routed);
    ElemsConcat(first, routed);
  }

  function ParsedRoutes(text: Text, allowed: seq<string>): (routes: seq<Route4>)
    ensures forall j :: 0 <= j < |routes| ==> routes[j].bits <= 32
    ensures forall r :: r in routes ==> exists s :: s in allowed && ParseRoute(text, s) == Some(r)
  {
    if allowed == [] then []
    else
      var last := |allowed| - 1;
      var before, parsed := ParsedRoutes(text, allowed[..last]), ParseRoute(text, allowed[last]);
      assert forall s :: s in allowed[..last] ==> s in allowed;
      if parsed.None? then before else before + [parsed.value]
  }

  function PeerFor(mesh: Mesh, given: map<string, seq<string>>, p: string): Peer
    requires p in mesh.announcements
  {
    var routed := if p in given then given[p] else [];
    Peer(p, ParsedRoutes(mesh.text, FirstOccurrences([TunnelRoute(mesh, p)] + routed)))
  }

  function PeersFor(mesh: Mesh, given: map<string, seq<string>>, order: seq<string>): (peers: seq<Peer>)
    requires forall p :: p in order ==> p in mesh.announcements
    ensures |peers| == |order| && forall i :: 0 <= i < |order| ==> peers[i] == PeerFor(mesh, given, order[i])
    ensures InRange(peers)
  {
    seq(|order|, i requires 0 <= i < |order| => PeerFor(mesh, given, order[i]))
  }

  /** Tunnel addresses differ from each other and from the routes assigned to others. */
  ghost predicate TunnelsApart(mesh: Mesh, given: map<string, seq<string>>, order: seq<string>)
    requires forall p :: p in order ==> p in mesh.announcements
  {
    forall p, q :: p in order && q in order && p != q && ParseRoute(mesh.text, TunnelRoute(mesh, p)).Some? ==>
      && ParseRoute(mesh.text, TunnelRoute(mesh, p)) != ParseRoute(mesh.text, TunnelRoute(mesh, q))
      && (forall s :: ListedFor(given, q, s) ==> ParseRoute(mesh.text, TunnelRoute(mesh, p)) != ParseRoute(mesh.text, s))
  }

  /** A parsed route of a peer is its tunnel route or one of its assigned routes. */
  lemma RouteComesFrom(mesh: Mesh, given: map<string, seq<string>>, p: string, r: Route4) returns (s: string)
    requires p in mesh.announcements && r in PeerFor(mesh, given, p).routes
    ensures ParseRoute(mesh.text, s) == Some(r) && (s == TunnelRoute(mesh, p) || ListedFor(given, p, s))
  {
    hide StripCidr, ParseRoute, FirstOccurrences, ParsedRoutes;
    var routed := if p in given then given[p] else [];
    var all := [TunnelRoute(mesh, p)] + routed;
    FirstOccurrencesMeaning(all);
    s :| s in FirstOccurrences(all) && ParseRoute(mesh.text, s) == Some(r);
    assert s in Elems(FirstOccurrences(all));
    ElemsConcat([TunnelRoute(mesh, p)], routed);
  }

  /** Two assigned routes that read alike are one route, and have one owner. */
  lemma {:induction false} AssignedRoutesAreOwned(mesh: Mesh, given: map<string, seq<string>>, p: string, q: string, s: string, t: string)
    requires Sound(mesh.text) && IsAssignment(mesh, given)
    requires ListedFor(given, p, s) && ListedFor(given, q, t)
    requires ParseRoute(mesh.text, s) == ParseRoute(mesh.text, t)
    ensures s == t && p == q
  {
    hide Network4, V4Routes, Sound, IsExitNodeRoute, SelectedExitNode;
    OwnerIsFirst(mesh, mesh.participants, s);
    OwnerIsFirst(mesh, mesh.participants, t);
    assert Owner(mesh, mesh.participants, s) == Some(p) && Owner(mesh, mesh.participants, t) == Some(q);
    var c := V4RouteIsNetwork(mesh.text, mesh.announcements[p].advertisedRoutes, s);
    var d := V4RouteIsNetwork(mesh.text, mesh.announcements[q].advertisedRoutes, t);
    assert c == d;
  }

  lemma {:induction false} PeersOwnTheirRoutes(mesh: Mesh, given: map<string, seq<string>>, order: seq<string>)
    requires Sound(mesh.text) && IsAssignment(mesh, given)
    requires forall p :: p in order ==> p in mesh.announcements
    requires TunnelsApart(mesh, given, order)
    ensures RoutesAreOwned(PeersFor(mesh, given, order))
  {
    hide StripCidr, ParseRoute, Sound, IsAssignment, PeerFor;
    var peers := PeersFor(mesh, given, order);
    forall a, b, r | a in peers && b in peers && r in a.routes && r in b.routes ensures a == b {
      var i :| 0 <= i < |peers| && peers[i] == a;
      var j :| 0 <= j < |peers| && peers[j] == b;
      var p, q := order[i], order[j];
      var s := RouteComesFrom(mesh, given, p, r);
      var t := RouteComesFrom(mesh, given, q, r);
      if p != q && s != TunnelRoute(mesh, p) && t != TunnelRoute(mesh, q) {
        AssignedRoutesAreOwned(mesh, given, p, q, s, t);
      }
    }
  }

  function WithoutAt<T>(xs: seq<T>, i: nat): seq<T>
    requires i < |xs|
  {
    xs[..i] + xs[i + 1..]
  }

  lemma RemoveAt<T>(xs: seq<T>, i: nat)
    requires i < |xs|
    ensures multiset(WithoutAt(xs, i)) == multiset(xs) - multiset{xs[i]}
    ensures multiset(xs) == multiset(WithoutAt(xs, i)) + multiset{xs[i]}
  {
    assert xs == xs[..i] + [xs[i]] + xs[i + 1..];
    InMiddle(xs[..i], xs[i], xs[i + 1..]);
  }

  lemma InMiddle<T>(before: seq<T>, x: T, after: seq<T>)
    ensures multiset(before + [x] + after) == multiset(before + after) + multiset{x}
  {
  }

  lemma RemovePeer(mesh: Mesh, given: map<string, seq<string>>, order: seq<string>, i: nat)
    requires (forall p :: p in order ==> p in mesh.announcements) && i < |order|
    ensures forall p :: p in WithoutAt(order, i) ==> p in mesh.announcements
    ensures multiset(PeersFor(mesh, given, order)) ==
              multiset(PeersFor(mesh, given, WithoutAt(order, i))) + multiset{PeerFor(mesh, given, order[i])}
  {
    hide PeerFor;
    var peers := PeersFor(mesh, given, order);
    RemoveAt(peers, i);
    assert PeersFor(mesh, given, WithoutAt(order, i)) == WithoutAt(peers, i);
  }

  lemma {:induction false} SameOrderSamePeers(mesh: Mesh, given: map<string, seq<string>>, xs: seq<string>, ys: seq<string>)
    requires forall p :: p in xs ==> p in mesh.announcements
    requires forall p :: p in ys ==> p in mesh.announcements
    requires multiset(xs) == multiset(ys)
    ensures multiset(PeersFor(mesh, given, xs)) == multiset(PeersFor(mesh, given, ys))
    decreases |xs|
  {
    hide PeerFor, PeersFor, WithoutAt;
    assert |xs| == |multiset(xs)| == |multiset(ys)| == |ys|;
    if xs == [] {
    } else {
      assert xs[0] in multiset(ys);
      var i :| 0 <= i < |ys| && ys[i] == xs[0];
      RemoveAt(xs, 0);
      RemoveAt(ys, i);
      RemovePeer(mesh, given, xs, 0);
      RemovePeer(mesh, given, ys, i);
      assert |multiset(WithoutAt(xs, 0))| < |multiset(xs)|;
      SameOrderSamePeers(mesh, given, WithoutAt(xs, 0), WithoutAt(ys, i));
    }
  }

  /** Control plane and data plane agree: peers built from an assignment, in any order, give every
      destination the same peer. */
  lemma {:induction false} DestinationHasOnePeer(mesh: Mesh, given: map<string, seq<string>>, xs: seq<string>, ys: seq<string>, ip: bv32)
    requires Sound(mesh.text) && IsAssignment(mesh, given)
    requires forall p :: p in xs ==> p in mesh.announcements
    requires forall p :: p in ys ==> p in mesh.announcements
    requires multiset(xs) == multiset(ys)
    requires TunnelsApart(mesh, given, xs)
    ensures Chosen(PeersFor(mesh, given, xs), ip) == Chosen(PeersFor(mesh, given, ys), ip)
  {
    hide StripCidr, Sound, IsAssignment, TunnelsApart, Chosen, CarriesLongest, RoutesAreOwned;
    var one, two := PeersFor(mesh, given, xs), PeersFor(mesh, given, ys);
    SameOrderSamePeers(mesh, given, xs, ys);
    PeersOwnTheirRoutes(mesh, given, xs);
    forall p, q | CarriesLongest(one, p, ip) && CarriesLongest(one, q, ip) ensures p == q {
      OwnedRoutesLeaveOneCarrier(one, p, q, ip);
    }
    OneCarrierOneChoice(one, two, ip);
  }

  /** A packet for an address inside an assigned route goes to the owner, unless some peer has a
      longer match. */
  lemma {:induction false} OwnerReceives(mesh: Mesh, given: map<string, seq<string>>, order: seq<string>, p: string, r: Route4, ip: bv32)
    requires Sound(mesh.text) && IsAssignment(mesh, given)
    requires forall q :: q in order ==> q in mesh.announcements
    requires TunnelsApart(mesh, given, order)
    requires p in order && r in PeerFor(mesh, given, p).routes && r.bits <= 32 && Matches(r, ip)
    requires forall q :: q in order ==> NoLonger(Longest(PeerFor(mesh, given, q), ip), Some(r.bits))
    ensures Chosen(PeersFor(mesh, given, order), ip) == Some(PeerFor(mesh, given, p))
  {
    hide StripCidr, Sound, IsAssignment, TunnelsApart, Chosen, RoutesAreOwned, PeerFor, Matches, LongestOf, NoLonger;
    var peers := PeersFor(mesh, given, order);
    var mine := PeerFor(mesh, given, p);
    var i :| 0 <= i < |order| && order[i] == p;
    assert peers[i] == mine;
    var j :| 0 <= j < |mine.routes| && mine.routes[j] == r;
    LongestMeaning(mine.routes, ip);
    NoneIsShortest(Some(r.bits));
    NoLongerIsAnOrder(Longest(mine, ip), Some(r.bits), Longest(mine, ip));
    forall q | q in peers ensures NoLonger(Longest(q, ip), Longest(mine, ip)) {
      var k :| 0 <= k < |peers| && peers[k] == q;
      assert order[k] in order;
    }
    assert CarriesLongest(peers, mine, ip);
    PeersOwnTheirRoutes(mesh, given, order);
    ChosenCarriesLongest(peers, ip);
    OwnedRoutesLeaveOneCarrier(peers, mine, Chosen(peers, ip).value, ip);
  }

  // ---- Where a packet goes, told from the owners of routes ----

  /** What stands before the first slash, if there is one, followed by `/32`. */
  lemma {:induction false} TunnelRouteMeaning(mesh: Mesh, p: string, host: string, rest: string)
    requires p in mesh.announcements && '/' !in host
    requires mesh.announcements[p].tunnelIp == host || mesh.announcements[p].tunnelIp == host + "/" + rest
    ensures TunnelRoute(mesh, p) == host + "/32"
  {
    StripHost(host, "");
    assert host + "" == host;
    StripHost(host, "/" + rest);
    assert host + ("/" + rest) == host + "/" + rest;
  }

  lemma {:induction false} StripHost(host: string, rest: string)
    requires '/' !in host && (rest == "" || rest[0] == '/')
    ensures StripCidr(host + rest) == host
  {
    if host != "" {
      assert (host + rest)[1..] == host[1..] + rest;
      assert host[0] in host;
      StripHost(host[1..], rest);
    } else {
      assert host + rest == rest;
    }
  }

  /** The participant owns a route of this length that covers the address. */
  ghost predicate OwnsCovering(mesh: Mesh, q: string, ip: bv32, bits: bv8)
  {
    exists s :: Owner(mesh, mesh.participants, s) == Some(q) && CoversAt(ReadRoute(mesh.text, s), ip, bits)
  }

  predicate CoversAt(c: Option<Cidr>, ip: bv32, bits: bv8)
  {
    c.Some? && Fits(c.value) && c.value.addr.V4? && c.value.bits == bits && Covers(c.value, V4(ip))
  }

  /** It owns such a route, or has the address as its tunnel address. */
  ghost predicate Serves(mesh: Mesh, q: string, ip: bv32, bits: bv8)
    requires q in mesh.announcements
  {
    OwnsCovering(mesh, q, ip, bits) || CoversAt(mesh.text.parseV4(TunnelRoute(mesh, q)), ip, bits)
  }

  predicate HasMatch(peer: Peer, ip: bv32, bits: bv8)
  {
    exists j :: 0 <= j < |peer.routes| && peer.routes[j].bits == bits && bits <= 32 && Matches(peer.routes[j], ip)
  }

  lemma {:induction false} ParsedRoutesHold(text: Text, allowed: seq<string>, s: string)
    requires s in allowed && ParseRoute(text, s).Some?
    ensures ParseRoute(text, s).value in ParsedRoutes(text, allowed)
  {
    hide ParseRoute;
    var last := |allowed| - 1;
    if allowed[last] != s {
      assert allowed == allowed[..last] + [allowed[last]];
      ParsedRoutesHold(text, allowed[..last], s);
    }
  }

  lemma {:induction false} AllowedIsParsed(mesh: Mesh, given: map<string, seq<string>>, p: string, s: string)
    requires p in mesh.announcements && (s == TunnelRoute(mesh, p) || ListedFor(given, p, s)) && ParseRoute(mesh.text, s).Some?
    ensures ParseRoute(mesh.text, s).value in PeerFor(mesh, given, p).routes
  {
    hide StripCidr, ParseRoute, FirstOccurrences, ParsedRoutes;
    var routed := if p in given then given[p] else [];
    var all := [TunnelRoute(mesh, p)] + routed;
    FirstOccurrencesMeaning(all);
    assert s in Elems(all);
    assert s in Elems(FirstOccurrences(all));
    ParsedRoutesHold(mesh.text, FirstOccurrences(all), s);
  }

  lemma TunnelMatch(text: Text, s: string, ip: bv32, bits: bv8)
    ensures CoversAt(text.parseV4(s), ip, bits) <==>
              ParseRoute(text, s).Some? && ParseRoute(text, s).value.bits == bits && bits <= 32 && Matches(ParseRoute(text, s).value, ip)
  {
    hide Network4;
  }

  /** An owned route is read alike by both readers. */
  lemma {:induction false} OwnedMatch(mesh: Mesh, p: string, s: string, ip: bv32, bits: bv8)
    requires Sound(mesh.text) && Owner(mesh, mesh.participants, s) == Some(p)
    ensures CoversAt(ReadRoute(mesh.text, s), ip, bits) <==> CoversAt(mesh.text.parseV4(s), ip, bits)
  {
    hide Network4, V4Routes, Sound, IsExitNodeRoute, SelectedExitNode, CoversAt;
    OwnerIsFirst(mesh, mesh.participants, s);
    var c := V4RouteIsNetwork(mesh.text, mesh.announcements[p].advertisedRoutes, s);
  }

  lemma {:induction false} ServesIsMatch(mesh: Mesh, given: map<string, seq<string>>, p: string, ip: bv32, bits: bv8)
    requires Sound(mesh.text) && IsAssignment(mesh, given) && p in mesh.announcements
    ensures Serves(mesh, p, ip, bits) <==> HasMatch(PeerFor(mesh, given, p), ip, bits)
  {
    hide StripCidr, ParseRoute, PeerFor, Sound, Matches, CoversAt;
    var peer := PeerFor(mesh, given, p);
    if Serves(mesh, p, ip, bits) {
      var s := TunnelRoute(mesh, p);
      if OwnsCovering(mesh, p, ip, bits) {
        s :| Owner(mesh, mesh.participants, s) == Some(p) && CoversAt(ReadRoute(mesh.text, s), ip, bits);
        assert ListedFor(given, p, s);
        OwnedMatch(mesh, p, s, ip, bits);
      }
      TunnelMatch(mesh.text, s, ip, bits);
      AllowedIsParsed(mesh, given, p, s);
      var j :| 0 <= j < |peer.routes| && peer.routes[j] == ParseRoute(mesh.text, s).value;
    }
    if HasMatch(peer, ip, bits) {
      var j :| 0 <= j < |peer.routes| && peer.routes[j].bits == bits && bits <= 32 && Matches(peer.routes[j], ip);
      var s := RouteComesFrom(mesh, given, p, peer.routes[j]);
      TunnelMatch(mesh.text, s, ip, bits);
      if s != TunnelRoute(mesh, p) { OwnedMatch(mesh, p, s, ip, bits); }
    }
  }

  lemma {:induction false} LongestIsMatch(peer: Peer, ip: bv32)
    requires forall j :: 0 <= j < |peer.routes| ==> peer.routes[j].bits <= 32
    ensures Longest(peer, ip).Some? ==> HasMatch(peer, ip, Longest(peer, ip).value)
    ensures forall bits :: HasMatch(peer, ip, bits) ==> NoLonger(Some(bits), Longest(peer, ip))
  {
    hide LongestOf, NoLonger, Matches;
    LongestMeaning(peer.routes, ip);
  }

  lemma {:induction false} ServedByLongest(mesh: Mesh, given: map<string, seq<string>>, order: seq<string>, p: string, ip: bv32, bits: bv8)
    requires Sound(mesh.text) && IsAssignment(mesh, given)
    requires forall q :: q in order ==> q in mesh.announcements
    requires TunnelsApart(mesh, given, order)
    requires p in order && HasMatch(PeerFor(mesh, given, p), ip, bits)
    requires forall q, b :: q in order && q != p && HasMatch(PeerFor(mesh, given, q), ip, b) ==> b <= bits
    ensures Chosen(PeersFor(mesh, given, order), ip) == Some(PeerFor(mesh, given, p)) && PeerFor(mesh, given, p).key == p
  {
    hide StripCidr, Sound, IsAssignment, TunnelsApart, Chosen, LongestOf, Matches;
    var mine := PeerFor(mesh, given, p);
    hide PeerFor;
    LongestIsMatch(mine, ip);
    var longest := Longest(mine, ip).value;
    var j :| 0 <= j < |mine.routes| && mine.routes[j].bits == longest && longest <= 32 && Matches(mine.routes[j], ip);
    forall q | q in order ensures NoLonger(Longest(PeerFor(mesh, given, q), ip), Some(longest)) {
      LongestIsMatch(PeerFor(mesh, given, q), ip);
    }
    OwnerReceives(mesh, given, order, p, mine.routes[j], ip);
  }

  lemma {:induction false} ServedOrNot(mesh: Mesh, given: map<string, seq<string>>, order: seq<string>, ip: bv32)
    requires forall q :: q in order ==> q in mesh.announcements
    ensures var chosen := Chosen(PeersFor(mesh, given, order), ip);
            && (chosen.None? <==> forall q, b :: q in order ==> !HasMatch(PeerFor(mesh, given, q), ip, b))
            && (chosen.Some? ==>
                  var p := chosen.value.key;
                  && p in order
                  && exists bits :: HasMatch(PeerFor(mesh, given, p), ip, bits)
                       && forall q, b :: q in order && HasMatch(PeerFor(mesh, given, q), ip, b) ==> b <= bits)
  {
    hide LongestOf, HasMatch, AmongPeers, Matches;
    var peers := PeersFor(mesh, given, order);
    SelectionIsLongestPrefix(peers, ip);
    forall i | 0 <= i < |peers| ensures Longest(peers[i], ip).Some? <==> exists b :: HasMatch(peers[i], ip, b) {
      LongestIsMatch(peers[i], ip);
    }
    forall q | q in order ensures exists i :: 0 <= i < |peers| && peers[i] == PeerFor(mesh, given, q) {
      var i :| 0 <= i < |order| && order[i] == q;
      assert peers[i] == PeerFor(mesh, given, q);
    }
    hide PeerFor;
    if Chosen(peers, ip).None? {
      forall q, b | q in order ensures !HasMatch(PeerFor(mesh, given, q), ip, b) {
        var i :| 0 <= i < |peers| && peers[i] == PeerFor(mesh, given, q);
      }
    } else {
      var i := AmongPeers(peers, ip).value.index;
      assert order[i] in order && peers[i] == PeerFor(mesh, given, order[i]);
      LongestIsMatch(peers[i], ip);
      var bits := Longest(peers[i], ip).value;
      forall q, b | q in order && HasMatch(PeerFor(mesh, given, q), ip, b) ensures b <= bits {
        var j :| 0 <= j < |peers| && peers[j] == PeerFor(mesh, given, q);
        LongestIsMatch(peers[j], ip);
      }
    }
  }

  /** The participant serves the address, and no other listed one does with a longer route. */
  ghost predicate ServesBest(mesh: Mesh, order: seq<string>, p: string, ip: bv32)
    requires forall q :: q in order ==> q in mesh.announcements
  {
    p in order && exists bits :: Serves(mesh, p, ip, bits) && NoneLonger(mesh, order, p, ip, bits)
  }

  ghost predicate NoneLonger(mesh: Mesh, order: seq<string>, p: string, ip: bv32, bits: bv8)
    requires forall q :: q in order ==> q in mesh.announcements
  {
    forall q, b :: q in order && q != p && Serves(mesh, q, ip, b) ==> b <= bits
  }

  /** Peers built from an assignment: a destination goes to exactly the listed participant that owns a route
      covering it, or has it as tunnel address, while no other listed one has a longer one; and to nobody
      exactly if none has one at all. */
  lemma {:induction false} DestinationServed(mesh: Mesh, given: map<string, seq<string>>, order: seq<string>, ip: bv32)
    requires Sound(mesh.text) && IsAssignment(mesh, given)
    requires forall q :: q in order ==> q in mesh.announcements
    requires TunnelsApart(mesh, given, order)
    ensures var chosen := Chosen(PeersFor(mesh, given, order), ip);
            && (chosen.None? <==> forall q, b :: q in order ==> !Serves(mesh, q, ip, b))
            && forall p :: (chosen.Some? && chosen.value.key == p) <==> ServesBest(mesh, order, p, ip)
  {
    hide StripCidr, Sound, IsAssignment, TunnelsApart, Chosen, PeerFor, Serves, HasMatch;
    var chosen := Chosen(PeersFor(mesh, given, order), ip);
    forall q, b | q in order ensures Serves(mesh, q, ip, b) <==> HasMatch(PeerFor(mesh, given, q), ip, b) { ServesIsMatch(mesh, given, q, ip, b); }
    ServedOrNot(mesh, given, order, ip);
    forall p ensures (chosen.Some? && chosen.value.key == p) <==> ServesBest(mesh, order, p, ip) {
      if ServesBest(mesh, order, p, ip) {
        var bits :| Serves(mesh, p, ip, bits) && NoneLonger(mesh, order, p, ip, bits);
        ServedByLongest(mesh, given, order, p, ip, bits);
      }
    }
  }
}
