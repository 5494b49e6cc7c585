/** Which peer owns which advertised IPv4 route: first come, first served over the sorted
    participants, with the default route reserved for the chosen exit node. */
module RouteOwners {
  import opened Common
  import opened Order
  import opened Routes
  import opened Masks

  datatype Announcement = Announcement(tunnelIp: string, advertisedRoutes: seq<string>)

  datatype Mesh = Mesh(
    text: Text,
    own: Option<string>,
    exitNode: string,
    supportsExitNode: bool,
    participants: seq<string>,
    announcements: map<string, Announcement>)

  predicate IsV4(text: Text, route: string)
  {
    var c := text.parse(route);
    c.Some? && c.value.addr.V4?
  }

  function V4Forms(text: Text, routes: seq<string>): seq<string>
  {
    if routes == [] then []
    else
      var before, last := V4Forms(text, routes[..|routes| - 1]), NormalRoute(text, routes[|routes| - 1]);
      if last.None? || !IsV4(text, last.value) then before else before + [last.value]
  }

  function V4Routes(text: Text, routes: seq<string>): seq<string>
  {
    FirstOccurrences(V4Forms(text, routes))
  }

  /** `normalized_peer_ipv4_routes`. */
  method NormalizedPeerIpv4Routes(text: Text, routes: seq<string>) returns (normalized: seq<string>)
    ensures normalized == V4Routes(text, routes)
  {
    hide NormalRoute, IsV4;
    normalized := [];
    var seen: set<string> := {};
    for i := 0 to |routes|
      invariant normalized == V4Routes(text, routes[..i])
      invariant seen == Elems(normalized)
    {
      assert routes[..i + 1][..i] == routes[..i];
      var route := NormalRoute(text, routes[i]);
      if route.Some? && IsV4(text, route.value) {
        var forms := V4Forms(text, routes[..i + 1]);
        assert forms[..|forms| - 1] == V4Forms(text, routes[..i]);
        if route.value !in seen {
          ElemsConcat(normalized, [route.value]);
          seen := seen + {route.value};
          normalized := normalized + [route.value];
        }
      }
    }
    assert routes[..|routes|] == routes;
  }

  lemma {:induction false} V4FormsMeaning(text: Text, routes: seq<string>, n: string)
    ensures n in V4Forms(text, routes) <==>
              IsV4(text, n) && exists i :: 0 <= i < |routes| && NormalRoute(text, routes[i]) == Some(n)
  {
    hide NormalRoute, IsV4;
    if routes != [] {
      var last := |routes| - 1;
      var shorter := routes[..last];
      V4FormsMeaning(text, shorter, n);
      if n in V4Forms(text, shorter) {
        var i :| 0 <= i < last && NormalRoute(text, shorter[i]) == Some(n);
        assert routes[i] == shorter[i];
      }
      if i :| 0 <= i < |routes| && NormalRoute(text, routes[i]) == Some(n) {
        if i < last { assert shorter[i] == routes[i]; }
      }
    }
  }

  /** What a peer advertises on IPv4, each route in its normal form. */
  lemma {:induction false} V4RoutesMeaning(text: Text, routes: seq<string>, n: string)
    ensures n in V4Routes(text, routes) <==>
              IsV4(text, n) && exists i :: 0 <= i < |routes| && NormalRoute(text, routes[i]) == Some(n)
  {
    hide NormalRoute, IsV4;
    V4FormsMeaning(text, routes, n);
    FirstOccurrencesMeaning(V4Forms(text, routes));
    assert n in V4Forms(text, routes) <==> n in Elems(V4Forms(text, routes));
    assert n in V4Routes(text, routes) <==> n in Elems(V4Routes(text, routes));
  }

  /** A route of a peer is a network, and the text is determined by it. */
  lemma {:induction false} V4RouteIsNetwork(text: Text, routes: seq<string>, n: string) returns (c: Cidr)
    requires Sound(text) && n in V4Routes(text, routes)
    ensures c.addr.V4? && Fits(c) && Masked(c) == c && n == text.show(c)
    ensures text.parseV4(n) == Some(c) && ReadRoute(text, n) == Some(c)
  {
    V4RoutesMeaning(text, routes, n);
    var i :| 0 <= i < |routes| && NormalRoute(text, routes[i]) == Some(n);
    c := Masked(ReadRoute(text, routes[i]).value);
    assert text.parse(text.show(c)) == Some(c);
    MaskingIsCanonical(ReadRoute(text, routes[i]).value);
  }

  /** `selected_exit_node_participant`. */
  function SelectedExitNode(mesh: Mesh): Option<string>
  {
    if !mesh.supportsExitNode || mesh.exitNode == "" || Some(mesh.exitNode) == mesh.own || mesh.exitNode !in mesh.announcements
    then None
    else if DEFAULT_V4 in V4Routes(mesh.text, mesh.announcements[mesh.exitNode].advertisedRoutes) then Some(mesh.exitNode)
    else None
  }

  predicate Claims(mesh: Mesh, p: string, route: string)
  {
    && Some(p) != mesh.own && p in mesh.announcements
    && route in V4Routes(mesh.text, mesh.announcements[p].advertisedRoutes)
    && (IsExitNodeRoute(route) ==> SelectedExitNode(mesh) == Some(p))
  }

  /** The first of the listed participants that claims the route. */
  function Owner(mesh: Mesh, list: seq<string>, route: string): Option<string>
  {
    if list == [] then None
    else
      var before, last := Owner(mesh, list[..|list| - 1], route), list[|list| - 1];
      if before.None? && Claims(mesh, last, route) then Some(last) else before
  }

  lemma {:induction false} OwnerIsFirst(mesh: Mesh, list: seq<string>, route: string)
    ensures Owner(mesh, list, route).None? <==> forall i :: 0 <= i < |list| ==> !Claims(mesh, list[i], route)
    ensures Owner(mesh, list, route).Some? ==>
              exists i :: 0 <= i < |list| && list[i] == Owner(mesh, list, route).value && Claims(mesh, list[i], route)
                && forall j :: 0 <= j < i ==> !Claims(mesh, list[j], route)
  {
    hide Claims;
    if list != [] {
      var last := |list| - 1;
      OwnerIsFirst(mesh, list[..last], route);
      if Owner(mesh, list[..last], route).Some? {
        var i :| 0 <= i < last && list[..last][i] == Owner(mesh, list[..last], route).value && Claims(mesh, list[..last][i], route)
                 && forall j :: 0 <= j < i ==> !Claims(mesh, list[..last][j], route);
        assert list[i] == list[..last][i];
        forall j | 0 <= j < i ensures !Claims(mesh, list[j], route) { assert list[..last][j] == list[j]; }
      } else {
        forall j | 0 <= j < last ensures !Claims(mesh, list[j], route) { assert list[..last][j] == list[j]; }
      }
    }
  }

  /** Over sorted participants the owner is the least claimant: the order in which announcements
      arrived, and the maps they are kept in, play no part. */
  lemma {:induction false} OwnerIsLeastClaimant(mesh: Mesh, route: string, p: string)
    requires Sorted(mesh.participants)
    ensures Owner(mesh, mesh.participants, route) == Some(p) <==>
              && p in mesh.participants && Claims(mesh, p, route)
              && forall q :: q in mesh.participants && Claims(mesh, q, route) ==> q == p || Less(p, q)
  {
    hide Claims, Less;
    var list := mesh.participants;
    OwnerIsFirst(mesh, list, route);
    if Owner(mesh, list, route).Some? {
      var first := Owner(mesh, list, route).value;
      var i :| 0 <= i < |list| && list[i] == first && Claims(mesh, list[i], route)
               && forall j :: 0 <= j < i ==> !Claims(mesh, list[j], route);
      forall q | q in list && Claims(mesh, q, route) ensures q == first || Less(first, q) {
        var j :| 0 <= j < |list| && list[j] == q;
        assert i <= j;
      }
      if p in list && Claims(mesh, p, route) && first != p && Less(p, first) {
        LessTransitive(p, first, p);
        LessIrreflexive(p);
      }
    }
  }

  /** A default route is only ever owned by the chosen exit node, and an exit node that is a
      participant and announces the IPv4 default route does own it. */
  lemma {:induction false} ExitNodeOwnsDefaultRoute(mesh: Mesh, p: string)
    ensures forall route :: IsExitNodeRoute(route) && Owner(mesh, mesh.participants, route) == Some(p) ==>
              SelectedExitNode(mesh) == Some(p)
    ensures SelectedExitNode(mesh) == Some(p) && p in mesh.participants ==> Owner(mesh, mesh.participants, DEFAULT_V4) == Some(p)
  {
    hide V4Routes;
    forall route | IsExitNodeRoute(route) && Owner(mesh, mesh.participants, route) == Some(p)
      ensures SelectedExitNode(mesh) == Some(p)
    {
      OwnerIsFirst(mesh, mesh.participants, route);
    }
    if SelectedExitNode(mesh) == Some(p) && p in mesh.participants {
      assert Claims(mesh, p, DEFAULT_V4);
      OwnerIsFirst(mesh, mesh.participants, DEFAULT_V4);
    }
  }

  // ---- Ownership in terms of addresses ----

  /** The participant advertises some route that covers just the addresses of this network. */
  ghost predicate Advertises(mesh: Mesh, p: string, c: Cidr)
    requires Fits(c)
  {
    && p in mesh.announcements
    && exists s :: s in mesh.announcements[p].advertisedRoutes && CoversSame(ReadRoute(mesh.text, s), c)
  }

  ghost predicate CoversSame(d: Option<Cidr>, c: Cidr)
    requires Fits(c)
  {
    d.Some? && Fits(d.value) && forall ip :: Covers(d.value, ip) <==> Covers(c, ip)
  }

  /** The participant is the configured exit node, this platform can use one, and it advertises all of IPv4. */
  ghost predicate IsChosenExit(mesh: Mesh, p: string)
  {
    mesh.supportsExitNode && p == mesh.exitNode && p != "" && Some(p) != mesh.own && Advertises(mesh, p, Cidr(V4(0), 0))
  }

  ghost predicate MayOwn(mesh: Mesh, p: string, c: Cidr)
    requires Fits(c)
  {
    Some(p) != mesh.own && Advertises(mesh, p, c) && (c.bits == 0 ==> IsChosenExit(mesh, p))
  }

  lemma {:induction false} AdvertisesExactly(mesh: Mesh, p: string, c: Cidr)
    requires Sound(mesh.text) && Fits(c) && c.addr.V4? && p in mesh.announcements
    ensures mesh.text.show(Masked(c)) in V4Routes(mesh.text, mesh.announcements[p].advertisedRoutes) <==> Advertises(mesh, p, c)
  {
    hide V4Routes, Covers, Masked;
    var routes, n := mesh.announcements[p].advertisedRoutes, mesh.text.show(Masked(c));
    V4RoutesMeaning(mesh.text, routes, n);
    MaskedFamily(c);
    assert mesh.text.parse(n) == Some(Masked(c));
    forall s ensures NormalRoute(mesh.text, s) == Some(n) <==> CoversSame(ReadRoute(mesh.text, s), c) {
      var d := ReadRoute(mesh.text, s);
      if d.Some? {
        SameCoverIsSameNetwork(d.value, c);
        assert mesh.text.parse(mesh.text.show(Masked(d.value))) == Some(Masked(d.value));
      }
    }
  }

  lemma {:induction false} DefaultIsEmptyMask(text: Text, c: Cidr)
    requires Sound(text) && Fits(c) && c.addr.V4?
    ensures IsExitNodeRoute(text.show(Masked(c))) <==> c.bits == 0
    ensures c.bits == 0 ==> text.show(Masked(c)) == DEFAULT_V4
  {
    assert text.parse(text.show(Masked(c))) == Some(Masked(c));
    assert text.parse(text.show(Cidr(V4(0), 0))) == Some(Cidr(V4(0), 0)) && text.parse(text.show(Cidr(V6(0), 0))) == Some(Cidr(V6(0), 0));
    assert c.bits == 0 ==> Network4(c.addr.v4, c.bits) == 0;
    hide Network4;
  }

  lemma {:induction false} ExitIsChosen(mesh: Mesh, p: string)
    requires Sound(mesh.text)
    ensures SelectedExitNode(mesh) == Some(p) <==> IsChosenExit(mesh, p)
  {
    hide V4Routes, Masked, Covers;
    var c := Cidr(V4(0), 0);
    DefaultIsEmptyMask(mesh.text, c);
    if mesh.exitNode in mesh.announcements { AdvertisesExactly(mesh, mesh.exitNode, c); }
  }

  /** Over sorted participants an IPv4 network belongs to the least of the others that advertise some route
      covering just its addresses, and all of IPv4 to nobody but the chosen exit node. */
  lemma {:induction false} NetworkBelongsTo(mesh: Mesh, c: Cidr, p: string)
    requires Sound(mesh.text) && Sorted(mesh.participants) && Fits(c) && c.addr.V4?
    ensures Owner(mesh, mesh.participants, mesh.text.show(Masked(c))) == Some(p) <==>
              && p in mesh.participants && MayOwn(mesh, p, c)
              && forall q :: q in mesh.participants && MayOwn(mesh, q, c) ==> q == p || Less(p, q)
  {
    var n := mesh.text.show(Masked(c));
    forall q ensures Claims(mesh, q, n) <==> MayOwn(mesh, q, c) {
      hide V4Routes, Masked, Covers, Advertises, IsChosenExit, SelectedExitNode;
      DefaultIsEmptyMask(mesh.text, c);
      ExitIsChosen(mesh, q);
      if q in mesh.announcements { AdvertisesExactly(mesh, q, c); } else { NobodyAdvertises(mesh, q, c); }
    }
    hide Claims, MayOwn, Less, Owner, Masked;
    OwnerIsLeastClaimant(mesh, n, p);
  }

  lemma NobodyAdvertises(mesh: Mesh, p: string, c: Cidr)
    requires Fits(c) && p !in mesh.announcements
    ensures !Advertises(mesh, p, c)
  {
  }

  // ---- The loops ----

  predicate ListedFor(groups: map<string, seq<string>>, p: string, route: string)
  {
    p in groups && route in groups[p]
  }

  /** The assignment lists, per participant, exactly the routes it owns, in ascending order. */
  ghost predicate IsAssignment(mesh: Mesh, assignments: map<string, seq<string>>)
  {
    && (forall p, r :: ListedFor(assignments, p, r) <==> Owner(mesh, mesh.participants, r) == Some(p))
    && (forall p :: p in assignments ==> assignments[p] != [] && Sorted(assignments[p]))
  }

  /** One participant takes the routes it claims that nobody before it took. */
  method TakeRoutes(mesh: Mesh, p: string, routes: seq<string>, taken: map<string, string>) returns (owner: map<string, string>)
    ensures forall r :: Lookup(owner, r) ==
              if r in taken then Some(taken[r])
              else if r in routes && (IsExitNodeRoute(r) ==> SelectedExitNode(mesh) == Some(p)) then Some(p)
              else None
  {
    hide IsExitNodeRoute, SelectedExitNode;
    owner := taken;
    for i := 0 to |routes|
      invariant forall r :: Lookup(owner, r) ==
                  if r in taken then Some(taken[r])
                  else if r in routes[..i] && (IsExitNodeRoute(r) ==> SelectedExitNode(mesh) == Some(p)) then Some(p)
                  else None
    {
      var route := routes[i];
      assert routes[..i + 1] == routes[..i] + [route];
      assert Lookup(owner, route).Some? <==> route in owner;
      if !(IsExitNodeRoute(route) && SelectedExitNode(mesh) != Some(p)) && route !in owner {
        owner := owner[route := p];
      }
    }
    assert routes[..|routes|] == routes;
  }

  method RouteOwner(mesh: Mesh) returns (owner: map<string, string>)
    ensures forall r :: Lookup(owner, r) == Owner(mesh, mesh.participants, r)
  {
    hide V4Routes, IsExitNodeRoute, SelectedExitNode;
    owner := map[];
    var participants := mesh.participants;
    for i := 0 to |participants|
      invariant forall r :: Lookup(owner, r) == Owner(mesh, participants[..i], r)
    {
      var p := participants[i];
      assert participants[..i + 1][..i] == participants[..i];
      if Some(p) != mesh.own && p in mesh.announcements {
        var routes := NormalizedPeerIpv4Routes(mesh.text, mesh.announcements[p].advertisedRoutes);
        owner := TakeRoutes(mesh, p, routes, owner);
      }
    }
    assert participants[..|participants|] == participants;
  }

  /** Turns the owner of each route, in whatever order the map yields them, into lists per owner. */
  method GroupByOwner(owner: map<string, string>) returns (groups: map<string, seq<string>>)
    ensures forall p, r :: ListedFor(groups, p, r) <==> Lookup(owner, r) == Some(p)
    ensures forall p :: p in groups ==> groups[p] != []
  {
    groups := map[];
    var todo := owner.Keys;
    while todo != {}
      invariant todo <= owner.Keys
      invariant Grouped(groups, owner, todo)
      invariant forall p :: p in groups ==> groups[p] != []
      decreases |todo|
    {
      hide ListedFor, Grouped;
      var route :| route in todo;
      var p := owner[route];
      AddToGroups(groups, owner, todo, route);
      groups := groups[p := GroupOf(groups, p) + [route]];
      todo := todo - {route};
    }
  }

  /** Each route that is not still to do is listed for its owner. */
  ghost predicate Grouped(groups: map<string, seq<string>>, owner: map<string, string>, todo: set<string>)
  {
    forall p, r :: ListedFor(groups, p, r) <==> r !in todo && Lookup(owner, r) == Some(p)
  }

  lemma {:induction false} AddToGroups(groups: map<string, seq<string>>, owner: map<string, string>, todo: set<string>, route: string)
    requires Grouped(groups, owner, todo) && route in todo && route in owner
    ensures Grouped(groups[owner[route] := GroupOf(groups, owner[route]) + [route]], owner, todo - {route})
  {
    hide ListedFor, GroupOf;
    var p := owner[route];
    var longer := groups[p := GroupOf(groups, p) + [route]];
    forall q, r ensures ListedFor(longer, q, r) <==> r !in todo - {route} && Lookup(owner, r) == Some(q) {
      AddToGroup(groups, p, route, q, r);
      assert ListedFor(groups, q, r) <==> r !in todo && Lookup(owner, r) == Some(q);
    }
  }

  function GroupOf(groups: map<string, seq<string>>, p: string): seq<string>
  {
    if p in groups then groups[p] else []
  }

  lemma AddToGroup(groups: map<string, seq<string>>, p: string, route: string, q: string, r: string)
    ensures ListedFor(groups[p := GroupOf(groups, p) + [route]], q, r) <==> ListedFor(groups, q, r) || (q == p && r == route)
  {
    if q == p {
      assert r in GroupOf(groups, p) + [route] <==> r in GroupOf(groups, p) || r == route;
    }
  }

  /** `advertised_route_assignments`. */
  method AdvertisedRouteAssignments(mesh: Mesh) returns (assignments: map<string, seq<string>>)
    ensures IsAssignment(mesh, assignments)
  {
    var owner := RouteOwner(mesh);
    var groups := GroupByOwner(owner);
    assignments := map p | p in groups :: SortDedup(groups[p]);
    forall p | p in groups ensures assignments[p] != [] && Sorted(assignments[p]) && Elems(assignments[p]) == Elems(groups[p]) {
      SortDedupSorted(groups[p]);
      ElemsEmpty(groups[p]);
      ElemsEmpty(SortDedup(groups[p]));
    }
    forall p, r ensures ListedFor(assignments, p, r) <==> ListedFor(groups, p, r) {
      if p in groups { assert r in Elems(assignments[p]) <==> r in Elems(groups[p]); }
    }
    assert forall r :: Lookup(owner, r) == Owner(mesh, mesh.participants, r);
  }
}
