/** Replication of admin-signed rosters: whatever the order and repetition of delivery, a
    network ends with the newest roster, as long as that roster's signer is recognised. */
module RosterConvergence {
  import opened Common
  import opened Order
  import opened Config
  import opened ConfigSafety

  datatype Delivery = Delivery(roster: Roster, now: nat)

  function Deliver(env: Env, nets: seq<Network>, deliveries: seq<Delivery>): seq<Network>
  {
    if deliveries == [] then nets
    else
      var last := |deliveries| - 1;
      After(env, Deliver(env, nets, deliveries[..last]), ApplyRoster(deliveries[last].roster), deliveries[last].now)
  }

  predicate For(r: Roster, mesh: string)
  {
    RuntimeId(r.meshId) == mesh
  }

  function Signer(env: Env, r: Roster): string
  {
    if env.parse(r.signedBy).Some? then env.parse(r.signedBy).value else ""
  }

  /** The newest roster `best` can be installed: its signer and participants parse and it names an admin. */
  ghost predicate Installable(env: Env, best: Roster)
  {
    && env.parse(best.signedBy).Some?
    && AllParse(env.parse, best.participants)
    && Parsed(env.parse, best.admins) != []
  }

  /** Another roster of the mesh: older than `best`, and listing the signer of `best` as an admin. */
  ghost predicate Yields(env: Env, r: Roster, best: Roster)
  {
    r.signedAt < best.signedAt && Signer(env, best) in Parsed(env.parse, r.admins)
  }

  ghost predicate Deliverable(env: Env, deliveries: seq<Delivery>, best: Roster, mesh: string)
  {
    forall i :: 0 <= i < |deliveries| && For(deliveries[i].roster, mesh) ==>
      deliveries[i].roster == best || Yields(env, deliveries[i].roster, best)
  }

  ghost predicate Arrives(deliveries: seq<Delivery>, best: Roster)
  {
    exists i :: 0 <= i < |deliveries| && deliveries[i].roster == best && !TooFarAhead(best.signedAt, deliveries[i].now)
  }

  /** The network carries exactly what `best` says. */
  ghost predicate Carries(env: Env, net: Network, best: Roster)
  {
    && net.participants == SharedParticipants(env, best.participants)
    && net.admins == SortDedup(Parsed(env.parse, best.admins))
    && net.rosterAt == best.signedAt
    && net.rosterBy == Signer(env, best)
  }

  ghost predicate AwaitsOrCarries(env: Env, net: Network, best: Roster, arrived: bool)
  {
    if arrived then Carries(env, net, best)
    else net.rosterAt < best.signedAt && Signer(env, best) in net.admins
  }

  lemma AdminsFromParsed(env: Env, r: Roster, inviter: string)
    requires Parsed(env.parse, r.admins) != []
    ensures NormalizedAdmins(env, r.admins, inviter) == SortDedup(Parsed(env.parse, r.admins)) != []
    ensures forall k :: k in NormalizedAdmins(env, r.admins, inviter) <==> k in Parsed(env.parse, r.admins)
  {
    var keys := Parsed(env.parse, r.admins);
    ElemsEmpty(keys);
    ElemsEmpty(SortDedup(keys));
    InElems(keys);
    InElems(SortDedup(keys));
  }

  /** A network waiting for `best` takes it, and takes or refuses an older roster without losing its signer. */
  lemma OfferStep(env: Env, net: Network, r: Roster, best: Roster, arrived: bool)
    requires Installable(env, best) && (r == best || Yields(env, r, best))
    requires AwaitsOrCarries(env, net, best, arrived) && env.parse(r.signedBy).Some?
    ensures var offered := Offer(env, net, r, env.parse(r.signedBy).value);
            if offered.Accepted? then
              && AwaitsOrCarries(env, offered.net, best, arrived || r == best)
              && offered.net.meshId == net.meshId
            else AwaitsOrCarries(env, net, best, arrived || r == best)
  {
    if Parsed(env.parse, r.admins) != [] { AdminsFromParsed(env, r, net.inviter); }
  }

  lemma {:induction false} DeliverStep(env: Env, nets: seq<Network>, d: Delivery, best: Roster, mesh: string, k: nat, arrived: bool)
    requires Installable(env, best) && For(best, mesh) && mesh != ""
    requires k < |nets| && IndexByMesh(nets, mesh) == k
    requires For(d.roster, mesh) ==> d.roster == best || Yields(env, d.roster, best)
    requires AwaitsOrCarries(env, nets[k], best, arrived)
    ensures var nets' := After(env, nets, ApplyRoster(d.roster), d.now);
            && |nets'| == |nets| && IndexByMesh(nets', mesh) == k
            && AwaitsOrCarries(env, nets'[k], best, arrived || (d.roster == best && !TooFarAhead(best.signedAt, d.now)))
  {
    var nets' := After(env, nets, ApplyRoster(d.roster), d.now);
    if For(d.roster, mesh) && env.parse(d.roster.signedBy).Some? && !TooFarAhead(d.roster.signedAt, d.now) {
      OfferStep(env, nets[k], d.roster, best, arrived);
    }
    SameMeshIndex(env, nets, d, mesh);
  }

  /** Applying a roster never changes which network a mesh id selects, nor any network but that of the roster. */
  lemma {:induction false} SameMeshIndex(env: Env, nets: seq<Network>, d: Delivery, mesh: string)
    ensures var nets' := After(env, nets, ApplyRoster(d.roster), d.now);
            && |nets'| == |nets| && IndexByMesh(nets', mesh) == IndexByMesh(nets, mesh)
            && forall i :: 0 <= i < |nets| && i != IndexByMesh(nets, RuntimeId(d.roster.meshId)) ==> nets'[i] == nets[i]
  {
    var nets' := After(env, nets, ApplyRoster(d.roster), d.now);
    forall i | 0 <= i < |nets| ensures nets'[i].meshId == nets[i].meshId {}
    MeshIndexReads(nets, nets', mesh);
  }

  lemma {:induction false} MeshIndexReads(a: seq<Network>, b: seq<Network>, mesh: string)
    requires |a| == |b| && forall i :: 0 <= i < |a| ==> a[i].meshId == b[i].meshId
    ensures IndexByMesh(a, mesh) == IndexByMesh(b, mesh)
  {
    if a != [] { MeshIndexReads(a[1..], b[1..], mesh); }
  }

  /** The mesh has a network that is behind `best` and recognises its signer. */
  ghost predicate Ready(env: Env, nets: seq<Network>, best: Roster, mesh: string)
  {
    && mesh != "" && For(best, mesh)
    && IndexByMesh(nets, mesh) < |nets|
    && AwaitsOrCarries(env, nets[IndexByMesh(nets, mesh)], best, false)
  }

  lemma ArrivesSnoc(deliveries: seq<Delivery>, best: Roster)
    requires deliveries != []
    ensures var last := |deliveries| - 1;
            Arrives(deliveries, best) <==>
            Arrives(deliveries[..last], best) || (deliveries[last].roster == best && !TooFarAhead(best.signedAt, deliveries[last].now))
  {
    var last := |deliveries| - 1;
    var before := deliveries[..last];
    if Arrives(before, best) {
      var i :| 0 <= i < |before| && before[i].roster == best && !TooFarAhead(best.signedAt, before[i].now);
      assert deliveries[i] == before[i];
    }
    if Arrives(deliveries, best) {
      var i :| 0 <= i < |deliveries| && deliveries[i].roster == best && !TooFarAhead(best.signedAt, deliveries[i].now);
      assert i < last ==> before[i] == deliveries[i];
    }
  }

  lemma {:induction false} DeliverAll(env: Env, nets: seq<Network>, deliveries: seq<Delivery>, best: Roster, mesh: string)
    requires Installable(env, best) && Ready(env, nets, best, mesh)
    requires Deliverable(env, deliveries, best, mesh)
    ensures var k, nets' := IndexByMesh(nets, mesh), Deliver(env, nets, deliveries);
            && |nets'| == |nets| && IndexByMesh(nets', mesh) == k
            && AwaitsOrCarries(env, nets'[k], best, Arrives(deliveries, best))
  {
    if deliveries != [] {
      var last := |deliveries| - 1;
      var before := deliveries[..last];
      DeliverAll(env, nets, before, best, mesh);
      ArrivesSnoc(deliveries, best);
      DeliverStep(env, Deliver(env, nets, before), deliveries[last], best, mesh, IndexByMesh(nets, mesh), Arrives(before, best));
    }
  }

  /** Deliver rosters in any order, with any repetitions, and mixed with rosters of other meshes.
      If the newest one arrives at a time that accepts it, and its signer is an admin to begin
      with and in every other roster of the mesh, then the network ends up with its participants
      (less this node), admins, timestamp and signer; refused or broken older rosters do no harm. */
  lemma {:induction false} NewestRosterWins(env: Env, nets: seq<Network>, deliveries: seq<Delivery>, best: Roster, mesh: string)
    requires Installable(env, best) && Ready(env, nets, best, mesh)
    requires Deliverable(env, deliveries, best, mesh) && Arrives(deliveries, best)
    ensures var k, nets' := IndexByMesh(nets, mesh), Deliver(env, nets, deliveries);
            IndexByMesh(nets', mesh) == k < |nets'| && Carries(env, nets'[k], best)
  {
    DeliverAll(env, nets, deliveries, best, mesh);
  }

  function Own(env: Env): set<string>
  {
    if env.own.Some? then {env.own.value} else {}
  }

  function LessOwn(env: Env, keys: seq<string>): seq<string>
  {
    if env.own.Some? then Without(keys, env.own.value) else keys
  }

  lemma CarriedParticipants(env: Env, net: Network, best: Roster)
    requires Carries(env, net, best)
    ensures Elems(net.participants) == Elems(Parsed(env.parse, best.participants)) - Own(env)
    ensures net.participants == LessOwn(env, SortDedup(Parsed(env.parse, best.participants))) && Sorted(net.participants)
  {
    var keys := SortDedup(Parsed(env.parse, best.participants));
    SortDedupSorted(Parsed(env.parse, best.participants));
    if env.own.Some? { WithoutSorted(keys, env.own.value); }
  }

  /** Two nodes with the same key parser but different keys, configurations and delivery orders:
      they agree on admins, timestamp and signer, and each lists as participants the keys of the
      newest roster in the same sorted order, without its own. */
  lemma {:induction false} NodesConverge(one: Env, two: Env, nets1: seq<Network>, nets2: seq<Network>,
                      deliveries1: seq<Delivery>, deliveries2: seq<Delivery>, best: Roster, mesh: string)
    requires one.parse == two.parse && Installable(one, best)
    requires Ready(one, nets1, best, mesh) && Deliverable(one, deliveries1, best, mesh) && Arrives(deliveries1, best)
    requires Ready(two, nets2, best, mesh) && Deliverable(two, deliveries2, best, mesh) && Arrives(deliveries2, best)
    ensures var end1, end2 := Deliver(one, nets1, deliveries1), Deliver(two, nets2, deliveries2);
            && IndexByMesh(end1, mesh) < |end1| && IndexByMesh(end2, mesh) < |end2|
            && var a, b := end1[IndexByMesh(end1, mesh)], end2[IndexByMesh(end2, mesh)];
               && a.admins == b.admins && a.rosterAt == b.rosterAt && a.rosterBy == b.rosterBy
               && var keys := SortDedup(Parsed(one.parse, best.participants));
                  && Sorted(a.participants) && a.participants == LessOwn(one, keys)
                  && Sorted(b.participants) && b.participants == LessOwn(two, keys)
                  && Elems(a.participants) == Elems(Parsed(one.parse, best.participants)) - Own(one)
                  && Elems(b.participants) == Elems(Parsed(one.parse, best.participants)) - Own(two)
  {
    NewestRosterWins(one, nets1, deliveries1, best, mesh);
    NewestRosterWins(two, nets2, deliveries2, best, mesh);
    CarriedParticipants(one, Deliver(one, nets1, deliveries1)[IndexByMesh(nets1, mesh)], best);
    CarriedParticipants(two, Deliver(two, nets2, deliveries2)[IndexByMesh(nets2, mesh)], best);
  }

  /** Recognition is needed: of two acceptable rosters, the newer one survives being delivered
      second exactly when the older one names its signer as an admin. */
  lemma {:induction false} RecognitionIsNeeded(env: Env, net: Network, older: Roster, best: Roster)
    requires Installable(env, older) && Installable(env, best)
    requires Signer(env, older) in net.admins && Signer(env, best) in net.admins
    requires net.rosterAt < older.signedAt < best.signedAt
    ensures var after := Offer(env, net, older, Signer(env, older));
            && after.Accepted?
            && (Offer(env, after.net, best, Signer(env, best)).Accepted? <==> Signer(env, best) in Parsed(env.parse, older.admins))
  {
    AdminsFromParsed(env, older, net.inviter);
    AdminsFromParsed(env, best, net.inviter);
    var after := Offer(env, net, older, Signer(env, older));
    AdminsFromParsed(env, best, after.net.inviter);
  }

  // ---- When a set of rosters converges ----

  /** Rosters of one mesh that its network would take if each came first: installable, signed by
      present admins, newer than what is there; `best` is newer than all the others. */
  ghost predicate Rivals(env: Env, nets: seq<Network>, rosters: set<Roster>, best: Roster, mesh: string)
  {
    && mesh != "" && IndexByMesh(nets, mesh) < |nets| && best in rosters
    && forall r :: r in rosters ==>
         && For(r, mesh) && Installable(env, r)
         && Signer(env, r) in nets[IndexByMesh(nets, mesh)].admins
         && nets[IndexByMesh(nets, mesh)].rosterAt < r.signedAt <= U64_MAX
         && (r != best ==> r.signedAt < best.signedAt)
  }

  /** The deliveries bring exactly these rosters, in some order, possibly repeated, at times that
      do not find them too far ahead. */
  ghost predicate Brings(deliveries: seq<Delivery>, rosters: set<Roster>)
  {
    && (forall i :: 0 <= i < |deliveries| ==>
          deliveries[i].roster in rosters && !TooFarAhead(deliveries[i].roster.signedAt, deliveries[i].now))
    && forall r :: r in rosters ==> Brought(deliveries, r)
  }

  ghost predicate Brought(deliveries: seq<Delivery>, r: Roster)
  {
    exists i :: 0 <= i < |deliveries| && deliveries[i].roster == r
  }

  lemma BroughtConcat(a: seq<Delivery>, b: seq<Delivery>, r: Roster)
    ensures Brought(a + b, r) <==> Brought(a, r) || Brought(b, r)
  {
    if Brought(a, r) {
      var i :| 0 <= i < |a| && a[i].roster == r;
      assert (a + b)[i].roster == r;
    }
    if Brought(b, r) {
      var i :| 0 <= i < |b| && b[i].roster == r;
      assert (a + b)[|a| + i].roster == r;
    }
  }

  /** Whatever order the rosters come in, the network ends up carrying `best`. */
  ghost predicate Converges(env: Env, nets: seq<Network>, rosters: set<Roster>, best: Roster, mesh: string)
    requires IndexByMesh(nets, mesh) < |nets|
  {
    forall deliveries: seq<Delivery> :: Brings(deliveries, rosters) ==>
      var nets' := Deliver(env, nets, deliveries);
      IndexByMesh(nets', mesh) == IndexByMesh(nets, mesh) && IndexByMesh(nets', mesh) < |nets'|
      && Carries(env, nets'[IndexByMesh(nets', mesh)], best)
  }

  lemma {:induction false} RecognisedRostersConverge(env: Env, nets: seq<Network>, rosters: set<Roster>, best: Roster, mesh: string)
    requires Rivals(env, nets, rosters, best, mesh)
    requires forall r :: r in rosters && r != best ==> Signer(env, best) in Parsed(env.parse, r.admins)
    ensures Converges(env, nets, rosters, best, mesh)
  {
    hide Installable, Carries, TooFarAhead, Signer;
    forall deliveries: seq<Delivery> | Brings(deliveries, rosters)
      ensures var nets' := Deliver(env, nets, deliveries);
              && IndexByMesh(nets', mesh) == IndexByMesh(nets, mesh) && IndexByMesh(nets', mesh) < |nets'|
              && Carries(env, nets'[IndexByMesh(nets', mesh)], best)
    {
      assert Brought(deliveries, best);
      assert Arrives(deliveries, best);
      assert Deliverable(env, deliveries, best, mesh);
      NewestRosterWins(env, nets, deliveries, best, mesh);
    }
  }

  /** Applying a roster leaves each network's timestamp alone or makes it the roster's. */
  lemma {:induction false} AppliedTimestamp(env: Env, nets: seq<Network>, d: Delivery, i: nat)
    requires i < |nets|
    ensures var nets' := After(env, nets, ApplyRoster(d.roster), d.now);
            |nets'| == |nets| && (nets'[i].rosterAt == nets[i].rosterAt || nets'[i].rosterAt == d.roster.signedAt)
  {
    hide TooFarAhead, AllParse, NormalizedAdmins, SharedParticipants, RuntimeId;
  }

  /** Delivering rosters other than `best` leaves the network behind it, once it is. */
  lemma {:induction false} OthersStayBehind(env: Env, nets: seq<Network>, deliveries: seq<Delivery>, best: Roster, mesh: string)
    requires mesh != "" && IndexByMesh(nets, mesh) < |nets|
    requires nets[IndexByMesh(nets, mesh)].rosterAt < best.signedAt
    requires forall i :: 0 <= i < |deliveries| ==> deliveries[i].roster.signedAt < best.signedAt
    ensures var k, nets' := IndexByMesh(nets, mesh), Deliver(env, nets, deliveries);
            |nets'| == |nets| && IndexByMesh(nets', mesh) == k && nets'[k].rosterAt < best.signedAt
  {
    if deliveries != [] {
      var last := |deliveries| - 1;
      hide After;
      OthersStayBehind(env, nets, deliveries[..last], best, mesh);
      AppliedTimestamp(env, Deliver(env, nets, deliveries[..last]), deliveries[last], IndexByMesh(nets, mesh));
      SameMeshIndex(env, Deliver(env, nets, deliveries[..last]), deliveries[last], mesh);
    }
  }

  lemma {:induction false} DeliverConcat(env: Env, nets: seq<Network>, a: seq<Delivery>, b: seq<Delivery>)
    ensures Deliver(env, nets, a + b) == Deliver(env, Deliver(env, nets, a), b)
  {
    if b == [] {
      assert a + b == a;
    } else {
      hide After;
      var last := |b| - 1;
      assert (a + b)[..|a + b| - 1] == a + b[..last];
      DeliverConcat(env, nets, a, b[..last]);
    }
  }

  lemma {:induction false} DeliveriesOf(rosters: set<Roster>) returns (deliveries: seq<Delivery>)
    requires forall r :: r in rosters ==> r.signedAt <= U64_MAX
    ensures Brings(deliveries, rosters)
    decreases rosters
  {
    if rosters == {} {
      deliveries := [];
    } else {
      var r :| r in rosters;
      var rest := DeliveriesOf(rosters - {r});
      deliveries := rest + [Delivery(r, r.signedAt)];
      assert [Delivery(r, r.signedAt)][0].roster == r;
      forall x | x in rosters ensures Brought(deliveries, x) {
        BroughtConcat(rest, [Delivery(r, r.signedAt)], x);
        assert x == r || x in rosters - {r};
      }
    }
  }

  lemma AcceptedAt(env: Env, net: Network, r: Roster, signer: string)
    requires Offer(env, net, r, signer).Accepted?
    ensures Offer(env, net, r, signer).net.rosterAt == r.signedAt
  {
  }

  /** A roster that arrives when it was signed goes to its network. */
  lemma {:induction false} OfferedAt(env: Env, nets: seq<Network>, r: Roster, mesh: string)
    requires mesh != "" && IndexByMesh(nets, mesh) < |nets| && For(r, mesh)
    requires env.parse(r.signedBy).Some? && r.signedAt <= U64_MAX
    ensures var k := IndexByMesh(nets, mesh);
            var offered := Offer(env, nets[k], r, Signer(env, r));
            After(env, nets, ApplyRoster(r), r.signedAt) == if offered.Accepted? then nets[k := offered.net] else nets
  {
    hide Offer, RuntimeId;
  }

  /** First an older roster that drops the signer of the newest, then the newest: it is refused. */
  lemma {:induction false} UnrecognisedIsRefused(env: Env, nets: seq<Network>, older: Roster, best: Roster, mesh: string)
    requires mesh != "" && IndexByMesh(nets, mesh) < |nets| && For(older, mesh) && For(best, mesh)
    requires Installable(env, older) && Installable(env, best)
    requires Signer(env, older) in nets[IndexByMesh(nets, mesh)].admins && Signer(env, best) in nets[IndexByMesh(nets, mesh)].admins
    requires nets[IndexByMesh(nets, mesh)].rosterAt < older.signedAt < best.signedAt <= U64_MAX
    requires Signer(env, best) !in Parsed(env.parse, older.admins)
    ensures var k, nets' := IndexByMesh(nets, mesh), Deliver(env, nets, [Delivery(older, older.signedAt), Delivery(best, best.signedAt)]);
            |nets'| == |nets| && IndexByMesh(nets', mesh) == k && nets'[k].rosterAt < best.signedAt
  {
    var k := IndexByMesh(nets, mesh);
    var first, second := Delivery(older, older.signedAt), Delivery(best, best.signedAt);
    assert nets[k].rosterAt < older.signedAt;
    hide RuntimeId, For, Parsed, Offer, After, AllParse;
    RecognitionIsNeeded(env, nets[k], older, best);
    AcceptedAt(env, nets[k], older, Signer(env, older));
    OfferedAt(env, nets, older, mesh);
    SameMeshIndex(env, nets, first, mesh);
    var mid := After(env, nets, ApplyRoster(older), older.signedAt);
    SameMeshIndex(env, mid, second, mesh);
    assert [first, second][..1] == [first] && [first][..0] == [];
    assert Deliver(env, nets, [first]) == mid;
    assert mid[k] == Offer(env, nets[k], older, Signer(env, older)).net;
    OfferedAt(env, mid, best, mesh);
    assert Deliver(env, nets, [first, second]) == After(env, mid, ApplyRoster(best), best.signedAt);
  }

  /** Rosters that would each be accepted on arrival end alike in every order of delivery exactly
      when each of them lists the signer of the newest as an admin. */
  lemma {:induction false} ConvergesExactly(env: Env, nets: seq<Network>, rosters: set<Roster>, best: Roster, mesh: string)
    requires Rivals(env, nets, rosters, best, mesh)
    ensures Converges(env, nets, rosters, best, mesh) <==>
              forall r :: r in rosters && r != best ==> Signer(env, best) in Parsed(env.parse, r.admins)
  {
    hide Converges, Installable, Deliver;
    if forall r :: r in rosters && r != best ==> Signer(env, best) in Parsed(env.parse, r.admins) {
      RecognisedRostersConverge(env, nets, rosters, best, mesh);
    } else {
      var older :| older in rosters && older != best && Signer(env, best) !in Parsed(env.parse, older.admins);
      DroppedSignerDiverges(env, nets, rosters, older, best, mesh);
    }
  }

  lemma {:induction false} BringsBoth(first: seq<Delivery>, rest: seq<Delivery>, rosters: set<Roster>, best: Roster)
    requires forall i :: 0 <= i < |first| ==>
               first[i].roster in rosters && !TooFarAhead(first[i].roster.signedAt, first[i].now)
    requires Brought(first, best) && Brings(rest, rosters - {best})
    ensures Brings(first + rest, rosters)
  {
    hide TooFarAhead, Brought;
    forall r | r in rosters ensures Brought(first + rest, r) {
      BroughtConcat(first, rest, r);
      assert r == best || r in rosters - {best};
    }
  }

  lemma {:induction false} DroppedSignerDiverges(env: Env, nets: seq<Network>, rosters: set<Roster>, older: Roster, best: Roster, mesh: string)
    requires Rivals(env, nets, rosters, best, mesh)
    requires older in rosters && older != best && Signer(env, best) !in Parsed(env.parse, older.admins)
    ensures !Converges(env, nets, rosters, best, mesh)
  {
    hide Installable, Deliver, Signer, Parsed, RuntimeId;
    var first := [Delivery(older, older.signedAt), Delivery(best, best.signedAt)];
    var rest := DeliveriesOf(rosters - {best});
    UnrecognisedIsRefused(env, nets, older, best, mesh);
    OthersStayBehind(env, Deliver(env, nets, first), rest, best, mesh);
    DeliverConcat(env, nets, first, rest);
    var all := first + rest;
    assert first[1].roster == best;
    BringsBoth(first, rest, rosters, best);
    var nets' := Deliver(env, nets, all);
    assert !Carries(env, nets'[IndexByMesh(nets', mesh)], best);
  }
}
