/** The operations on networks in plain terms: when each goes through, and what it leaves in every
    field. */
module ConfigMeaning {
  import opened Common
  import opened Order
  import opened Config
  import opened ConfigSafety
  import Labels
  import Decimal

  // ---- Edits ----

  /** Nobody may take the last admin away, keys must parse, and a name must not be blank. */
  predicate Allowed(env: Env, net: Network, edit: Edit)
  {
    match edit
    case AddParticipant(raw) => env.parse(raw).Some?
    case AddAdmin(raw) => env.parse(raw).Some?
    case RemoveParticipant(raw) => env.parse(raw).Some? && net.admins != [env.parse(raw).value]
    case RemoveAdmin(raw) => env.parse(raw).Some? && net.admins != [env.parse(raw).value]
    case Rename(name) => Trim(name) != ""
    case Touch => true
  }

  /** The least of the keys, or nothing if there is none. */
  ghost predicate IsLeast(keys: seq<string>, key: string)
  {
    if keys == [] then key == "" else key in keys && forall k :: k in keys ==> k == key || Less(key, k)
  }

  lemma HeirIsLeast(keys: seq<string>)
    requires Sorted(keys)
    ensures IsLeast(keys, Heir(keys))
  {
  }

  /** The edit takes the inviter away: the inviter is the key removed, and as an admin if only admins are. */
  predicate RemovesInviter(env: Env, net: Network, edit: Edit)
  {
    match edit
    case RemoveParticipant(raw) => env.parse(raw) == Some(net.inviter)
    case RemoveAdmin(raw) => env.parse(raw) == Some(net.inviter) && net.inviter in net.admins
    case _ => false
  }

  /** An edit goes through exactly if it is allowed. It gives a removed inviter's place to the least admin left,
      an empty one to an admin who is added, and sets nothing but what it is about. */
  lemma {:induction false} EditExactly(env: Env, net: Network, edit: Edit, now: nat)
    requires Sound(env) && WellFormed(env, net)
    ensures Edited(env, net, edit, now).Some? <==> Allowed(env, net, edit)
    ensures Allowed(env, net, edit) ==>
              var net' := Edited(env, net, edit, now).value;
              && net'.id == net.id && net'.enabled == net.enabled && net'.meshId == net.meshId
              && net'.name == (if edit.Rename? then Trim(edit.name) else net.name)
              && (if RemovesInviter(env, net, edit) then IsLeast(net'.admins, net'.inviter)
                  else net'.inviter == if edit.AddAdmin? && net.inviter == "" then env.parse(edit.key).value else net.inviter)
  {
    if edit.RemoveParticipant? || edit.RemoveAdmin? { StruckLeast(env, net, edit.key); }
    hide Trim, Heir, IsLeast, SortDedup, Without, WithKey, NextRosterAt, WellFormed, Sound;
  }

  lemma StruckLeast(env: Env, net: Network, raw: string)
    requires WellFormed(env, net)
    ensures env.parse(raw).Some? ==>
              var admins := Without(net.admins, env.parse(raw).value); IsLeast(admins, Heir(admins))
    ensures forall k :: net.admins == [k] <==> |net.admins| == 1 && k in net.admins
  {
    if env.parse(raw).Some? {
      WithoutClean(env.parse, net.admins, env.parse(raw).value);
      HeirIsLeast(Without(net.admins, env.parse(raw).value));
    }
  }

  /** If the inviter is nobody or an admin, no edit changes that. */
  lemma {:induction false} EditsKeepInviter(env: Env, net: Network, edit: Edit, now: nat)
    requires Sound(env) && WellFormed(env, net) && Allowed(env, net, edit)
    requires net.inviter == "" || net.inviter in net.admins
    ensures var net' := Edited(env, net, edit, now).value; net'.inviter == "" || net'.inviter in net'.admins
  {
    EditExactly(env, net, edit, now);
    EditChangesMembership(env, net, edit, now);
    InElems(net.admins);
    InElems(Edited(env, net, edit, now).value.admins);
    if edit.AddAdmin? { WithKeyClean(env.parse, net.admins, env.parse(edit.key).value); }
    hide Edited, WellFormed;
  }

  // ---- Rosters ----

  lemma {:induction false} ParsedExactly(parse: Parser, keys: seq<string>)
    ensures forall k :: k in Parsed(parse, keys) <==> exists raw :: raw in keys && parse(raw) == Some(k)
  {
    if keys != [] {
      ParsedExactly(parse, keys[1..]);
      assert keys == [keys[0]] + keys[1..];
    }
  }

  /** The key is what some text of the list names. */
  ghost predicate Names(parse: Parser, keys: seq<string>, key: string)
  {
    exists raw :: raw in keys && parse(raw) == Some(key)
  }

  /** The list of admins: those named, or else the inviter, or else this node. */
  ghost predicate IsAdminList(env: Env, raws: seq<string>, inviter: string, admins: seq<string>)
  {
    && Sorted(admins)
    && forall k :: k in admins <==>
         if exists a :: Names(env.parse, raws, a) then Names(env.parse, raws, k)
         else if env.parse(inviter).Some? then env.parse(inviter) == Some(k)
         else env.own == Some(k)
  }

  ghost predicate HasAdmin(env: Env, raws: seq<string>, inviter: string)
  {
    (exists a :: Names(env.parse, raws, a)) || env.parse(inviter).Some? || env.own.Some?
  }

  lemma {:induction false} AdminListIs(env: Env, raws: seq<string>, inviter: string)
    ensures IsAdminList(env, raws, inviter, NormalizedAdmins(env, raws, inviter))
    ensures NormalizedAdmins(env, raws, inviter) != [] <==> HasAdmin(env, raws, inviter)
  {
    var keys := Parsed(env.parse, raws);
    ParsedExactly(env.parse, raws);
    SortDedupSorted(keys);
    InElems(keys);
    InElems(SortDedup(keys));
    ElemsEmpty(keys);
    ElemsEmpty(SortDedup(keys));
    assert forall k :: k in keys <==> Names(env.parse, raws, k);
    assert keys != [] ==> keys[0] in keys;
    hide Parsed, SortDedup, Names;
  }

  ghost predicate IsPeerList(env: Env, raws: seq<string>, participants: seq<string>)
  {
    Sorted(participants) && forall k :: k in participants <==> Names(env.parse, raws, k) && env.own != Some(k)
  }

  lemma {:induction false} PeerListIs(env: Env, raws: seq<string>)
    ensures IsPeerList(env, raws, SharedParticipants(env, raws))
  {
    var keys := SortDedup(Parsed(env.parse, raws));
    ParsedExactly(env.parse, raws);
    SortDedupSorted(Parsed(env.parse, raws));
    InElems(Parsed(env.parse, raws));
    InElems(keys);
    if env.own.Some? {
      WithoutSorted(keys, env.own.value);
      InElems(Without(keys, env.own.value));
    }
    assert forall k :: k in Parsed(env.parse, raws) <==> Names(env.parse, raws, k);
    hide Parsed, SortDedup, Names, Without;
  }

  /** A roster is for this network, signed by one of its admins, newer, not more than ten minutes ahead, with
      participants that all parse, and leaves some admin. */
  ghost predicate Acceptable(env: Env, net: Network, r: Roster, now: nat)
  {
    && env.parse(r.signedBy).Some? && env.parse(r.signedBy).value in net.admins
    && net.rosterAt < r.signedAt <= U64_MAX && r.signedAt <= now + 600
    && (forall raw :: raw in r.participants ==> env.parse(raw).Some?)
    && HasAdmin(env, r.admins, net.inviter)
  }

  /** The network holds what the roster says; the inviter stays only if the roster has it among the admins. */
  ghost predicate Holds(env: Env, net: Network, r: Roster, net': Network)
  {
    var signer := env.parse(r.signedBy);
    && signer.Some?
    && IsPeerList(env, r.participants, net'.participants)
    && IsAdminList(env, r.admins, net.inviter, net'.admins)
    && net'.name == (if Trim(r.name) == "" then net.name else Trim(r.name))
    && net'.inviter == (if net.inviter in net'.admins then net.inviter else signer.value)
    && net'.rosterAt == r.signedAt && net'.rosterBy == signer.value
    && net'.id == net.id && net'.enabled == net.enabled && net'.meshId == net.meshId
  }

  lemma {:induction false} OfferExactly(env: Env, net: Network, r: Roster, now: nat)
    requires env.parse(r.signedBy).Some? && r.signedAt <= U64_MAX
    ensures var offer := Offer(env, net, r, env.parse(r.signedBy).value);
            && (!TooFarAhead(r.signedAt, now) && offer.Accepted? <==> Acceptable(env, net, r, now))
            && (offer.Accepted? ==> Holds(env, net, r, offer.net))
  {
    AdminListIs(env, r.admins, net.inviter);
    PeerListIs(env, r.participants);
    hide NormalizedAdmins, SharedParticipants, IsAdminList, IsPeerList, HasAdmin, Trim;
  }

  /** A roster changes the first network of its mesh if there is one for which it is acceptable, and nothing
      otherwise. */
  lemma {:induction false} RosterAcceptedExactly(env: Env, nets: seq<Network>, r: Roster, now: nat)
    requires r.signedAt <= U64_MAX
    ensures var k, nets' := IndexByMesh(nets, RuntimeId(r.meshId)), After(env, nets, ApplyRoster(r), now);
            if RuntimeId(r.meshId) != "" && k < |nets| && Acceptable(env, nets[k], r, now)
            then |nets'| == |nets| && Holds(env, nets[k], r, nets'[k]) && nets' == nets[k := nets'[k]]
            else nets' == nets
  {
    var k := IndexByMesh(nets, RuntimeId(r.meshId));
    if k < |nets| {
      UnsignedIsRefused(env, nets[k], r, now);
      if env.parse(r.signedBy).Some? { OfferExactly(env, nets[k], r, now); }
    }
    hide RuntimeId, Offer, TooFarAhead, Acceptable, Holds;
  }

  lemma UnsignedIsRefused(env: Env, net: Network, r: Roster, now: nat)
    ensures Acceptable(env, net, r, now) ==> env.parse(r.signedBy).Some?
  {
  }

  /** After a roster that names some admin is accepted, the inviter is an admin exactly if the roster names the
      inviter or its own signer among the admins: a signer may leave himself out and still become the inviter. */
  lemma {:induction false} RosterInviterExactly(env: Env, nets: seq<Network>, r: Roster, now: nat)
    requires r.signedAt <= U64_MAX && RuntimeId(r.meshId) != "" && IndexByMesh(nets, RuntimeId(r.meshId)) < |nets|
    requires Acceptable(env, nets[IndexByMesh(nets, RuntimeId(r.meshId))], r, now)
    requires exists a :: Names(env.parse, r.admins, a)
    ensures var k, nets' := IndexByMesh(nets, RuntimeId(r.meshId)), After(env, nets, ApplyRoster(r), now);
            && |nets'| == |nets|
            && (nets'[k].inviter in nets'[k].admins <==>
                  Names(env.parse, r.admins, nets[k].inviter) || Names(env.parse, r.admins, env.parse(r.signedBy).value))
  {
    RosterAcceptedExactly(env, nets, r, now);
    hide After, RuntimeId, Names, HasAdmin;
  }

  /** A mesh id goes by its text without outer blanks and without the legacy prefix. */
  lemma {:induction false} MeshNames(id: string)
    requires Trim(id) == id
    ensures RuntimeId(id) == if |id| >= 10 && id[..10] == "nostr-vpn:" then id[10..] else id
    ensures RuntimeId("nostr-vpn:" + id) == if id == "" then RuntimeId("nostr-vpn:") else id
  {
    var text := "nostr-vpn:" + id;
    TrimFixed(id);
    TrimFixed(text);
    assert text[..10] == "nostr-vpn:" && text[10..] == id;
    if id != "" { assert text[|text| - 1] == id[|id| - 1]; }
    if id == "" { assert text == "nostr-vpn:"; }
  }

  // ---- Filling defaults ----

  /** What filling leaves of a network, but for its id. */
  ghost predicate FilledFrom(env: Env, net: Network, ordinal: nat, net': Network)
  {
    var inviter, signer := env.parse(net.inviter), env.parse(net.rosterBy);
    && net'.name == (if Trim(net.name) == "" then "Network " + Decimal.Print(ordinal) else Trim(net.name))
    && Sorted(net'.participants) && (forall k :: k in net'.participants <==> Names(env.parse, net.participants, k))
    && net'.inviter == (if inviter.Some? then inviter.value else "")
    && IsAdminList(env, net.admins, net'.inviter, net'.admins)
    && net'.rosterBy == (if signer.Some? then signer.value else "")
    && net'.rosterAt == (if signer.Some? then net.rosterAt else 0)
    && net'.meshId == env.deriveMesh(net'.(meshId := if Trim(net.meshId) == "" then "nostr-vpn" else net.meshId))
  }

  lemma {:induction false} CleanedExactly(env: Env, net: Network, ordinal: nat, id: string, enabled: bool)
    requires Sound(env)
    ensures var cleaned := Cleaned(env, net, ordinal).(id := id, enabled := enabled);
            FilledFrom(env, net, ordinal, cleaned.(meshId := env.deriveMesh(cleaned)))
  {
    var keys := Parsed(env.parse, net.participants);
    ParsedExactly(env.parse, net.participants);
    SortDedupSorted(keys);
    InElems(keys);
    InElems(SortDedup(keys));
    assert forall k :: k in keys <==> Names(env.parse, net.participants, k);
    var cleaned := Cleaned(env, net, ordinal);
    AdminListIs(env, net.admins, cleaned.inviter);
    hide Parsed, SortDedup, Names, NormalizedAdmins, IsAdminList, Trim;
  }

  /** Filling keeps the networks in order, each filled, the first that was enabled, or else the first, being the
      only one enabled. */
  lemma {:induction false} FilledExactly(env: Env, nets: seq<Network>, i: nat)
    requires Sound(env) && i < |nets|
    ensures var once := Defaults(env, nets);
            && |once| == |nets|
            && FilledFrom(env, nets[i], i + 1, once[i])
            && (once[i].enabled <==>
                  if exists j :: 0 <= j < |nets| && nets[j].enabled
                  then nets[i].enabled && forall j :: 0 <= j < i ==> !nets[j].enabled
                  else i == 0)
  {
    hide Cleaned, FilledFrom, Labels.UniqueIds, Labels.EntryId;
    FilledPart(env, nets, i);
    var base := SingleActive(CleanAll(env, nets))[i];
    CleanedExactly(env, nets[i], i + 1, base.id, base.enabled);
    CleanKeepsEnabled(env, nets);
    hide CleanAll;
  }

  lemma FilledPart(env: Env, nets: seq<Network>, i: nat)
    requires i < |nets|
    ensures var base := SingleActive(CleanAll(env, nets))[i];
            && base == Cleaned(env, nets[i], i + 1).(id := base.id, enabled := base.enabled)
            && Defaults(env, nets)[i] == base.(meshId := env.deriveMesh(base))
  {
    hide Cleaned, Labels.UniqueIds, WantedIds;
  }

  lemma CleanKeepsEnabled(env: Env, nets: seq<Network>)
    ensures forall j :: 0 <= j < |nets| ==> CleanAll(env, nets)[j].enabled == nets[j].enabled
  {
    hide Cleaned, Labels.UniqueIds, WantedIds;
    forall j | 0 <= j < |nets| ensures CleanAll(env, nets)[j].enabled == nets[j].enabled { CleanKeepsOne(env, nets[j], j + 1); }
  }

  lemma CleanKeepsOne(env: Env, net: Network, ordinal: nat)
    ensures Cleaned(env, net, ordinal).enabled == net.enabled
  {
    hide NameOr, IsBlank, SortDedup, NormalizedAdmins;
  }

  /** Filling an empty list starts one enabled network. */
  lemma {:induction false} EmptyIsSeeded(env: Env)
    requires Sound(env)
    ensures var once := Defaults(env, []);
            |once| == 1 && once[0].id == "network-1" && once[0].name == "Network 1" && once[0].enabled
  {
    var first := NewNetwork(Labels.DefaultEntryId(1), DefaultName(1), true);
    FirstTexts();
    var base := SingleActive(CleanAll(env, [first]))[0];
    FilledPart(env, [first], 0);
    CleanKeepsEnabled(env, [first]);
    CleanedExactly(env, first, 1, base.id, base.enabled);
    hide Cleaned, IsBlank, Labels.UniqueIds, Labels.EntryId, SortDedup, NormalizedAdmins;
    FilledIdsOfOne(env, first);
  }

  lemma FirstTexts()
    ensures Labels.DefaultEntryId(1) == "network-1" && DefaultName(1) == "Network 1" && Trim("Network 1") == "Network 1"
    ensures "Network " + Decimal.Print(1) == "Network 1" && Labels.EntryId("network-1", 1) == "network-1"
  {
    assert Decimal.Print(1) == "1";
    FirstLabel();
    TrimFixed("Network 1");
    hide Labels.EntryId;
  }

  lemma FirstLabel()
    ensures Labels.EntryId("network-1", 1) == "network-1"
  {
    Labels.NormalizeFixed("network-1");
    hide Labels.NormalizeLabel;
  }

  lemma FilledIdsOfOne(env: Env, net: Network)
    ensures CleanAll(env, [net])[0].id == Labels.EntryId(net.id, 1)
  {
    hide Cleaned, Labels.EntryId;
    var wanted := WantedIds([net]);
    assert wanted == [Labels.EntryId(net.id, 1)];
    assert wanted[..0] == [];
  }

  // ---- The list of networks ----

  /** A new network comes last, disabled and without members, under an id not in use: its number's, if free. */
  lemma {:induction false} AddedExactly(env: Env, nets: seq<Network>, name: string, now: nat)
    ensures var wanted := "network-" + Decimal.Print(|nets| + 1);
            var outcome := Apply(env, nets, AddNetwork(name), now);
            && outcome.Done? && |outcome.nets| == |nets| + 1
            && var id := outcome.nets[|nets|].id;
               && (forall i :: 0 <= i < |nets| ==> nets[i].id != id)
               && ((forall i :: 0 <= i < |nets| ==> nets[i].id != wanted) ==> id == wanted)
               && outcome.nets == nets + [
                    Network(id, if Trim(name) == "" then "Network " + Decimal.Print(|nets| + 1) else Trim(name), false,
                            "nostr-vpn", [], [], "", 0, "")]
  {
    hide Trim, Decimal.Print;
    var id := Labels.UniqueId(Labels.DefaultEntryId(|nets| + 1), Ids(nets));
    assert forall i :: 0 <= i < |nets| ==> nets[i].id in Ids(nets);
  }

  /** Another network may be enabled, which disables all others; the enabled one may not be disabled. */
  lemma {:induction false} EnabledExactly(env: Env, nets: seq<Network>, id: string, enabled: bool, now: nat, k: nat)
    requires DistinctIds(nets) && k < |nets| && nets[k].id == id
    ensures var outcome := Apply(env, nets, SetEnabled(id, enabled), now);
            && (outcome.Done? <==> enabled || !nets[k].enabled)
            && (outcome.Done? ==>
                  && |outcome.nets| == |nets|
                  && forall i :: 0 <= i < |nets| ==>
                       outcome.nets[i] == nets[i].(enabled := if enabled then i == k else nets[i].enabled))
  {
    assert IndexById(nets, id) == k;
  }

  /** The list without the network at `k`, in order and otherwise as it was, except that its first network is
      enabled if none is left that is. */
  ghost predicate IsWithout(nets: seq<Network>, k: nat, nets': seq<Network>)
    requires k < |nets|
  {
    && |nets'| == |nets| - 1
    && forall i :: 0 <= i < |nets'| ==>
         var was := nets[if i < k then i else i + 1];
         nets'[i] == was.(enabled := was.enabled || (i == 0 && NoneOther(nets, k)))
  }

  predicate NoneOther(nets: seq<Network>, k: nat)
  {
    forall j :: 0 <= j < |nets| && j != k ==> !nets[j].enabled
  }

  lemma {:induction false} RemovedIs(nets: seq<Network>, k: nat)
    requires k < |nets| && |nets| > 1
    ensures IsWithout(nets, k, Removed(nets, k))
  {
    var rest := Dropped(nets, k);
    assert forall i :: 0 <= i < |rest| ==> rest[i] == nets[if i < k then i else i + 1];
    if AnyEnabled(rest) {
      var i :| 0 <= i < |rest| && rest[i].enabled;
      assert nets[if i < k then i else i + 1].enabled;
    } else {
      forall j | 0 <= j < |nets| && j != k ensures !nets[j].enabled { assert rest[if j < k then j else j - 1] == nets[j]; }
    }
  }

  lemma {:induction false} RemovalIs(env: Env, nets: seq<Network>, id: string, now: nat)
    requires DistinctIds(nets)
    ensures var k := IndexById(nets, id);
            Apply(env, nets, RemoveNetwork(id), now) == if |nets| > 1 && k < |nets| then Done(Removed(nets, k)) else Refused
  {
    WithoutIdShape(nets, id);
    hide WithoutId, AnyEnabled, DistinctIds;
  }

  /** Any network but the only one may be removed. */
  lemma {:induction false} RemovedExactly(env: Env, nets: seq<Network>, id: string, now: nat)
    requires DistinctIds(nets)
    ensures var outcome, k := Apply(env, nets, RemoveNetwork(id), now), IndexById(nets, id);
            && (outcome.Done? <==> |nets| > 1 && k < |nets|)
            && (outcome.Done? ==> IsWithout(nets, k, outcome.nets))
  {
    hide Apply, Removed, IsWithout, DistinctIds;
    RemovalIs(env, nets, id, now);
    var k := IndexById(nets, id);
    if k < |nets| && |nets| > 1 { RemovedIs(nets, k); }
  }

  /** A mesh id that goes by some text may be set for a network there is. */
  lemma {:induction false} MeshSetExactly(env: Env, nets: seq<Network>, id: string, mesh: string, now: nat)
    ensures var outcome, k := Apply(env, nets, SetMeshId(id, mesh), now), IndexById(nets, id);
            && (outcome.Done? <==> RuntimeId(mesh) != "" && k < |nets|)
            && (outcome.Done? ==> outcome.nets == nets[k := nets[k].(meshId := RuntimeId(mesh))])
  {
  }
}
