/** Safety of a configuration over every run of local edits, remote rosters and
    default-filling: unique ids, one active network, canonical sorted key lists, a signer
    for every timestamp, timestamps that only rise, and admins that are never lost. */
module ConfigSafety {
  import opened Common
  import opened Order
  import opened Config
  import Labels

  ghost predicate CleanKeys(parse: Parser, keys: seq<string>)
  {
    Sorted(keys) && forall k :: k in keys ==> Canonical(parse, k)
  }

  ghost predicate WellFormed(env: Env, net: Network)
  {
    && CleanKeys(env.parse, net.participants)
    && CleanKeys(env.parse, net.admins)
    && (net.rosterAt > 0 ==> Canonical(env.parse, net.rosterBy) && net.rosterBy != "")
  }

  ghost predicate DistinctIds(nets: seq<Network>)
  {
    forall i, j :: 0 <= i < j < |nets| ==> nets[i].id != nets[j].id
  }

  ghost predicate OnlyEnabled(nets: seq<Network>, i: nat)
  {
    i < |nets| && forall j :: 0 <= j < |nets| ==> (nets[j].enabled <==> j == i)
  }

  ghost predicate OneEnabled(nets: seq<Network>)
  {
    exists i :: OnlyEnabled(nets, i)
  }

  ghost predicate Safe(env: Env, nets: seq<Network>)
  {
    && DistinctIds(nets)
    && OneEnabled(nets)
    && forall i :: 0 <= i < |nets| ==> WellFormed(env, nets[i])
  }

  // ---- Key lists ----

  lemma {:induction false} ParsedCanonical(parse: Parser, keys: seq<string>)
    requires Canonicalises(parse)
    ensures forall k :: k in Parsed(parse, keys) ==> Canonical(parse, k)
  {
    if keys != [] {
      ParsedCanonical(parse, keys[1..]);
    }
  }

  lemma InElems(xs: seq<string>)
    ensures forall x :: x in xs <==> x in Elems(xs)
  {
  }

  lemma SortDedupClean(parse: Parser, keys: seq<string>)
    requires forall k :: k in keys ==> Canonical(parse, k)
    ensures CleanKeys(parse, SortDedup(keys))
  {
    SortDedupSorted(keys);
    InElems(SortDedup(keys));
    InElems(keys);
  }

  lemma WithKeyClean(parse: Parser, keys: seq<string>, key: string)
    requires CleanKeys(parse, keys) && Canonical(parse, key)
    ensures CleanKeys(parse, WithKey(keys, key)) && key in WithKey(keys, key)
    ensures Elems(WithKey(keys, key)) == Elems(keys) + {key}
  {
    ElemsConcat(keys, [key]);
    if key !in keys {
      SortDedupClean(parse, keys + [key]);
    }
    InElems(WithKey(keys, key));
  }

  lemma WithoutClean(parse: Parser, keys: seq<string>, key: string)
    requires CleanKeys(parse, keys)
    ensures CleanKeys(parse, Without(keys, key))
  {
    WithoutSorted(keys, key);
    InElems(Without(keys, key));
    InElems(keys);
  }

  /** Removing one of at least two different keys, or a key that is not there, leaves some key. */
  lemma WithoutKeepsSome(keys: seq<string>, key: string)
    requires Sorted(keys) && keys != [] && !(|keys| == 1 && key in keys)
    ensures Without(keys, key) != []
  {
    ElemsEmpty(Without(keys, key));
    SortedDistinct(keys);
    if keys[0] != key {
      assert keys[0] in Elems(keys) - {key};
    } else {
      assert |keys| > 1 && keys[1] != keys[0];
      assert keys[1] in Elems(keys) - {key};
    }
  }

  lemma NormalizedAdminsClean(env: Env, admins: seq<string>, inviter: string)
    requires Sound(env)
    ensures CleanKeys(env.parse, NormalizedAdmins(env, admins, inviter))
  {
    ParsedCanonical(env.parse, admins);
    SortDedupClean(env.parse, Parsed(env.parse, admins));
  }

  lemma SharedParticipantsClean(env: Env, participants: seq<string>)
    requires Sound(env)
    ensures CleanKeys(env.parse, SharedParticipants(env, participants))
  {
    ParsedCanonical(env.parse, participants);
    SortDedupClean(env.parse, Parsed(env.parse, participants));
    if env.own.Some? {
      WithoutClean(env.parse, SortDedup(Parsed(env.parse, participants)), env.own.value);
    }
  }

  // ---- Local edits ----

  lemma EditWellFormed(env: Env, net: Network, edit: Edit, now: nat)
    requires Sound(env) && WellFormed(env, net)
    requires Edited(env, net, edit, now).Some?
    ensures WellFormed(env, Edited(env, net, edit, now).value)
  {
    match edit
    case AddParticipant(raw) =>
      WithKeyClean(env.parse, net.participants, env.parse(raw).value);
    case RemoveParticipant(raw) =>
      WithoutClean(env.parse, net.participants, env.parse(raw).value);
      WithoutClean(env.parse, net.admins, env.parse(raw).value);
    case AddAdmin(raw) =>
      WithKeyClean(env.parse, net.admins, env.parse(raw).value);
    case RemoveAdmin(raw) =>
      WithoutClean(env.parse, net.admins, env.parse(raw).value);
    case _ =>
  }

  /** No edit takes the last admin away. */
  lemma EditKeepsAdmins(env: Env, net: Network, edit: Edit, now: nat)
    requires Sound(env) && WellFormed(env, net) && net.admins != []
    requires Edited(env, net, edit, now).Some?
    ensures Edited(env, net, edit, now).value.admins != []
  {
    match edit
    case RemoveParticipant(raw) => WithoutKeepsSome(net.admins, env.parse(raw).value);
    case RemoveAdmin(raw) =>
      if env.parse(raw).value in net.admins { WithoutKeepsSome(net.admins, env.parse(raw).value); }
    case AddAdmin(raw) => WithKeyClean(env.parse, net.admins, env.parse(raw).value);
    case _ =>
  }

  /** The edit takes this node's own key off the list of admins, if it is on it. */
  predicate RemovesOwn(env: Env, edit: Edit)
  {
    env.own.Some? && (edit.RemoveParticipant? || edit.RemoveAdmin?) && env.parse(edit.key) == env.own
  }

  predicate AddsOwn(env: Env, edit: Edit)
  {
    env.own.Some? && edit.AddAdmin? && env.parse(edit.key) == env.own
  }

  /** The edit removes an admin who is none, and so changes nothing. */
  predicate RemovesNobody(env: Env, net: Network, edit: Edit)
  {
    edit.RemoveAdmin? && env.parse(edit.key).Some? && env.parse(edit.key).value !in net.admins
  }

  /** Which edits this node stamps, told from the network before the edit. */
  predicate Stamps(env: Env, net: Network, edit: Edit)
  {
    && env.own.Some? && !RemovesNobody(env, net, edit) && !RemovesOwn(env, edit)
    && (env.own.value in net.admins || AddsOwn(env, edit))
  }

  /** A stamped edit advances the roster clock and signs it; any other edit leaves both alone. So
      below the largest timestamp the clock rises exactly for the edits that `Stamps` describes. */
  lemma {:induction false} EditStampsRoster(env: Env, net: Network, edit: Edit, now: nat)
    requires Edited(env, net, edit, now).Some?
    ensures var net' := Edited(env, net, edit, now).value;
            && (Stamps(env, net, edit) ==>
                  && net'.rosterBy == env.own.value
                  && net'.rosterAt == if now > net.rosterAt then now else if net.rosterAt < U64_MAX then net.rosterAt + 1 else net.rosterAt)
            && (!Stamps(env, net, edit) ==> net'.rosterAt == net.rosterAt && net'.rosterBy == net.rosterBy)
            && net'.rosterAt >= net.rosterAt
            && (net.rosterAt < U64_MAX ==> (net'.rosterAt > net.rosterAt <==> Stamps(env, net, edit)))
            && net'.id == net.id && net'.enabled == net.enabled && net'.meshId == net.meshId
  {
    hide IsBlank, Trim, SortDedup, Without;
    if env.own.Some? {
      InElems(net.admins);
      match edit
      case RemoveParticipant(raw) => InElems(Without(net.admins, env.parse(raw).value));
      case RemoveAdmin(raw) => InElems(Without(net.admins, env.parse(raw).value));
      case AddAdmin(raw) =>
        var keys := net.admins + [env.parse(raw).value];
        ElemsConcat(net.admins, [env.parse(raw).value]);
        InElems(SortDedup(keys));
      case _ =>
    }
  }

  /** An admin who removes itself while another admin remains changes the roster without a stamp:
      the list is checked after the edit. Its clock and signer stay those of the roster before, so a
      node that has that roster ignores the changed one, whoever signs it. */
  lemma {:induction false} SelfRemovalIsUnstamped(env: Env, net: Network, edit: Edit, now: nat)
    requires WellFormed(env, net) && env.own.Some? && env.own.value in net.admins && |net.admins| > 1
    requires RemovesOwn(env, edit)
    ensures Edited(env, net, edit, now).Some?
    ensures var net' := Edited(env, net, edit, now).value;
            && Elems(net'.admins) == Elems(net.admins) - {env.own.value} && net' != net
            && net'.rosterAt == net.rosterAt && net'.rosterBy == net.rosterBy
            && forall r: Roster, signer: string :: r.signedAt == net'.rosterAt ==> Offer(env, net, r, signer).Ignored?
  {
    InElems(net.admins);
    InElems(Without(net.admins, env.own.value));
    EditStampsRoster(env, net, edit, now);
  }

  /** What each membership edit does to the two key sets. */
  lemma EditChangesMembership(env: Env, net: Network, edit: Edit, now: nat)
    requires Sound(env) && WellFormed(env, net) && Edited(env, net, edit, now).Some?
    ensures var net' := Edited(env, net, edit, now).value;
            match edit
            case AddParticipant(raw) =>
              Elems(net'.participants) == Elems(net.participants) + {env.parse(raw).value} && net'.admins == net.admins
            case RemoveParticipant(raw) =>
              && Elems(net'.participants) == Elems(net.participants) - {env.parse(raw).value}
              && Elems(net'.admins) == Elems(net.admins) - {env.parse(raw).value}
            case AddAdmin(raw) =>
              Elems(net'.admins) == Elems(net.admins) + {env.parse(raw).value} && net'.participants == net.participants
            case RemoveAdmin(raw) =>
              Elems(net'.admins) == Elems(net.admins) - {env.parse(raw).value} && net'.participants == net.participants
            case _ => net'.participants == net.participants && net'.admins == net.admins
  {
    match edit
    case AddParticipant(raw) => WithKeyClean(env.parse, net.participants, env.parse(raw).value);
    case AddAdmin(raw) => WithKeyClean(env.parse, net.admins, env.parse(raw).value);
    case RemoveAdmin(raw) => InElems(net.admins);
    case _ =>
  }

  // ---- Remote rosters ----

  /** An accepted roster is newer than the one it replaces and keeps the network well formed with an admin. */
  lemma AcceptedIsNewer(env: Env, net: Network, r: Roster, signer: string)
    requires Sound(env) && WellFormed(env, net) && Canonical(env.parse, signer)
    requires Offer(env, net, r, signer).Accepted?
    ensures var net' := Offer(env, net, r, signer).net;
            && WellFormed(env, net')
            && net'.rosterAt == r.signedAt > net.rosterAt && net'.rosterBy == signer && signer in net.admins
            && net'.admins != []
            && net'.id == net.id && net'.enabled == net.enabled && net'.meshId == net.meshId
  {
    NormalizedAdminsClean(env, r.admins, net.inviter);
    SharedParticipantsClean(env, r.participants);
  }

  // ---- Lists of networks ----

  lemma ReplaceSafe(env: Env, nets: seq<Network>, i: nat, net: Network)
    requires Safe(env, nets) && i < |nets|
    requires WellFormed(env, net) && net.id == nets[i].id && net.enabled == nets[i].enabled
    ensures Safe(env, nets[i := net])
  {
    var one :| OnlyEnabled(nets, one);
    assert OnlyEnabled(nets[i := net], one);
  }

  lemma EnableOnlySafe(env: Env, nets: seq<Network>, index: nat)
    requires index < |nets| && DistinctIds(nets)
    requires forall i :: 0 <= i < |nets| ==> WellFormed(env, nets[i])
    ensures Safe(env, EnableOnly(nets, index))
  {
    assert OnlyEnabled(EnableOnly(nets, index), index);
  }

  lemma AppendDistinct(nets: seq<Network>, net: Network)
    requires DistinctIds(nets) && net.id !in Ids(nets)
    ensures DistinctIds(nets + [net])
  {
    forall i | 0 <= i < |nets| ensures nets[i].id != net.id {
      assert nets[i].id in Ids(nets);
    }
  }

  lemma AppendSafe(env: Env, nets: seq<Network>, net: Network)
    requires Safe(env, nets) && WellFormed(env, net) && !net.enabled && net.id !in Ids(nets)
    ensures Safe(env, nets + [net])
  {
    AppendDistinct(nets, net);
    var one :| OnlyEnabled(nets, one);
    assert OnlyEnabled(nets + [net], one);
  }

  function Dropped(nets: seq<Network>, k: nat): seq<Network>
    requires k < |nets|
  {
    nets[..k] + nets[k + 1..]
  }

  lemma DroppedCons(nets: seq<Network>, k: nat)
    requires 0 < k < |nets|
    ensures Dropped(nets, k) == [nets[0]] + Dropped(nets[1..], k - 1)
  {
  }

  /** With distinct ids, retaining the other ids removes at most one network. */
  lemma {:induction false} WithoutIdShape(nets: seq<Network>, id: string)
    requires DistinctIds(nets)
    ensures var k := IndexById(nets, id);
            WithoutId(nets, id) == if k == |nets| then nets else Dropped(nets, k)
  {
    if nets != [] {
      var k := IndexById(nets, id);
      assert nets == [nets[0]] + nets[1..];
      if k == 0 {
        NoSuchId(nets[1..], id);
        assert WithoutId(nets, id) == [] + nets[1..];
      } else {
        WithoutIdShape(nets[1..], id);
        if k < |nets| { DroppedCons(nets, k); }
      }
    }
  }

  lemma {:induction false} NoSuchId(nets: seq<Network>, id: string)
    requires forall i :: 0 <= i < |nets| ==> nets[i].id != id
    ensures WithoutId(nets, id) == nets
  {
    if nets != [] { NoSuchId(nets[1..], id); }
  }

  lemma DroppedEnabled(nets: seq<Network>, k: nat, one: nat)
    requires OnlyEnabled(nets, one) && k < |nets| && |nets| > 1
    ensures var rest := Dropped(nets, k);
            if one == k then !AnyEnabled(rest) && OnlyEnabled(rest[0 := rest[0].(enabled := true)], 0)
            else AnyEnabled(rest) && OnlyEnabled(rest, if one < k then one else one - 1)
  {
    var rest := Dropped(nets, k);
    if one != k {
      assert rest[if one < k then one else one - 1] == nets[one];
    }
  }

  lemma DroppedDistinct(nets: seq<Network>, k: nat)
    requires DistinctIds(nets) && k < |nets|
    ensures DistinctIds(Dropped(nets, k))
  {
    var rest := Dropped(nets, k);
    forall i, j | 0 <= i < j < |rest| ensures rest[i].id != rest[j].id {
      assert rest[i] == nets[if i < k then i else i + 1] && rest[j] == nets[if j < k then j else j + 1];
    }
  }

  lemma ActivateFirstSafe(env: Env, nets: seq<Network>)
    requires nets != [] && DistinctIds(nets) && OnlyEnabled(nets[0 := nets[0].(enabled := true)], 0)
    requires forall i :: 0 <= i < |nets| ==> WellFormed(env, nets[i])
    ensures Safe(env, nets[0 := nets[0].(enabled := true)])
  {
  }

  /** The list without the network at `k`, its first network enabled if none else is. */
  function Removed(nets: seq<Network>, k: nat): seq<Network>
    requires k < |nets| && |nets| > 1
  {
    var rest := Dropped(nets, k);
    if AnyEnabled(rest) then rest else rest[0 := rest[0].(enabled := true)]
  }

  lemma {:induction false} RemovalShape(env: Env, nets: seq<Network>, id: string, now: nat)
    requires DistinctIds(nets) && Apply(env, nets, RemoveNetwork(id), now).Done?
    ensures var k := IndexById(nets, id);
            k < |nets| && |nets| > 1 && Apply(env, nets, RemoveNetwork(id), now).nets == Removed(nets, k)
  {
    WithoutIdShape(nets, id);
  }

  lemma DroppedWellFormed(env: Env, nets: seq<Network>, k: nat)
    requires k < |nets| && forall i :: 0 <= i < |nets| ==> WellFormed(env, nets[i])
    ensures forall i :: 0 <= i < |nets| - 1 ==> WellFormed(env, Dropped(nets, k)[i])
  {
    forall i | 0 <= i < |nets| - 1 ensures WellFormed(env, Dropped(nets, k)[i]) {
      assert Dropped(nets, k)[i] == nets[if i < k then i else i + 1];
    }
  }

  lemma RemovedSafe(env: Env, nets: seq<Network>, k: nat)
    requires Safe(env, nets) && k < |nets| && |nets| > 1
    ensures Safe(env, Removed(nets, k))
  {
    var one :| OnlyEnabled(nets, one);
    DroppedEnabled(nets, k, one);
    DroppedDistinct(nets, k);
    DroppedWellFormed(env, nets, k);
    if one == k { ActivateFirstSafe(env, Dropped(nets, k)); }
  }

  /** The roster clock never runs back and a network with admins keeps some. */
  ghost predicate Advances(before: Network, after: Network)
  {
    after.rosterAt >= before.rosterAt && (before.admins != [] ==> after.admins != [])
  }

  lemma RemovedAdvances(nets: seq<Network>, k: nat, i: nat)
    requires k < |nets| && |nets| > 1 && i < |nets| && i != k
    ensures var j := if i < k then i else i - 1;
            j < |Removed(nets, k)| && Advances(nets[i], Removed(nets, k)[j])
  {
    assert Dropped(nets, k)[if i < k then i else i - 1] == nets[i];
  }

  // ---- Filling defaults makes any configuration safe ----

  lemma CleanedWellFormed(env: Env, net: Network, ordinal: nat, id: string)
    requires Sound(env)
    ensures WellFormed(env, Cleaned(env, net, ordinal).(id := id))
  {
    var net' := Cleaned(env, net, ordinal);
    ParsedCanonical(env.parse, net.participants);
    SortDedupClean(env.parse, Parsed(env.parse, net.participants));
    NormalizedAdminsClean(env, net.admins, net'.inviter);
  }

  lemma {:induction false} CleanAllWellFormed(env: Env, nets: seq<Network>, i: nat)
    requires Sound(env) && i < |nets|
    ensures WellFormed(env, CleanAll(env, nets)[i])
  {
    hide Cleaned, Labels.UniqueIds, Labels.EntryId, WantedIds, WellFormed;
    CleanedWellFormed(env, nets[i], i + 1, Labels.UniqueIds(WantedIds(nets))[i]);
  }

  lemma {:induction false} CleanAllDistinct(env: Env, nets: seq<Network>)
    ensures DistinctIds(CleanAll(env, nets))
  {
    Labels.UniqueIdsDistinct(WantedIds(nets));
    var ids := Labels.UniqueIds(WantedIds(nets));
    assert forall i :: 0 <= i < |nets| ==> CleanAll(env, nets)[i].id == ids[i];
  }

  lemma DeriveSafe(env: Env, nets: seq<Network>)
    requires Safe(env, nets)
    ensures Safe(env, DeriveMeshes(env, nets))
  {
    var one :| OnlyEnabled(nets, one);
    assert OnlyEnabled(DeriveMeshes(env, nets), one);
  }

  /** Whatever was loaded, filling defaults leaves distinct ids, one active network and clean rosters. */
  lemma {:induction false} DefaultsAreSafe(env: Env, nets: seq<Network>)
    requires Sound(env)
    ensures Safe(env, Defaults(env, nets))
  {
    var cleaned := CleanAll(env, Seeded(nets));
    CleanAllDistinct(env, Seeded(nets));
    forall k | 0 <= k < |cleaned| ensures WellFormed(env, cleaned[k]) {
      CleanAllWellFormed(env, Seeded(nets), k);
    }
    var i := FirstEnabled(cleaned);
    var index := if i == |cleaned| then 0 else i;
    EnableOnlySafe(env, cleaned, index);
    DeriveSafe(env, SingleActive(cleaned));
  }

  // ---- Every operation ----

  lemma RosterKeepsSafe(env: Env, nets: seq<Network>, r: Roster, now: nat)
    requires Sound(env) && Safe(env, nets)
    ensures Safe(env, After(env, nets, ApplyRoster(r), now))
  {
    if ApplyRosterTo(env, nets, r, now).Done? {
      var i := IndexByMesh(nets, RuntimeId(r.meshId));
      var signer := env.parse(r.signedBy).value;
      AcceptedIsNewer(env, nets[i], r, signer);
      ReplaceSafe(env, nets, i, Offer(env, nets[i], r, signer).net);
    }
  }

  lemma EditKeepsSafe(env: Env, nets: seq<Network>, id: string, edit: Edit, now: nat)
    requires Sound(env) && Safe(env, nets)
    ensures Safe(env, After(env, nets, EditNetwork(id, edit), now))
  {
    var i := IndexById(nets, id);
    if i < |nets| && Edited(env, nets[i], edit, now).Some? {
      EditWellFormed(env, nets[i], edit, now);
      EditStampsRoster(env, nets[i], edit, now);
      ReplaceSafe(env, nets, i, Edited(env, nets[i], edit, now).value);
    }
  }

  lemma AddKeepsSafe(env: Env, nets: seq<Network>, name: string, now: nat)
    requires Safe(env, nets)
    ensures Safe(env, After(env, nets, AddNetwork(name), now))
  {
    var id := Labels.UniqueId(Labels.DefaultEntryId(|nets| + 1), Ids(nets));
    AppendSafe(env, nets, NewNetwork(id, NameOr(name, |nets| + 1), false));
  }

  lemma SelectKeepsSafe(env: Env, nets: seq<Network>, id: string, enabled: bool, now: nat)
    requires Safe(env, nets)
    ensures Safe(env, After(env, nets, SetEnabled(id, enabled), now))
  {
    var i := IndexById(nets, id);
    if i < |nets| { EnableOnlySafe(env, nets, i); }
  }

  lemma MeshKeepsSafe(env: Env, nets: seq<Network>, id: string, mesh: string, now: nat)
    requires Safe(env, nets)
    ensures Safe(env, After(env, nets, SetMeshId(id, mesh), now))
  {
    var i := IndexById(nets, id);
    if i < |nets| { ReplaceSafe(env, nets, i, nets[i].(meshId := RuntimeId(mesh))); }
  }

  lemma RemoveKeepsSafe(env: Env, nets: seq<Network>, id: string, now: nat)
    requires Safe(env, nets)
    ensures Safe(env, After(env, nets, RemoveNetwork(id), now))
  {
    if Apply(env, nets, RemoveNetwork(id), now).Done? {
      RemovalShape(env, nets, id, now);
      RemovedSafe(env, nets, IndexById(nets, id));
    }
  }

  lemma {:induction false} FillKeepsSafe(env: Env, nets: seq<Network>, now: nat)
    requires Sound(env)
    ensures Safe(env, After(env, nets, FillDefaults, now))
  {
    hide Defaults, Safe;
    DefaultsAreSafe(env, nets);
  }

  lemma StepKeepsSafe(env: Env, nets: seq<Network>, op: Op, now: nat)
    requires Sound(env) && Safe(env, nets)
    ensures Safe(env, After(env, nets, op, now))
  {
    match op
    case EditNetwork(id, edit) => EditKeepsSafe(env, nets, id, edit, now);
    case ApplyRoster(r) => RosterKeepsSafe(env, nets, r, now);
    case AddNetwork(name) => AddKeepsSafe(env, nets, name, now);
    case RemoveNetwork(id) => RemoveKeepsSafe(env, nets, id, now);
    case SetEnabled(id, enabled) => SelectKeepsSafe(env, nets, id, enabled, now);
    case SetMeshId(id, mesh) => MeshKeepsSafe(env, nets, id, mesh, now);
    case FillDefaults => FillKeepsSafe(env, nets, now);
  }

  /** A safe configuration, such as any that has just been loaded, stays safe under every run of operations. */
  lemma {:induction false} RunsAreSafe(env: Env, nets: seq<Network>, ops: seq<Timed>)
    requires Sound(env) && Safe(env, nets)
    ensures Safe(env, Run(env, nets, ops))
  {
    if ops != [] {
      var last := |ops| - 1;
      RunsAreSafe(env, nets, ops[..last]);
      StepKeepsSafe(env, Run(env, nets, ops[..last]), ops[last].op, ops[last].now);
    }
  }

  // ---- Following one network along a run ----

  /** Where the network at position `i` is after an operation, if it is still there. */
  function Follow(env: Env, nets: seq<Network>, op: Op, now: nat, i: nat): Option<nat>
  {
    if op.RemoveNetwork? && Apply(env, nets, op, now).Done? then
      var k := IndexById(nets, op.id);
      if i == k then None else if i < k then Some(i) else Some(i - 1)
    else Some(i)
  }

  function FollowRun(env: Env, nets: seq<Network>, ops: seq<Timed>, i: nat): Option<nat>
  {
    if ops == [] then Some(i)
    else
      var last := |ops| - 1;
      var before := FollowRun(env, nets, ops[..last], i);
      if before.None? then None
      else Follow(env, Run(env, nets, ops[..last]), ops[last].op, ops[last].now, before.value)
  }

  lemma CleanedAdvances(env: Env, net: Network, ordinal: nat)
    requires Sound(env) && WellFormed(env, net)
    ensures Advances(net, Cleaned(env, net, ordinal))
  {
    if net.admins != [] {
      assert net.admins[0] in net.admins;
      CleanAdminsStay(env, net.admins, Cleaned(env, net, ordinal).inviter);
    }
  }

  lemma CleanAdminsStay(env: Env, admins: seq<string>, inviter: string)
    requires CleanKeys(env.parse, admins) && admins != []
    ensures NormalizedAdmins(env, admins, inviter) == admins
  {
    ParsedFixed(env.parse, admins);
    SortDedupFixed(admins);
  }

  lemma {:induction false} ParsedFixed(parse: Parser, keys: seq<string>)
    requires forall k :: k in keys ==> Canonical(parse, k)
    ensures Parsed(parse, keys) == keys
  {
    if keys != [] {
      assert keys[0] in keys;
      ParsedFixed(parse, keys[1..]);
      assert keys == [keys[0]] + keys[1..];
    }
  }

  lemma ActiveKeeps(env: Env, nets: seq<Network>, i: nat)
    requires i < |nets|
    ensures var r := DeriveMeshes(env, SingleActive(nets))[i]; r.rosterAt == nets[i].rosterAt && r.admins == nets[i].admins
  {
  }

  lemma {:induction false} DefaultsAdvance(env: Env, nets: seq<Network>, i: nat)
    requires Sound(env) && Safe(env, nets) && i < |nets|
    ensures i < |Defaults(env, nets)| && Advances(nets[i], Defaults(env, nets)[i])
  {
    CleanedAdvances(env, nets[i], i + 1);
    ActiveKeeps(env, CleanAll(env, nets), i);
  }

  lemma EditAdvances(env: Env, nets: seq<Network>, id: string, edit: Edit, now: nat, i: nat)
    requires Sound(env) && Safe(env, nets) && i < |nets|
    ensures FollowsOn(env, nets, EditNetwork(id, edit), now, i)
  {
    var k := IndexById(nets, id);
    if k < |nets| && Edited(env, nets[k], edit, now).Some? {
      EditStampsRoster(env, nets[k], edit, now);
      if nets[k].admins != [] { EditKeepsAdmins(env, nets[k], edit, now); }
    }
  }

  lemma RosterAdvances(env: Env, nets: seq<Network>, r: Roster, now: nat, i: nat)
    requires Sound(env) && Safe(env, nets) && i < |nets|
    ensures FollowsOn(env, nets, ApplyRoster(r), now, i)
  {
    if ApplyRosterTo(env, nets, r, now).Done? {
      AcceptedIsNewer(env, nets[IndexByMesh(nets, RuntimeId(r.meshId))], r, env.parse(r.signedBy).value);
    }
  }

  /** The network at `i`, followed through one operation, advances. */
  ghost predicate FollowsOn(env: Env, nets: seq<Network>, op: Op, now: nat, i: nat)
    requires i < |nets|
  {
    var at, nets' := Follow(env, nets, op, now, i), After(env, nets, op, now);
    at.Some? ==> at.value < |nets'| && Advances(nets[i], nets'[at.value])
  }

  lemma RemoveAdvances(env: Env, nets: seq<Network>, id: string, now: nat, i: nat)
    requires Safe(env, nets) && i < |nets|
    ensures FollowsOn(env, nets, RemoveNetwork(id), now, i)
  {
    if Apply(env, nets, RemoveNetwork(id), now).Done? && i != IndexById(nets, id) {
      RemovalShape(env, nets, id, now);
      RemovedAdvances(nets, IndexById(nets, id), i);
    }
  }

  lemma OthersAdvance(env: Env, nets: seq<Network>, op: Op, now: nat, i: nat)
    requires i < |nets| && (op.AddNetwork? || op.SetEnabled? || op.SetMeshId?)
    ensures FollowsOn(env, nets, op, now, i)
  {
  }

  lemma {:induction false} FillAdvances(env: Env, nets: seq<Network>, now: nat, i: nat)
    requires Sound(env) && Safe(env, nets) && i < |nets|
    ensures FollowsOn(env, nets, FillDefaults, now, i)
  {
    hide Defaults, Safe, Advances;
    DefaultsAdvance(env, nets, i);
  }

  lemma StepAdvances(env: Env, nets: seq<Network>, op: Op, now: nat, i: nat)
    requires Sound(env) && Safe(env, nets) && i < |nets|
    ensures FollowsOn(env, nets, op, now, i)
  {
    match op
    case EditNetwork(id, edit) => EditAdvances(env, nets, id, edit, now, i);
    case ApplyRoster(r) => RosterAdvances(env, nets, r, now, i);
    case RemoveNetwork(id) => RemoveAdvances(env, nets, id, now, i);
    case FillDefaults => FillAdvances(env, nets, now, i);
    case _ => OthersAdvance(env, nets, op, now, i);
  }

  /** Along every run from a safe configuration, a network that is not removed never sees its
      roster timestamp decrease and never loses its last admin. */
  lemma {:induction false} RunsAdvance(env: Env, nets: seq<Network>, ops: seq<Timed>, i: nat)
    requires Sound(env) && Safe(env, nets) && i < |nets|
    ensures var at := FollowRun(env, nets, ops, i);
            at.Some? ==> at.value < |Run(env, nets, ops)| && Advances(nets[i], Run(env, nets, ops)[at.value])
  {
    if ops != [] {
      var last := |ops| - 1;
      RunsAdvance(env, nets, ops[..last], i);
      RunsAreSafe(env, nets, ops[..last]);
      var at := FollowRun(env, nets, ops[..last], i);
      if at.Some? {
        StepAdvances(env, Run(env, nets, ops[..last]), ops[last].op, ops[last].now, at.value);
      }
    }
  }
}
