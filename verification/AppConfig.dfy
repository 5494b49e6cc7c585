/** The configuration object, whose methods rewrite its networks, exit node and alias book in place.
    Each method is one step of a profile, so what is proved of steps and runs carries over. */
module AppConfig {
  import opened Common
  import opened Config
  import ConfigSafety
  import Labels
  import Naming
  import Order
  import Profile

  class AppConfig {
    const env: Env
    const setting: Profile.Setting
    var networks: seq<Network>
    var exitNode: string
    var aliases: map<string, string>

    constructor (setting: Profile.Setting, profile: Profile.Profile)
      ensures this.setting == setting && env == setting.env && Contents() == profile
    {
      this.setting, env := setting, setting.env;
      networks, exitNode, aliases := profile.networks, profile.exitNode, profile.aliases;
    }

    function Contents(): Profile.Profile
      reads this
    {
      Profile.Profile(networks, exitNode, aliases)
    }

    /** The setting is that of the environment, and there are animals to name peers after. */
    ghost predicate Valid()
    {
      env == setting.env && setting.world.animals != []
    }

    // ---- What operations settle ----

    /** `normalize_selected_exit_node`: the exit node is cleared unless the active network lists it. */
    method NormalizeSelectedExitNode()
      modifies this`exitNode
      ensures exitNode == Profile.SettledExit(networks, old(exitNode))
      ensures Profile.ExitIsMember(Contents())
    {
      if exitNode == "" { return; }
      if networks == [] {
        exitNode := "";
        return;
      }
      var active := networks[Profile.ActiveIndex(networks)];
      if exitNode !in active.participants && exitNode !in active.admins { exitNode := ""; }
    }

    /** `normalize_peer_aliases` for the members of all networks, in ascending order. */
    method NormalizePeerAliases()
      requires Valid()
      modifies this`aliases
      ensures aliases == Profile.SettledAliases(setting, networks, old(aliases))
    {
      hide Naming.Aliases, Order.SortDedup;
      var keys: seq<string> := [];
      for i := 0 to |networks|
        invariant keys + Profile.AllKeys(networks[i..]) == Profile.AllKeys(networks)
      {
        assert networks[i..][1..] == networks[i + 1..];
        keys := keys + networks[i].participants + networks[i].admins;
      }
      assert keys == Profile.AllKeys(networks);
      aliases := Naming.NormalizePeerAliases(setting.world, setting.list(aliases), Order.SortDedup(keys), setting.nodeName);
    }

    /** The loop over the aliases of an accepted roster. */
    method EnterRosterAliases(net: Network, entries: seq<(string, string)>)
      requires Valid()
      modifies this`aliases
      ensures aliases == Profile.RosterAliases(setting, net, entries, old(aliases))
    {
      hide Labels.NormalizeLabel;
      for i := 0 to |entries|
        invariant aliases == Profile.RosterAliases(setting, net, entries[..i], old(aliases))
      {
        assert entries[..i + 1][..i] == entries[..i];
        var (raw, text) := entries[i];
        var key := env.parse(raw);
        if key.Some? && key != env.own && (key.value in net.participants || key.value in net.admins) {
          var alias := Labels.NormalizeLabel(text);
          if alias.Some? { aliases := aliases[setting.world.npub(key.value) := alias.value]; }
        }
      }
      assert entries[..|entries|] == entries;
    }

    // ---- Networks ----

    method FindById(id: string) returns (index: nat)
      ensures index == IndexById(networks, id)
    {
      index := 0;
      while index < |networks| && networks[index].id != id
        invariant index <= |networks|
        invariant forall k :: 0 <= k < index ==> networks[k].id != id
      {
        index := index + 1;
      }
      FirstIndex(networks, id, index);
    }

    static lemma {:induction false} FirstIndex(nets: seq<Network>, id: string, index: nat)
      requires index <= |nets| && (index < |nets| ==> nets[index].id == id)
      requires forall k :: 0 <= k < index ==> nets[k].id != id
      ensures IndexById(nets, id) == index
    {
      if index > 0 { FirstIndex(nets[1..], id, index - 1); }
    }

    method FindByMesh(mesh: string) returns (index: nat)
      ensures index == IndexByMesh(networks, mesh)
    {
      index := 0;
      while index < |networks| && RuntimeId(networks[index].meshId) != mesh
        invariant index <= |networks|
        invariant forall k :: 0 <= k < index ==> RuntimeId(networks[k].meshId) != mesh
      {
        index := index + 1;
      }
      FirstMesh(networks, mesh, index);
    }

    static lemma {:induction false} FirstMesh(nets: seq<Network>, mesh: string, index: nat)
      requires index <= |nets| && (index < |nets| ==> RuntimeId(nets[index].meshId) == mesh)
      requires forall k :: 0 <= k < index ==> RuntimeId(nets[k].meshId) != mesh
      ensures IndexByMesh(nets, mesh) == index
    {
      if index > 0 { FirstMesh(nets[1..], mesh, index - 1); }
    }

    /** `note_network_roster_local_change` on the network at `index`. */
    method NoteLocalChange(index: nat, now: nat)
      requires index < |networks|
      modifies this`networks
      ensures networks == old(networks)[index := Bump(env, old(networks)[index], now)]
    {
      var net := networks[index];
      if env.own.None? || env.own.value !in net.admins { return; }
      var at := NextRosterAt(now, net.rosterAt);
      networks := networks[index := net.(rosterAt := at, rosterBy := env.own.value)];
    }

    // ---- What operations do to the networks alone ----

    method EnterParticipant(id: string, raw: string, now: nat) returns (added: Option<string>)
      modifies this`networks
      ensures networks == After(env, old(networks), EditNetwork(id, AddParticipant(raw)), now)
      ensures added.Some? <==> Apply(env, old(networks), EditNetwork(id, AddParticipant(raw)), now).Done?
    {
      var key := env.parse(raw);
      if key.None? { return None; }
      var index := FindById(id);
      if index == |networks| { return None; }
      var net := networks[index];
      networks := networks[index := net.(participants := WithKey(net.participants, key.value))];
      NoteLocalChange(index, now);
      return key;
    }

    method StrikeParticipant(id: string, raw: string, now: nat) returns (ok: bool)
      modifies this`networks
      ensures networks == After(env, old(networks), EditNetwork(id, RemoveParticipant(raw)), now)
      ensures ok <==> Apply(env, old(networks), EditNetwork(id, RemoveParticipant(raw)), now).Done?
    {
      var key := env.parse(raw);
      if key.None? { return false; }
      var index := FindById(id);
      if index == |networks| { return false; }
      var net := networks[index];
      if |net.admins| == 1 && key.value in net.admins { return false; }
      net := net.(participants := Order.Without(net.participants, key.value), admins := Order.Without(net.admins, key.value));
      if net.inviter == key.value { net := net.(inviter := Heir(net.admins)); }
      networks := networks[index := net];
      NoteLocalChange(index, now);
      return true;
    }

    method EnterAdmin(id: string, raw: string, now: nat) returns (added: Option<string>)
      modifies this`networks
      ensures networks == After(env, old(networks), EditNetwork(id, AddAdmin(raw)), now)
      ensures added.Some? <==> Apply(env, old(networks), EditNetwork(id, AddAdmin(raw)), now).Done?
    {
      var key := env.parse(raw);
      if key.None? { return None; }
      var index := FindById(id);
      if index == |networks| { return None; }
      var net := networks[index];
      net := net.(admins := WithKey(net.admins, key.value));
      if net.inviter == "" { net := net.(inviter := key.value); }
      networks := networks[index := net];
      NoteLocalChange(index, now);
      return key;
    }

    method StrikeAdmin(id: string, raw: string, now: nat) returns (ok: bool, struck: bool)
      modifies this`networks
      ensures networks == After(env, old(networks), EditNetwork(id, RemoveAdmin(raw)), now)
      ensures struck <==> ok && Profile.RemovesAnAdmin(old(networks), env, id, raw)
      ensures ok <==> Apply(env, old(networks), EditNetwork(id, RemoveAdmin(raw)), now).Done?
    {
      var key := env.parse(raw);
      if key.None? { return false, false; }
      var index := FindById(id);
      if index == |networks| { return false, false; }
      var net := networks[index];
      if key.value !in net.admins { return true, false; }
      if |net.admins| <= 1 { return false, false; }
      net := net.(admins := Order.Without(net.admins, key.value));
      if net.inviter == key.value { net := net.(inviter := Heir(net.admins)); }
      networks := networks[index := net];
      NoteLocalChange(index, now);
      return true, true;
    }

    method InstallRoster(r: Roster, now: nat) returns (outcome: Outcome)
      modifies this`networks
      ensures outcome == Apply(env, old(networks), ApplyRoster(r), now)
      ensures networks == After(env, old(networks), ApplyRoster(r), now)
    {
      var mesh := RuntimeId(r.meshId);
      if mesh == "" { return Declined; }
      var signer := env.parse(r.signedBy);
      if signer.None? || TooFarAhead(r.signedAt, now) { return Refused; }
      var index := FindByMesh(mesh);
      if index == |networks| { return Declined; }
      var net := networks[index];
      if signer.value !in net.admins || r.signedAt <= net.rosterAt { return Declined; }
      if !AllParse(env.parse, r.participants) { return Refused; }
      var participants := SharedParticipants(env, r.participants);
      var admins := NormalizedAdmins(env, r.admins, net.inviter);
      if admins == [] { return Refused; }
      net := net.(participants := participants, admins := admins);
      if !IsBlank(r.name) { net := net.(name := Trim(r.name)); }
      if net.inviter !in net.admins { net := net.(inviter := signer.value); }
      networks := networks[index := net.(rosterAt := r.signedAt, rosterBy := signer.value)];
      return Done(networks);
    }

    method AppendNetwork(name: string, now: nat) returns (id: string)
      modifies this`networks
      ensures networks == After(env, old(networks), Op.AddNetwork(name), now)
      ensures id !in Ids(old(networks)) && networks != [] && networks[|networks| - 1].id == id
    {
      var ordinal := |networks| + 1;
      var used := Ids(networks);
      id, used := Labels.UniquifyEntryId(Labels.DefaultEntryId(ordinal), used);
      networks := networks + [NewNetwork(id, NameOr(name, ordinal), false)];
    }

    method DropNetwork(id: string, now: nat) returns (ok: bool)
      modifies this`networks
      ensures networks == After(env, old(networks), Op.RemoveNetwork(id), now)
      ensures ok <==> Apply(env, old(networks), Op.RemoveNetwork(id), now).Done?
    {
      if |networks| <= 1 { return false; }
      var rest := WithoutId(networks, id);
      if |rest| == |networks| { return false; }
      if !AnyEnabled(rest) && rest != [] { rest := rest[0 := rest[0].(enabled := true)]; }
      networks := rest;
      return true;
    }

    method Enable(id: string, enabled: bool, now: nat) returns (ok: bool)
      modifies this`networks
      ensures networks == After(env, old(networks), SetEnabled(id, enabled), now)
      ensures ok <==> Apply(env, old(networks), SetEnabled(id, enabled), now).Done?
    {
      var index := FindById(id);
      if index == |networks| { return false; }
      if !enabled { return !networks[index].enabled; }
      for i := 0 to |networks|
        invariant |networks| == |old(networks)|
        invariant forall k :: 0 <= k < i ==> networks[k] == old(networks)[k].(enabled := k == index)
        invariant forall k :: i <= k < |networks| ==> networks[k] == old(networks)[k]
      {
        networks := networks[i := networks[i].(enabled := i == index)];
      }
      assert networks == EnableOnly(old(networks), index);
      return true;
    }

    // ---- The operations ----

    method AddParticipantToNetwork(id: string, raw: string, now: nat) returns (added: Option<string>)
      requires Valid()
      modifies this
      ensures Contents() == Profile.Step(setting, old(Contents()), EditNetwork(id, AddParticipant(raw)), now)
      ensures added.Some? <==> Apply(env, old(networks), EditNetwork(id, AddParticipant(raw)), now).Done?
      ensures added.Some? ==> Profile.ExitIsMember(Contents())
    {
      hide Apply, Profile.SettledExit, Profile.SettledAliases, Profile.InActive;
      added := EnterParticipant(id, raw, now);
      if added.None? { return; }
      NormalizeSelectedExitNode();
      NormalizePeerAliases();
    }

    method RemoveParticipantFromNetwork(id: string, raw: string, now: nat) returns (ok: bool)
      requires Valid()
      modifies this
      ensures Contents() == Profile.Step(setting, old(Contents()), EditNetwork(id, RemoveParticipant(raw)), now)
      ensures ok <==> Apply(env, old(networks), EditNetwork(id, RemoveParticipant(raw)), now).Done?
      ensures ok ==> Profile.ExitIsMember(Contents())
    {
      hide Apply, Profile.SettledExit, Profile.SettledAliases, Profile.InActive;
      ok := StrikeParticipant(id, raw, now);
      if !ok { return; }
      NormalizeSelectedExitNode();
      NormalizePeerAliases();
    }

    /** Settles the exit node but not the alias book. */
    method AddAdminToNetwork(id: string, raw: string, now: nat) returns (added: Option<string>)
      requires Valid()
      modifies this
      ensures Contents() == Profile.Step(setting, old(Contents()), EditNetwork(id, AddAdmin(raw)), now)
      ensures added.Some? <==> Apply(env, old(networks), EditNetwork(id, AddAdmin(raw)), now).Done?
      ensures added.Some? ==> Profile.ExitIsMember(Contents())
    {
      hide Apply, Profile.SettledExit, Profile.SettledAliases, Profile.InActive;
      added := EnterAdmin(id, raw, now);
      if added.Some? { NormalizeSelectedExitNode(); }
    }

    /** Settles the exit node, if an admin was removed, but not the alias book. */
    method RemoveAdminFromNetwork(id: string, raw: string, now: nat) returns (ok: bool)
      requires Valid()
      modifies this
      ensures Contents() == Profile.Step(setting, old(Contents()), EditNetwork(id, RemoveAdmin(raw)), now)
      ensures ok <==> Apply(env, old(networks), EditNetwork(id, RemoveAdmin(raw)), now).Done?
    {
      hide Apply, Profile.SettledExit, Profile.SettledAliases, Profile.RemovesAnAdmin;
      var struck;
      ok, struck := StrikeAdmin(id, raw, now);
      if struck { NormalizeSelectedExitNode(); }
    }

    method ApplyAdminSignedSharedRoster(r: Roster, now: nat) returns (outcome: Outcome)
      requires Valid()
      modifies this
      ensures outcome == Apply(env, old(networks), ApplyRoster(r), now)
      ensures Contents() == Profile.Step(setting, old(Contents()), ApplyRoster(r), now)
      ensures outcome.Done? ==> Profile.ExitIsMember(Contents())
    {
      outcome := InstallRoster(r, now);
      hide Profile.SettledExit, Profile.SettledAliases, Profile.InActive, Profile.RosterAliases;
      if !outcome.Done? { return; }
      var index := FindByMesh(RuntimeId(r.meshId));
      MeshIsFound(env, old(networks), r, now);
      hide Apply, RuntimeId;
      EnterRosterAliases(networks[index], r.aliases);
      NormalizeSelectedExitNode();
      NormalizePeerAliases();
    }

    static lemma {:induction false} MeshIsFound(env: Env, nets: seq<Network>, r: Roster, now: nat)
      requires Apply(env, nets, ApplyRoster(r), now).Done?
      ensures var nets' := Apply(env, nets, ApplyRoster(r), now).nets; IndexByMesh(nets', RuntimeId(r.meshId)) < |nets'|
    {
      hide RuntimeId, AllParse, NormalizedAdmins, SharedParticipants, TooFarAhead;
      var mesh := RuntimeId(r.meshId);
      var index := IndexByMesh(nets, mesh);
      var nets' := Apply(env, nets, ApplyRoster(r), now).nets;
      assert nets'[index].meshId == nets[index].meshId;
      FirstMesh(nets', mesh, index);
    }

    method AddNetwork(name: string, now: nat) returns (id: string)
      requires Valid()
      modifies this
      ensures Contents() == Profile.Step(setting, old(Contents()), Op.AddNetwork(name), now)
      ensures id !in Ids(old(networks)) && networks != [] && networks[|networks| - 1].id == id
    {
      id := AppendNetwork(name, now);
    }

    method RemoveNetwork(id: string, now: nat) returns (ok: bool)
      requires Valid()
      modifies this
      ensures Contents() == Profile.Step(setting, old(Contents()), Op.RemoveNetwork(id), now)
      ensures ok <==> Apply(env, old(networks), Op.RemoveNetwork(id), now).Done?
      ensures ok ==> Profile.ExitIsMember(Contents())
    {
      hide Apply, Profile.SettledExit, Profile.SettledAliases, Profile.InActive;
      ok := DropNetwork(id, now);
      if !ok { return; }
      NormalizeSelectedExitNode();
      NormalizePeerAliases();
    }

    /** Settles nothing, so the exit node may be left behind in the network that was active. */
    method SetNetworkEnabled(id: string, enabled: bool, now: nat) returns (ok: bool)
      requires Valid()
      modifies this
      ensures Contents() == Profile.Step(setting, old(Contents()), SetEnabled(id, enabled), now)
      ensures ok <==> Apply(env, old(networks), SetEnabled(id, enabled), now).Done?
      ensures old(ConfigSafety.OneEnabled(networks)) && old(Profile.ExitIsMember(Contents())) ==>
                (Profile.ExitIsMember(Contents()) <==> !Profile.LeavesExitBehind(old(Contents()), SetEnabled(id, enabled)))
    {
      hide Apply, Profile.ExitIsMember, Profile.LeavesExitBehind, ConfigSafety.OneEnabled;
      ghost var before := Contents();
      ok := Enable(id, enabled, now);
      if ConfigSafety.OneEnabled(before.networks) && Profile.ExitIsMember(before) {
        Profile.ExitStaysMemberExactly(setting, before, SetEnabled(id, enabled), now);
      }
    }

    method EnsureSingleActiveNetwork()
      modifies this`networks
      ensures networks == SingleActive(old(networks))
    {
      ghost var first := FirstEnabled(networks);
      var found := false;
      for i := 0 to |networks|
        invariant |networks| == |old(networks)|
        invariant found <==> first < i
        invariant forall k :: 0 <= k < i ==> networks[k] == old(networks)[k].(enabled := k == first)
        invariant forall k :: i <= k < |networks| ==> networks[k] == old(networks)[k]
      {
        if networks[i].enabled {
          if !found { found := true; } else { networks := networks[i := networks[i].(enabled := false)]; }
        }
      }
      if !found && networks != [] { networks := networks[0 := networks[0].(enabled := true)]; }
      assert networks == SingleActive(old(networks));
    }

    /** `ensure_defaults`, as far as networks, exit node and aliases go. */
    method EnsureDefaults(now: nat)
      requires Valid()
      modifies this
      ensures Contents() == Profile.Step(setting, old(Contents()), FillDefaults, now)
      ensures Profile.ExitIsMember(Contents())
    {
      hide Seeded, CleanAll, SingleActive, DeriveMeshes, Profile.SettledExit, Profile.SettledAliases;
      var key := env.parse(Trim(exitNode));
      exitNode := if key.None? then "" else key.value;
      if Some(exitNode) == env.own { exitNode := ""; }
      assert exitNode == Profile.LoadedExit(env, old(exitNode));
      SeedNetworks();
      CleanNetworks();
      EnsureSingleActiveNetwork();
      DeriveDefaultNetworkIds();
      assert networks == Defaults(env, old(networks));
      NormalizeSelectedExitNode();
      NormalizePeerAliases();
    }

    method SeedNetworks()
      modifies this`networks
      ensures networks == Seeded(old(networks))
    {
      if networks == [] {
        networks := [NewNetwork(Labels.DefaultEntryId(1), DefaultName(1), true)];
      }
    }

    method DeriveDefaultNetworkIds()
      modifies this`networks
      ensures networks == DeriveMeshes(env, old(networks))
    {
      for i := 0 to |networks|
        invariant |networks| == |old(networks)|
        invariant forall k :: 0 <= k < i ==> networks[k] == old(networks)[k].(meshId := env.deriveMesh(old(networks)[k]))
        invariant forall k :: i <= k < |networks| ==> networks[k] == old(networks)[k]
      {
        networks := networks[i := networks[i].(meshId := env.deriveMesh(networks[i]))];
      }
      assert networks == DeriveMeshes(env, old(networks));
    }

    method CleanNetworks()
      modifies this`networks
      ensures networks == CleanAll(env, old(networks))
    {
      ghost var some, all := networks, CleanAll(env, networks);
      var used: set<string> := {};
      NoIdsYet(some);
      for i := 0 to |networks|
        invariant |networks| == |some| == |all|
        invariant used == IdsBefore(some, i)
        invariant forall k :: 0 <= k < i ==> networks[k] == all[k]
        invariant forall k :: i <= k < |networks| ==> networks[k] == some[k]
      {
        used := CleanNetwork(i, used, some);
      }
      assert networks == all;
    }

    /** The ids given to the networks before `i`. */
    static ghost function IdsBefore(some: seq<Network>, i: nat): set<string>
      requires i <= |some|
    {
      Elems(Labels.UniqueIds(WantedIds(some))[..i])
    }

    static lemma NoIdsYet(some: seq<Network>)
      ensures IdsBefore(some, 0) == {}
    {
      assert Labels.UniqueIds(WantedIds(some))[..0] == [];
    }

    /** One round: clean the network at `i` under an id that is not in use yet. */
    method CleanNetwork(i: nat, used: set<string>, ghost some: seq<Network>) returns (used': set<string>)
      requires i < |some| == |networks| && networks[i] == some[i]
      requires used == IdsBefore(some, i)
      modifies this`networks
      ensures networks == old(networks)[i := CleanAll(env, some)[i]]
      ensures used' == IdsBefore(some, i + 1)
    {
      Labels.UniqueIdsAt(WantedIds(some), i);
      Labels.PrefixElems(Labels.UniqueIds(WantedIds(some)), i);
      var id;
      id, used' := Labels.UniquifyEntryId(Labels.EntryId(networks[i].id, i + 1), used);
      networks := networks[i := Cleaned(env, networks[i], i + 1).(id := id)];
    }
  }
}
