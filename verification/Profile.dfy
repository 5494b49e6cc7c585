/** What the operations on networks do to the rest of the configuration: the chosen exit node and
    the alias book, which some of them settle afterwards and others leave as they are. */
module Profile {
  import opened Common
  import opened Order
  import opened Config
  import ConfigSafety
  import Labels
  import Naming

  datatype Profile = Profile(networks: seq<Network>, exitNode: string, aliases: map<string, string>)

  /** The environment of an operation; `list` is the order in which the alias map yields its entries. */
  datatype Setting = Setting(env: Env, world: Naming.World, nodeName: string, list: map<string, string> -> seq<(string, string)>)

  ghost predicate Sound(s: Setting)
  {
    && Config.Sound(s.env) && Naming.Sound(s.world)
    && forall key :: Canonical(s.env.parse, key) ==> Naming.HexKey(key)
  }

  // ---- Members ----

  function AllKeys(nets: seq<Network>): seq<string>
  {
    if nets == [] then [] else nets[0].participants + nets[0].admins + AllKeys(nets[1..])
  }

  /** `all_network_member_pubkeys_hex`. */
  function Members(nets: seq<Network>): seq<string>
  {
    SortDedup(AllKeys(nets))
  }

  predicate Lists(net: Network, key: string)
  {
    key in net.participants || key in net.admins
  }

  ghost predicate IsMember(nets: seq<Network>, key: string)
  {
    exists i :: 0 <= i < |nets| && Lists(nets[i], key)
  }

  lemma {:induction false} AllKeysMeaning(nets: seq<Network>, key: string)
    ensures key in AllKeys(nets) <==> IsMember(nets, key)
  {
    if nets != [] {
      AllKeysMeaning(nets[1..], key);
      if key in AllKeys(nets[1..]) {
        var i :| 0 <= i < |nets| - 1 && Lists(nets[1..][i], key);
        assert Lists(nets[i + 1], key);
      }
      if IsMember(nets, key) {
        var i :| 0 <= i < |nets| && Lists(nets[i], key);
        if i > 0 { assert Lists(nets[1..][i - 1], key); }
      }
    }
  }

  lemma {:induction false} MembersMeaning(nets: seq<Network>, key: string)
    ensures key in Members(nets) <==> IsMember(nets, key)
  {
    hide AllKeys, IsMember, SortDedup;
    AllKeysMeaning(nets, key);
    assert key in AllKeys(nets) <==> key in Elems(AllKeys(nets));
    assert key in Members(nets) <==> key in Elems(Members(nets));
  }

  /** `active_network`: the first enabled one, or else the first. */
  function ActiveIndex(nets: seq<Network>): (i: nat)
    requires nets != []
    ensures i < |nets|
  {
    if FirstEnabled(nets) == |nets| then 0 else FirstEnabled(nets)
  }

  predicate InActive(nets: seq<Network>, key: string)
  {
    nets != [] && Lists(nets[ActiveIndex(nets)], key)
  }

  // ---- Settling ----

  /** `normalize_selected_exit_node`. */
  function SettledExit(nets: seq<Network>, exitNode: string): string
  {
    if exitNode == "" || InActive(nets, exitNode) then exitNode else ""
  }

  /** What loading makes of the exit node before it looks at the networks. */
  function LoadedExit(env: Env, exitNode: string): string
  {
    var key := env.parse(Trim(exitNode));
    if key.None? || key == env.own then "" else key.value
  }

  function SettledAliases(s: Setting, nets: seq<Network>, aliases: map<string, string>): map<string, string>
    requires s.world.animals != []
  {
    Naming.Aliases(s.world, s.list(aliases), Members(nets), s.nodeName)
  }

  /** A roster's aliases for other members of its network enter the book. */
  function RosterAliases(s: Setting, net: Network, entries: seq<(string, string)>, aliases: map<string, string>): map<string, string>
  {
    if entries == [] then aliases
    else
      var before := RosterAliases(s, net, entries[..|entries| - 1], aliases);
      var (raw, text) := entries[|entries| - 1];
      var key, alias := s.env.parse(raw), Labels.NormalizeLabel(text);
      if key.None? || key == s.env.own || !Lists(net, key.value) || alias.None? then before
      else before[s.world.npub(key.value) := alias.value]
  }

  datatype Settling = Nothing | ExitOnly | ExitAndAliases

  /** What an operation that went through settles afterwards. */
  function SettlingOf(nets: seq<Network>, env: Env, op: Op): Settling
  {
    match op
    case EditNetwork(id, AddParticipant(_)) => ExitAndAliases
    case EditNetwork(id, RemoveParticipant(_)) => ExitAndAliases
    case EditNetwork(id, AddAdmin(_)) => ExitOnly
    case EditNetwork(id, RemoveAdmin(raw)) => if RemovesAnAdmin(nets, env, id, raw) then ExitOnly else Nothing
    case ApplyRoster(_) => ExitAndAliases
    case RemoveNetwork(_) => ExitAndAliases
    case FillDefaults => ExitAndAliases
    case _ => Nothing
  }

  /** The key is on the list of admins; otherwise the removal returns at once. */
  predicate RemovesAnAdmin(nets: seq<Network>, env: Env, id: string, raw: string)
  {
    var i := IndexById(nets, id);
    i < |nets| && env.parse(raw).Some? && env.parse(raw).value in nets[i].admins
  }

  function Settled(s: Setting, p: Profile, how: Settling): Profile
    requires s.world.animals != []
  {
    match how
    case Nothing => p
    case ExitOnly => p.(exitNode := SettledExit(p.networks, p.exitNode))
    case ExitAndAliases =>
      p.(exitNode := SettledExit(p.networks, p.exitNode), aliases := SettledAliases(s, p.networks, p.aliases))
  }

  function Entered(s: Setting, nets: seq<Network>, op: Op, aliases: map<string, string>): map<string, string>
  {
    if op.ApplyRoster? && IndexByMesh(nets, RuntimeId(op.roster.meshId)) < |nets|
    then RosterAliases(s, nets[IndexByMesh(nets, RuntimeId(op.roster.meshId))], op.roster.aliases, aliases)
    else aliases
  }

  /** An operation on the whole profile; one that does not go through changes nothing. */
  function Step(s: Setting, p: Profile, op: Op, now: nat): Profile
    requires s.world.animals != []
  {
    match Apply(s.env, p.networks, op, now)
    case Done(nets) =>
      var exitNode := if op.FillDefaults? then LoadedExit(s.env, p.exitNode) else p.exitNode;
      Settled(s, Profile(nets, exitNode, Entered(s, nets, op, p.aliases)), SettlingOf(p.networks, s.env, op))
    case _ => p
  }

  function Run(s: Setting, p: Profile, ops: seq<Timed>): Profile
    requires s.world.animals != []
  {
    if ops == [] then p
    else
      var last := |ops| - 1;
      Step(s, Run(s, p, ops[..last]), ops[last].op, ops[last].now)
  }

  lemma {:induction false} RunIsConfigRun(s: Setting, p: Profile, ops: seq<Timed>)
    requires s.world.animals != []
    ensures Run(s, p, ops).networks == Config.Run(s.env, p.networks, ops)
  {
    if ops != [] {
      hide Apply;
      RunIsConfigRun(s, p, ops[..|ops| - 1]);
    }
  }

  // ---- The exit node ----

  /** Nobody is chosen, or a key of the active network. */
  predicate ExitIsMember(p: Profile)
  {
    p.exitNode == "" || InActive(p.networks, p.exitNode)
  }

  /** Another network becomes active that does not list the chosen exit node. */
  predicate LeavesExitBehind(p: Profile, op: Op)
  {
    && op.SetEnabled? && op.enabled && p.exitNode != ""
    && IndexById(p.networks, op.id) < |p.networks|
    && !Lists(p.networks[IndexById(p.networks, op.id)], p.exitNode)
  }

  lemma {:induction false} OneIsActive(nets: seq<Network>, i: nat)
    requires ConfigSafety.OnlyEnabled(nets, i)
    ensures nets != [] && ActiveIndex(nets) == i
  {
    assert nets[i].enabled;
    assert FirstEnabled(nets) <= i;
  }

  /** An edit that settles nothing keeps the key lists of its network. */
  lemma {:induction false} QuietEditKeepsLists(s: Setting, nets: seq<Network>, id: string, edit: Edit, now: nat)
    requires Apply(s.env, nets, EditNetwork(id, edit), now).Done? && SettlingOf(nets, s.env, EditNetwork(id, edit)).Nothing?
    ensures var nets' := Apply(s.env, nets, EditNetwork(id, edit), now).nets;
            var i := IndexById(nets, id);
            && i < |nets| && |nets'| == |nets| && (forall j :: 0 <= j < |nets| && j != i ==> nets'[j] == nets[j])
            && nets'[i].enabled == nets[i].enabled && nets'[i].participants == nets[i].participants && nets'[i].admins == nets[i].admins
  {
    hide Trim, IsBlank, WithKey, Without, NextRosterAt;
  }

  /** Operations that settle nothing keep who is listed in the active network, except that enabling
      one makes it the active one. */
  lemma {:induction false} QuietOpsKeepActive(s: Setting, nets: seq<Network>, op: Op, now: nat, key: string)
    requires ConfigSafety.OneEnabled(nets) && Apply(s.env, nets, op, now).Done?
    requires SettlingOf(nets, s.env, op).Nothing?
    ensures var nets' := Apply(s.env, nets, op, now).nets;
            InActive(nets', key) <==>
              if op.SetEnabled? && op.enabled then Lists(nets[IndexById(nets, op.id)], key) else InActive(nets, key)
  {
    hide Trim, RuntimeId, NameOr, Labels.UniqueId, Defaults, ApplyRosterTo, Edited, RemovesAnAdmin;
    var i :| ConfigSafety.OnlyEnabled(nets, i);
    OneIsActive(nets, i);
    var nets' := Apply(s.env, nets, op, now).nets;
    match op
    case SetEnabled(id, enabled) =>
      if enabled { OneIsActive(nets', IndexById(nets, id)); }
    case EditNetwork(id, edit) =>
      QuietEditKeepsLists(s, nets, id, edit, now);
      SameEnabled(nets, nets', i);
    case AddNetwork(_) => SameEnabled(nets, nets', i);
    case SetMeshId(_, _) => SameEnabled(nets, nets', i);
    case _ =>
  }

  lemma SameEnabled(nets: seq<Network>, nets': seq<Network>, i: nat)
    requires ConfigSafety.OnlyEnabled(nets, i) && |nets| <= |nets'|
    requires forall j :: 0 <= j < |nets'| ==> nets'[j].enabled == (j < |nets| && nets[j].enabled)
    ensures nets' != [] && ActiveIndex(nets') == i
  {
    OneIsActive(nets', i);
  }

  /** A profile whose exit node is a member keeps that exactly unless the operation activates a
      network that does not list it: `set_network_enabled` does not look at the exit node. */
  lemma {:induction false} ExitStaysMemberExactly(s: Setting, p: Profile, op: Op, now: nat)
    requires s.world.animals != [] && ConfigSafety.OneEnabled(p.networks) && ExitIsMember(p)
    ensures ExitIsMember(Step(s, p, op, now)) <==> !LeavesExitBehind(p, op)
  {
    hide InActive, ConfigSafety.OneEnabled, SettledAliases, Entered, Lists;
    if Apply(s.env, p.networks, op, now).Done? {
      if SettlingOf(p.networks, s.env, op).Nothing? {
        hide Apply;
        QuietOpsKeepActive(s, p.networks, op, now, p.exitNode);
      }
    }
  }

  /** An operation that settles the exit node leaves one that is a member, whatever it found, and keeps one that
      is a member afterwards. */
  lemma {:induction false} SettlingRestoresExit(s: Setting, p: Profile, op: Op, now: nat)
    requires s.world.animals != [] && Apply(s.env, p.networks, op, now).Done?
    requires !SettlingOf(p.networks, s.env, op).Nothing?
    ensures ExitIsMember(Step(s, p, op, now))
    ensures var after := Step(s, p, op, now);
            !op.FillDefaults? ==> (after.exitNode == p.exitNode <==> p.exitNode == "" || InActive(after.networks, p.exitNode))
  {
    hide InActive, Apply, SettledAliases, Entered;
  }

  /** Loading keeps an exit node exactly if its text names a key other than this node's that the active network
      then lists. */
  lemma {:induction false} LoadingKeepsExitExactly(s: Setting, p: Profile, now: nat, key: string)
    requires s.world.animals != [] && key != ""
    ensures var after := Step(s, p, FillDefaults, now);
            after.exitNode == key <==>
              s.env.parse(Trim(p.exitNode)) == Some(key) && s.env.own != Some(key) && InActive(after.networks, key)
  {
    hide Defaults, SettledAliases, InActive, Trim;
  }

  // ---- Aliases that come with a roster ----

  /** The label that an entry of a roster gives to an npub, if it names another member of the network. */
  function EntryLabel(s: Setting, net: Network, entry: (string, string), npub: string): Option<string>
  {
    match s.env.parse(entry.0)
    case None => None
    case Some(key) =>
      if s.env.own != Some(key) && (key in net.participants || key in net.admins) && s.world.npub(key) == npub
      then Labels.NormalizeLabel(entry.1) else None
  }

  /** The labels that the entries give, one by one. */
  function LabelsFor(s: Setting, net: Network, entries: seq<(string, string)>, npub: string): (r: seq<Option<string>>)
    ensures |r| == |entries| && forall j :: 0 <= j < |r| ==> r[j] == EntryLabel(s, net, entries[j], npub)
  {
    seq(|entries|, j requires 0 <= j < |entries| => EntryLabel(s, net, entries[j], npub))
  }

  /** The last label given, or what was there if none is. */
  ghost predicate IsLastGiven(given: seq<Option<string>>, was: Option<string>, now: Option<string>)
  {
    || (now == was && forall j :: 0 <= j < |given| ==> given[j] == None)
    || exists j: nat :: IsLastSome(given, j) && given[j] == now
  }

  ghost predicate IsLastSome(given: seq<Option<string>>, j: nat)
  {
    j < |given| && given[j].Some? && forall k :: j < k < |given| ==> given[k] == None
  }

  lemma LastGivenSnoc(given: seq<Option<string>>, last: Option<string>, was: Option<string>, mid: Option<string>)
    requires IsLastGiven(given, was, mid)
    ensures IsLastGiven(given + [last], was, if last.Some? then last else mid)
  {
    var longer := given + [last];
    if last.Some? {
      assert IsLastSome(longer, |given|);
    } else if j: nat :| IsLastSome(given, j) && given[j] == mid {
      assert IsLastSome(longer, j);
    }
  }

  /** The aliases of a roster enter the book for other members of its network, the last one for each. */
  lemma {:induction false} RosterAliasesExactly(s: Setting, net: Network, entries: seq<(string, string)>, aliases: map<string, string>, npub: string)
    ensures IsLastGiven(LabelsFor(s, net, entries, npub), Lookup(aliases, npub), Lookup(RosterAliases(s, net, entries, aliases), npub))
  {
    if entries != [] {
      var last := |entries| - 1;
      RosterAliasesExactly(s, net, entries[..last], aliases, npub);
      EntersLast(s, net, entries, aliases, npub);
      hide EntryLabel, RosterAliases, IsLastGiven;
      var given := LabelsFor(s, net, entries[..last], npub);
      LastGivenSnoc(given, EntryLabel(s, net, entries[last], npub), Lookup(aliases, npub),
                    Lookup(RosterAliases(s, net, entries[..last], aliases), npub));
      assert LabelsFor(s, net, entries, npub) == given + [EntryLabel(s, net, entries[last], npub)];
    }
  }

  lemma EntersLast(s: Setting, net: Network, entries: seq<(string, string)>, aliases: map<string, string>, npub: string)
    requires entries != []
    ensures var last := |entries| - 1;
            var given := EntryLabel(s, net, entries[last], npub);
            Lookup(RosterAliases(s, net, entries, aliases), npub) ==
              if given.Some? then given else Lookup(RosterAliases(s, net, entries[..last], aliases), npub)
  {
    hide Labels.NormalizeLabel;
  }

  /** No step of the run leaves the exit node behind. */
  predicate NeverLeavesExit(s: Setting, p: Profile, ops: seq<Timed>)
    requires s.world.animals != []
  {
    ops == [] || (NeverLeavesExit(s, p, ops[..|ops| - 1]) && !LeavesExitBehind(Run(s, p, ops[..|ops| - 1]), ops[|ops| - 1].op))
  }

  /** The exit node is a member at the end of the run and at every point of it. */
  predicate AlwaysMember(s: Setting, p: Profile, ops: seq<Timed>)
    requires s.world.animals != []
  {
    ExitIsMember(Run(s, p, ops)) && (ops == [] || AlwaysMember(s, p, ops[..|ops| - 1]))
  }

  /** Over runs from a safe profile the chosen exit node is a member of the active network
      throughout exactly if no step activates a network without it. */
  lemma {:induction false} RunsKeepExitExactly(s: Setting, p: Profile, ops: seq<Timed>)
    requires Sound(s) && ConfigSafety.Safe(s.env, p.networks) && ExitIsMember(p)
    ensures AlwaysMember(s, p, ops) <==> NeverLeavesExit(s, p, ops)
  {
    if ops != [] {
      hide Step, ExitIsMember, LeavesExitBehind, ConfigSafety.DistinctIds, ConfigSafety.OneEnabled, ConfigSafety.WellFormed, Config.Sound, Naming.Sound;
      var last := |ops| - 1;
      RunsKeepExitExactly(s, p, ops[..last]);
      RunIsConfigRun(s, p, ops[..last]);
      ConfigSafety.RunsAreSafe(s.env, p.networks, ops[..last]);
      if AlwaysMember(s, p, ops[..last]) {
        AlwaysEnds(s, p, ops[..last]);
        ExitStaysMemberExactly(s, Run(s, p, ops[..last]), ops[last].op, ops[last].now);
      }
    }
  }

  lemma AlwaysEnds(s: Setting, p: Profile, ops: seq<Timed>)
    requires s.world.animals != [] && AlwaysMember(s, p, ops)
    ensures ExitIsMember(Run(s, p, ops))
  {
  }

  // ---- The alias book ----

  /** The member has a valid label that is not this node's. */
  ghost predicate IsLabelled(s: Setting, aliases: map<string, string>, m: string)
  {
    && s.world.npub(m) in aliases && Labels.ValidLabel(aliases[s.world.npub(m)])
    && Labels.NormalizeLabel(s.nodeName) != Some(aliases[s.world.npub(m)])
  }

  ghost predicate Apart(s: Setting, aliases: map<string, string>, m: string, n: string)
  {
    s.world.npub(m) in aliases && s.world.npub(n) in aliases && aliases[s.world.npub(m)] != aliases[s.world.npub(n)]
  }

  ghost predicate IsNpubOfMember(s: Setting, nets: seq<Network>, npub: string)
  {
    exists m :: IsMember(nets, m) && s.world.npub(m) == npub
  }

  /** Every member, and nobody else, has a label; labels are valid, differ, and are not this node's. */
  ghost predicate BookFits(s: Setting, p: Profile)
  {
    && (forall m :: IsMember(p.networks, m) ==> IsLabelled(s, p.aliases, m))
    && (forall m, n :: IsMember(p.networks, m) && IsMember(p.networks, n) && m != n ==> Apart(s, p.aliases, m, n))
    && (forall npub :: npub in p.aliases ==> IsNpubOfMember(s, p.networks, npub))
  }

  lemma {:induction false} SafeMembersAreKeys(s: Setting, nets: seq<Network>, m: string)
    requires Sound(s) && ConfigSafety.Safe(s.env, nets) && IsMember(nets, m)
    ensures Naming.HexKey(m)
  {
    hide Naming.Sound, Config.Sound, Naming.HexKey, Order.Sorted;
    var i :| 0 <= i < |nets| && Lists(nets[i], m);
    assert ConfigSafety.WellFormed(s.env, nets[i]);
    assert Canonical(s.env.parse, m);
  }

  lemma AllMembersAreKeys(s: Setting, nets: seq<Network>)
    requires Sound(s) && ConfigSafety.Safe(s.env, nets)
    ensures forall m :: IsMember(nets, m) ==> Naming.HexKey(m)
  {
    hide Sound, ConfigSafety.Safe, IsMember, Naming.HexKey;
    forall m | IsMember(nets, m) ensures Naming.HexKey(m) { SafeMembersAreKeys(s, nets, m); }
  }

  lemma {:induction false} MembersAreConfigured(s: Setting, nets: seq<Network>)
    requires Sound(s) && ConfigSafety.Safe(s.env, nets) && |Members(nets)| <= Naming.MEMBER_LIMIT
    ensures Naming.Configured(s.world, Members(nets))
  {
    hide AllKeys, SortDedup, Naming.Sound, Config.Sound, Naming.HexKey, ConfigSafety.Safe, IsMember;
    SortDedupSorted(AllKeys(nets));
    SortedDistinct(Members(nets));
    forall m | m in Members(nets) ensures Naming.HexKey(m) {
      MembersMeaning(nets, m);
      SafeMembersAreKeys(s, nets, m);
    }
  }

  lemma {:induction false} SettledMember(s: Setting, nets: seq<Network>, aliases: map<string, string>, m: string)
    requires Naming.Configured(s.world, Members(nets)) && IsMember(nets, m)
    ensures IsLabelled(s, SettledAliases(s, nets, aliases), m)
  {
    hide Members, Naming.Aliases, Naming.Configured, Labels.ValidLabel, Labels.NormalizeLabel, IsMember;
    MembersMeaning(nets, m);
    Naming.AliasIsValid(s.world, s.list(aliases), Members(nets), s.nodeName, m);
  }

  lemma {:induction false} SettledPair(s: Setting, nets: seq<Network>, aliases: map<string, string>, m: string, n: string)
    requires Naming.Configured(s.world, Members(nets)) && IsMember(nets, m) && IsMember(nets, n) && m != n
    ensures Apart(s, SettledAliases(s, nets, aliases), m, n)
  {
    hide Members, Naming.Aliases, Naming.Configured, Labels.ValidLabel, IsMember;
    MembersMeaning(nets, m);
    MembersMeaning(nets, n);
    Naming.AliasesAreInjective(s.world, s.list(aliases), Members(nets), s.nodeName, m, n);
  }

  lemma {:induction false} SettledEntry(s: Setting, nets: seq<Network>, aliases: map<string, string>, npub: string)
    requires Naming.Configured(s.world, Members(nets)) && npub in SettledAliases(s, nets, aliases)
    ensures IsNpubOfMember(s, nets, npub)
  {
    hide Members, Naming.Aliases, Naming.Configured, IsMember;
    Naming.BookHoldsMembers(s.world, s.list(aliases), Members(nets), s.nodeName, npub);
    var m :| m in Members(nets) && npub == s.world.npub(m);
    MembersMeaning(nets, m);
  }

  /** Settling the aliases makes the book fit, whatever it was, for up to 9,997 members. */
  lemma {:induction false} SettledBookFits(s: Setting, p: Profile, aliases: map<string, string>)
    requires Sound(s) && ConfigSafety.Safe(s.env, p.networks) && |Members(p.networks)| <= Naming.MEMBER_LIMIT
    requires p.aliases == SettledAliases(s, p.networks, aliases)
    ensures BookFits(s, p)
  {
    MembersAreConfigured(s, p.networks);
    hide Sound, ConfigSafety.Safe, Naming.Configured, SettledAliases, IsMember, IsLabelled, Apart, IsNpubOfMember;
    forall m | IsMember(p.networks, m) ensures IsLabelled(s, p.aliases, m) { SettledMember(s, p.networks, aliases, m); }
    forall m, n | IsMember(p.networks, m) && IsMember(p.networks, n) && m != n ensures Apart(s, p.aliases, m, n) {
      SettledPair(s, p.networks, aliases, m, n);
    }
    forall npub | npub in p.aliases ensures IsNpubOfMember(s, p.networks, npub) { SettledEntry(s, p.networks, aliases, npub); }
  }

  /** An edit of the admins alone gains a key that no network listed, or loses one that none lists
      any more. Adding and removing an admin do not settle the alias book. */
  ghost predicate ChangesMembersQuietly(s: Setting, nets: seq<Network>, op: Op)
  {
    && op.EditNetwork?
    && var i := IndexById(nets, op.id);
       && i < |nets|
       && (|| (op.edit.AddAdmin? && s.env.parse(op.edit.key).Some? && !IsMember(nets, s.env.parse(op.edit.key).value))
           || (op.edit.RemoveAdmin? && RemovesAnAdmin(nets, s.env, op.id, op.edit.key) && |nets[i].admins| > 1
               && OnlyAdminOf(nets, i, s.env.parse(op.edit.key).value)))
  }

  /** The key is an admin of network `i` and listed nowhere else. */
  predicate OnlyAdminOf(nets: seq<Network>, i: nat, key: string)
  {
    && i < |nets| && key in nets[i].admins && key !in nets[i].participants
    && forall j :: 0 <= j < |nets| && j != i ==> !Lists(nets[j], key)
  }

  ghost predicate SameMembers(a: seq<Network>, b: seq<Network>)
  {
    forall m :: IsMember(a, m) <==> IsMember(b, m)
  }

  lemma {:induction false} MembersAfterReplace(nets: seq<Network>, i: nat, net: Network, m: string)
    requires i < |nets|
    ensures IsMember(nets[i := net], m) <==> Lists(net, m) || exists j :: 0 <= j < |nets| && j != i && Lists(nets[j], m)
  {
    var after := nets[i := net];
    if Lists(net, m) { assert Lists(after[i], m); }
    if j :| 0 <= j < |nets| && j != i && Lists(nets[j], m) { assert Lists(after[j], m); }
  }

  lemma {:induction false} MembersSplit(nets: seq<Network>, i: nat, m: string)
    requires i < |nets|
    ensures IsMember(nets, m) <==> Lists(nets[i], m) || exists j :: 0 <= j < |nets| && j != i && Lists(nets[j], m)
  {
    MembersAfterReplace(nets, i, nets[i], m);
    assert nets[i := nets[i]] == nets;
  }

  /** A replaced network that lists the same keys leaves the members alone. */
  lemma {:induction false} ReplaceKeepsMembers(nets: seq<Network>, i: nat, net: Network)
    requires i < |nets| && forall m :: Lists(net, m) <==> Lists(nets[i], m)
    ensures SameMembers(nets[i := net], nets)
  {
    hide IsMember, Lists;
    forall m ensures IsMember(nets[i := net], m) <==> IsMember(nets, m) {
      MembersAfterReplace(nets, i, net, m);
      MembersSplit(nets, i, m);
    }
  }

  lemma {:induction false} AddAdminMembers(s: Setting, nets: seq<Network>, id: string, raw: string, now: nat)
    requires Config.Sound(s.env) && ConfigSafety.Safe(s.env, nets) && Apply(s.env, nets, EditNetwork(id, AddAdmin(raw)), now).Done?
    ensures var nets' := Apply(s.env, nets, EditNetwork(id, AddAdmin(raw)), now).nets;
            SameMembers(nets', nets) <==> !ChangesMembersQuietly(s, nets, EditNetwork(id, AddAdmin(raw)))
  {
    var i, key := IndexById(nets, id), s.env.parse(raw).value;
    var net := Edited(s.env, nets[i], AddAdmin(raw), now).value;
    ConfigSafety.WithKeyClean(s.env.parse, nets[i].admins, key);
    ConfigSafety.InElems(nets[i].admins);
    ConfigSafety.InElems(WithKey(nets[i].admins, key));
    assert forall m :: Lists(net, m) <==> Lists(nets[i], m) || m == key;
    hide IsMember, Lists, Edited, WithKey;
    forall m ensures IsMember(nets[i := net], m) <==> IsMember(nets, m) || m == key {
      MembersAfterReplace(nets, i, net, m);
      MembersSplit(nets, i, m);
    }
  }

  lemma {:induction false} RemoveAdminMembers(s: Setting, nets: seq<Network>, id: string, raw: string, now: nat)
    requires Apply(s.env, nets, EditNetwork(id, RemoveAdmin(raw)), now).Done?
    ensures var nets' := Apply(s.env, nets, EditNetwork(id, RemoveAdmin(raw)), now).nets;
            SameMembers(nets', nets) <==> !ChangesMembersQuietly(s, nets, EditNetwork(id, RemoveAdmin(raw)))
  {
    var i, key := IndexById(nets, id), s.env.parse(raw).value;
    var net := Edited(s.env, nets[i], RemoveAdmin(raw), now).value;
    if key !in nets[i].admins {
      ReplaceKeepsMembers(nets, i, net);
    } else {
      ConfigSafety.InElems(nets[i].admins);
      ConfigSafety.InElems(Without(nets[i].admins, key));
      assert forall m :: Lists(net, m) <==> m in nets[i].participants || (m in nets[i].admins && m != key);
      hide Edited, Without;
      forall m ensures m != key ==> (IsMember(nets[i := net], m) <==> IsMember(nets, m)) {
        MembersAfterReplace(nets, i, net, m);
        MembersSplit(nets, i, m);
      }
      MembersAfterReplace(nets, i, net, key);
      MembersSplit(nets, i, key);
    }
  }

  /** Every other operation that does not settle the alias book keeps the members. */
  lemma {:induction false} QuietOpsKeepMembers(s: Setting, nets: seq<Network>, op: Op, now: nat)
    requires Config.Sound(s.env) && ConfigSafety.Safe(s.env, nets) && Apply(s.env, nets, op, now).Done?
    requires !SettlingOf(nets, s.env, op).ExitAndAliases?
    ensures SameMembers(Apply(s.env, nets, op, now).nets, nets) <==> !ChangesMembersQuietly(s, nets, op)
  {
    var nets' := Apply(s.env, nets, op, now).nets;
    match op
    case EditNetwork(id, AddAdmin(raw)) => AddAdminMembers(s, nets, id, raw, now);
    case EditNetwork(id, RemoveAdmin(raw)) => RemoveAdminMembers(s, nets, id, raw, now);
    case EditNetwork(id, Rename(_)) => ReplaceKeepsMembers(nets, IndexById(nets, id), nets'[IndexById(nets, id)]);
    case EditNetwork(id, Touch) => ReplaceKeepsMembers(nets, IndexById(nets, id), nets'[IndexById(nets, id)]);
    case SetMeshId(id, _) => ReplaceKeepsMembers(nets, IndexById(nets, id), nets'[IndexById(nets, id)]);
    case SetEnabled(_, _) => SameListsSameMembers(nets', nets);
    case AddNetwork(_) => EmptyNetworkAddsNobody(nets, nets'[|nets|]);
    case _ =>
  }

  lemma SameListsSameMembers(a: seq<Network>, b: seq<Network>)
    requires |a| == |b| && forall i :: 0 <= i < |a| ==> a[i].participants == b[i].participants && a[i].admins == b[i].admins
    ensures SameMembers(a, b)
  {
    forall m ensures IsMember(a, m) <==> IsMember(b, m) {
      if IsMember(a, m) { var i :| 0 <= i < |a| && Lists(a[i], m); assert Lists(b[i], m); }
      if IsMember(b, m) { var i :| 0 <= i < |b| && Lists(b[i], m); assert Lists(a[i], m); }
    }
  }

  lemma EmptyNetworkAddsNobody(nets: seq<Network>, net: Network)
    requires net.participants == [] && net.admins == []
    ensures SameMembers(nets + [net], nets)
  {
    forall m ensures IsMember(nets + [net], m) <==> IsMember(nets, m) {
      if IsMember(nets, m) { var i :| 0 <= i < |nets| && Lists(nets[i], m); assert Lists((nets + [net])[i], m); }
    }
  }

  /** A book that fits still fits exactly when the members are the same. */
  lemma {:induction false} SameBookFitsExactly(s: Setting, p: Profile, q: Profile)
    requires Naming.Sound(s.world) && BookFits(s, p) && p.aliases == q.aliases
    requires forall m :: IsMember(p.networks, m) || IsMember(q.networks, m) ==> Naming.HexKey(m)
    ensures BookFits(s, q) <==> SameMembers(q.networks, p.networks)
  {
    hide IsMember, Labels.ValidLabel, Labels.NormalizeLabel, Naming.HexKey;
    if BookFits(s, q) {
      forall m ensures IsMember(q.networks, m) <==> IsMember(p.networks, m) {
        if IsMember(q.networks, m) {
          assert IsLabelled(s, q.aliases, m);
          assert IsNpubOfMember(s, p.networks, s.world.npub(m));
        }
        if IsMember(p.networks, m) {
          assert IsLabelled(s, p.aliases, m);
          assert IsNpubOfMember(s, q.networks, s.world.npub(m));
        }
      }
    }
    if SameMembers(q.networks, p.networks) {
      forall npub | npub in q.aliases ensures IsNpubOfMember(s, q.networks, npub) {
        assert IsNpubOfMember(s, p.networks, npub);
      }
    }
  }

  lemma {:induction false} SettlingStepFits(s: Setting, p: Profile, op: Op, now: nat)
    requires Sound(s) && ConfigSafety.Safe(s.env, Step(s, p, op, now).networks)
    requires |Members(Step(s, p, op, now).networks)| <= Naming.MEMBER_LIMIT
    requires Apply(s.env, p.networks, op, now).Done? && SettlingOf(p.networks, s.env, op).ExitAndAliases?
    ensures BookFits(s, Step(s, p, op, now))
  {
    var after := Step(s, p, op, now);
    hide BookFits, Apply, Entered, Members, ConfigSafety.Safe, SettledAliases, SettledExit, LoadedExit, SettlingOf, Config.Sound, Naming.Sound;
    SettledBookFits(s, after, Entered(s, after.networks, op, p.aliases));
  }

  lemma {:induction false} QuietStepFitsExactly(s: Setting, p: Profile, op: Op, now: nat)
    requires Sound(s) && ConfigSafety.Safe(s.env, p.networks) && BookFits(s, p)
    requires Apply(s.env, p.networks, op, now).Done? && !SettlingOf(p.networks, s.env, op).ExitAndAliases?
    ensures BookFits(s, Step(s, p, op, now)) <==> !ChangesMembersQuietly(s, p.networks, op)
  {
    var after := Step(s, p, op, now);
    assert Entered(s, after.networks, op, p.aliases) == p.aliases;
    assert after.aliases == p.aliases;
    hide BookFits, Apply, SameMembers, ConfigSafety.Safe, ChangesMembersQuietly, Step;
    QuietOpsKeepMembers(s, p.networks, op, now);
    StepsAsConfig(s, p, op, now);
    ConfigSafety.StepKeepsSafe(s.env, p.networks, op, now);
    AllMembersAreKeys(s, p.networks);
    AllMembersAreKeys(s, after.networks);
    SameBookFitsExactly(s, p, after);
  }

  lemma StepsAsConfig(s: Setting, p: Profile, op: Op, now: nat)
    requires s.world.animals != [] && Apply(s.env, p.networks, op, now).Done?
    ensures Step(s, p, op, now).networks == Apply(s.env, p.networks, op, now).nets == After(s.env, p.networks, op, now)
  {
    hide Apply;
  }

  /** An unsettled change of members is never refused; a refused operation changes nothing. */
  lemma {:induction false} QuietChangesGoThrough(s: Setting, p: Profile, op: Op, now: nat)
    requires s.world.animals != []
    ensures ChangesMembersQuietly(s, p.networks, op) ==>
              Apply(s.env, p.networks, op, now).Done? && !SettlingOf(p.networks, s.env, op).ExitAndAliases?
    ensures !Apply(s.env, p.networks, op, now).Done? ==> Step(s, p, op, now) == p
  {
    hide Bump, WithKey, Without, IsMember, OnlyAdminOf, Settled, Entered, ApplyRosterTo;
  }

  /** A fitting alias book fits after an operation exactly unless the operation adds an admin whom no
      network listed, or removes one whom none lists any more: those do not settle the book. */
  lemma {:induction false} BookStaysFittingExactly(s: Setting, p: Profile, op: Op, now: nat)
    requires Sound(s) && ConfigSafety.Safe(s.env, p.networks) && BookFits(s, p)
    requires |Members(Step(s, p, op, now).networks)| <= Naming.MEMBER_LIMIT
    ensures BookFits(s, Step(s, p, op, now)) <==> !ChangesMembersQuietly(s, p.networks, op)
  {
    assert s.world.animals != [];
    hide Step, BookFits, Apply, Members, ConfigSafety.Safe, ChangesMembersQuietly, SettlingOf, Config.Sound, Naming.Sound;
    QuietChangesGoThrough(s, p, op, now);
    if !Apply(s.env, p.networks, op, now).Done? {
    } else if SettlingOf(p.networks, s.env, op).ExitAndAliases? {
      ConfigSafety.StepKeepsSafe(s.env, p.networks, op, now);
      StepsAsConfig(s, p, op, now);
      SettlingStepFits(s, p, op, now);
    } else {
      QuietStepFitsExactly(s, p, op, now);
    }
  }

  /** No step of the run changes the members without settling the book. */
  ghost predicate NeverChangesQuietly(s: Setting, p: Profile, ops: seq<Timed>)
    requires s.world.animals != []
  {
    ops == [] || (NeverChangesQuietly(s, p, ops[..|ops| - 1])
                  && !ChangesMembersQuietly(s, Run(s, p, ops[..|ops| - 1]).networks, ops[|ops| - 1].op))
  }

  /** The book fits at the end of the run and at every point of it. */
  ghost predicate AlwaysFits(s: Setting, p: Profile, ops: seq<Timed>)
    requires s.world.animals != []
  {
    BookFits(s, Run(s, p, ops)) && (ops == [] || AlwaysFits(s, p, ops[..|ops| - 1]))
  }

  ghost predicate AlwaysFew(s: Setting, p: Profile, ops: seq<Timed>)
    requires s.world.animals != []
  {
    |Members(Run(s, p, ops).networks)| <= Naming.MEMBER_LIMIT && (ops == [] || AlwaysFew(s, p, ops[..|ops| - 1]))
  }

  lemma AlwaysFitsAtEnd(s: Setting, p: Profile, ops: seq<Timed>)
    requires s.world.animals != [] && AlwaysFits(s, p, ops)
    ensures BookFits(s, Run(s, p, ops))
  {
  }

  lemma {:induction false} RunKeepsSafe(s: Setting, p: Profile, ops: seq<Timed>)
    requires Sound(s) && ConfigSafety.Safe(s.env, p.networks)
    ensures ConfigSafety.Safe(s.env, Run(s, p, ops).networks)
  {
    hide ConfigSafety.Safe, Run;
    RunIsConfigRun(s, p, ops);
    ConfigSafety.RunsAreSafe(s.env, p.networks, ops);
  }

  /** Over runs that never list more than 9,997 members, a fitting alias book fits throughout exactly
      if no step changes the members without settling the book. */
  lemma {:induction false} RunsKeepBookExactly(s: Setting, p: Profile, ops: seq<Timed>)
    requires Sound(s) && ConfigSafety.Safe(s.env, p.networks) && BookFits(s, p) && AlwaysFew(s, p, ops)
    ensures AlwaysFits(s, p, ops) <==> NeverChangesQuietly(s, p, ops)
  {
    if ops != [] {
      hide Step, BookFits, Members, ChangesMembersQuietly, ConfigSafety.Safe, Config.Sound, Naming.Sound;
      var last := |ops| - 1;
      RunsKeepBookExactly(s, p, ops[..last]);
      RunKeepsSafe(s, p, ops[..last]);
      if AlwaysFits(s, p, ops[..last]) {
        AlwaysFitsAtEnd(s, p, ops[..last]);
        BookStaysFittingExactly(s, Run(s, p, ops[..last]), ops[last].op, ops[last].now);
      }
    }
  }
}
