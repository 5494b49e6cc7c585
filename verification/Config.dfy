/** Networks and their admin-signed rosters: local edits, remote rosters, and the
    normalisation that loading a configuration performs. */
module Config {
  import opened Common
  import opened Order
  import Labels
  import Decimal

  const U64_MAX: nat := 0xFFFF_FFFF_FFFF_FFFF
  const MAX_ROSTER_FUTURE: nat := 600
  const DEFAULT_MESH: string := "nostr-vpn"
  const LEGACY_MESH_PREFIX: string := "nostr-vpn:"

  /** The foreign key library: `normalize_nostr_pubkey`, which fails on text that is no public
      key and otherwise returns its canonical hexadecimal form. */
  type Parser = string -> Option<string>

  /** What is assumed of it: canonical forms are fixed points, and the empty text is no key. */
  ghost predicate Canonicalises(parse: Parser)
  {
    parse("").None? && forall s :: parse(s).Some? ==> parse(parse(s).value) == parse(s)
  }

  predicate Canonical(parse: Parser, key: string)
  {
    parse(key) == Some(key)
  }

  datatype Network = Network(
    id: string,
    name: string,
    enabled: bool,
    meshId: string,
    participants: seq<string>,
    admins: seq<string>,
    inviter: string,
    rosterAt: nat,
    rosterBy: string)

  /** The environment of an edit: the key parser, this node's own key if it has one, and the
      mesh id derived for a network that still has the default one. */
  datatype Env = Env(parse: Parser, own: Option<string>, deriveMesh: Network -> string)

  ghost predicate Sound(env: Env)
  {
    && Canonicalises(env.parse)
    && (env.own.Some? ==> Canonical(env.parse, env.own.value))
  }

  function RuntimeId(value: string): string
  {
    var trimmed := Trim(value);
    var n := |LEGACY_MESH_PREFIX|;
    if |trimmed| >= n && trimmed[..n] == LEGACY_MESH_PREFIX then trimmed[n..] else trimmed
  }

  // ---- Key lists ----

  /** The keys of a list that parse, in canonical form. */
  function Parsed(parse: Parser, keys: seq<string>): seq<string>
  {
    if keys == [] then []
    else (if parse(keys[0]).Some? then [parse(keys[0]).value] else []) + Parsed(parse, keys[1..])
  }

  predicate AllParse(parse: Parser, keys: seq<string>)
  {
    forall k :: k in keys ==> parse(k).Some?
  }

  function NormalizedAdmins(env: Env, admins: seq<string>, inviter: string): seq<string>
  {
    var keys := SortDedup(Parsed(env.parse, admins));
    if keys != [] then keys
    else if env.parse(inviter).Some? then [env.parse(inviter).value]
    else if env.own.Some? then [env.own.value]
    else []
  }

  function SharedParticipants(env: Env, participants: seq<string>): seq<string>
  {
    var keys := SortDedup(Parsed(env.parse, participants));
    if env.own.Some? then Without(keys, env.own.value) else keys
  }

  // ---- Edits of one network ----

  function NextRosterAt(now: nat, previous: nat): nat
  {
    var bumped := if previous < U64_MAX then previous + 1 else previous;
    if now >= bumped then now else bumped
  }

  /** `note_network_roster_local_change`: an admin's edit gets a fresh timestamp and signature. */
  function Bump(env: Env, net: Network, now: nat): Network
  {
    if env.own.Some? && env.own.value in net.admins
    then net.(rosterAt := NextRosterAt(now, net.rosterAt), rosterBy := env.own.value)
    else net
  }

  function WithKey(keys: seq<string>, key: string): seq<string>
  {
    if key in keys then keys else SortDedup(keys + [key])
  }

  function Heir(admins: seq<string>): string
  {
    if admins == [] then "" else admins[0]
  }

  datatype Edit =
    | AddParticipant(key: string)
    | RemoveParticipant(key: string)
    | AddAdmin(key: string)
    | RemoveAdmin(key: string)
    | Rename(name: string)
    | Touch

  /** The network after an edit, or `None` if the edit is refused. */
  function Edited(env: Env, net: Network, edit: Edit, now: nat): Option<Network>
  {
    match edit
    case AddParticipant(raw) =>
      if env.parse(raw).None? then None
      else Some(Bump(env, net.(participants := WithKey(net.participants, env.parse(raw).value)), now))
    case RemoveParticipant(raw) =>
      if env.parse(raw).None? then None
      else
        var key := env.parse(raw).value;
        if |net.admins| == 1 && key in net.admins then None
        else
          var admins := Without(net.admins, key);
          Some(Bump(env, net.(
            participants := Without(net.participants, key),
            admins := admins,
            inviter := if net.inviter == key then Heir(admins) else net.inviter), now))
    case AddAdmin(raw) =>
      if env.parse(raw).None? then None
      else
        var key := env.parse(raw).value;
        Some(Bump(env, net.(
          admins := WithKey(net.admins, key),
          inviter := if net.inviter == "" then key else net.inviter), now))
    case RemoveAdmin(raw) =>
      if env.parse(raw).None? then None
      else
        var key := env.parse(raw).value;
        if key !in net.admins then Some(net)
        else if |net.admins| <= 1 then None
        else
          var admins := Without(net.admins, key);
          Some(Bump(env, net.(admins := admins, inviter := if net.inviter == key then Heir(admins) else net.inviter), now))
    case Rename(name) =>
      if IsBlank(name) then None else Some(Bump(env, net.(name := Trim(name)), now))
    case Touch => Some(Bump(env, net, now))
  }

  // ---- Remote rosters ----

  datatype Roster = Roster(
    meshId: string,
    name: string,
    participants: seq<string>,
    admins: seq<string>,
    aliases: seq<(string, string)>,
    signedAt: nat,
    signedBy: string)

  datatype Verdict = Accepted(net: Network) | Ignored | Failed

  function TooFarAhead(signedAt: nat, now: nat): bool
  {
    signedAt > (if now + MAX_ROSTER_FUTURE <= U64_MAX then now + MAX_ROSTER_FUTURE else U64_MAX)
  }

  function Installed(env: Env, net: Network, r: Roster, signer: string): Network
  {
    var admins := NormalizedAdmins(env, r.admins, net.inviter);
    net.(
      participants := SharedParticipants(env, r.participants),
      admins := admins,
      name := if IsBlank(r.name) then net.name else Trim(r.name),
      inviter := if net.inviter in admins then net.inviter else signer,
      rosterAt := r.signedAt,
      rosterBy := signer)
  }

  /** A roster offered to the network it names, with its signer's canonical key. */
  function Offer(env: Env, net: Network, r: Roster, signer: string): Verdict
  {
    if signer !in net.admins || r.signedAt <= net.rosterAt then Ignored
    else if !AllParse(env.parse, r.participants) then Failed
    else if NormalizedAdmins(env, r.admins, net.inviter) == [] then Failed
    else Accepted(Installed(env, net, r, signer))
  }

  function IndexById(nets: seq<Network>, id: string): (i: nat)
    ensures i <= |nets|
    ensures i < |nets| ==> nets[i].id == id
    ensures forall k :: 0 <= k < i ==> nets[k].id != id
  {
    if nets == [] || nets[0].id == id then 0 else 1 + IndexById(nets[1..], id)
  }

  function IndexByMesh(nets: seq<Network>, mesh: string): (i: nat)
    ensures i <= |nets|
    ensures i < |nets| ==> RuntimeId(nets[i].meshId) == mesh
    ensures forall k :: 0 <= k < i ==> RuntimeId(nets[k].meshId) != mesh
  {
    if nets == [] || RuntimeId(nets[0].meshId) == mesh then 0 else 1 + IndexByMesh(nets[1..], mesh)
  }

  // ---- The list of networks ----

  datatype Op =
    | EditNetwork(id: string, edit: Edit)
    | ApplyRoster(roster: Roster)
    | AddNetwork(name: string)
    | RemoveNetwork(id: string)
    | SetEnabled(id: string, enabled: bool)
    | SetMeshId(id: string, mesh: string)
    | FillDefaults

  datatype Outcome = Done(nets: seq<Network>) | Declined | Refused

  function ApplyRosterTo(env: Env, nets: seq<Network>, r: Roster, now: nat): Outcome
  {
    if RuntimeId(r.meshId) == "" then Declined
    else if env.parse(r.signedBy).None? || TooFarAhead(r.signedAt, now) then Refused
    else
      var i := IndexByMesh(nets, RuntimeId(r.meshId));
      if i == |nets| then Declined
      else
        match Offer(env, nets[i], r, env.parse(r.signedBy).value)
        case Accepted(net) => Done(nets[i := net])
        case Ignored => Declined
        case Failed => Refused
  }

  function Ids(nets: seq<Network>): set<string>
  {
    set i | 0 <= i < |nets| :: nets[i].id
  }

  function NewNetwork(id: string, name: string, enabled: bool): Network
  {
    Network(id, name, enabled, DEFAULT_MESH, [], [], "", 0, "")
  }

  function DefaultName(ordinal: nat): string
  {
    "Network " + Decimal.Print(ordinal)
  }

  function NameOr(name: string, ordinal: nat): string
  {
    if IsBlank(name) then DefaultName(ordinal) else Trim(name)
  }

  function WithoutId(nets: seq<Network>, id: string): seq<Network>
  {
    if nets == [] then []
    else (if nets[0].id == id then [] else [nets[0]]) + WithoutId(nets[1..], id)
  }

  predicate AnyEnabled(nets: seq<Network>)
  {
    exists i :: 0 <= i < |nets| && nets[i].enabled
  }

  function EnableOnly(nets: seq<Network>, index: nat): (r: seq<Network>)
    ensures |r| == |nets|
    ensures forall i :: 0 <= i < |nets| ==> r[i] == nets[i].(enabled := i == index)
  {
    seq(|nets|, i requires 0 <= i < |nets| => nets[i].(enabled := i == index))
  }

  function FirstEnabled(nets: seq<Network>): (i: nat)
    ensures i <= |nets|
    ensures i < |nets| ==> nets[i].enabled
    ensures forall k :: 0 <= k < i ==> !nets[k].enabled
  {
    if nets == [] || nets[0].enabled then 0 else 1 + FirstEnabled(nets[1..])
  }

  /** `ensure_single_active_network`: the first enabled network stays, or the first one starts. */
  function SingleActive(nets: seq<Network>): seq<Network>
  {
    var i := FirstEnabled(nets);
    EnableOnly(nets, if i == |nets| then 0 else i)
  }

  // ---- Filling defaults ----

  /** Everything but the id that loading normalises in one network. */
  function Cleaned(env: Env, net: Network, ordinal: nat): Network
  {
    var inviter := if env.parse(net.inviter).Some? then env.parse(net.inviter).value else "";
    var signer := if env.parse(net.rosterBy).Some? then env.parse(net.rosterBy).value else "";
    net.(
      name := NameOr(net.name, ordinal),
      meshId := if IsBlank(net.meshId) then DEFAULT_MESH else net.meshId,
      inviter := inviter,
      participants := SortDedup(Parsed(env.parse, net.participants)),
      admins := NormalizedAdmins(env, net.admins, inviter),
      rosterBy := signer,
      rosterAt := if signer == "" then 0 else net.rosterAt)
  }

  /** The normalised ids that the networks ask for. */
  function WantedIds(nets: seq<Network>): (r: seq<string>)
    ensures |r| == |nets|
  {
    seq(|nets|, i requires 0 <= i < |nets| => Labels.EntryId(nets[i].id, i + 1))
  }

  /** Every network cleaned, under an id distinct from those of the networks before it. */
  function CleanAll(env: Env, nets: seq<Network>): (r: seq<Network>)
    ensures |r| == |nets|
  {
    var ids := Labels.UniqueIds(WantedIds(nets));
    seq(|nets|, i requires 0 <= i < |nets| => Cleaned(env, nets[i], i + 1).(id := ids[i]))
  }

  function DeriveMeshes(env: Env, nets: seq<Network>): (r: seq<Network>)
    ensures |r| == |nets|
    ensures forall i :: 0 <= i < |nets| ==> r[i] == nets[i].(meshId := env.deriveMesh(nets[i]))
  {
    seq(|nets|, i requires 0 <= i < |nets| => nets[i].(meshId := env.deriveMesh(nets[i])))
  }

  /** An empty configuration starts with one enabled network. */
  function Seeded(nets: seq<Network>): seq<Network>
  {
    if nets == [] then [NewNetwork(Labels.DefaultEntryId(1), DefaultName(1), true)] else nets
  }

  function Defaults(env: Env, nets: seq<Network>): seq<Network>
  {
    DeriveMeshes(env, SingleActive(CleanAll(env, Seeded(nets))))
  }

  // ---- All operations ----

  function Apply(env: Env, nets: seq<Network>, op: Op, now: nat): Outcome
  {
    match op
    case EditNetwork(id, edit) =>
      var i := IndexById(nets, id);
      if i == |nets| || Edited(env, nets[i], edit, now).None? then Refused
      else Done(nets[i := Edited(env, nets[i], edit, now).value])
    case ApplyRoster(roster) => ApplyRosterTo(env, nets, roster, now)
    case AddNetwork(name) =>
      var ordinal := |nets| + 1;
      var id := Labels.UniqueId(Labels.DefaultEntryId(ordinal), Ids(nets));
      Done(nets + [NewNetwork(id, NameOr(name, ordinal), false)])
    case RemoveNetwork(id) =>
      var rest := WithoutId(nets, id);
      if |nets| <= 1 || |rest| == |nets| then Refused
      else Done(if AnyEnabled(rest) || rest == [] then rest else rest[0 := rest[0].(enabled := true)])
    case SetEnabled(id, enabled) =>
      var i := IndexById(nets, id);
      if i == |nets| then Refused
      else if enabled then Done(EnableOnly(nets, i))
      else if nets[i].enabled then Refused
      else Done(nets)
    case SetMeshId(id, mesh) =>
      var i := IndexById(nets, id);
      if RuntimeId(mesh) == "" || i == |nets| then Refused
      else Done(nets[i := nets[i].(meshId := RuntimeId(mesh))])
    case FillDefaults => Done(Defaults(env, nets))
  }

  /** A declined or refused operation leaves the configuration as it was. */
  function After(env: Env, nets: seq<Network>, op: Op, now: nat): seq<Network>
  {
    match Apply(env, nets, op, now)
    case Done(nets') => nets'
    case Declined => nets
    case Refused => nets
  }

  datatype Timed = Timed(op: Op, now: nat)

  function Run(env: Env, nets: seq<Network>, ops: seq<Timed>): seq<Network>
  {
    if ops == [] then nets
    else
      var last := |ops| - 1;
      After(env, Run(env, nets, ops[..last]), ops[last].op, ops[last].now)
  }
}
