/** Filling in defaults a second time: exactly when a filled list of networks stays as it is.
    Ids are normalised before they are made distinct, so a suffix can make an id longer than the
    next normalisation lets it be. */
module Refilling {
  import opened Common
  import opened Order
  import opened Labels
  import opened Config
  import opened ConfigSafety
  import Decimal
  import Naming
  import Profile

  // ---- One id ----

  /** The id fits a label, or the dash before its suffix is one of the characters 62 and 63. */
  predicate Stays(id: string)
  {
    |id| <= MAX_LABEL || id[MAX_LABEL - 1] == '-' || id[MAX_LABEL] == '-'
  }

  /** What an entry asks for: a label, or a default id, whose only dash comes early. */
  ghost predicate Askable(text: string)
  {
    && text != "" && Dashes(text)
    && (|text| > MAX_LABEL ==> text[MAX_LABEL - 1] != '-' && text[MAX_LABEL] != '-')
  }

  lemma EntryIsAskable(value: string, ordinal: nat)
    ensures Askable(EntryId(value, ordinal))
  {
    hide NormalizeLabel, DefaultEntryId, Dashes;
    NormalizeMeaning(value);
    DefaultIsAskable(ordinal);
  }

  lemma DefaultIsAskable(ordinal: nat)
    ensures Askable(DefaultEntryId(ordinal))
  {
    var text, digits := DefaultEntryId(ordinal), Decimal.Print(ordinal);
    hide Decimal.Print;
    Naming.AppendNumber("network", digits);
    hide Dashes;
    assert "network" + "-" == "network-";
    assert text == "network" + "-" + digits;
    assert forall i :: 8 <= i < |text| ==> text[i] == digits[i - 8] && Decimal.IsDigit(text[i]);
  }

  lemma UniqueIdIsDashes(wanted: string, used: set<string>)
    requires Askable(wanted)
    ensures UniqueId(wanted, used) != "" && Dashes(UniqueId(wanted, used))
  {
    if wanted in used {
      var digits := Decimal.Print(FirstFree(wanted, used, 2));
      Naming.AppendNumber(wanted, digits);
    }
  }

  /** A dashed text is normalised by cutting it. */
  lemma EntryIsCut(id: string, ordinal: nat)
    requires id != "" && Dashes(id)
    ensures EntryId(id, ordinal) == Cut(id, MAX_LABEL)
  {
    StripIsDashed(id);
    DashedFixed(id);
    CutIsDashes(id, MAX_LABEL);
  }

  /** Cutting a suffixed id gives back what was asked for, if the suffix began just where the cut is. */
  lemma CutGivesBase(wanted: string, k: nat)
    requires Askable(wanted) && |Suffixed(wanted, k)| > MAX_LABEL && Stays(Suffixed(wanted, k))
    ensures Cut(Suffixed(wanted, k), MAX_LABEL) == wanted
  {
    var id, digits := Suffixed(wanted, k), Decimal.Print(k);
    assert forall i :: |wanted| < i < |id| ==> id[i] == digits[i - |wanted| - 1] && Decimal.IsDigit(id[i]);
    assert forall i :: 0 <= i < |wanted| ==> id[i] == wanted[i];
    if |wanted| == MAX_LABEL {
      assert id[..MAX_LABEL] == wanted;
    } else {
      assert |wanted| == MAX_LABEL - 1;
      assert id[..MAX_LABEL] == wanted + "-";
      assert (wanted + "-")[..MAX_LABEL - 1] == wanted;
      assert DropEndDashes(wanted) == wanted;
    }
  }

  /** An id chosen against the ids before it is chosen again against them exactly if it `Stays`. */
  lemma {:induction false} IdStaysExactly(wanted: string, used: set<string>, ordinal: nat)
    requires Askable(wanted)
    ensures var id := UniqueId(wanted, used); UniqueId(EntryId(id, ordinal), used) == id <==> Stays(id)
  {
    hide Cut;
    var id := UniqueId(wanted, used);
    UniqueIdIsDashes(wanted, used);
    EntryIsCut(id, ordinal);
    CutIsDashes(id, MAX_LABEL);
    if |id| > MAX_LABEL {
      if Stays(id) {
        CutGivesBase(wanted, FirstFree(wanted, used, 2));
      } else {
        CutIsPlain(id);
        var again := UniqueId(id[..MAX_LABEL], used);
        assert |again| > MAX_LABEL ==> again[MAX_LABEL] == '-';
      }
    }
  }

  lemma CutIsPlain(id: string)
    requires |id| > MAX_LABEL && id[MAX_LABEL - 1] != '-'
    ensures Cut(id, MAX_LABEL) == id[..MAX_LABEL]
  {
  }

  // ---- All ids ----

  ghost predicate AllAskable(wanted: seq<string>)
  {
    forall i :: 0 <= i < |wanted| ==> Askable(wanted[i])
  }

  /** The ids that a list of ids asks for when it is loaded. */
  function Reread(ids: seq<string>): (r: seq<string>)
    ensures |r| == |ids|
  {
    seq(|ids|, i requires 0 <= i < |ids| => EntryId(ids[i], i + 1))
  }

  predicate AllStay(ids: seq<string>)
  {
    forall i :: 0 <= i < |ids| ==> Stays(ids[i])
  }

  lemma {:induction false} IdsStayWhenEachDoes(wanted: seq<string>)
    requires AllAskable(wanted) && AllStay(UniqueIds(wanted))
    ensures UniqueIds(Reread(UniqueIds(wanted))) == UniqueIds(wanted)
  {
    if wanted != [] {
      hide Stays, Askable, UniqueId, EntryId, UniqueIds, Reread;
      var last := |wanted| - 1;
      var ids := UniqueIds(wanted);
      PrefixOfIds(wanted, last);
      UniqueIdsAt(wanted, last);
      IdsStayWhenEachDoes(wanted[..last]);
      RereadPrefix(ids, last);
      PrefixOfIds(Reread(ids), last);
      UniqueIdsAt(Reread(ids), last);
      IdStaysExactly(wanted[last], Elems(ids[..last]), |wanted|);
      SameButLast(UniqueIds(Reread(ids)), ids);
    }
  }

  lemma SameButLast(a: seq<string>, b: seq<string>)
    requires a != [] && |a| == |b| && a[..|a| - 1] == b[..|a| - 1] && a[|a| - 1] == b[|a| - 1]
    ensures a == b
  {
    assert a == a[..|a| - 1] + [a[|a| - 1]] && b == b[..|a| - 1] + [b[|a| - 1]];
  }

  lemma RereadPrefix(ids: seq<string>, i: nat)
    requires i < |ids|
    ensures Reread(ids)[..i] == Reread(ids[..i]) && Reread(ids)[i] == EntryId(ids[i], i + 1)
  {
    hide EntryId;
  }

  /** Making ids distinct a second time keeps them all exactly if each of them `Stays`. */
  lemma {:induction false} IdsStayExactly(wanted: seq<string>)
    requires AllAskable(wanted)
    ensures var ids := UniqueIds(wanted);
            UniqueIds(Reread(ids)) == ids <==> AllStay(ids)
  {
    hide Stays, Askable, UniqueId, EntryId;
    var ids := UniqueIds(wanted);
    if UniqueIds(Reread(ids)) == ids {
      forall i | 0 <= i < |ids| ensures Stays(ids[i]) {
        UniqueIdsAt(wanted, i);
        UniqueIdsAt(Reread(ids), i);
        IdStaysExactly(wanted[i], Elems(ids[..i]), i + 1);
      }
    } else if AllStay(ids) {
      IdsStayWhenEachDoes(wanted);
    }
  }

  // ---- An input for which ids change ----

  function Namesake(id: string, i: nat): string
  {
    if i == 0 then id else Suffixed(id, i + 1)
  }

  /** Networks that all ask for one id get it, then its suffixes from 2 on. */
  lemma {:induction false} NamesakeAt(id: string, wanted: seq<string>, i: nat)
    requires i < |wanted| && forall j :: 0 <= j < |wanted| ==> wanted[j] == id
    ensures UniqueIds(wanted)[i] == Namesake(id, i)
    decreases i
  {
    hide UniqueIds, FirstFree;
    var before := UniqueIds(wanted)[..i];
    UniqueIdsAt(wanted, i);
    forall j | 0 <= j < i ensures before[j] == Namesake(id, j) { NamesakeAt(id, wanted, j); }
    if i > 0 {
      assert before[0] in Elems(before);
      NextNamesake(id, before);
    }
  }

  lemma {:induction false} NextNamesake(id: string, before: seq<string>)
    requires before != [] && forall i :: 0 <= i < |before| ==> before[i] == Namesake(id, i)
    ensures FirstFree(id, Elems(before), 2) == |before| + 1
  {
    var used, n := Elems(before), |before|;
    assert forall j :: 2 <= j <= n ==> before[j - 1] in used && before[j - 1] == Suffixed(id, j);
    if Suffixed(id, n + 1) in used {
      var i :| 0 <= i < n && before[i] == Suffixed(id, n + 1);
      if i > 0 { SuffixedInjective(id, i + 1, n + 1); }
    }
  }

  lemma {:induction false} TenthNamesake(id: string, wanted: seq<string>)
    requires Dashes(id) && |id| == 61 && |wanted| == 10 && forall i :: 0 <= i < 10 ==> wanted[i] == id
    ensures AllAskable(wanted) && UniqueIds(wanted)[9] == id + "-10"
    ensures UniqueIds(Reread(UniqueIds(wanted)))[9] == id + "-1"
  {
    hide UniqueIds, UniqueId, EntryId, Dashes;
    NamesakeAt(id, wanted, 9);
    var ids, before := UniqueIds(wanted), wanted[..9];
    TenthSuffix(id);
    FirstNineStay(id, before);
    var used := Elems(ids[..9]);
    PrefixOfIds(wanted, 9);
    assert Reread(ids)[..9] == Reread(ids[..9]);
    PrefixOfIds(Reread(ids), 9);
    UniqueIdsAt(Reread(ids), 9);
    assert ids[9] == id + "-10";
  }

  lemma {:induction false} PrefixOfIds(wanted: seq<string>, i: nat)
    requires i <= |wanted|
    ensures UniqueIds(wanted)[..i] == UniqueIds(wanted[..i])
  {
    var last := |wanted| - 1;
    if i <= last {
      assert UniqueIds(wanted)[..last] == UniqueIds(wanted[..last]);
      PrefixOfIds(wanted[..last], i);
      assert wanted[..last][..i] == wanted[..i];
      assert UniqueIds(wanted)[..last][..i] == UniqueIds(wanted)[..i];
    } else {
      assert wanted[..i] == wanted;
    }
  }

  lemma {:induction false} FirstNineStay(id: string, wanted: seq<string>)
    requires Dashes(id) && |id| == 61 && |wanted| == 9 && forall i :: 0 <= i < 9 ==> wanted[i] == id
    ensures UniqueIds(Reread(UniqueIds(wanted))) == UniqueIds(wanted)
    ensures id + "-1" !in Elems(UniqueIds(wanted))
  {
    hide UniqueIds, Dashes, FirstFree;
    var ids := UniqueIds(wanted);
    forall i | 0 <= i < 9 ensures |ids[i]| <= 63 && ids[i] != Suffixed(id, 1) {
      NamesakeAt(id, wanted, i);
      if i > 0 {
        assert |Decimal.Print(i + 1)| == 1;
        assert ids[i] == Suffixed(id, i + 1);
        if Suffixed(id, i + 1) == Suffixed(id, 1) { SuffixedInjective(id, i + 1, 1); }
      } else {
        assert |ids[0]| == 61;
      }
    }
    assert Suffixed(id, 1) == id + "-1";
    IdsStayWhenEachDoes(wanted);
  }

  lemma TenthSuffix(id: string)
    requires Dashes(id) && |id| == 61
    ensures Suffixed(id, 10) == id + "-10" && EntryId(id + "-10", 10) == id + "-1"
  {
    assert Decimal.Print(1) == "1" && Decimal.Print(10) == "10";
    var text := id + "-10";
    Naming.AppendNumber(id, "10");
    EntryIsCut(text, 10);
    CutIsPlain(text);
    assert text[..MAX_LABEL] == id + "-1";
  }

  // ---- The whole list ----

  /** What is assumed of the derivation of mesh ids: it never yields a blank one, and deriving again
      from a network with the derived id yields it again. */
  ghost predicate MeshSettles(env: Env)
  {
    forall net: Network :: !IsBlank(net.meshId) ==>
      !IsBlank(env.deriveMesh(net)) && env.deriveMesh(net.(meshId := env.deriveMesh(net))) == env.deriveMesh(net)
  }

  lemma {:induction false} TrimStartMeaning(s: string)
    ensures TrimStart(s) != [] ==> !IsSpace(TrimStart(s)[0])
  {
    if s != [] && IsSpace(s[0]) { TrimStartMeaning(s[1..]); }
  }

  lemma {:induction false} TrimEndMeaning(s: string)
    ensures TrimEnd(s) <= s && (TrimEnd(s) != [] ==> !IsSpace(TrimEnd(s)[|TrimEnd(s)| - 1]))
  {
    if s != [] && IsSpace(s[|s| - 1]) { TrimEndMeaning(s[..|s| - 1]); }
  }

  lemma TrimIdempotent(s: string)
    ensures Trim(Trim(s)) == Trim(s)
  {
    TrimStartMeaning(s);
    TrimEndMeaning(TrimStart(s));
    TrimFixed(Trim(s));
  }

  lemma NameStays(name: string, ordinal: nat)
    ensures NameOr(NameOr(name, ordinal), ordinal) == NameOr(name, ordinal)
  {
    TrimIdempotent(name);
    TrimFixed(DefaultName(ordinal));
  }

  lemma AdminsStay(env: Env, admins: seq<string>, inviter: string)
    requires Config.Sound(env) && (inviter == "" || Canonical(env.parse, inviter))
    ensures var keys := NormalizedAdmins(env, admins, inviter); NormalizedAdmins(env, keys, inviter) == keys
  {
    var keys := NormalizedAdmins(env, admins, inviter);
    NormalizedAdminsClean(env, admins, inviter);
    if keys != [] { CleanAdminsStay(env, keys, inviter); }
  }

  /** A cleaned network is clean, whatever mesh id it was given and whether or not it was enabled. */
  lemma {:induction false} CleanedStays(env: Env, net: Network, ordinal: nat, id: string, enabled: bool, mesh: string)
    requires Config.Sound(env) && !IsBlank(mesh)
    ensures var cleaned := Cleaned(env, net, ordinal).(id := id, enabled := enabled, meshId := mesh);
            Cleaned(env, cleaned, ordinal) == cleaned
  {
    hide IsBlank, SortDedup, NormalizedAdmins, NameOr;
    NameStays(net.name, ordinal);
    ParsedCanonical(env.parse, net.participants);
    SortDedupClean(env.parse, Parsed(env.parse, net.participants));
    var keys := SortDedup(Parsed(env.parse, net.participants));
    ParsedFixed(env.parse, keys);
    SortDedupFixed(keys);
    AdminsStay(env, net.admins, Cleaned(env, net, ordinal).inviter);
  }

  /** The networks of a filled list before their mesh ids are derived. */
  function Enabled(env: Env, nets: seq<Network>): (r: seq<Network>)
    ensures |r| == |Seeded(nets)|
  {
    SingleActive(CleanAll(env, Seeded(nets)))
  }

  lemma {:induction false} SingleActiveStays(nets: seq<Network>, again: seq<Network>)
    requires nets != [] && |again| == |nets|
    requires forall i :: 0 <= i < |nets| ==> again[i].enabled == SingleActive(nets)[i].enabled
    ensures forall i :: 0 <= i < |nets| ==> SingleActive(again)[i] == again[i]
  {
    var i := FirstEnabled(nets);
    var k := if i == |nets| then 0 else i;
    assert again[k].enabled;
    assert FirstEnabled(again) == k;
  }

  /** A network that filling alone would leave as it is, but for its id. */
  ghost predicate IsFilled(env: Env, net: Network, ordinal: nat)
  {
    Cleaned(env, net, ordinal) == net && env.deriveMesh(net) == net.meshId
  }

  lemma {:induction false} FilledNetwork(env: Env, nets: seq<Network>, i: nat)
    requires Config.Sound(env) && MeshSettles(env) && i < |Seeded(nets)|
    ensures IsFilled(env, Defaults(env, nets)[i], i + 1)
    ensures Defaults(env, nets)[i].enabled == Enabled(env, nets)[i].enabled
  {
    hide IsBlank, UniqueIds, Cleaned, WantedIds;
    var base := Enabled(env, nets)[i];
    var cleaned := Cleaned(env, Seeded(nets)[i], i + 1);
    CleanedMesh(env, Seeded(nets)[i], i + 1);
    assert base == cleaned.(id := base.id, enabled := base.enabled);
    CleanedStays(env, Seeded(nets)[i], i + 1, base.id, base.enabled, env.deriveMesh(base));
    assert Defaults(env, nets)[i] == base.(meshId := env.deriveMesh(base));
  }

  lemma CleanedMesh(env: Env, net: Network, ordinal: nat)
    ensures !IsBlank(Cleaned(env, net, ordinal).meshId)
  {
    TrimFixed(DEFAULT_MESH);
  }

  function IdsOf(nets: seq<Network>): (r: seq<string>)
    ensures |r| == |nets|
  {
    seq(|nets|, i requires 0 <= i < |nets| => nets[i].id)
  }

  lemma FilledIds(env: Env, nets: seq<Network>)
    ensures IdsOf(Defaults(env, nets)) == UniqueIds(WantedIds(Seeded(nets)))
    ensures WantedIds(Defaults(env, nets)) == Reread(IdsOf(Defaults(env, nets)))
  {
    hide UniqueIds, Cleaned, EntryId;
  }

  /** Filling leaves a filled list as it is if it leaves its ids. */
  lemma {:induction false} FilledListStays(env: Env, nets: seq<Network>, once: seq<Network>)
    requires Config.Sound(env) && MeshSettles(env) && once == Defaults(env, nets)
    requires UniqueIds(WantedIds(once)) == IdsOf(once)
    ensures Defaults(env, once) == once
  {
    hide UniqueIds, Cleaned, WantedIds;
    forall i | 0 <= i < |once|
      ensures IsFilled(env, once[i], i + 1) && once[i].enabled == Enabled(env, nets)[i].enabled
    {
      FilledNetwork(env, nets, i);
    }
    assert Seeded(once) == once;
    assert CleanAll(env, once) == once;
    SingleActiveStays(CleanAll(env, Seeded(nets)), once);
    assert SingleActive(once) == once;
    assert DeriveMeshes(env, once) == once;
  }

  lemma FilledAsks(nets: seq<Network>)
    ensures AllAskable(WantedIds(nets))
  {
    hide Askable, EntryId;
    forall i | 0 <= i < |nets| ensures Askable(WantedIds(nets)[i]) { EntryIsAskable(nets[i].id, i + 1); }
  }

  /** Filling a second time keeps all ids exactly if each id of the filled list `Stays`. */
  lemma {:induction false} FilledIdsStayExactly(env: Env, nets: seq<Network>)
    ensures var once := Defaults(env, nets);
            IdsOf(Defaults(env, once)) == IdsOf(once) <==> AllStay(IdsOf(once))
  {
    var once, wanted := Defaults(env, nets), WantedIds(Seeded(nets));
    assert Seeded(once) == once;
    hide AllStay, UniqueIds, AllAskable, Defaults, WantedIds, Reread, Seeded, IdsOf;
    FilledAsks(Seeded(nets));
    IdsStayExactly(wanted);
    FilledIds(env, nets);
    FilledIds(env, once);
  }

  /** Ten networks under one label of 61 characters: the tenth is given the suffix 10, which the next
      loading cuts to 1, although nothing else has that id. */
  lemma {:induction false} TenthNamesakeIsRenamed(env: Env, nets: seq<Network>, id: string)
    requires ValidLabel(id) && |id| == 61 && |nets| == 10 && forall i :: 0 <= i < 10 ==> nets[i].id == id
    ensures var once := Defaults(env, nets); once[9].id == id + "-10" && Defaults(env, once)[9].id == id + "-1"
  {
    var once := Defaults(env, nets);
    assert Dashes(id) && Seeded(nets) == nets && Seeded(once) == once;
    hide Defaults, WantedIds, UniqueIds, Dashes, Reread, Seeded, ValidLabel;
    SameWanted(nets, id);
    TenthNamesake(id, WantedIds(nets));
    FilledIds(env, nets);
    FilledIds(env, once);
    assert IdsOf(once)[9] == once[9].id && IdsOf(Defaults(env, once))[9] == Defaults(env, once)[9].id;
  }

  lemma SameWanted(nets: seq<Network>, id: string)
    requires ValidLabel(id) && forall i :: 0 <= i < |nets| ==> nets[i].id == id
    ensures forall i :: 0 <= i < |nets| ==> WantedIds(nets)[i] == id
  {
    hide NormalizeLabel, ValidLabel;
    NormalizeFixed(id);
  }

  /** Filling defaults a second time changes nothing at all exactly if each id of the filled list `Stays`. */
  lemma {:induction false} DefaultsSettleExactly(env: Env, nets: seq<Network>)
    requires Config.Sound(env) && MeshSettles(env)
    ensures var once := Defaults(env, nets);
            Defaults(env, once) == once <==> AllStay(IdsOf(once))
  {
    var once := Defaults(env, nets);
    assert Seeded(once) == once;
    hide AllStay, UniqueIds, Defaults, Seeded, WantedIds, IdsOf, MeshSettles, Config.Sound;
    FilledIdsStayExactly(env, nets);
    FilledIds(env, once);
    if IdsOf(Defaults(env, once)) == IdsOf(once) { FilledListStays(env, nets, once); }
  }

  // ---- The rest of the profile ----

  /** The alias map yields its entries, and npubs are read back. */
  ghost predicate ListsAliases(s: Profile.Setting)
  {
    Naming.ReadsNpubs(s.world) && forall book :: Naming.ListsBook(s.list(book), book)
  }

  /** An exit node that loading and settling left is left again. */
  lemma {:induction false} ExitSettles(s: Profile.Setting, nets: seq<Network>, exitNode: string)
    requires Profile.Sound(s)
    ensures var kept := Profile.SettledExit(nets, Profile.LoadedExit(s.env, exitNode));
            Profile.SettledExit(nets, Profile.LoadedExit(s.env, kept)) == kept
  {
    hide Profile.InActive, Naming.Sound, Trim;
    var kept := Profile.SettledExit(nets, Profile.LoadedExit(s.env, exitNode));
    TrimFixed(kept);
    if kept != "" {
      assert Canonical(s.env.parse, kept);
      assert Naming.HexKey(kept);
    }
  }

  lemma {:induction false} AliasesSettle(s: Profile.Setting, nets: seq<Network>, aliases: map<string, string>)
    requires Profile.Sound(s) && ListsAliases(s) && Safe(s.env, nets) && |Profile.Members(nets)| <= Naming.MEMBER_LIMIT
    ensures var book := Profile.SettledAliases(s, nets, aliases); Profile.SettledAliases(s, nets, book) == book
  {
    Profile.MembersAreConfigured(s, nets);
    hide Profile.Members, Profile.Sound, Safe, Naming.Aliases, Naming.Configured, Naming.ReadsNpubs, Naming.ListsBook;
    var book := Profile.SettledAliases(s, nets, aliases);
    Naming.RebuildIsIdempotent(s.world, s.list(aliases), s.list(book), Profile.Members(nets), s.nodeName);
  }

  lemma FillingParts(s: Profile.Setting, p: Profile.Profile, now: nat)
    requires s.world.animals != []
    ensures var nets := Defaults(s.env, p.networks);
            Profile.Step(s, p, FillDefaults, now) == Profile.Profile(
              nets,
              Profile.SettledExit(nets, Profile.LoadedExit(s.env, p.exitNode)),
              Profile.SettledAliases(s, nets, p.aliases))
  {
    hide Defaults, Profile.SettledExit, Profile.LoadedExit, Profile.SettledAliases;
  }

  /** Filling a whole profile a second time, exit node and alias book included, changes nothing exactly
      if each id of the filled list `Stays`. */
  lemma {:induction false} FillingSettlesExactly(s: Profile.Setting, p: Profile.Profile, now: nat, later: nat)
    requires Profile.Sound(s) && ListsAliases(s) && MeshSettles(s.env)
    requires |Profile.Members(Defaults(s.env, p.networks))| <= Naming.MEMBER_LIMIT
    ensures var once := Profile.Step(s, p, FillDefaults, now);
            Profile.Step(s, once, FillDefaults, later) == once <==> AllStay(IdsOf(once.networks))
  {
    var once := Profile.Step(s, p, FillDefaults, now);
    assert s.world.animals != [];
    hide Defaults, AllStay, IdsOf, Profile.SettledExit, Profile.LoadedExit, Profile.SettledAliases, Safe, Profile.Step, Profile.Sound, MeshSettles;
    FillingParts(s, p, now);
    FillingParts(s, once, later);
    SoundParts(s);
    DefaultsSettleExactly(s.env, p.networks);
    DefaultsAreSafe(s.env, p.networks);
    ExitSettles(s, once.networks, p.exitNode);
    AliasesSettle(s, once.networks, p.aliases);
  }

  lemma SoundParts(s: Profile.Setting)
    requires Profile.Sound(s)
    ensures Config.Sound(s.env) && s.world.animals != []
  {
  }
}
