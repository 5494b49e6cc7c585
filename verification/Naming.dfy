/** MagicDNS aliases: every member of the configured networks gets a distinct valid label,
    and a query for that label finds the member again. */
module Naming {
  import opened Common
  import opened Labels
  import Decimal

  const COUNTER_END: nat := 10_000
  const MEMBER_LIMIT: nat := 9_997

  // ---- Making a label unique ----

  /** The base cut to leave room for `-counter`, and that suffix. */
  function Candidate(base: string, counter: nat): string
  {
    var suffix := "-" + Decimal.Print(counter);
    Cut(base, SatSub(MAX_LABEL, |suffix|)) + suffix
  }

  function FirstCandidate(base: string, used: set<string>, counter: nat): (r: nat)
    requires counter <= COUNTER_END
    ensures counter <= r <= COUNTER_END
    ensures r < COUNTER_END ==> Candidate(base, r) !in used
    ensures forall k :: counter <= k < r ==> Candidate(base, k) in used
    decreases COUNTER_END - counter
  {
    if counter == COUNTER_END || Candidate(base, counter) !in used then counter
    else FirstCandidate(base, used, counter + 1)
  }

  /** `uniquify_magic_dns_label`; when all counters are taken it gives up and repeats the base. */
  function UniqueLabel(base: string, used: set<string>): string
  {
    var start := if base == "" then "peer" else base;
    if start !in used then start
    else
      var k := FirstCandidate(start, used, 2);
      if k < COUNTER_END then Candidate(start, k) else start
  }

  lemma CandidateInjective(base: string, j: nat, k: nat)
    requires Candidate(base, j) == Candidate(base, k)
    ensures j == k
  {
    var p, q := Decimal.Print(j), Decimal.Print(k);
    var s := Candidate(base, j);
    LastDash(s, |s| - |p| - 1, |s| - |q| - 1);
    assert s[|s| - |p|..] == p && s[|s| - |q|..] == q;
    Decimal.PrintInjective(j, k);
  }

  /** Only one dash of a text is followed by nothing but digits. */
  lemma LastDash(s: string, i: nat, j: nat)
    requires i < |s| && j < |s| && s[i] == '-' && s[j] == '-'
    requires forall k :: i < k < |s| ==> Decimal.IsDigit(s[k])
    requires forall k :: j < k < |s| ==> Decimal.IsDigit(s[k])
    ensures i == j
  {
  }

  ghost function CandidatesBelow(base: string, m: nat): set<string>
  {
    set k | 2 <= k < m :: Candidate(base, k)
  }

  lemma {:induction false} OneMoreCandidate(base: string, m: nat)
    requires m > 2
    ensures CandidatesBelow(base, m) == CandidatesBelow(base, m - 1) + {Candidate(base, m - 1)}
    ensures Candidate(base, m - 1) !in CandidatesBelow(base, m - 1)
  {
    hide Candidate;
    forall k | 2 <= k < m - 1 ensures Candidate(base, k) != Candidate(base, m - 1) {
      if Candidate(base, k) == Candidate(base, m - 1) { CandidateInjective(base, k, m - 1); }
    }
  }

  lemma {:induction false} CandidateCount(base: string, m: nat)
    requires m >= 2
    ensures |CandidatesBelow(base, m)| == m - 2
  {
    if m == 2 {
      assert CandidatesBelow(base, m) == {};
    } else {
      hide CandidatesBelow;
      CandidateCount(base, m - 1);
      OneMoreCandidate(base, m);
    }
  }

  /** With at most 9,997 labels in use there is always a free one. */
  lemma UniqueLabelIsFree(base: string, used: set<string>)
    requires |used| <= MEMBER_LIMIT
    ensures UniqueLabel(base, used) !in used
  {
    var start := if base == "" then "peer" else base;
    if start in used && FirstCandidate(start, used, 2) == COUNTER_END {
      CandidateCount(start, COUNTER_END);
      SubsetSize(CandidatesBelow(start, COUNTER_END), used);
    }
  }

  lemma CandidateIsValid(base: string, counter: nat)
    requires ValidLabel(base) && counter < COUNTER_END
    ensures ValidLabel(Candidate(base, counter))
  {
    Decimal.PrintLength(counter);
    var digits := Decimal.Print(counter);
    var cut := Cut(base, MAX_LABEL - |digits| - 1);
    CutIsDashes(base, MAX_LABEL - |digits| - 1);
    assert Candidate(base, counter) == cut + "-" + digits;
    AppendNumber(cut, digits);
  }

  lemma AppendNumber(cut: string, digits: string)
    requires Dashes(cut) && cut != [] && digits != []
    requires forall i :: 0 <= i < |digits| ==> Decimal.IsDigit(digits[i])
    ensures Dashes(cut + "-" + digits)
  {
    var s := cut + "-" + digits;
    assert s[|s| - 1] == digits[|digits| - 1];
    forall i | 0 < i < |s| ensures !(s[i - 1] == '-' && s[i] == '-') {
      if i > |cut| { assert s[i] == digits[i - |cut| - 1]; }
    }
  }

  lemma UniqueLabelIsValid(base: string, used: set<string>)
    requires ValidLabel(base)
    ensures ValidLabel(UniqueLabel(base, used))
  {
    var k := FirstCandidate(base, used, 2);
    if base in used && k < COUNTER_END { CandidateIsValid(base, k); }
  }

  // ---- Default labels ----

  /** The outside world of naming: the list of animal names, the digest that picks a start in it,
      npub encoding, the parser of npub texts, and Unicode lower-casing. */
  datatype World = World(
    animals: seq<string>,
    digest: string -> nat,
    npub: string -> string,
    parseNpub: string -> Option<string>,
    lower: string -> string)

  /** What is assumed of it: animal names are labels, npubs of different canonical keys differ, and
      lower-casing leaves ASCII text without capitals alone. */
  ghost predicate Sound(w: World)
  {
    && w.animals != [] && (forall a :: a in w.animals ==> ValidLabel(a))
    && (forall k, l :: HexKey(k) && HexKey(l) && w.npub(k) == w.npub(l) ==> k == l)
    && (forall s: string :: (forall i :: 0 <= i < |s| ==> s[i] as int < 128 && !('A' <= s[i] <= 'Z')) ==> w.lower(s) == s)
  }

  /** A canonical key: 64 lower-case hexadecimal digits. */
  ghost predicate HexKey(key: string)
  {
    |key| == 64 && forall i :: 0 <= i < |key| ==> '0' <= key[i] <= '9' || 'a' <= key[i] <= 'f'
  }

  /** The first unused animal name among `rounds` names from `index` on, going round the list. */
  function Animal(animals: seq<string>, index: nat, rounds: nat, used: set<string>): Option<string>
    requires index < |animals|
    decreases rounds
  {
    if rounds == 0 then None
    else if animals[index] !in used then Some(animals[index])
    else Animal(animals, (index + 1) % |animals|, rounds - 1, used)
  }

  function DefaultLabel(w: World, key: string, used: set<string>): string
    requires w.animals != []
  {
    var found := Animal(w.animals, w.digest(key) % |w.animals|, |w.animals|, used);
    if found.Some? then found.value
    else "peer-" + (if |key| <= 12 then key else key[..12])
  }

  lemma {:induction false} AnimalIsValid(w: World, index: nat, rounds: nat, used: set<string>)
    requires Sound(w) && index < |w.animals|
    ensures Animal(w.animals, index, rounds, used).Some? ==> ValidLabel(Animal(w.animals, index, rounds, used).value)
    decreases rounds
  {
    if rounds > 0 { AnimalIsValid(w, (index + 1) % |w.animals|, rounds - 1, used); }
  }

  lemma {:induction false} DefaultLabelIsValid(w: World, key: string, used: set<string>)
    requires Sound(w) && HexKey(key)
    ensures ValidLabel(DefaultLabel(w, key, used))
  {
    AnimalIsValid(w, w.digest(key) % |w.animals|, |w.animals|, used);
  }

  method DefaultMagicDnsLabel(w: World, key: string, used: set<string>) returns (text: string)
    requires w.animals != []
    ensures text == DefaultLabel(w, key, used)
  {
    var animals := w.animals;
    var index: nat := w.digest(key) % |animals|;
    var rounds: nat := |animals|;
    while rounds > 0
      invariant index < |animals|
      invariant Animal(animals, index, rounds, used) == Animal(animals, w.digest(key) % |animals|, |animals|, used)
    {
      var candidate := animals[index];
      if candidate !in used { return candidate; }
      index := (index + 1) % |animals|;
      rounds := rounds - 1;
    }
    text := "peer-" + (if |key| <= 12 then key else key[..12]);
  }

  method UniquifyLabel(base: string, used: set<string>) returns (text: string, used': set<string>)
    ensures text == UniqueLabel(base, used)
    ensures used' == used + {text}
  {
    var start := if base == "" then "peer" else base;
    if start !in used { return start, used + {start}; }
    var counter := 2;
    while counter < COUNTER_END && Candidate(start, counter) in used
      invariant 2 <= counter <= COUNTER_END
      invariant FirstCandidate(start, used, counter) == FirstCandidate(start, used, 2)
    {
      counter := counter + 1;
    }
    text := if counter < COUNTER_END then Candidate(start, counter) else start;
    used' := used + {text};
  }

  // ---- Assigning aliases to all members ----

  /** The labels asked for, by npub: entries whose key and alias both normalise, the last one winning. */
  function Preferred(w: World, entries: seq<(string, string)>): map<string, string>
  {
    if entries == [] then map[]
    else
      var last := |entries| - 1;
      var before := Preferred(w, entries[..last]);
      var npub, text := w.parseNpub(entries[last].0), NormalizeLabel(entries[last].1);
      if npub.Some? && text.Some? then before[npub.value := text.value] else before
  }

  lemma {:induction false} PreferredAreValid(w: World, entries: seq<(string, string)>)
    ensures forall npub :: npub in Preferred(w, entries) ==> ValidLabel(Preferred(w, entries)[npub])
  {
    if entries != [] {
      PreferredAreValid(w, entries[..|entries| - 1]);
      NormalizeMeaning(entries[|entries| - 1].1);
    }
  }

  function Choice(w: World, preferred: map<string, string>, member: string, used: set<string>): string
    requires w.animals != []
  {
    var npub := w.npub(member);
    UniqueLabel(if npub in preferred then preferred[npub] else DefaultLabel(w, member, used), used)
  }

  /** The labels of the members in order; each avoids the reserved labels and those before it. */
  function Assign(w: World, preferred: map<string, string>, members: seq<string>, reserved: set<string>): (r: seq<string>)
    requires w.animals != []
    ensures |r| == |members|
  {
    if members == [] then []
    else
      var last := |members| - 1;
      var before := Assign(w, preferred, members[..last], reserved);
      before + [Choice(w, preferred, members[last], reserved + Elems(before))]
  }

  function AliasMap(w: World, members: seq<string>, labels: seq<string>): map<string, string>
    requires |members| == |labels|
  {
    if members == [] then map[]
    else
      var last := |members| - 1;
      AliasMap(w, members[..last], labels[..last])[w.npub(members[last]) := labels[last]]
  }

  function Reserved(nodeName: string): set<string>
  {
    if NormalizeLabel(nodeName).Some? then {NormalizeLabel(nodeName).value} else {}
  }

  /** `normalize_peer_aliases`: the alias book after normalisation. */
  function Aliases(w: World, entries: seq<(string, string)>, members: seq<string>, nodeName: string): map<string, string>
    requires w.animals != []
  {
    AliasMap(w, members, Assign(w, Preferred(w, entries), members, Reserved(nodeName)))
  }

  lemma ElemsSize(xs: seq<string>)
    ensures |Elems(xs)| <= |xs|
  {
    if xs != [] {
      ElemsSize(xs[..|xs| - 1]);
      ElemsSnoc(xs);
    }
  }

  lemma {:induction false} ChoiceIsGood(w: World, preferred: map<string, string>, member: string, used: set<string>)
    requires Sound(w) && HexKey(member) && |used| <= MEMBER_LIMIT
    requires forall npub :: npub in preferred ==> ValidLabel(preferred[npub])
    ensures ValidLabel(Choice(w, preferred, member, used)) && Choice(w, preferred, member, used) !in used
  {
    var npub := w.npub(member);
    var base := if npub in preferred then preferred[npub] else DefaultLabel(w, member, used);
    DefaultLabelIsValid(w, member, used);
    UniqueLabelIsFree(base, used);
    UniqueLabelIsValid(base, used);
  }

  /** Labels handed out so far: valid, pairwise distinct, none reserved. */
  ghost predicate HandedOut(labels: seq<string>, reserved: set<string>)
  {
    Distinct(labels) && forall i :: 0 <= i < |labels| ==> ValidLabel(labels[i]) && labels[i] !in reserved
  }

  lemma HandedOutSnoc(labels: seq<string>, text: string, reserved: set<string>)
    requires HandedOut(labels, reserved) && ValidLabel(text) && text !in reserved + Elems(labels)
    ensures HandedOut(labels + [text], reserved)
  {
    assert forall i :: 0 <= i < |labels| ==> labels[i] in Elems(labels);
  }

  /** While the limit is respected, every label handed out is valid, new, and not reserved. */
  lemma {:induction false} AssignIsInjective(w: World, preferred: map<string, string>, members: seq<string>, reserved: set<string>)
    requires Sound(w) && |members| <= MEMBER_LIMIT && |reserved| <= 1
    requires forall m :: m in members ==> HexKey(m)
    requires forall npub :: npub in preferred ==> ValidLabel(preferred[npub])
    ensures HandedOut(Assign(w, preferred, members, reserved), reserved)
  {
    if members != [] {
      var last := |members| - 1;
      AssignIsInjective(w, preferred, members[..last], reserved);
      var before := Assign(w, preferred, members[..last], reserved);
      ElemsSize(before);
      UnionSize(reserved, Elems(before));
      ChoiceIsGood(w, preferred, members[last], reserved + Elems(before));
      HandedOutSnoc(before, Choice(w, preferred, members[last], reserved + Elems(before)), reserved);
    }
  }

  lemma UnionSize<T>(a: set<T>, b: set<T>)
    ensures |a + b| <= |a| + |b|
  {
    assert a + b == a + (b - a);
    SubsetSize(b - a, b);
  }

  ghost predicate NpubsDiffer(w: World, members: seq<string>)
  {
    forall i, j :: 0 <= i < j < |members| ==> w.npub(members[i]) != w.npub(members[j])
  }

  lemma MembersHaveNpubs(w: World, members: seq<string>)
    requires Configured(w, members)
    ensures NpubsDiffer(w, members)
  {
    hide HexKey, ValidLabel;
    forall i, j | 0 <= i < j < |members| ensures w.npub(members[i]) != w.npub(members[j]) {
      assert members[i] in members && members[j] in members;
    }
  }

  lemma {:induction false} AliasMapAt(w: World, members: seq<string>, labels: seq<string>, i: nat)
    requires i < |members| == |labels| && NpubsDiffer(w, members)
    ensures var m := AliasMap(w, members, labels); w.npub(members[i]) in m && m[w.npub(members[i])] == labels[i]
  {
    var last := |members| - 1;
    if i < last {
      AliasMapAt(w, members[..last], labels[..last], i);
      assert w.npub(members[i]) != w.npub(members[last]);
    }
  }

  lemma {:induction false} AliasMapKeys(w: World, members: seq<string>, labels: seq<string>)
    requires |members| == |labels|
    ensures forall npub :: npub in AliasMap(w, members, labels) ==> exists m :: m in members && npub == w.npub(m)
  {
    if members != [] {
      var last := |members| - 1;
      AliasMapKeys(w, members[..last], labels[..last]);
      assert members == members[..last] + [members[last]];
    }
  }

  lemma ReservedSize(nodeName: string)
    ensures |Reserved(nodeName)| <= 1
  {
  }

  ghost predicate Configured(w: World, members: seq<string>)
  {
    Sound(w) && |members| <= MEMBER_LIMIT && Distinct(members) && forall m :: m in members ==> HexKey(m)
  }

  /** A member's alias is the label assigned at its position. */
  lemma {:induction false} AliasAt(w: World, entries: seq<(string, string)>, members: seq<string>, nodeName: string, i: nat)
    requires Configured(w, members) && i < |members|
    ensures var aliases := Aliases(w, entries, members, nodeName);
            var labels := Assign(w, Preferred(w, entries), members, Reserved(nodeName));
            && w.npub(members[i]) in aliases && aliases[w.npub(members[i])] == labels[i]
            && Distinct(labels) && ValidLabel(labels[i]) && labels[i] !in Reserved(nodeName)
  {
    PreferredAreValid(w, entries);
    ReservedSize(nodeName);
    AssignIsInjective(w, Preferred(w, entries), members, Reserved(nodeName));
    MembersHaveNpubs(w, members);
    AliasMapAt(w, members, Assign(w, Preferred(w, entries), members, Reserved(nodeName)), i);
  }

  /** With at most 9,997 members, normalisation gives every member a valid label different from the node's own. */
  lemma AliasIsValid(w: World, entries: seq<(string, string)>, members: seq<string>, nodeName: string, m: string)
    requires Configured(w, members) && m in members
    ensures var aliases := Aliases(w, entries, members, nodeName);
            && w.npub(m) in aliases && ValidLabel(aliases[w.npub(m)])
            && NormalizeLabel(nodeName) != Some(aliases[w.npub(m)])
  {
    var i :| 0 <= i < |members| && members[i] == m;
    AliasAt(w, entries, members, nodeName, i);
  }

  /** No two members share a label. */
  lemma {:induction false} AliasesAreInjective(w: World, entries: seq<(string, string)>, members: seq<string>, nodeName: string, m: string, n: string)
    requires Configured(w, members) && m in members && n in members && m != n
    ensures var aliases := Aliases(w, entries, members, nodeName);
            w.npub(m) in aliases && w.npub(n) in aliases && aliases[w.npub(m)] != aliases[w.npub(n)]
  {
    var i :| 0 <= i < |members| && members[i] == m;
    var j :| 0 <= j < |members| && members[j] == n;
    AliasAt(w, entries, members, nodeName, i);
    AliasAt(w, entries, members, nodeName, j);
  }

  /** Only members are in the book. */
  lemma {:induction false} BookHoldsMembers(w: World, entries: seq<(string, string)>, members: seq<string>, nodeName: string, npub: string)
    requires Configured(w, members) && npub in Aliases(w, entries, members, nodeName)
    ensures exists m :: m in members && npub == w.npub(m)
  {
    AliasMapKeys(w, members, Assign(w, Preferred(w, entries), members, Reserved(nodeName)));
  }

  // ---- Which label a member gets ----

  /** The last entry that reads as this npub and has a label in it asks for that label. */
  ghost predicate AsksFor(w: World, entries: seq<(string, string)>, npub: string, text: string)
  {
    exists j :: 0 <= j < |entries| && Reads(w, entries[j], npub, text)
      && forall k :: j < k < |entries| ==> ReadsNothing(w, entries[k], npub)
  }

  predicate Reads(w: World, entry: (string, string), npub: string, text: string)
  {
    w.parseNpub(entry.0) == Some(npub) && NormalizeLabel(entry.1) == Some(text)
  }

  predicate ReadsNothing(w: World, entry: (string, string), npub: string)
  {
    w.parseNpub(entry.0) != Some(npub) || NormalizeLabel(entry.1) == None
  }

  lemma {:induction false} PreferredIsAsked(w: World, entries: seq<(string, string)>, npub: string, text: string)
    ensures Lookup(Preferred(w, entries), npub) == Some(text) <==> AsksFor(w, entries, npub, text)
  {
    hide NormalizeLabel;
    if entries != [] {
      var last := |entries| - 1;
      PreferredIsAsked(w, entries[..last], npub, text);
      if ReadsNothing(w, entries[last], npub) {
        AsksSnoc(w, entries, npub, text);
      } else if Reads(w, entries[last], npub, text) {
        assert AsksFor(w, entries, npub, text);
      }
    }
  }

  lemma {:induction false} AsksSnoc(w: World, entries: seq<(string, string)>, npub: string, text: string)
    requires entries != [] && ReadsNothing(w, entries[|entries| - 1], npub)
    ensures AsksFor(w, entries, npub, text) <==> AsksFor(w, entries[..|entries| - 1], npub, text)
  {
    var last := |entries| - 1;
    var before := entries[..last];
    assert entries == before + [entries[last]];
    assert !Reads(w, entries[last], npub, text);
    hide Reads, ReadsNothing;
    if AsksFor(w, entries, npub, text) {
      var j :| 0 <= j < |entries| && Reads(w, entries[j], npub, text) && forall k :: j < k < |entries| ==> ReadsNothing(w, entries[k], npub);
      assert Reads(w, before[j], npub, text);
      forall k | j < k < last ensures ReadsNothing(w, before[k], npub) { assert before[k] == entries[k]; }
    }
    if AsksFor(w, before, npub, text) {
      var j :| 0 <= j < last && Reads(w, before[j], npub, text) && forall k :: j < k < last ==> ReadsNothing(w, before[k], npub);
      assert Reads(w, entries[j], npub, text);
      forall k | j < k < |entries| ensures ReadsNothing(w, entries[k], npub) { if k < last { assert before[k] == entries[k]; } }
    }
  }

  lemma {:induction false} AssignAt(w: World, preferred: map<string, string>, members: seq<string>, reserved: set<string>, i: nat)
    requires w.animals != [] && i < |members|
    ensures var labels := Assign(w, preferred, members, reserved);
            labels[i] == Choice(w, preferred, members[i], reserved + Elems(labels[..i]))
  {
    hide Choice;
    var last := |members| - 1;
    var labels, before := Assign(w, preferred, members, reserved), Assign(w, preferred, members[..last], reserved);
    assert labels[..last] == before;
    if i < last {
      AssignAt(w, preferred, members[..last], reserved, i);
      assert before[..i] == labels[..i];
    }
  }

  /** Someone before has the label, or it is this node's. */
  ghost predicate TakenBefore(w: World, aliases: map<string, string>, members: seq<string>, nodeName: string, i: nat, text: string)
    requires i <= |members|
  {
    || NormalizeLabel(nodeName) == Some(text)
    || exists j :: 0 <= j < i && Lookup(aliases, w.npub(members[j])) == Some(text)
  }

  lemma {:induction false} LabelsInBook(w: World, entries: seq<(string, string)>, members: seq<string>, nodeName: string, i: nat)
    requires Configured(w, members) && i <= |members|
    ensures var labels := Assign(w, Preferred(w, entries), members, Reserved(nodeName));
            forall j :: 0 <= j < i ==> Lookup(Aliases(w, entries, members, nodeName), w.npub(members[j])) == Some(labels[j])
  {
    SoundWorld(w, members);
    hide Configured, Preferred, Aliases, Assign, Reserved, ValidLabel;
    forall j | 0 <= j < i
      ensures Lookup(Aliases(w, entries, members, nodeName), w.npub(members[j])) == Some(Assign(w, Preferred(w, entries), members, Reserved(nodeName))[j])
    {
      AliasAt(w, entries, members, nodeName, j);
    }
  }

  /** What counts as taken for a member are the labels in use when its turn comes. */
  lemma {:induction false} TakenExactly(w: World, entries: seq<(string, string)>, members: seq<string>, nodeName: string, i: nat, text: string)
    requires Configured(w, members) && i < |members|
    ensures var labels := Assign(w, Preferred(w, entries), members, Reserved(nodeName));
            text in Reserved(nodeName) + Elems(labels[..i]) <==> TakenBefore(w, Aliases(w, entries, members, nodeName), members, nodeName, i, text)
  {
    SoundWorld(w, members);
    LabelsInBook(w, entries, members, nodeName, i);
    hide Configured, Preferred, Aliases, Assign, NormalizeLabel;
    TakenAmong(w, Aliases(w, entries, members, nodeName), members, Assign(w, Preferred(w, entries), members, Reserved(nodeName)), i, text);
  }

  lemma {:induction false} TakenAmong(w: World, aliases: map<string, string>, members: seq<string>, labels: seq<string>, i: nat, text: string)
    requires i <= |members| == |labels|
    requires forall j :: 0 <= j < i ==> Lookup(aliases, w.npub(members[j])) == Some(labels[j])
    ensures text in Elems(labels[..i]) <==> exists j :: 0 <= j < i && Lookup(aliases, w.npub(members[j])) == Some(text)
  {
    assert text in Elems(labels[..i]) <==> text in labels[..i];
    if text in labels[..i] {
      var j :| 0 <= j < i && labels[..i][j] == text;
      assert Lookup(aliases, w.npub(members[j])) == Some(text);
    }
    if j :| 0 <= j < i && Lookup(aliases, w.npub(members[j])) == Some(text) { assert labels[..i][j] == text; }
  }

  /** A member is given the label that is asked for it exactly if no member before it has that label and it
      is not this node's own. */
  lemma {:induction false} AskedLabelIsGiven(w: World, entries: seq<(string, string)>, members: seq<string>, nodeName: string, i: nat, text: string)
    requires Configured(w, members) && i < |members| && AsksFor(w, entries, w.npub(members[i]), text)
    ensures var aliases := Aliases(w, entries, members, nodeName);
            Lookup(aliases, w.npub(members[i])) == Some(text) <==> !TakenBefore(w, aliases, members, nodeName, i, text)
  {
    hide Configured, Preferred, Aliases, Assign, AsksFor, TakenBefore, UniqueLabel, Reserved, NormalizeLabel, ValidLabel, UsedBefore;
    AskedFrom(w, entries, members, nodeName, i, text);
    SoundWorld(w, members);
    var used := UsedBefore(w, Preferred(w, entries), members, Reserved(nodeName), i);
    UniqueLabelIsFree(text, used);
    FreeLabelIsKept(text, used);
  }

  /** The label is made unique among those in use when the member's turn comes. */
  lemma {:induction false} AskedFrom(w: World, entries: seq<(string, string)>, members: seq<string>, nodeName: string, i: nat, text: string)
    requires Configured(w, members) && i < |members| && AsksFor(w, entries, w.npub(members[i]), text)
    ensures var aliases, used := Aliases(w, entries, members, nodeName), UsedBefore(w, Preferred(w, entries), members, Reserved(nodeName), i);
            && Lookup(aliases, w.npub(members[i])) == Some(UniqueLabel(text, used))
            && |used| <= MEMBER_LIMIT && text != ""
            && forall t :: t in used <==> TakenBefore(w, aliases, members, nodeName, i, t)
  {
    SoundWorld(w, members);
    hide Configured, Preferred, Aliases, Assign, AsksFor, TakenBefore, UniqueLabel, Reserved, NormalizeLabel, ValidLabel;
    var reserved := Reserved(nodeName);
    var labels := Assign(w, Preferred(w, entries), members, reserved);
    PreferredIsAsked(w, entries, w.npub(members[i]), text);
    PreferredAreValid(w, entries);
    LabelIsNotEmpty(text);
    AssignAt(w, Preferred(w, entries), members, reserved, i);
    AssignPrefix(w, Preferred(w, entries), members, reserved, i);
    AliasAt(w, entries, members, nodeName, i);
    FewTaken(members, labels, nodeName, i);
    forall t ensures t in reserved + Elems(labels[..i]) <==> TakenBefore(w, Aliases(w, entries, members, nodeName), members, nodeName, i, t) {
      TakenExactly(w, entries, members, nodeName, i, t);
    }
  }

  lemma {:induction false} AssignPrefix(w: World, preferred: map<string, string>, members: seq<string>, reserved: set<string>, i: nat)
    requires w.animals != [] && i <= |members|
    ensures Assign(w, preferred, members, reserved)[..i] == Assign(w, preferred, members[..i], reserved)
  {
    hide Choice;
    if i < |members| {
      var last := |members| - 1;
      assert Assign(w, preferred, members, reserved)[..last] == Assign(w, preferred, members[..last], reserved);
      AssignPrefix(w, preferred, members[..last], reserved, i);
      assert members[..last][..i] == members[..i];
      assert Assign(w, preferred, members, reserved)[..last][..i] == Assign(w, preferred, members, reserved)[..i];
    } else {
      assert members[..i] == members;
    }
  }

  /** If the label asked for is taken, the member gets the first one that is not of the label cut short and
      numbered from 2 on. */
  lemma {:induction false} TakenLabelIsNumbered(w: World, entries: seq<(string, string)>, members: seq<string>, nodeName: string, i: nat, text: string)
    requires Configured(w, members) && i < |members| && AsksFor(w, entries, w.npub(members[i]), text)
    requires TakenBefore(w, Aliases(w, entries, members, nodeName), members, nodeName, i, text)
    ensures var aliases := Aliases(w, entries, members, nodeName);
            exists k: nat :: 2 <= k && Lookup(aliases, w.npub(members[i])) == Some(Candidate(text, k))
              && !TakenBefore(w, aliases, members, nodeName, i, Candidate(text, k))
              && forall j :: 2 <= j < k ==> TakenBefore(w, aliases, members, nodeName, i, Candidate(text, j))
  {
    hide Configured, Preferred, Aliases, Assign, AsksFor, TakenBefore, Reserved, NormalizeLabel, ValidLabel, Candidate, UsedBefore;
    AskedFrom(w, entries, members, nodeName, i, text);
    SoundWorld(w, members);
    var used := UsedBefore(w, Preferred(w, entries), members, Reserved(nodeName), i);
    UniqueLabelIsFree(text, used);
    var k := FirstCandidate(text, used, 2);
    assert k < COUNTER_END && UniqueLabel(text, used) == Candidate(text, k);
  }

  lemma SoundWorld(w: World, members: seq<string>)
    requires Configured(w, members)
    ensures w.animals != [] && |members| <= MEMBER_LIMIT
  {
  }

  lemma LabelIsNotEmpty(text: string)
    ensures ValidLabel(text) ==> text != ""
  {
  }

  lemma FreeLabelIsKept(text: string, used: set<string>)
    ensures text != "" && text !in used ==> UniqueLabel(text, used) == text
  {
  }

  lemma FewTaken(members: seq<string>, labels: seq<string>, nodeName: string, i: nat)
    requires i < |members| == |labels| && |members| <= MEMBER_LIMIT
    ensures |Reserved(nodeName) + Elems(labels[..i])| <= MEMBER_LIMIT
  {
    ElemsSize(labels[..i]);
    ReservedSize(nodeName);
    UnionSize(Reserved(nodeName), Elems(labels[..i]));
  }

  /** The list from some place on, going round. */
  function Round(animals: seq<string>, index: nat): (r: seq<string>)
    requires index < |animals|
    ensures |r| == |animals|
  {
    animals[index..] + animals[..index]
  }

  lemma RoundNext(animals: seq<string>, index: nat)
    requires index < |animals|
    ensures Round(animals, (index + 1) % |animals|) == Round(animals, index)[1..] + [animals[index]]
    ensures Round(animals, index)[0] == animals[index]
  {
    var n := |animals|;
    if index + 1 == n {
      assert (index + 1) % n == 0;
      assert animals == animals[..index] + [animals[index]];
    } else {
      assert (index + 1) % n == index + 1;
      assert animals[..index + 1] == animals[..index] + [animals[index]];
    }
  }

  /** The first entry of the list that is not in use is at `k`. */
  ghost predicate FirstUnused(list: seq<string>, used: set<string>, k: nat)
  {
    k < |list| && list[k] !in used && forall j :: 0 <= j < k ==> list[j] in used
  }

  lemma {:induction false} AnimalExactly(animals: seq<string>, index: nat, rounds: nat, used: set<string>)
    requires index < |animals| && rounds <= |animals|
    ensures var found, list := Animal(animals, index, rounds, used), Round(animals, index)[..rounds];
            if found.Some? then exists k: nat :: FirstUnused(list, used, k) && found.value == list[k]
            else forall k :: 0 <= k < rounds ==> list[k] in used
    decreases rounds
  {
    if rounds > 0 {
      var list := Round(animals, index)[..rounds];
      var next := (index + 1) % |animals|;
      RoundNext(animals, index);
      hide Round;
      if animals[index] !in used {
        assert FirstUnused(list, used, 0);
      } else {
        AnimalExactly(animals, next, rounds - 1, used);
        var rest := Round(animals, next)[..rounds - 1];
        assert list == [animals[index]] + rest;
        var found := Animal(animals, next, rounds - 1, used);
        if found.Some? {
          var k: nat :| FirstUnused(rest, used, k) && found.value == rest[k];
          assert FirstUnused(list, used, k + 1);
        }
      }
    }
  }

  /** Without a label asked for, a key starts from the first animal name not in use, from its own place in the list on
      and once round it, or from its first twelve digits if all are in use. */
  lemma {:induction false} DefaultLabelExactly(w: World, key: string, used: set<string>)
    requires w.animals != []
    ensures var text, list := DefaultLabel(w, key, used), Round(w.animals, w.digest(key) % |w.animals|);
            || (exists k: nat :: FirstUnused(list, used, k) && text == list[k])
            || ((forall k :: 0 <= k < |list| ==> list[k] in used) && text == "peer-" + if |key| <= 12 then key else key[..12])
  {
    var n := |w.animals|;
    var list := Round(w.animals, w.digest(key) % n);
    assert list[..n] == list;
    AnimalExactly(w.animals, w.digest(key) % n, n, used);
    hide FirstUnused, Round;
  }

  // ---- Rebuilding a rebuilt book ----

  /** Keys are read back from their npubs. */
  ghost predicate ReadsNpubs(w: World)
  {
    forall k :: HexKey(k) ==> w.parseNpub(w.npub(k)) == Some(w.npub(k))
  }

  /** The entries of the book in some order. */
  ghost predicate ListsBook(entries: seq<(string, string)>, book: map<string, string>)
  {
    forall e :: e in entries <==> e.0 in book && book[e.0] == e.1
  }

  /** A book of canonical npubs and valid labels asks for just these labels. */
  lemma {:induction false} BookIsPreferred(w: World, entries: seq<(string, string)>, book: map<string, string>)
    requires forall e :: e in entries ==> e.0 in book && book[e.0] == e.1
    requires forall npub :: npub in book ==> w.parseNpub(npub) == Some(npub) && ValidLabel(book[npub])
    ensures forall e :: e in entries ==> e.0 in Preferred(w, entries)
    ensures forall npub :: npub in Preferred(w, entries) ==> npub in book && Preferred(w, entries)[npub] == book[npub]
  {
    if entries != [] {
      hide ValidLabel;
      var last := |entries| - 1;
      BookIsPreferred(w, entries[..last], book);
      NormalizeFixed(entries[last].1);
      assert entries == entries[..last] + [entries[last]];
    }
  }

  lemma AssignSnoc(w: World, preferred: map<string, string>, members: seq<string>, reserved: set<string>)
    requires w.animals != [] && members != []
    ensures var last := |members| - 1;
            var before := Assign(w, preferred, members[..last], reserved);
            Assign(w, preferred, members, reserved) == before + [Choice(w, preferred, members[last], reserved + Elems(before))]
  {
  }

  lemma ChoiceKept(w: World, preferred: map<string, string>, member: string, used: set<string>, text: string)
    requires w.animals != [] && w.npub(member) in preferred && preferred[w.npub(member)] == text
    requires text != "" && text !in used
    ensures Choice(w, preferred, member, used) == text
  {
  }

  /** Members who ask for labels that were handed out get them again. */
  lemma {:induction false} AssignAgain(w: World, preferred: map<string, string>, members: seq<string>, labels: seq<string>, reserved: set<string>)
    requires w.animals != [] && |members| == |labels| && HandedOut(labels, reserved)
    requires forall i :: 0 <= i < |members| ==> w.npub(members[i]) in preferred && preferred[w.npub(members[i])] == labels[i]
    ensures Assign(w, preferred, members, reserved) == labels
  {
    if members != [] {
      var last := |members| - 1;
      AssignAgain(w, preferred, members[..last], labels[..last], reserved);
      hide Assign, Choice;
      AssignSnoc(w, preferred, members, reserved);
      ChoiceKept(w, preferred, members[last], reserved + Elems(labels[..last]), labels[last]);
      assert labels == labels[..last] + [labels[last]];
    }
  }

  /** Rebuilding the rebuilt book, in whatever order its entries come, changes nothing. */
  lemma {:induction false} RebuildIsIdempotent(w: World, entries: seq<(string, string)>, again: seq<(string, string)>, members: seq<string>, nodeName: string)
    requires Configured(w, members) && ReadsNpubs(w)
    requires ListsBook(again, Aliases(w, entries, members, nodeName))
    ensures Aliases(w, again, members, nodeName) == Aliases(w, entries, members, nodeName)
  {
    hide Assign, Preferred, Reserved, AliasMap, HexKey, ValidLabel;
    var book, reserved := Aliases(w, entries, members, nodeName), Reserved(nodeName);
    var labels := Assign(w, Preferred(w, entries), members, reserved);
    PreferredAreValid(w, entries);
    ReservedSize(nodeName);
    AssignIsInjective(w, Preferred(w, entries), members, reserved);
    forall i | 0 <= i < |members|
      ensures w.npub(members[i]) in book && book[w.npub(members[i])] == labels[i] && ValidLabel(labels[i])
    {
      AliasAt(w, entries, members, nodeName, i);
    }
    AliasMapKeys(w, members, labels);
    BookIsPreferred(w, again, book);
    forall i | 0 <= i < |members| ensures w.npub(members[i]) in Preferred(w, again) {
      assert (w.npub(members[i]), labels[i]) in again;
    }
    AssignAgain(w, Preferred(w, again), members, labels, reserved);
  }

  method NormalizeEntries(w: World, entries: seq<(string, string)>) returns (preferred: map<string, string>)
    ensures preferred == Preferred(w, entries)
  {
    preferred := map[];
    assert entries[..0] == [];
    for i := 0 to |entries|
      invariant preferred == Preferred(w, entries[..i])
    {
      assert entries[..i + 1][..i] == entries[..i];
      var npub := w.parseNpub(entries[i].0);
      var text := Normalize(entries[i].1);
      if npub.Some? && text.Some? { preferred := preferred[npub.value := text.value]; }
    }
    assert entries[..|entries|] == entries;
  }

  method Choose(w: World, preferred: map<string, string>, member: string, used: set<string>) returns (text: string, used': set<string>)
    requires w.animals != []
    ensures text == Choice(w, preferred, member, used) && used' == used + {text}
  {
    var npub := w.npub(member);
    var base;
    if npub in preferred { base := preferred[npub]; } else { base := DefaultMagicDnsLabel(w, member, used); }
    text, used' := UniquifyLabel(base, used);
  }

  /** The labels in use, and the book, once the members before `i` have their aliases. */
  ghost function UsedBefore(w: World, preferred: map<string, string>, members: seq<string>, reserved: set<string>, i: nat): set<string>
    requires w.animals != [] && i <= |members|
  {
    reserved + Elems(Assign(w, preferred, members[..i], reserved))
  }

  ghost function BookBefore(w: World, preferred: map<string, string>, members: seq<string>, reserved: set<string>, i: nat): map<string, string>
    requires w.animals != [] && i <= |members|
  {
    AliasMap(w, members[..i], Assign(w, preferred, members[..i], reserved))
  }

  lemma {:induction false} BookEnds(w: World, preferred: map<string, string>, members: seq<string>, reserved: set<string>)
    requires w.animals != []
    ensures UsedBefore(w, preferred, members, reserved, 0) == reserved
    ensures BookBefore(w, preferred, members, reserved, 0) == map[]
    ensures BookBefore(w, preferred, members, reserved, |members|) == AliasMap(w, members, Assign(w, preferred, members, reserved))
  {
    assert members[..0] == [] && members[..|members|] == members;
  }

  lemma {:induction false} BookNext(w: World, preferred: map<string, string>, members: seq<string>, reserved: set<string>, i: nat)
    requires w.animals != [] && i < |members|
    ensures var used := UsedBefore(w, preferred, members, reserved, i);
            var text := Choice(w, preferred, members[i], used);
            && UsedBefore(w, preferred, members, reserved, i + 1) == used + {text}
            && BookBefore(w, preferred, members, reserved, i + 1)
               == BookBefore(w, preferred, members, reserved, i)[w.npub(members[i]) := text]
  {
    var labels := Assign(w, preferred, members[..i], reserved);
    var text := Choice(w, preferred, members[i], reserved + Elems(labels));
    assert members[..i + 1][..i] == members[..i];
    assert Assign(w, preferred, members[..i + 1], reserved) == labels + [text];
    assert (labels + [text])[..i] == labels;
    ElemsConcat(labels, [text]);
  }

  /** `normalize_peer_aliases`: the loop over the sorted members, which rewrites the alias book. */
  method NormalizePeerAliases(w: World, entries: seq<(string, string)>, members: seq<string>, nodeName: string)
    returns (aliases: map<string, string>)
    requires w.animals != []
    ensures aliases == Aliases(w, entries, members, nodeName)
  {
    var preferred := NormalizeEntries(w, entries);
    var own := Normalize(nodeName);
    var reserved: set<string> := if own.Some? then {own.value} else {};
    aliases := AliasAll(w, preferred, members, reserved);
  }

  method AliasAll(w: World, preferred: map<string, string>, members: seq<string>, reserved: set<string>)
    returns (aliases: map<string, string>)
    requires w.animals != []
    ensures aliases == AliasMap(w, members, Assign(w, preferred, members, reserved))
  {
    var used := reserved;
    aliases := map[];
    BookEnds(w, preferred, members, reserved);
    for i := 0 to |members|
      invariant used == UsedBefore(w, preferred, members, reserved, i)
      invariant aliases == BookBefore(w, preferred, members, reserved, i)
    {
      BookNext(w, preferred, members, reserved, i);
      var text;
      text, used := Choose(w, preferred, members[i], used);
      aliases := aliases[w.npub(members[i]) := text];
    }
  }
}
