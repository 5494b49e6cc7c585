/** Resolving MagicDNS queries against the normalised alias book. */
module Resolver {
  import opened Common
  import opened Labels
  import opened Naming

  // ---- The suffix ----

  function DropEndDots(s: string): string
  {
    if s != [] && s[|s| - 1] == '.' then DropEndDots(s[..|s| - 1]) else s
  }

  /** The dot-separated parts of a text. */
  function Split(s: string): (parts: seq<string>)
    ensures parts != []
  {
    if s == [] then [""]
    else
      var parts := Split(s[..|s| - 1]);
      var last := |parts| - 1;
      if s[|s| - 1] == '.' then parts + [""]
      else parts[..last] + [parts[last] + [s[|s| - 1]]]
  }

  function GoodLabels(parts: seq<string>): seq<string>
  {
    if parts == [] then []
    else
      (if NormalizeLabel(parts[0]).Some? then [NormalizeLabel(parts[0]).value] else []) + GoodLabels(parts[1..])
  }

  function Join(parts: seq<string>): string
  {
    if parts == [] then ""
    else if |parts| == 1 then parts[0]
    else parts[0] + "." + Join(parts[1..])
  }

  /** `normalize_magic_dns_suffix`. */
  function NormalizeSuffix(value: string): string
  {
    var labels := GoodLabels(Split(DropEndDots(Trim(value))));
    if labels == [] then "nvpn" else Join(labels)
  }

  /** Lower-case letters, digits, dashes and dots, not ending in a dot. */
  ghost predicate CleanName(s: string)
  {
    && (forall i :: 0 <= i < |s| ==> IsLower(s[i]) || s[i] == '-' || s[i] == '.')
    && (s != [] ==> s[|s| - 1] != '.')
  }

  lemma {:induction false} GoodLabelsValid(parts: seq<string>)
    ensures forall l :: l in GoodLabels(parts) ==> ValidLabel(l)
  {
    if parts != [] {
      GoodLabelsValid(parts[1..]);
      NormalizeMeaning(parts[0]);
    }
  }

  lemma {:induction false} JoinIsClean(parts: seq<string>)
    requires parts != [] && forall l :: l in parts ==> ValidLabel(l)
    ensures CleanName(Join(parts)) && Join(parts) != ""
  {
    assert parts[0] in parts;
    if |parts| > 1 {
      assert forall l :: l in parts[1..] ==> l in parts;
      JoinIsClean(parts[1..]);
      var s := Join(parts);
      assert s == parts[0] + "." + Join(parts[1..]);
      assert s[|s| - 1] == Join(parts[1..])[|Join(parts[1..])| - 1];
    }
  }

  /** A normalised suffix is never empty and survives the cleaning of queries. */
  lemma SuffixIsClean(value: string)
    ensures NormalizeSuffix(value) != "" && CleanName(NormalizeSuffix(value))
  {
    var labels := GoodLabels(Split(DropEndDots(Trim(value))));
    GoodLabelsValid(Split(DropEndDots(Trim(value))));
    if labels != [] { JoinIsClean(labels); }
  }

  /** Splitting is undone by joining, and no part holds a dot. */
  lemma {:induction false} SplitMeaning(s: string)
    ensures Join(Split(s)) == s && forall part :: part in Split(s) ==> '.' !in part
  {
    if s != [] {
      hide Join;
      var n := |s| - 1;
      var parts := Split(s[..n]);
      SplitMeaning(s[..n]);
      assert s == s[..n] + [s[n]];
      SplitSnoc(s[..n], s[n]);
    } else {
      assert Split(s) == [""];
    }
  }

  /** One more character goes to the last part, or starts a new one. */
  lemma {:induction false} SplitSnoc(s: string, c: char)
    requires Join(Split(s)) == s && forall part :: part in Split(s) ==> '.' !in part
    ensures Join(Split(s + [c])) == s + [c] && forall part :: part in Split(s + [c]) ==> '.' !in part
  {
    hide Join;
    var parts, longer := Split(s), s + [c];
    var init, last := parts[..|parts| - 1], parts[|parts| - 1];
    assert longer[..|longer| - 1] == s && parts == init + [last];
    assert last in parts && forall part :: part in init ==> part in parts;
    JoinSnoc(init, last);
    if c == '.' {
      JoinSnoc(parts, "");
      assert Split(longer) == parts + [""];
    } else {
      JoinSnoc(init, last + [c]);
      assert Split(longer) == init + [last + [c]];
      assert Stem(init) + (last + [c]) == Stem(init) + last + [c];
    }
  }

  /** The text of the parts before the last one, with the dot that ends it. */
  function Stem(parts: seq<string>): string
  {
    if parts == [] then "" else Join(parts) + "."
  }

  lemma {:induction false} JoinSnoc(parts: seq<string>, part: string)
    ensures Join(parts + [part]) == Stem(parts) + part
  {
    if parts == [] {
      assert [] + [part] == [part];
    } else {
      JoinSnoc(parts[1..], part);
      assert (parts + [part])[1..] == parts[1..] + [part];
      if |parts| == 1 {
        assert parts[1..] == [];
        assert Stem([]) + part == part;
      } else {
        assert Stem(parts) + part == parts[0] + "." + (Stem(parts[1..]) + part);
      }
    }
  }

  /** Parts without dots are found again. */
  lemma {:induction false} SplitJoin(parts: seq<string>)
    requires parts != [] && forall part :: part in parts ==> '.' !in part
    ensures Split(Join(parts)) == parts
  {
    var last := |parts| - 1;
    assert parts == parts[..last] + [parts[last]];
    assert parts[last] in parts && forall part :: part in parts[..last] ==> part in parts;
    JoinSnoc(parts[..last], parts[last]);
    if last > 0 {
      SplitJoin(parts[..last]);
      var stem := Stem(parts[..last]);
      assert stem[..|stem| - 1] == Join(parts[..last]);
      assert Split(stem) == parts[..last] + [""];
    } else {
      assert Stem(parts[..last]) == "" && Split("") == parts[..last] + [""];
    }
    SplitTail(Stem(parts[..last]), parts[..last], parts[last]);
  }

  lemma {:induction false} SplitTail(stem: string, before: seq<string>, part: string)
    requires Split(stem) == before + [""] && '.' !in part
    ensures Split(stem + part) == before + [part]
  {
    if part == "" {
      assert stem + part == stem;
    } else {
      var n := |part| - 1;
      assert part[n] in part && forall c :: c in part[..n] ==> c in part;
      SplitTail(stem, before, part[..n]);
      assert (stem + part)[..|stem + part| - 1] == stem + part[..n];
      assert part == part[..n] + [part[n]];
    }
  }

  lemma {:induction false} GoodLabelsFixed(parts: seq<string>)
    requires forall part :: part in parts ==> ValidLabel(part)
    ensures GoodLabels(parts) == parts
  {
    if parts != [] {
      assert parts[0] in parts && forall part :: part in parts[1..] ==> part in parts;
      NormalizeFixed(parts[0]);
      GoodLabelsFixed(parts[1..]);
      assert parts == [parts[0]] + parts[1..];
    }
  }

  /** A suffix made of labels is normal, and normalising twice is normalising once. */
  lemma {:induction false} SuffixFixed(labels: seq<string>)
    requires labels != [] && forall l :: l in labels ==> ValidLabel(l)
    ensures NormalizeSuffix(Join(labels)) == Join(labels)
  {
    var text := Join(labels);
    JoinIsClean(labels);
    TrimFixed(text);
    forall l | l in labels ensures '.' !in l {}
    hide ValidLabel, NormalizeLabel;
    SplitJoin(labels);
    GoodLabelsFixed(labels);
  }

  lemma {:induction false} SuffixIdempotent(value: string)
    ensures NormalizeSuffix(NormalizeSuffix(value)) == NormalizeSuffix(value)
  {
    hide NormalizeLabel, Split, Join, GoodLabels;
    var parts := Split(DropEndDots(Trim(value)));
    GoodLabelsValid(parts);
    if GoodLabels(parts) != [] { SuffixFixed(GoodLabels(parts)); } else { DefaultSuffixFixed(); }
  }

  lemma DefaultSuffixFixed()
    ensures NormalizeSuffix("nvpn") == "nvpn"
  {
    hide NormalizeLabel;
    assert Join(["nvpn"]) == "nvpn";
    SuffixFixed(["nvpn"]);
  }

  // ---- Queries ----

  /** `query.trim().trim_end_matches('.').to_lowercase()`. */
  function CleanQuery(w: World, query: string): string
  {
    w.lower(DropEndDots(Trim(query)))
  }

  lemma CleanNamesStay(w: World, s: string)
    requires Sound(w) && CleanName(s)
    ensures CleanQuery(w, s) == s
  {
    TrimFixed(s);
    assert DropEndDots(s) == s;
  }

  function FullName(text: string, suffix: string): string
  {
    if suffix == "" then text else text + "." + suffix
  }

  function SelfLabel(nodeName: string, aliases: map<string, string>): Option<string>
  {
    if NormalizeLabel(nodeName).None? then None
    else Some(UniqueLabel(NormalizeLabel(nodeName).value, aliases.Values))
  }

  predicate Answers(w: World, aliases: map<string, string>, suffix: string, participant: string, query: string)
  {
    var npub := w.npub(participant);
    && npub in aliases
    && (query == aliases[npub] || (suffix != "" && query == aliases[npub] + "." + suffix))
  }

  function FirstAnswer(w: World, aliases: map<string, string>, suffix: string, participants: seq<string>, query: string): Option<string>
  {
    if participants == [] then None
    else if Answers(w, aliases, suffix, participants[0], query) then Some(participants[0])
    else FirstAnswer(w, aliases, suffix, participants[1..], query)
  }

  predicate NamesSelf(own: Option<string>, nodeName: string, suffix: string, aliases: map<string, string>, query: string)
  {
    var self := SelfLabel(nodeName, aliases);
    own.Some? && self.Some? && (query == self.value || query == FullName(self.value, suffix))
  }

  /** `resolve_magic_dns_query` over the participants of the active network. */
  function Resolve(w: World, own: Option<string>, nodeName: string, suffix: string, participants: seq<string>,
                   aliases: map<string, string>, rawQuery: string): Option<string>
  {
    var query := CleanQuery(w, rawQuery);
    if query == "" then None
    else if NamesSelf(own, nodeName, suffix, aliases, query) then own
    else FirstAnswer(w, aliases, suffix, participants, query)
  }

  /** The two names of a participant. */
  predicate IsNameOf(w: World, aliases: map<string, string>, suffix: string, p: string, name: string)
  {
    w.npub(p) in aliases && (name == aliases[w.npub(p)] || name == FullName(aliases[w.npub(p)], suffix))
  }

  lemma DotSeparates(a: string, b: string, suffix: string)
    requires ValidLabel(a) && ValidLabel(b)
    ensures a != b + "." + suffix
    ensures a + "." + suffix == b + "." + suffix ==> a == b
  {
    assert (b + "." + suffix)[|b|] == '.';
    if a + "." + suffix == b + "." + suffix {
      assert |a| == |b|;
      assert (a + "." + suffix)[..|a|] == a && (b + "." + suffix)[..|b|] == b;
    }
  }

  lemma NamesDiffer(a: string, b: string, suffix: string, name: string)
    requires ValidLabel(a) && ValidLabel(b) && a != b
    requires name == a || name == FullName(a, suffix)
    ensures name != b && name != FullName(b, suffix)
  {
    DotSeparates(a, b, suffix);
    DotSeparates(b, a, suffix);
  }

  lemma {:induction false} FirstAnswerIs(w: World, aliases: map<string, string>, suffix: string, participants: seq<string>, query: string, p: string)
    requires p in participants && Answers(w, aliases, suffix, p, query)
    requires forall q :: q in participants && q != p ==> !Answers(w, aliases, suffix, q, query)
    ensures FirstAnswer(w, aliases, suffix, participants, query) == Some(p)
  {
    if participants[0] != p {
      assert participants == [participants[0]] + participants[1..];
      assert forall q :: q in participants[1..] ==> q in participants;
      FirstAnswerIs(w, aliases, suffix, participants[1..], query, p);
    }
  }

  lemma {:induction false} FirstAnswerSound(w: World, aliases: map<string, string>, suffix: string, participants: seq<string>, query: string)
    ensures var r := FirstAnswer(w, aliases, suffix, participants, query);
            r.Some? ==> r.value in participants && Answers(w, aliases, suffix, r.value, query)
  {
    if participants != [] { FirstAnswerSound(w, aliases, suffix, participants[1..], query); }
  }

  /** A name made of a member's alias does not name this node. */
  lemma {:induction false} MemberIsNotSelf(w: World, entries: seq<(string, string)>, members: seq<string>, nodeName: string, own: Option<string>,
                        suffix: string, p: string, name: string)
    requires Configured(w, members) && p in members
    requires IsNameOf(w, Aliases(w, entries, members, nodeName), suffix, p, name)
    ensures !NamesSelf(own, nodeName, suffix, Aliases(w, entries, members, nodeName), name)
  {
    hide Aliases, NormalizeLabel, ValidLabel;
    var aliases := Aliases(w, entries, members, nodeName);
    AliasIsValid(w, entries, members, nodeName, p);
    if NormalizeLabel(nodeName).Some? {
      var self := NormalizeLabel(nodeName).value;
      NormalizeMeaning(nodeName);
      LabelsAreNotEmpty(self);
      SelfIsFree(w, entries, members, nodeName);
      assert SelfLabel(nodeName, aliases) == Some(self);
      NamesDiffer(aliases[w.npub(p)], self, suffix, name);
    }
  }

  lemma LabelsAreNotEmpty(text: string)
    requires ValidLabel(text)
    ensures text != ""
  {
  }

  /** This node's preferred label is nobody's alias, so it keeps it. */
  lemma {:induction false} SelfIsFree(w: World, entries: seq<(string, string)>, members: seq<string>, nodeName: string)
    requires Configured(w, members) && NormalizeLabel(nodeName).Some?
    ensures NormalizeLabel(nodeName).value !in Aliases(w, entries, members, nodeName).Values
  {
    hide Aliases, NormalizeLabel, ValidLabel;
    var aliases := Aliases(w, entries, members, nodeName);
    forall npub | npub in aliases ensures aliases[npub] != NormalizeLabel(nodeName).value {
      BookHoldsMembers(w, entries, members, nodeName, npub);
      var m :| m in members && npub == w.npub(m);
      AliasIsValid(w, entries, members, nodeName, m);
    }
  }

  /** A query that cleans to a participant's alias, bare or with the suffix, finds that participant:
      outer blanks, trailing dots and capitals do not matter. */
  lemma {:induction false} ParticipantResolves(w: World, entries: seq<(string, string)>, members: seq<string>, nodeName: string, own: Option<string>,
                            suffix: string, participants: seq<string>, p: string, query: string)
    requires Configured(w, members)
    requires p in participants && forall q :: q in participants ==> q in members
    requires IsNameOf(w, Aliases(w, entries, members, nodeName), suffix, p, CleanQuery(w, query))
    ensures Resolve(w, own, nodeName, suffix, participants, Aliases(w, entries, members, nodeName), query) == Some(p)
  {
    hide Aliases, NormalizeLabel, ValidLabel, NamesSelf, CleanQuery;
    var aliases := Aliases(w, entries, members, nodeName);
    var name := CleanQuery(w, query);
    AliasIsValid(w, entries, members, nodeName, p);
    var a := aliases[w.npub(p)];
    LabelsAreNotEmpty(a);
    MemberIsNotSelf(w, entries, members, nodeName, own, suffix, p, name);
    forall q | q in participants && q != p ensures !Answers(w, aliases, suffix, q, name) {
      AliasIsValid(w, entries, members, nodeName, q);
      AliasesAreInjective(w, entries, members, nodeName, p, q);
      NamesDiffer(a, aliases[w.npub(q)], suffix, name);
    }
    FirstAnswerIs(w, aliases, suffix, participants, name, p);
  }

  /** Both names of a participant are queries that clean to themselves, so they find it as they stand. */
  lemma {:induction false} OwnNamesResolve(w: World, entries: seq<(string, string)>, members: seq<string>, nodeName: string, own: Option<string>,
                        suffix: string, participants: seq<string>, p: string, name: string)
    requires Configured(w, members) && CleanName(suffix)
    requires p in participants && forall q :: q in participants ==> q in members
    requires IsNameOf(w, Aliases(w, entries, members, nodeName), suffix, p, name)
    ensures Resolve(w, own, nodeName, suffix, participants, Aliases(w, entries, members, nodeName), name) == Some(p)
  {
    hide Aliases, NormalizeLabel, ValidLabel, Resolve, CleanQuery;
    AliasIsValid(w, entries, members, nodeName, p);
    LabelIsClean(Aliases(w, entries, members, nodeName)[w.npub(p)], suffix);
    CleanNamesStay(w, name);
    ParticipantResolves(w, entries, members, nodeName, own, suffix, participants, p, name);
  }

  /** A participant other than this node is found by exactly the queries that clean to one of its names. */
  lemma {:induction false} ResolvesExactly(w: World, entries: seq<(string, string)>, members: seq<string>, nodeName: string, own: Option<string>,
                        suffix: string, participants: seq<string>, p: string, query: string)
    requires Configured(w, members)
    requires p in participants && Some(p) != own && forall q :: q in participants ==> q in members
    ensures Resolve(w, own, nodeName, suffix, participants, Aliases(w, entries, members, nodeName), query) == Some(p) <==>
              IsNameOf(w, Aliases(w, entries, members, nodeName), suffix, p, CleanQuery(w, query))
  {
    hide Aliases, Resolve, CleanQuery, IsNameOf;
    AnswersAreNames(w, own, nodeName, suffix, participants, Aliases(w, entries, members, nodeName), query);
    if IsNameOf(w, Aliases(w, entries, members, nodeName), suffix, p, CleanQuery(w, query)) {
      ParticipantResolves(w, entries, members, nodeName, own, suffix, participants, p, query);
    }
  }

  lemma LabelIsClean(a: string, suffix: string)
    requires ValidLabel(a) && CleanName(suffix)
    ensures CleanName(a) && CleanName(FullName(a, suffix)) && a != ""
  {
    var s := a + "." + suffix;
    if suffix != "" { assert s[|s| - 1] == suffix[|suffix| - 1]; }
  }

  /** Conversely an answer other than this node's own key is a participant, asked for by one of its names. */
  lemma AnswersAreNames(w: World, own: Option<string>, nodeName: string, suffix: string, participants: seq<string>,
                        aliases: map<string, string>, query: string)
    ensures var r := Resolve(w, own, nodeName, suffix, participants, aliases, query);
            r.Some? && r != own ==> r.value in participants && IsNameOf(w, aliases, suffix, r.value, CleanQuery(w, query))
  {
    FirstAnswerSound(w, aliases, suffix, participants, CleanQuery(w, query));
  }

  // ---- When there is an answer, and when it is this node ----

  /** The query is this node's label, bare or with the suffix. */
  predicate IsOwnName(nodeName: string, aliases: map<string, string>, suffix: string, name: string)
  {
    var mine := SelfLabel(nodeName, aliases);
    mine.Some? && (name == mine.value || (suffix != "" && name == mine.value + "." + suffix))
  }

  lemma {:induction false} FirstAnswerExists(w: World, aliases: map<string, string>, suffix: string, participants: seq<string>, query: string)
    ensures FirstAnswer(w, aliases, suffix, participants, query).Some? <==>
              exists p :: p in participants && IsNameOf(w, aliases, suffix, p, query)
  {
    hide NormalizeLabel;
    if participants != [] {
      assert participants == [participants[0]] + participants[1..];
      FirstAnswerExists(w, aliases, suffix, participants[1..], query);
      assert Answers(w, aliases, suffix, participants[0], query) <==> IsNameOf(w, aliases, suffix, participants[0], query);
    }
  }

  /** A query has an answer exactly if it does not clean to nothing and cleans to this node's label, bare or with
      the suffix, while this node has a key, or to a name of some participant. */
  lemma {:induction false} AnsweredExactly(w: World, own: Option<string>, nodeName: string, suffix: string, participants: seq<string>,
                                           aliases: map<string, string>, query: string)
    ensures var name := CleanQuery(w, query);
            Resolve(w, own, nodeName, suffix, participants, aliases, query).Some? <==>
              && name != ""
              && ((own.Some? && IsOwnName(nodeName, aliases, suffix, name))
                  || exists p :: p in participants && IsNameOf(w, aliases, suffix, p, name))
  {
    hide CleanQuery, SelfLabel, IsNameOf, FirstAnswer;
    FirstAnswerExists(w, aliases, suffix, participants, CleanQuery(w, query));
  }

  /** This node's key, if it is not itself a participant's, is the answer to exactly the queries that clean to this
      node's label, bare or with the suffix. */
  lemma {:induction false} OwnAnsweredExactly(w: World, own: string, nodeName: string, suffix: string, participants: seq<string>,
                                              aliases: map<string, string>, query: string)
    requires own !in participants
    ensures var name := CleanQuery(w, query);
            Resolve(w, Some(own), nodeName, suffix, participants, aliases, query) == Some(own) <==>
              name != "" && IsOwnName(nodeName, aliases, suffix, name)
  {
    hide CleanQuery, SelfLabel, FirstAnswer;
    FirstAnswerSound(w, aliases, suffix, participants, CleanQuery(w, query));
  }

  /** With a rebuilt alias book this node's label is its normalised name. */
  lemma {:induction false} OwnLabel(w: World, entries: seq<(string, string)>, members: seq<string>, nodeName: string)
    requires Configured(w, members)
    ensures SelfLabel(nodeName, Aliases(w, entries, members, nodeName)) == NormalizeLabel(nodeName)
  {
    hide Aliases, NormalizeLabel, ValidLabel, Configured;
    if NormalizeLabel(nodeName).Some? {
      NormalizeMeaning(nodeName);
      LabelsAreNotEmpty(NormalizeLabel(nodeName).value);
      SelfIsFree(w, entries, members, nodeName);
    }
  }

  lemma {:induction false} DropDots(s: string, dots: string)
    requires (s == "" || s[|s| - 1] != '.') && forall i :: 0 <= i < |dots| ==> dots[i] == '.'
    ensures DropEndDots(s + dots) == s
  {
    if dots == "" {
      assert s + dots == s;
    } else {
      var n := |dots| - 1;
      assert (s + dots)[..|s + dots| - 1] == s + dots[..n];
      DropDots(s, dots[..n]);
    }
  }

  lemma {:induction false} TrimBlanks(before: string, s: string, after: string)
    requires s != "" && !IsSpace(s[0]) && !IsSpace(s[|s| - 1])
    requires (forall i :: 0 <= i < |before| ==> IsSpace(before[i])) && forall i :: 0 <= i < |after| ==> IsSpace(after[i])
    ensures Trim(before + s + after) == s
  {
    hide IsSpace;
    TrimBefore(before, s + after);
    assert before + s + after == before + (s + after);
    TrimAfter(s, after);
  }

  lemma {:induction false} TrimBefore(before: string, s: string)
    requires s != "" && !IsSpace(s[0]) && forall i :: 0 <= i < |before| ==> IsSpace(before[i])
    ensures TrimStart(before + s) == s
  {
    hide IsSpace;
    if before == "" {
      assert before + s == s;
    } else {
      assert (before + s)[1..] == before[1..] + s;
      TrimBefore(before[1..], s);
    }
  }

  lemma {:induction false} TrimAfter(s: string, after: string)
    requires s != "" && !IsSpace(s[|s| - 1]) && forall i :: 0 <= i < |after| ==> IsSpace(after[i])
    ensures TrimEnd(s + after) == s
  {
    hide IsSpace;
    if after == "" {
      assert s + after == s;
    } else {
      var n := |after| - 1;
      assert (s + after)[..|s + after| - 1] == s + after[..n];
      TrimAfter(s, after[..n]);
    }
  }

  /** Outer blanks and final dots do not matter to a query. */
  lemma {:induction false} QueryCleans(w: World, before: string, s: string, dots: string, after: string)
    requires s != "" && !IsSpace(s[0]) && !IsSpace(s[|s| - 1]) && s[|s| - 1] != '.'
    requires forall i :: 0 <= i < |dots| ==> dots[i] == '.'
    requires (forall i :: 0 <= i < |before| ==> IsSpace(before[i])) && forall i :: 0 <= i < |after| ==> IsSpace(after[i])
    ensures CleanQuery(w, before + (s + dots) + after) == w.lower(s)
  {
    var text := s + dots;
    assert text[|text| - 1] == (if dots == "" then s[|s| - 1] else '.') && text[0] == s[0];
    TrimBlanks(before, text, after);
    DropDots(s, dots);
  }
}
