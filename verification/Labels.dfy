/** MagicDNS labels: how free text becomes a DNS label (section 2.3.1 of RFC 1035 and
    section 2.1 of RFC 1123), and how labels and network ids are made unique. */
module Labels {
  import opened Common
  import Decimal

  const MAX_LABEL: nat := 63

  predicate IsLower(c: char)
  {
    'a' <= c <= 'z' || '0' <= c <= '9'
  }

  predicate IsAlphanumeric(c: char)
  {
    IsLower(c) || 'A' <= c <= 'Z'
  }

  function ToLower(c: char): char
  {
    if 'A' <= c <= 'Z' then (c as int + 32) as char else c
  }

  /** A lower-case label of letters and digits with single dashes strictly inside it. */
  ghost predicate Dashes(s: string)
  {
    && (forall i :: 0 <= i < |s| ==> IsLower(s[i]) || s[i] == '-')
    && (s != [] ==> s[0] != '-' && s[|s| - 1] != '-')
    && (forall i :: 0 < i < |s| ==> !(s[i - 1] == '-' && s[i] == '-'))
  }

  ghost predicate ValidLabel(s: string)
  {
    1 <= |s| <= MAX_LABEL && Dashes(s)
  }

  // ---- The character loop ----

  predicate EndsInDash(s: string)
  {
    s != [] && s[|s| - 1] == '-'
  }

  predicate StartsWithDash(s: string)
  {
    s != [] && s[0] == '-'
  }

  /** The label buffer after the character loop has read `value`. */
  function Scan(value: string): string
  {
    if value == [] then []
    else
      var before := Scan(value[..|value| - 1]);
      var c := value[|value| - 1];
      if IsAlphanumeric(c) then before + [ToLower(c)]
      else if EndsInDash(before) then before
      else before + "-"
  }

  function DropEndDashes(s: string): string
  {
    if EndsInDash(s) then DropEndDashes(s[..|s| - 1]) else s
  }

  function DropStartDashes(s: string): string
  {
    if StartsWithDash(s) then DropStartDashes(s[1..]) else s
  }

  /** `truncate` to a length, then drop the dashes this leaves at the end. */
  function Cut(s: string, length: nat): string
  {
    if |s| > length then DropEndDashes(s[..length]) else s
  }

  function Truncated(s: string): string
  {
    Cut(s, MAX_LABEL)
  }

  function NormalizeLabel(value: string): Option<string>
  {
    var text := Truncated(DropStartDashes(DropEndDashes(Scan(value))));
    if text == [] then None else Some(text)
  }

  // ---- What it means ----

  /** The letters and digits of `value` in lower case, with one dash between two of them
      exactly where something else stood between them. */
  function Dashed(value: string): string
  {
    if value == [] then []
    else
      var n := |value| - 1;
      var before := Dashed(value[..n]);
      if !IsAlphanumeric(value[n]) then before
      else if before == [] || IsAlphanumeric(value[n - 1]) then before + [ToLower(value[n])]
      else before + ['-', ToLower(value[n])]
  }

  lemma {:induction false} DashedIsDashes(value: string)
    ensures Dashes(Dashed(value))
    ensures Dashed(value) == [] <==> forall i :: 0 <= i < |value| ==> !IsAlphanumeric(value[i])
  {
    if value != [] { DashedIsDashes(value[..|value| - 1]); }
  }

  function Lead(value: string): string
  {
    if value != [] && !IsAlphanumeric(value[0]) then "-" else ""
  }

  function Tail(value: string): string
  {
    if Dashed(value) != [] && !IsAlphanumeric(value[|value| - 1]) then "-" else ""
  }

  /** The buffer is the dashed text, up to a dash at either end. */
  lemma {:induction false} ScanIsDashed(value: string)
    ensures Scan(value) == Lead(value) + Dashed(value) + Tail(value)
  {
    if value != [] {
      var n := |value| - 1;
      var c, before := value[n], value[..n];
      ScanIsDashed(before);
      DashedIsDashes(before);
      assert n > 0 ==> Lead(value) == Lead(before);
      if IsAlphanumeric(c) {
        ScanLetter(value);
      } else {
        assert Dashed(value) == Dashed(before);
        if Dashed(before) == [] {
          assert Lead(value) == "-";
        } else {
          assert Tail(value) == "-";
          assert EndsInDash(Scan(before)) <==> Tail(before) == "-";
        }
      }
    }
  }

  lemma ScanLetter(value: string)
    requires value != [] && IsAlphanumeric(value[|value| - 1])
    requires var before := value[..|value| - 1]; Scan(before) == Lead(before) + Dashed(before) + Tail(before)
    ensures Scan(value) == Lead(value) + Dashed(value) + Tail(value)
  {
    var n := |value| - 1;
    var before, d, last := value[..n], Dashed(value[..n]), [ToLower(value[n])];
    assert Scan(value) == Scan(before) + last && Tail(value) == "";
    assert Lead(value) == Lead(before);
    if d == [] {
      assert Dashed(value) == last && Tail(before) == "";
      assert Lead(before) + d + "" + last == Lead(before) + last + "";
    } else {
      assert Dashed(value) == d + Tail(before) + last;
      Regroup(Lead(before), d, Tail(before), last);
    }
  }

  lemma Regroup(a: string, b: string, c: string, d: string)
    ensures a + b + c + d == a + (b + c + d) + ""
  {
  }

  lemma StripIsDashed(value: string)
    ensures DropStartDashes(DropEndDashes(Scan(value))) == Dashed(value)
  {
    ScanIsDashed(value);
    DashedIsDashes(value);
    var d, s, lead := Dashed(value), Scan(value), Lead(value);
    if d == [] {
      assert s == lead;
      assert s == "-" ==> DropEndDashes(s) == DropEndDashes(s[..0]);
    } else {
      if EndsInDash(s) { assert s[..|s| - 1] == lead + d; }
      assert DropEndDashes(s) == lead + d;
      if lead == "-" { assert (lead + d)[1..] == d; } else { assert lead + d == d; }
    }
  }

  lemma CutIsDashes(s: string, length: nat)
    requires Dashes(s) && s != [] && length >= 2
    ensures Dashes(Cut(s, length)) && 1 <= |Cut(s, length)| <= length && Cut(s, length) <= s
    ensures |s| <= length ==> Cut(s, length) == s
    ensures |s| > length ==> |Cut(s, length)| >= length - 1
  {
    if |s| > length {
      var cut := s[..length];
      if EndsInDash(cut) {
        var shorter := cut[..length - 1];
        assert shorter[length - 2] == s[length - 2] && s[length - 1] == '-';
        assert DropEndDashes(shorter) == shorter;
        assert Cut(s, length) == shorter;
      }
    }
  }

  /** Normalising yields a valid label, the longest valid beginning of the dashed text, and
      fails exactly when the text has no letter or digit. */
  lemma NormalizeMeaning(value: string)
    ensures NormalizeLabel(value).None? <==> forall i :: 0 <= i < |value| ==> !IsAlphanumeric(value[i])
    ensures NormalizeLabel(value).Some? ==>
              var text := NormalizeLabel(value).value;
              && ValidLabel(text)
              && text <= Dashed(value)
              && (|Dashed(value)| <= MAX_LABEL ==> text == Dashed(value))
              && (|Dashed(value)| > MAX_LABEL ==> |text| >= MAX_LABEL - 1)
  {
    StripIsDashed(value);
    DashedIsDashes(value);
    if Dashed(value) != [] { CutIsDashes(Dashed(value), MAX_LABEL); }
  }

  lemma DashedSnoc(before: string, c: char)
    ensures !IsAlphanumeric(c) ==> Dashed(before + [c]) == Dashed(before)
    ensures IsAlphanumeric(c) && (Dashed(before) == [] || IsAlphanumeric(before[|before| - 1])) ==>
              Dashed(before + [c]) == Dashed(before) + [ToLower(c)]
    ensures IsAlphanumeric(c) && Dashed(before) != [] && !IsAlphanumeric(before[|before| - 1]) ==>
              Dashed(before + [c]) == Dashed(before) + ['-', ToLower(c)]
  {
    hide IsAlphanumeric, ToLower;
    var s := before + [c];
    assert s[..|s| - 1] == before;
    if before != [] { assert s[|s| - 2] == before[|before| - 1]; }
  }

  lemma {:induction false} DashedFixed(s: string)
    requires forall i :: 0 <= i < |s| ==> IsLower(s[i]) || s[i] == '-'
    requires s != [] ==> s[0] != '-'
    requires forall i :: 0 < i < |s| ==> !(s[i - 1] == '-' && s[i] == '-')
    ensures Dashed(s) == if EndsInDash(s) then s[..|s| - 1] else s
  {
    if s != [] {
      hide Dashed;
      var n := |s| - 1;
      var before := s[..n];
      DashedFixed(before);
      assert s == before + [s[n]];
      DashedSnoc(before, s[n]);
      if n == 0 {
        DashedEmpty();
      } else if s[n - 1] == '-' {
        assert n - 1 > 0;
        assert before[..n - 1] == s[..n - 1];
        assert s == s[..n - 1] + ['-', s[n]];
      }
    }
  }

  lemma DashedEmpty()
    ensures Dashed([]) == []
  {
  }

  /** A valid label normalises to itself, so normalising twice is normalising once. */
  lemma NormalizeFixed(text: string)
    requires ValidLabel(text)
    ensures NormalizeLabel(text) == Some(text)
  {
    StripIsDashed(text);
    DashedFixed(text);
  }

  lemma NormalizeIdempotent(value: string)
    requires NormalizeLabel(value).Some?
    ensures NormalizeLabel(NormalizeLabel(value).value) == NormalizeLabel(value)
  {
    NormalizeMeaning(value);
    NormalizeFixed(NormalizeLabel(value).value);
  }

  // ---- The loops as the daemon runs them ----

  method Normalize(value: string) returns (result: Option<string>)
    ensures result == NormalizeLabel(value)
  {
    var text: string := "";
    var previousDash := false;
    assert value[..0] == [];
    for i := 0 to |value|
      invariant text == Scan(value[..i])
      invariant previousDash == EndsInDash(text)
    {
      assert value[..i + 1][..i] == value[..i];
      if IsAlphanumeric(value[i]) {
        text := text + [ToLower(value[i])];
        previousDash := false;
      } else if !previousDash {
        text := text + "-";
        previousDash := true;
      }
    }
    assert value[..|value|] == value;
    while EndsInDash(text)
      invariant DropEndDashes(text) == DropEndDashes(Scan(value))
      decreases |text|
    {
      text := text[..|text| - 1];
    }
    while StartsWithDash(text)
      invariant DropStartDashes(text) == DropStartDashes(DropEndDashes(Scan(value)))
      decreases |text|
    {
      text := text[1..];
    }
    if text == [] { return None; }
    ghost var whole := text;
    if |text| > MAX_LABEL {
      text := text[..MAX_LABEL];
      while EndsInDash(text)
        invariant DropEndDashes(text) == Truncated(whole)
        decreases |text|
      {
        text := text[..|text| - 1];
      }
    }
    result := if text == [] then None else Some(text);
  }

  // ---- Unique network ids ----

  function Suffixed(base: string, k: nat): string
  {
    base + "-" + Decimal.Print(k)
  }

  lemma SuffixedInjective(base: string, j: nat, k: nat)
    requires Suffixed(base, j) == Suffixed(base, k)
    ensures j == k
  {
    assert Suffixed(base, j)[|base| + 1..] == Decimal.Print(j);
    assert Suffixed(base, k)[|base| + 1..] == Decimal.Print(k);
    Decimal.PrintInjective(j, k);
  }

  /** The used names that a search from suffix `k` can still run into; finitely many. */
  ghost function Obstacles(base: string, used: set<string>, k: nat): set<string>
  {
    set s | s in used && exists j :: k <= j && s == Suffixed(base, j)
  }

  lemma ObstaclesShrink(base: string, used: set<string>, k: nat)
    requires Suffixed(base, k) in used
    ensures |Obstacles(base, used, k + 1)| < |Obstacles(base, used, k)|
  {
    var now, later := Obstacles(base, used, k), Obstacles(base, used, k + 1);
    assert Suffixed(base, k) in now;
    assert Suffixed(base, k) !in later by {
      if Suffixed(base, k) in later {
        var j :| k + 1 <= j && Suffixed(base, k) == Suffixed(base, j);
        SuffixedInjective(base, j, k);
      }
    }
    assert later <= now - {Suffixed(base, k)};
    assert now == later + (now - later);
  }

  /** The first free suffix from `k` on: the search always ends. */
  function FirstFree(base: string, used: set<string>, k: nat): (r: nat)
    ensures r >= k && Suffixed(base, r) !in used
    ensures forall j :: k <= j < r ==> Suffixed(base, j) in used
    decreases |Obstacles(base, used, k)|
  {
    if Suffixed(base, k) in used then
      ObstaclesShrink(base, used, k);
      FirstFree(base, used, k + 1)
    else k
  }

  /** `uniquify_network_entry_id`: the candidate itself if free, else with its first free suffix. */
  function UniqueId(candidate: string, used: set<string>): (id: string)
    ensures id !in used
    ensures candidate !in used ==> id == candidate
  {
    if candidate !in used then candidate else Suffixed(candidate, FirstFree(candidate, used, 2))
  }

  method UniquifyEntryId(candidate: string, used: set<string>) returns (id: string, used': set<string>)
    ensures id == UniqueId(candidate, used)
    ensures used' == used + {id}
  {
    if candidate !in used { return candidate, used + {candidate}; }
    var suffix := 2;
    while true
      invariant suffix >= 2
      invariant FirstFree(candidate, used, suffix) == FirstFree(candidate, used, 2)
      decreases |Obstacles(candidate, used, suffix)|
    {
      var next := Suffixed(candidate, suffix);
      if next !in used { return next, used + {next}; }
      ObstaclesShrink(candidate, used, suffix);
      suffix := suffix + 1;
    }
  }

  /** The wanted ids in order, each made distinct from those before it. */
  function UniqueIds(wanted: seq<string>): (r: seq<string>)
    ensures |r| == |wanted|
  {
    if wanted == [] then []
    else
      var last := |wanted| - 1;
      var before := UniqueIds(wanted[..last]);
      before + [UniqueId(wanted[last], Elems(before))]
  }

  lemma {:induction false} UniqueIdsDistinct(wanted: seq<string>)
    ensures Distinct(UniqueIds(wanted))
  {
    if wanted != [] {
      var before := UniqueIds(wanted[..|wanted| - 1]);
      UniqueIdsDistinct(wanted[..|wanted| - 1]);
      assert forall i :: 0 <= i < |before| ==> before[i] in Elems(before);
    }
  }

  /** Each id is chosen against the ids before it. */
  lemma {:induction false} UniqueIdsAt(wanted: seq<string>, i: nat)
    requires i < |wanted|
    ensures UniqueIds(wanted)[i] == UniqueId(wanted[i], Elems(UniqueIds(wanted)[..i]))
  {
    var ids, last := UniqueIds(wanted), |wanted| - 1;
    var before := UniqueIds(wanted[..last]);
    assert ids[..last] == before;
    if i < last {
      UniqueIdsAt(wanted[..last], i);
      assert before[..i] == ids[..i];
    }
  }

  lemma PrefixElems(ids: seq<string>, i: nat)
    requires i < |ids|
    ensures Elems(ids[..i + 1]) == Elems(ids[..i]) + {ids[i]}
  {
    assert ids[..i + 1] == ids[..i] + [ids[i]];
    ElemsConcat(ids[..i], [ids[i]]);
  }

  function DefaultEntryId(ordinal: nat): string
  {
    "network-" + Decimal.Print(ordinal)
  }

  function EntryId(value: string, ordinal: nat): string
  {
    if NormalizeLabel(value).Some? then NormalizeLabel(value).value else DefaultEntryId(ordinal)
  }
}
