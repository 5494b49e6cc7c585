/** The launchd property list: its escaping, its text, and reading the program path back. */
module Plist {
  import opened Common
  import Decimal

  // ---- Searching and replacing ----

  /** `str::replace`: left to right, without overlaps. */
  function ReplaceAll(s: string, pattern: string, with: string): string
    requires pattern != ""
  {
    if s == "" then ""
    else if pattern <= s then with + ReplaceAll(s[|pattern|..], pattern, with)
    else [s[0]] + ReplaceAll(s[1..], pattern, with)
  }

  /** `str::split_once`: what stands before and after the first occurrence. */
  function SplitOnce(s: string, pattern: string): Option<(string, string)>
    requires pattern != ""
  {
    if s == "" then None
    else if pattern <= s then Some(("", s[|pattern|..]))
    else
      var rest := SplitOnce(s[1..], pattern);
      if rest.None? then None else Some(([s[0]] + rest.value.0, rest.value.1))
  }

  /** The two texts differ somewhere within the shorter one. */
  predicate Differ(s: string, t: string)
  {
    !(s <= t) && !(t <= s)
  }

  /** No occurrence of the pattern can start inside `s`, whatever follows it. */
  ghost predicate Free(s: string, pattern: string)
  {
    forall i :: 0 <= i < |s| ==> Differ(s[i..], pattern)
  }

  lemma DifferIsLasting(s: string, t: string, more: string)
    requires Differ(s, t)
    ensures Differ(s + more, t)
  {
  }

  lemma FreeTail(s: string, pattern: string)
    requires Free(s, pattern) && s != ""
    ensures Free(s[1..], pattern)
  {
    forall i | 0 <= i < |s| - 1 ensures Differ(s[1..][i..], pattern) {
      assert s[1..][i..] == s[i + 1..];
    }
  }

  lemma FreeConcat(s: string, t: string, pattern: string)
    requires Free(s, pattern) && Free(t, pattern)
    ensures Free(s + t, pattern)
  {
    hide Differ;
    forall i | 0 <= i < |s + t| ensures Differ((s + t)[i..], pattern) {
      if i < |s| {
        assert (s + t)[i..] == s[i..] + t;
        DifferIsLasting(s[i..], pattern, t);
      } else {
        assert (s + t)[i..] == t[i - |s|..];
      }
    }
  }

  /** Text without the pattern's first character is free of it. */
  lemma OtherTextIsFree(s: string, pattern: string)
    requires pattern != "" && pattern[0] !in s
    ensures Free(s, pattern)
  {
    forall i | 0 <= i < |s| ensures Differ(s[i..], pattern) {
      assert s[i..][0] == s[i] && s[i] in s;
    }
  }

  /** So is text in which that character comes first and the pattern breaks off at `j`. */
  lemma BrokenStartIsFree(s: string, pattern: string, j: nat)
    requires j < |s| && j < |pattern| && s[j] != pattern[j] && pattern[0] !in s[1..]
    ensures Free(s, pattern)
  {
    forall i | 0 <= i < |s| ensures Differ(s[i..], pattern) {
      if i == 0 {
        assert s[0..] == s;
      } else {
        assert s[i..][0] == s[1..][i - 1];
      }
    }
  }

  lemma {:induction false} ReplaceSkips(s: string, rest: string, pattern: string, with: string)
    requires pattern != "" && Free(s, pattern)
    ensures ReplaceAll(s + rest, pattern, with) == s + ReplaceAll(rest, pattern, with)
  {
    hide Differ, ReplaceAll;
    if s == "" {
      assert s + rest == rest;
    } else {
      FreeTail(s, pattern);
      ReplaceSkips(s[1..], rest, pattern, with);
      FreeStart(s, rest, pattern);
      ReplaceStep(s + rest, pattern, with);
      assert (s + rest)[1..] == s[1..] + rest;
      assert s == [s[0]] + s[1..];
    }
  }

  lemma FreeStart(s: string, rest: string, pattern: string)
    requires Free(s, pattern) && s != ""
    ensures !(pattern <= s + rest)
  {
    assert s[0..] == s;
    DifferIsLasting(s, pattern, rest);
  }

  lemma ReplaceStep(s: string, pattern: string, with: string)
    requires pattern != "" && s != "" && !(pattern <= s)
    ensures ReplaceAll(s, pattern, with) == [s[0]] + ReplaceAll(s[1..], pattern, with)
  {
  }

  lemma SplitStep(s: string, pattern: string)
    requires pattern != "" && s != "" && !(pattern <= s)
    ensures var rest := SplitOnce(s[1..], pattern);
            SplitOnce(s, pattern) == if rest.None? then None else Some(([s[0]] + rest.value.0, rest.value.1))
  {
  }

  lemma ReplaceHits(rest: string, pattern: string, with: string)
    requires pattern != ""
    ensures ReplaceAll(pattern + rest, pattern, with) == with + ReplaceAll(rest, pattern, with)
  {
    assert (pattern + rest)[|pattern|..] == rest;
  }

  lemma {:induction false} SplitFinds(before: string, pattern: string, after: string)
    requires pattern != "" && Free(before, pattern)
    ensures SplitOnce(before + pattern + after, pattern) == Some((before, after))
  {
    hide Differ;
    var s := before + pattern + after;
    if before == "" {
      assert s == pattern + after && s[|pattern|..] == after;
    } else {
      hide SplitOnce;
      FreeTail(before, pattern);
      SplitFinds(before[1..], pattern, after);
      assert s == before + (pattern + after);
      FreeStart(before, pattern + after, pattern);
      SplitStep(s, pattern);
      assert s[1..] == before[1..] + pattern + after;
      assert before == [before[0]] + before[1..];
    }
  }

  // ---- Escaping ----

  /** The five characters, in the order in which they are decoded. */
  const ENTITIES: seq<(char, string)> := [('<', "&lt;"), ('>', "&gt;"), ('\"', "&quot;"), ('\'', "&apos;"), ('&', "&amp;")]

  function Escape(s: string): string
  {
    ReplaceAll(ReplaceAll(ReplaceAll(ReplaceAll(ReplaceAll(s, "&", "&amp;"), "<", "&lt;"), ">", "&gt;"), "\"", "&quot;"), "\'", "&apos;")
  }

  function Unescape(s: string): string
  {
    ReplaceAll(ReplaceAll(ReplaceAll(ReplaceAll(ReplaceAll(s, "&lt;", "<"), "&gt;", ">"), "&quot;", "\""), "&apos;", "\'"), "&amp;", "&")
  }

  /** How a character is written while only the entities from the `k`-th on are still encoded. */
  function Form(k: nat, c: char): string
    requires k <= 5
  {
    if c == '<' && k < 1 then "&lt;"
    else if c == '>' && k < 2 then "&gt;"
    else if c == '\"' && k < 3 then "&quot;"
    else if c == '\'' && k < 4 then "&apos;"
    else if c == '&' && k < 5 then "&amp;"
    else [c]
  }

  function Forms(k: nat, s: string): string
    requires k <= 5
  {
    if s == "" then "" else Form(k, s[0]) + Forms(k, s[1..])
  }

  lemma FormsHead(k: nat, c: char, rest: string)
    requires k <= 5
    ensures Forms(k, [c] + rest) == Form(k, c) + Forms(k, rest)
  {
    hide Form;
    assert ([c] + rest)[1..] == rest;
  }

  lemma Associate(a: string, b: string, c: string)
    ensures (a + b) + c == a + (b + c)
  {
  }

  lemma {:induction false} FormsConcat(k: nat, s: string, t: string)
    requires k <= 5
    ensures Forms(k, s + t) == Forms(k, s) + Forms(k, t)
  {
    hide Form;
    if s == "" {
      assert s + t == t;
    } else {
      hide Forms;
      var head, rest := s[0], s[1..];
      assert s == [head] + rest;
      FormsConcat(k, rest, t);
      FormsHead(k, head, rest);
      FormsHead(k, head, rest + t);
      Associate([head], rest, t);
      Associate(Form(k, head), Forms(k, rest), Forms(k, t));
    }
  }

  lemma {:induction false} FullyDecoded(s: string)
    ensures Forms(5, s) == s
  {
    if s != "" {
      FullyDecoded(s[1..]);
      assert s == [s[0]] + s[1..];
    }
  }

  /** A character that is not the `k`-th keeps its form, and no entity starts inside it. */
  lemma OtherFormIsFree(k: nat, c: char)
    requires k < 5 && c != ENTITIES[k].0
    ensures Form(k + 1, c) == Form(k, c) && Free(Form(k, c), ENTITIES[k].1)
  {
    var form, entity := Form(k, c), ENTITIES[k].1;
    if |form| == 1 {
      assert c != '&';
      OtherTextIsFree(form, entity);
    } else if c == '&' && k == 3 {
      BrokenStartIsFree(form, entity, 2);
    } else {
      BrokenStartIsFree(form, entity, 1);
    }
  }

  lemma {:induction false} DecodeOne(k: nat, s: string)
    requires k < 5
    ensures ReplaceAll(Forms(k, s), ENTITIES[k].1, [ENTITIES[k].0]) == Forms(k + 1, s)
  {
    hide Form, Free;
    var (c, entity) := ENTITIES[k];
    if s != "" {
      DecodeOne(k, s[1..]);
      if s[0] == c {
        ReplaceHits(Forms(k, s[1..]), entity, [c]);
        FormOfEntity(k);
      } else {
        OtherFormIsFree(k, s[0]);
        ReplaceSkips(Form(k, s[0]), Forms(k, s[1..]), entity, [c]);
      }
    }
  }

  lemma FormOfEntity(k: nat)
    requires k < 5
    ensures Form(k, ENTITIES[k].0) == ENTITIES[k].1 && Form(k + 1, ENTITIES[k].0) == [ENTITIES[k].0]
  {
  }

  lemma ReplaceHead(head: char, rest: string, c: char, with: string)
    ensures ReplaceAll([head] + rest, [c], with) == (if head == c then with else [head]) + ReplaceAll(rest, [c], with)
  {
    hide ReplaceAll;
    var s := [head] + rest;
    assert s[1..] == rest && s[0] == head;
    if head == c {
      ReplaceHits(rest, [c], with);
    } else {
      assert [c][0] != s[0];
      ReplaceStep(s, [c], with);
    }
  }

  /** Replacing a single character works on each character by itself. */
  lemma {:induction false} ReplaceCharConcat(s: string, t: string, c: char, with: string)
    ensures ReplaceAll(s + t, [c], with) == ReplaceAll(s, [c], with) + ReplaceAll(t, [c], with)
  {
    if s == "" {
      assert s + t == t;
    } else {
      hide ReplaceAll;
      var head, rest := s[0], s[1..];
      assert s == [head] + rest;
      ReplaceCharConcat(rest, t, c, with);
      ReplaceHead(head, rest, c, with);
      ReplaceHead(head, rest + t, c, with);
      Associate([head], rest, t);
      Associate(if head == c then with else [head], ReplaceAll(rest, [c], with), ReplaceAll(t, [c], with));
    }
  }

  lemma EscapeConcat(s: string, t: string)
    ensures Escape(s + t) == Escape(s) + Escape(t)
  {
    hide ReplaceAll;
    ReplaceCharConcat(s, t, '&', "&amp;");
    var (s1, t1) := (ReplaceAll(s, "&", "&amp;"), ReplaceAll(t, "&", "&amp;"));
    ReplaceCharConcat(s1, t1, '<', "&lt;");
    var (s2, t2) := (ReplaceAll(s1, "<", "&lt;"), ReplaceAll(t1, "<", "&lt;"));
    ReplaceCharConcat(s2, t2, '>', "&gt;");
    var (s3, t3) := (ReplaceAll(s2, ">", "&gt;"), ReplaceAll(t2, ">", "&gt;"));
    ReplaceCharConcat(s3, t3, '\"', "&quot;");
    var (s4, t4) := (ReplaceAll(s3, "\"", "&quot;"), ReplaceAll(t3, "\"", "&quot;"));
    ReplaceCharConcat(s4, t4, '\'', "&apos;");
  }

  lemma ReplaceNothing(s: string, c: char, with: string)
    requires c !in s
    ensures ReplaceAll(s, [c], with) == s
  {
    OtherTextIsFree(s, [c]);
    ReplaceSkips(s, "", [c], with);
    assert s + "" == s;
  }

  lemma ReplaceOne(c: char, with: string)
    ensures ReplaceAll([c], [c], with) == with
  {
    ReplaceHits("", [c], with);
    assert [c] + "" == [c] && with + "" == with;
  }

  lemma {:induction false} EscapeOne(c: char)
    ensures Escape([c]) == Form(0, c)
  {
    hide ReplaceAll;
    var one := if c == '&' then "&amp;" else [c];
    if c == '&' { ReplaceOne(c, "&amp;"); } else { ReplaceNothing([c], '&', "&amp;"); }
    var two := if c == '<' then "&lt;" else one;
    if c == '<' { ReplaceOne(c, "&lt;"); } else { ReplaceNothing(one, '<', "&lt;"); }
    var three := if c == '>' then "&gt;" else two;
    if c == '>' { ReplaceOne(c, "&gt;"); } else { ReplaceNothing(two, '>', "&gt;"); }
    var four := if c == '\"' then "&quot;" else three;
    if c == '\"' { ReplaceOne(c, "&quot;"); } else { ReplaceNothing(three, '\"', "&quot;"); }
    if c == '\'' { ReplaceOne(c, "&apos;"); } else { ReplaceNothing(four, '\'', "&apos;"); }
  }

  /** The five passes of the escaper write each character by itself. */
  lemma {:induction false} EscapeIsPerCharacter(s: string)
    ensures Escape(s) == Forms(0, s)
  {
    hide Form;
    if s != "" {
      EscapeIsPerCharacter(s[1..]);
      EscapeOne(s[0]);
      EscapeConcat([s[0]], s[1..]);
      assert s == [s[0]] + s[1..];
    }
  }

  /** Unescaping undoes escaping for every text, although the passes run in different orders. */
  lemma {:induction false} UnescapeUndoesEscape(s: string)
    ensures Unescape(Escape(s)) == s
  {
    hide ReplaceAll, Forms;
    EscapeIsPerCharacter(s);
    DecodeOne(0, s);
    DecodeOne(1, s);
    DecodeOne(2, s);
    DecodeOne(3, s);
    DecodeOne(4, s);
    FullyDecoded(s);
  }

  // ---- Why the ampersand is decoded last ----

  /** The four other entities, decoded in order. */
  function DecodeFour(s: string): string
  {
    ReplaceAll(ReplaceAll(ReplaceAll(ReplaceAll(s, "&lt;", "<"), "&gt;", ">"), "&quot;", "\""), "&apos;", "\'")
  }

  /** Unescaping with the ampersand decoded before the others. */
  function AmpersandFirst(s: string): string
  {
    DecodeFour(ReplaceAll(s, "&amp;", "&"))
  }

  /** How characters are written once ampersands stand for themselves. */
  function Bare(k: nat, s: string): string
    requires k <= 5
  {
    if s == "" then "" else (if s[0] == '&' then "&" else Form(k, s[0])) + Bare(k, s[1..])
  }

  predicate IsSpecial(c: char)
  {
    c == '<' || c == '>' || c == '\"' || c == '\''
  }

  function BareForm(k: nat, c: char): string
    requires k <= 5
  {
    if c == '&' then "&" else Form(k, c)
  }

  lemma BareStart(k: nat, c: char, rest: string)
    requires k <= 5
    ensures Bare(k, [c] + rest) == BareForm(k, c) + Bare(k, rest)
  {
    hide Form;
    assert ([c] + rest)[1..] == rest;
  }

  lemma {:induction false} BareConcat(k: nat, s: string, t: string)
    requires k <= 5
    ensures Bare(k, s + t) == Bare(k, s) + Bare(k, t)
  {
    hide Form, BareForm;
    if s == "" {
      assert s + t == t;
    } else {
      hide Bare;
      var head, rest := s[0], s[1..];
      assert s == [head] + rest;
      BareConcat(k, rest, t);
      BareStart(k, head, rest);
      BareStart(k, head, rest + t);
      Associate([head], rest, t);
      Associate(BareForm(k, head), Bare(k, rest), Bare(k, t));
    }
  }

  lemma {:induction false} PlainIsBare(k: nat, s: string)
    requires k <= 5 && (k >= 4 || forall i :: 0 <= i < |s| ==> !IsSpecial(s[i]))
    ensures Bare(k, s) == s
  {
    if s != "" {
      PlainIsBare(k, s[1..]);
      assert s == [s[0]] + s[1..];
    }
  }

  lemma {:induction false} AmpersandsDecoded(s: string)
    ensures ReplaceAll(Forms(0, s), "&amp;", "&") == Bare(0, s)
  {
    if s != "" {
      AmpersandsDecoded(s[1..]);
      hide ReplaceAll;
      if s[0] == '&' {
        ReplaceHits(Forms(0, s[1..]), "&amp;", "&");
      } else {
        NotAmpersandIsFree(s[0]);
        ReplaceSkips(Form(0, s[0]), Forms(0, s[1..]), "&amp;", "&");
      }
    }
  }

  lemma NotAmpersandIsFree(c: char)
    requires c != '&'
    ensures Free(Form(0, c), "&amp;")
  {
    if !IsSpecial(c) {
      OtherTextIsFree([c], "&amp;");
    } else if c == '\'' {
      BrokenStartIsFree("&apos;", "&amp;", 2);
    } else {
      BrokenStartIsFree(Form(0, c), "&amp;", 1);
    }
  }

  /** Plain text at the start of bare text is there as it stands. */
  lemma {:induction false} PlainStart(k: nat, t: string, s: string)
    requires k <= 5 && t <= Bare(k, s) && '&' !in t
    ensures t <= s
  {
    if t != "" {
      assert s != "";
      var form := if s[0] == '&' then "&" else Form(k, s[0]);
      assert form[0] == t[0];
      assert form == [s[0]];
      assert Bare(k, s)[1..] == Bare(k, s[1..]);
      PlainStart(k, t[1..], s[1..]);
      assert t == [t[0]] + t[1..] && s == [s[0]] + s[1..];
    }
  }

  /** An entity at an ampersand of bare text was written there as it stands. */
  lemma {:induction false} EntityStart(k: nat, s: string)
    requires k < 4 && s != "" && s[0] == '&' && ENTITIES[k].1 <= Bare(k, s)
    ensures ENTITIES[k].1 <= s
  {
    var entity := ENTITIES[k].1;
    assert Bare(k, s)[1..] == Bare(k, s[1..]);
    assert entity[1..] <= Bare(k, s[1..]);
    PlainStart(k, entity[1..], s[1..]);
    assert entity == ['&'] + entity[1..] && s == [s[0]] + s[1..];
  }

  lemma EntityIsPlain(k: nat)
    requires k < 4
    ensures Bare(k, ENTITIES[k].1) == ENTITIES[k].1
  {
    PlainIsBare(k, ENTITIES[k].1);
  }

  /** Decoding an entity in bare text decodes the character, and also decodes the entity wherever it
      was written out. */
  lemma {:induction false} DecodeBare(k: nat, s: string)
    requires k < 4
    ensures ReplaceAll(Bare(k, s), ENTITIES[k].1, [ENTITIES[k].0]) == Bare(k + 1, ReplaceAll(s, ENTITIES[k].1, [ENTITIES[k].0]))
    decreases |s|
  {
    var (c, entity) := ENTITIES[k];
    if s == "" {
    } else if entity <= s {
      var rest := s[|entity|..];
      DecodeBare(k, rest);
      hide ReplaceAll, Form;
      assert s == entity + rest;
      BareConcat(k, entity, rest);
      EntityIsPlain(k);
      ReplaceHits(Bare(k, rest), entity, [c]);
      ReplaceHits(rest, entity, [c]);
      BareHead(k, c, ReplaceAll(rest, entity, [c]));
    } else {
      DecodeBare(k, s[1..]);
      hide ReplaceAll;
      ReplaceStep(s, entity, [c]);
      var decoded := ReplaceAll(s[1..], entity, [c]);
      assert ([s[0]] + decoded)[1..] == decoded;
      if s[0] == c {
        ReplaceHits(Bare(k, s[1..]), entity, [c]);
        FormOfEntity(k);
      } else if s[0] == '&' {
        if entity <= Bare(k, s) { EntityStart(k, s); }
        ReplaceStep(Bare(k, s), entity, [c]);
        assert Bare(k, s)[1..] == Bare(k, s[1..]);
      } else {
        OtherFormIsFree(k, s[0]);
        ReplaceSkips(Form(k, s[0]), Bare(k, s[1..]), entity, [c]);
      }
    }
  }

  lemma BareHead(k: nat, c: char, rest: string)
    requires k < 4 && c == ENTITIES[k].0
    ensures Bare(k + 1, [c] + rest) == [c] + Bare(k + 1, rest)
  {
    assert ([c] + rest)[1..] == rest;
  }

  /** The pattern occurs somewhere in the text. */
  predicate Occurs(s: string, pattern: string)
  {
    s != "" && (pattern <= s || Occurs(s[1..], pattern))
  }

  /** Replacing by something shorter shortens a text in which the pattern occurs, and leaves any other alone. */
  lemma {:induction false} ReplaceShortens(s: string, pattern: string, with: string)
    requires |with| < |pattern|
    ensures |ReplaceAll(s, pattern, with)| <= |s|
    ensures Occurs(s, pattern) ==> |ReplaceAll(s, pattern, with)| < |s|
    ensures !Occurs(s, pattern) ==> ReplaceAll(s, pattern, with) == s
    decreases |s|
  {
    if s == "" {
    } else if pattern <= s {
      ReplaceShortens(s[|pattern|..], pattern, with);
    } else {
      ReplaceShortens(s[1..], pattern, with);
      assert s == [s[0]] + s[1..];
    }
  }

  /** With the ampersand decoded first, unescaping an escaped text decodes every entity written in
      it, so it returns the text exactly if none of the four other entities occurs in it. */
  lemma {:induction false} AmpersandMustComeLast(s: string)
    ensures AmpersandFirst(Escape(s)) == DecodeFour(s)
    ensures AmpersandFirst(Escape(s)) == s <==>
              !Occurs(s, "&lt;") && !Occurs(s, "&gt;") && !Occurs(s, "&quot;") && !Occurs(s, "&apos;")
  {
    hide ReplaceAll, Forms, Bare, Occurs;
    EscapeIsPerCharacter(s);
    AmpersandsDecoded(s);
    var one := ReplaceAll(s, "&lt;", "<");
    var two := ReplaceAll(one, "&gt;", ">");
    var three := ReplaceAll(two, "&quot;", "\"");
    var four := ReplaceAll(three, "&apos;", "\'");
    DecodeBare(0, s);
    DecodeBare(1, one);
    DecodeBare(2, two);
    DecodeBare(3, three);
    PlainIsBare(4, four);
    ReplaceShortens(s, "&lt;", "<");
    ReplaceShortens(one, "&gt;", ">");
    ReplaceShortens(two, "&quot;", "\"");
    ReplaceShortens(three, "&apos;", "\'");
  }

  lemma {:induction false} EscapedHasNoBracket(s: string)
    ensures '<' !in Escape(s)
  {
    EscapeIsPerCharacter(s);
    FormsHaveNoBracket(s);
  }

  lemma {:induction false} FormsHaveNoBracket(s: string)
    ensures '<' !in Forms(0, s)
  {
    if s != "" {
      FormsHaveNoBracket(s[1..]);
      assert '<' !in Form(0, s[0]);
    }
  }

  // ---- Trimming ----

  lemma FormEdges(c: char)
    ensures var f := Form(0, c);
            f != "" && (IsSpace(c) ==> f == [c]) && (!IsSpace(c) ==> !IsSpace(f[0]) && !IsSpace(f[|f| - 1]))
  {
  }

  lemma {:induction false} TrimStartForms(s: string)
    ensures TrimStart(Forms(0, s)) == Forms(0, TrimStart(s))
  {
    hide Form, IsSpace;
    if s != "" {
      FormEdges(s[0]);
      if IsSpace(s[0]) {
        TrimStartForms(s[1..]);
        assert Forms(0, s)[1..] == Forms(0, s[1..]);
      }
    }
  }

  lemma {:induction false} TrimEndForms(s: string)
    ensures TrimEnd(Forms(0, s)) == Forms(0, TrimEnd(s))
  {
    hide Form, IsSpace;
    if s != "" {
      var last := |s| - 1;
      assert s == s[..last] + [s[last]];
      FormsConcat(0, s[..last], [s[last]]);
      assert [s[last]][1..] == "" && Forms(0, [s[last]]) == Form(0, s[last]) + "";
      FormEdges(s[last]);
      if IsSpace(s[last]) {
        TrimEndForms(s[..last]);
        assert Forms(0, s)[..|Forms(0, s)| - 1] == Forms(0, s[..last]);
      }
    }
  }

  /** Trimming the escaped text is escaping the trimmed text. */
  lemma {:induction false} TrimEscaped(s: string)
    ensures Trim(Escape(s)) == Escape(Trim(s))
    ensures Escape(s) == "" <==> s == ""
  {
    hide Forms, TrimStart, TrimEnd;
    EscapeIsPerCharacter(s);
    TrimStartForms(s);
    TrimEndForms(TrimStart(s));
    EscapeIsPerCharacter(Trim(s));
    EmptyForms(s);
  }

  lemma EmptyForms(s: string)
    ensures Forms(0, s) == "" <==> s == ""
  {
  }

  // ---- The document ----

  const KEY: string := "<key>ProgramArguments</key>"
  const OPEN: string := "<string>"
  const CLOSE: string := "</string>"

  datatype Service = Service(configHash: Option<nat>, executable: string, config: string, iface: string, interval: nat, log: string)

  const HEX_DIGITS: string := "0123456789abcdef"

  /** `{:016x}` prints sixteen of these digits. */
  function Hex(digits: nat, n: nat): (s: string)
    ensures |s| == digits && forall i :: 0 <= i < |s| ==> s[i] in HEX_DIGITS
  {
    if digits == 0 then "" else Hex(digits - 1, n / 16) + [HEX_DIGITS[n % 16]]
  }

  /** `macos_service_label`: the plain label for the default configuration, or one that ends in a
      hash of the configuration's path. */
  function Label(configHash: Option<nat>): string
  {
    if configHash.None? then "to.nostrvpn.nvpn" else "to.nostrvpn.nvpn." + Hex(16, configHash.value)
  }

  lemma LabelHasNoBracket(configHash: Option<nat>)
    ensures '<' !in Label(configHash)
  {
    hide Hex;
    assert '<' !in "to.nostrvpn.nvpn" && '<' !in "to.nostrvpn.nvpn.";
    if configHash.Some? {
      var hex := Hex(16, configHash.value);
      assert '<' !in HEX_DIGITS;
      assert '<' !in hex;
    }
  }

  function Declaration(): string
  {
    "<?xml" + " version=\"1.0\"" + " encoding=\"UTF-8\"?>\n"
  }

  function Doctype(): string
  {
    "<!DOCTYPE" + " plist PUBLIC \"" + "-//Apple//DTD PLIST 1.0//EN\" "
  }

  function DoctypeAddress(): string
  {
    "\"http://www.apple.com/" + "DTDs/PropertyList-1.0.dtd\">\n"
  }

  function PlistOpen(): string
  {
    "<plist" + " version=\"1.0\">\n"
  }

  function LabelKey(): string
  {
    "<dict>\n  " + "<key>Label" + "</key>\n  " + "<string>"
  }

  function LabelEnd(): string
  {
    "</string>\n  "
  }

  function Head(name: string): string
  {
    Declaration() + Doctype() + DoctypeAddress() + PlistOpen() + LabelKey() + name + LabelEnd()
  }

  const BETWEEN: string := "\n  <array>\n    "

  /** A string element after some text, and what follows it. */
  function Element(before: string, value: string, rest: string): string
  {
    before + OPEN + (value + CLOSE + rest)
  }

  function Elements(parts: seq<(string, string)>, end: string): string
  {
    if parts == [] then end else Element(parts[0].0, parts[0].1, Elements(parts[1..], end))
  }

  const NEXT: string := "\n    "

  function AfterArguments(): string
  {
    "\n  </array>\n  <key>RunAtLoad" + "</key>\n  <true/>" + "\n  <key>KeepAlive" + "</key>\n  <true/>"
    + "\n  <key>ProcessType" + "</key>\n  "
  }

  function OutKey(): string
  {
    "\n  <key>StandardOutPath" + "</key>\n  "
  }

  function ErrorKey(): string
  {
    "\n  <key>StandardErrorPath" + "</key>\n  "
  }

  const END: string := "\n</dict>\n</plist>\n"

  /** The string elements after the program path, each after what separates it from the one before. */
  function Parts(s: Service): seq<(string, string)>
  {
    [(NEXT, "daemon"), (NEXT, "--service"), (NEXT, "--config"), (NEXT, Escape(s.config)), (NEXT, "--iface"), (NEXT, Escape(s.iface)),
     (NEXT, "--announce-interval-secs"), (NEXT, Decimal.Print(s.interval)),
     (AfterArguments(), "Background"), (OutKey(), Escape(s.log)), (ErrorKey(), Escape(s.log))]
  }

  function Tail(s: Service): string
  {
    Elements(Parts(s), END)
  }

  function Document(s: Service): string
  {
    Head(Label(s.configHash)) + KEY + (BETWEEN + OPEN + (Escape(s.executable) + CLOSE + Tail(s)))
  }

  /** `macos_service_executable_path_from_plist_contents`. */
  function ExecutableOf(document: string): Option<string>
  {
    var arguments := SplitOnce(document, KEY);
    if arguments.None? then None
    else
      var first := SplitOnce(arguments.value.1, OPEN);
      if first.None? then None
      else
        var value := SplitOnce(first.value.1, CLOSE);
        if value.None? then None
        else
          var trimmed := Trim(value.value.0);
          if trimmed == "" then None else Some(Unescape(trimmed))
  }

  lemma FreeThenText(s: string, t: string)
    requires Free(s, KEY) && '<' !in t
    ensures Free(s + t, KEY)
  {
    hide Free;
    OtherTextIsFree(t, KEY);
    FreeConcat(s, t, KEY);
  }

  lemma DeclarationIsFree()
    ensures Free(Declaration(), KEY)
  {
    hide Free;
    BrokenStartIsFree("<?xml", KEY, 1);
    FreeThenText("<?xml", " version=\"1.0\"");
    FreeThenText("<?xml" + " version=\"1.0\"", " encoding=\"UTF-8\"?>\n");
  }

  lemma PlistOpenIsFree()
    ensures Free(PlistOpen(), KEY)
  {
    hide Free;
    BrokenStartIsFree("<plist", KEY, 1);
    FreeThenText("<plist", " version=\"1.0\">\n");
  }

  lemma DoctypeIsFree()
    ensures Free(Doctype(), KEY)
  {
    hide Free;
    BrokenStartIsFree("<!DOCTYPE", KEY, 1);
    FreeThenText("<!DOCTYPE", " plist PUBLIC \"");
    FreeThenText("<!DOCTYPE" + " plist PUBLIC \"", "-//Apple//DTD PLIST 1.0//EN\" ");
  }

  lemma AddressIsText()
    ensures '<' !in DoctypeAddress()
  {
    assert '<' !in "\"http://www.apple.com/" && '<' !in "DTDs/PropertyList-1.0.dtd\">\n";
  }

  lemma LabelKeyIsFree()
    ensures Free(LabelKey(), KEY) && Free(LabelEnd(), KEY)
  {
    hide Free;
    BrokenStartIsFree("<dict>\n  ", KEY, 1);
    BrokenStartIsFree("<key>Label", KEY, 5);
    BrokenStartIsFree("</key>\n  ", KEY, 1);
    BrokenStartIsFree("<string>", KEY, 1);
    BrokenStartIsFree(LabelEnd(), KEY, 1);
    FreeConcat("<dict>\n  ", "<key>Label", KEY);
    FreeConcat("<dict>\n  " + "<key>Label", "</key>\n  ", KEY);
    FreeConcat("<dict>\n  " + "<key>Label" + "</key>\n  ", "<string>", KEY);
  }

  lemma {:induction false} HeadIsFree(name: string)
    requires '<' !in name
    ensures Free(Head(name), KEY)
  {
    hide Free, Declaration, Doctype, DoctypeAddress, PlistOpen, LabelKey, LabelEnd;
    DeclarationIsFree();
    PlistOpenIsFree();
    DoctypeIsFree();
    AddressIsText();
    LabelKeyIsFree();
    OtherTextIsFree(name, KEY);
    FreeConcat(Declaration(), Doctype(), KEY);
    FreeThenText(Declaration() + Doctype(), DoctypeAddress());
    FreeConcat(Declaration() + Doctype() + DoctypeAddress(), PlistOpen(), KEY);
    FreeConcat(Declaration() + Doctype() + DoctypeAddress() + PlistOpen(), LabelKey(), KEY);
    FreeConcat(Declaration() + Doctype() + DoctypeAddress() + PlistOpen() + LabelKey(), name, KEY);
    FreeConcat(Declaration() + Doctype() + DoctypeAddress() + PlistOpen() + LabelKey() + name, LabelEnd(), KEY);
  }

  /** Reading a printed document gives the executable path without its outer blanks, and nothing
      if only blanks are there. The other fields play no part. */
  lemma {:induction false} ReadingWhatWasPrinted(s: Service)
    ensures ExecutableOf(Document(s)) == if IsBlank(s.executable) then None else Some(Trim(s.executable))
  {
    hide SplitOnce, Free, Head, Label, Tail, Escape, Unescape, Trim;
    LabelHasNoBracket(s.configHash);
    HeadIsFree(Label(s.configHash));
    var value := Escape(s.executable) + CLOSE + Tail(s);
    SplitFinds(Head(Label(s.configHash)), KEY, BETWEEN + OPEN + value);
    BetweenIsFree();
    SplitFinds(BETWEEN, OPEN, value);
    EscapedHasNoBracket(s.executable);
    OtherTextIsFree(Escape(s.executable), CLOSE);
    SplitFinds(Escape(s.executable), CLOSE, Tail(s));
    TrimEscaped(s.executable);
    TrimEscaped(Trim(s.executable));
    UnescapeUndoesEscape(Trim(s.executable));
  }

  lemma BetweenIsFree()
    ensures Free(BETWEEN, OPEN)
  {
    OtherTextIsFree("\n  ", OPEN);
    BrokenStartIsFree("<array>\n    ", OPEN, 1);
    FreeConcat("\n  ", "<array>\n    ", OPEN);
    assert BETWEEN == "\n  " + "<array>\n    ";
  }

  predicate NoOuterBlanks(s: string)
  {
    s != "" ==> !IsSpace(s[0]) && !IsSpace(s[|s| - 1])
  }

  /** The path comes back as it went in exactly when it is not empty and has no outer blanks. */
  lemma {:induction false} RoundTripsExactly(s: Service)
    ensures ExecutableOf(Document(s)) == Some(s.executable) <==> s.executable != "" && NoOuterBlanks(s.executable)
  {
    hide ExecutableOf, Document, TrimStart, TrimEnd, IsSpace;
    ReadingWhatWasPrinted(s);
    TrimFixed(s.executable);
  }

  // ---- Reading all strings ----

  lemma {:induction false} SplitLength(s: string, pattern: string)
    requires pattern != ""
    ensures var r := SplitOnce(s, pattern); r.Some? ==> |r.value.0| + |pattern| + |r.value.1| == |s|
  {
    if s != "" && !(pattern <= s) { SplitLength(s[1..], pattern); }
  }

  /** The contents of all string elements of a document, in order. */
  function Strings(document: string): seq<string>
    decreases |document|
  {
    var first := SplitOnce(document, OPEN);
    if first.None? then []
    else
      var value := SplitOnce(first.value.1, CLOSE);
      if value.None? then []
      else
        SplitLength(document, OPEN);
        SplitLength(first.value.1, CLOSE);
        [Unescape(value.value.0)] + Strings(value.value.1)
  }

  lemma {:induction false} ElementIsRead(before: string, value: string, rest: string)
    requires Free(before, OPEN) && '<' !in value
    ensures Strings(Element(before, value, rest)) == [Unescape(value)] + Strings(rest)
  {
    hide Free, SplitOnce, Unescape;
    SplitFinds(before, OPEN, value + CLOSE + rest);
    OtherTextIsFree(value, CLOSE);
    SplitFinds(value, CLOSE, rest);
  }

  /** The values of the parts, as they are read. */
  function Values(parts: seq<(string, string)>): (r: seq<string>)
    ensures |r| == |parts|
  {
    if parts == [] then [] else [Unescape(parts[0].1)] + Values(parts[1..])
  }

  lemma {:induction false} ElementsAreRead(parts: seq<(string, string)>, end: string)
    requires forall part :: part in parts ==> Free(part.0, OPEN) && '<' !in part.1
    requires Strings(end) == []
    ensures Strings(Elements(parts, end)) == Values(parts)
  {
    hide Free, Strings, Element, Unescape;
    if parts != [] {
      assert parts[0] in parts && forall part :: part in parts[1..] ==> part in parts;
      ElementsAreRead(parts[1..], end);
      ElementIsRead(parts[0].0, parts[0].1, Elements(parts[1..], end));
    }
  }

  /** Text in which no bracket is followed by an `s` opens no string element. */
  lemma NoOpening(s: string)
    requires forall i :: 0 <= i < |s| && s[i] == '<' ==> i + 1 < |s| && s[i + 1] != 's'
    ensures Free(s, OPEN)
  {
    forall i | 0 <= i < |s| ensures Differ(s[i..], OPEN) {
      assert s[i..][0] == s[i];
      if s[i] == '<' { assert s[i..][1] == s[i + 1]; }
    }
  }

  lemma SeparatorsAreFree()
    ensures Free(NEXT, OPEN) && Free(AfterArguments(), OPEN) && Free(OutKey(), OPEN) && Free(ErrorKey(), OPEN) && Free(END, OPEN)
  {
    hide Free;
    NoOpening(NEXT);
    NoOpening(END);
    NoOpening("\n  </array>\n  <key>RunAtLoad");
    NoOpening("</key>\n  <true/>");
    NoOpening("\n  <key>KeepAlive");
    NoOpening("\n  <key>ProcessType");
    NoOpening("</key>\n  ");
    NoOpening("\n  <key>StandardOutPath");
    NoOpening("\n  <key>StandardErrorPath");
    var one := "\n  </array>\n  <key>RunAtLoad" + "</key>\n  <true/>";
    FreeConcat("\n  </array>\n  <key>RunAtLoad", "</key>\n  <true/>", OPEN);
    FreeConcat(one, "\n  <key>KeepAlive", OPEN);
    FreeConcat(one + "\n  <key>KeepAlive", "</key>\n  <true/>", OPEN);
    FreeConcat(one + "\n  <key>KeepAlive" + "</key>\n  <true/>", "\n  <key>ProcessType", OPEN);
    FreeConcat(one + "\n  <key>KeepAlive" + "</key>\n  <true/>" + "\n  <key>ProcessType", "</key>\n  ", OPEN);
    FreeConcat("\n  <key>StandardOutPath", "</key>\n  ", OPEN);
    FreeConcat("\n  <key>StandardErrorPath", "</key>\n  ", OPEN);
  }

  /** What stands before the label. */
  function Prologue(): string
  {
    (Declaration() + Doctype() + DoctypeAddress() + PlistOpen()) + ("<dict>\n  " + "<key>Label" + "</key>\n  ")
  }

  const GAP: string := "\n  "

  lemma Regroup(q: string, l: string, o: string, n: string, c: string, g: string, k: string, rest: string)
    ensures q + (l + o) + n + (c + g) + k + rest == (q + l) + o + (n + c + (g + k + rest))
  {
    Associate(q, l, o);
    Associate(q + l + o, n, c + g);
    Associate(n, c, g);
    Associate(q + l + o, n + (c + g), k);
    Associate(q + l + o, n + (c + g) + k, rest);
    Associate(n + c, g, k);
    Associate(n + c, g + k, rest);
  }

  /** The document is a list of string elements, each after what separates it from the one before. */
  lemma {:induction false} DocumentShape(s: Service)
    ensures Document(s) == Elements([(Prologue(), Label(s.configHash)), (GAP + KEY + BETWEEN, Escape(s.executable))] + Parts(s), END)
  {
    hide Declaration, Doctype, DoctypeAddress, PlistOpen, Label, Escape, Parts;
    var q, l := Declaration() + Doctype() + DoctypeAddress() + PlistOpen(), "<dict>\n  " + "<key>Label" + "</key>\n  ";
    var value := Escape(s.executable) + CLOSE + Elements(Parts(s), END);
    Regroup(q, l, OPEN, Label(s.configHash), CLOSE, GAP, KEY, BETWEEN + OPEN + value);
    Associate(GAP + KEY, BETWEEN, OPEN);
    Associate(GAP + KEY, BETWEEN + OPEN, value);
    var parts := [(Prologue(), Label(s.configHash)), (GAP + KEY + BETWEEN, Escape(s.executable))] + Parts(s);
    assert parts[1..] == [(GAP + KEY + BETWEEN, Escape(s.executable))] + Parts(s);
    assert parts[1..][1..] == Parts(s);
  }

  lemma {:induction false} PrologueIsFree()
    ensures Free(Prologue(), OPEN) && Free(GAP + KEY + BETWEEN, OPEN)
  {
    hide Free;
    NoOpening("<?xml");
    NoOpening(" version=\"1.0\"");
    NoOpening(" encoding=\"UTF-8\"?>\n");
    FreeConcat("<?xml", " version=\"1.0\"", OPEN);
    FreeConcat("<?xml" + " version=\"1.0\"", " encoding=\"UTF-8\"?>\n", OPEN);
    DoctypeOpensNothing();
    AddressIsText();
    NoOpening(DoctypeAddress());
    NoOpening("<plist");
    NoOpening(" version=\"1.0\">\n");
    FreeConcat("<plist", " version=\"1.0\">\n", OPEN);
    NoOpening("<dict>\n  ");
    NoOpening("<key>Label");
    NoOpening("</key>\n  ");
    FreeConcat("<dict>\n  ", "<key>Label", OPEN);
    FreeConcat("<dict>\n  " + "<key>Label", "</key>\n  ", OPEN);
    NoOpening(GAP);
    NoOpening(KEY);
    NoOpening(BETWEEN);
    FreeConcat(GAP, KEY, OPEN);
    FreeConcat(GAP + KEY, BETWEEN, OPEN);
    HeadOpensNothing();
  }

  lemma DoctypeOpensNothing()
    ensures Free(Doctype(), OPEN)
  {
    hide Free;
    NoOpening("<!DOCTYPE");
    NoOpening(" plist PUBLIC \"");
    NoOpening("-//Apple//DTD PLIST 1.0//EN\" ");
    FreeConcat("<!DOCTYPE", " plist PUBLIC \"", OPEN);
    FreeConcat("<!DOCTYPE" + " plist PUBLIC \"", "-//Apple//DTD PLIST 1.0//EN\" ", OPEN);
  }

  lemma HeadOpensNothing()
    requires Free(Declaration(), OPEN) && Free(Doctype(), OPEN) && Free(DoctypeAddress(), OPEN) && Free(PlistOpen(), OPEN)
    requires Free("<dict>\n  " + "<key>Label" + "</key>\n  ", OPEN)
    ensures Free(Prologue(), OPEN)
  {
    hide Free, Declaration, Doctype, DoctypeAddress, PlistOpen;
    FreeConcat(Declaration(), Doctype(), OPEN);
    FreeConcat(Declaration() + Doctype(), DoctypeAddress(), OPEN);
    FreeConcat(Declaration() + Doctype() + DoctypeAddress(), PlistOpen(), OPEN);
    FreeConcat(Declaration() + Doctype() + DoctypeAddress() + PlistOpen(), "<dict>\n  " + "<key>Label" + "</key>\n  ", OPEN);
  }

  lemma {:induction false} NothingToReplace(s: string, pattern: string, with: string)
    requires pattern != "" && pattern[0] !in s
    ensures ReplaceAll(s, pattern, with) == s
  {
    hide ReplaceAll, Free;
    OtherTextIsFree(s, pattern);
    ReplaceSkips(s, "", pattern, with);
    assert s + "" == s;
    assert ReplaceAll("", pattern, with) == "" by { EmptyStays(pattern, with); }
  }

  lemma EmptyStays(pattern: string, with: string)
    requires pattern != ""
    ensures ReplaceAll("", pattern, with) == ""
  {
  }

  /** Text without an ampersand unescapes to itself. */
  lemma {:induction false} PlainStays(s: string)
    requires '&' !in s
    ensures Unescape(s) == s
  {
    hide ReplaceAll;
    NothingToReplace(s, "&lt;", "<");
    NothingToReplace(s, "&gt;", ">");
    NothingToReplace(s, "&quot;", "\"");
    NothingToReplace(s, "&apos;", "\'");
    NothingToReplace(s, "&amp;", "&");
  }

  lemma {:induction false} PlainTexts(configHash: Option<nat>, n: nat)
    ensures Unescape(Label(configHash)) == Label(configHash) && '<' !in Decimal.Print(n) && Unescape(Decimal.Print(n)) == Decimal.Print(n)
  {
    hide Hex, Unescape, Decimal.Print;
    assert '&' !in "to.nostrvpn.nvpn" && '&' !in "to.nostrvpn.nvpn.";
    if configHash.Some? {
      var hex := Hex(16, configHash.value);
      assert '&' !in HEX_DIGITS;
      assert '&' !in hex;
    }
    PlainStays(Label(configHash));
    var digits := Decimal.Print(n);
    assert '&' !in digits && '<' !in digits;
    PlainStays(digits);
  }

  /** What launchd is told, whatever characters the fields hold: the label, the program with its arguments, and the
      two logs. */
  function Told(s: Service): seq<string>
  {
    [Label(s.configHash), s.executable, "daemon", "--service", "--config", s.config, "--iface", s.iface,
     "--announce-interval-secs", Decimal.Print(s.interval), "Background", s.log, s.log]
  }

  /** No field can change which strings a printed document holds: reading all of them gives each field back in its place. */
  lemma {:induction false} AllStringsAreRead(s: Service)
    ensures Strings(Document(s)) == Told(s)
  {
    hide Strings, Document, Label, Prologue, AfterArguments, OutKey, ErrorKey, Escape, Unescape, Free, Decimal.Print, Elements;
    var parts := [(Prologue(), Label(s.configHash)), (GAP + KEY + BETWEEN, Escape(s.executable))] + Parts(s);
    DocumentShape(s);
    PartsAreClean(s, parts);
    PartsAreTold(s, parts);
    NothingAfter();
    ElementsAreRead(parts, END);
    hide Values;
  }

  lemma {:induction false} NothingAfter()
    ensures Strings(END) == []
  {
    hide Free;
    NoOpening(END);
    NeverFound(END, OPEN);
  }

  lemma {:induction false} NeverFound(s: string, pattern: string)
    requires pattern != "" && Free(s, pattern)
    ensures SplitOnce(s, pattern) == None
  {
    if s != "" {
      FreeStart(s, "", pattern);
      assert s + "" == s;
      FreeTail(s, pattern);
      NeverFound(s[1..], pattern);
    }
  }

  predicate IsPlain(s: string)
  {
    '<' !in s && Unescape(s) == s
  }

  lemma {:induction false} PartsAreClean(s: Service, parts: seq<(string, string)>)
    requires parts == [(Prologue(), Label(s.configHash)), (GAP + KEY + BETWEEN, Escape(s.executable))] + Parts(s)
    ensures forall part :: part in parts ==> Free(part.0, OPEN) && '<' !in part.1
  {
    SeparatorsAreFree();
    PrologueIsFree();
    LabelHasNoBracket(s.configHash);
    PlainTexts(s.configHash, s.interval);
    EscapedHasNoBracket(s.executable);
    EscapedHasNoBracket(s.config);
    EscapedHasNoBracket(s.iface);
    EscapedHasNoBracket(s.log);
    Words();
    hide Label, Prologue, AfterArguments, OutKey, ErrorKey, Escape, Unescape, Free, Decimal.Print;
  }

  lemma {:induction false} PartsAreTold(s: Service, parts: seq<(string, string)>)
    requires parts == [(Prologue(), Label(s.configHash)), (GAP + KEY + BETWEEN, Escape(s.executable))] + Parts(s)
    ensures Values(parts) == Told(s)
  {
    hide Label, Prologue, AfterArguments, OutKey, ErrorKey, Escape, Unescape, Decimal.Print, Values;
    PlainTexts(s.configHash, s.interval);
    UnescapeUndoesEscape(s.executable);
    UnescapeUndoesEscape(s.config);
    UnescapeUndoesEscape(s.iface);
    UnescapeUndoesEscape(s.log);
    Words();
    forall i | 0 <= i < |parts| ensures Values(parts)[i] == Unescape(parts[i].1) { ValueAt(parts, i); }
  }

  lemma {:induction false} ValueAt(parts: seq<(string, string)>, i: nat)
    requires i < |parts|
    ensures Values(parts)[i] == Unescape(parts[i].1)
  {
    hide Unescape;
    if i > 0 { ValueAt(parts[1..], i - 1); }
  }

  lemma {:induction false} Words()
    ensures IsPlain("daemon") && IsPlain("--service") && IsPlain("--config") && IsPlain("--iface")
    ensures IsPlain("--announce-interval-secs") && IsPlain("Background")
  {
    hide IsPlain;
    IsWord("daemon");
    IsWord("--service");
    IsWord("--config");
    IsWord("--iface");
    IsWord("--announce-interval-secs");
    IsWord("Background");
  }

  lemma IsWord(s: string)
    requires '<' !in s && '&' !in s
    ensures IsPlain(s)
  {
    PlainStays(s);
  }
}
