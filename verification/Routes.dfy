/** Route prefixes: masking, the canonical text of an advertised route, and the lists of routes
    a node advertises. */
module Routes {
  import opened Common
  import opened Masks

  datatype Addr = V4(v4: bv32) | V6(v6: bv128)

  /** An address and a prefix length, as read from text; the length is a `u8`. */
  datatype Cidr = Cidr(addr: Addr, bits: bv8)

  predicate Fits(c: Cidr)
  {
    match c.addr
    case V4(_) => c.bits <= 32
    case V6(_) => c.bits <= 128
  }

  /** The network of a prefix: the address with its host bits cleared. */
  function Masked(c: Cidr): Cidr
    requires Fits(c)
  {
    match c.addr
    case V4(a) => Cidr(V4(Network4(a, c.bits)), c.bits)
    case V6(a) => Cidr(V6(Network6(a, c.bits)), c.bits)
  }

  /** The prefix covers an address of its own family that agrees with it on the leading bits. */
  predicate Covers(c: Cidr, ip: Addr)
    requires Fits(c)
  {
    match (c.addr, ip)
    case (V4(a), V4(b)) => Network4(b, c.bits) == Network4(a, c.bits)
    case (V6(a), V6(b)) => Network6(b, c.bits) == Network6(a, c.bits)
    case _ => false
  }

  /** An address that a prefix covers and a longer one does not. */
  lemma {:induction false} ShorterCoversMore(c: Cidr, d: Cidr) returns (ip: Addr)
    requires Fits(c) && Fits(d) && c.bits < d.bits && (c.addr.V4? <==> d.addr.V4?)
    requires Covers(c, d.addr)
    ensures Covers(c, ip) && !Covers(d, ip)
  {
    hide Network4, Network6;
    match d.addr
    case V4(x) =>
      var y := Apart4(x, c.bits, d.bits);
      ip := V4(y);
    case V6(x) =>
      var y := Apart6(x, c.bits, d.bits);
      ip := V6(y);
  }

  /** Two prefixes match the same addresses exactly when they have the same network and length. */
  lemma {:induction false} SameCoverIsSameNetwork(c: Cidr, d: Cidr)
    requires Fits(c) && Fits(d)
    ensures (forall ip :: Covers(c, ip) <==> Covers(d, ip)) <==> Masked(c) == Masked(d)
  {
    hide Network4, Network6;
    if forall ip :: Covers(c, ip) <==> Covers(d, ip) {
      assert Covers(c, c.addr) && Covers(d, d.addr);
      assert Covers(d, c.addr) && Covers(c, d.addr);
      if c.bits < d.bits {
        var ip := ShorterCoversMore(c, d);
        assert false;
      } else if d.bits < c.bits {
        var ip := ShorterCoversMore(d, c);
        assert false;
      }
    }
  }

  /** Masking keeps the addresses a prefix covers, and masking again changes nothing. */
  lemma {:induction false} MaskingIsCanonical(c: Cidr)
    requires Fits(c)
    ensures Fits(Masked(c)) && Masked(Masked(c)) == Masked(c)
    ensures forall ip :: Covers(Masked(c), ip) <==> Covers(c, ip)
  {
    hide Network4, Network6;
    match c.addr
    case V4(x) => KeepAgain4(x, c.bits);
    case V6(x) => KeepAgain6(x, c.bits);
  }

  // ---- Text ----

  /** How routes are read and written. `parse` reads an address and a length around a slash, with
      outer blanks; `parseV4` is the stricter reader of the data plane. */
  datatype Text = Text(parse: string -> Option<Cidr>, parseV4: string -> Option<Cidr>, show: Cidr -> string)

  /** What the standard library promises of them. */
  ghost predicate Sound(text: Text)
  {
    && (forall c :: text.parse(text.show(c)) == Some(c))
    && (forall c: Cidr :: c.addr.V4? ==> text.parseV4(text.show(c)) == Some(c))
    && (forall s :: text.parseV4(s).Some? ==> text.parseV4(s).value.addr.V4?)
    && text.show(Cidr(V4(0), 0)) == "0.0.0.0/0"
    && text.show(Cidr(V6(0), 0)) == "::/0"
  }

  const DEFAULT_V4: string := "0.0.0.0/0"
  const DEFAULT_V6: string := "::/0"

  predicate IsExitNodeRoute(route: string)
  {
    route == DEFAULT_V4 || route == DEFAULT_V6
  }

  function ReadRoute(text: Text, s: string): Option<Cidr>
  {
    var c := text.parse(s);
    if c.Some? && Fits(c.value) then c else None
  }

  /** `normalize_advertised_route`. */
  function NormalRoute(text: Text, s: string): Option<string>
  {
    var c := ReadRoute(text, s);
    if c.None? then None else Some(text.show(Masked(c.value)))
  }

  /** A normal route reads back as a network that covers what the given text covered, it is its
      own normal form, and both readers agree on it. */
  lemma {:induction false} NormalRouteMeaning(text: Text, s: string)
    requires Sound(text) && NormalRoute(text, s).Some?
    ensures var n := NormalRoute(text, s).value;
            && ReadRoute(text, n) == Some(Masked(ReadRoute(text, s).value))
            && NormalRoute(text, n) == Some(n)
            && (forall ip :: Covers(ReadRoute(text, n).value, ip) <==> Covers(ReadRoute(text, s).value, ip))
            && (ReadRoute(text, s).value.addr.V4? ==> text.parseV4(n) == ReadRoute(text, n))
  {
    hide Masked, Covers;
    MaskingIsCanonical(ReadRoute(text, s).value);
    MaskedFamily(ReadRoute(text, s).value);
  }

  lemma MaskedFamily(c: Cidr)
    requires Fits(c)
    ensures Masked(c).bits == c.bits && (Masked(c).addr.V4? <==> c.addr.V4?)
  {
  }

  /** Two routes have the same normal form exactly when they match the same addresses. */
  lemma {:induction false} NormalFormsDecideCoverage(text: Text, s: string, t: string)
    requires Sound(text) && ReadRoute(text, s).Some? && ReadRoute(text, t).Some?
    ensures NormalRoute(text, s) == NormalRoute(text, t) <==>
              forall ip :: Covers(ReadRoute(text, s).value, ip) <==> Covers(ReadRoute(text, t).value, ip)
  {
    hide Covers;
    var c, d := ReadRoute(text, s).value, ReadRoute(text, t).value;
    SameCoverIsSameNetwork(c, d);
    assert text.parse(text.show(Masked(c))) == Some(Masked(c));
    assert text.parse(text.show(Masked(d))) == Some(Masked(d));
  }

  // ---- Lists of routes ----

  /** The list without what repeats an earlier entry. */
  function FirstOccurrences(list: seq<string>): seq<string>
  {
    if list == [] then []
    else
      var before, last := FirstOccurrences(list[..|list| - 1]), list[|list| - 1];
      if last in before then before else before + [last]
  }

  function NormalForms(text: Text, routes: seq<string>): seq<string>
  {
    if routes == [] then []
    else
      var before, last := NormalForms(text, routes[..|routes| - 1]), NormalRoute(text, routes[|routes| - 1]);
      if last.None? then before else before + [last.value]
  }

  function NormalRoutes(text: Text, routes: seq<string>): seq<string>
  {
    FirstOccurrences(NormalForms(text, routes))
  }

  lemma {:induction false} FirstOccurrencesMeaning(list: seq<string>)
    ensures Distinct(FirstOccurrences(list)) && Elems(FirstOccurrences(list)) == Elems(list)
    ensures Distinct(list) ==> FirstOccurrences(list) == list
  {
    if list != [] {
      var last := |list| - 1;
      FirstOccurrencesMeaning(list[..last]);
      assert list == list[..last] + [list[last]];
      ElemsConcat(list[..last], [list[last]]);
      ElemsConcat(FirstOccurrences(list[..last]), [list[last]]);
      assert list[last] in FirstOccurrences(list[..last]) <==> list[last] in Elems(list[..last]);
    }
  }

  lemma {:induction false} NormalFormsMeaning(text: Text, routes: seq<string>, n: string)
    ensures n in NormalForms(text, routes) <==> exists i :: 0 <= i < |routes| && NormalRoute(text, routes[i]) == Some(n)
  {
    hide NormalRoute;
    if routes != [] {
      var last := |routes| - 1;
      var shorter := routes[..last];
      NormalFormsMeaning(text, shorter, n);
      if n in NormalForms(text, shorter) {
        var i :| 0 <= i < last && NormalRoute(text, shorter[i]) == Some(n);
        assert routes[i] == shorter[i];
      }
      if i :| 0 <= i < |routes| && NormalRoute(text, routes[i]) == Some(n) {
        if i < last { assert shorter[i] == routes[i]; }
      }
    }
  }

  lemma {:induction false} NormalFormsFixed(text: Text, routes: seq<string>)
    requires forall i :: 0 <= i < |routes| ==> NormalRoute(text, routes[i]) == Some(routes[i])
    ensures NormalForms(text, routes) == routes
  {
    hide NormalRoute;
    if routes != [] {
      var last := |routes| - 1;
      assert forall i :: 0 <= i < last ==> routes[..last][i] == routes[i];
      NormalFormsFixed(text, routes[..last]);
      assert routes == routes[..last] + [routes[last]];
    }
  }

  /** A list of normal routes holds each normal form of a given route once, and nothing else;
      normalising it again changes nothing. */
  lemma {:induction false} NormalRoutesMeaning(text: Text, routes: seq<string>)
    requires Sound(text)
    ensures Distinct(NormalRoutes(text, routes))
    ensures forall n :: n in NormalRoutes(text, routes) <==> exists i :: 0 <= i < |routes| && NormalRoute(text, routes[i]) == Some(n)
    ensures NormalRoutes(text, NormalRoutes(text, routes)) == NormalRoutes(text, routes)
  {
    hide NormalRoute, Sound, FirstOccurrences, NormalForms;
    var forms := NormalForms(text, routes);
    var list := NormalRoutes(text, routes);
    FirstOccurrencesMeaning(forms);
    forall n ensures n in list <==> exists i :: 0 <= i < |routes| && NormalRoute(text, routes[i]) == Some(n) {
      NormalFormsMeaning(text, routes, n);
      assert n in list <==> n in Elems(list);
      assert n in forms <==> n in Elems(forms);
    }
    forall j | 0 <= j < |list| ensures NormalRoute(text, list[j]) == Some(list[j]) {
      assert list[j] in list;
      var i :| 0 <= i < |routes| && NormalRoute(text, routes[i]) == Some(list[j]);
      NormalRouteMeaning(text, routes[i]);
    }
    NormalFormsFixed(text, list);
    FirstOccurrencesMeaning(list);
  }

  /** `normalize_advertised_routes`: a loop over a set of seen routes. */
  method NormalizeAdvertisedRoutes(text: Text, routes: seq<string>) returns (normalized: seq<string>)
    ensures normalized == NormalRoutes(text, routes)
  {
    hide NormalRoute;
    normalized := [];
    var seen: set<string> := {};
    for i := 0 to |routes|
      invariant normalized == NormalRoutes(text, routes[..i])
      invariant seen == Elems(normalized)
    {
      assert routes[..i + 1][..i] == routes[..i];
      var route := NormalRoute(text, routes[i]);
      if route.Some? {
        var forms := NormalForms(text, routes[..i + 1]);
        assert forms[..|forms| - 1] == NormalForms(text, routes[..i]);
        if route.value !in seen {
          ElemsConcat(normalized, [route.value]);
          seen := seen + {route.value};
          normalized := normalized + [route.value];
        }
      }
    }
    assert routes[..|routes|] == routes;
  }

  /** `effective_advertised_routes`: an exit node also advertises the two default routes. */
  method EffectiveAdvertisedRoutes(text: Text, routes: seq<string>, exitNode: bool) returns (effective: seq<string>)
    requires Sound(text)
    ensures Distinct(effective) && NormalRoutes(text, routes) <= effective
    ensures Elems(effective) == Elems(NormalRoutes(text, routes)) + if exitNode then {DEFAULT_V4, DEFAULT_V6} else {}
    ensures NormalRoutes(text, effective) == effective
  {
    hide Sound, NormalForms, FirstOccurrences, NormalRoute;
    effective := NormalizeAdvertisedRoutes(text, routes);
    NormalRoutesMeaning(text, routes);
    assert effective == NormalRoutes(text, effective);
    if exitNode {
      var defaults := [DEFAULT_V4, DEFAULT_V6];
      var seen := Elems(effective);
      ghost var start := effective;
      for i := 0 to 2
        invariant start <= effective && Distinct(effective) && seen == Elems(effective)
        invariant Elems(effective) == Elems(start) + Elems(defaults[..i])
      {
        ElemsConcat(effective, [defaults[i]]);
        assert defaults[..i + 1] == defaults[..i] + [defaults[i]];
        ElemsConcat(defaults[..i], [defaults[i]]);
        if defaults[i] !in seen {
          seen := seen + {defaults[i]};
          effective := effective + [defaults[i]];
        }
      }
      assert defaults[..2] == defaults;
      assert Elems(defaults) == {DEFAULT_V4, DEFAULT_V6};
      EffectiveIsNormal(text, routes, effective);
    }
  }

  lemma DefaultsAreNormal(text: Text)
    requires Sound(text)
    ensures NormalRoute(text, DEFAULT_V4) == Some(DEFAULT_V4) && NormalRoute(text, DEFAULT_V6) == Some(DEFAULT_V6)
  {
    assert text.parse(text.show(Cidr(V4(0), 0))) == Some(Cidr(V4(0), 0));
    assert text.parse(text.show(Cidr(V6(0), 0))) == Some(Cidr(V6(0), 0));
  }

  lemma {:induction false} EffectiveIsNormal(text: Text, routes: seq<string>, effective: seq<string>)
    requires Sound(text) && Distinct(effective)
    requires Elems(effective) <= Elems(NormalRoutes(text, routes)) + {DEFAULT_V4, DEFAULT_V6}
    ensures NormalRoutes(text, effective) == effective
  {
    hide NormalRoute, Sound;
    DefaultsAreNormal(text);
    NormalRoutesMeaning(text, routes);
    forall j | 0 <= j < |effective| ensures NormalRoute(text, effective[j]) == Some(effective[j]) {
      assert effective[j] in Elems(effective);
      if effective[j] in NormalRoutes(text, routes) {
        var i :| 0 <= i < |routes| && NormalRoute(text, routes[i]) == Some(effective[j]);
        NormalRouteMeaning(text, routes[i]);
      }
    }
    NormalFormsFixed(text, effective);
    FirstOccurrencesMeaning(effective);
  }
}
