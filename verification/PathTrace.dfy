/** What the prunes of the path book keep, told from the times on the paths, and over whole runs from
    the trace: a path lives as long as its endpoint keeps being mentioned. */
module PathTrace {
  import opened Common
  import opened Paths
  import opened PathRuns

  predicate Tracked(book: Book, p: string, e: string)
  {
    p in book && e in book[p].endpoints
  }

  /** Something about the path is later than the start of the window: its announcement, selection or success. */
  predicate IsRecent(path: Path, now: nat, window: nat)
  {
    var start := if now > window then now - window else 0;
    || path.announcedAt > start
    || (path.selectedAt.Some? && path.selectedAt.value > start)
    || (path.successAt.Some? && path.successAt.value > start)
  }

  lemma FreshIsRecent(path: Path, now: nat, window: nat)
    ensures Freshness(path) > SatSub(now, window) <==> IsRecent(path, now, window)
  {
  }

  /** A prune with a window keeps exactly the tracked paths with a recent time, unchanged, and the peers
      that keep one; a current endpoint that goes is forgotten. A prune without one does nothing. */
  lemma {:induction false} PruneKeepsExactly(net: Net, book: Book, now: nat, window: nat, p: string, e: string)
    ensures var after := Apply(net, book, Pruned(now, window));
            if window == 0 then after == book
            else
              && (Tracked(after, p, e) <==> Tracked(book, p, e) && IsRecent(book[p].endpoints[e], now, window))
              && (Tracked(after, p, e) ==> after[p].endpoints[e] == book[p].endpoints[e])
              && (p in after <==> exists f :: Tracked(after, p, f))
              && (p in after ==>
                    after[p].current == if book[p].current.Some? && Tracked(after, p, book[p].current.value) then book[p].current else None)
  {
    hide Freshness, IsRecent;
    if window > 0 {
      if Tracked(book, p, e) { FreshIsRecent(book[p].endpoints[e], now, window); }
      if p in book {
        var recent := FreshOnly(book[p].endpoints, SatSub(now, window));
        assert e in recent <==> e in book[p].endpoints && Freshness(book[p].endpoints[e]) > SatSub(now, window);
        if recent != map[] {
          assert recent.Keys != {};
          var f :| f in recent.Keys;
          assert Tracked(Apply(net, book, Pruned(now, window)), p, f);
        }
      }
    }
  }

  /** Dropping the relay paths of a participant, retaining some participants, and clearing keep exactly the
      other paths, unchanged. */
  lemma {:induction false} DropsExactly(net: Net, book: Book, q: string, kept: set<string>, p: string, e: string)
    ensures var after := Apply(net, book, DropRelays(q));
            && (Tracked(after, p, e) <==> Tracked(book, p, e) && !(p == q && book[p].endpoints[e].source == Relay))
            && (Tracked(after, p, e) ==> after[p].endpoints[e] == book[p].endpoints[e])
    ensures var after := Apply(net, book, Retain(kept));
            && (p in after <==> p in book && p in kept) && (p in after ==> after[p] == book[p])
    ensures Apply(net, book, Clear) == map[]
  {
    if q in book && e in book[q].endpoints && !book[q].endpoints[e].source.Relay? {
      assert e in NonRelay(book[q].endpoints);
    }
  }

  /** A note enters an endpoint that was not tracked as observed at that time. A selection makes it current and sets its
      selection time; a success only ever raises its success time; nothing else changes. */
  lemma {:induction false} NotesExactly(net: Net, book: Book, p: string, e: string, at: nat, f: string)
    ensures var path := if Tracked(book, p, e) then book[p].endpoints[e] else Path(Observed, at, None, None);
            var current := if p in book then book[p].current else None;
            var (selected, succeeded) := (Apply(net, book, Selected(p, e, at)), Apply(net, book, Succeeded(p, e, at)));
            && p in selected && selected[p].current == Some(e)
            && Lookup(selected[p].endpoints, e) == Some(path.(selectedAt := Some(at)))
            && p in succeeded && succeeded[p].current == current
            && Lookup(succeeded[p].endpoints, e) ==
                 Some(if at == 0 || (path.successAt.Some? && path.successAt.value >= at) then path else path.(successAt := Some(at)))
            && (f != e ==>
                  var was := if p in book then Lookup(book[p].endpoints, f) else None;
                  Lookup(selected[p].endpoints, f) == was && Lookup(succeeded[p].endpoints, f) == was)
            && forall q :: q != p ==> Lookup(selected, q) == Lookup(book, q) && Lookup(succeeded, q) == Lookup(book, q)
  {
  }

  // ---- Runs ----

  /** The announcement lists the endpoint under some heading, and it is not blank. */
  predicate Lists(ann: Announcement, e: string)
  {
    Trim(e) != "" && (ann.endpoint == e || Some(e) in {ann.localEndpoint, ann.publicEndpoint, ann.relayEndpoint})
  }

  /** The first heading it is listed under: local, public, relay, or the plain endpoint. */
  function Heading(ann: Announcement, e: string): Source
  {
    if ann.localEndpoint == Some(e) then Local
    else if ann.publicEndpoint == Some(e) then Public
    else if ann.relayEndpoint == Some(e) then Relay
    else Legacy
  }

  lemma {:induction false} AsMapLookup(list: seq<(string, Source)>, e: string, source: Source)
    ensures Lookup(AsMap(list + [(e, source)]), e) == Some(source)
    ensures forall f :: f != e ==> Lookup(AsMap(list + [(e, source)]), f) == Lookup(AsMap(list), f)
  {
    var longer := list + [(e, source)];
    assert longer[..|longer| - 1] == list;
  }

  lemma {:induction false} AsMapKeys(list: seq<(string, Source)>, e: string)
    ensures e in AsMap(list) <==> exists i :: 0 <= i < |list| && list[i].0 == e
  {
    if list != [] {
      var last := |list| - 1;
      AsMapKeys(list[..last], e);
      if exists i :: 0 <= i < |list| && list[i].0 == e {
        var i :| 0 <= i < |list| && list[i].0 == e;
        if i < last { assert list[..last][i].0 == e; }
      }
    }
  }

  /** Listing an endpoint enters it unless it is blank or there. */
  lemma {:induction false} ListedLookup(list: seq<(string, Source)>, endpoint: Option<string>, source: Source, e: string)
    ensures Lookup(AsMap(Listed(list, endpoint, source)), e) ==
              if endpoint == Some(e) && Trim(e) != "" && e !in AsMap(list) then Some(source) else Lookup(AsMap(list), e)
  {
    if endpoint.Some? {
      hide AsMap, Trim;
      AsMapKeys(list, endpoint.value);
      AsMapLookup(list, endpoint.value, source);
    }
  }

  /** An announcement tells of exactly the endpoints it lists, each under its first heading. */
  lemma {:induction false} AnnouncedExactly(ann: Announcement, e: string)
    ensures Lookup(Announced(ann), e) == if Lists(ann, e) then Some(Heading(ann, e)) else None
  {
    hide Listed, Trim;
    var a := Listed([], ann.localEndpoint, Local);
    var b := Listed(a, ann.publicEndpoint, Public);
    var c := Listed(b, ann.relayEndpoint, Relay);
    ListedLookup([], ann.localEndpoint, Local, e);
    ListedLookup(a, ann.publicEndpoint, Public, e);
    ListedLookup(b, ann.relayEndpoint, Relay, e);
    ListedLookup(c, Some(ann.endpoint), Legacy, e);
    assert AsMap([]) == map[];
  }

  /** A relay path that the announcement does not list as a relay, or an observed one on the host of another listed
      endpoint, both of which others can reach, that has not worked in the last three minutes. */
  ghost predicate GivesWay(net: Net, e: string, path: Path, ann: Announcement, seenAt: nat)
  {
    || (path.source == Relay && !(Lists(ann, e) && Heading(ann, e) == Relay))
    || (&& path.source == Observed && !net.localOnly(e) && net.host(e) != None
        && !(path.successAt.Some? && seenAt <= path.successAt.value + 180)
        && HasRival(net, e, ann))
  }

  /** Another listed endpoint that others can reach is on the same host. */
  ghost predicate HasRival(net: Net, e: string, ann: Announcement)
  {
    exists a :: Lists(ann, a) && a != e && !net.localOnly(a) && net.host(a) == net.host(e)
  }

  lemma {:induction false} RivalExactly(net: Net, e: string, ann: Announcement)
    ensures HasRival(net, e, ann) <==>
              exists a :: a in Announced(ann) && !Announced(ann)[a].Observed? && !net.localOnly(a) && a != e && net.host(a) == net.host(e)
  {
    hide Announced, Lists;
    forall a ensures a in Announced(ann) <==> Lists(ann, a) { AnnouncedExactly(ann, a); assert a in Announced(ann) <==> Lookup(Announced(ann), a).Some?; }
    forall a | a in Announced(ann) ensures !Announced(ann)[a].Observed? { NeverObserved(ann, a); }
  }

  lemma {:induction false} GivesWayExactly(net: Net, e: string, path: Path, ann: Announcement, seenAt: nat)
    ensures Retained(net, e, path, Announced(ann), seenAt) <==> !GivesWay(net, e, path, ann, seenAt)
  {
    AnnouncedExactly(ann, e);
    RivalExactly(net, e, ann);
    hide Announced, Lists, HasRival;
    assert e in Announced(ann) <==> Lookup(Announced(ann), e).Some?;
  }

  /** A refresh, endpoint by endpoint: tracked paths stay unless they give way; a listed endpoint that stays
      has its source and time raised, and one that is new or gave way starts afresh. */
  lemma {:induction false} RefreshExactly(net: Net, book: Book, p: string, ann: Announcement, seenAt: nat, e: string)
    ensures var after := Apply(net, book, Refreshed(p, ann, seenAt));
            var stays := Tracked(book, p, e) && !GivesWay(net, e, book[p].endpoints[e], ann, seenAt);
            && p in after
            && Lookup(after[p].endpoints, e) == (
                 if stays then
                   var path := book[p].endpoints[e];
                   Some(if !Lists(ann, e) then path
                        else path.(source := if Order(Heading(ann, e)) > Order(path.source) then Heading(ann, e) else path.source,
                                   announcedAt := if seenAt > path.announcedAt then seenAt else path.announcedAt))
                 else if Lists(ann, e) then Some(Path(Heading(ann, e), seenAt, None, None)) else None)
            && (after[p].current == Some(e) <==> p in book && book[p].current == Some(e) && stays)
            && forall q :: q != p ==> Lookup(after, q) == Lookup(book, q)
  {
    AnnouncedExactly(ann, e);
    if Tracked(book, p, e) { GivesWayExactly(net, e, book[p].endpoints[e], ann, seenAt); }
    hide Announced, Lists, Heading, Retained, GivesWay, Order;
    assert e in Announced(ann) <==> Lookup(Announced(ann), e).Some?;
    if Tracked(book, p, e) && e in Announced(ann) { MergeIsLater(book[p].endpoints[e].source, Announced(ann)[e]); }
  }

  lemma MergeIsLater(a: Source, b: Source)
    ensures Merge(a, b) == if Order(b) > Order(a) then b else a
  {
  }

  /** The operation announces the endpoint for the participant, selects it, or reports a success there. */
  predicate Mentions(op: Op, p: string, e: string)
  {
    match op
    case Refreshed(q, ann, _) => q == p && Lists(ann, e)
    case Selected(q, f, _) => q == p && f == e
    case Succeeded(q, f, _) => q == p && f == e
    case _ => false
  }

  function TimeOf(op: Op): nat
  {
    match op
    case Refreshed(_, _, at) => at
    case Selected(_, _, at) => at
    case Succeeded(_, _, at) => at
    case Pruned(at, _) => at
    case _ => 0
  }

  function LastMention(ops: seq<Op>, p: string, e: string): Option<nat>
  {
    if ops == [] then None
    else if Mentions(ops[|ops| - 1], p, e) then Some(TimeOf(ops[|ops| - 1]))
    else LastMention(ops[..|ops| - 1], p, e)
  }

  /** Mentions of the endpoint come in the order of their times. */
  ghost predicate InOrder(ops: seq<Op>, p: string, e: string)
  {
    forall i, j :: 0 <= i < j < |ops| && Mentions(ops[i], p, e) && Mentions(ops[j], p, e) ==> TimeOf(ops[i]) <= TimeOf(ops[j])
  }

  /** If the path is tracked, its freshest time is the given one. */
  ghost predicate FreshAt(book: Book, p: string, e: string, t: Option<nat>)
  {
    Tracked(book, p, e) ==> t == Some(Freshness(book[p].endpoints[e]))
  }

  /** A mention no earlier than the freshest time of a path makes it its freshest time. */
  lemma {:induction false} MentionFreshens(net: Net, book: Book, op: Op, p: string, e: string)
    requires Mentions(op, p, e) && (Tracked(book, p, e) ==> Freshness(book[p].endpoints[e]) <= TimeOf(op))
    ensures FreshAt(Apply(net, book, op), p, e, Some(TimeOf(op)))
  {
    hide Announced, Lists, Retained;
    if op.Refreshed? { AnnouncedExactly(op.ann, e); }
  }

  /** Any other operation leaves the path as it is, or drops it. */
  lemma {:induction false} OthersLeave(net: Net, book: Book, op: Op, p: string, e: string)
    requires !Mentions(op, p, e)
    ensures Tracked(Apply(net, book, op), p, e) ==>
              Tracked(book, p, e) && Apply(net, book, op)[p].endpoints[e] == book[p].endpoints[e]
  {
    hide Announced, Lists, Retained, Freshness;
    if op.Refreshed? { AnnouncedExactly(op.ann, e); }
  }

  lemma {:induction false} LastMentionIsLatest(ops: seq<Op>, p: string, e: string, op: Op)
    requires InOrder(ops + [op], p, e) && Mentions(op, p, e) && LastMention(ops, p, e).Some?
    ensures LastMention(ops, p, e).value <= TimeOf(op)
  {
    hide Mentions, TimeOf;
    var i := LastMentionAt(ops, p, e);
    assert (ops + [op])[i] == ops[i] && (ops + [op])[|ops|] == op;
  }

  lemma {:induction false} LastMentionAt(ops: seq<Op>, p: string, e: string) returns (i: nat)
    requires LastMention(ops, p, e).Some?
    ensures i < |ops| && Mentions(ops[i], p, e) && LastMention(ops, p, e) == Some(TimeOf(ops[i]))
  {
    hide Mentions, TimeOf;
    var last := |ops| - 1;
    if Mentions(ops[last], p, e) { i := last; } else { i := LastMentionAt(ops[..last], p, e); }
  }

  /** After a run whose mentions of an endpoint are in order, its path, if tracked, was last fresh when the
      endpoint was last mentioned: announced, selected or reported as working. */
  lemma {:induction false} RunFreshAtLastMention(net: Net, ops: seq<Op>, p: string, e: string)
    requires InOrder(ops, p, e)
    ensures FreshAt(Run(net, map[], ops), p, e, LastMention(ops, p, e))
  {
    if ops != [] {
      hide Apply, Freshness, Mentions, TimeOf;
      var before, op := ops[..|ops| - 1], ops[|ops| - 1];
      assert ops == before + [op];
      RunFreshAtLastMention(net, before, p, e);
      if Mentions(op, p, e) {
        if Tracked(Run(net, map[], before), p, e) { LastMentionIsLatest(before, p, e, op); }
        MentionFreshens(net, Run(net, map[], before), op, p, e);
      } else {
        OthersLeave(net, Run(net, map[], before), op, p, e);
      }
    }
  }

  /** After every such run a prune keeps exactly the tracked paths whose endpoint was mentioned within the
      window. */
  lemma {:induction false} RunPruneExpires(net: Net, ops: seq<Op>, now: nat, window: nat, p: string, e: string)
    requires InOrder(ops, p, e) && window > 0
    ensures var book := Run(net, map[], ops);
            Tracked(Run(net, map[], ops + [Pruned(now, window)]), p, e) <==>
              && Tracked(book, p, e) && LastMention(ops, p, e).Some?
              && LastMention(ops, p, e).value > if now > window then now - window else 0
  {
    var longer, book := ops + [Pruned(now, window)], Run(net, map[], ops);
    assert longer[..|longer| - 1] == ops;
    RunFreshAtLastMention(net, ops, p, e);
    PruneKeepsExactly(net, book, now, window, p, e);
    if Tracked(book, p, e) { FreshIsRecent(book[p].endpoints[e], now, window); }
    hide Apply, Freshness;
  }
}
