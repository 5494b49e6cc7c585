/** Which relays a batch asks: three at most, all admissible, and none ranked behind one left out. */
module RelayCandidates {
  import opened Common
  import opened RelayState
  import opened RelayProtocol

  predicate Admissible(relay: string, participant: string, own: Option<string>, failures: Failures, book: ProviderBook, now: nat)
  {
    && relay != participant && Some(relay) != own
    && !InCooldown(failures, participant, relay, now)
    && !ProviderInCooldown(book, relay, now)
  }

  lemma {:induction false} EligibleExactly(pool: seq<string>, p: string, own: Option<string>, failures: Failures, book: ProviderBook, now: nat)
    ensures forall r :: r in Eligible(pool, p, own, failures, book, now)
                    <==> r in pool && Admissible(r, p, own, failures, book, now)
  {
    if pool != [] {
      EligibleExactly(pool[1..], p, own, failures, book, now);
      assert pool == [pool[0]] + pool[1..];
    }
  }

  ghost predicate Ranked(xs: seq<string>, book: ProviderBook, now: nat)
  {
    forall i, j :: 0 <= i < j < |xs| ==> KeyAtMost(ProviderSortKey(book, xs[i], now), ProviderSortKey(book, xs[j], now))
  }

  lemma {:induction false} InsertByKeyRanked(book: ProviderBook, now: nat, x: string, xs: seq<string>)
    requires Ranked(xs, book, now)
    ensures Ranked(InsertByKey(book, now, x, xs), book, now)
  {
    if xs != [] && !KeyAtMost(ProviderSortKey(book, x, now), ProviderSortKey(book, xs[0], now)) {
      InsertByKeyRanked(book, now, x, xs[1..]);
      var rest := InsertByKey(book, now, x, xs[1..]);
      forall j | 0 <= j < |rest|
        ensures KeyAtMost(ProviderSortKey(book, xs[0], now), ProviderSortKey(book, rest[j], now))
      {
        assert rest[j] in multiset(rest);
        assert rest[j] == x || rest[j] in xs[1..];
      }
    }
  }

  lemma {:induction false} SortByKeyRanked(book: ProviderBook, now: nat, xs: seq<string>)
    ensures Ranked(SortByKey(book, now, xs), book, now)
  {
    if xs != [] {
      SortByKeyRanked(book, now, xs[1..]);
      InsertByKeyRanked(book, now, xs[0], SortByKey(book, now, xs[1..]));
    }
  }

  /** The relays asked for a participant: at most three, drawn from the pool, neither the peer nor
      this node nor anything cooling down; and fewer than three only when nothing else is admissible,
      while a relay left out never ranks strictly ahead of one chosen. */
  lemma CandidatesAreTheBest(pool: seq<string>, p: string, own: Option<string>, failures: Failures, book: ProviderBook, now: nat)
    ensures var chosen := Candidates(pool, p, own, failures, book, now);
            && |chosen| <= 3
            && (forall r :: r in chosen ==> r in pool && Admissible(r, p, own, failures, book, now))
            && (forall r :: r in pool && Admissible(r, p, own, failures, book, now) && r !in chosen ==>
                  && |chosen| == 3
                  && forall c :: c in chosen ==> KeyAtMost(ProviderSortKey(book, c, now), ProviderSortKey(book, r, now)))
  {
    hide Eligible, SortByKey, Admissible, KeyAtMost, ProviderSortKey;
    var eligible := Eligible(pool, p, own, failures, book, now);
    var sorted := SortByKey(book, now, eligible);
    EligibleExactly(pool, p, own, failures, book, now);
    SortByKeyRanked(book, now, eligible);
    forall r ensures r in sorted <==> r in eligible {
      assert r in multiset(sorted) <==> r in multiset(eligible);
    }
    var chosen := Candidates(pool, p, own, failures, book, now);
    forall r, c | r in sorted && r !in chosen && c in chosen
      ensures KeyAtMost(ProviderSortKey(book, c, now), ProviderSortKey(book, r, now))
    {
      var rest := sorted[|chosen|..];
      assert sorted == chosen + rest;
      var i :| 0 <= i < |rest| && rest[i] == r;
      var j :| 0 <= j < |chosen| && chosen[j] == c;
      assert sorted[j] == c && sorted[|chosen| + i] == r;
    }
  }
}
