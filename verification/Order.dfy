/** Rust's ordering of strings and the `sort(); dedup();` idiom: a strictly
    sorted list is a canonical form of the set of its elements. */
module Order {
  import opened Common

  /** Lexicographic order by code point, which is also the order of the UTF-8 bytes. */
  predicate Less(a: string, b: string)
  {
    if b == [] then false
    else if a == [] then true
    else if a[0] != b[0] then a[0] < b[0]
    else Less(a[1..], b[1..])
  }

  lemma LessIrreflexive(a: string)
    ensures !Less(a, a)
  {
  }

  lemma {:induction false} LessTransitive(a: string, b: string, c: string)
    requires Less(a, b) && Less(b, c)
    ensures Less(a, c)
  {
    if a != [] && a[0] == b[0] == c[0] {
      LessTransitive(a[1..], b[1..], c[1..]);
    }
  }

  lemma {:induction false} LessTotal(a: string, b: string)
    ensures a == b || Less(a, b) || Less(b, a)
  {
    if a != [] && b != [] && a[0] == b[0] {
      LessTotal(a[1..], b[1..]);
      assert a == [a[0]] + a[1..] && b == [b[0]] + b[1..];
    }
  }

  /** The texts first differ at `i`, where the first one has the lesser character. */
  ghost predicate FallsBehind(a: string, b: string, i: nat)
  {
    i < |a| && i < |b| && a[i] < b[i] && forall k :: 0 <= k < i ==> a[k] == b[k]
  }

  lemma FallsBehindLater(a: string, b: string, i: nat)
    requires a != [] && b != [] && a[0] == b[0]
    ensures FallsBehind(a[1..], b[1..], i) <==> FallsBehind(a, b, i + 1)
    ensures !FallsBehind(a, b, 0)
  {
    var x, y := a[1..], b[1..];
    if FallsBehind(x, y, i) {
      forall k | 0 <= k < i + 1 ensures a[k] == b[k] { if k > 0 { assert x[k - 1] == y[k - 1]; } }
    }
  }

  /** A text comes before its longer continuations, and before those that have a greater character where they
      first differ from it. */
  lemma {:induction false} LessExactly(a: string, b: string)
    ensures Less(a, b) <==> (a < b) || exists i: nat :: FallsBehind(a, b, i)
  {
    if a != [] && b != [] {
      if a[0] != b[0] {
        assert a[0] < b[0] ==> FallsBehind(a, b, 0);
      } else {
        LessExactly(a[1..], b[1..]);
        assert a == [a[0]] + a[1..] && b == [a[0]] + b[1..];
        forall i: nat ensures FallsBehind(a[1..], b[1..], i) <==> FallsBehind(a, b, i + 1) { FallsBehindLater(a, b, i); }
        FallsBehindLater(a, b, 0);
        hide FallsBehind;
        if i: nat :| FallsBehind(a, b, i) { assert FallsBehind(a[1..], b[1..], i - 1); }
      }
    }
  }

  ghost predicate Sorted(xs: seq<string>)
  {
    forall i, j :: 0 <= i < j < |xs| ==> Less(xs[i], xs[j])
  }

  lemma ElemsHeadTail(xs: seq<string>)
    requires xs != []
    ensures Elems(xs) == {xs[0]} + Elems(xs[1..])
  {
    assert xs == [xs[0]] + xs[1..];
    ElemsConcat([xs[0]], xs[1..]);
  }

  /** Inserts a key into a strictly sorted list, or leaves the list alone if it is there. */
  function Insert(x: string, xs: seq<string>): (r: seq<string>)
    ensures Elems(r) == Elems(xs) + {x}
  {
    if xs == [] then [x]
    else if x == xs[0] then xs
    else if Less(x, xs[0]) then ElemsConcat([x], xs); [x] + xs
    else
      ElemsHeadTail(xs);
      ElemsConcat([xs[0]], Insert(x, xs[1..]));
      [xs[0]] + Insert(x, xs[1..])
  }

  lemma {:induction false} InsertSorted(x: string, xs: seq<string>)
    requires Sorted(xs)
    ensures Sorted(Insert(x, xs))
  {
    if xs == [] || x == xs[0] {
    } else if Less(x, xs[0]) {
      forall i | 0 <= i < |xs| ensures Less(x, xs[i]) {
        if i > 0 { LessTransitive(x, xs[0], xs[i]); }
      }
    } else {
      LessTotal(x, xs[0]);
      InsertSorted(x, xs[1..]);
      var rest := Insert(x, xs[1..]);
      forall i | 0 <= i < |rest| ensures Less(xs[0], rest[i]) {
        assert rest[i] in Elems(rest);
        assert rest[i] == x || rest[i] in xs[1..];
      }
    }
  }

  /** `values.sort(); values.dedup();` */
  function SortDedup(xs: seq<string>): (r: seq<string>)
    ensures Elems(r) == Elems(xs)
  {
    if xs == [] then []
    else
      ElemsHeadTail(xs);
      Insert(xs[0], SortDedup(xs[1..]))
  }

  lemma {:induction false} SortDedupSorted(xs: seq<string>)
    ensures Sorted(SortDedup(xs))
  {
    if xs != [] {
      SortDedupSorted(xs[1..]);
      InsertSorted(xs[0], SortDedup(xs[1..]));
    }
  }

  lemma HeadIsLeast(xs: seq<string>, ys: seq<string>)
    requires Sorted(xs) && Sorted(ys) && xs != [] && ys != []
    requires Elems(xs) == Elems(ys)
    ensures xs[0] == ys[0]
  {
    assert xs[0] in Elems(ys) && ys[0] in Elems(xs);
    if xs[0] != ys[0] {
      LessTransitive(xs[0], ys[0], xs[0]);
      LessIrreflexive(xs[0]);
    }
  }

  lemma TailElems(xs: seq<string>)
    requires Sorted(xs) && xs != []
    ensures Elems(xs[1..]) == Elems(xs) - {xs[0]}
  {
    forall i | 1 <= i < |xs| ensures xs[i] != xs[0] {
      if xs[i] == xs[0] { LessIrreflexive(xs[0]); }
    }
    ElemsHeadTail(xs);
  }

  /** Two strictly sorted lists of the same keys are the same list. */
  lemma {:induction false} SortedIsCanonical(xs: seq<string>, ys: seq<string>)
    requires Sorted(xs) && Sorted(ys)
    requires Elems(xs) == Elems(ys)
    ensures xs == ys
  {
    ElemsEmpty(xs);
    ElemsEmpty(ys);
    if xs != [] {
      HeadIsLeast(xs, ys);
      TailElems(xs);
      TailElems(ys);
      SortedIsCanonical(xs[1..], ys[1..]);
      assert xs == [xs[0]] + xs[1..] && ys == [ys[0]] + ys[1..];
    }
  }

  lemma SortDedupFixed(xs: seq<string>)
    requires Sorted(xs)
    ensures SortDedup(xs) == xs
  {
    SortDedupSorted(xs);
    SortedIsCanonical(SortDedup(xs), xs);
  }

  lemma SortedDistinct(xs: seq<string>)
    requires Sorted(xs)
    ensures Distinct(xs)
  {
    forall i, j | 0 <= i < j < |xs| ensures xs[i] != xs[j] {
      if xs[i] == xs[j] { LessIrreflexive(xs[i]); }
    }
  }

  /** Dropping keys keeps a list strictly sorted. */
  function Without(xs: seq<string>, x: string): (r: seq<string>)
    ensures Elems(r) == Elems(xs) - {x}
  {
    if xs == [] then []
    else
      ElemsHeadTail(xs);
      var head := if xs[0] == x then [] else [xs[0]];
      ElemsConcat(head, Without(xs[1..], x));
      head + Without(xs[1..], x)
  }

  lemma {:induction false} WithoutSorted(xs: seq<string>, x: string)
    requires Sorted(xs)
    ensures Sorted(Without(xs, x))
  {
    if xs != [] {
      WithoutSorted(xs[1..], x);
      var rest := Without(xs[1..], x);
      forall i | 0 <= i < |rest| ensures Less(xs[0], rest[i]) {
        assert rest[i] in Elems(rest);
        assert rest[i] in xs[1..];
      }
    }
  }
}
