/** Small shared vocabulary: optional values, saturating subtraction, and the
    white-space rules that Rust's `str::trim` follows. */
module Common {

  datatype Option<+T> = None | Some(value: T)

  /** `u64::saturating_sub`. */
  function SatSub(a: nat, b: nat): nat
  {
    if a <= b then 0 else a - b
  }

  function Lookup<K, V>(m: map<K, V>, k: K): Option<V>
  {
    if k in m then Some(m[k]) else None
  }

  /** The elements of a sequence, as a set. */
  function Elems<T>(xs: seq<T>): set<T>
  {
    set x | x in xs
  }

  ghost predicate Distinct<T>(xs: seq<T>)
  {
    forall i, j :: 0 <= i < j < |xs| ==> xs[i] != xs[j]
  }

  lemma ElemsConcat<T>(xs: seq<T>, ys: seq<T>)
    ensures Elems(xs + ys) == Elems(xs) + Elems(ys)
  {
    var both := xs + ys;
    forall x | x in Elems(xs) + Elems(ys) ensures x in both {
      if x in xs {
        var i :| 0 <= i < |xs| && xs[i] == x;
        assert both[i] == x;
      } else {
        var i :| 0 <= i < |ys| && ys[i] == x;
        assert both[|xs| + i] == x;
      }
    }
  }

  lemma SubsetSize<T>(a: set<T>, b: set<T>)
    requires a <= b
    ensures |a| <= |b|
  {
    assert b == a + (b - a);
  }

  lemma ElemsEmpty<T>(xs: seq<T>)
    ensures Elems(xs) == {} <==> xs == []
  {
    if xs != [] { assert xs[0] in Elems(xs); }
  }

  lemma ElemsSnoc<T>(xs: seq<T>)
    requires xs != []
    ensures Elems(xs) == Elems(xs[..|xs| - 1]) + {xs[|xs| - 1]}
  {
    var last := |xs| - 1;
    assert xs == xs[..last] + [xs[last]];
  }

  /** Membership in Unicode's White_Space property, which `char::is_whitespace` tests. */
  predicate IsSpace(c: char)
  {
    var n := c as int;
    || 0x09 <= n <= 0x0D
    || n == 0x20 || n == 0x85 || n == 0xA0 || n == 0x1680
    || 0x2000 <= n <= 0x200A
    || n == 0x2028 || n == 0x2029 || n == 0x202F || n == 0x205F || n == 0x3000
  }

  function TrimStart(s: string): string
  {
    if s != [] && IsSpace(s[0]) then TrimStart(s[1..]) else s
  }

  function TrimEnd(s: string): string
  {
    if s != [] && IsSpace(s[|s| - 1]) then TrimEnd(s[..|s| - 1]) else s
  }

  function Trim(s: string): string
  {
    TrimEnd(TrimStart(s))
  }

  /** `value.trim().is_empty()`. */
  predicate IsBlank(s: string)
  {
    Trim(s) == []
  }

  /** Trimming leaves text alone exactly when neither end is white space. */
  lemma TrimFixed(s: string)
    ensures Trim(s) == s <==> s == [] || (!IsSpace(s[0]) && !IsSpace(s[|s| - 1]))
  {
    TrimStartShortens(s);
    TrimEndShortens(TrimStart(s));
  }

  lemma TrimStartShortens(s: string)
    ensures |TrimStart(s)| <= |s|
    ensures s != [] && IsSpace(s[0]) ==> |TrimStart(s)| < |s|
  {
  }

  lemma TrimEndShortens(s: string)
    ensures |TrimEnd(s)| <= |s|
    ensures s != [] && IsSpace(s[|s| - 1]) ==> |TrimEnd(s)| < |s|
  {
  }
}
