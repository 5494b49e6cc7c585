/** Prefix masks of 32-bit and 128-bit addresses: a shorter mask keeps a proper part of the bits a
    longer one keeps. */
module Masks {

  function Mask4(bits: bv8): bv32
    requires bits <= 32
  {
    if bits == 0 then 0 else (0xFFFF_FFFF as bv32) << (32 - bits)
  }

  function Mask6(bits: bv8): bv128
    requires bits <= 128
  {
    if bits == 0 then 0 else (0xFFFF_FFFF_FFFF_FFFF_FFFF_FFFF_FFFF_FFFF as bv128) << (128 - bits)
  }

  function Keep4(x: bv32, mask: bv32): bv32
  {
    x & mask
  }

  function Keep6(x: bv128, mask: bv128): bv128
  {
    x & mask
  }

  function Network4(x: bv32, bits: bv8): bv32
    requires bits <= 32
  {
    Keep4(x, Mask4(bits))
  }

  function Network6(x: bv128, bits: bv8): bv128
    requires bits <= 128
  {
    Keep6(x, Mask6(bits))
  }

  // ---- Networks are leading bits ----

  function Lead4(x: bv32, bits: bv8): bv32
    requires 0 < bits <= 32
  {
    x >> (32 - bits)
  }

  function Padded4(x: bv32, bits: bv8): bv32
    requires 0 < bits <= 32
  {
    x << (32 - bits)
  }

  lemma LeadPadded4(x: bv32, bits: bv8)
    requires 0 < bits <= 32
    ensures Padded4(Lead4(x, bits), bits) == Network4(x, bits)
  {
  }

  lemma LeadKept4(x: bv32, bits: bv8)
    requires 0 < bits <= 32
    ensures Lead4(Network4(x, bits), bits) == Lead4(x, bits)
  {
  }

  /** Two addresses lie in one network of a length exactly if they agree on that many leading bits. */
  lemma {:induction false} LeadingBits4(x: bv32, y: bv32, bits: bv8)
    requires 0 < bits <= 32
    ensures Network4(x, bits) == Network4(y, bits) <==> Lead4(x, bits) == Lead4(y, bits)
  {
    hide Network4, Lead4, Padded4;
    LeadPadded4(x, bits);
    LeadPadded4(y, bits);
    LeadKept4(x, bits);
    LeadKept4(y, bits);
  }

  /** The masks of IPv6: all ones, and one bit less with each shorter length. */
  lemma MaskLosesBit6(bits: bv8)
    requires bits <= 128
    ensures Mask6(bits) == if bits == 128 then 0xFFFF_FFFF_FFFF_FFFF_FFFF_FFFF_FFFF_FFFF else Mask6(bits + 1) << 1
  {
  }

  // ---- Masks nest ----

  predicate Inside4(m: bv32, n: bv32)
  {
    m & n == m
  }

  predicate Inside6(m: bv128, n: bv128)
  {
    m & n == m
  }

  function Twice(m: bv128): bv128
  {
    m << 1
  }

  lemma MasksNest4(a: bv8, b: bv8)
    requires a < b <= 32
    ensures Inside4(Mask4(a), Mask4(b)) && Mask4(a) != Mask4(b)
  {
  }

  lemma ShorterMask6(a: bv8)
    requires a < 128
    ensures Mask6(a) == Twice(Mask6(a + 1))
  {
  }

  lemma FullMask6()
    ensures Inside6(Twice(Mask6(128)), Mask6(128))
  {
  }

  lemma TwiceNests(m: bv128)
    requires Inside6(Twice(m), m)
    ensures Inside6(Twice(Twice(m)), Twice(m))
  {
  }

  lemma {:induction false} MaskIsPrefix6(a: bv8)
    requires a <= 128
    ensures Inside6(Twice(Mask6(a)), Mask6(a))
    decreases 128 - a
  {
    hide Mask6, Inside6, Twice;
    if a < 128 {
      MaskIsPrefix6(a + 1);
      ShorterMask6(a);
      TwiceNests(Mask6(a + 1));
    } else {
      FullMask6();
    }
  }

  lemma TwiceStaysInside(m: bv128, n: bv128)
    requires Inside6(m, n) && Inside6(Twice(n), n)
    ensures Inside6(Twice(m), n)
  {
  }

  lemma InsideItself(m: bv128)
    ensures Inside6(m, m)
  {
  }

  lemma {:induction false} MasksNest6(a: bv8, b: bv8)
    requires a <= b <= 128
    ensures Inside6(Mask6(a), Mask6(b))
    decreases 128 - a
  {
    hide Mask6, Inside6, Twice;
    if a < b {
      MasksNest6(a + 1, b);
      MaskIsPrefix6(b);
      ShorterMask6(a);
      TwiceStaysInside(Mask6(a + 1), Mask6(b));
    } else {
      InsideItself(Mask6(a));
    }
  }

  lemma MasksDiffer6(a: bv8, b: bv8)
    requires a < b <= 128
    ensures Mask6(a) != Mask6(b)
  {
  }

  // ---- An address that agrees with another under the shorter mask and not under the longer ----

  function Rest4(m: bv32, n: bv32): bv32
  {
    m ^ n
  }

  lemma RestIsApart4(m: bv32, n: bv32)
    requires Inside4(m, n) && m != n
    ensures Keep4(Rest4(m, n), m) == 0 && Keep4(Rest4(m, n), n) != 0
  {
  }

  lemma FlipHides4(x: bv32, rest: bv32, m: bv32)
    requires Keep4(rest, m) == 0
    ensures Keep4(x ^ rest, m) == Keep4(x, m)
  {
  }

  lemma FlipShows4(x: bv32, rest: bv32, m: bv32)
    requires Keep4(rest, m) != 0
    ensures Keep4(x ^ rest, m) != Keep4(x, m)
  {
  }

  lemma {:induction false} Flip4(x: bv32, rest: bv32, m: bv32, n: bv32) returns (y: bv32)
    requires Keep4(rest, m) == 0 && Keep4(rest, n) != 0
    ensures Keep4(y, m) == Keep4(x, m) && Keep4(y, n) != Keep4(x, n)
  {
    hide Keep4;
    y := x ^ rest;
    FlipHides4(x, rest, m);
    FlipShows4(x, rest, n);
  }

  lemma {:induction false} Apart4(x: bv32, a: bv8, b: bv8) returns (y: bv32)
    requires a < b <= 32
    ensures Network4(y, a) == Network4(x, a) && Network4(y, b) != Network4(x, b)
  {
    hide Mask4, Keep4, Inside4, Rest4;
    MasksNest4(a, b);
    var m, n := Mask4(a), Mask4(b);
    RestIsApart4(m, n);
    y := Flip4(x, Rest4(m, n), m, n);
  }

  function Rest6(m: bv128, n: bv128): bv128
  {
    m ^ n
  }

  lemma RestIsApart6(m: bv128, n: bv128)
    requires Inside6(m, n) && m != n
    ensures Keep6(Rest6(m, n), m) == 0 && Keep6(Rest6(m, n), n) != 0
  {
  }

  lemma FlipHides6(x: bv128, rest: bv128, m: bv128)
    requires Keep6(rest, m) == 0
    ensures Keep6(x ^ rest, m) == Keep6(x, m)
  {
  }

  lemma FlipShows6(x: bv128, rest: bv128, m: bv128)
    requires Keep6(rest, m) != 0
    ensures Keep6(x ^ rest, m) != Keep6(x, m)
  {
  }

  lemma {:induction false} Flip6(x: bv128, rest: bv128, m: bv128, n: bv128) returns (y: bv128)
    requires Keep6(rest, m) == 0 && Keep6(rest, n) != 0
    ensures Keep6(y, m) == Keep6(x, m) && Keep6(y, n) != Keep6(x, n)
  {
    hide Keep6;
    y := x ^ rest;
    FlipHides6(x, rest, m);
    FlipShows6(x, rest, n);
  }

  lemma {:induction false} Apart6(x: bv128, a: bv8, b: bv8) returns (y: bv128)
    requires a < b <= 128
    ensures Network6(y, a) == Network6(x, a) && Network6(y, b) != Network6(x, b)
  {
    hide Mask6, Keep6, Inside6, Rest6;
    MasksNest6(a, b); MasksDiffer6(a, b);
    var m, n := Mask6(a), Mask6(b);
    RestIsApart6(m, n);
    y := Flip6(x, Rest6(m, n), m, n);
  }

  lemma KeepAgain4(x: bv32, bits: bv8)
    requires bits <= 32
    ensures Network4(Network4(x, bits), bits) == Network4(x, bits)
  {
  }

  lemma KeepAgain6(x: bv128, bits: bv8)
    requires bits <= 128
    ensures Network6(Network6(x, bits), bits) == Network6(x, bits)
  {
    hide Mask6;
  }
}
