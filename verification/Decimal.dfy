/** The decimal text that `format!` prints for an unsigned number. */
module Decimal {

  function Digit(n: nat): char
    requires n < 10
  {
    ('0' as int + n) as char
  }

  predicate IsDigit(c: char)
  {
    '0' <= c <= '9'
  }

  function Print(n: nat): (s: string)
    ensures s != [] && forall i :: 0 <= i < |s| ==> IsDigit(s[i])
  {
    if n < 10 then [Digit(n)] else Print(n / 10) + [Digit(n % 10)]
  }

  /** The inverse of `Print`. */
  function Read(s: string): int
  {
    if s == [] then 0 else 10 * Read(s[..|s| - 1]) + (s[|s| - 1] as int - '0' as int)
  }

  lemma {:induction false} ReadPrint(n: nat)
    ensures Read(Print(n)) == n
  {
    if n >= 10 {
      ReadPrint(n / 10);
      assert Print(n)[..|Print(n)| - 1] == Print(n / 10);
    } else {
      assert Print(n)[..0] == [];
    }
  }

  lemma PrintInjective(m: nat, n: nat)
    requires Print(m) == Print(n)
    ensures m == n
  {
    ReadPrint(m);
    ReadPrint(n);
  }

  lemma {:induction false} PrintLength(n: nat)
    requires n < 10_000
    ensures |Print(n)| <= 4
  {
    if n >= 10 {
      var tens := n / 10;
      assert |Print(n)| == |Print(tens)| + 1;
      if tens >= 10 {
        assert |Print(tens)| == |Print(tens / 10)| + 1;
        assert tens / 10 >= 10 ==> |Print(tens / 10)| == |Print(tens / 10 / 10)| + 1;
      }
    }
  }
}
