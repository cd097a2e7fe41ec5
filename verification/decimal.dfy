/** The decimal text of an unsigned integer, as Rust's `Display` for
    integers writes it: ASCII digits, most significant first, no sign and no
    leading zero (zero itself is written `0`). */
module Decimal {
  import opened Bytes

  /** The ASCII code of `0`. */
  const Zero: Byte := 48

  predicate IsDigit(c: Byte)
  {
    Zero <= c < Zero + 10
  }

  predicate AllDigits(s: seq<Byte>)
  {
    forall i :: 0 <= i < |s| ==> IsDigit(s[i])
  }

  /** The decimal digits of `n`. */
  function Digits(n: nat): (r: seq<Byte>)
    ensures 1 <= |r| && AllDigits(r) && IsAscii(r)
    ensures r[0] == Zero <==> n == 0
    decreases n
  {
    if n < 10 then [Zero + n] else Digits(n / 10) + [Zero + n % 10]
  }

  /** The number a string of digits denotes. */
  function Parse(s: seq<Byte>): nat
    requires AllDigits(s)
    decreases |s|
  {
    if s == [] then 0 else Parse(s[..|s| - 1]) * 10 + (s[|s| - 1] - Zero)
  }

  /** Reading back the digits of `n` gives `n`. */
  lemma {:induction false} ParseDigits(n: nat)
    ensures Parse(Digits(n)) == n
    decreases n
  {
    var d := Digits(n);
    if n >= 10 {
      ParseDigits(n / 10);
      assert d[..|d| - 1] == Digits(n / 10);
    }
  }

  /** Different numbers have different decimal texts. */
  lemma DigitsInjective(m: nat, n: nat)
    requires Digits(m) == Digits(n)
    ensures m == n
  {
    ParseDigits(m);
    ParseDigits(n);
  }
}
