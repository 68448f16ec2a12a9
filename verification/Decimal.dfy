/** Decimal numerals. */
module Decimal {
  datatype Option<T> = None | Some(value: T)

  function Digit(d: int): char
    requires 0 <= d < 10
  {
    (d + '0' as int) as char
  }

  function Natural(n: nat): (s: string)
    ensures s != [] && forall c <- s :: '0' <= c <= '9'
  {
    if n < 10 then [Digit(n)] else Natural(n / 10) + [Digit(n % 10)]
  }

  function Integer(n: int): string {
    if n < 0 then ['-'] + Natural(-n) else Natural(n)
  }

  function ParseNatural(s: string): Option<nat> {
    if s == [] then None
    else
      var c := s[|s| - 1];
      if !('0' <= c <= '9') then None
      else
        var d := c as int - '0' as int;
        if |s| == 1 then Some(d)
        else
          match ParseNatural(s[..|s| - 1])
          case None => None
          case Some(n) => Some(10 * n + d)
  }

  function ParseInteger(s: string): Option<int> {
    var negative := s != [] && s[0] == '-';
    match ParseNatural(if negative then s[1..] else s)
    case None => None
    case Some(n) =>
      var i: int := n;
      Some(if negative then -i else i)
  }

  lemma {:induction false} NaturalRoundTrip(n: nat)
    ensures ParseNatural(Natural(n)) == Some(n)
  {
    if n >= 10 {
      NaturalRoundTrip(n / 10);
      var s := Natural(n);
      assert s[..|s| - 1] == Natural(n / 10);
    }
  }

  lemma IntegerRoundTrip(n: int)
    ensures ParseInteger(Integer(n)) == Some(n)
    ensures Integer(n) != []
  {
    if n < 0 {
      NaturalRoundTrip(-n);
    } else {
      NaturalRoundTrip(n);
      assert Natural(n)[0] in Natural(n);
    }
  }

  function Power(n: nat): nat {
    if n == 0 then 1 else 10 * Power(n - 1)
  }

  /** The sum of the digits times their powers of ten, the first digit having the highest. */
  function Denoted(s: string): int {
    if s == [] then 0 else (s[0] as int - '0' as int) * Power(|s| - 1) + Denoted(s[1..])
  }

  lemma {:induction false} DenotedSnoc(s: string, c: char)
    ensures Denoted(s + [c]) == Denoted(s) * 10 + (c as int - '0' as int)
  {
    if s == [] {
      assert s + [c] == [c] && [c][1..] == [];
    } else {
      var d := s[0] as int - '0' as int;
      DenotedSnoc(s[1..], c);
      assert (s + [c])[0] == s[0] && (s + [c])[1..] == s[1..] + [c];
      assert Power(|s|) == 10 * Power(|s| - 1);
      assert d * Power(|s|) == d * Power(|s| - 1) * 10;
    }
  }

  /** The numeral of a number denotes it, without a leading zero. */
  lemma {:induction false} NaturalDenotes(n: nat)
    ensures Denoted(Natural(n)) == n && (n > 0 ==> Natural(n)[0] != '0')
  {
    if n < 10 {
      assert Natural(n)[1..] == [];
    } else {
      NaturalDenotes(n / 10);
      DenotedSnoc(Natural(n / 10), Digit(n % 10));
    }
  }
}
