// Shared vocabulary: optional values, minima, whole numbers as text, and a few facts about products.
module Basics {

  datatype Option<+T> = None | Some(value: T)

  function Min(a: nat, b: nat): nat {
    if a <= b then a else b
  }

  function Max(a: real, b: real): real {
    if a >= b then a else b
  }

  function Abs(a: real): real {
    if a < 0.0 then -a else a
  }

  function Digits(n: nat): string {
    if n < 10 then [('0' as int + n) as char] else Digits(n / 10) + [('0' as int + n % 10) as char]
  }

  function Decimal(n: int): string {
    if n < 0 then "-" + Digits(-n) else Digits(n)
  }

  lemma ProductSign(a: real, b: real)
    requires a >= 0.0 && b >= 0.0
    ensures a * b >= 0.0
  {
  }

  lemma ScaledOrder(a: real, b: real, m: real)
    requires a <= b && m >= 0.0
    ensures a * m <= b * m
    ensures a < b && m > 0.0 ==> a * m < b * m
  {
    ProductSign(b - a, m);
    assert (b - a) * m == b * m - a * m;
  }
}
