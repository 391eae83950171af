/** Numbers as decimal text. */
module Decimals {
  function Digit(d: nat): char
    requires d < 10
  {
    ('0' as int + d) as char
  }

  /** `os << n` for an integer. */
  function Dec(n: int): (s: string)
    ensures |s| > 0 && forall k | 0 <= k < |s| :: IsNumeral(s[k])
    decreases if n < 0 then 1 - n else n
  {
    if n < 0 then "-" + Dec(-n)
    else if n < 10 then [Digit(n)]
    else Dec(n / 10) + [Digit(n % 10)]
  }

  predicate IsNumeral(c: char) {
    c == '-' || '0' <= c <= '9'
  }
}
