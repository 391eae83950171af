/** Unsigned machine words as natural numbers, with C's bitwise operators defined
    on their binary digits.  Digit 0 is the least significant one. */
module Bits {

  type Byte = b: nat | b < 256

  function Pow2(k: nat): (p: nat)
    ensures p >= 1
  {
    if k == 0 then 1 else 2 * Pow2(k - 1)
  }

  /** `(w >> k) & 1`. */
  predicate Bit(w: nat, k: nat) {
    if k == 0 then w % 2 == 1 else Bit(w / 2, k - 1)
  }

  function And(a: nat, b: nat): (c: nat)
    ensures c <= a && c <= b
  {
    if a == 0 || b == 0 then 0 else (a % 2) * (b % 2) + 2 * And(a / 2, b / 2)
  }

  function Or(a: nat, b: nat): nat
  {
    if a == 0 then b else if b == 0 then a
    else (if a % 2 == 1 || b % 2 == 1 then 1 else 0) + 2 * Or(a / 2, b / 2)
  }

  /** `~b` on a word of `width` digits. */
  function Not(width: nat, b: nat): nat
    requires b < Pow2(width)
  {
    Pow2(width) - 1 - b
  }

  /** The position of the lowest set digit, as the count-trailing-zeros instruction gives it. */
  function Ctz(w: nat): (c: nat)
    requires w != 0
    ensures Bit(w, c)
  {
    if w % 2 == 1 then 0 else 1 + Ctz(w / 2)
  }

  function PopCount(w: nat): nat {
    if w == 0 then 0 else w % 2 + PopCount(w / 2)
  }

  lemma {:induction false} ZeroBit(k: nat)
    ensures !Bit(0, k)
  {
    if k != 0 { ZeroBit(k - 1); }
  }

  lemma {:induction false} AndBit(a: nat, b: nat, k: nat)
    ensures Bit(And(a, b), k) == (Bit(a, k) && Bit(b, k))
  {
    if a == 0 || b == 0 {
      ZeroBit(k);
    } else if k != 0 {
      assert And(a, b) / 2 == And(a / 2, b / 2);
      AndBit(a / 2, b / 2, k - 1);
    }
  }

  lemma {:induction false} OrBit(a: nat, b: nat, k: nat)
    ensures Bit(Or(a, b), k) == (Bit(a, k) || Bit(b, k))
  {
    if a == 0 || b == 0 {
      ZeroBit(k);
    } else if k != 0 {
      var c, d := Or(a, b), Or(a / 2, b / 2);
      assert c == (if a % 2 == 1 || b % 2 == 1 then 1 else 0) + 2 * d;
      assert c / 2 == d;
      OrBit(a / 2, b / 2, k - 1);
    }
  }

  lemma {:induction false} OrBound(a: nat, b: nat, width: nat)
    requires a < Pow2(width) && b < Pow2(width)
    ensures Or(a, b) < Pow2(width)
  {
    if a != 0 && b != 0 && width != 0 {
      OrBound(a / 2, b / 2, width - 1);
    }
  }

  lemma {:induction false} NotBit(width: nat, b: nat, k: nat)
    requires b < Pow2(width) && k < width
    ensures Bit(Not(width, b), k) == !Bit(b, k)
  {
    if k != 0 {
      assert Not(width, b) / 2 == Not(width - 1, b / 2);
      NotBit(width - 1, b / 2, k - 1);
    }
  }

  lemma {:induction false} Pow2Bit(j: nat, k: nat)
    ensures Bit(Pow2(j), k) == (k == j)
  {
    if j == 0 {
      if k != 0 { ZeroBit(k - 1); }
    } else if k != 0 {
      Pow2Bit(j - 1, k - 1);
    }
  }

  /** `(1 << j) - 1` keeps exactly the digits below j. */
  lemma {:induction false} LowMaskBit(j: nat, k: nat)
    ensures Bit(Pow2(j) - 1, k) == (k < j)
  {
    if j == 0 {
      ZeroBit(k);
    } else if k != 0 {
      assert (Pow2(j) - 1) / 2 == Pow2(j - 1) - 1;
      LowMaskBit(j - 1, k - 1);
    }
  }

  /** A value below 2^j has no digit at or above j. */
  lemma {:induction false} HighBit(w: nat, j: nat, k: nat)
    requires w < Pow2(j) && j <= k
    ensures !Bit(w, k)
  {
    if j == 0 {
      ZeroBit(k);
    } else {
      HighBit(w / 2, j - 1, k - 1);
    }
  }

  /** Concatenation of digits: what a little-endian multi-byte load does. */
  lemma {:induction false} ConcatBit(low: nat, j: nat, high: nat, k: nat)
    requires low < Pow2(j)
    ensures Bit(low + Pow2(j) * high, k) == if k < j then Bit(low, k) else Bit(high, k - j)
  {
    if j != 0 {
      var w := low + Pow2(j) * high;
      assert w == low + 2 * (Pow2(j - 1) * high);
      assert w % 2 == low % 2 && w / 2 == low / 2 + Pow2(j - 1) * high;
      if k != 0 { ConcatBit(low / 2, j - 1, high, k - 1); }
    }
  }

  lemma {:induction false} CtzLowest(w: nat, k: nat)
    requires w != 0 && k < Ctz(w)
    ensures !Bit(w, k)
  {
    if k != 0 { CtzLowest(w / 2, k - 1); }
  }

  lemma {:induction false} CtzBound(w: nat, j: nat)
    requires w != 0 && w < Pow2(j)
    ensures Ctz(w) < j
  {
    if w % 2 == 0 { CtzBound(w / 2, j - 1); }
  }

  /** `w & (w - 1)`. */
  function Clear(w: nat): nat
    requires w != 0
  {
    And(w, w - 1)
  }

  /** `w &= w - 1` clears the lowest set digit and nothing else. */
  lemma {:induction false} ClearLowest(w: nat, k: nat)
    requires w != 0
    ensures Bit(Clear(w), k) == (k != Ctz(w) && Bit(w, k))
    ensures Clear(w) < w
  {
    AndBit(w, w - 1, k);
    if w % 2 == 1 {
      if k != 0 { assert (w - 1) / 2 == w / 2; }
    } else {
      assert (w - 1) / 2 == w / 2 - 1 && (w - 1) % 2 == 1;
      if k != 0 {
        ClearLowest(w / 2, k - 1);
        AndBit(w / 2, w / 2 - 1, k - 1);
      }
    }
  }

  /** Two words of the same width with the same digits are equal. */
  lemma {:induction false} SameBits(a: nat, b: nat, width: nat)
    requires a < Pow2(width) && b < Pow2(width)
    requires forall k: nat :: k < width ==> Bit(a, k) == Bit(b, k)
    ensures a == b
  {
    if width != 0 {
      assert Bit(a, 0) == Bit(b, 0);
      forall k: nat | k < width - 1 ensures Bit(a / 2, k) == Bit(b / 2, k) {
        assert Bit(a, k + 1) == Bit(b, k + 1);
      }
      SameBits(a / 2, b / 2, width - 1);
    }
  }

  /** The low h digits of a number. */
  function Low(x: nat, h: nat): (low: nat)
    ensures low <= x
  {
    if h == 0 then 0 else x % 2 + 2 * Low(x / 2, h - 1)
  }

  /** A mask of leading ones drops the low digits. */
  lemma {:induction false} AndPrefix(x: nat, h: nat, width: nat)
    requires h <= width && x < Pow2(width)
    ensures Pow2(h) <= Pow2(width)
    ensures And(x, Pow2(width) - Pow2(h)) == x - Low(x, h)
    decreases width
  {
    if width != 0 {
      if h != 0 {
        AndPrefix(x / 2, h - 1, width - 1);
        AndStep(x, Pow2(width) - Pow2(h));
        assert (Pow2(width) - Pow2(h)) / 2 == Pow2(width - 1) - Pow2(h - 1) && (Pow2(width) - Pow2(h)) % 2 == 0;
      } else {
        AndPrefix(x / 2, 0, width - 1);
        AndStep(x, Pow2(width) - 1);
        assert (Pow2(width) - 1) / 2 == Pow2(width - 1) - 1 && (Pow2(width) - 1) % 2 == 1;
      }
    }
  }

  lemma AndStep(a: nat, b: nat)
    ensures And(a, b) == (if a % 2 == 1 && b % 2 == 1 then 1 else 0) + 2 * And(a / 2, b / 2)
  {
    if a % 2 == 0 {
      assert (a % 2) * (b % 2) == 0;
    } else {
      assert a % 2 == 1;
    }
  }
}
