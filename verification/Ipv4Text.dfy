/** Reading a dotted address: `parse_ipv4_fast`. */
module Ipv4Text {
  import opened Bits
  import opened Decimals
  import opened Optional

  const WIDE := 0x1_0000_0000

  /** What has been read: the finished parts, the number in progress, and whether it has a digit. */
  datatype Scan = Scan(parts: seq<nat>, value: nat, digit: bool)

  predicate IsDigit(ch: char) {
    '0' <= ch <= '9'
  }

  function DigitOf(ch: char): nat
    requires IsDigit(ch)
  {
    ch as int - '0' as int
  }

  /** One character; the number in progress wraps around at 32 bits. */
  function Next(st: Scan, ch: char): Option<Scan> {
    if IsDigit(ch) then Some(Scan(st.parts, (st.value * 10 + DigitOf(ch)) % WIDE, true))
    else if ch == '.' && |st.parts| < 3 then Some(Scan(st.parts + [st.value], 0, false))
    else None
  }

  function ScanAll(st: Scan, s: string): Option<Scan>
    decreases |s|
  {
    if s == [] then Some(st)
    else
      match Next(st, s[0])
      case None => None
      case Some(next) => ScanAll(next, s[1..])
  }

  function Shifted(part: nat, places: nat): nat {
    part * Pow2(places) % WIDE
  }

  /** The four numbers, each shifted to its place. */
  function Combined(a: nat, b: nat, c: nat, d: nat): nat {
    Or(Or(Or(Shifted(a, 24), Shifted(b, 16)), Shifted(c, 8)), d)
  }

  /** The address a text is read as, if it is read to its end. */
  function Read(s: string): Option<nat> {
    match ScanAll(Scan([], 0, false), s)
    case None => None
    case Some(st) =>
      if !st.digit || |st.parts| != 3 then None
      else Some(Combined(st.parts[0], st.parts[1], st.parts[2], st.value))
  }

  /** What the subnet tests compare: an unreadable text counts as 0.0.0.0. */
  function AddressOf(s: string): nat {
    match Read(s)
    case None => 0
    case Some(ip) => ip
  }

  method ParseFast(s: string) returns (ip: nat)
    ensures ip == AddressOf(s)
  {
    var parts: seq<nat> := [];
    var value: nat, digit := 0, false;
    var i := 0;
    while i < |s|
      invariant 0 <= i <= |s|
      invariant ScanAll(Scan(parts, value, digit), s[i..]) == ScanAll(Scan([], 0, false), s)
    {
      var ch := s[i];
      assert s[i..][0] == ch && s[i..][1..] == s[i + 1..];
      if IsDigit(ch) {
        value := (value * 10 + DigitOf(ch)) % WIDE;
        digit := true;
      } else if ch == '.' && |parts| < 3 {
        parts := parts + [value];
        value := 0;
        digit := false;
      } else {
        return 0;
      }
      i := i + 1;
    }
    assert s[i..] == [];
    if !digit || |parts| != 3 { return 0; }
    ip := Combined(parts[0], parts[1], parts[2], value);
  }

  // ---- Reading back a printed address ----------------------------------------------------------------------------

  function Dotted(a: nat, b: nat, c: nat, d: nat): string {
    Dec(a) + "." + Dec(b) + "." + Dec(c) + "." + Dec(d)
  }

  lemma {:induction false} ScanConcat(st: Scan, s: string, t: string)
    ensures ScanAll(st, s + t) == match ScanAll(st, s) case None => None case Some(mid) => ScanAll(mid, t)
    decreases |s|
  {
    if s == [] {
      assert s + t == t;
    } else {
      assert (s + t)[0] == s[0] && (s + t)[1..] == s[1..] + t;
      match Next(st, s[0]) {
        case None =>
        case Some(next) => ScanConcat(next, s[1..], t);
      }
    }
  }

  /** A printed number is read back, behind whatever parts. */
  lemma {:induction false} ScanDecimal(parts: seq<nat>, n: nat)
    requires n < WIDE
    ensures ScanAll(Scan(parts, 0, false), Dec(n)) == Some(Scan(parts, n, true))
  {
    var last := [Digit(n % 10)];
    assert last[1..] == [];
    assert DigitOf(last[0]) == n % 10;
    if n >= 10 {
      ScanDecimal(parts, n / 10);
      ScanConcat(Scan(parts, 0, false), Dec(n / 10), last);
      assert Next(Scan(parts, n / 10, true), last[0]) == Some(Scan(parts, n, true));
      assert ScanAll(Scan(parts, n, true), []) == Some(Scan(parts, n, true));
    }
  }

  lemma ScanPart(parts: seq<nat>, n: nat, rest: string)
    requires n < WIDE && |parts| < 3
    ensures ScanAll(Scan(parts, 0, false), Dec(n) + "." + rest) == ScanAll(Scan(parts + [n], 0, false), rest)
  {
    ScanDecimal(parts, n);
    assert Dec(n) + "." + rest == Dec(n) + ("." + rest);
    ScanConcat(Scan(parts, 0, false), Dec(n), "." + rest);
    assert ("." + rest)[0] == '.' && ("." + rest)[1..] == rest;
  }

  /** Digits in different places add up. */
  lemma {:induction false} OrApart(x: nat, y: nat, h: nat)
    requires y < Pow2(h)
    ensures Or(x * Pow2(h), y) == x * Pow2(h) + y
  {
    if h == 0 {
      OrZero(x);
    } else {
      assert x * Pow2(h) == 2 * (x * Pow2(h - 1));
      OrApart(x, y / 2, h - 1);
    }
  }

  lemma {:induction false} OrZero(x: nat)
    ensures Or(x, 0) == x
  {
    if x != 0 { OrZero(x / 2); }
  }

  lemma OctetPowers()
    ensures Pow2(8) == 0x100 && Pow2(16) == 0x1_0000 && Pow2(24) == 0x100_0000
  {
    assert Pow2(4) == 16;
    assert Pow2(8) == 256;
    assert Pow2(12) == 0x1000;
    assert Pow2(16) == 0x1_0000;
    assert Pow2(20) == 0x10_0000;
  }

  /** Four numbers below 256 and the address they write. */
  lemma CombinedOctets(a: nat, b: nat, c: nat, d: nat)
    requires a < 256 && b < 256 && c < 256 && d < 256
    ensures Combined(a, b, c, d) == a * 0x100_0000 + b * 0x1_0000 + c * 0x100 + d < WIDE
  {
    hide Or, Pow2;
    OctetPowers();
    OrApart(a, b * 0x1_0000, 24);
    assert (a * 0x100 + b) * 0x1_0000 == a * 0x100_0000 + b * 0x1_0000;
    OrApart(a * 0x100 + b, c * 0x100, 16);
    assert (a * 0x1_0000 + b * 0x100 + c) * 0x100 == a * 0x100_0000 + b * 0x1_0000 + c * 0x100;
    OrApart(a * 0x1_0000 + b * 0x100 + c, d, 8);
  }

  /** Every printed address is read back. */
  lemma ReadDotted(a: nat, b: nat, c: nat, d: nat)
    requires a < 256 && b < 256 && c < 256 && d < 256
    ensures Read(Dotted(a, b, c, d)) == Some(a * 0x100_0000 + b * 0x1_0000 + c * 0x100 + d)
  {
    hide Combined, ScanAll, Dec;
    assert Dotted(a, b, c, d) == Dec(a) + "." + (Dec(b) + "." + (Dec(c) + "." + Dec(d)));
    ScanPart([], a, Dec(b) + "." + (Dec(c) + "." + Dec(d)));
    ScanPart([a], b, Dec(c) + "." + Dec(d));
    ScanPart([a, b], c, Dec(d));
    ScanDecimal([a, b, c], d);
    CombinedOctets(a, b, c, d);
    assert [] + [a] == [a] && [a] + [b] == [a, b] && [a, b] + [c] == [a, b, c];
  }

  /** A text that is not read passes the mask test of exactly the blocks that start at 0.0.0.0. */
  lemma UnreadableMatchesIff(s: string, network: nat, mask: nat)
    requires Read(s) == None
    ensures And(AddressOf(s), mask) == network <==> network == 0
  {
  }

  // ---- What is read, written out ---------------------------------------------------------------------------------------

  predicate Digits(s: string) {
    forall k | 0 <= k < |s| :: '0' <= s[k] <= '9'
  }

  /** The number a string of digits writes; the empty string writes 0. */
  function Decimal(s: string): nat {
    if s == "" || !('0' <= s[|s| - 1] <= '9') then 0 else 10 * Decimal(s[..|s| - 1]) + (s[|s| - 1] as int - '0' as int)
  }

  function Dots(s: string): nat {
    if s == "" then 0 else Dots(s[1..]) + if s[0] == '.' then 1 else 0
  }

  lemma {:induction false} ScanEnds(st: Scan, s: string)
    requires |st.parts| <= 3
    ensures ScanAll(st, s).Some? <==> (forall k | 0 <= k < |s| :: '0' <= s[k] <= '9' || s[k] == '.') && |st.parts| + Dots(s) <= 3
    ensures ScanAll(st, s).Some? ==>
              && |ScanAll(st, s).value.parts| == |st.parts| + Dots(s)
              && ScanAll(st, s).value.digit == (if s == "" then st.digit else s[|s| - 1] != '.')
    decreases |s|
  {
    if s != "" {
      var next := Next(st, s[0]);
      if next.Some? {
        ScanEnds(next.value, s[1..]);
        assert forall k | 1 <= k < |s| :: s[k] == s[1..][k - 1];
      }
    }
  }

  /** A text is read if it is made of digits and exactly three dots and does not end with a dot; a number may be missing
      in front of a dot. */
  lemma ReadableIff(s: string)
    ensures Read(s).Some? <==>
            (forall k | 0 <= k < |s| :: '0' <= s[k] <= '9' || s[k] == '.') && Dots(s) == 3 && s != "" && s[|s| - 1] != '.'
    ensures Read(s) == None ==> AddressOf(s) == 0
  {
    ScanEnds(Scan([], 0, false), s);
  }

  lemma {:induction false} WrapStep(x: nat, digit: nat)
    ensures (x % 0x1_0000_0000 * 10 + digit) % 0x1_0000_0000 == (10 * x + digit) % 0x1_0000_0000
  {
    var q, r := x / 0x1_0000_0000, x % 0x1_0000_0000;
    assert 10 * x + digit == 0x1_0000_0000 * (10 * q) + (r * 10 + digit);
    Turns(10 * q, r * 10 + digit);
  }

  lemma Turns(q: nat, y: nat)
    ensures (0x1_0000_0000 * q + y) % 0x1_0000_0000 == y % 0x1_0000_0000
  {
    var d := 0x1_0000_0000;
    assert d * q + y == d * (q + y / d) + y % d;
  }

  lemma {:induction false} ScanDigits(parts: seq<nat>, s: string)
    requires Digits(s)
    ensures ScanAll(Scan(parts, 0, false), s) == Some(Scan(parts, Decimal(s) % 0x1_0000_0000, s != ""))
    decreases |s|
  {
    if s != "" {
      var front, last := s[..|s| - 1], [s[|s| - 1]];
      ScanDigits(parts, front);
      assert s == front + last && last[1..] == [];
      ScanConcat(Scan(parts, 0, false), front, last);
      WrapStep(Decimal(front), DigitOf(last[0]));
      var st := Scan(parts, Decimal(front) % 0x1_0000_0000, front != "");
      assert ScanAll(st, last) == ScanAll(Next(st, last[0]).value, []);
    }
  }

  lemma ScanNumber(parts: seq<nat>, s: string, rest: string)
    requires Digits(s) && |parts| < 3
    ensures ScanAll(Scan(parts, 0, false), s + ("." + rest)) == ScanAll(Scan(parts + [Decimal(s) % 0x1_0000_0000], 0, false), rest)
  {
    ScanDigits(parts, s);
    ScanConcat(Scan(parts, 0, false), s, "." + rest);
    assert ("." + rest)[0] == '.' && ("." + rest)[1..] == rest;
  }

  /** What a readable text is read as: each number wraps around at 32 bits, is moved 24, 16, 8 and no places up, and cut
      off at 32 bits again; the four are or-ed. */
  lemma AddressSays(a: string, b: string, c: string, d: string)
    requires Digits(a) && Digits(b) && Digits(c) && Digits(d) && d != ""
    ensures var p, q, r, t := Decimal(a) % 0x1_0000_0000, Decimal(b) % 0x1_0000_0000, Decimal(c) % 0x1_0000_0000, Decimal(d) % 0x1_0000_0000;
            AddressOf(a + ("." + (b + ("." + (c + ("." + d))))))
            == Or(Or(Or(p * 0x100_0000 % 0x1_0000_0000, q * 0x1_0000 % 0x1_0000_0000), r * 0x100 % 0x1_0000_0000), t)
  {
    hide ScanAll, Decimal, Or, Pow2;
    var p, q, r := Decimal(a) % 0x1_0000_0000, Decimal(b) % 0x1_0000_0000, Decimal(c) % 0x1_0000_0000;
    OctetPowers();
    ScanNumber([], a, b + ("." + (c + ("." + d))));
    ScanNumber([p], b, c + ("." + d));
    ScanNumber([p, q], c, d);
    ScanDigits([p, q, r], d);
    assert [] + [p] == [p] && [p] + [q] == [p, q] && [p, q] + [r] == [p, q, r];
  }
}
