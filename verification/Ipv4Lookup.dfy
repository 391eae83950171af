/** IPv4 lookup sets: CIDR blocks as address ranges, their normal form, and the search in it. */
module Ipv4Lookup {
  import opened Bits

  const TOP := 0x1_0000_0000
  const MAX := 0xffff_ffff

  type Address = a: nat | a < TOP

  // ---- CIDR blocks ---------------------------------------------------------------------------------------

  /** A network and its mask, as `parse_cidr` gives them. */
  datatype Block = Block(network: Address, mask: Address) {
    /** The test of a subnet predicate. */
    predicate Matches(ip: Address) {
      And(ip, mask) == network
    }

    /** `add_cidr_range`: network to network | ~mask. */
    function ToRange(): Range
      requires Parsed(this)
    {
      AllOnes();
      OrBound(network, Not(32, mask), 32);
      Range(network, Or(network, Not(32, mask)))
    }
  }

  lemma AllOnes()
    ensures Pow2(32) == TOP
  {
    assert Pow2(8) == 256 && Pow2(16) == 65536 by { assert Pow2(4) == 16; assert Pow2(8) == 256; assert Pow2(12) == 4096; }
    assert Pow2(20) == 1048576 && Pow2(24) == 16777216 && Pow2(28) == 268435456;
  }

  /** The number of host digits of a prefix clamped to 0, ..., 32. */
  function HostDigits(prefix: int): (h: nat)
    ensures h <= 32
  {
    32 - (if prefix < 0 then 0 else if prefix > 32 then 32 else prefix)
  }

  /** `parse_cidr` after reading the text: the shift is skipped for prefix 0, where it would be undefined. */
  function ParseCidr(raw: Address, prefix: int): (b: Block)
    ensures Parsed(b)
  {
    var h := HostDigits(prefix);
    AllOnes();
    AndPrefix(raw, h, 32);
    LowOfHigh(raw, h);
    var mask := if h == 32 then 0 else TOP - Pow2(h);
    var b := Block(And(raw, mask), mask);
    assert IsPrefix(b, h);
    b
  }

  ghost predicate IsPrefix(b: Block, h: nat) {
    h <= 32 && b.mask == TOP - Pow2(h) && Low(b.network, h) == 0
  }

  /** A block that `parse_cidr` can produce. */
  ghost predicate Parsed(b: Block) {
    exists h: nat :: IsPrefix(b, h)
  }

  lemma {:induction false} LowOfHigh(x: nat, h: nat)
    ensures Low(x - Low(x, h), h) == 0
  {
    if h != 0 {
      LowOfHigh(x / 2, h - 1);
      assert (x - Low(x, h)) % 2 == 0 && (x - Low(x, h)) / 2 == x / 2 - Low(x / 2, h - 1);
    }
  }

  /** Setting the low digits of an aligned network. */
  lemma {:induction false} OrSuffix(network: nat, h: nat)
    requires Low(network, h) == 0
    ensures Or(network, Pow2(h) - 1) == network + Pow2(h) - 1
  {
    if h != 0 {
      OrSuffix(network / 2, h - 1);
      assert (Pow2(h) - 1) / 2 == Pow2(h - 1) - 1 && (Pow2(h) - 1) % 2 == 1;
    }
  }

  lemma {:induction false} SameBlock(network: nat, ip: nat, h: nat)
    requires Low(network, h) == 0
    ensures network <= ip <= network + Pow2(h) - 1 <==> ip - Low(ip, h) == network
  {
    if h != 0 { SameBlock(network / 2, ip / 2, h - 1); }
  }

  /** The range of a block holds exactly the addresses that pass its mask test. */
  lemma BlockIsRange(b: Block, ip: Address)
    requires Parsed(b)
    ensures b.ToRange().Holds(ip) <==> b.Matches(ip)
  {
    var h: nat :| IsPrefix(b, h);
    AllOnes();
    AndPrefix(ip, h, 32);
    OrSuffix(b.network, h);
    SameBlock(b.network, ip, h);
  }

  /** With their last h digits cut off, two numbers are equal exactly when their rests are. */
  lemma {:induction false} SameHigh(x: nat, y: nat, h: nat)
    ensures x - Low(x, h) == y - Low(y, h) <==> x / Pow2(h) == y / Pow2(h)
  {
    if h != 0 {
      SameHigh(x / 2, y / 2, h - 1);
      Halved(x, Pow2(h - 1));
      Halved(y, Pow2(h - 1));
    }
  }

  lemma Halved(x: nat, d: nat)
    requires d > 0
    ensures x / (2 * d) == x / 2 / d
  {
    var q := x / 2 / d;
    assert x / 2 == d * q + x / 2 % d;
    assert x == 2 * (x / 2) + x % 2;
    assert x == (2 * d) * q + (2 * (x / 2 % d) + x % 2);
    Quotient(x, 2 * d, q, 2 * (x / 2 % d) + x % 2);
  }

  lemma Quotient(x: nat, d: nat, q: nat, r: nat)
    requires x == d * q + r && r < d
    ensures x / d == q
  {
    var p := x / d;
    assert x == d * p + x % d;
    if p < q { Multiples(d, p, q); }
    if q < p { Multiples(d, q, p); }
  }

  lemma {:induction false} Multiples(d: nat, a: nat, b: nat)
    requires a < b
    ensures d * a + d <= d * b
    decreases b - a
  {
    assert d * b == d * (b - 1) + d;
    if a < b - 1 { Multiples(d, a, b - 1); }
  }

  /** A block of n prefix digits holds the addresses that agree with the written one in their first n digits; a prefix
      below 0 counts as 0 and one above 32 as 32. */
  lemma CidrSays(raw: Address, prefix: int, ip: Address)
    ensures 0 <= prefix <= 32 ==> (ParseCidr(raw, prefix).Matches(ip) <==> ip / Pow2(32 - prefix) == raw / Pow2(32 - prefix))
    ensures prefix < 0 ==> ParseCidr(raw, prefix).Matches(ip)
    ensures prefix > 32 ==> (ParseCidr(raw, prefix).Matches(ip) <==> ip == raw)
  {
    var h: nat := if prefix < 0 then 32 else if prefix > 32 then 0 else 32 - prefix;
    AllOnes();
    AndPrefix(raw, h, 32);
    AndPrefix(ip, h, 32);
    SameHigh(ip, raw, h);
    HighZero(ip, 32);
    HighZero(raw, 32);
    hide And, Low, Pow2;
    ParsedMask(raw, prefix, h);
    AllPass(ip);
    AllPass(raw);
  }

  lemma AllPass(x: nat)
    ensures And(x, 0) == 0 && Pow2(0) == 1
  {
  }

  lemma HighZero(x: nat, h: nat)
    requires x < Pow2(h)
    ensures x / Pow2(h) == 0
  {
    Quotient(x, Pow2(h), 0, x);
  }

  lemma ParsedMask(raw: Address, prefix: int, h: nat)
    requires h == if prefix < 0 then 32 else if prefix > 32 then 0 else 32 - prefix
    ensures Pow2(32) == TOP
    ensures ParseCidr(raw, prefix).mask == (if h == 32 then 0 else TOP - Pow2(h))
    ensures ParseCidr(raw, prefix).network == And(raw, ParseCidr(raw, prefix).mask)
  {
    AllOnes();
  }

  // ---- Ranges ------------------------------------------------------------------------------------------------

  datatype Range = Range(start: Address, end: Address) {
    predicate Holds(ip: nat) {
      start <= ip <= end
    }
  }

  predicate Before(a: Range, b: Range) {
    a.start < b.start || (a.start == b.start && a.end < b.end)
  }

  ghost predicate Ordered(rs: seq<Range>) {
    forall k, l | 0 <= k < l < |rs| :: !Before(rs[l], rs[k])
  }

  ghost predicate Proper(rs: seq<Range>) {
    forall k | 0 <= k < |rs| :: rs[k].start <= rs[k].end
  }

  /** Some range of the list holds the address. */
  ghost predicate Covered(rs: seq<Range>, ip: nat) {
    exists k :: 0 <= k < |rs| && rs[k].Holds(ip)
  }

  function Insert(r: Range, rs: seq<Range>): (out: seq<Range>)
    ensures |out| == |rs| + 1
  {
    if rs == [] || Before(r, rs[0]) then [r] + rs else [rs[0]] + Insert(r, rs[1..])
  }

  /** The ranges in ascending order. */
  function Sort(rs: seq<Range>): (out: seq<Range>)
    ensures |out| == |rs|
  {
    if rs == [] then [] else Insert(rs[0], Sort(rs[1..]))
  }

  lemma {:induction false} InsertAdds(r: Range, rs: seq<Range>)
    ensures multiset(Insert(r, rs)) == multiset([r]) + multiset(rs)
  {
    if rs != [] && !Before(r, rs[0]) {
      InsertAdds(r, rs[1..]);
      assert rs == [rs[0]] + rs[1..];
    }
  }

  lemma {:induction false} InsertOrdered(r: Range, rs: seq<Range>)
    requires Ordered(rs)
    ensures Ordered(Insert(r, rs))
  {
    if rs != [] && !Before(r, rs[0]) {
      var rest := Insert(r, rs[1..]);
      InsertOrdered(r, rs[1..]);
      InsertAdds(r, rs[1..]);
      forall k | 0 <= k < |rest| ensures !Before(rest[k], rs[0]) {
        assert rest[k] in multiset(rest);
        assert rest[k] == r || rest[k] in rs[1..];
      }
    }
  }

  lemma {:induction false} SortSorts(rs: seq<Range>)
    ensures Ordered(Sort(rs)) && multiset(Sort(rs)) == multiset(rs)
  {
    if rs != [] {
      SortSorts(rs[1..]);
      InsertOrdered(rs[0], Sort(rs[1..]));
      InsertAdds(rs[0], Sort(rs[1..]));
      assert rs == [rs[0]] + rs[1..];
    }
  }

  lemma SortHolds(rs: seq<Range>, r: Range)
    ensures r in Sort(rs) <==> r in rs
  {
    SortSorts(rs);
    assert r in multiset(Sort(rs)) <==> r in multiset(rs);
  }

  lemma SortProper(rs: seq<Range>)
    requires Proper(rs)
    ensures Proper(Sort(rs))
  {
    forall k | 0 <= k < |Sort(rs)| ensures Sort(rs)[k].start <= Sort(rs)[k].end { SortHolds(rs, Sort(rs)[k]); }
  }

  lemma SortCovers(rs: seq<Range>, ip: nat)
    ensures Covered(Sort(rs), ip) <==> Covered(rs, ip)
  {
    hide Sort;
    if k :| 0 <= k < |rs| && rs[k].Holds(ip) { SortHolds(rs, rs[k]); }
    if k :| 0 <= k < |Sort(rs)| && Sort(rs)[k].Holds(ip) { SortHolds(rs, Sort(rs)[k]); }
  }

  // ---- Merging ------------------------------------------------------------------------------------------------

  /** One pass of the loop in `normalize_ranges`; end + 1 wraps around at the last address. */
  function Push(merged: seq<Range>, r: Range): (out: seq<Range>)
  {
    var last := |merged| - 1;
    if merged == [] || r.start > (merged[last].end + 1) % TOP then merged + [r]
    else merged[last := Range(merged[last].start, if merged[last].end < r.end then r.end else merged[last].end)]
  }

  function Merge(merged: seq<Range>, rs: seq<Range>): seq<Range>
    decreases |rs|
  {
    if rs == [] then merged else Merge(Push(merged, rs[0]), rs[1..])
  }

  /** `normalize_ranges`. */
  method NormalizeRanges(ranges: seq<Range>) returns (merged: seq<Range>)
    ensures merged == Merge([], Sort(ranges))
  {
    var sorted := Sort(ranges);
    merged := [];
    var i := 0;
    while i < |sorted|
      invariant 0 <= i <= |sorted|
      invariant Merge(merged, sorted[i..]) == Merge([], sorted)
    {
      var r, last := sorted[i], |merged| - 1;
      assert sorted[i..][1..] == sorted[i + 1..];
      if merged == [] || r.start > (merged[last].end + 1) % TOP {
        merged := merged + [r];
      } else {
        merged := merged[last := Range(merged[last].start, if merged[last].end < r.end then r.end else merged[last].end)];
      }
      i := i + 1;
    }
  }

  /** Ascending starts; a range that stops short of the last address is followed by a gap. */
  ghost predicate Gapped(rs: seq<Range>) {
    forall k, l | 0 <= k < l < |rs| :: rs[k].start <= rs[l].start && (rs[k].end == MAX || rs[k].end + 1 < rs[l].start)
  }

  lemma PushGapped(merged: seq<Range>, r: Range)
    requires Gapped(merged) && Proper(merged) && r.start <= r.end
    requires forall k | 0 <= k < |merged| :: merged[k].start <= r.start
    ensures Gapped(Push(merged, r)) && Proper(Push(merged, r))
    ensures forall k | 0 <= k < |Push(merged, r)| :: Push(merged, r)[k].start <= r.start
  {
    var out, last := Push(merged, r), |merged| - 1;
    if |out| > |merged| {
      forall k | 0 <= k < |merged| ensures merged[k].end == MAX || merged[k].end + 1 < r.start {
        if k < last { assert merged[k].end == MAX || merged[k].end + 1 < merged[last].start; }
      }
    }
  }

  lemma PushCovers(merged: seq<Range>, r: Range, ip: nat)
    requires r.start <= r.end && merged != [] ==> merged[|merged| - 1].start <= r.start
    requires Proper(merged) && r.start <= r.end
    ensures Covered(Push(merged, r), ip) <==> Covered(merged, ip) || r.Holds(ip)
  {
    var out, last := Push(merged, r), |merged| - 1;
    if |out| > |merged| {
      assert out[|merged|] == r;
    } else {
      assert out[last].Holds(ip) <==> merged[last].Holds(ip) || r.Holds(ip);
    }
    if k :| 0 <= k < |merged| && merged[k].Holds(ip) { assert out[k].Holds(ip); }
    if k :| 0 <= k < |out| && out[k].Holds(ip) { assert k < |merged| && out[k] == merged[k] ==> merged[k].Holds(ip); }
  }

  /** The merged list covers the same addresses. */
  lemma {:induction false} MergeKeeps(merged: seq<Range>, rs: seq<Range>, ip: nat)
    requires Gapped(merged) && Proper(merged) && Ordered(rs) && Proper(rs)
    requires forall k, l | 0 <= k < |merged| && 0 <= l < |rs| :: merged[k].start <= rs[l].start
    ensures var out := Merge(merged, rs);
            Gapped(out) && Proper(out) && (Covered(out, ip) <==> Covered(merged, ip) || Covered(rs, ip))
    decreases |rs|
  {
    if rs != [] {
      var r, rest := rs[0], rs[1..];
      PushGapped(merged, r);
      PushCovers(merged, r, ip);
      CoveredCons(rs, ip);
      var out := Push(merged, r);
      hide Push, Covered;
      forall k, l | 0 <= k < |out| && 0 <= l < |rest| ensures out[k].start <= rest[l].start {
        assert !Before(rs[l + 1], rs[0]);
      }
      MergeKeeps(out, rest, ip);
    }
  }

  lemma CoveredCons(rs: seq<Range>, ip: nat)
    requires rs != []
    ensures Covered(rs, ip) <==> rs[0].Holds(ip) || Covered(rs[1..], ip)
  {
    if k :| 0 <= k < |rs| && rs[k].Holds(ip) { assert k > 0 ==> rs[1..][k - 1].Holds(ip); }
  }

  // ---- The search ------------------------------------------------------------------------------------------------

  /** How many ranges start at or before the address. */
  function Started(rs: seq<Range>, ip: nat): (k: nat)
    ensures k <= |rs|
  {
    if rs == [] then 0 else Started(rs[..|rs| - 1], ip) + if rs[|rs| - 1].start <= ip then 1 else 0
  }

  lemma {:induction false} StartedIs(rs: seq<Range>, ip: nat, k: nat)
    requires k <= |rs|
    requires forall j | 0 <= j < |rs| :: rs[j].start <= ip <==> j < k
    ensures Started(rs, ip) == k
  {
    if rs != [] {
      var last := |rs| - 1;
      StartedIs(rs[..last], ip, if k > last then last else k);
    }
  }

  /** The last range that starts at or before the address holds it. */
  predicate Found(rs: seq<Range>, ip: nat) {
    var k := Started(rs, ip);
    k > 0 && rs[k - 1].Holds(ip)
  }

  /** `ipv4_ranges_contain`: `upper_bound` on the starts, then one look back. */
  method RangesContain(rs: seq<Range>, ip: Address) returns (found: bool)
    requires forall k, l | 0 <= k < l < |rs| :: rs[k].start <= rs[l].start
    ensures found == Found(rs, ip)
  {
    var lo, hi := 0, |rs|;
    while lo < hi
      invariant 0 <= lo <= hi <= |rs|
      invariant forall j | 0 <= j < lo :: rs[j].start <= ip
      invariant forall j | hi <= j < |rs| :: ip < rs[j].start
    {
      var mid := (lo + hi) / 2;
      if ip < rs[mid].start {
        hi := mid;
      } else {
        lo := mid + 1;
      }
    }
    StartedIs(rs, ip, lo);
    if lo == 0 { return false; }
    return ip >= rs[lo - 1].start && ip <= rs[lo - 1].end;
  }

  /** Behind a range that reaches the last address, every range reaches it. */
  ghost predicate LastOnly(rs: seq<Range>) {
    forall k, l | 0 <= k < l < |rs| :: rs[k].end == MAX ==> rs[l].end == MAX
  }

  lemma {:induction false} StartedSplits(rs: seq<Range>, ip: nat)
    requires Gapped(rs)
    ensures forall j | 0 <= j < |rs| :: rs[j].start <= ip <==> j < Started(rs, ip)
  {
    if rs != [] {
      StartedSplits(rs[..|rs| - 1], ip);
    }
  }

  lemma FoundCovered(rs: seq<Range>, ip: Address)
    requires Gapped(rs) && LastOnly(rs)
    ensures Found(rs, ip) <==> Covered(rs, ip)
  {
    StartedSplits(rs, ip);
    if j :| 0 <= j < |rs| && rs[j].Holds(ip) {
      var k := Started(rs, ip) - 1;
      assert rs[j].start <= ip && j <= k;
      if j < k { assert rs[k].start <= ip; }
    }
  }

  /** The address just behind a range that an earlier one swallows is missed. */
  lemma Missed(rs: seq<Range>, k: nat, l: nat)
    requires Gapped(rs) && Proper(rs) && k < l < |rs| && rs[k].end == MAX && rs[l].end != MAX
    ensures var ip := rs[l].end + 1; Covered(rs, ip) && !Found(rs, ip)
  {
    var ip := rs[l].end + 1;
    assert rs[k].Holds(ip);
    forall j | 0 <= j < |rs| ensures rs[j].start <= ip <==> j < l + 1 {
      if j < l { assert rs[j].start <= rs[l].start; }
      if j > l { assert rs[l].end + 1 < rs[j].start; }
    }
    StartedIs(rs, ip, l + 1);
  }

  // ---- Which lists of ranges are merged well -------------------------------------------------------------------------

  /** Together the ranges cover every address from their least one on. */
  ghost predicate Upward(rs: seq<Range>) {
    rs == [] || forall ip: Address | rs[0].start <= ip :: Covered(rs, ip)
  }

  /** Behind each range that reaches the last address, the rest covers everything from its least start on. */
  ghost predicate TopClosed(rs: seq<Range>) {
    forall i | 0 <= i < |rs| && rs[i].end == MAX :: Upward(rs[i + 1..])
  }

  lemma TopClosedCons(rs: seq<Range>)
    requires rs != []
    ensures TopClosed(rs) <==> (rs[0].end == MAX ==> Upward(rs[1..])) && TopClosed(rs[1..])
  {
    hide Upward;
    var rest := rs[1..];
    assert forall i | 1 <= i < |rs| :: rs[i] == rest[i - 1] && rs[i + 1..] == rest[i..];
    if TopClosed(rs) {
      forall i | 0 <= i < |rest| && rest[i].end == MAX ensures Upward(rest[i + 1..]) { assert rs[i + 1].end == MAX; }
    }
  }

  /** Merging only looks at the last range. */
  lemma {:induction false} MergeFirst(x: Range, merged: seq<Range>, rs: seq<Range>)
    requires merged != []
    ensures Merge([x] + merged, rs) == [x] + Merge(merged, rs)
    decreases |rs|
  {
    if rs != [] {
      assert Push([x] + merged, rs[0]) == [x] + Push(merged, rs[0]);
      MergeFirst(x, Push(merged, rs[0]), rs[1..]);
    }
  }

  lemma MergeOne(x: Range, rest: seq<Range>)
    requires rest != []
    ensures rest[0].start > (x.end + 1) % TOP ==> Merge([x], rest) == [x] + Merge([rest[0]], rest[1..])
    ensures rest[0].start <= (x.end + 1) % TOP ==>
              Merge([x], rest) == Merge([Range(x.start, if x.end < rest[0].end then rest[0].end else x.end)], rest[1..])
  {
    if rest[0].start > (x.end + 1) % TOP {
      assert Push([x], rest[0]) == [x] + [rest[0]];
      MergeFirst(x, [rest[0]], rest[1..]);
    } else {
      assert Push([x], rest[0]) == [Range(x.start, if x.end < rest[0].end then rest[0].end else x.end)];
    }
  }

  lemma {:induction false} MergeStarts(x: Range, rest: seq<Range>)
    ensures Merge([x], rest) != [] && Merge([x], rest)[0].start == x.start
    decreases |rest|
  {
    if rest != [] {
      MergeOne(x, rest);
      if rest[0].start <= (x.end + 1) % TOP {
        MergeStarts(Range(x.start, if x.end < rest[0].end then rest[0].end else x.end), rest[1..]);
      }
    }
  }

  /** The first merged range reaches the last address exactly when the ranges cover everything from their start on. */
  lemma UpwardIff(rs: seq<Range>)
    requires rs != [] && Ordered(rs) && Proper(rs)
    ensures Merge([], rs) != [] && (Merge([], rs)[0].end == MAX <==> Upward(rs))
  {
    hide Merge, Ordered;
    var out := Merge([], rs);
    assert out == Merge([rs[0]], rs[1..]) by { MergeEmpty(rs); }
    MergeStarts(rs[0], rs[1..]);
    MergeKeeps([], rs, 0);
    if out[0].end == MAX {
      forall ip: Address | rs[0].start <= ip ensures Covered(rs, ip) {
        MergeKeeps([], rs, ip);
        assert out[0].Holds(ip);
      }
    } else {
      var ip: Address := out[0].end + 1;
      MergeKeeps([], rs, ip);
      forall k | 0 <= k < |out| ensures !out[k].Holds(ip) {
        assert k > 0 ==> out[0].end + 1 < out[k].start;
      }
      assert rs[0].start <= ip && !Covered(rs, ip);
    }
  }

  lemma MergeEmpty(rs: seq<Range>)
    requires rs != []
    ensures Merge([], rs) == Merge([rs[0]], rs[1..])
  {
    assert Push([], rs[0]) == [rs[0]];
  }

  lemma LastOnlyCons(x: Range, out: seq<Range>)
    requires out != []
    ensures LastOnly([x] + out) <==> (x.end == MAX ==> out[0].end == MAX) && LastOnly(out)
  {
    var all := [x] + out;
    assert forall k | 0 <= k < |out| :: all[k + 1] == out[k];
    if LastOnly(all) {
      forall k, l | 0 <= k < l < |out| && out[k].end == MAX ensures out[l].end == MAX {
        assert all[k + 1].end == MAX && all[l + 1] == out[l];
      }
      if x.end == MAX { assert all[0].end == MAX && all[1] == out[0]; }
    }
    if (x.end == MAX ==> out[0].end == MAX) && LastOnly(out) {
      forall k, l | 0 <= k < l < |all| && all[k].end == MAX ensures all[l].end == MAX {
        assert all[l] == out[l - 1];
        if k > 0 { assert all[k] == out[k - 1]; } else if l > 1 { assert out[0].end == MAX; }
      }
    }
  }

  lemma {:induction false} TopClosedIff(x: Range, rest: seq<Range>)
    requires Ordered([x] + rest) && Proper([x] + rest)
    ensures LastOnly(Merge([x], rest)) <==> TopClosed([x] + rest)
    decreases |rest|
  {
    TopClosedCons([x] + rest);
    assert ([x] + rest)[1..] == rest;
    if rest == [] {
      assert LastOnly([x]);
    } else {
      hide Merge, Upward, LastOnly, TopClosed, Ordered;
      var r, more := rest[0], rest[1..];
      assert rest == [r] + more;
      OrderedTail(x, rest);
      MergeOne(x, rest);
      if r.start > (x.end + 1) % TOP {
        MergeStarts(r, more);
        LastOnlyCons(x, Merge([r], more));
        MergeEmpty(rest);
        UpwardIff(rest);
        TopClosedIff(r, more);
      } else {
        var joined := Range(x.start, if x.end < r.end then r.end else x.end);
        JoinedTail(x, r, more);
        TopClosedIff(joined, more);
        TopClosedCons([joined] + more);
        assert ([joined] + more)[1..] == more;
        TopClosedCons(rest);
        if x.end == MAX { WholeSpace(x, rest); }
      }
    }
  }

  lemma OrderedTail(x: Range, rest: seq<Range>)
    requires Ordered([x] + rest) && Proper([x] + rest)
    ensures Ordered(rest) && Proper(rest)
  {
    var all := [x] + rest;
    forall k, l | 0 <= k < l < |rest| ensures !Before(rest[l], rest[k]) { assert !Before(all[l + 1], all[k + 1]); }
    forall k | 0 <= k < |rest| ensures rest[k].start <= rest[k].end { assert all[k + 1].start <= all[k + 1].end; }
  }

  lemma JoinedTail(x: Range, r: Range, more: seq<Range>)
    requires Ordered([x] + ([r] + more)) && Proper([x] + ([r] + more))
    ensures var joined := Range(x.start, if x.end < r.end then r.end else x.end);
            Ordered([joined] + more) && Proper([joined] + more)
  {
    var all, joined := [x] + ([r] + more), Range(x.start, if x.end < r.end then r.end else x.end);
    var out := [joined] + more;
    assert all[0] == x && all[1] == r && forall k | 0 <= k < |more| :: all[k + 2] == more[k];
    forall k, l | 0 <= k < l < |out| ensures !Before(out[l], out[k]) {
      assert !Before(all[l + 1], all[k + 1]) && !Before(all[l + 1], all[0]) && !Before(all[1], all[0]) && !Before(all[l + 1], all[1]);
    }
    forall k | 0 <= k < |out| ensures out[k].start <= out[k].end { assert k > 0 ==> all[k + 1].start <= all[k + 1].end; }
  }

  /** Joined although x reaches the last address: both are the whole address space. */
  lemma WholeSpace(x: Range, rest: seq<Range>)
    requires Ordered([x] + rest) && rest != [] && x.end == MAX && rest[0].start <= (x.end + 1) % TOP
    ensures rest[0] == x && Upward(rest)
  {
    var all := [x] + rest;
    assert !Before(all[1], all[0]);
    forall ip: Address | rest[0].start <= ip ensures Covered(rest, ip) { assert rest[0].Holds(ip); }
  }

  // ---- The whole lookup --------------------------------------------------------------------------------------------

  function Ranges(blocks: seq<Block>): (rs: seq<Range>)
    requires forall b | b in blocks :: Parsed(b)
    ensures |rs| == |blocks| && forall k | 0 <= k < |rs| :: rs[k] == blocks[k].ToRange()
  {
    seq(|blocks|, k requires 0 <= k < |blocks| => blocks[k].ToRange())
  }

  /** The ranges a lookup set keeps for its blocks. */
  function LookupSet(blocks: seq<Block>): seq<Range>
    requires forall b | b in blocks :: Parsed(b)
  {
    Merge([], Sort(Ranges(blocks)))
  }

  ghost predicate Listed(blocks: seq<Block>, ip: Address) {
    exists b :: b in blocks && b.Matches(ip)
  }

  /** Normal form: ascending, disjoint, never adjacent short of the last address, same coverage. */
  lemma LookupSetNormal(blocks: seq<Block>, ip: Address)
    requires forall b | b in blocks :: Parsed(b)
    ensures Gapped(LookupSet(blocks)) && Proper(LookupSet(blocks))
    ensures Covered(LookupSet(blocks), ip) <==> Listed(blocks, ip)
  {
    var rs := Ranges(blocks);
    forall k | 0 <= k < |rs| ensures rs[k].start <= rs[k].end { BlockHolds(blocks[k]); }
    SortSorts(rs);
    SortProper(rs);
    SortCovers(rs, ip);
    MergeKeeps([], Sort(rs), ip);
    forall k | 0 <= k < |rs| ensures rs[k].Holds(ip) <==> blocks[k].Matches(ip) { BlockIsRange(blocks[k], ip); }
  }

  lemma BlockHolds(b: Block)
    requires Parsed(b)
    ensures b.ToRange().start <= b.ToRange().end
  {
    var h: nat :| IsPrefix(b, h);
    AllOnes();
    OrSuffix(b.network, h);
  }

  lemma LastOnlyExactIff(blocks: seq<Block>)
    requires forall b | b in blocks :: Parsed(b)
    ensures LastOnly(LookupSet(blocks))
            <==> forall ip: Address :: Found(LookupSet(blocks), ip) == Listed(blocks, ip)
  {
    var rs := LookupSet(blocks);
    forall ip: Address ensures Covered(rs, ip) <==> Listed(blocks, ip) { LookupSetNormal(blocks, ip); }
    LookupSetNormal(blocks, 0);
    if LastOnly(rs) {
      forall ip: Address ensures Found(rs, ip) == Listed(blocks, ip) { FoundCovered(rs, ip); }
    } else {
      var k, l :| 0 <= k < l < |rs| && rs[k].end == MAX && rs[l].end != MAX;
      Missed(rs, k, l);
      var ip: Address := rs[l].end + 1;
      assert Found(rs, ip) != Listed(blocks, ip);
    }
  }

  /** The search answers the mask test of the listed blocks for every address exactly when, behind each listed
      block that reaches 255.255.255.255, the blocks that sort later cover everything from their least start on. */
  lemma LookupExactIff(blocks: seq<Block>)
    requires forall b | b in blocks :: Parsed(b)
    ensures TopClosed(Sort(Ranges(blocks)))
            <==> forall ip: Address :: Found(LookupSet(blocks), ip) == Listed(blocks, ip)
  {
    hide Found, Sort, Merge, Listed, LastOnly, TopClosed, Ordered;
    var rs, sorted := Ranges(blocks), Sort(Ranges(blocks));
    forall k | 0 <= k < |rs| ensures rs[k].start <= rs[k].end { BlockHolds(blocks[k]); }
    SortSorts(rs);
    SortProper(rs);
    LastOnlyExactIff(blocks);
    if sorted == [] {
      assert LastOnly(Merge([], [])) by { EarlyMaxOnly([], []); }
      assert TopClosed([]) by { NothingAtTop(); }
    } else {
      MergeEmpty(sorted);
      assert [sorted[0]] + sorted[1..] == sorted;
      TopClosedIff(sorted[0], sorted[1..]);
    }
  }

  lemma NothingAtTop()
    ensures TopClosed([])
  {
  }

  lemma {:induction false} EarlyMaxOnly(merged: seq<Range>, rs: seq<Range>)
    requires forall k | 0 <= k < |merged| :: merged[k].end == MAX ==> rs == [] && k == |merged| - 1
    requires forall k | 0 <= k < |rs| - 1 :: rs[k].end != MAX
    ensures LastOnly(Merge(merged, rs))
    ensures forall k | 0 <= k < |Merge(merged, rs)| - 1 :: Merge(merged, rs)[k].end != MAX
    decreases |rs|
  {
    if rs != [] {
      EarlyMaxOnly(Push(merged, rs[0]), rs[1..]);
    }
  }

  /** When only the last sorted range may reach the last address, the kept ranges are disjoint with a
      gap between any two, and the search is exact. */
  lemma LookupSetSeparated(blocks: seq<Block>)
    requires forall b | b in blocks :: Parsed(b)
    requires forall k | 0 <= k < |blocks| - 1 :: Sort(Ranges(blocks))[k].end != MAX
    ensures var rs := LookupSet(blocks); forall k, l | 0 <= k < l < |rs| :: rs[k].end + 1 < rs[l].start
    ensures forall ip: Address :: Found(LookupSet(blocks), ip) == Listed(blocks, ip)
  {
    LookupSetNormal(blocks, 0);
    var sorted := Sort(Ranges(blocks));
    assert forall k | 0 <= k < |sorted| - 1 :: sorted[k].end != MAX;
    EarlyMaxOnly([], sorted);
    LastOnlyExactIff(blocks);
  }

  lemma BlockOf(raw: Address, prefix: int, h: nat)
    requires h == HostDigits(prefix) && Low(raw, h) == 0
    ensures var b := ParseCidr(raw, prefix); b.network == raw && b.ToRange() == Range(raw, raw + Pow2(h) - 1)
    ensures raw + Pow2(h) - 1 < TOP
  {
    hide And, Or, Low, Pow2, ParseCidr;
    AllOnes();
    AndPrefix(raw, h, 32);
    OrSuffix(raw, h);
    OrBound(raw, Pow2(h) - 1, 32);
    ParsedMask(raw, prefix, h);
    if h == 32 { AllPass(raw); }
  }

  /** 0.0.0.0/0 with 0.0.0.1/32: the whole space is listed, yet 0.0.0.2 is not found. */
  lemma WrapCounterexample()
    ensures var blocks := [ParseCidr(0, 0), ParseCidr(1, 32)];
            Listed(blocks, 2) && !Found(LookupSet(blocks), 2)
  {
    var all, one := ParseCidr(0, 0), ParseCidr(1, 32);
    AllOnes();
    LowZero(32);
    BlockOf(0, 0, 32);
    BlockOf(1, 32, 0);
    var a, b := Range(0, MAX), Range(1, 1);
    hide And, Or, ParseCidr, Pow2, Low, Sort, Merge, Started;
    assert Ranges([all, one]) == [a, b];
    PairSet(a, b);
    StartedIs([a, b], 2, 2);
    BlockIsRange(all, 2);
    assert all in [all, one];
  }

  lemma {:induction false} LowZero(h: nat)
    ensures Low(0, h) == 0
  {
    if h != 0 { LowZero(h - 1); }
  }

  /** A range that reaches the last address stays apart from a later one inside it. */
  lemma PairSet(a: Range, b: Range)
    requires Before(a, b) && a.end == MAX && b.start > 0
    ensures Merge([], Sort([a, b])) == [a, b]
  {
    assert [a, b][1..] == [b] && [b][1..] == [];
    assert Sort([b]) == [b];
    assert Insert(a, [b]) == [a, b];
    assert Push([], a) == [a] && Push([a], b) == [a, b];
    assert Merge([a, b], []) == [a, b];
    assert Merge([a], [b]) == [a, b];
  }
}
