/** `BatchArena`: the bump allocator that a rule's masks come from. */
module Arena {
  import opened Bits
  import opened ByteMask
  import opened Optional

  const ALIGNMENT := 64

  /** The next multiple of 64: `(p + 63) & ~63`, on positions far from the top of the word. */
  function AlignUp(p: nat): (a: nat)
    ensures p <= a < p + ALIGNMENT && a % ALIGNMENT == 0
  {
    (p + ALIGNMENT - 1) / ALIGNMENT * ALIGNMENT
  }

  /** A stretch of the block handed out since the last reset. */
  datatype Region = Region(start: nat, size: nat)

  /** Aligned, inside the block, one behind the other. */
  ghost predicate Laid(regions: seq<Region>, used: nat, capacity: nat) {
    && used <= capacity
    && (forall k | 0 <= k < |regions| :: regions[k].start % ALIGNMENT == 0 && regions[k].start + regions[k].size <= used)
    && (forall k, l | 0 <= k < l < |regions| :: regions[k].start + regions[k].size <= regions[l].start)
  }

  class BatchArena {
    const block: array<Byte>
    var bumpPos: nat
    var allocCount: nat
    ghost var regions: seq<Region>

    ghost predicate Valid()
      reads this
    {
      Laid(regions, bumpPos, block.Length) && allocCount == |regions|
    }

    constructor (capacity: nat)
      ensures Valid() && regions == [] && bumpPos == 0 && block.Length == capacity && fresh(block)
    {
      block := new Byte[capacity](_ => 0);
      bumpPos, allocCount, regions := 0, 0, [];
    }

    /** The offset of the new stretch, or nothing when it does not fit. */
    method Allocate(size: nat) returns (start: Option<nat>)
      requires Valid()
      modifies this
      ensures Valid()
      ensures start.Some? <==> AlignUp(old(bumpPos)) + size <= block.Length
      ensures if start.Some? then
                start.value == AlignUp(old(bumpPos)) && regions == old(regions) + [Region(start.value, size)]
                && bumpPos == start.value + size
              else regions == old(regions) && bumpPos == old(bumpPos)
    {
      var aligned := AlignUp(bumpPos);
      if aligned + size > block.Length { return None; }
      bumpPos := aligned + size;
      allocCount := allocCount + 1;
      regions := regions + [Region(aligned, size)];
      return Some(aligned);
    }

    /** `allocate_bitmask`: the new stretch is zeroed, the others keep their bytes. */
    method AllocateBitmask(rows: nat) returns (start: Option<nat>)
      requires Valid()
      modifies this, block
      ensures Valid()
      ensures start.Some? <==> AlignUp(old(bumpPos)) + Bytes(rows) <= block.Length
      ensures if start.Some? then
                start.value == AlignUp(old(bumpPos)) && regions == old(regions) + [Region(start.value, Bytes(rows))]
                && bumpPos == start.value + Bytes(rows)
              else regions == old(regions) && bumpPos == old(bumpPos)
      ensures start.Some? ==> forall b: nat | b < block.Length ::
                block[b] == if start.value <= b < start.value + Bytes(rows) then 0 else old(block[b])
      ensures start.None? ==> block[..] == old(block[..])
    {
      start := Allocate(Bytes(rows));
      if start.Some? {
        var b := start.value;
        while b < start.value + Bytes(rows)
          invariant start.value <= b <= start.value + Bytes(rows)
          invariant forall k: nat | k < block.Length :: block[k] == if start.value <= k < b then 0 else old(block[k])
          modifies block
        {
          block[b] := 0;
          b := b + 1;
        }
      }
    }

    method Reset()
      requires Valid()
      modifies this
      ensures Valid() && regions == [] && bumpPos == 0
    {
      bumpPos, allocCount, regions := 0, 0, [];
    }
  }

  /** Different stretches share no byte. */
  lemma RegionsApart(regions: seq<Region>, used: nat, capacity: nat, k: nat, l: nat, b: nat)
    requires Laid(regions, used, capacity) && k < |regions| && l < |regions| && k != l
    requires regions[k].start <= b < regions[k].start + regions[k].size
    ensures b < capacity && !(regions[l].start <= b < regions[l].start + regions[l].size)
  {
  }

  // ---- A rule's masks ----------------------------------------------------------------------------------------------

  /** A 2048-row mask, with alignment. */
  const MASK_BYTES := 256

  /** The position after k masks of at most 2048 rows. */
  function Used(rows: nat, k: nat): nat {
    if k == 0 then 0 else AlignUp(Used(rows, k - 1)) + Bytes(rows)
  }

  lemma {:induction false} UsedBound(rows: nat, k: nat)
    requires rows <= 2048
    ensures AlignUp(Used(rows, k)) <= MASK_BYTES * k && Used(rows, k) <= MASK_BYTES * k
  {
    hide AlignUp;
    if k != 0 {
      UsedBound(rows, k - 1);
      assert Bytes(rows) <= MASK_BYTES;
    }
    AlignWithin(Used(rows, k), 4 * k);
  }

  lemma AlignWithin(p: nat, q: nat)
    requires p <= ALIGNMENT * q
    ensures AlignUp(p) <= ALIGNMENT * q
  {
  }

  /** A node with children takes one mask; the memo gives it out again. */
  function Inner(leaf: seq<bool>): (nodes: seq<nat>)
  {
    if leaf == [] then []
    else if leaf[|leaf| - 1] then Inner(leaf[..|leaf| - 1])
    else Inner(leaf[..|leaf| - 1]) + [|leaf| - 1]
  }

  lemma {:induction false} InnerHas(leaf: seq<bool>, n: nat)
    ensures n in Inner(leaf) <==> n < |leaf| && !leaf[n]
  {
    if leaf != [] { InnerHas(leaf[..|leaf| - 1], n); }
  }

  lemma {:induction false} DistinctFit(xs: seq<nat>, ys: seq<nat>)
    requires (forall i, j | 0 <= i < j < |xs| :: xs[i] != xs[j]) && forall i | 0 <= i < |xs| :: xs[i] in ys
    ensures |xs| <= |ys|
  {
    if xs != [] {
      var x, rest := xs[|xs| - 1], xs[..|xs| - 1];
      var at :| 0 <= at < |ys| && ys[at] == x;
      var others := ys[..at] + ys[at + 1..];
      forall i | 0 <= i < |rest| ensures rest[i] in others {
        var k :| 0 <= k < |ys| && ys[k] == rest[i];
        assert k != at;
        if k < at { assert others[k] == ys[k]; } else { assert others[k - 1] == ys[k]; }
      }
      DistinctFit(rest, others);
    }
  }

  /** The masks of one rule: each of its inner nodes asks once.  With capacity for 256 bytes an inner node,
      none of the requests is turned away, whatever their order. */
  method RuleMasks(arena: BatchArena, rows: nat, leaf: seq<bool>, asks: seq<nat>) returns (starts: seq<nat>)
    requires arena.Valid() && rows <= 2048
    requires (forall i, j | 0 <= i < j < |asks| :: asks[i] != asks[j]) && forall i | 0 <= i < |asks| :: asks[i] < |leaf| && !leaf[asks[i]]
    requires MASK_BYTES * |Inner(leaf)| <= arena.block.Length
    modifies arena, arena.block
    ensures arena.Valid() && |starts| == |asks| == |arena.regions|
    ensures forall k | 0 <= k < |starts| :: arena.regions[k] == Region(starts[k], Bytes(rows))
  {
    arena.Reset();
    starts := [];
    forall i | 0 <= i < |asks| ensures asks[i] in Inner(leaf) { InnerHas(leaf, asks[i]); }
    DistinctFit(asks, Inner(leaf));
    while |starts| < |asks|
      invariant |starts| <= |asks| && arena.Valid() && |arena.regions| == |starts|
      invariant arena.bumpPos == Used(rows, |starts|)
      invariant forall k | 0 <= k < |starts| :: arena.regions[k] == Region(starts[k], Bytes(rows))
    {
      UsedBound(rows, |starts| + 1);
      var start := arena.AllocateBitmask(rows);
      starts := starts + [start.value];
    }
  }
}
