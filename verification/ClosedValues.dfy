/** Columns with a short closed value list: rows as 63-bit sets of positions, tests against dictionary ids. */
module ClosedValues {
  import opened Bits
  import opened DictEncoder

  const WIDTH := 63

  // ---- Sets of small numbers as words ----------------------------------------------------------------------

  /** The word whose set digits are the listed numbers below 63. */
  function BitsOf(ids: seq<int>): (bits: nat)
  {
    if ids == [] then 0
    else
      var last := |ids| - 1;
      var before := BitsOf(ids[..last]);
      if 0 <= ids[last] < WIDTH then Or(before, Pow2(ids[last])) else before
  }

  /** The loop of `requested_bitset`. */
  method RequestedBitset(ids: seq<int>) returns (bits: nat)
    ensures bits == BitsOf(ids)
    ensures forall k: nat :: Bit(bits, k) <==> k < WIDTH && k in ids
  {
    bits := 0;
    var i := 0;
    while i < |ids|
      invariant 0 <= i <= |ids|
      invariant bits == BitsOf(ids[..i])
    {
      assert ids[..i + 1][..i] == ids[..i];
      if 0 <= ids[i] < WIDTH { bits := Or(bits, Pow2(ids[i])); }
      i := i + 1;
    }
    assert ids[..i] == ids;
    forall k: nat ensures Bit(bits, k) <==> k < WIDTH && k in ids { BitsOfBit(ids, k); }
  }

  lemma {:induction false} BitsOfBit(ids: seq<int>, k: nat)
    ensures Bit(BitsOf(ids), k) <==> k < WIDTH && k in ids
  {
    if ids == [] {
      ZeroBit(k);
    } else {
      var last := |ids| - 1;
      BitsOfBit(ids[..last], k);
      assert ids == ids[..last] + [ids[last]];
      if 0 <= ids[last] < WIDTH {
        OrBit(BitsOf(ids[..last]), Pow2(ids[last]), k);
        Pow2Bit(ids[last], k);
      }
    }
  }

  predicate BothSet(a: nat, b: nat, k: nat) {
    Bit(a, k) && Bit(b, k)
  }

  predicate Passes(b: nat, a: nat, k: nat) {
    Bit(b, k) ==> Bit(a, k)
  }

  lemma AndNonZero(a: nat, b: nat)
    ensures And(a, b) != 0 <==> exists k: nat :: BothSet(a, b, k)
  {
    if And(a, b) != 0 {
      AndBit(a, b, Ctz(And(a, b)));
      assert BothSet(a, b, Ctz(And(a, b)));
    }
    if k: nat :| BothSet(a, b, k) {
      AndBit(a, b, k);
      ZeroBit(k);
    }
  }

  lemma AndCovers(a: nat, b: nat)
    ensures And(a, b) == b <==> forall k: nat :: Passes(b, a, k)
  {
    if And(a, b) == b {
      forall k: nat ensures Passes(b, a, k) { AndBit(a, b, k); }
    }
    if forall k: nat :: Passes(b, a, k) { Covered(a, b); }
  }

  lemma {:induction false} Covered(a: nat, b: nat)
    requires forall k: nat :: Passes(b, a, k)
    ensures And(a, b) == b
  {
    if b != 0 {
      assert Bit(b, Ctz(b)) && Passes(b, a, Ctz(b));
      if a == 0 { ZeroBit(Ctz(b)); }
      forall k: nat ensures Passes(b / 2, a / 2, k) {
        assert Passes(b, a, k + 1);
      }
      Covered(a / 2, b / 2);
      assert Passes(b, a, 0);
    }
  }

  // ---- Positions and ids --------------------------------------------------------------------------------------

  /** The position of a value's first occurrence: `emplace` keeps the first. */
  function Position(closed: seq<string>, v: string): (p: int)
    ensures if v in closed then 0 <= p < |closed| && closed[p] == v && v !in closed[..p] else p == UNKNOWN
  {
    if closed == [] then UNKNOWN
    else if v in closed[..|closed| - 1] then
      assert closed == closed[..|closed| - 1] + [closed[|closed| - 1]];
      var p := Position(closed[..|closed| - 1], v);
      assert closed[..|closed| - 1][..p] == closed[..p];
      p
    else if closed[|closed| - 1] == v then |closed| - 1
    else UNKNOWN
  }

  ghost predicate Distinct(vs: seq<string>) {
    forall i, j | 0 <= i < j < |vs| :: vs[i] != vs[j]
  }

  /** The column's dictionary starts with its closed values; there is room for them. */
  function ClosedDict(f: Field, closed: seq<string>): Dict {
    AddAll(f, EMPTY, closed)
  }

  lemma {:induction false} DictOfClosed(f: Field, closed: seq<string>)
    requires !f.Full(|closed|)
    ensures var d := ClosedDict(f, closed);
            && d.Inverse() && |d.names| <= |closed|
            && (forall v: string :: v in d.ids <==> v in closed)
            && (|d.names| == |closed| <==> Distinct(closed))
  {
    if closed != [] {
      var last := |closed| - 1;
      assert closed == closed[..last] + [closed[last]];
      DictOfClosed(f, closed[..last]);
      AddAllKeeps(f, EMPTY, closed);
      assert Distinct(closed) <==> Distinct(closed[..last]) && closed[last] !in closed[..last];
    }
  }

  /** A value's id counts the distinct values in front of its first occurrence. */
  lemma {:induction false} IdCounts(f: Field, closed: seq<string>, v: string)
    requires !f.Full(|closed|) && v in closed
    ensures ClosedDict(f, closed).IdOf(v) == |ClosedDict(f, closed[..Position(closed, v)]).names|
  {
    var last := |closed| - 1;
    assert closed == closed[..last] + [closed[last]];
    DictOfClosed(f, closed[..last]);
    if v in closed[..last] {
      IdCounts(f, closed[..last], v);
      assert closed[..last][..Position(closed, v)] == closed[..Position(closed, v)];
      AddKeeps(f, ClosedDict(f, closed[..last]), closed[last]);
    }
  }

  /** Row positions and dictionary ids agree on every closed value exactly when no value first appears
      behind a repetition. */
  lemma PositionsAreIdsIff(f: Field, closed: seq<string>)
    requires !f.Full(|closed|)
    ensures (forall v | v in closed :: Position(closed, v) == ClosedDict(f, closed).IdOf(v))
            <==> forall v | v in closed :: Distinct(closed[..Position(closed, v)])
  {
    forall v | v in closed
      ensures Position(closed, v) == ClosedDict(f, closed).IdOf(v) <==> Distinct(closed[..Position(closed, v)])
    {
      IdCounts(f, closed, v);
      DictOfClosed(f, closed[..Position(closed, v)]);
    }
  }

  /** A repetition in the middle shifts every later value: a, a, b has b at position 2 with id 1. */
  lemma RepetitionShifts(f: Field, a: string, b: string)
    requires !f.Full(3) && a != b
    ensures var closed := [a, a, b]; Position(closed, b) == 2 && ClosedDict(f, closed).IdOf(b) == 1
  {
    var closed := [a, a, b];
    assert closed[..2] == [a, a] && [a, a][..1] == [a] && [a][..0] == [];
    var one := EMPTY.Add(f, a);
    assert AddAll(f, EMPTY, [a]) == one && AddAll(f, EMPTY, [a, a]) == one;
    assert one.names == [a];
    assert AddAll(f, EMPTY, closed) == one.Add(f, b);
  }

  // ---- The three tests ----------------------------------------------------------------------------------------

  /** The row of an array of values, as ingest encodes it. */
  function RowPositions(closed: seq<string>, row: seq<string>): (ps: seq<int>)
    ensures |ps| == |row| && forall k | 0 <= k < |row| :: ps[k] == Position(closed, row[k])
  {
    seq(|row|, k requires 0 <= k < |row| => Position(closed, row[k]))
  }

  /** `eval_categorical_bitset` on one row: ANY, NONE and ALL of the requested values. */
  predicate AnyOf(row: nat, requested: nat) {
    And(row, requested) != 0
  }

  predicate AllOf(row: nat, requested: nat) {
    And(row, requested) == requested
  }

  ghost predicate Aligned(f: Field, closed: seq<string>) {
    |closed| < WIDTH && !f.Full(|closed|) && Distinct(closed)
  }

  /** A dictionary that started with the closed values, whatever was preloaded or encoded since. */
  ghost predicate Started(d: Dict, f: Field, closed: seq<string>) {
    Aligned(f, closed) && ClosedDict(f, closed).GrowsTo(d) && d.Inverse()
  }

  /** Every column of closed values has one after any sequence of preloads and batches. */
  lemma HistoryStarted(f: Field, closed: seq<string>, batches: seq<seq<string>>)
    requires Aligned(f, closed)
    ensures Started(AfterAll(f, ClosedDict(f, closed), batches), f, closed)
  {
    DictOfClosed(f, closed);
    HistoryKeeps(f, ClosedDict(f, closed), batches);
  }

  /** The closed values are the first names, in order. */
  lemma ClosedNames(f: Field, closed: seq<string>)
    requires Aligned(f, closed)
    ensures ClosedDict(f, closed).names == closed && ClosedDict(f, closed).Inverse()
  {
    hide ClosedDict;
    var start := ClosedDict(f, closed);
    DictOfClosed(f, closed);
    PositionsAreIdsIff(f, closed);
    forall k | 0 <= k < |closed| ensures start.names[k] == closed[k] {
      var v := closed[k];
      assert v in closed && Position(closed, v) == k;
      assert Distinct(closed[..Position(closed, v)]);
      assert start.IdOf(v) == k;
    }
  }

  /** Closed value k has id k, and no other value has one of those ids. */
  lemma ClosedIds(d: Dict, f: Field, closed: seq<string>, v: string)
    requires Started(d, f, closed)
    ensures closed <= d.names
    ensures v in closed <==> 0 <= d.IdOf(v) < |closed|
    ensures v in closed ==> d.IdOf(v) == Position(closed, v)
  {
    hide ClosedDict;
    ClosedNames(f, closed);
    if v in closed {
      assert d.names[Position(closed, v)] == v;
    }
  }

  /** A digit of a row's word stands for one closed value that the row holds, a digit of the request for the
      value with that id, closed or not, that the rule lists. */
  lemma DigitMeaning(d: Dict, f: Field, closed: seq<string>, row: seq<string>, listed: seq<string>, k: nat)
    requires Started(d, f, closed)
    ensures Bit(BitsOf(RowPositions(closed, row)), k) <==> k < |closed| && closed[k] in row
    ensures Bit(BitsOf(ListedIds(d, listed)), k) <==> k < WIDTH && k < |d.names| && d.names[k] in listed
  {
    BitsOfBit(RowPositions(closed, row), k);
    BitsOfBit(ListedIds(d, listed), k);
    if k < |closed| {
      assert Position(closed, closed[k]) == k;
      if closed[k] in row {
        var i :| 0 <= i < |row| && row[i] == closed[k];
        assert RowPositions(closed, row)[i] == k;
      }
    }
    if k < |d.names| && d.names[k] in listed {
      var i :| 0 <= i < |listed| && listed[i] == d.names[k];
      assert ListedIds(d, listed)[i] == k;
    }
    if k in ListedIds(d, listed) {
      var i :| 0 <= i < |listed| && ListedIds(d, listed)[i] == k;
      assert d.names[k] == listed[i];
    }
  }

  /** What the two words say, digit by digit. */
  ghost predicate Words(r: nat, q: nat, d: Dict, closed: seq<string>, row: seq<string>, listed: seq<string>) {
    forall k: nat :: Stands(r, closed, row, k) && Requests(q, d.names, listed, k)
  }

  lemma WordsOf(d: Dict, f: Field, closed: seq<string>, row: seq<string>, listed: seq<string>)
    requires Started(d, f, closed)
    ensures Words(BitsOf(RowPositions(closed, row)), BitsOf(ListedIds(d, listed)), d, closed, row, listed)
  {
    hide BitsOf, Started;
    forall k: nat
      ensures Stands(BitsOf(RowPositions(closed, row)), closed, row, k) && Requests(BitsOf(ListedIds(d, listed)), d.names, listed, k)
    {
      DigitMeaning(d, f, closed, row, listed, k);
    }
  }

  /** For fewer than 63 distinct closed values ANY asks for a closed value that the row holds and the rule lists,
      whatever else the dictionary knows; ALL asks for every listed value with an id below 63. */
  lemma BitsetExact(d: Dict, f: Field, closed: seq<string>, row: seq<string>, listed: seq<string>)
    requires Started(d, f, closed)
    ensures var r, q := BitsOf(RowPositions(closed, row)), BitsOf(ListedIds(d, listed));
            && (AnyOf(r, q) <==> exists v :: v in closed && v in row && v in listed)
            && (AllOf(r, q) <==> forall v | v in listed && 0 <= d.IdOf(v) < WIDTH :: v in closed && v in row)
  {
    hide BitsOf, And, Bit, RowPositions, ListedIds;
    var r, q := BitsOf(RowPositions(closed, row)), BitsOf(ListedIds(d, listed));
    AndNonZero(r, q);
    AndCovers(r, q);
    WordsOf(d, f, closed, row, listed);
    DigitsMeet(r, q, d, f, closed, row, listed);
    DigitsCover(r, q, d, f, closed, row, listed);
  }

  /** A value that is not closed has an id below 63, as preloaded lookup values do. */
  ghost predicate Foreign(d: Dict, closed: seq<string>, listed: seq<string>) {
    exists v :: v in listed && v !in closed && 0 <= d.IdOf(v) < WIDTH
  }

  /** ALL on the closed listed values. */
  ghost predicate HoldsClosed(closed: seq<string>, row: seq<string>, listed: seq<string>) {
    forall v | v in closed && v in listed :: v in row
  }

  /** ALL on all the listed values. */
  ghost predicate HoldsListed(row: seq<string>, listed: seq<string>) {
    forall v | v in listed :: v in row
  }

  ghost predicate AllAnswers(d: Dict, closed: seq<string>, row: seq<string>, listed: seq<string>) {
    AllOf(BitsOf(RowPositions(closed, row)), BitsOf(ListedIds(d, listed)))
  }

  /** ALL leaves the other listed values out of account for every row exactly when each of them is unresolved or
      has an id of 63 or more. */
  lemma AllClosedIff(d: Dict, f: Field, closed: seq<string>, listed: seq<string>)
    requires Started(d, f, closed)
    ensures !Foreign(d, closed, listed) <==>
            forall row: seq<string> :: AllAnswers(d, closed, row, listed) == HoldsClosed(closed, row, listed)
  {
    forall row: seq<string>
      ensures AllAnswers(d, closed, row, listed) == (!Foreign(d, closed, listed) && HoldsClosed(closed, row, listed))
    {
      BitsetExact(d, f, closed, row, listed);
      forall v | v in closed ensures 0 <= d.IdOf(v) < WIDTH { ClosedIds(d, f, closed, v); }
    }
    assert HoldsClosed(closed, closed, listed);
  }

  /** ALL is the plain test for every row of closed values exactly when every listed value has an id below 63 or
      one of them, not being closed, can never be met. */
  lemma AllListedIff(d: Dict, f: Field, closed: seq<string>, listed: seq<string>)
    requires Started(d, f, closed)
    ensures (forall v | v in listed :: 0 <= d.IdOf(v) < WIDTH) || Foreign(d, closed, listed) <==>
            forall row: seq<string> | HoldsListed(closed, row) :: AllAnswers(d, closed, row, listed) == HoldsListed(row, listed)
  {
    forall row: seq<string>
      ensures AllAnswers(d, closed, row, listed) == (!Foreign(d, closed, listed) && HoldsClosed(closed, row, listed))
    {
      BitsetExact(d, f, closed, row, listed);
      forall v | v in closed ensures 0 <= d.IdOf(v) < WIDTH { ClosedIds(d, f, closed, v); }
    }
    if v :| v in listed && !(0 <= d.IdOf(v) < WIDTH) {
      ClosedIds(d, f, closed, v);
      assert HoldsListed(closed, closed) && HoldsClosed(closed, closed, listed) && !HoldsListed(closed, listed);
    }
  }

  /** Digit k of the row's word stands for closed value k being among the row's. */
  ghost predicate Stands(word: nat, closed: seq<string>, values: seq<string>, k: nat) {
    Bit(word, k) <==> k < |closed| && closed[k] in values
  }

  /** Digit k of the request stands for the name with id k being listed. */
  ghost predicate Requests(word: nat, names: seq<string>, listed: seq<string>, k: nat) {
    Bit(word, k) <==> k < WIDTH && k < |names| && names[k] in listed
  }

  lemma DigitsMeet(r: nat, q: nat, d: Dict, f: Field, closed: seq<string>, row: seq<string>, listed: seq<string>)
    requires Started(d, f, closed) && Words(r, q, d, closed, row, listed)
    ensures (exists k: nat :: BothSet(r, q, k)) <==> exists v :: v in closed && v in row && v in listed
  {
    hide ClosedDict;
    if k: nat :| BothSet(r, q, k) {
      assert Stands(r, closed, row, k) && Requests(q, d.names, listed, k);
      ClosedIds(d, f, closed, closed[k]);
      var v := closed[k];
      assert v in closed && v in row && v in listed;
    }
    if v :| v in closed && v in row && v in listed {
      ClosedIds(d, f, closed, v);
      var k := Position(closed, v);
      assert Stands(r, closed, row, k) && Requests(q, d.names, listed, k);
      assert BothSet(r, q, k);
    }
  }

  lemma DigitsCover(r: nat, q: nat, d: Dict, f: Field, closed: seq<string>, row: seq<string>, listed: seq<string>)
    requires Started(d, f, closed) && Words(r, q, d, closed, row, listed)
    ensures (forall k: nat :: Passes(q, r, k)) <==> forall v | v in listed && 0 <= d.IdOf(v) < WIDTH :: v in closed && v in row
  {
    hide ClosedDict;
    if forall k: nat :: Passes(q, r, k) {
      forall v | v in listed && 0 <= d.IdOf(v) < WIDTH ensures v in closed && v in row {
        ClosedIds(d, f, closed, v);
        var k: nat := d.IdOf(v);
        assert d.names[k] == v;
        assert Stands(r, closed, row, k) && Requests(q, d.names, listed, k) && Passes(q, r, k);
      }
    }
    if forall v | v in listed && 0 <= d.IdOf(v) < WIDTH :: v in closed && v in row {
      forall k: nat ensures Passes(q, r, k) {
        assert Stands(r, closed, row, k) && Requests(q, d.names, listed, k);
        if Bit(q, k) {
          var v := d.names[k];
          assert d.IdOf(v) == k;
          ClosedIds(d, f, closed, v);
        }
      }
    }
  }
}
