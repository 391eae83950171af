/** What each kind of leaf, and NOT over it, says of a row, written out in comparisons, values and digits. */
module LeafMeaning {
  import opened Bits
  import opened Predicates
  import opened RuleCompiler
  import ByteMask
  import Ipv4Text

  // ---- Leaves ------------------------------------------------------------------------------------------------------

  /** The six comparisons of a number with a threshold; a null passes none of them. */
  lemma NumericSays(w: World, col: int, ctype: ColumnType, op: OpType, threshold: nat, row: Row)
    ensures var yes, x, v := Holds(w, Numeric(col, ctype, op, threshold), row), row(col), w.number(threshold);
            && (x == Null ==> !yes)
            && (x.Num? && op == 0 ==> (yes <==> x.x > v))
            && (x.Num? && op == 1 ==> (yes <==> x.x < v))
            && (x.Num? && op == 2 ==> (yes <==> x.x >= v))
            && (x.Num? && op == 3 ==> (yes <==> x.x <= v))
            && (x.Num? && op == 4 ==> (yes <==> x.x == v))
            && (x.Num? && op == 5 ==> (yes <==> x.x != v))
  {
  }

  lemma WindowSays(w: World, col: int, ctype: ColumnType, op: OpType, threshold: nat, row: Row)
    ensures var yes, x, v := Holds(w, Window(col, ctype, op, threshold), row), row(col), w.number(threshold);
            && (x == Null ==> !yes)
            && (x.Num? && op == 0 ==> (yes <==> x.x > v))
            && (x.Num? && op == 1 ==> (yes <==> x.x < v))
            && (x.Num? && op == 2 ==> (yes <==> x.x >= v))
            && (x.Num? && op == 3 ==> (yes <==> x.x <= v))
            && (x.Num? && op == 4 ==> (yes <==> x.x == v))
            && (x.Num? && op == 5 ==> (yes <==> x.x != v))
  {
  }

  /** 8 is BETWEEN with its ends, 9 without. */
  lemma RangeSays(w: World, col: int, ctype: ColumnType, op: OpType, lower: nat, upper: nat, row: Row)
    ensures var yes, x := Holds(w, Range(col, ctype, op, lower, upper), row), row(col);
            && (x == Null ==> !yes)
            && (x.Num? && op == 8 ==> (yes <==> w.number(lower) <= x.x <= w.number(upper)))
            && (x.Num? && op == 9 ==> (yes <==> w.number(lower) < x.x < w.number(upper)))
  {
  }

  /** Two numeric columns, the first one on the left. */
  lemma CrossSays(w: World, col: int, right: int, ctype: ColumnType, rtype: ColumnType, op: OpType, row: Row)
    requires IsNumeric(ctype) && IsNumeric(rtype)
    ensures var yes, a, b := Holds(w, CrossField(col, right, ctype, rtype, op), row), row(col), row(right);
            && (a == Null || b == Null ==> !yes)
            && (a.Num? && b.Num? && op == 14 ==> (yes <==> a.x > b.x))
            && (a.Num? && b.Num? && op == 15 ==> (yes <==> a.x < b.x))
            && (a.Num? && b.Num? && op == 16 ==> (yes <==> a.x >= b.x))
            && (a.Num? && b.Num? && op == 17 ==> (yes <==> a.x <= b.x))
            && (a.Num? && b.Num? && op == 18 ==> (yes <==> a.x == b.x))
            && (a.Num? && b.Num? && op == 19 ==> (yes <==> a.x != b.x))
  {
  }

  /** Two columns neither of which is numeric know equality only. */
  lemma CrossTextSays(w: World, col: int, right: int, ctype: ColumnType, rtype: ColumnType, op: OpType, row: Row)
    requires ctype in {4, 5, 7, 8} && rtype in {4, 5, 7, 8}
    ensures var yes, a, b := Holds(w, CrossField(col, right, ctype, rtype, op), row), row(col), row(right);
            && (a == Null || b == Null ==> !yes)
            && (a != Null && b != Null && op == 18 ==> (yes <==> a == b))
            && (a != Null && b != Null && op == 19 ==> (yes <==> a != b))
  {
  }

  /** Some listed value has this id in the column. */
  ghost predicate ListedId(w: World, col: int, values: Textual, id: int) {
    match values
    case One(s) => w.idOf(col, s) == id
    case Many(vs) => exists k :: 0 <= k < |vs| && w.idOf(col, vs[k]) == id
  }

  lemma IdListed(w: World, col: int, values: Textual, id: int)
    ensures id in Ids(w, col, values) <==> ListedId(w, col, values, id)
  {
    var ids := Ids(w, col, values);
    if values.Many? {
      if k :| 0 <= k < |values.vs| && w.idOf(col, values.vs[k]) == id { assert ids[k] == id; }
      if id in ids {
        var k :| 0 <= k < |ids| && ids[k] == id;
        assert w.idOf(col, values.vs[k]) == id;
      }
    }
  }

  /** A row's dictionary id among the ids of the listed values. */
  lemma CategoricalSays(w: World, col: int, op: OpType, values: Textual, row: Row)
    ensures var yes, x := Holds(w, Categorical(col, op, values), row), row(col);
            && (x == Null ==> !yes)
            && (x.Id? && op in {IN, CONTAINS_ANY, INTERSECTS} ==> (yes <==> ListedId(w, col, values, x.id)))
            && (x.Id? && op in {NEQ, NOT_IN, NOT_INTERSECTS} ==> (yes <==> !ListedId(w, col, values, x.id)))
            && (x.Id? && op == EQ && values.One? ==> (yes <==> x.id == w.idOf(col, values.s)))
            && (x.Id? && op == EQ && values.Many? ==> (yes <==> x.id == if values.vs == [] then -1 else w.idOf(col, values.vs[0])))
            && (x.Id? && op == CONTAINS_ALL ==> (yes <==> ListedId(w, col, values, x.id) && (values.One? || |values.vs| == 1)))
  {
    if row(col).Id? { IdListed(w, col, values, row(col).id); }
  }

  /** A row's set of positions against the ids below 63. */
  lemma LabelsSay(w: World, col: int, op: OpType, values: Textual, row: Row)
    requires row(col).Labels?
    ensures var yes, bits := Holds(w, Categorical(col, op, values), row), row(col).bits;
            && (op in {IN, EQ, CONTAINS_ANY, INTERSECTS} ==>
                  (yes <==> exists k: nat :: k < 63 && Bit(bits, k) && ListedId(w, col, values, k)))
            && (op in {NEQ, NOT_IN, NOT_INTERSECTS} ==>
                  (yes <==> forall k: nat :: k < 63 && Bit(bits, k) ==> !ListedId(w, col, values, k)))
            && (op == CONTAINS_ALL ==>
                  (yes <==> forall k: nat :: k < 63 && ListedId(w, col, values, k) ==> Bit(bits, k)))
  {
    var bits, ids := row(col).bits, Ids(w, col, values);
    var requested := ClosedValues.BitsOf(ids);
    forall k: nat ensures Bit(requested, k) <==> k < 63 && ListedId(w, col, values, k) {
      ClosedValues.BitsOfBit(ids, k);
      IdListed(w, col, values, k);
    }
    ClosedValues.AndNonZero(bits, requested);
    ClosedValues.AndCovers(bits, requested);
    DigitsMeet(w, col, values, bits, requested);
  }

  lemma DigitsMeet(w: World, col: int, values: Textual, bits: nat, requested: nat)
    requires forall k: nat :: Bit(requested, k) <==> k < 63 && ListedId(w, col, values, k)
    ensures (exists k: nat :: ClosedValues.BothSet(bits, requested, k))
            <==> exists k: nat :: k < 63 && Bit(bits, k) && ListedId(w, col, values, k)
    ensures (forall k: nat :: ClosedValues.Passes(requested, bits, k))
            <==> forall k: nat :: k < 63 && ListedId(w, col, values, k) ==> Bit(bits, k)
  {
    hide Bit, ListedId;
    if k: nat :| k < 63 && Bit(bits, k) && ListedId(w, col, values, k) { assert ClosedValues.BothSet(bits, requested, k); }
    if k: nat :| ClosedValues.BothSet(bits, requested, k) { assert k < 63 && Bit(bits, k) && ListedId(w, col, values, k); }
    if forall k: nat :: ClosedValues.Passes(requested, bits, k) {
      forall k: nat | k < 63 && ListedId(w, col, values, k) ensures Bit(bits, k) { assert ClosedValues.Passes(requested, bits, k); }
    }
  }

  /** The tests of a column for null, and of a text for emptiness. */
  lemma NullSays(w: World, col: int, op: OpType, row: Row)
    ensures var yes, x := Holds(w, NullTest(col, op), row), row(col);
            && (op == 10 ==> (yes <==> x == Null))
            && (op == 11 ==> (yes <==> x != Null))
            && (op == 12 ==> (yes <==> x == Null || (x.Text? && x.s == [])))
            && (op == 13 ==> (yes <==> x != Null && !(x.Text? && x.s == [])))
  {
  }

  /** The flags of an integer are the digits of its two's complement on 64 places. */
  lemma FlagsSay(w: World, col: int, ctype: ColumnType, op: OpType, mask: nat, row: Row)
    requires row(col).Num?
    ensures var yes, word := Holds(w, Bitfield(col, ctype, op, mask), row), Unsigned(row(col).x.Floor, 64);
            && (op == 27 ==> (yes <==> exists k: nat :: ClosedValues.BothSet(word, mask, k)))
            && (op == 28 ==> (yes <==> forall k: nat :: ClosedValues.Passes(mask, word, k)))
            && (op == 29 ==> (yes <==> forall k: nat :: !ClosedValues.BothSet(word, mask, k)))
  {
    var word := Unsigned(row(col).x.Floor, 64);
    ClosedValues.AndNonZero(word, mask);
    ClosedValues.AndCovers(word, mask);
  }

  /** A word's value: the integer, or the integer and 2 to the number of digits if it is negative. */
  lemma UnsignedSays(n: int, digits: nat)
    ensures 0 <= n < Pow2(digits) ==> Unsigned(n, digits) == n
    ensures -(Pow2(digits) as int) <= n < 0 ==> Unsigned(n, digits) == n + Pow2(digits)
  {
    hide Pow2;
    OneTurn(n, Pow2(digits));
  }

  lemma OneTurn(n: int, d: int)
    requires d > 0
    ensures 0 <= n < d ==> n % d == n
    ensures -d <= n < 0 ==> n % d == n + d
  {
    if -d <= n < 0 { assert n == d * -1 + (n + d); }
  }

  lemma FourDigits()
    ensures Pow2(4) == 16
  {
  }

  /** The 32-bit and the 64-bit word. */
  lemma WordSizes()
    ensures Pow2(32) == 0x1_0000_0000 && Pow2(64) == 0x1_0000_0000_0000_0000
  {
    hide Pow2;
    FourDigits();
    ByteMask.Pow2Add(4, 4);
    ByteMask.Pow2Add(8, 8);
    ByteMask.Pow2Add(16, 16);
    ByteMask.Pow2Add(32, 32);
  }

  /** A subnet test on a text's address, or on the low 32 digits of an integer. */
  lemma SubnetSays(w: World, col: int, ctype: ColumnType, op: OpType, network: nat, mask: nat, row: Row)
    ensures var yes, x := Holds(w, Cidr(col, ctype, op, network, mask), row), row(col);
            && (x == Null ==> !yes)
            && (x.Text? && op == 37 ==> (yes <==> And(Ipv4Text.AddressOf(x.s), mask) == network))
            && (x.Text? && op == 38 ==> (yes <==> And(Ipv4Text.AddressOf(x.s), mask) != network))
            && (x.Num? && op == 37 ==> (yes <==> And(Unsigned(x.x.Floor, 32), mask) == network))
            && (x.Num? && op == 38 ==> (yes <==> And(Unsigned(x.x.Floor, 32), mask) != network))
  {
    hide And, Ipv4Text.AddressOf, Unsigned;
  }

  lemma PatternSays(w: World, col: int, op: OpType, pattern: string, row: Row)
    ensures var yes, x := Holds(w, Regex(col, op, pattern), row), row(col);
            && (x == Null ==> !yes)
            && (x.Text? && op == 46 ==> (yes <==> w.regexMatch(pattern, x.s)))
            && (x.Text? && op == 47 ==> (yes <==> !w.regexMatch(pattern, x.s)))
  {
  }

  lemma LookupSays(w: World, col: int, ctype: ColumnType, op: OpType, name: string, kind: int, generation: nat, row: Row)
    ensures var yes, x := Holds(w, Lookup(col, ctype, op, name, kind, generation), row), row(col);
            && (x == Null ==> !yes)
            && (x != Null && op == 48 ==> (yes <==> w.inLookup(name, x)))
            && (x != Null && op == 49 ==> (yes <==> !w.inLookup(name, x)))
  {
  }

  /** The other kinds pass no row in which a column they read is null. */
  lemma OtherSays(w: World, p: Predicate, row: Row)
    ensures (p.ArrayLen? || p.Str? || p.Temporal?) && row(p.col) == Null ==> !Holds(w, p, row)
    ensures p.Geo? && (row(p.col) == Null || row(p.lon) == Null || row(p.otherLat) == Null || row(p.otherLon) == Null) ==> !Holds(w, p, row)
    ensures p.Arithmetic? && p.other >= 0 && row(p.other) == Null ==> !Holds(w, p, row)
    ensures p.Arithmetic? ==> forall k | 0 <= k < |p.nodes| && p.nodes[k].kind == 0 && row(p.nodes[k].col) == Null :: !Holds(w, p, row)
    ensures (p.ArrayLen? || p.Str? || p.Temporal?) && row(p.col) != Null ==> (Holds(w, p, row) <==> w.other(p, row))
  {
  }

  // ---- NOT over a leaf ---------------------------------------------------------------------------------------------

  /** NOT over these kinds is compiled into the opposite operator, so a null passes neither. */
  lemma NotIsFalseOnNull(w: World, p: Predicate, row: Row)
    requires p.Numeric? || p.Categorical? || p.CrossField? || p.Bitfield? || p.Cidr? || p.Regex? || p.Lookup? || p.Window?
    requires row(p.col) == Null || (p.CrossField? && row(p.right) == Null)
    ensures !Answer(w, Neg(Test(p)), row)
  {
    hide Answer;
    FlippedAnswer(w, p, row);
  }

  /** Where the columns are known it is the negation, except for the two operators without an opposite, which answer
      as if NOT were not there. */
  lemma NotIsNegation(w: World, p: Predicate, row: Row)
    requires p.Numeric? || p.Categorical? || p.CrossField? || p.Bitfield? || p.Cidr? || p.Regex? || p.Lookup? || p.Window?
    requires Proper(p) && row(p.col) != Null && (p.CrossField? ==> row(p.right) != Null)
    ensures p.op != 21 && p.op != 28 ==> (Answer(w, Neg(Test(p)), row) <==> !Holds(w, p, row))
    ensures p.op == 21 || p.op == 28 ==> (Answer(w, Neg(Test(p)), row) <==> Holds(w, p, row))
  {
    hide Answer;
    FlippedAnswer(w, p, row);
    if p.op != 21 && p.op != 28 { FlipIsExact(w, p, row); }
  }

  /** NOT over a null test is the opposite null test. */
  lemma NotNullSays(w: World, col: int, op: OpType, row: Row)
    ensures var yes, x := Answer(w, Neg(Test(NullTest(col, op))), row), row(col);
            && (op == 10 ==> (yes <==> x != Null))
            && (op == 11 ==> (yes <==> x == Null))
            && (op == 12 ==> (yes <==> x != Null && !(x.Text? && x.s == [])))
            && (op == 13 ==> (yes <==> x == Null || (x.Text? && x.s == [])))
  {
    hide Answer;
    FlippedAnswer(w, NullTest(col, op), row);
  }

  /** NOT over any other kind, and over a derived leaf, is the complement of its mask: it holds on a null. */
  lemma NotIsComplement(w: World, p: Predicate, row: Row)
    ensures p.Range? || p.ArrayLen? || p.Str? || p.Temporal? || p.Geo? || p.Arithmetic? ==>
              (Answer(w, Neg(Test(p)), row) <==> !Holds(w, p, row))
    ensures Answer(w, Neg(Derived(p)), row) <==> !Holds(w, p, row)
  {
    hide Holds, Exec;
    CompileExact(w, Neg(Derived(p)), [], row);
    assert [] + Emit(Neg(Derived(p)), 0) == Emit(Neg(Derived(p)), 0);
    if p.Range? || p.ArrayLen? || p.Str? || p.Temporal? || p.Geo? || p.Arithmetic? {
      CompileExact(w, Neg(Test(p)), [], row);
      assert [] + Emit(Neg(Test(p)), 0) == Emit(Neg(Test(p)), 0);
    }
  }

  // ---- Connectives -------------------------------------------------------------------------------------------------

  /** What a compiled rule answers, part by part: an AND of nothing matches nothing, and NOT over anything but a leaf
      is the complement. */
  lemma ConnectivesSay(w: World, c: Cond, row: Row)
    requires NoStuckNegation(c)
    ensures c.All? ==> (Answer(w, c, row) <==> c.cs != [] && forall k | 0 <= k < |c.cs| :: Answer(w, c.cs[k], row))
    ensures c.Any? ==> (Answer(w, c, row) <==> exists k :: 0 <= k < |c.cs| && Answer(w, c.cs[k], row))
    ensures c.Neg? && !c.c.Test? ==> (Answer(w, c, row) <==> !Answer(w, c.c, row))
    ensures c.Test? || c.Derived? ==> (Answer(w, c, row) <==> Holds(w, c.p, row))
  {
    hide Holds, Answer;
    AnswerIsMeaning(w, c, row);
    if c.All? || c.Any? {
      forall k | 0 <= k < |c.cs| ensures Answer(w, c.cs[k], row) == Meaning(w, c.cs[k], row) { AnswerIsMeaning(w, c.cs[k], row); }
    } else if c.Neg? {
      AnswerIsMeaning(w, c.c, row);
    }
  }

  lemma AnswerIsMeaning(w: World, c: Cond, row: Row)
    requires NoStuckNegation(c)
    ensures Answer(w, c, row) == Meaning(w, c, row)
  {
    hide Holds, Exec, Emit;
    CompileExact(w, c, [], row);
    assert [] + Emit(c, 0) == Emit(c, 0);
  }
}
