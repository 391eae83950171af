/** Static rule conflicts: intervals and value sets that rules impose on fields, and what follows from them. */
module Conflict {
  import opened Comparisons

  // ---- Intervals -------------------------------------------------------------------------------------------------

  /** A bound: a number or one of the infinities. */
  datatype Bound = Low | At(v: real) | High

  predicate Less(a: Bound, b: Bound) {
    match a
    case Low => !b.Low?
    case At(x) => b.High? || (b.At? && x < b.v)
    case High => false
  }

  datatype Interval = Interval(lo: Bound, hi: Bound, loIncl: bool, hiIncl: bool) {
    /** `empty`. */
    predicate Empty() {
      Less(hi, lo) || (lo == hi && !(loIncl && hiIncl))
    }

    predicate Holds(x: real) {
      && (Less(lo, At(x)) || (lo == At(x) && loIncl))
      && (Less(At(x), hi) || (hi == At(x) && hiIncl))
    }
  }

  const EVERYTHING := Interval(Low, High, true, true)

  function FromOp(op: NumOp, v: real): Interval {
    match op
    case GT => Interval(At(v), High, false, true)
    case GTE => Interval(At(v), High, true, true)
    case LT => Interval(Low, At(v), true, false)
    case LTE => Interval(Low, At(v), true, true)
    case EQ => Interval(At(v), At(v), true, true)
    case NEQ => EVERYTHING
  }

  function Intersect(a: Interval, b: Interval): Interval {
    var lower := if Less(b.lo, a.lo) then (a.lo, a.loIncl) else if Less(a.lo, b.lo) then (b.lo, b.loIncl) else (a.lo, a.loIncl && b.loIncl);
    var upper := if Less(a.hi, b.hi) then (a.hi, a.hiIncl) else if Less(b.hi, a.hi) then (b.hi, b.hiIncl) else (a.hi, a.hiIncl && b.hiIncl);
    Interval(lower.0, upper.0, lower.1, upper.1)
  }

  predicate Contained(a: Interval, b: Interval) {
    && (Less(b.lo, a.lo) || (a.lo == b.lo && (b.loIncl || !a.loIncl)))
    && (Less(a.hi, b.hi) || (a.hi == b.hi && (b.hiIncl || !a.hiIncl)))
  }

  /** What the analysis builds: infinite ends only on their own side, and those inclusive. */
  predicate Proper(a: Interval) {
    !a.lo.High? && !a.hi.Low? && (a.lo.Low? ==> a.loIncl) && (a.hi.High? ==> a.hiIncl)
  }

  lemma IntersectExact(a: Interval, b: Interval, x: real)
    ensures Intersect(a, b).Holds(x) <==> a.Holds(x) && b.Holds(x)
    ensures Proper(a) && Proper(b) ==> Proper(Intersect(a, b))
  {
  }

  /** A point of a nonempty interval. */
  function Inside(a: Interval): (x: real)
    requires Proper(a) && !a.Empty()
    ensures a.Holds(x)
  {
    match (a.lo, a.hi)
    case (At(l), At(h)) => (l + h) / 2.0
    case (At(l), _) => l + 1.0
    case (_, At(h)) => h - 1.0
    case _ => 0.0
  }

  lemma EmptyExact(a: Interval)
    requires Proper(a)
    ensures a.Empty() <==> forall x :: !a.Holds(x)
  {
    if !a.Empty() { assert a.Holds(Inside(a)); }
  }

  /** The part of a below b's lower end, and the part above b's upper end. */
  function Below(b: Interval): Interval
    requires b.lo.At?
  {
    Interval(Low, b.lo, true, !b.loIncl)
  }

  function Above(b: Interval): Interval
    requires b.hi.At?
  {
    Interval(b.hi, High, !b.hiIncl, true)
  }

  /** Containment of a nonempty interval is containment of its points. */
  lemma ContainedExact(a: Interval, b: Interval)
    requires Proper(a) && Proper(b) && !a.Empty()
    ensures Contained(a, b) <==> forall x :: a.Holds(x) ==> b.Holds(x)
  {
    if !(Less(b.lo, a.lo) || (a.lo == b.lo && (b.loIncl || !a.loIncl))) {
      var outside := Intersect(a, Below(b));
      var x := Inside(outside);
      IntersectExact(a, Below(b), x);
      assert a.Holds(x) && !b.Holds(x);
    } else if !(Less(a.hi, b.hi) || (a.hi == b.hi && (b.hiIncl || !a.hiIncl))) {
      var outside := Intersect(a, Above(b));
      var x := Inside(outside);
      IntersectExact(a, Above(b), x);
      assert a.Holds(x) && !b.Holds(x);
    }
  }

  // ---- Conditions and records -----------------------------------------------------------------------------------

  /** A record's scalar fields; a missing or null field is in neither map. */
  datatype Record = Record(numbers: map<string, real>, texts: map<string, string>)

  /** A condition as the analysis sees it: `Other` is an OR, a NOT or a leaf that it does not look into. */
  datatype Cond =
    | All(kids: seq<Cond>)
    | Number(field: string, op: NumOp, threshold: real)
    | Between(field: string, inclusive: bool, lower: real, upper: real)
    | OneOf(field: string, values: set<string>)
    | Other(id: nat)

  /** `other` answers the conditions that are not looked into. */
  predicate Truth(other: (nat, Record) -> bool, c: Cond, rec: Record) {
    match c
    case All(kids) => kids != [] && forall k | 0 <= k < |kids| :: Truth(other, kids[k], rec)
    case Number(f, op, v) => f in rec.numbers && Compare(op, rec.numbers[f], v)
    case Between(f, inclusive, lower, upper) =>
      && f in rec.numbers
      && if inclusive then lower <= rec.numbers[f] <= upper else lower < rec.numbers[f] < upper
    case OneOf(f, values) => f in rec.texts && rec.texts[f] in values
    case Other(id) => other(id, rec)
  }

  // ---- Collecting constraints -------------------------------------------------------------------------------------

  datatype Constraints = Constraints(numeric: map<string, Interval>, inSets: map<string, set<string>>, dead: bool)

  const NONE := Constraints(map[], map[], false)

  /** `add_numeric`: only a second constraint on a field can kill the rule. */
  function AddNumeric(rc: Constraints, field: string, iv: Interval): Constraints {
    if field !in rc.numeric then rc.(numeric := rc.numeric[field := iv])
    else
      var both := Intersect(rc.numeric[field], iv);
      rc.(numeric := rc.numeric[field := both], dead := rc.dead || both.Empty())
  }

  /** Value sets of one field are united, even those of a conjunction. */
  function AddSet(rc: Constraints, field: string, values: set<string>): Constraints {
    rc.(inSets := rc.inSets[field := (if field in rc.inSets then rc.inSets[field] else {}) + values])
  }

  function Collect(c: Cond, rc: Constraints): Constraints
    decreases c, 1
  {
    match c
    case All(kids) => CollectAll(kids, rc)
    case Number(f, op, v) => AddNumeric(rc, f, FromOp(op, v))
    case Between(f, inclusive, lower, upper) => AddNumeric(rc, f, Interval(At(lower), At(upper), inclusive, inclusive))
    case OneOf(f, values) => AddSet(rc, f, values)
    case Other(_) => rc
  }

  function CollectAll(kids: seq<Cond>, rc: Constraints): Constraints
    decreases kids, 0
  {
    if kids == [] then rc else CollectAll(kids[1..], Collect(kids[0], rc))
  }

  ghost predicate AllProper(rc: Constraints) {
    forall f | f in rc.numeric :: Proper(rc.numeric[f])
  }

  /** The record meets every collected constraint. */
  predicate Meets(rc: Constraints, rec: Record) {
    && (forall f | f in rc.numeric :: f in rec.numbers && rc.numeric[f].Holds(rec.numbers[f]))
    && (forall f | f in rc.inSets :: f in rec.texts && rec.texts[f] in rc.inSets[f])
  }

  lemma AddNumericMeets(rc: Constraints, field: string, iv: Interval, rec: Record)
    requires AllProper(rc) && Proper(iv)
    ensures AllProper(AddNumeric(rc, field, iv))
    ensures Meets(AddNumeric(rc, field, iv), rec) <==> Meets(rc, rec) && field in rec.numbers && iv.Holds(rec.numbers[field])
    ensures Meets(AddNumeric(rc, field, iv), rec) && !rc.dead ==> !AddNumeric(rc, field, iv).dead
  {
    var after := AddNumeric(rc, field, iv);
    if field in rc.numeric {
      if field in rec.numbers { IntersectExact(rc.numeric[field], iv, rec.numbers[field]); }
      IntersectExact(rc.numeric[field], iv, 0.0);
      EmptyExact(Intersect(rc.numeric[field], iv));
    }
    if Meets(rc, rec) && field in rec.numbers && iv.Holds(rec.numbers[field]) {
      forall f | f in after.numeric ensures f in rec.numbers && after.numeric[f].Holds(rec.numbers[f]) {}
    }
    if Meets(after, rec) {
      assert field in after.numeric;
      forall f | f in rc.numeric ensures f in rec.numbers && rc.numeric[f].Holds(rec.numbers[f]) {
        assert f in after.numeric;
      }
    }
  }

  lemma OpInterval(op: NumOp, v: real, x: real)
    ensures Proper(FromOp(op, v)) && (Compare(op, x, v) ==> FromOp(op, v).Holds(x))
    ensures op != NEQ ==> (FromOp(op, v).Holds(x) <==> Compare(op, x, v))
  {
  }

  /** A record that satisfies the condition meets what was collected, and a met collection is not dead. */
  lemma {:induction false} CollectSound(other: (nat, Record) -> bool, c: Cond, rc: Constraints, rec: Record)
    requires AllProper(rc)
    ensures AllProper(Collect(c, rc))
    ensures Meets(rc, rec) && Truth(other, c, rec) ==> Meets(Collect(c, rc), rec)
    ensures Meets(rc, rec) && Truth(other, c, rec) && !rc.dead ==> !Collect(c, rc).dead
    decreases c, 1
  {
    match c
    case All(kids) => CollectAllSound(other, kids, rc, rec);
    case Number(f, op, v) =>
      OpInterval(op, v, if f in rec.numbers then rec.numbers[f] else 0.0);
      AddNumericMeets(rc, f, FromOp(op, v), rec);
    case Between(f, inclusive, lower, upper) =>
      AddNumericMeets(rc, f, Interval(At(lower), At(upper), inclusive, inclusive), rec);
    case OneOf(f, values) =>
    case Other(_) =>
  }

  lemma {:induction false} CollectAllSound(other: (nat, Record) -> bool, kids: seq<Cond>, rc: Constraints, rec: Record)
    requires AllProper(rc)
    ensures AllProper(CollectAll(kids, rc))
    ensures Meets(rc, rec) && (forall k | 0 <= k < |kids| :: Truth(other, kids[k], rec)) ==>
              Meets(CollectAll(kids, rc), rec) && (!rc.dead ==> !CollectAll(kids, rc).dead)
    decreases kids, 0
  {
    if kids != [] {
      CollectSound(other, kids[0], rc, rec);
      CollectAllSound(other, kids[1..], Collect(kids[0], rc), rec);
    }
  }

  /** What the analysis knows of a rule. */
  function Of(rule: Cond): Constraints {
    Collect(rule, NONE)
  }

  lemma RuleSound(other: (nat, Record) -> bool, rule: Cond, rec: Record)
    ensures AllProper(Of(rule))
    ensures Truth(other, rule, rec) ==> Meets(Of(rule), rec) && !Of(rule).dead
  {
    CollectSound(other, rule, NONE, rec);
  }

  /** A rule reported dead matches no record. */
  lemma DeadSound(other: (nat, Record) -> bool, rule: Cond, rec: Record)
    requires Of(rule).dead
    ensures !Truth(other, rule, rec)
  {
    RuleSound(other, rule, rec);
  }

  /** The fields that the analysis constrains by an interval, once for every time it does. */
  function Fields(c: Cond): seq<string>
    decreases c, 1
  {
    match c
    case All(kids) => FieldsAll(kids)
    case Number(f, _, _) => [f]
    case Between(f, _, _, _) => [f]
    case OneOf(_, _) => []
    case Other(_) => []
  }

  function FieldsAll(kids: seq<Cond>): seq<string>
    decreases kids, 0
  {
    if kids == [] then [] else Fields(kids[0]) + FieldsAll(kids[1..])
  }

  ghost predicate Void(rc: Constraints, field: string) {
    field in rc.numeric && rc.numeric[field].Empty()
  }

  /** A rule is dead when a void interval has been constrained at least twice. */
  ghost predicate Tracks(rc: Constraints, fields: seq<string>) {
    && AllProper(rc)
    && (forall f :: f in rc.numeric <==> f in fields)
    && (rc.dead <==> exists f :: Void(rc, f) && multiset(fields)[f] >= 2)
  }

  lemma AddNumericTracks(rc: Constraints, fields: seq<string>, field: string, iv: Interval)
    requires Tracks(rc, fields) && Proper(iv)
    ensures Tracks(AddNumeric(rc, field, iv), fields + [field])
  {
    var after, more := AddNumeric(rc, field, iv), fields + [field];
    assert forall f :: multiset(more)[f] == multiset(fields)[f] + if f == field then 1 else 0;
    if field in rc.numeric {
      IntersectExact(rc.numeric[field], iv, 0.0);
      if rc.numeric[field].Empty() {
        EmptyExact(rc.numeric[field]);
        EmptyExact(Intersect(rc.numeric[field], iv));
        forall x ensures !Intersect(rc.numeric[field], iv).Holds(x) { IntersectExact(rc.numeric[field], iv, x); }
      }
      assert field in fields;
      forall f ensures Void(after, f) && multiset(more)[f] >= 2 <==> (if f == field then Void(after, f) else Void(rc, f) && multiset(fields)[f] >= 2) {}
      if after.dead && !rc.dead {
        assert Void(after, field);
      }
      if f :| Void(rc, f) && multiset(fields)[f] >= 2 {
        assert Void(after, f) && multiset(more)[f] >= 2;
      }
    } else {
      assert field !in fields;
      forall f ensures Void(after, f) && multiset(more)[f] >= 2 <==> Void(rc, f) && multiset(fields)[f] >= 2 {}
    }
  }

  lemma {:induction false} CollectTracks(c: Cond, rc: Constraints, fields: seq<string>)
    requires Tracks(rc, fields)
    ensures Tracks(Collect(c, rc), fields + Fields(c))
    decreases c, 1
  {
    match c
    case All(kids) => CollectAllTracks(kids, rc, fields);
    case Number(f, op, v) =>
      OpInterval(op, v, 0.0);
      AddNumericTracks(rc, fields, f, FromOp(op, v));
    case Between(f, inclusive, lower, upper) =>
      AddNumericTracks(rc, fields, f, Interval(At(lower), At(upper), inclusive, inclusive));
    case OneOf(f, values) => AddSetTracks(rc, fields, f, values);
    case Other(_) => assert fields + [] == fields;
  }

  lemma AddSetTracks(rc: Constraints, fields: seq<string>, f: string, values: set<string>)
    requires Tracks(rc, fields)
    ensures Tracks(AddSet(rc, f, values), fields + [])
  {
    assert fields + [] == fields;
    forall g ensures Void(AddSet(rc, f, values), g) <==> Void(rc, g) {}
  }

  lemma {:induction false} CollectAllTracks(kids: seq<Cond>, rc: Constraints, fields: seq<string>)
    requires Tracks(rc, fields)
    ensures Tracks(CollectAll(kids, rc), fields + FieldsAll(kids))
    decreases kids, 0
  {
    hide Tracks, Collect, Fields;
    if kids == [] {
      assert fields + [] == fields;
    } else {
      CollectTracks(kids[0], rc, fields);
      CollectAllTracks(kids[1..], Collect(kids[0], rc), fields + Fields(kids[0]));
      assert (fields + Fields(kids[0])) + FieldsAll(kids[1..]) == fields + FieldsAll(kids);
    }
  }

  /** A rule is reported dead exactly when the interval of some field is void and the field was constrained twice. */
  lemma DeadIff(c: Cond)
    ensures Of(c).dead <==> exists f :: Void(Of(c), f) && multiset(Fields(c))[f] >= 2
  {
    CollectTracks(c, NONE, []);
    assert [] + Fields(c) == Fields(c);
  }

  /** For instance a range with its bounds the wrong way round: it matches nothing and is not reported. */
  lemma LoneEmptyRangeUnreported(other: (nat, Record) -> bool, field: string, lower: real, upper: real, rec: Record)
    requires lower > upper
    ensures !Truth(other, Between(field, true, lower, upper), rec) && !Of(Between(field, true, lower, upper)).dead
  {
  }

  // ---- Comparing two rules ----------------------------------------------------------------------------------------

  /** The analysis reports a conflict of two rules on a field. */
  predicate Clash(a: Constraints, b: Constraints, field: string) {
    || (field in a.numeric && field in b.numeric && Intersect(a.numeric[field], b.numeric[field]).Empty())
    || (field in a.inSets && field in b.inSets && a.inSets[field] * b.inSets[field] == {})
  }

  /** Two rules reported in conflict never match the same record. */
  lemma ClashSound(other: (nat, Record) -> bool, r: Cond, q: Cond, field: string, rec: Record)
    requires Clash(Of(r), Of(q), field)
    ensures !(Truth(other, r, rec) && Truth(other, q, rec))
  {
    RuleSound(other, r, rec);
    RuleSound(other, q, rec);
    var a, b := Of(r), Of(q);
    if field in a.numeric && field in b.numeric && field in rec.numbers {
      IntersectExact(a.numeric[field], b.numeric[field], rec.numbers[field]);
      EmptyExact(Intersect(a.numeric[field], b.numeric[field]));
    }
    if field in a.inSets && field in b.inSets && field in rec.texts {
      assert rec.texts[field] in a.inSets[field] && rec.texts[field] in b.inSets[field] ==> rec.texts[field] in a.inSets[field] * b.inSets[field];
    }
  }

  predicate Shares(a: Constraints, b: Constraints) {
    a.numeric.Keys * b.numeric.Keys != {} || a.inSets.Keys * b.inSets.Keys != {}
  }

  predicate NumericWithin(a: Constraints, b: Constraints, field: string)
    requires field in a.numeric && field in b.numeric
  {
    !Intersect(a.numeric[field], b.numeric[field]).Empty() && Contained(a.numeric[field], b.numeric[field])
  }

  predicate SetWithin(a: Constraints, b: Constraints, field: string)
    requires field in a.inSets && field in b.inSets
  {
    a.inSets[field] * b.inSets[field] != {} && a.inSets[field] <= b.inSets[field]
  }

  /** `all_i_in_j`: on every shared field, no conflict and containment. */
  predicate Within(a: Constraints, b: Constraints) {
    && (forall f | f in a.numeric && f in b.numeric :: NumericWithin(a, b, f))
    && (forall f | f in a.inSets && f in b.inSets :: SetWithin(a, b, f))
  }

  /** The analysis reports that the first rule is stricter than the second. */
  predicate Stricter(a: Constraints, b: Constraints) {
    Shares(a, b) && Within(a, b) && !Within(b, a)
  }

  /** A reported subsumption is containment on every field that both constrain. */
  lemma StricterSound(other: (nat, Record) -> bool, r: Cond, q: Cond, field: string)
    requires Stricter(Of(r), Of(q))
    ensures field in Of(r).numeric && field in Of(q).numeric ==>
              forall x :: Of(r).numeric[field].Holds(x) ==> Of(q).numeric[field].Holds(x)
    ensures field in Of(r).inSets && field in Of(q).inSets ==> Of(r).inSets[field] <= Of(q).inSets[field]
  {
    var rec := Record(map[], map[]);
    RuleSound(other, r, rec);
    RuleSound(other, q, rec);
    var a, b := Of(r), Of(q);
    if field in a.numeric && field in b.numeric {
      assert NumericWithin(a, b, field);
      EmptyExact(a.numeric[field]);
      EmptyExact(Intersect(a.numeric[field], b.numeric[field]));
      forall x ensures Intersect(a.numeric[field], b.numeric[field]).Holds(x) ==> a.numeric[field].Holds(x) {
        IntersectExact(a.numeric[field], b.numeric[field], x);
      }
      ContainedExact(a.numeric[field], b.numeric[field]);
    }
    if field in a.inSets && field in b.inSets { assert SetWithin(a, b, field); }
  }

  // ---- When a subsumption is one of the rules themselves ------------------------------------------------------------

  /** A conjunction of comparisons without `!=`. */
  predicate Conjunction(c: Cond) {
    match c
    case All(kids) => kids != [] && forall k | 0 <= k < |kids| :: Conjunction(kids[k])
    case Number(_, op, _) => op != NEQ
    case Between(_, _, _, _) => true
    case _ => false
  }

  /** For such a rule the collected intervals say exactly what the rule says. */
  lemma {:induction false} ConjunctionExact(other: (nat, Record) -> bool, c: Cond, rc: Constraints, rec: Record)
    requires AllProper(rc) && Conjunction(c)
    ensures Meets(Collect(c, rc), rec) <==> Meets(rc, rec) && Truth(other, c, rec)
    ensures AllProper(Collect(c, rc))
    decreases c, 1
  {
    match c
    case All(kids) => ConjunctionsExact(other, kids, rc, rec);
    case Number(f, op, v) =>
      OpInterval(op, v, if f in rec.numbers then rec.numbers[f] else 0.0);
      AddNumericMeets(rc, f, FromOp(op, v), rec);
    case Between(f, inclusive, lower, upper) =>
      AddNumericMeets(rc, f, Interval(At(lower), At(upper), inclusive, inclusive), rec);
  }

  lemma {:induction false} ConjunctionsExact(other: (nat, Record) -> bool, kids: seq<Cond>, rc: Constraints, rec: Record)
    requires AllProper(rc) && forall k | 0 <= k < |kids| :: Conjunction(kids[k])
    ensures Meets(CollectAll(kids, rc), rec) <==> Meets(rc, rec) && forall k | 0 <= k < |kids| :: Truth(other, kids[k], rec)
    ensures AllProper(CollectAll(kids, rc))
    decreases kids, 0
  {
    if kids != [] {
      ConjunctionExact(other, kids[0], rc, rec);
      ConjunctionsExact(other, kids[1..], Collect(kids[0], rc), rec);
    }
  }

  // ---- What the reports on conjunctions are worth --------------------------------------------------------------------

  /** The number passes every comparison that the rule makes with the field; `!=` is not looked at. */
  predicate Allows(c: Cond, field: string, x: real) {
    match c
    case All(kids) => forall k | 0 <= k < |kids| :: Allows(kids[k], field, x)
    case Number(f, op, v) => f == field && op != NEQ ==> Compare(op, x, v)
    case Between(f, inclusive, lower, upper) =>
      f == field ==> if inclusive then lower <= x <= upper else lower < x < upper
    case _ => true
  }

  /** The rule's comparisons with the field leave no number. */
  ghost predicate Contradictory(c: Cond, field: string) {
    field in Fields(c) && forall x :: !Allows(c, field, x)
  }

  /** The rule has two or more comparisons with the field. */
  predicate ComparedTwice(c: Cond, field: string) {
    multiset(Fields(c))[field] >= 2
  }

  /** The number is in what was collected for the field, if anything was. */
  predicate Collected(rc: Constraints, field: string, x: real) {
    field in rc.numeric ==> rc.numeric[field].Holds(x)
  }

  lemma AddNumericWithin(rc: Constraints, f: string, iv: Interval, field: string, x: real)
    ensures field in AddNumeric(rc, f, iv).numeric <==> field in rc.numeric || field == f
    ensures Collected(AddNumeric(rc, f, iv), field, x) <==> Collected(rc, field, x) && (f == field ==> iv.Holds(x))
  {
    if f in rc.numeric { IntersectExact(rc.numeric[f], iv, x); }
  }

  lemma {:induction false} CollectWithin(c: Cond, rc: Constraints, field: string, x: real)
    ensures field in Collect(c, rc).numeric <==> field in rc.numeric || field in Fields(c)
    ensures Collected(Collect(c, rc), field, x) <==> Collected(rc, field, x) && Allows(c, field, x)
    decreases c, 1
  {
    match c
    case All(kids) => CollectAllWithin(kids, rc, field, x);
    case Number(f, op, v) =>
      OpInterval(op, v, x);
      AddNumericWithin(rc, f, FromOp(op, v), field, x);
    case Between(f, inclusive, lower, upper) =>
      AddNumericWithin(rc, f, Interval(At(lower), At(upper), inclusive, inclusive), field, x);
    case OneOf(_, _) =>
    case Other(_) =>
  }

  lemma {:induction false} CollectAllWithin(kids: seq<Cond>, rc: Constraints, field: string, x: real)
    ensures field in CollectAll(kids, rc).numeric <==> field in rc.numeric || field in FieldsAll(kids)
    ensures Collected(CollectAll(kids, rc), field, x) <==> Collected(rc, field, x) && forall k | 0 <= k < |kids| :: Allows(kids[k], field, x)
    decreases kids, 0
  {
    if kids != [] {
      CollectWithin(kids[0], rc, field, x);
      CollectAllWithin(kids[1..], Collect(kids[0], rc), field, x);
    }
  }

  /** The interval collected for a field is void exactly when the comparisons with it contradict each other. */
  lemma VoidIff(c: Cond, field: string)
    ensures Void(Of(c), field) <==> Contradictory(c, field)
    ensures field in Of(c).numeric <==> field in Fields(c)
  {
    CollectWithin(c, NONE, field, 0.0);
    RuleSound((_, _) => false, c, Record(map[], map[]));
    if field in Of(c).numeric {
      EmptyExact(Of(c).numeric[field]);
      forall x ensures Of(c).numeric[field].Holds(x) <==> Allows(c, field, x) { CollectWithin(c, NONE, field, x); }
    }
  }

  ghost predicate Unsatisfiable(other: (nat, Record) -> bool, c: Cond) {
    forall rec: Record :: !Truth(other, c, rec)
  }

  /** A record with a point of every collected interval. */
  ghost function Sample(rc: Constraints): Record
    requires AllProper(rc) && forall f | f in rc.numeric :: !rc.numeric[f].Empty()
  {
    Record(map f | f in rc.numeric :: Inside(rc.numeric[f]), map[])
  }

  lemma SampleMeets(other: (nat, Record) -> bool, c: Cond)
    requires Conjunction(c) && forall f :: !Void(Of(c), f)
    ensures AllProper(Of(c)) && forall f | f in Of(c).numeric :: !Of(c).numeric[f].Empty()
    ensures Truth(other, c, Sample(Of(c))) && Sample(Of(c)).numbers.Keys == Of(c).numeric.Keys
  {
    ConjunctionExact(other, c, NONE, Record(map[], map[]));
    forall f | f in Of(c).numeric ensures !Of(c).numeric[f].Empty() { assert !Void(Of(c), f); }
    ConjunctionExact(other, c, NONE, Sample(Of(c)));
    NoSets(c, NONE);
  }

  /** Such a rule can match nothing exactly when its comparisons with some field contradict each other. */
  lemma UnsatisfiableIff(other: (nat, Record) -> bool, c: Cond)
    requires Conjunction(c)
    ensures Unsatisfiable(other, c) <==> exists f :: Contradictory(c, f)
  {
    hide Contradictory;
    forall f ensures Void(Of(c), f) <==> Contradictory(c, f) { VoidIff(c, f); }
    if f :| Void(Of(c), f) {
      forall rec: Record ensures !Truth(other, c, rec) {
        ConjunctionExact(other, c, NONE, rec);
        EmptyExact(Of(c).numeric[f]);
      }
      assert Contradictory(c, f);
    } else {
      SampleMeets(other, c);
    }
  }

  /** Reported dead means matching nothing, and the other way round, exactly when the rule contradicts itself on no
      field or on one that it compares twice: a contradictory range alone on its field goes unreported. */
  lemma DeadExactIff(other: (nat, Record) -> bool, c: Cond)
    requires Conjunction(c)
    ensures (Of(c).dead <==> Unsatisfiable(other, c)) <==>
            ((exists f :: Contradictory(c, f)) ==> exists f :: Contradictory(c, f) && ComparedTwice(c, f))
  {
    hide Contradictory, Unsatisfiable;
    forall f ensures Void(Of(c), f) <==> Contradictory(c, f) { VoidIff(c, f); }
    DeadIff(c);
    UnsatisfiableIff(other, c);
  }

  lemma StricterImplies(other: (nat, Record) -> bool, r: Cond, q: Cond, rec: Record)
    requires Stricter(Of(r), Of(q)) && Conjunction(q)
    requires Of(q).numeric.Keys <= Of(r).numeric.Keys && Truth(other, r, rec)
    ensures Truth(other, q, rec)
  {
    RuleSound(other, r, rec);
    ConjunctionExact(other, q, NONE, rec);
    NoSets(q, NONE);
    forall f | f in Of(q).numeric ensures f in rec.numbers && Of(q).numeric[f].Holds(rec.numbers[f]) {
      StricterSound(other, r, q, f);
    }
  }

  ghost predicate Implies(other: (nat, Record) -> bool, r: Cond, q: Cond) {
    forall rec: Record :: Truth(other, r, rec) ==> Truth(other, q, rec)
  }

  /** Every field that q makes a comparison with, r does too. */
  ghost predicate ConstrainsAll(r: Cond, q: Cond) {
    forall f | f in Fields(q) :: f in Fields(r)
  }

  /** Of two conjunctions of which the first can match: the one reported stricter implies the other exactly when it
      constrains every field that the other does, since the report compares the shared fields only. */
  lemma StricterExactIff(other: (nat, Record) -> bool, r: Cond, q: Cond)
    requires Stricter(Of(r), Of(q)) && Conjunction(r) && Conjunction(q) && !Unsatisfiable(other, r)
    ensures Implies(other, r, q) <==> ConstrainsAll(r, q)
  {
    hide Truth, Contradictory, Collect, Fields, Conjunction, Stricter;
    forall f ensures (f in Of(q).numeric <==> f in Fields(q)) && (f in Of(r).numeric <==> f in Fields(r)) {
      VoidIff(q, f);
      VoidIff(r, f);
    }
    if ConstrainsAll(r, q) {
      forall rec: Record | Truth(other, r, rec) ensures Truth(other, q, rec) { StricterImplies(other, r, q, rec); }
    } else {
      var f :| f in Fields(q) && f !in Fields(r);
      var rec := ForeignField(other, r, q, f);
      assert !(Truth(other, r, rec) ==> Truth(other, q, rec));
      assert !Implies(other, r, q);
    }
  }

  /** A record that matches r and lacks a field that q constrains. */
  lemma ForeignField(other: (nat, Record) -> bool, r: Cond, q: Cond, f: string) returns (rec: Record)
    requires Conjunction(r) && Conjunction(q) && !Unsatisfiable(other, r)
    requires f in Of(q).numeric && f !in Of(r).numeric
    ensures Truth(other, r, rec) && !Truth(other, q, rec)
  {
    hide Truth, Contradictory, Collect, Fields, Conjunction;
    UnsatisfiableIff(other, r);
    forall g ensures !Void(Of(r), g) { VoidIff(r, g); }
    SampleMeets(other, r);
    rec := Sample(Of(r));
    ConjunctionExact(other, q, NONE, rec);
    assert f in Of(q).numeric && f !in rec.numbers;
  }

  lemma {:induction false} NoSets(c: Cond, rc: Constraints)
    requires Conjunction(c)
    ensures Collect(c, rc).inSets == rc.inSets
    decreases c, 1
  {
    if c.All? { NoSetsAll(c.kids, rc); }
  }

  lemma {:induction false} NoSetsAll(kids: seq<Cond>, rc: Constraints)
    requires forall k | 0 <= k < |kids| :: Conjunction(kids[k])
    ensures CollectAll(kids, rc).inSets == rc.inSets
    decreases kids, 0
  {
    if kids != [] {
      NoSets(kids[0], rc);
      NoSetsAll(kids[1..], Collect(kids[0], rc));
    }
  }

  /** For instance x > 5 is called stricter than x > 0 and y > 0, though a record with
      x = 6 and y = -1 matches the first alone. */
  lemma StricterMisleads(other: (nat, Record) -> bool)
    ensures var r, q := Number("x", GT, 5.0), All([Number("x", GT, 0.0), Number("y", GT, 0.0)]);
            var rec := Record(map["x" := 6.0, "y" := -1.0], map[]);
            Stricter(Of(r), Of(q)) && Truth(other, r, rec) && !Truth(other, q, rec)
  {
    var r, x, y := Number("x", GT, 5.0), Number("x", GT, 0.0), Number("y", GT, 0.0);
    var q := All([x, y]);
    assert "x" != "y";
    CollectTwo(x, y, NONE);
    var a, b := FromOp(GT, 5.0), FromOp(GT, 0.0);
    assert Of(r).numeric == map["x" := a];
    assert Of(q).numeric == map["x" := b]["y" := b];
    assert "x" in Of(r).numeric.Keys * Of(q).numeric.Keys;
    assert !NumericWithin(Of(q), Of(r), "x");
    var rec := Record(map["x" := 6.0, "y" := -1.0], map[]);
    assert !Truth(other, y, rec) && q.kids[1] == y;
  }

  lemma CollectTwo(x: Cond, y: Cond, rc: Constraints)
    ensures Collect(All([x, y]), rc) == Collect(y, Collect(x, rc))
  {
    hide AddNumeric, AddSet;
    assert [x, y][1..] == [y] && [y][1..] == [];
    assert CollectAll([y], Collect(x, rc)) == CollectAll([], Collect(y, Collect(x, rc)));
  }

  // ---- What is reported, in terms of the conditions ------------------------------------------------------------------

  /** The rule looks up the field in value sets. */
  predicate Lists(c: Cond, field: string) {
    match c
    case All(kids) => exists k :: 0 <= k < |kids| && Lists(kids[k], field)
    case OneOf(f, _) => f == field
    case _ => false
  }

  /** One of the rule's value sets of the field has the value. */
  predicate Names(c: Cond, field: string, value: string) {
    match c
    case All(kids) => exists k :: 0 <= k < |kids| && Names(kids[k], field, value)
    case OneOf(f, values) => f == field && value in values
    case _ => false
  }

  predicate InSet(rc: Constraints, field: string, value: string) {
    field in rc.inSets && value in rc.inSets[field]
  }

  lemma {:induction false} CollectNames(c: Cond, rc: Constraints, field: string, value: string)
    ensures field in Collect(c, rc).inSets <==> field in rc.inSets || Lists(c, field)
    ensures InSet(Collect(c, rc), field, value) <==> InSet(rc, field, value) || Names(c, field, value)
    decreases c, 1
  {
    if c.All? { CollectAllNames(c.kids, rc, field, value); }
  }

  lemma {:induction false} CollectAllNames(kids: seq<Cond>, rc: Constraints, field: string, value: string)
    ensures field in CollectAll(kids, rc).inSets <==> field in rc.inSets || exists k :: 0 <= k < |kids| && Lists(kids[k], field)
    ensures InSet(CollectAll(kids, rc), field, value) <==>
            InSet(rc, field, value) || exists k :: 0 <= k < |kids| && Names(kids[k], field, value)
    decreases kids, 0
  {
    if kids != [] {
      CollectNames(kids[0], rc, field, value);
      CollectAllNames(kids[1..], Collect(kids[0], rc), field, value);
      hide Collect, CollectAll, Lists, Names, InSet;
      if k :| 0 <= k < |kids| && Lists(kids[k], field) && k > 0 { assert kids[k] == kids[1..][k - 1]; }
      if k :| 0 <= k < |kids| && Names(kids[k], field, value) && k > 0 { assert kids[k] == kids[1..][k - 1]; }
    }
  }

  /** No number passes the comparisons that both rules make with the field. */
  ghost predicate NoCommonNumber(r: Cond, q: Cond, field: string) {
    forall x :: !(Allows(r, field, x) && Allows(q, field, x))
  }

  ghost predicate NoCommonValue(r: Cond, q: Cond, field: string) {
    forall value :: !(Names(r, field, value) && Names(q, field, value))
  }

  lemma NumericClashIff(r: Cond, q: Cond, field: string)
    ensures NumericClash(Of(r), Of(q), field) <==> field in Fields(r) && field in Fields(q) && NoCommonNumber(r, q, field)
  {
    VoidIff(r, field);
    VoidIff(q, field);
    if field in Fields(r) && field in Fields(q) {
      var a, b := Of(r).numeric[field], Of(q).numeric[field];
      RuleSound((_, _) => false, r, Record(map[], map[]));
      RuleSound((_, _) => false, q, Record(map[], map[]));
      IntersectExact(a, b, 0.0);
      EmptyExact(Intersect(a, b));
      forall x ensures Intersect(a, b).Holds(x) <==> Allows(r, field, x) && Allows(q, field, x) {
        IntersectExact(a, b, x);
        CollectWithin(r, NONE, field, x);
        CollectWithin(q, NONE, field, x);
      }
    }
  }

  lemma SetClashIff(r: Cond, q: Cond, field: string)
    ensures SetClash(Of(r), Of(q), field) <==> Lists(r, field) && Lists(q, field) && NoCommonValue(r, q, field)
  {
    hide Collect, Lists, Names;
    forall value
      ensures field in Of(r).inSets <==> Lists(r, field)
      ensures field in Of(q).inSets <==> Lists(q, field)
      ensures InSet(Of(r), field, value) <==> Names(r, field, value)
      ensures InSet(Of(q), field, value) <==> Names(q, field, value)
    {
      CollectNames(r, NONE, field, value);
      CollectNames(q, NONE, field, value);
    }
    assert InSet(Of(r), field, "") <==> Names(r, field, "");
    if field in Of(r).inSets && field in Of(q).inSets {
      var a, b := Of(r).inSets[field], Of(q).inSets[field];
      if a * b != {} {
        var value :| value in a * b;
        assert InSet(Of(r), field, value) && InSet(Of(q), field, value);
      }
      forall value | Names(r, field, value) && Names(q, field, value) ensures value in a * b {
        assert InSet(Of(r), field, value) && InSet(Of(q), field, value);
      }
    }
  }

  /** Two rules are reported in conflict on a field exactly when both compare it and no number passes all the
      comparisons, or both look it up in value sets and the sets have no value in common. */
  lemma ClashIff(r: Cond, q: Cond, field: string)
    ensures Clash(Of(r), Of(q), field) <==>
            || (field in Fields(r) && field in Fields(q) && NoCommonNumber(r, q, field))
            || (Lists(r, field) && Lists(q, field) && NoCommonValue(r, q, field))
  {
    hide NoCommonNumber, NoCommonValue, Of, Lists, Fields;
    NumericClashIff(r, q, field);
    SetClashIff(r, q, field);
  }

  /** A rule is reported dead exactly when it compares some field at least twice and no number passes. */
  lemma DeadSays(c: Cond)
    ensures Of(c).dead <==> exists f :: Contradictory(c, f) && ComparedTwice(c, f)
  {
    hide Contradictory;
    forall f ensures Void(Of(c), f) <==> Contradictory(c, f) { VoidIff(c, f); }
    DeadIff(c);
  }

  /** On the field r leaves something that q leaves too, and nothing that q does not. */
  ghost predicate NumbersWithin(r: Cond, q: Cond, field: string) {
    !NoCommonNumber(r, q, field) && forall x :: Allows(r, field, x) ==> Allows(q, field, x)
  }

  ghost predicate ValuesWithin(r: Cond, q: Cond, field: string) {
    !NoCommonValue(r, q, field) && forall value :: Names(r, field, value) ==> Names(q, field, value)
  }

  lemma NumbersWithinIff(r: Cond, q: Cond, field: string)
    requires field in Fields(r) && field in Fields(q)
    ensures field in Of(r).numeric && field in Of(q).numeric
    ensures NumericWithin(Of(r), Of(q), field) <==> NumbersWithin(r, q, field)
  {
    VoidIff(r, field);
    VoidIff(q, field);
    NumericClashIff(r, q, field);
    var a, b := Of(r).numeric[field], Of(q).numeric[field];
    RuleSound((_, _) => false, r, Record(map[], map[]));
    RuleSound((_, _) => false, q, Record(map[], map[]));
    hide Intersect, Contained, Collect, Allows, Fields;
    forall x ensures (a.Holds(x) <==> Allows(r, field, x)) && (b.Holds(x) <==> Allows(q, field, x)) {
      CollectWithin(r, NONE, field, x);
      CollectWithin(q, NONE, field, x);
    }
    EmptyExact(a);
    if !NoCommonNumber(r, q, field) { ContainedExact(a, b); }
  }

  lemma ValuesWithinIff(r: Cond, q: Cond, field: string)
    requires Lists(r, field) && Lists(q, field)
    ensures field in Of(r).inSets && field in Of(q).inSets
    ensures SetWithin(Of(r), Of(q), field) <==> ValuesWithin(r, q, field)
  {
    CollectNames(r, NONE, field, "");
    CollectNames(q, NONE, field, "");
    SetClashIff(r, q, field);
    hide Collect, Lists, Names;
    forall value ensures InSet(Of(r), field, value) <==> Names(r, field, value) { CollectNames(r, NONE, field, value); }
    forall value ensures InSet(Of(q), field, value) <==> Names(q, field, value) { CollectNames(q, NONE, field, value); }
    forall value ensures value in Of(r).inSets[field] <==> Names(r, field, value) { assert InSet(Of(r), field, value) <==> Names(r, field, value); }
    forall value ensures value in Of(q).inSets[field] <==> Names(q, field, value) { assert InSet(Of(q), field, value) <==> Names(q, field, value); }
  }

  /** On every field that both compare or both look up, r leaves no more than q. */
  ghost predicate LeavesLess(r: Cond, q: Cond) {
    && (forall f | f in Fields(r) && f in Fields(q) :: NumbersWithin(r, q, f))
    && (forall f | Lists(r, f) && Lists(q, f) :: ValuesWithin(r, q, f))
  }

  lemma WithinIff(r: Cond, q: Cond)
    ensures Within(Of(r), Of(q)) <==> LeavesLess(r, q)
  {
    hide Of, Lists, Fields, NumericWithin, SetWithin, NumbersWithin, ValuesWithin;
    forall f ensures f in Of(r).numeric && f in Of(q).numeric <==> f in Fields(r) && f in Fields(q) {
      VoidIff(r, f);
      VoidIff(q, f);
    }
    forall f ensures f in Of(r).inSets && f in Of(q).inSets <==> Lists(r, f) && Lists(q, f) { ListsIff(r, f); ListsIff(q, f); }
    forall f | f in Of(r).numeric && f in Of(q).numeric ensures NumericWithin(Of(r), Of(q), f) <==> NumbersWithin(r, q, f) {
      NumbersWithinIff(r, q, f);
    }
    forall f | f in Of(r).inSets && f in Of(q).inSets ensures SetWithin(Of(r), Of(q), f) <==> ValuesWithin(r, q, f) {
      ValuesWithinIff(r, q, f);
    }
  }

  lemma ListsIff(c: Cond, field: string)
    ensures field in Of(c).inSets <==> Lists(c, field)
  {
    CollectNames(c, NONE, field, "");
  }

  /** Both compare the field, or both look it up. */
  ghost predicate Together(r: Cond, q: Cond, field: string) {
    (field in Fields(r) && field in Fields(q)) || (Lists(r, field) && Lists(q, field))
  }

  lemma TogetherIff(r: Cond, q: Cond, field: string)
    ensures Together(r, q, field) <==> (field in Of(r).numeric && field in Of(q).numeric) || (field in Of(r).inSets && field in Of(q).inSets)
  {
    VoidIff(r, field);
    VoidIff(q, field);
    ListsIff(r, field);
    ListsIff(q, field);
  }

  lemma SharesIffTogether(r: Cond, q: Cond)
    ensures Shares(Of(r), Of(q)) <==> exists f :: Together(r, q, f)
  {
    hide Of, Together;
    var a, b := Of(r), Of(q);
    if Shares(a, b) {
      var f := if a.numeric.Keys * b.numeric.Keys != {} then var g :| g in a.numeric.Keys * b.numeric.Keys; g
               else var g :| g in a.inSets.Keys * b.inSets.Keys; g;
      TogetherIff(r, q, f);
    }
    if f :| Together(r, q, f) {
      TogetherIff(r, q, f);
      if f in a.numeric && f in b.numeric { assert f in a.numeric.Keys * b.numeric.Keys; }
      if f in a.inSets && f in b.inSets { assert f in a.inSets.Keys * b.inSets.Keys; }
    }
  }

  /** A rule is reported stricter exactly when the two compare or look up a field both, the first leaves no more than the
      second on each such field, and the second does not do so in turn. */
  lemma StricterIff(r: Cond, q: Cond)
    ensures Stricter(Of(r), Of(q)) <==> (exists f :: Together(r, q, f)) && LeavesLess(r, q) && !LeavesLess(q, r)
  {
    hide Of, Together, LeavesLess, Within, Shares;
    WithinIff(r, q);
    WithinIff(q, r);
    SharesIffTogether(r, q);
  }

  // ---- The report -------------------------------------------------------------------------------------------------

  /** The loop over the shared numeric fields. */
  method CompareNumeric(a: Constraints, b: Constraints) returns (clashes: set<string>, shared: bool, aInB: bool, bInA: bool)
    ensures forall f :: f in clashes <==> NumericClash(a, b, f)
    ensures shared == exists f :: f in a.numeric && f in b.numeric
    ensures aInB == forall f | f in a.numeric && f in b.numeric :: NumericWithin(a, b, f)
    ensures bInA == forall f | f in a.numeric && f in b.numeric :: NumericWithin(b, a, f)
  {
    hide Intersect, Contained;
    clashes, shared, aInB, bInA := {}, false, true, true;
    var todo := a.numeric.Keys;
    while todo != {}
      invariant todo <= a.numeric.Keys
      invariant forall f :: f in clashes <==> NumericClash(a, b, f) && f !in todo
      invariant shared == exists f :: f in a.numeric && f in b.numeric && f !in todo
      invariant aInB == forall f | f in a.numeric && f in b.numeric && f !in todo :: NumericWithin(a, b, f)
      invariant bInA == forall f | f in a.numeric && f in b.numeric && f !in todo :: NumericWithin(b, a, f)
      decreases |todo|
    {
      var f :| f in todo;
      if f in b.numeric {
        IntersectSymmetric(a.numeric[f], b.numeric[f]);
        shared := true;
        if Intersect(a.numeric[f], b.numeric[f]).Empty() {
          clashes, aInB, bInA := clashes + {f}, false, false;
        } else {
          if !Contained(a.numeric[f], b.numeric[f]) { aInB := false; }
          if !Contained(b.numeric[f], a.numeric[f]) { bInA := false; }
        }
      }
      todo := todo - {f};
    }
  }

  /** The loop over the shared value sets. */
  method CompareSets(a: Constraints, b: Constraints) returns (clashes: set<string>, shared: bool, aInB: bool, bInA: bool)
    ensures forall f :: f in clashes <==> SetClash(a, b, f)
    ensures shared == exists f :: f in a.inSets && f in b.inSets
    ensures aInB == forall f | f in a.inSets && f in b.inSets :: SetWithin(a, b, f)
    ensures bInA == forall f | f in a.inSets && f in b.inSets :: SetWithin(b, a, f)
  {
    clashes, shared, aInB, bInA := {}, false, true, true;
    var todo := a.inSets.Keys;
    while todo != {}
      invariant todo <= a.inSets.Keys
      invariant forall f :: f in clashes <==> SetClash(a, b, f) && f !in todo
      invariant shared == exists f :: f in a.inSets && f in b.inSets && f !in todo
      invariant aInB == forall f | f in a.inSets && f in b.inSets && f !in todo :: SetWithin(a, b, f)
      invariant bInA == forall f | f in a.inSets && f in b.inSets && f !in todo :: SetWithin(b, a, f)
      decreases |todo|
    {
      var f :| f in todo;
      if f in b.inSets {
        shared := true;
        if a.inSets[f] * b.inSets[f] == {} {
          clashes, aInB, bInA := clashes + {f}, false, false;
        } else {
          if !(a.inSets[f] <= b.inSets[f]) { aInB := false; }
          if !(b.inSets[f] <= a.inSets[f]) { bInA := false; }
        }
      }
      todo := todo - {f};
    }
  }

  /** The comparison of two rules. */
  method ComparePair(a: Constraints, b: Constraints) returns (clashes: set<string>, stricter: bool, looser: bool)
    ensures forall f :: f in clashes <==> Clash(a, b, f)
    ensures stricter == Stricter(a, b) && looser == (Stricter(b, a) && !stricter)
  {
    hide Intersect, Contained;
    var numbers, sharedNumbers, aNumbers, bNumbers := CompareNumeric(a, b);
    var sets, sharedSets, aSets, bSets := CompareSets(a, b);
    SharesIff(a, b);
    SharesIff(b, a);
    clashes := numbers + sets;
    var shared, aInB, bInA := sharedNumbers || sharedSets, aNumbers && aSets, bNumbers && bSets;
    stricter := shared && aInB && !bInA;
    looser := !stricter && shared && bInA && !aInB;
  }

  lemma SharesIff(a: Constraints, b: Constraints)
    ensures Shares(a, b) <==> (exists f :: f in a.numeric && f in b.numeric) || (exists f :: f in a.inSets && f in b.inSets)
  {
    if f :| f in a.numeric && f in b.numeric { assert f in a.numeric.Keys * b.numeric.Keys; }
    if f :| f in a.inSets && f in b.inSets { assert f in a.inSets.Keys * b.inSets.Keys; }
  }

  /** What `analyze_conflicts` reports: rule numbers, and the fields of conflicts. */
  datatype Report = Report(dead: set<nat>, conflicts: set<(nat, nat, string)>, stricter: set<(nat, nat)>)

  /** `analyze_conflicts`. */
  method AnalyzeConflicts(rules: seq<Cond>) returns (report: Report)
    ensures forall i: nat :: i in report.dead <==> i < |rules| && Of(rules[i]).dead
    ensures forall i: nat, j: nat, f: string ::
              (i, j, f) in report.conflicts <==> i < j < |rules| && Clash(Of(rules[i]), Of(rules[j]), f)
    ensures forall i: nat, j: nat ::
              (i, j) in report.stricter <==> i < |rules| && j < |rules| && i != j && Stricter(Of(rules[i]), Of(rules[j]))
  {
    hide *;
    var dead: set<nat> := {};
    var i: nat := 0;
    while i < |rules|
      invariant 0 <= i <= |rules|
      invariant forall k: nat :: k in dead <==> k < i && Of(rules[k]).dead
    {
      if Of(rules[i]).dead { dead := dead + {i}; }
      i := i + 1;
    }
    report := Report(dead, {}, {});
    NothingReported(rules, dead);
    i := 0;
    while i < |rules|
      invariant 0 <= i <= |rules| && report.dead == dead
      invariant Reported(rules, report, i, 0)
    {
      report := CompareRow(rules, i, report);
      i := i + 1;
    }
    ReportedAll(rules, report);
  }

  /** Whether the pair (i, j), i before j, comes before row `row` or in it before column `column`. */
  predicate Seen(i: nat, j: nat, row: nat, column: nat) {
    i < j && (i < row || (i == row && j < column))
  }

  ghost predicate Reported(rules: seq<Cond>, report: Report, row: nat, column: nat) {
    && (forall i: nat, j: nat, f: string ::
          (i, j, f) in report.conflicts <==> j < |rules| && Seen(i, j, row, column) && Clash(Of(rules[i]), Of(rules[j]), f))
    && (forall i: nat, j: nat ::
          (i, j) in report.stricter <==>
          i < |rules| && j < |rules| && (Seen(i, j, row, column) || Seen(j, i, row, column)) && Stricter(Of(rules[i]), Of(rules[j])))
  }

  lemma NothingReported(rules: seq<Cond>, dead: set<nat>)
    ensures Reported(rules, Report(dead, {}, {}), 0, 0)
  {
    hide Clash, Stricter, Of;
  }

  lemma ReportedAll(rules: seq<Cond>, report: Report)
    requires Reported(rules, report, |rules|, 0)
    ensures forall i: nat, j: nat, f: string ::
              (i, j, f) in report.conflicts <==> i < j < |rules| && Clash(Of(rules[i]), Of(rules[j]), f)
    ensures forall i: nat, j: nat ::
              (i, j) in report.stricter <==> i < |rules| && j < |rules| && i != j && Stricter(Of(rules[i]), Of(rules[j]))
  {
    hide Clash, Stricter, Of;
  }

  /** The pairs of rule i with the rules behind it. */
  method CompareRow(rules: seq<Cond>, i: nat, before: Report) returns (report: Report)
    requires i < |rules| && Reported(rules, before, i, 0)
    ensures Reported(rules, report, i + 1, 0) && report.dead == before.dead
  {
    hide *;
    report := before;
    var j: nat := i + 1;
    RowStarts(rules, report, i);
    while j < |rules|
      invariant i < j <= |rules| && Reported(rules, report, i, j) && report.dead == before.dead
    {
      var clashes, stricter, looser := ComparePair(Of(rules[i]), Of(rules[j]));
      var more: set<(nat, nat, string)> := set f | f in clashes :: (i, j, f);
      var pairs: set<(nat, nat)> := (if stricter then {(i, j)} else {}) + if looser then {(j, i)} else {};
      var after := Report(report.dead, report.conflicts + more, report.stricter + pairs);
      PairReported(rules, report, after, i, j, clashes, stricter, looser);
      report := after;
      j := j + 1;
    }
    RowEnds(rules, report, i);
  }

  lemma RowStarts(rules: seq<Cond>, report: Report, i: nat)
    requires Reported(rules, report, i, 0)
    ensures Reported(rules, report, i, i + 1)
  {
    hide Clash, Stricter, Of;
  }

  lemma RowEnds(rules: seq<Cond>, report: Report, i: nat)
    requires Reported(rules, report, i, |rules|)
    ensures Reported(rules, report, i + 1, 0)
  {
    hide Clash, Stricter, Of;
  }

  /** Of two rules at most one is stricter. */
  lemma PairReported(rules: seq<Cond>, report: Report, after: Report, i: nat, j: nat, clashes: set<string>, stricter: bool, looser: bool)
    requires i < j < |rules| && Reported(rules, report, i, j)
    requires forall f :: f in clashes <==> Clash(Of(rules[i]), Of(rules[j]), f)
    requires stricter == Stricter(Of(rules[i]), Of(rules[j]))
    requires looser == (Stricter(Of(rules[j]), Of(rules[i])) && !stricter)
    requires after.conflicts == report.conflicts + set f | f in clashes :: (i, j, f)
    requires after.stricter == report.stricter + (if stricter then {(i, j)} else {}) + (if looser then {(j, i)} else {})
    ensures Reported(rules, after, i, j + 1)
  {
    hide Clash, Of, Within, Shares;
    assert !(Stricter(Of(rules[i]), Of(rules[j])) && Stricter(Of(rules[j]), Of(rules[i])));
  }

  predicate NumericClash(a: Constraints, b: Constraints, f: string) {
    f in a.numeric && f in b.numeric && Intersect(a.numeric[f], b.numeric[f]).Empty()
  }

  predicate SetClash(a: Constraints, b: Constraints, f: string) {
    f in a.inSets && f in b.inSets && a.inSets[f] * b.inSets[f] == {}
  }

  lemma IntersectSymmetric(a: Interval, b: Interval)
    ensures Intersect(a, b).Empty() == Intersect(b, a).Empty()
  {
  }
}
