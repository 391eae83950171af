/** One row's decision: the winning rule, the score, and the groups of rows they form. */
module Decision {
  import opened ByteMask

  /** What the reduction knows of a rule. */
  datatype Rule = Rule(rank: int, code: int, severity: int, priority: int, contribution: real, cap: real, shadow: bool)

  /** A row's accumulators; winner is -1 while the default decision stands. */
  datatype Row = Row(score: real, rank: int, severity: int, priority: int, code: int, winner: int)

  const LOWEST := -0x8000_0000

  function Start(defaultRank: int, defaultCode: int): Row {
    Row(0.0, defaultRank, -1, LOWEST, defaultCode, -1)
  }

  /** The comparison of the reduction loop, most significant first. */
  predicate Beats(rank: int, severity: int, priority: int, other: Row) {
    || rank > other.rank
    || (rank == other.rank && severity > other.severity)
    || (rank == other.rank && severity == other.severity && priority > other.priority)
  }

  function Capped(rule: Rule, score: real): real {
    var s := score + rule.contribution;
    if rule.cap > 0.0 && s > rule.cap then rule.cap else s
  }

  /** What matching rule r does to a row. */
  function Match(rule: Rule, r: nat, row: Row): Row {
    if rule.shadow then row
    else
      var scored := row.(score := Capped(rule, row.score));
      if Beats(rule.rank, rule.severity, rule.priority, row) then
        scored.(rank := rule.rank, severity := rule.severity, priority := rule.priority, code := rule.code, winner := r)
      else scored
  }

  /** A row after rules 0, ..., r - 1, of which `hits` match. */
  function Reduced(rules: seq<Rule>, hits: seq<bool>, start: Row, r: nat): Row
    requires r <= |rules| == |hits|
  {
    if r == 0 then start
    else
      var row := Reduced(rules, hits, start, r - 1);
      if hits[r - 1] then Match(rules[r - 1], r - 1, row) else row
  }

  // ---- The winner ---------------------------------------------------------------------------------------

  predicate Candidate(rules: seq<Rule>, hits: seq<bool>, k: nat)
    requires |rules| == |hits|
  {
    k < |rules| && hits[k] && !rules[k].shadow
  }

  /** (rank, severity, priority) of a is lexicographically greater than that of b. */
  predicate Above(a: Rule, b: Rule) {
    || a.rank > b.rank
    || (a.rank == b.rank && a.severity > b.severity)
    || (a.rank == b.rank && a.severity == b.severity && a.priority > b.priority)
  }

  /** Rule w wins among the first r: no matching rule is above it, it is above every earlier one, and
      above the default. */
  predicate Wins(rules: seq<Rule>, hits: seq<bool>, start: Row, r: nat, w: nat)
    requires r <= |rules| == |hits|
  {
    && w < r && Candidate(rules, hits, w)
    && Beats(rules[w].rank, rules[w].severity, rules[w].priority, start)
    && (forall k | 0 <= k < r && Candidate(rules, hits, k) :: !Above(rules[k], rules[w]))
    && (forall k | 0 <= k < w && Candidate(rules, hits, k) :: Above(rules[w], rules[k]))
  }

  predicate DefaultStands(rules: seq<Rule>, hits: seq<bool>, start: Row, r: nat)
    requires r <= |rules| == |hits|
  {
    forall k | 0 <= k < r && Candidate(rules, hits, k) ::
      !Beats(rules[k].rank, rules[k].severity, rules[k].priority, start)
  }

  /** The loop leaves the earliest matching non-shadow rule with the greatest key, or the default when
      none is above it. */
  lemma {:induction false} WinnerExact(rules: seq<Rule>, hits: seq<bool>, start: Row, r: nat)
    requires r <= |rules| == |hits| && start.winner == -1
    ensures var row := Reduced(rules, hits, start, r);
            if row.winner == -1 then
              DefaultStands(rules, hits, start, r) && row == start.(score := row.score)
            else
              && 0 <= row.winner && Wins(rules, hits, start, r, row.winner)
              && var w := rules[row.winner];
                 row == Row(row.score, w.rank, w.severity, w.priority, w.code, row.winner)
  {
    if r != 0 {
      WinnerExact(rules, hits, start, r - 1);
      var row := Reduced(rules, hits, start, r - 1);
      if row.winner != -1 && Candidate(rules, hits, r - 1) && Above(rules[r - 1], rules[row.winner]) {
        forall k | 0 <= k < r - 1 && Candidate(rules, hits, k) ensures Above(rules[r - 1], rules[k]) {
          assert !Above(rules[k], rules[row.winner]);
        }
      }
    }
  }

  /** The winner is w exactly when rule w wins in that sense, so at most one rule does. */
  lemma WinnerIff(rules: seq<Rule>, hits: seq<bool>, start: Row, r: nat, w: nat)
    requires r <= |rules| == |hits| && start.winner == -1
    ensures Reduced(rules, hits, start, r).winner == w <==> Wins(rules, hits, start, r, w)
  {
    WinnerExact(rules, hits, start, r);
  }

  /** Severities start at 0, so a matching rule of the default's own rank already replaces the default. */
  lemma DefaultIff(rules: seq<Rule>, hits: seq<bool>, defaultRank: int, defaultCode: int, r: nat)
    requires r <= |rules| == |hits| && forall k | 0 <= k < |rules| :: rules[k].severity >= 0
    ensures Reduced(rules, hits, Start(defaultRank, defaultCode), r).winner == -1
            <==> forall k | 0 <= k < r && Candidate(rules, hits, k) :: rules[k].rank < defaultRank
  {
    WinnerExact(rules, hits, Start(defaultRank, defaultCode), r);
  }

  /** The winner, written out: no matching rule has a greater rank, at its rank none a greater severity, at both none a
      greater priority, and on a full tie it comes first. */
  lemma WinnerSays(rules: seq<Rule>, hits: seq<bool>, defaultRank: int, defaultCode: int, k: nat)
    requires k < |rules| == |hits| && hits[k] && !rules[k].shadow
    ensures var row, rule := Reduced(rules, hits, Start(defaultRank, defaultCode), |rules|), rules[k];
            if row.winner == -1 then
              && row.rank == defaultRank && row.code == defaultCode
              && rule.rank <= defaultRank
              && (rule.rank == defaultRank ==> rule.severity <= -1 && (rule.severity == -1 ==> rule.priority <= -2147483648))
            else
              && 0 <= row.winner < |rules| && hits[row.winner] && !rules[row.winner].shadow && row.code == rules[row.winner].code
              && var best := rules[row.winner];
                 && rule.rank <= best.rank
                 && (rule.rank == best.rank ==> rule.severity <= best.severity)
                 && (rule.rank == best.rank && rule.severity == best.severity ==> rule.priority <= best.priority)
                 && (rule.rank == best.rank && rule.severity == best.severity && rule.priority == best.priority ==> row.winner <= k)
  {
    WinnerExact(rules, hits, Start(defaultRank, defaultCode), |rules|);
  }

  // ---- The score --------------------------------------------------------------------------------------------

  /** The matching non-shadow rules below r, in order. */
  function Scoring(rules: seq<Rule>, hits: seq<bool>, r: nat): seq<Rule>
    requires r <= |rules| == |hits|
  {
    if r == 0 then []
    else if Candidate(rules, hits, r - 1) then Scoring(rules, hits, r - 1) + [rules[r - 1]]
    else Scoring(rules, hits, r - 1)
  }

  /** Contributions added one by one, each sum cut at its rule's positive cap. */
  function Score(rules: seq<Rule>, score: real): real {
    if rules == [] then score else Score(rules[1..], Capped(rules[0], score))
  }

  lemma {:induction false} ScoreBack(rules: seq<Rule>, rule: Rule, score: real)
    ensures Score(rules + [rule], score) == Capped(rule, Score(rules, score))
  {
    if rules == [] {
      assert rules + [rule] == [rule];
    } else {
      assert (rules + [rule])[1..] == rules[1..] + [rule];
      ScoreBack(rules[1..], rule, Capped(rules[0], score));
    }
  }

  lemma {:induction false} ScoreExact(rules: seq<Rule>, hits: seq<bool>, start: Row, r: nat)
    requires r <= |rules| == |hits|
    ensures Reduced(rules, hits, start, r).score == Score(Scoring(rules, hits, r), start.score)
  {
    if r != 0 {
      ScoreExact(rules, hits, start, r - 1);
      if Candidate(rules, hits, r - 1) { ScoreBack(Scoring(rules, hits, r - 1), rules[r - 1], start.score); }
    }
  }

  function Total(rules: seq<Rule>): real {
    if rules == [] then 0.0 else rules[0].contribution + Total(rules[1..])
  }

  /** With contributions that are never negative, a score is the plain sum or stopped at some cap. */
  lemma {:induction false} ScoreBounds(rules: seq<Rule>, score: real)
    requires forall k | 0 <= k < |rules| :: rules[k].contribution >= 0.0
    ensures Score(rules, score) <= score + Total(rules)
    ensures (forall k | 0 <= k < |rules| :: rules[k].cap <= 0.0) ==> Score(rules, score) == score + Total(rules)
  {
    if rules != [] { ScoreBounds(rules[1..], Capped(rules[0], score)); }
  }

  /** A score ends at or below the last matching rule's positive cap. */
  lemma LastCapHolds(rules: seq<Rule>, rule: Rule, score: real)
    requires rule.cap > 0.0
    ensures Score(rules + [rule], score) <= rule.cap
  {
    ScoreBack(rules, rule, score);
  }

  /** One more matching rule adds its contribution, or stops the score at exactly its positive cap. */
  lemma ScoreSays(rules: seq<Rule>, rule: Rule, score: real)
    ensures var before, after := Score(rules, score), Score(rules + [rule], score);
            && (rule.cap <= 0.0 || before + rule.contribution <= rule.cap ==> after == before + rule.contribution)
            && (rule.cap > 0.0 && before + rule.contribution > rule.cap ==> after == rule.cap)
    ensures Score([], score) == score
  {
    ScoreBack(rules, rule, score);
  }

  /** The same of the reduction of a row: rules that do not match, and shadow rules, leave it as it is. */
  lemma ReducedScoreSays(rules: seq<Rule>, hits: seq<bool>, start: Row, r: nat)
    requires r < |rules| == |hits|
    ensures var before, after, rule := Reduced(rules, hits, start, r).score, Reduced(rules, hits, start, r + 1).score, rules[r];
            && (!hits[r] || rule.shadow ==> after == before)
            && (hits[r] && !rule.shadow && (rule.cap <= 0.0 || before + rule.contribution <= rule.cap) ==> after == before + rule.contribution)
            && (hits[r] && !rule.shadow && rule.cap > 0.0 && before + rule.contribution > rule.cap ==> after == rule.cap)
    ensures Reduced(rules, hits, start, 0) == start
  {
  }

  /** A score is the plain sum, or exactly some positive cap and the contributions behind it. */
  lemma {:induction false} ScoreShape(rules: seq<Rule>, score: real)
    ensures Score(rules, score) == score + Total(rules)
            || exists k :: 0 <= k < |rules| && rules[k].cap > 0.0 && Score(rules, score) == rules[k].cap + Total(rules[k + 1..])
  {
    if rules != [] {
      var rest, next := rules[1..], Capped(rules[0], score);
      ScoreShape(rest, next);
      if Score(rest, next) == next + Total(rest) {
        if next == rules[0].cap && rules[0].cap > 0.0 { assert rules[0 + 1..] == rest; }
      } else {
        var k :| 0 <= k < |rest| && rest[k].cap > 0.0 && Score(rest, next) == rest[k].cap + Total(rest[k + 1..]);
        assert rest[k] == rules[k + 1] && rest[k + 1..] == rules[k + 1 + 1..];
      }
    }
  }

  /** With contributions that are never negative it is the least of these. */
  lemma {:induction false} ScoreIsLeast(rules: seq<Rule>, score: real, k: nat)
    requires forall i | 0 <= i < |rules| :: rules[i].contribution >= 0.0
    requires k < |rules| && rules[k].cap > 0.0
    ensures Score(rules, score) <= rules[k].cap + Total(rules[k + 1..])
  {
    var rest := rules[1..];
    if k == 0 {
      ScoreBounds(rest, Capped(rules[0], score));
      assert rules[0 + 1..] == rest;
    } else {
      ScoreIsLeast(rest, Capped(rules[0], score), k - 1);
      assert rest[k - 1 + 1..] == rules[k + 1..];
    }
  }

  // ---- Groups ---------------------------------------------------------------------------------------------------

  function Labelled(labels: seq<string>, tag: string): (rows: seq<bool>)
    ensures |rows| == |labels|
  {
    seq(|labels|, i requires 0 <= i < |labels| => labels[i] == tag)
  }

  /** The groups after the first n rows: one per tag in use, holding its rows in ascending order. */
  ghost predicate Grouped(groups: map<string, seq<nat>>, labels: seq<string>, n: nat)
    requires n <= |labels|
  {
    && (forall tag | tag in groups :: groups[tag] == IndicesBelow(Labelled(labels, tag), n))
    && (forall i: nat | i < n :: labels[i] in groups)
    && (forall tag | tag in groups :: groups[tag] != [])
  }

  /** The loop that fills `grouped_decision_indices`. */
  method GroupRows(labels: seq<string>) returns (groups: map<string, seq<nat>>)
    ensures Grouped(groups, labels, |labels|)
  {
    groups := map[];
    var i := 0;
    while i < |labels|
      invariant 0 <= i <= |labels|
      invariant Grouped(groups, labels, i)
    {
      hide Grouped;
      var tag := labels[i];
      GroupedStep(groups, labels, i);
      groups := groups[tag := (if tag in groups then groups[tag] else []) + [i]];
      i := i + 1;
    }
  }

  lemma GroupedStep(groups: map<string, seq<nat>>, labels: seq<string>, i: nat)
    requires i < |labels| && Grouped(groups, labels, i)
    ensures Grouped(groups[labels[i] := (if labels[i] in groups then groups[labels[i]] else []) + [i]], labels, i + 1)
  {
    var tag := labels[i];
    var after := groups[tag := (if tag in groups then groups[tag] else []) + [i]];
    if tag !in groups { NoneBelow(labels, tag, i); }
    forall other | other in after ensures after[other] == IndicesBelow(Labelled(labels, other), i + 1) {
      IndicesStep(Labelled(labels, other), i);
    }
  }

  lemma IndicesStep(rows: seq<bool>, k: nat)
    requires k < |rows|
    ensures IndicesBelow(rows, k + 1) == if rows[k] then IndicesBelow(rows, k) + [k] else IndicesBelow(rows, k)
  {
  }

  lemma {:induction false} NoneBelow(labels: seq<string>, tag: string, n: nat)
    requires n <= |labels| && forall i: nat | i < n :: labels[i] != tag
    ensures IndicesBelow(Labelled(labels, tag), n) == []
  {
    if n != 0 { NoneBelow(labels, tag, n - 1); }
  }

  /** The groups partition the rows: row i is in its own tag's group and in no other. */
  lemma GroupsPartition(groups: map<string, seq<nat>>, labels: seq<string>, i: nat, tag: string)
    requires Grouped(groups, labels, |labels|) && tag in groups
    ensures i in groups[tag] <==> i < |labels| && labels[i] == tag
    ensures forall a, b | 0 <= a < b < |groups[tag]| :: groups[tag][a] < groups[tag][b]
  {
    IndicesBelowExact(Labelled(labels, tag), |labels|);
  }
}
