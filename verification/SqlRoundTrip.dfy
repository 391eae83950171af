/** Every printable tree comes back from the tokens it prints to, exactly within the nesting limit. */
module SqlRoundTrip {
  import opened Comparisons
  import opened SqlExpr
  import opened Segments

  // ---- Printing ------------------------------------------------------------------------------------------------

  function Word(kw: string): Token {
    Ident(kw)
  }

  function NumOpText(op: NumOp): string {
    match op
    case GT => ">"
    case LT => "<"
    case GTE => ">="
    case LTE => "<="
    case EQ => "="
    case NEQ => "!="
  }

  function LikePattern(op: LikeOp, core: string): string {
    match op
    case CONTAINS => "%" + core + "%"
    case STARTS_WITH => core + "%"
    case ENDS_WITH => "%" + core
  }

  /** Values of an IN list behind the first. */
  function MoreValues(values: seq<string>): seq<Token> {
    if values == [] then [] else [Comma, Text(values[0])] + MoreValues(values[1..])
  }

  function ListTokens(values: seq<string>): seq<Token> {
    if values == [] then [] else [Text(values[0])] + MoreValues(values[1..])
  }

  function ComparisonTokens(c: Comparison): seq<Token> {
    match c
    case NullTest(f, false) => [Ident(f), Word("IS"), Word("NULL")]
    case NullTest(f, true) => [Ident(f), Word("IS"), Word("NOT"), Word("NULL")]
    case In(f, false, values) => [Ident(f), Word("IN"), LParen] + (ListTokens(values) + [RParen])
    case In(f, true, values) => [Ident(f), Word("NOT"), Word("IN"), LParen] + (ListTokens(values) + [RParen])
    case Between(f, lower, upper) => [Ident(f), Word("BETWEEN"), Number(lower), Word("AND"), Number(upper)]
    case Like(f, op, core) => [Ident(f), Word("LIKE"), Text(LikePattern(op, core))]
    case Numeric(f, op, n) => [Ident(f), Op(NumOpText(op)), Number(n)]
    case Equals(f, negated, s) => [Ident(f), Op(if negated then "!=" else "="), Text(s)]
  }

  /** An operand of NOT or AND: a connective is put in parentheses. */
  function NotTokens(e: Expr): seq<Token>
    decreases e, 0
  {
    match e
    case Leaf(c) => ComparisonTokens(c)
    case Not(d) => [Word("NOT")] + NotTokens(d)
    case And(kids) => [LParen] + (AndTokens(kids) + [RParen])
    case Or(kids) => [LParen] + (OrTokens(kids) + [RParen])
  }

  function AndTokens(kids: seq<Expr>): seq<Token>
    decreases kids, 1
  {
    if kids == [] then [] else NotTokens(kids[0]) + AndTail(kids[1..])
  }

  function AndTail(kids: seq<Expr>): seq<Token>
    decreases kids, 0
  {
    if kids == [] then [] else [Word("AND")] + (NotTokens(kids[0]) + AndTail(kids[1..]))
  }

  /** An operand of OR: a conjunction needs no parentheses there. */
  function OperandTokens(e: Expr): seq<Token>
    decreases e, 1
  {
    if e.And? then AndTokens(e.kids) else NotTokens(e)
  }

  function OrTokens(kids: seq<Expr>): seq<Token>
    decreases kids, 1
  {
    if kids == [] then [] else OperandTokens(kids[0]) + OrTail(kids[1..])
  }

  function OrTail(kids: seq<Expr>): seq<Token>
    decreases kids, 0
  {
    if kids == [] then [] else [Word("OR")] + (OperandTokens(kids[0]) + OrTail(kids[1..]))
  }

  /** The tokens of a whole expression. */
  function Print(e: Expr): seq<Token> {
    if e.Or? then OrTokens(e.kids) else OperandTokens(e)
  }

  // ---- Which trees have tokens of their own --------------------------------------------------------------------

  /** A pattern's core keeps its test only if it does not itself begin or end like the missing wildcard. */
  predicate LikePrintable(op: LikeOp, core: string) {
    match op
    case CONTAINS => true
    case STARTS_WITH => core != "" && core[0] != '%'
    case ENDS_WITH => core != "" && core[|core| - 1] != '%'
  }

  lemma LikeRoundTripIff(field: string, op: LikeOp, core: string)
    ensures LikeOf(field, LikePattern(op, core)) == Like(field, op, core) <==> LikePrintable(op, core)
  {
    var pattern := LikePattern(op, core);
    match op
    case CONTAINS =>
      assert pattern[1..] == core + "%";
      assert (core + "%")[..|core|] == core;
    case STARTS_WITH =>
      assert pattern[..|core|] == core;
    case ENDS_WITH =>
      assert pattern[1..] == core;
  }

  predicate ComparisonPrintable(c: Comparison) {
    && !Keyword(Ident(c.field), "NOT")
    && (c.Like? ==> LikePrintable(c.op, c.core))
  }

  /** Connectives have at least two operands, and no field is called NOT. */
  predicate Printable(e: Expr)
    decreases e
  {
    match e
    case Leaf(c) => ComparisonPrintable(c)
    case Not(d) => Printable(d)
    case And(kids) => |kids| >= 2 && forall k | 0 <= k < |kids| :: Printable(kids[k])
    case Or(kids) => |kids| >= 2 && forall k | 0 <= k < |kids| :: Printable(kids[k])
  }

  // ---- How deep the parser must go ------------------------------------------------------------------------------

  function Max(a: nat, b: nat): nat {
    if a < b then b else a
  }

  /** Guard levels used by `parse_not`, `parse_and` on a conjunction, `parse_and` on an operand of OR. */
  function NeedNot(e: Expr): nat
    decreases e, 0
  {
    match e
    case Leaf(_) => 1
    case Not(d) => 1 + NeedNot(d)
    case And(kids) => 2 + NeedAnd(kids)
    case Or(kids) => 2 + NeedOr(kids)
  }

  function NeedAnd(kids: seq<Expr>): nat
    decreases kids
  {
    if kids == [] then 0 else Max(NeedNot(kids[0]), NeedAnd(kids[1..]))
  }

  function NeedOperand(e: Expr): nat
    decreases e, 1
  {
    if e.And? then NeedAnd(e.kids) else NeedNot(e)
  }

  function NeedOr(kids: seq<Expr>): nat
    decreases kids
  {
    if kids == [] then 0 else Max(NeedOperand(kids[0]), NeedOr(kids[1..]))
  }

  function Need(e: Expr): nat {
    1 + if e.Or? then NeedOr(e.kids) else NeedOperand(e)
  }

  /** Success inside the limit, the depth error outside. */
  function Outcome(e: Expr, depth: nat, need: nat, next: nat): Parsed<Expr> {
    if depth + need <= MAX_DEPTH then Ok(e, next) else Fail(TOO_DEEP)
  }

  // ---- Comparisons --------------------------------------------------------------------------------------------------

  predicate Capital(kw: string) {
    forall k | 0 <= k < |kw| :: !('a' <= kw[k] <= 'z')
  }

  lemma WordIs(kw: string, other: string)
    requires Capital(kw)
    ensures Keyword(Word(kw), other) <==> kw == other
  {
    assert Upper(kw) == kw;
  }

  lemma TokenAt(part: seq<Token>, base: nat, ts: seq<Token>, k: nat)
    requires Sits(part, base, ts) && k < |part|
    ensures base + k < |ts| && At(ts, base + k) == part[k]
  {
  }

  lemma {:induction false} ListParses(render: real -> string, ts: seq<Token>, p: nat, done: seq<string>, values: seq<string>)
    requires Sits(MoreValues(values), p, ts) && At(ts, p + |MoreValues(values)|).RParen?
    ensures p <= |ts| && ListNext(render, ts, p, done) == Ok(done + values, p + |MoreValues(values)|)
    decreases |values|
  {
    if values == [] {
      assert done + values == done;
    } else {
      var rest := MoreValues(values[1..]);
      SitsSplit([Comma, Text(values[0])], rest, p, ts);
      TokenAt([Comma, Text(values[0])], p, ts, 0);
      TokenAt([Comma, Text(values[0])], p, ts, 1);
      ListParses(render, ts, p + 2, done + [values[0]], values[1..]);
      assert done + values == (done + [values[0]]) + values[1..];
    }
  }

  lemma InParses(render: real -> string, ts: seq<Token>, p: nat, field: string, negated: bool, values: seq<string>)
    requires At(ts, p).LParen? && p < |ts| && Sits(ListTokens(values) + [RParen], p + 1, ts)
    ensures InAt(render, ts, p, field, negated) == Ok(In(field, negated, values), p + 2 + |ListTokens(values)|)
  {
    SitsSplit(ListTokens(values), [RParen], p + 1, ts);
    SitsOne(RParen, p + 1 + |ListTokens(values)|, ts);
    if values != [] {
      SitsSplit([Text(values[0])], MoreValues(values[1..]), p + 1, ts);
      SitsOne(Text(values[0]), p + 1, ts);
      ListParses(render, ts, p + 2, [values[0]], values[1..]);
      assert [values[0]] + values[1..] == values;
      assert [] + [values[0]] == [values[0]];
    }
  }

  lemma KeywordsDiffer()
    ensures Capital("IS") && Capital("NOT") && Capital("IN") && Capital("NULL") && Capital("BETWEEN") && Capital("LIKE")
    ensures Capital("AND") && Capital("OR") && Capital("ILIKE")
    ensures "IS" != "IN" && "NOT" != "AND"
  {
    assert "IS"[1] != "IN"[1];
    assert "NOT"[0] != "AND"[0];
  }

  lemma ComparisonParses(render: real -> string, ts: seq<Token>, pos: nat, c: Comparison)
    requires Sits(ComparisonTokens(c), pos, ts) && ComparisonPrintable(c)
    ensures pos < |ts| && At(ts, pos) == Ident(c.field)
    ensures ComparisonAt(render, ts, pos) == Ok(c, pos + |ComparisonTokens(c)|)
  {
    var tokens := ComparisonTokens(c);
    TokenAt(tokens, pos, ts, 0);
    TokenAt(tokens, pos, ts, 1);
    TokenAt(tokens, pos, ts, 2);
    match c
    case NullTest(_, _) => NullParses(ts, pos, c);
    case In(_, negated, values) => ListComparisonParses(render, ts, pos, c);
    case Between(_, _, _) =>
      TokenAt(tokens, pos, ts, 3);
      TokenAt(tokens, pos, ts, 4);
      BetweenWords();
    case Like(f, op, core) =>
      LikeRoundTripIff(f, op, core);
      LikeWords();
    case Numeric(_, _, _) => NumOpRoundTrip(c.numOp);
    case Equals(_, _, _) =>
  }

  lemma NumOpRoundTrip(op: NumOp)
    ensures NumOpOf(NumOpText(op)) == Ok(op, 0)
  {
    match op
    case GT =>
    case LT => assert "<" != ">";
    case GTE => assert ">=" != ">" && ">=" != "<";
    case LTE => assert "<=" != ">=" by { assert "<="[0] != ">="[0]; }
    case EQ => assert "=" != ">" && "=" != "<";
    case NEQ => assert "!=" != ">=" && "!=" != "<=" && "!=" != "==" by { assert "!="[0] != ">="[0] && "!="[0] != "<="[0] && "!="[0] != "=="[0]; }
  }

  lemma BetweenWords()
    ensures Keyword(Word("BETWEEN"), "BETWEEN") && Keyword(Word("AND"), "AND")
    ensures forall kw | kw in ["IS", "NOT", "IN"] :: !Keyword(Word("BETWEEN"), kw)
  {
    KeywordsDiffer();
    forall kw: string ensures Keyword(Word("BETWEEN"), kw) <==> kw == "BETWEEN" { WordIs("BETWEEN", kw); }
    WordIs("AND", "AND");
  }

  lemma LikeWords()
    ensures Keyword(Word("LIKE"), "LIKE")
    ensures forall kw | kw in ["IS", "NOT", "IN", "BETWEEN"] :: !Keyword(Word("LIKE"), kw)
  {
    KeywordsDiffer();
    forall kw: string ensures Keyword(Word("LIKE"), kw) <==> kw == "LIKE" { WordIs("LIKE", kw); }
  }

  lemma NullParses(ts: seq<Token>, pos: nat, c: Comparison)
    requires c.NullTest? && Sits(ComparisonTokens(c), pos, ts) && pos < |ts|
    ensures pos + 2 <= |ts| && Keyword(At(ts, pos + 1), "IS")
    ensures NullAt(ts, pos + 2, c.field) == Ok(c, pos + |ComparisonTokens(c)|)
  {
    var tokens := ComparisonTokens(c);
    KeywordsDiffer();
    WordIs("IS", "IS");
    WordIs("NOT", "NOT");
    WordIs("NULL", "NOT");
    WordIs("NULL", "NULL");
    TokenAt(tokens, pos, ts, 1);
    TokenAt(tokens, pos, ts, 2);
    if c.negated { TokenAt(tokens, pos, ts, 3); }
  }

  lemma ListComparisonParses(render: real -> string, ts: seq<Token>, pos: nat, c: Comparison)
    requires c.In? && Sits(ComparisonTokens(c), pos, ts) && pos < |ts| && At(ts, pos).Ident? && ts[pos].text == c.field
    ensures ComparisonAt(render, ts, pos) == Ok(c, pos + |ComparisonTokens(c)|)
  {
    var tokens := ComparisonTokens(c);
    KeywordsDiffer();
    WordIs("IN", "IN");
    WordIs("IN", "IS");
    WordIs("IN", "NOT");
    WordIs("NOT", "NOT");
    WordIs("NOT", "IS");
    var head := if c.negated then [Ident(c.field), Word("NOT"), Word("IN"), LParen] else [Ident(c.field), Word("IN"), LParen];
    SitsSplit(head, ListTokens(c.values) + [RParen], pos, ts);
    TokenAt(head, pos, ts, 1);
    TokenAt(head, pos, ts, 2);
    if c.negated { TokenAt(head, pos, ts, 3); }
    InParses(render, ts, pos + |head| - 1, c.field, c.negated, c.values);
  }

  // ---- Connectives --------------------------------------------------------------------------------------------------

  predicate NoAnd(t: Token) {
    !Keyword(t, "AND")
  }

  predicate NoConnective(t: Token) {
    !Keyword(t, "AND") && !Keyword(t, "OR")
  }

  ghost predicate AllPrintable(kids: seq<Expr>) {
    forall k | 0 <= k < |kids| :: Printable(kids[k])
  }

  lemma ConnectiveWords()
    ensures Keyword(Word("AND"), "AND") && Keyword(Word("OR"), "OR") && Keyword(Word("NOT"), "NOT")
    ensures !Keyword(Word("OR"), "AND")
  {
    KeywordsDiffer();
    WordIs("AND", "AND");
    WordIs("OR", "OR");
    WordIs("NOT", "NOT");
    WordIs("OR", "AND");
  }

  lemma LeafParses(render: real -> string, ts: seq<Token>, pos: nat, depth: nat, c: Comparison)
    requires Sits(ComparisonTokens(c), pos, ts) && ComparisonPrintable(c)
    ensures pos <= |ts| && NotAt(render, ts, pos, depth) == Outcome(Leaf(c), depth, 1, pos + |ComparisonTokens(c)|)
  {
    hide ComparisonAt, ComparisonTokens;
    ComparisonParses(render, ts, pos, c);
  }

  /** An operand of NOT or AND, whatever stands behind it. */
  lemma {:induction false} NotParses(render: real -> string, ts: seq<Token>, pos: nat, depth: nat, e: Expr)
    requires Sits(NotTokens(e), pos, ts) && Printable(e)
    ensures pos <= |ts| && NotAt(render, ts, pos, depth) == Outcome(e, depth, NeedNot(e), pos + |NotTokens(e)|)
    decreases e, 0
  {
    hide NotAt, AndAt, OrAt, AndTokens, OrTokens, NeedAnd, NeedOr, Outcome, NoConnective, ComparisonTokens;
    match e
    case Leaf(c) => LeafParses(render, ts, pos, depth, c);
    case Not(d) =>
      SitsSplit([Word("NOT")], NotTokens(d), pos, ts);
      NotParses(render, ts, pos + 1, depth + 1, d);
      NegationParses(render, ts, pos, depth, d);
    case And(kids) =>
      SitsSplit([LParen], AndTokens(kids) + [RParen], pos, ts);
      SitsSplit(AndTokens(kids), [RParen], pos + 1, ts);
      SitsOne(RParen, pos + 1 + |AndTokens(kids)|, ts);
      Closing(ts, pos + 1 + |AndTokens(kids)|);
      AndParses(render, ts, pos + 1, depth + 2, kids);
      NeedsSome(kids);
      AloneInOr(render, ts, pos + 1, depth + 1, e, NeedAnd(kids), pos + 1 + |AndTokens(kids)|);
      ParenthesesParse(render, ts, pos, depth, e, 1 + NeedAnd(kids), pos + 1 + |AndTokens(kids)|);
    case Or(kids) =>
      SitsSplit([LParen], OrTokens(kids) + [RParen], pos, ts);
      SitsSplit(OrTokens(kids), [RParen], pos + 1, ts);
      SitsOne(RParen, pos + 1 + |OrTokens(kids)|, ts);
      Closing(ts, pos + 1 + |OrTokens(kids)|);
      OrParses(render, ts, pos + 1, depth + 1, kids);
      ParenthesesParse(render, ts, pos, depth, e, 1 + NeedOr(kids), pos + 1 + |OrTokens(kids)|);
  }

  lemma NegationParses(render: real -> string, ts: seq<Token>, pos: nat, depth: nat, d: Expr)
    requires Sits([Word("NOT")], pos, ts)
    requires pos + 1 <= |ts|
    requires NotAt(render, ts, pos + 1, depth + 1) == Outcome(d, depth + 1, NeedNot(d), pos + 1 + |NotTokens(d)|)
    ensures NotAt(render, ts, pos, depth) == Outcome(Not(d), depth, 1 + NeedNot(d), pos + 1 + |NotTokens(d)|)
  {
    hide NotTokens;
    SitsOne(Word("NOT"), pos, ts);
    ConnectiveWords();
    NeedsOne(d);
  }

  lemma NeedsOne(e: Expr)
    ensures NeedNot(e) >= 1
  {
  }

  lemma NeedsSome(kids: seq<Expr>)
    requires kids != []
    ensures NeedAnd(kids) >= 1 && AndTokens(kids) != []
  {
    NeedsOne(kids[0]);
    NotEmpty(kids[0]);
  }

  lemma Closing(ts: seq<Token>, p: nat)
    requires p < |ts| && ts[p] == RParen
    ensures At(ts, p).RParen? && NoConnective(At(ts, p)) && NoAnd(At(ts, p))
  {
  }

  lemma NotEmpty(e: Expr)
    ensures NotTokens(e) != []
  {
  }

  /** A parenthesised expression takes one level of `parse_not` more than its inside. */
  lemma ParenthesesParse(render: real -> string, ts: seq<Token>, pos: nat, depth: nat, e: Expr, need: nat, close: nat)
    requires Sits([LParen], pos, ts) && pos + 1 <= close < |ts| && At(ts, close).RParen? && need >= 1
    requires OrAt(render, ts, pos + 1, depth + 1) == Outcome(e, depth + 1, need, close)
    ensures NotAt(render, ts, pos, depth) == Outcome(e, depth, 1 + need, close + 1)
  {
    SitsOne(LParen, pos, ts);
    hide OrAt;
  }

  /** The loop of `parse_and` over the remaining operands. */
  lemma {:induction false} AndRestParses(render: real -> string, ts: seq<Token>, p: nat, depth: nat, done: seq<Expr>, kids: seq<Expr>)
    requires Sits(AndTail(kids), p, ts) && AllPrintable(kids) && done != [] && |done + kids| >= 2
    requires NoAnd(At(ts, p + |AndTail(kids)|))
    ensures p <= |ts|
    ensures kids != [] ==> AndRest(render, ts, p, depth, done) == Outcome(And(done + kids), depth, NeedAnd(kids), p + |AndTail(kids)|)
    ensures kids == [] ==> AndRest(render, ts, p, depth, done) == Ok(And(done), p)
    decreases kids, 0
  {
    hide NotAt, NotTokens, NeedAnd, NeedNot, Outcome, Printable, Keyword;
    if kids != [] {
      var first, rest := kids[0], kids[1..];
      SitsSplit([Word("AND")], NotTokens(first) + AndTail(rest), p, ts);
      SitsSplit(NotTokens(first), AndTail(rest), p + 1, ts);
      NotParses(render, ts, p + 1, depth, first);
      AndRestParses(render, ts, p + 1 + |NotTokens(first)|, depth, done + [first], rest);
      AndRestStep(render, ts, p, depth, done, kids);
    } else {
      AndEnds(render, ts, p, depth, done);
    }
  }

  lemma AndEnds(render: real -> string, ts: seq<Token>, p: nat, depth: nat, done: seq<Expr>)
    requires p <= |ts| && NoAnd(At(ts, p)) && |done| >= 2
    ensures AndRest(render, ts, p, depth, done) == Ok(And(done), p)
  {
  }

  lemma AndRestStep(render: real -> string, ts: seq<Token>, p: nat, depth: nat, done: seq<Expr>, kids: seq<Expr>)
    requires kids != [] && done != [] && Sits([Word("AND")], p, ts)
    requires var q := p + 1 + |NotTokens(kids[0])|;
             && p + 1 <= q <= |ts|
             && NotAt(render, ts, p + 1, depth) == Outcome(kids[0], depth, NeedNot(kids[0]), q)
             && (kids[1..] != [] ==> AndRest(render, ts, q, depth, done + [kids[0]])
                                     == Outcome(And((done + [kids[0]]) + kids[1..]), depth, NeedAnd(kids[1..]), q + |AndTail(kids[1..])|))
             && (kids[1..] == [] ==> AndRest(render, ts, q, depth, done + [kids[0]]) == Ok(And(done + [kids[0]]), q))
    ensures AndRest(render, ts, p, depth, done) == Outcome(And(done + kids), depth, NeedAnd(kids), p + |AndTail(kids)|)
  {
    hide NotAt, NotTokens, NeedNot;
    SitsOne(Word("AND"), p, ts);
    ConnectiveWords();
    assert (done + [kids[0]]) + kids[1..] == done + kids;
    if kids[1..] == [] { assert done + [kids[0]] == done + kids; }
  }

  lemma {:induction false} AndParses(render: real -> string, ts: seq<Token>, pos: nat, depth: nat, kids: seq<Expr>)
    requires Sits(AndTokens(kids), pos, ts) && AllPrintable(kids) && |kids| >= 2 && NoAnd(At(ts, pos + |AndTokens(kids)|))
    ensures pos <= |ts| && AndAt(render, ts, pos, depth) == Outcome(And(kids), depth, NeedAnd(kids), pos + |AndTokens(kids)|)
    decreases kids, 1
  {
    var rest := kids[1..];
    SitsSplit(NotTokens(kids[0]), AndTail(rest), pos, ts);
    NotParses(render, ts, pos, depth, kids[0]);
    AndRestParses(render, ts, pos + |NotTokens(kids[0])|, depth, [kids[0]], rest);
    assert [kids[0]] + rest == kids;
  }

  /** One operand alone in `parse_or`. */
  lemma AloneInOr(render: real -> string, ts: seq<Token>, pos: nat, depth: nat, e: Expr, need: nat, next: nat)
    requires pos < next <= |ts| && NoConnective(At(ts, next)) && need >= 1
    requires AndAt(render, ts, pos, depth + 1) == Outcome(e, depth + 1, need, next)
    ensures OrAt(render, ts, pos, depth) == Outcome(e, depth, 1 + need, next)
  {
    hide AndAt;
  }

  /** An operand of OR. */
  lemma {:induction false} OperandParses(render: real -> string, ts: seq<Token>, pos: nat, depth: nat, e: Expr)
    requires Sits(OperandTokens(e), pos, ts) && Printable(e) && NoAnd(At(ts, pos + |OperandTokens(e)|))
    ensures pos <= |ts| && AndAt(render, ts, pos, depth) == Outcome(e, depth, NeedOperand(e), pos + |OperandTokens(e)|)
    decreases e, 1
  {
    if e.And? {
      AndParses(render, ts, pos, depth, e.kids);
    } else {
      NotParses(render, ts, pos, depth, e);
    }
  }

  /** The loop of `parse_or` over the remaining operands. */
  lemma {:induction false} OrRestParses(render: real -> string, ts: seq<Token>, p: nat, depth: nat, done: seq<Expr>, kids: seq<Expr>)
    requires Sits(OrTail(kids), p, ts) && AllPrintable(kids) && done != [] && |done + kids| >= 2
    requires NoConnective(At(ts, p + |OrTail(kids)|))
    ensures p <= |ts|
    ensures kids != [] ==> OrRest(render, ts, p, depth, done) == Outcome(Or(done + kids), depth, NeedOr(kids), p + |OrTail(kids)|)
    ensures kids == [] ==> OrRest(render, ts, p, depth, done) == Ok(Or(done), p)
    decreases kids, 0
  {
    hide AndAt, OperandTokens, NeedOr, NeedOperand, Outcome, Printable, Keyword;
    if kids != [] {
      var first, rest := kids[0], kids[1..];
      SitsSplit([Word("OR")], OperandTokens(first) + OrTail(rest), p, ts);
      SitsSplit(OperandTokens(first), OrTail(rest), p + 1, ts);
      OrFollows(ts, p + 1 + |OperandTokens(first)|, rest);
      OperandParses(render, ts, p + 1, depth, first);
      OrRestParses(render, ts, p + 1 + |OperandTokens(first)|, depth, done + [first], rest);
      OrRestStep(render, ts, p, depth, done, kids);
    } else {
      OrEnds(render, ts, p, depth, done);
    }
  }

  lemma OrEnds(render: real -> string, ts: seq<Token>, p: nat, depth: nat, done: seq<Expr>)
    requires p <= |ts| && NoConnective(At(ts, p)) && |done| >= 2
    ensures OrRest(render, ts, p, depth, done) == Ok(Or(done), p)
  {
  }

  /** Behind an operand stands another OR or what stood behind the list. */
  lemma OrFollows(ts: seq<Token>, p: nat, rest: seq<Expr>)
    requires Sits(OrTail(rest), p, ts) && NoConnective(At(ts, p + |OrTail(rest)|))
    ensures NoAnd(At(ts, p))
  {
    if rest != [] {
      SitsSplit([Word("OR")], OperandTokens(rest[0]) + OrTail(rest[1..]), p, ts);
      SitsOne(Word("OR"), p, ts);
      ConnectiveWords();
    }
  }

  lemma OrRestStep(render: real -> string, ts: seq<Token>, p: nat, depth: nat, done: seq<Expr>, kids: seq<Expr>)
    requires kids != [] && done != [] && Sits([Word("OR")], p, ts)
    requires var q := p + 1 + |OperandTokens(kids[0])|;
             && p + 1 <= q <= |ts|
             && AndAt(render, ts, p + 1, depth) == Outcome(kids[0], depth, NeedOperand(kids[0]), q)
             && (kids[1..] != [] ==> OrRest(render, ts, q, depth, done + [kids[0]])
                                     == Outcome(Or((done + [kids[0]]) + kids[1..]), depth, NeedOr(kids[1..]), q + |OrTail(kids[1..])|))
             && (kids[1..] == [] ==> OrRest(render, ts, q, depth, done + [kids[0]]) == Ok(Or(done + [kids[0]]), q))
    ensures OrRest(render, ts, p, depth, done) == Outcome(Or(done + kids), depth, NeedOr(kids), p + |OrTail(kids)|)
  {
    hide AndAt, OperandTokens, NeedOperand;
    SitsOne(Word("OR"), p, ts);
    ConnectiveWords();
    assert (done + [kids[0]]) + kids[1..] == done + kids;
    if kids[1..] == [] { assert done + [kids[0]] == done + kids; }
  }

  lemma {:induction false} OrParses(render: real -> string, ts: seq<Token>, pos: nat, depth: nat, kids: seq<Expr>)
    requires Sits(OrTokens(kids), pos, ts) && AllPrintable(kids) && |kids| >= 2 && NoConnective(At(ts, pos + |OrTokens(kids)|))
    ensures pos <= |ts| && OrAt(render, ts, pos, depth) == Outcome(Or(kids), depth, 1 + NeedOr(kids), pos + |OrTokens(kids)|)
    decreases kids, 1
  {
    var rest := kids[1..];
    SitsSplit(OperandTokens(kids[0]), OrTail(rest), pos, ts);
    OrFollows(ts, pos + |OperandTokens(kids[0])|, rest);
    OperandParses(render, ts, pos, depth + 1, kids[0]);
    OrRestParses(render, ts, pos + |OperandTokens(kids[0])|, depth + 1, [kids[0]], rest);
    assert [kids[0]] + rest == kids;
  }

  // ---- The round trip -------------------------------------------------------------------------------------------------

  lemma WholeParses(render: real -> string, e: Expr)
    requires Printable(e)
    ensures OrAt(render, Print(e), 0, 0) == Outcome(e, 0, Need(e), |Print(e)|)
  {
    hide OrAt, AndAt, NotAt, OrTokens, AndTokens, NotTokens, NeedOr, NeedAnd, NeedNot, Outcome;
    var ts := Print(e);
    SitsWhole(ts);
    NothingBehind(ts);
    if e.Or? {
      OrParses(render, ts, 0, 0, e.kids);
    } else {
      OperandParses(render, ts, 0, 1, e);
      OperandSome(e);
      AloneInOr(render, ts, 0, 0, e, NeedOperand(e), |ts|);
    }
  }

  lemma NothingBehind(ts: seq<Token>)
    ensures NoConnective(At(ts, |ts|)) && NoAnd(At(ts, |ts|))
  {
  }

  lemma OperandSome(e: Expr)
    requires Printable(e)
    ensures NeedOperand(e) >= 1 && OperandTokens(e) != []
  {
    if e.And? {
      NeedsSome(e.kids);
    } else {
      NeedsOne(e);
      NotEmpty(e);
    }
  }

  /** Parsing the tokens printed for a tree gives back the tree when it needs at most 128 guard levels, and
      the nesting error when it needs more. */
  lemma RoundTrip(render: real -> string, e: Expr)
    requires Printable(e)
    ensures Parse(render, Print(e)) == Outcome(e, 0, Need(e), |Print(e)|)
  {
    WholeParses(render, e);
    hide OrAt, Print, Need;
  }

  lemma RoundTripIff(render: real -> string, e: Expr)
    requires Printable(e)
    ensures Parse(render, Print(e)) == Ok(e, |Print(e)|) <==> Need(e) <= MAX_DEPTH
  {
    RoundTrip(render, e);
  }

  // ---- What the parser can return -----------------------------------------------------------------------------------

  /** A tree that can be printed and takes at most the levels that are left. */
  ghost predicate Fits(r: Parsed<Expr>, depth: nat) {
    r.Ok? ==> Printable(r.value) && depth + NeedNot(r.value) <= MAX_DEPTH
  }

  ghost predicate FitsOperand(r: Parsed<Expr>, depth: nat) {
    r.Ok? ==> Printable(r.value) && depth + NeedOperand(r.value) <= MAX_DEPTH
  }

  ghost predicate FitsWhole(r: Parsed<Expr>, depth: nat) {
    r.Ok? ==> Printable(r.value) && depth + Need(r.value) <= MAX_DEPTH
  }

  ghost predicate KidsFit(kids: seq<Expr>, depth: nat) {
    forall k | 0 <= k < |kids| :: Printable(kids[k]) && depth + NeedNot(kids[k]) <= MAX_DEPTH
  }

  ghost predicate OperandsFit(kids: seq<Expr>, depth: nat) {
    forall k | 0 <= k < |kids| :: Printable(kids[k]) && depth + NeedOperand(kids[k]) <= MAX_DEPTH
  }

  lemma {:induction false} KidsNeed(kids: seq<Expr>, depth: nat)
    requires KidsFit(kids, depth) && depth <= MAX_DEPTH
    ensures depth + NeedAnd(kids) <= MAX_DEPTH
  {
    if kids != [] { KidsNeed(kids[1..], depth); }
  }

  lemma {:induction false} OperandsNeed(kids: seq<Expr>, depth: nat)
    requires OperandsFit(kids, depth) && depth <= MAX_DEPTH
    ensures depth + NeedOr(kids) <= MAX_DEPTH
  {
    if kids != [] { OperandsNeed(kids[1..], depth); }
  }

  lemma {:induction false} NotFits(render: real -> string, ts: seq<Token>, pos: nat, depth: nat)
    requires pos <= |ts|
    ensures Fits(NotAt(render, ts, pos, depth), depth)
    decreases |ts| - pos, 1
  {
    if depth + 1 <= MAX_DEPTH {
      if Keyword(At(ts, pos), "NOT") {
        NotFits(render, ts, pos + 1, depth + 1);
      } else if At(ts, pos).LParen? {
        OrFits(render, ts, pos + 1, depth + 1);
        InsideFits(OrAt(render, ts, pos + 1, depth + 1), depth + 1);
      } else {
        ComparisonFits(render, ts, pos);
      }
    }
  }

  lemma InsideFits(r: Parsed<Expr>, depth: nat)
    requires FitsWhole(r, depth)
    ensures r.Ok? ==> Printable(r.value) && depth + NeedNot(r.value) <= MAX_DEPTH + 1
  {
  }

  lemma ComparisonFits(render: real -> string, ts: seq<Token>, pos: nat)
    requires pos <= |ts| && !Keyword(At(ts, pos), "NOT")
    ensures var r := ComparisonAt(render, ts, pos); r.Ok? ==> ComparisonPrintable(r.value)
  {
    hide Keyword, LikeOf, LikePrintable, NumOpOf, NumberAt, ListAt;
    if At(ts, pos).Ident? {
      SameField(ts, pos);
      LikeFits(ts[pos].text, if At(ts, pos + 2).Text? then At(ts, pos + 2).text else "");
    }
  }

  lemma SameField(ts: seq<Token>, pos: nat)
    requires pos < |ts| && ts[pos].Ident? && !Keyword(At(ts, pos), "NOT")
    ensures !Keyword(Ident(ts[pos].text), "NOT")
  {
  }

  lemma LikeFits(field: string, pattern: string)
    ensures LikeOf(field, pattern).Like?
    ensures LikePrintable(LikeOf(field, pattern).op, LikeOf(field, pattern).core) && LikeOf(field, pattern).field == field
  {
  }

  lemma {:induction false} AndFits(render: real -> string, ts: seq<Token>, pos: nat, depth: nat)
    requires pos <= |ts| && depth <= MAX_DEPTH
    ensures FitsOperand(AndAt(render, ts, pos, depth), depth)
    decreases |ts| - pos, 3
  {
    NotFits(render, ts, pos, depth);
    var left := NotAt(render, ts, pos, depth);
    if left.Ok? { AndRestFits(render, ts, left.next, depth, [left.value]); }
  }

  lemma {:induction false} AndRestFits(render: real -> string, ts: seq<Token>, p: nat, depth: nat, kids: seq<Expr>)
    requires p <= |ts| && kids != [] && KidsFit(kids, depth) && depth <= MAX_DEPTH
    ensures FitsOperand(AndRest(render, ts, p, depth, kids), depth)
    decreases |ts| - p, 2
  {
    if Keyword(At(ts, p), "AND") {
      NotFits(render, ts, p + 1, depth);
      var next := NotAt(render, ts, p + 1, depth);
      if next.Ok? { AndRestFits(render, ts, next.next, depth, kids + [next.value]); }
    } else {
      KidsNeed(kids, depth);
      if |kids| == 1 { OperandBelow(kids[0]); }
    }
  }

  /** Without parentheses a conjunction needs less. */
  lemma OperandBelow(e: Expr)
    ensures NeedOperand(e) <= NeedNot(e)
  {
  }

  lemma {:induction false} OrFits(render: real -> string, ts: seq<Token>, pos: nat, depth: nat)
    requires pos <= |ts|
    ensures FitsWhole(OrAt(render, ts, pos, depth), depth)
    decreases |ts| - pos, 5
  {
    if depth + 1 <= MAX_DEPTH {
      AndFits(render, ts, pos, depth + 1);
      var left := AndAt(render, ts, pos, depth + 1);
      if left.Ok? { OrRestFits(render, ts, left.next, depth + 1, [left.value]); }
    }
  }

  lemma {:induction false} OrRestFits(render: real -> string, ts: seq<Token>, p: nat, depth: nat, kids: seq<Expr>)
    requires p <= |ts| && kids != [] && OperandsFit(kids, depth) && 0 < depth <= MAX_DEPTH
    ensures FitsWhole(OrRest(render, ts, p, depth, kids), depth - 1)
    decreases |ts| - p, 4
  {
    if Keyword(At(ts, p), "OR") {
      AndFits(render, ts, p + 1, depth);
      var next := AndAt(render, ts, p + 1, depth);
      if next.Ok? { OrRestFits(render, ts, next.next, depth, kids + [next.value]); }
    } else {
      OperandsNeed(kids, depth);
      if |kids| == 1 { WholeBelow(kids[0]); }
    }
  }

  lemma WholeBelow(e: Expr)
    ensures Need(e) <= 1 + NeedOperand(e)
  {
  }

  /** Whatever a token list parses to, printing it and parsing again gives the same tree. */
  lemma ReprintStable(render: real -> string, ts: seq<Token>)
    ensures var r := Parse(render, ts);
            r.Ok? ==> Printable(r.value) && Parse(render, Print(r.value)) == Ok(r.value, |Print(r.value)|)
  {
    OrFits(render, ts, 0, 0);
    var r := Parse(render, ts);
    if r.Ok? { RoundTrip(render, r.value); }
  }
}
