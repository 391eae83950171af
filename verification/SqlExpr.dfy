/** SQL-like rule expressions: their trees, the token lists they print to, and the grammar as functions. */
module SqlExpr {
  import opened Comparisons

  datatype Token =
    | End
    | Ident(text: string)
    | Number(value: real)
    | Text(text: string)
    | Op(text: string)
    | LParen
    | RParen
    | Comma

  datatype LikeOp = CONTAINS | STARTS_WITH | ENDS_WITH

  datatype Comparison =
    | NullTest(field: string, negated: bool)
    | In(field: string, negated: bool, values: seq<string>)
    | Between(field: string, lower: real, upper: real)
    | Like(field: string, op: LikeOp, core: string)
    | Numeric(field: string, numOp: NumOp, threshold: real)
    | Equals(field: string, negated: bool, value: string)

  datatype Expr = And(kids: seq<Expr>) | Or(kids: seq<Expr>) | Not(child: Expr) | Leaf(cmp: Comparison)

  datatype Parsed<+T> = Ok(value: T, next: nat) | Fail(error: string)

  const MAX_DEPTH := 128
  const TOO_DEEP := "expression nesting too deep"

  // ---- Tokens --------------------------------------------------------------------------------------------------

  function At(ts: seq<Token>, p: nat): Token {
    if p < |ts| then ts[p] else End
  }

  function UpperChar(c: char): char {
    if 'a' <= c <= 'z' then (c as int - 32) as char else c
  }

  function Upper(s: string): (u: string)
    ensures |u| == |s| && forall k | 0 <= k < |s| :: u[k] == UpperChar(s[k])
  {
    seq(|s|, k requires 0 <= k < |s| => UpperChar(s[k]))
  }

  /** `is_keyword`: any case, but never a quoted string. */
  predicate Keyword(t: Token, kw: string) {
    t.Ident? && Upper(t.text) == kw
  }

  // ---- Comparisons ------------------------------------------------------------------------------------------------

  function NumOpOf(text: string): (op: Parsed<NumOp>) {
    if text == ">" then Ok(GT, 0)
    else if text == "<" then Ok(LT, 0)
    else if text == ">=" then Ok(GTE, 0)
    else if text == "<=" then Ok(LTE, 0)
    else if text == "=" || text == "==" then Ok(EQ, 0)
    else if text == "!=" || text == "<>" then Ok(NEQ, 0)
    else Fail("unknown comparison operator")
  }

  /** `like_to_condition`: the wildcards at the ends choose the test. */
  function LikeOf(field: string, pattern: string): Comparison {
    var lead := pattern != "" && pattern[0] == '%';
    var trail := pattern != "" && pattern[|pattern| - 1] == '%';
    var headless := if lead then pattern[1..] else pattern;
    var core := if trail && headless != "" then headless[..|headless| - 1] else headless;
    Like(field, if lead && trail then CONTAINS else if trail then STARTS_WITH else if lead then ENDS_WITH else CONTAINS, core)
  }

  /** The values of an IN list from position p on; numbers are kept as the text `render` gives them. */
  function ListAt(render: real -> string, ts: seq<Token>, p: nat, values: seq<string>): (r: Parsed<seq<string>>)
    requires p <= |ts|
    ensures r.Ok? ==> p <= r.next <= |ts|
    decreases |ts| - p
  {
    if At(ts, p).RParen? then Ok(values, p)
    else
      match At(ts, p)
      case Number(n) => ListNext(render, ts, p + 1, values + [render(n)])
      case Text(s) => ListNext(render, ts, p + 1, values + [s])
      case Ident(s) => ListNext(render, ts, p + 1, values + [s])
      case _ => Fail("expected a value")
  }

  function ListNext(render: real -> string, ts: seq<Token>, p: nat, values: seq<string>): (r: Parsed<seq<string>>)
    requires p <= |ts|
    ensures r.Ok? ==> p <= r.next <= |ts|
    decreases |ts| - p
  {
    if At(ts, p).Comma? then ListAt(render, ts, p + 1, values) else Ok(values, p)
  }

  /** `parse_comparison`. */
  function ComparisonAt(render: real -> string, ts: seq<Token>, pos: nat): (r: Parsed<Comparison>)
    requires pos <= |ts|
    ensures r.Ok? ==> pos < r.next <= |ts|
  {
    if !At(ts, pos).Ident? then Fail("expected a field name")
    else
      var field, p := ts[pos].text, pos + 1;
      if Keyword(At(ts, p), "IS") then NullAt(ts, p + 1, field)
      else if Keyword(At(ts, p), "NOT") then
        if Keyword(At(ts, p + 1), "IN") then InAt(render, ts, p + 2, field, true) else Fail("expected IN after NOT")
      else if Keyword(At(ts, p), "IN") then InAt(render, ts, p + 1, field, false)
      else if Keyword(At(ts, p), "BETWEEN") then BetweenAt(ts, p + 1, field)
      else if Keyword(At(ts, p), "LIKE") || Keyword(At(ts, p), "ILIKE") then
        if At(ts, p + 1).Text? then Ok(LikeOf(field, At(ts, p + 1).text), p + 2) else Fail("LIKE requires a string pattern")
      else if At(ts, p).Op? then OperatorAt(ts, p + 1, field, ts[p].text)
      else Fail("expected a comparison operator")
  }

  /** Behind IS. */
  function NullAt(ts: seq<Token>, p: nat, field: string): (r: Parsed<Comparison>)
    requires p <= |ts|
    ensures r.Ok? ==> p < r.next <= |ts|
  {
    var negated := Keyword(At(ts, p), "NOT");
    var q := if negated then p + 1 else p;
    if Keyword(At(ts, q), "NULL") then Ok(NullTest(field, negated), q + 1) else Fail("expected NULL after IS")
  }

  /** Behind IN. */
  function InAt(render: real -> string, ts: seq<Token>, p: nat, field: string, negated: bool): (r: Parsed<Comparison>)
    requires p <= |ts|
    ensures r.Ok? ==> p < r.next <= |ts|
  {
    if !At(ts, p).LParen? then Fail("expected '(' after IN")
    else
      match ListAt(render, ts, p + 1, [])
      case Fail(error) => Fail(error)
      case Ok(values, q) =>
        if At(ts, q).RParen? then Ok(In(field, negated, values), q + 1) else Fail("expected ')' to close IN list")
  }

  function NumberAt(t: Token): Parsed<real> {
    if t.Number? then Ok(t.value, 0)
    else if t.Text? || t.Ident? then Fail("BETWEEN requires numeric bounds")
    else Fail("expected a value")
  }

  /** Behind BETWEEN. */
  function BetweenAt(ts: seq<Token>, p: nat, field: string): (r: Parsed<Comparison>)
    requires p <= |ts|
    ensures r.Ok? ==> p < r.next <= |ts|
  {
    match NumberAt(At(ts, p))
    case Fail(error) => Fail(error)
    case Ok(lower, _) =>
      if !Keyword(At(ts, p + 1), "AND") then Fail("expected AND in BETWEEN")
      else
        match NumberAt(At(ts, p + 2))
        case Fail(error) => Fail(error)
        case Ok(upper, _) => Ok(Between(field, lower, upper), p + 3)
  }

  /** Behind a comparison operator: strings know only equality. */
  function OperatorAt(ts: seq<Token>, p: nat, field: string, op: string): (r: Parsed<Comparison>)
    requires p <= |ts|
    ensures r.Ok? ==> p < r.next <= |ts|
  {
    match At(ts, p)
    case Number(n) => (match NumOpOf(op) case Ok(numOp, _) => Ok(Numeric(field, numOp, n), p + 1) case Fail(error) => Fail(error))
    case Text(s) => EqualsAt(p + 1, field, op, s)
    case Ident(s) => EqualsAt(p + 1, field, op, s)
    case _ => Fail("expected a value")
  }

  function EqualsAt(next: nat, field: string, op: string, value: string): (r: Parsed<Comparison>)
    ensures r.Ok? ==> r.next == next
  {
    if op == "=" || op == "==" then Ok(Equals(field, false, value), next)
    else if op == "!=" || op == "<>" then Ok(Equals(field, true, value), next)
    else Fail("operator not valid for a string value")
  }

  // ---- Connectives --------------------------------------------------------------------------------------------------

  /** `parse_or`; the guard counts this level. */
  function OrAt(render: real -> string, ts: seq<Token>, pos: nat, depth: nat): (r: Parsed<Expr>)
    requires pos <= |ts|
    ensures r.Ok? ==> pos < r.next <= |ts|
    decreases |ts| - pos, 5
  {
    if depth + 1 > MAX_DEPTH then Fail(TOO_DEEP)
    else
      match AndAt(render, ts, pos, depth + 1)
      case Fail(error) => Fail(error)
      case Ok(left, p) => OrRest(render, ts, p, depth + 1, [left])
  }

  function OrRest(render: real -> string, ts: seq<Token>, p: nat, depth: nat, kids: seq<Expr>): (r: Parsed<Expr>)
    requires p <= |ts| && kids != []
    ensures r.Ok? ==> p <= r.next <= |ts|
    decreases |ts| - p, 4
  {
    if Keyword(At(ts, p), "OR") then
      match AndAt(render, ts, p + 1, depth)
      case Fail(error) => Fail(error)
      case Ok(e, q) => OrRest(render, ts, q, depth, kids + [e])
    else Ok(if |kids| == 1 then kids[0] else Or(kids), p)
  }

  /** `parse_and`, which has no guard of its own. */
  function AndAt(render: real -> string, ts: seq<Token>, pos: nat, depth: nat): (r: Parsed<Expr>)
    requires pos <= |ts|
    ensures r.Ok? ==> pos < r.next <= |ts|
    decreases |ts| - pos, 3
  {
    match NotAt(render, ts, pos, depth)
    case Fail(error) => Fail(error)
    case Ok(left, p) => AndRest(render, ts, p, depth, [left])
  }

  function AndRest(render: real -> string, ts: seq<Token>, p: nat, depth: nat, kids: seq<Expr>): (r: Parsed<Expr>)
    requires p <= |ts| && kids != []
    ensures r.Ok? ==> p <= r.next <= |ts|
    decreases |ts| - p, 2
  {
    if Keyword(At(ts, p), "AND") then
      match NotAt(render, ts, p + 1, depth)
      case Fail(error) => Fail(error)
      case Ok(e, q) => AndRest(render, ts, q, depth, kids + [e])
    else Ok(if |kids| == 1 then kids[0] else And(kids), p)
  }

  /** `parse_not` with `parse_primary`. */
  function NotAt(render: real -> string, ts: seq<Token>, pos: nat, depth: nat): (r: Parsed<Expr>)
    requires pos <= |ts|
    ensures r.Ok? ==> pos < r.next <= |ts|
    decreases |ts| - pos, 1
  {
    if depth + 1 > MAX_DEPTH then Fail(TOO_DEEP)
    else if Keyword(At(ts, pos), "NOT") then
      match NotAt(render, ts, pos + 1, depth + 1)
      case Fail(error) => Fail(error)
      case Ok(e, p) => Ok(Not(e), p)
    else PrimaryAt(render, ts, pos, depth + 1)
  }

  function PrimaryAt(render: real -> string, ts: seq<Token>, pos: nat, depth: nat): (r: Parsed<Expr>)
    requires pos <= |ts|
    ensures r.Ok? ==> pos < r.next <= |ts|
    decreases |ts| - pos, 0
  {
    if At(ts, pos).LParen? then
      match OrAt(render, ts, pos + 1, depth)
      case Fail(error) => Fail(error)
      case Ok(e, p) => if At(ts, p).RParen? then Ok(e, p + 1) else Fail("expected ')'")
    else
      match ComparisonAt(render, ts, pos)
      case Fail(error) => Fail(error)
      case Ok(c, p) => Ok(Leaf(c), p)
  }

  /** `parse`: the whole list must be used. */
  function Parse(render: real -> string, ts: seq<Token>): Parsed<Expr> {
    match OrAt(render, ts, 0, 0)
    case Fail(error) => Fail(error)
    case Ok(e, p) => if At(ts, p).End? then Ok(e, p) else Fail("trailing tokens after expression")
  }
}
