/** The recursive-descent parser as it is written: one current position, a depth counter that every guarded
    method raises and lowers, loops that collect operands. */
module SqlParser {
  import opened SqlExpr

  /** What a method returns where the original returns a value or throws. */
  datatype Outcome<+T> = Value(value: T) | Error(error: string)

  /** The method did what the grammar function says. */
  ghost predicate Matches<T(!new)>(spec: Parsed<T>, r: Outcome<T>, pos: nat) {
    match spec
    case Ok(value, next) => r == Value(value) && pos == next
    case Fail(error) => r == Error(error)
  }

  class Parser {
    const tokens: seq<Token>
    const render: real -> string
    var pos: nat
    var depth: nat

    ghost predicate Valid()
      reads this
    {
      pos <= |tokens|
    }

    constructor (tokens: seq<Token>, render: real -> string)
      ensures Valid() && this.tokens == tokens && this.render == render && pos == 0 && depth == 0
    {
      this.tokens, this.render, pos, depth := tokens, render, 0, 0;
    }

    function Cur(): Token
      reads this`pos
    {
      At(tokens, pos)
    }

    predicate IsKeyword(kw: string)
      reads this`pos
    {
      Keyword(Cur(), kw)
    }

    method Advance()
      requires pos < |tokens|
      modifies this`pos
      ensures pos == old(pos) + 1
    {
      pos := pos + 1;
    }

    /** `parse`. */
    method ParseAll() returns (r: Outcome<Expr>)
      requires Valid() && pos == 0 && depth == 0
      modifies this
      ensures match Parse(render, tokens) case Ok(e, _) => r == Value(e) case Fail(error) => r == Error(error)
    {
      r := ParseOr();
      if r.Error? { return; }
      if !Cur().End? { return Error("trailing tokens after expression"); }
    }

    method ParseOr() returns (r: Outcome<Expr>)
      requires Valid()
      modifies this
      ensures Valid() && depth == old(depth) && Matches(OrAt(render, tokens, old(pos), old(depth)), r, pos)
      decreases |tokens| - pos, 5
    {
      depth := depth + 1;
      if depth > MAX_DEPTH {
        depth := depth - 1;
        return Error(TOO_DEEP);
      }
      r := ParseAnd();
      if r.Value? {
        var kids := [r.value];
        r := ParseOrRest(kids);
      }
      depth := depth - 1;
    }

    /** The loop of `parse_or`. */
    method ParseOrRest(first: seq<Expr>) returns (r: Outcome<Expr>)
      requires Valid() && |first| == 1
      modifies this
      ensures Valid() && depth == old(depth) && Matches(OrRest(render, tokens, old(pos), depth, first), r, pos)
      decreases |tokens| - pos, 4
    {
      var kids := first;
      while IsKeyword("OR")
        invariant Valid() && depth == old(depth) && kids != [] && old(pos) <= pos
        invariant OrRest(render, tokens, old(pos), depth, first) == OrRest(render, tokens, pos, depth, kids)
        decreases |tokens| - pos
      {
        Advance();
        var next := ParseAnd();
        if next.Error? { return next; }
        kids := kids + [next.value];
      }
      return Value(if |kids| == 1 then kids[0] else Or(kids));
    }

    method ParseAnd() returns (r: Outcome<Expr>)
      requires Valid()
      modifies this
      ensures Valid() && depth == old(depth) && Matches(AndAt(render, tokens, old(pos), depth), r, pos)
      decreases |tokens| - pos, 3
    {
      r := ParseNot();
      if r.Error? { return; }
      var kids := [r.value];
      ghost var start := pos;
      while IsKeyword("AND")
        invariant Valid() && depth == old(depth) && kids != [] && old(pos) < start <= pos
        invariant AndAt(render, tokens, old(pos), depth) == AndRest(render, tokens, pos, depth, kids)
        decreases |tokens| - pos
      {
        Advance();
        var next := ParseNot();
        if next.Error? { return next; }
        kids := kids + [next.value];
      }
      return Value(if |kids| == 1 then kids[0] else And(kids));
    }

    method ParseNot() returns (r: Outcome<Expr>)
      requires Valid()
      modifies this
      ensures Valid() && depth == old(depth) && Matches(NotAt(render, tokens, old(pos), depth), r, pos)
      decreases |tokens| - pos, 1
    {
      depth := depth + 1;
      if depth > MAX_DEPTH {
        depth := depth - 1;
        return Error(TOO_DEEP);
      }
      if IsKeyword("NOT") {
        Advance();
        r := ParseNot();
        if r.Value? { r := Value(Not(r.value)); }
      } else {
        r := ParsePrimary();
      }
      depth := depth - 1;
    }

    method ParsePrimary() returns (r: Outcome<Expr>)
      requires Valid()
      modifies this
      ensures Valid() && depth == old(depth) && Matches(PrimaryAt(render, tokens, old(pos), depth), r, pos)
      decreases |tokens| - pos, 0
    {
      if Cur().LParen? {
        Advance();
        r := ParseOr();
        if r.Error? { return; }
        if !Cur().RParen? { return Error("expected ')'"); }
        Advance();
      } else {
        var c := ParseComparison();
        r := match c case Value(cmp) => Value(Leaf(cmp)) case Error(error) => Error(error);
      }
    }

    method ParseComparison() returns (r: Outcome<Comparison>)
      requires Valid()
      modifies this`pos
      ensures Valid() && Matches(ComparisonAt(render, tokens, old(pos)), r, pos)
    {
      if !Cur().Ident? { return Error("expected a field name"); }
      var field := tokens[pos].text;
      Advance();
      if IsKeyword("IS") {
        Advance();
        var negated := false;
        if IsKeyword("NOT") {
          negated := true;
          Advance();
        }
        if !IsKeyword("NULL") { return Error("expected NULL after IS"); }
        Advance();
        return Value(NullTest(field, negated));
      }
      var notIn := false;
      if IsKeyword("NOT") {
        notIn := true;
        Advance();
        if !IsKeyword("IN") { return Error("expected IN after NOT"); }
      }
      if IsKeyword("IN") {
        Advance();
        r := ParseList(field, notIn);
        return;
      }
      if IsKeyword("BETWEEN") {
        Advance();
        r := ParseBounds(field);
        return;
      }
      if IsKeyword("LIKE") || IsKeyword("ILIKE") {
        Advance();
        if !Cur().Text? { return Error("LIKE requires a string pattern"); }
        var pattern := tokens[pos].text;
        Advance();
        return Value(LikeOf(field, pattern));
      }
      if !Cur().Op? { return Error("expected a comparison operator"); }
      var op := tokens[pos].text;
      Advance();
      r := ParseOperand(field, op);
    }

    /** Behind IN. */
    method ParseList(field: string, negated: bool) returns (r: Outcome<Comparison>)
      requires Valid()
      modifies this`pos
      ensures Valid() && Matches(InAt(render, tokens, old(pos), field, negated), r, pos)
    {
      if !Cur().LParen? { return Error("expected '(' after IN"); }
      Advance();
      ghost var start := pos;
      var values: seq<string> := [];
      while !Cur().RParen?
        invariant Valid() && start <= pos
        invariant ListAt(render, tokens, start, []) == ListAt(render, tokens, pos, values)
        decreases |tokens| - pos
      {
        match Cur() {
          case Number(n) => values := values + [render(n)];
          case Text(s) => values := values + [s];
          case Ident(s) => values := values + [s];
          case _ => return Error("expected a value");
        }
        Advance();
        if !Cur().Comma? {
          assert ListAt(render, tokens, start, []) == Ok(values, pos);
          break;
        }
        Advance();
      }
      assert ListAt(render, tokens, start, []) == Ok(values, pos);
      if !Cur().RParen? { return Error("expected ')' to close IN list"); }
      Advance();
      return Value(In(field, negated, values));
    }

    /** One bound of BETWEEN. */
    method ReadBound() returns (r: Outcome<real>)
      requires Valid()
      modifies this`pos
      ensures Valid()
      ensures match NumberAt(At(tokens, old(pos)))
              case Ok(n, _) => r == Value(n) && pos == old(pos) + 1
              case Fail(error) => r == Error(error)
    {
      match Cur() {
        case Number(n) =>
          Advance();
          return Value(n);
        case Text(_) => return Error("BETWEEN requires numeric bounds");
        case Ident(_) => return Error("BETWEEN requires numeric bounds");
        case _ => return Error("expected a value");
      }
    }

    /** Behind BETWEEN. */
    method ParseBounds(field: string) returns (r: Outcome<Comparison>)
      requires Valid()
      modifies this`pos
      ensures Valid() && Matches(BetweenAt(tokens, old(pos), field), r, pos)
    {
      var lower := ReadBound();
      if lower.Error? { return Error(lower.error); }
      if !IsKeyword("AND") { return Error("expected AND in BETWEEN"); }
      Advance();
      var upper := ReadBound();
      if upper.Error? { return Error(upper.error); }
      return Value(Between(field, lower.value, upper.value));
    }

    /** Behind a comparison operator. */
    method ParseOperand(field: string, op: string) returns (r: Outcome<Comparison>)
      requires Valid()
      modifies this`pos
      ensures Valid() && Matches(OperatorAt(tokens, old(pos), field, op), r, pos)
    {
      match Cur() {
        case Number(n) =>
          Advance();
          match NumOpOf(op) {
            case Ok(numOp, _) => return Value(Numeric(field, numOp, n));
            case Fail(error) => return Error(error);
          }
        case Text(s) =>
          Advance();
          r := EqualityOf(field, op, s);
        case Ident(s) =>
          Advance();
          r := EqualityOf(field, op, s);
        case _ => return Error("expected a value");
      }
    }

    method EqualityOf(field: string, op: string, value: string) returns (r: Outcome<Comparison>)
      ensures Matches(EqualsAt(pos, field, op, value), r, pos)
    {
      if op == "=" || op == "==" { return Value(Equals(field, false, value)); }
      if op == "!=" || op == "<>" { return Value(Equals(field, true, value)); }
      return Error("operator not valid for a string value");
    }
  }
}
