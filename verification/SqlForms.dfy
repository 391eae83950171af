/** What each form of a comparison parses to, token by token, and how deep an expression may nest. */
module SqlForms {
  import opened Comparisons
  import opened Segments
  import opened SqlExpr
  import opened SqlRoundTrip

  // ---- Keywords ------------------------------------------------------------------------------------------------------

  predicate Letters(kw: string) {
    forall k | 0 <= k < |kw| :: 'A' <= kw[k] <= 'Z'
  }

  /** The keyword letter by letter, each in either case. */
  predicate Spells(text: string, kw: string) {
    |text| == |kw| && forall k | 0 <= k < |kw| :: text[k] == kw[k] || text[k] as int == kw[k] as int + 32
  }

  lemma LetterSays(c: char, u: char)
    requires 'A' <= u <= 'Z'
    ensures UpperChar(c) == u <==> c == u || c as int == u as int + 32
  {
  }

  lemma KeywordSays(t: Token, kw: string)
    requires Letters(kw)
    ensures Keyword(t, kw) <==> t.Ident? && Spells(t.text, kw)
  {
    if t.Ident? && |t.text| == |kw| {
      forall k | 0 <= k < |kw| ensures Upper(t.text)[k] == kw[k] <==> t.text[k] == kw[k] || t.text[k] as int == kw[k] as int + 32 {
        LetterSays(t.text[k], kw[k]);
      }
      if Spells(t.text, kw) { assert Upper(t.text) == kw; }
    }
  }

  lemma NoOperator(t: Token, kw: string)
    requires !t.Ident?
    ensures !Keyword(t, kw)
  {
  }

  /** Two spellings of one text are of one keyword. */
  lemma OneKeyword(text: string, kw: string, other: string)
    requires Spells(text, kw) && Letters(kw) && Letters(other)
    ensures Keyword(Ident(text), kw) && (Keyword(Ident(text), other) <==> kw == other)
  {
    KeywordSays(Ident(text), kw);
  }

  // ---- Comparison operators ------------------------------------------------------------------------------------------

  /** A field, an operator and a number. */
  lemma OperatorSays(render: real -> string, ts: seq<Token>, pos: nat, field: string, op: string, n: real)
    requires Sits([Ident(field), Op(op), Number(n)], pos, ts)
    ensures pos <= |ts|
    ensures var r := ComparisonAt(render, ts, pos);
            && (op == ">" ==> r == Ok(Numeric(field, GT, n), pos + 3))
            && (op == "<" ==> r == Ok(Numeric(field, LT, n), pos + 3))
            && (op == ">=" ==> r == Ok(Numeric(field, GTE, n), pos + 3))
            && (op == "<=" ==> r == Ok(Numeric(field, LTE, n), pos + 3))
            && (op == "=" || op == "==" ==> r == Ok(Numeric(field, EQ, n), pos + 3))
            && (op == "!=" || op == "<>" ==> r == Ok(Numeric(field, NEQ, n), pos + 3))
            && (op !in [">", "<", ">=", "<=", "=", "==", "!=", "<>"] ==> r == Fail("unknown comparison operator"))
  {
    Three(ts, pos, Ident(field), Op(op), Number(n));
    TextsDiffer();
  }

  lemma Three(ts: seq<Token>, pos: nat, a: Token, b: Token, c: Token)
    requires Sits([a, b, c], pos, ts)
    ensures pos + 3 <= |ts| && At(ts, pos) == ts[pos] == a && At(ts, pos + 1) == ts[pos + 1] == b && At(ts, pos + 2) == ts[pos + 2] == c
  {
    TokenAt([a, b, c], pos, ts, 0);
    TokenAt([a, b, c], pos, ts, 1);
    TokenAt([a, b, c], pos, ts, 2);
  }

  lemma TextsDiffer()
    ensures ">=" != "<=" && ">=" != "==" && ">=" != "!=" && ">=" != "<>"
    ensures "<=" != "==" && "<=" != "!=" && "<=" != "<>" && "==" != "!=" && "==" != "<>" && "!=" != "<>"
    ensures ">" != "<" && ">" != "=" && "<" != "="
  {
    assert ">="[0] == '>' && "<="[0] == '<' && "=="[0] == '=' && "!="[0] == '!' && "<>"[0] == '<';
    assert "<="[1] == '=' && "<>"[1] == '>';
    assert ">"[0] == '>' && "<"[0] == '<' && "="[0] == '=';
  }

  /** A field, an operator and a text, quoted or not: only equality is known. */
  lemma EqualitySays(render: real -> string, ts: seq<Token>, pos: nat, field: string, op: string, value: Token)
    requires (value.Text? || value.Ident?) && Sits([Ident(field), Op(op), value], pos, ts)
    ensures pos <= |ts|
    ensures var r := ComparisonAt(render, ts, pos);
            && (op == "=" || op == "==" ==> r == Ok(Equals(field, false, value.text), pos + 3))
            && (op == "!=" || op == "<>" ==> r == Ok(Equals(field, true, value.text), pos + 3))
            && (op !in ["=", "==", "!=", "<>"] ==> r == Fail("operator not valid for a string value"))
  {
    Three(ts, pos, Ident(field), Op(op), value);
    TextsDiffer();
  }

  // ---- Words ---------------------------------------------------------------------------------------------------------

  lemma NullSays(render: real -> string, ts: seq<Token>, pos: nat, field: string, verb: string, word: string)
    requires Sits([Ident(field), Ident(verb), Ident(word)], pos, ts) && Spells(verb, "IS")
    ensures pos <= |ts|
    ensures Spells(word, "NULL") ==> ComparisonAt(render, ts, pos) == Ok(NullTest(field, false), pos + 3)
    ensures Spells(word, "NOT") && At(ts, pos + 3).Ident? && Spells(At(ts, pos + 3).text, "NULL") ==>
              ComparisonAt(render, ts, pos) == Ok(NullTest(field, true), pos + 4)
    ensures !Spells(word, "NULL") && !Spells(word, "NOT") ==> ComparisonAt(render, ts, pos) == Fail("expected NULL after IS")
  {
    Three(ts, pos, Ident(field), Ident(verb), Ident(word));
    KeywordSays(Ident(verb), "IS");
    KeywordSays(Ident(word), "NOT");
    KeywordSays(Ident(word), "NULL");
    KeywordSays(At(ts, pos + 3), "NULL");
  }

  /** LIKE in any case, and ILIKE as the same. A pattern without a leading or trailing '%' is searched for anywhere. */
  lemma LikeSays(render: real -> string, ts: seq<Token>, pos: nat, field: string, like: string, pattern: string, core: string)
    requires Sits([Ident(field), Ident(like), Text(pattern)], pos, ts) && (Spells(like, "LIKE") || Spells(like, "ILIKE"))
    ensures pos <= |ts|
    ensures var r := ComparisonAt(render, ts, pos);
            && (pattern == "%" + core + "%" ==> r == Ok(Like(field, CONTAINS, core), pos + 3))
            && (pattern == core + "%" && core != "" && core[0] != '%' ==> r == Ok(Like(field, STARTS_WITH, core), pos + 3))
            && (pattern == "%" + core && core != "" && core[|core| - 1] != '%' ==> r == Ok(Like(field, ENDS_WITH, core), pos + 3))
            && (pattern == core && core != "" && core[0] != '%' && core[|core| - 1] != '%' ==> r == Ok(Like(field, CONTAINS, core), pos + 3))
            && (pattern == "" || pattern == "%" ==> r == Ok(Like(field, CONTAINS, ""), pos + 3))
  {
    Three(ts, pos, Ident(field), Ident(like), Text(pattern));
    LikeWord(like);
    LikePatternSays(field, pattern, core);
    hide Keyword, LikeOf;
    assert ComparisonAt(render, ts, pos) == Ok(LikeOf(field, pattern), pos + 3);
  }

  lemma LikeWord(like: string)
    requires Spells(like, "LIKE") || Spells(like, "ILIKE")
    ensures Keyword(Ident(like), "LIKE") || Keyword(Ident(like), "ILIKE")
    ensures !Keyword(Ident(like), "IS") && !Keyword(Ident(like), "NOT") && !Keyword(Ident(like), "IN") && !Keyword(Ident(like), "BETWEEN")
  {
    var t := Ident(like);
    KeywordSays(t, "LIKE");
    KeywordSays(t, "ILIKE");
    KeywordSays(t, "IS");
    KeywordSays(t, "NOT");
    KeywordSays(t, "IN");
    KeywordSays(t, "BETWEEN");
  }

  lemma LikePatternSays(field: string, pattern: string, core: string)
    ensures var c := LikeOf(field, pattern);
            && (pattern == "%" + core + "%" ==> c == Like(field, CONTAINS, core))
            && (pattern == core + "%" && core != "" && core[0] != '%' ==> c == Like(field, STARTS_WITH, core))
            && (pattern == "%" + core && core != "" && core[|core| - 1] != '%' ==> c == Like(field, ENDS_WITH, core))
            && (pattern == core && core != "" && core[0] != '%' && core[|core| - 1] != '%' ==> c == Like(field, CONTAINS, core))
            && (pattern == "" || pattern == "%" ==> c == Like(field, CONTAINS, ""))
  {
    if pattern == "%" + core + "%" {
      assert pattern[1..] == core + "%" && (core + "%")[..|core|] == core;
    } else if pattern == core + "%" {
      assert pattern[..|core|] == core;
    } else if pattern == "%" + core {
      assert pattern[1..] == core;
    }
  }

  /** BETWEEN two numbers, with AND in any case. */
  lemma BetweenSays(render: real -> string, ts: seq<Token>, pos: nat, field: string, between: string, lower: real, and: string, upper: real)
    requires Sits([Ident(field), Ident(between), Number(lower), Ident(and), Number(upper)], pos, ts)
    requires Spells(between, "BETWEEN") && Spells(and, "AND")
    ensures pos <= |ts| && ComparisonAt(render, ts, pos) == Ok(Between(field, lower, upper), pos + 5)
  {
    var part := [Ident(field), Ident(between), Number(lower), Ident(and), Number(upper)];
    TokenAt(part, pos, ts, 0);
    TokenAt(part, pos, ts, 1);
    TokenAt(part, pos, ts, 2);
    TokenAt(part, pos, ts, 3);
    TokenAt(part, pos, ts, 4);
    var t := Ident(between);
    KeywordSays(t, "BETWEEN");
    KeywordSays(t, "IS");
    KeywordSays(t, "NOT");
    KeywordSays(t, "IN");
    KeywordSays(Ident(and), "AND");
  }

  // ---- Lists ---------------------------------------------------------------------------------------------------------

  predicate Values(items: seq<Token>) {
    forall k | 0 <= k < |items| :: items[k].Number? || items[k].Text? || items[k].Ident?
  }

  /** The tokens of a list, each value behind a comma but the first. */
  function Commas(items: seq<Token>): (ts: seq<Token>) {
    if items == [] then [] else if |items| == 1 then items else [items[0], Comma] + Commas(items[1..])
  }

  /** A list ends with its parenthesis, in front of which there may be one more comma. */
  function Tail(trailing: bool): (ts: seq<Token>)
    ensures |ts| == (if trailing then 2 else 1) && ts[|ts| - 1] == RParen
  {
    if trailing then [Comma, RParen] else [RParen]
  }

  function Head(field: string, not: string, into: string, negated: bool): (ts: seq<Token>)
    ensures |ts| == if negated then 4 else 3
  {
    if negated then [Ident(field), Ident(not), Ident(into), LParen] else [Ident(field), Ident(into), LParen]
  }

  /** Numbers as text, texts and words as they are. */
  ghost predicate Listed(render: real -> string, items: seq<Token>, values: seq<string>) {
    && |values| == |items|
    && forall k | 0 <= k < |items| :: values[k] == match items[k] case Number(n) => render(n) case Text(s) => s case Ident(s) => s case _ => ""
  }

  /** A list of numbers, texts and words, with or without a comma behind the last. */
  lemma {:induction false} ListSays(render: real -> string, ts: seq<Token>, p: nat, done: seq<string>, items: seq<Token>, trailing: bool)
      returns (values: seq<string>)
    requires Values(items) && (trailing ==> items != [])
    requires Sits(Commas(items) + Tail(trailing), p, ts)
    ensures Listed(render, items, values)
    ensures p <= |ts| && ListAt(render, ts, p, done) == Ok(done + values, p + |Commas(items)| + if trailing then 1 else 0)
    decreases |items|
  {
    hide ListAt, ListNext;
    var tail := Tail(trailing);
    SitsSplit(Commas(items), tail, p, ts);
    ListEnds(render, ts, p + |Commas(items)|, trailing);
    if items == [] {
      values := [];
      assert done + [] == done;
    } else {
      TokenAt(Commas(items), p, ts, 0);
      var value := FirstValue(render, ts, p, done);
      var rest: seq<string> := [];
      if |items| > 1 {
        TokenAt(Commas(items), p, ts, 1);
        LaterItems(ts, p, items, tail);
        rest := ListSays(render, ts, p + 2, done + [value], items[1..], trailing);
      }
      values := [value] + rest;
      assert done + values == (done + [value]) + rest;
      assert rest == [] ==> (done + [value]) + rest == done + [value];
      ListNextStep(render, ts, p + 1, done + [value]);
    }
  }

  lemma ListEnds(render: real -> string, ts: seq<Token>, p: nat, trailing: bool)
    requires Sits(Tail(trailing), p, ts)
    ensures p < |ts| && forall done :: ListNext(render, ts, p, done) == Ok(done, p + if trailing then 1 else 0)
    ensures !trailing ==> forall done :: ListAt(render, ts, p, done) == Ok(done, p)
  {
    var tail := Tail(trailing);
    TokenAt(tail, p, ts, 0);
    if trailing { TokenAt(tail, p, ts, 1); }
  }

  lemma FirstValue(render: real -> string, ts: seq<Token>, p: nat, done: seq<string>) returns (value: string)
    requires p < |ts| && (ts[p].Number? || ts[p].Text? || ts[p].Ident?)
    ensures value == match ts[p] case Number(n) => render(n) case Text(s) => s case Ident(s) => s case _ => ""
    ensures ListAt(render, ts, p, done) == ListNext(render, ts, p + 1, done + [value])
  {
    value := match ts[p] case Number(n) => render(n) case Text(s) => s case Ident(s) => s case _ => "";
  }

  lemma ListNextStep(render: real -> string, ts: seq<Token>, p: nat, done: seq<string>)
    requires p <= |ts|
    ensures At(ts, p).Comma? ==> ListNext(render, ts, p, done) == ListAt(render, ts, p + 1, done)
  {
  }

  lemma LaterItems(ts: seq<Token>, p: nat, items: seq<Token>, tail: seq<Token>)
    requires |items| > 1 && Sits(Commas(items) + tail, p, ts)
    ensures Sits(Commas(items[1..]) + tail, p + 2, ts) && |Commas(items)| == 2 + |Commas(items[1..])|
  {
    assert Commas(items) + tail == [items[0], Comma] + (Commas(items[1..]) + tail);
    SitsSplit([items[0], Comma], Commas(items[1..]) + tail, p, ts);
  }

  /** IN and NOT IN, the words in any case. */
  lemma InSays(render: real -> string, ts: seq<Token>, pos: nat, field: string, not: string, into: string, items: seq<Token>,
               negated: bool, trailing: bool) returns (values: seq<string>)
    requires Spells(into, "IN") && (negated ==> Spells(not, "NOT")) && Values(items) && (trailing ==> items != [])
    requires Sits(Head(field, not, into, negated) + (Commas(items) + Tail(trailing)), pos, ts)
    ensures Listed(render, items, values) && pos <= |ts|
    ensures ComparisonAt(render, ts, pos)
            == Ok(In(field, negated, values), pos + (if negated then 4 else 3) + |Commas(items)| + (if trailing then 2 else 1))
  {
    hide *;
    var head, list := Head(field, not, into, negated), Commas(items) + Tail(trailing);
    SitsSplit(head, list, pos, ts);
    values := ListSays(render, ts, pos + |head|, [], items, trailing);
    assert [] + values == values;
    TokenAt(list, pos + |head|, ts, |list| - 1);
    InHead(render, ts, pos, field, not, into, negated, values, pos + |head| + |list| - 1);
  }

  lemma InHead(render: real -> string, ts: seq<Token>, pos: nat, field: string, not: string, into: string, negated: bool,
               values: seq<string>, close: nat)
    requires Spells(into, "IN") && (negated ==> Spells(not, "NOT"))
    requires Sits(Head(field, not, into, negated), pos, ts)
    requires var p := pos + if negated then 4 else 3;
             p <= |ts| && ListAt(render, ts, p, []) == Ok(values, close) && At(ts, close).RParen?
    ensures pos <= |ts| && ComparisonAt(render, ts, pos) == Ok(In(field, negated, values), close + 1)
  {
    hide ListAt, Keyword, Spells;
    var head := Head(field, not, into, negated);
    TokenAt(head, pos, ts, 0);
    TokenAt(head, pos, ts, 1);
    TokenAt(head, pos, ts, 2);
    if negated { TokenAt(head, pos, ts, 3); }
    WordOf(into, "IN");
    if negated { WordOf(not, "NOT"); }
  }

  lemma WordOf(text: string, kw: string)
    requires Spells(text, kw) && kw in ["IN", "NOT"]
    ensures Keyword(Ident(text), kw) && !Keyword(Ident(text), "IS")
    ensures kw == "IN" ==> !Keyword(Ident(text), "NOT")
  {
    KeywordSays(Ident(text), kw);
    KeywordSays(Ident(text), "IS");
    KeywordSays(Ident(text), "NOT");
  }

  // ---- Nesting -------------------------------------------------------------------------------------------------------

  function Repeated(t: Token, k: nat): (ts: seq<Token>)
    ensures |ts| == k && forall i | 0 <= i < k :: ts[i] == t
  {
    seq(k, _ => t)
  }

  function Negated(k: nat, c: Comparison): Expr {
    if k == 0 then Leaf(c) else Not(Negated(k - 1, c))
  }

  lemma {:induction false} NegatedTokens(k: nat, c: Comparison)
    requires ComparisonPrintable(c)
    ensures Printable(Negated(k, c)) && NeedNot(Negated(k, c)) == k + 1
    ensures NotTokens(Negated(k, c)) == Repeated(Ident("NOT"), k) + ComparisonTokens(c)
  {
    hide ComparisonTokens, ComparisonPrintable;
    var nots, tokens := Repeated(Ident("NOT"), k), ComparisonTokens(c);
    if k == 0 {
      assert nots + tokens == tokens;
    } else {
      NegatedTokens(k - 1, c);
      var fewer := Repeated(Ident("NOT"), k - 1);
      assert nots == [Ident("NOT")] + fewer;
      assert nots + tokens == [Ident("NOT")] + (fewer + tokens);
    }
  }

  /** Up to 126 times NOT in front of a comparison. */
  lemma NotsParse(render: real -> string, k: nat, c: Comparison)
    requires ComparisonPrintable(c)
    ensures var ts := Repeated(Ident("NOT"), k) + ComparisonTokens(c);
            Parse(render, ts) == if k <= 126 then Ok(Negated(k, c), |ts|) else Fail("expression nesting too deep")
  {
    hide Parse, ComparisonTokens;
    NegatedTokens(k, c);
    RoundTrip(render, Negated(k, c));
    assert !Negated(k, c).Or? && !Negated(k, c).And?;
  }

  function Wrapped(k: nat, c: Comparison): seq<Token> {
    if k == 0 then ComparisonTokens(c) else [LParen] + (Wrapped(k - 1, c) + [RParen])
  }

  lemma {:induction false} WrappedParses(render: real -> string, ts: seq<Token>, pos: nat, depth: nat, k: nat, c: Comparison)
    requires Sits(Wrapped(k, c), pos, ts) && ComparisonPrintable(c)
    ensures pos < pos + |Wrapped(k, c)| <= |ts|
    ensures NotAt(render, ts, pos, depth) == Outcome(Leaf(c), depth, 2 * k + 1, pos + |Wrapped(k, c)|)
    decreases k
  {
    hide NotAt, OrAt, AndAt, ComparisonTokens, Outcome;
    if k == 0 {
      LeafParses(render, ts, pos, depth, c);
      SomeTokens(c);
    } else {
      var close := pos + 1 + |Wrapped(k - 1, c)|;
      SitsSplit([LParen], Wrapped(k - 1, c) + [RParen], pos, ts);
      SitsSplit(Wrapped(k - 1, c), [RParen], pos + 1, ts);
      SitsOne(RParen, close, ts);
      Closing(ts, close);
      WrappedParses(render, ts, pos + 1, depth + 2, k - 1, c);
      AndAlone(render, ts, pos + 1, depth + 2, c, 2 * k - 1, close);
      AloneInOr(render, ts, pos + 1, depth + 1, Leaf(c), 2 * k - 1, close);
      ParenthesesParse(render, ts, pos, depth, Leaf(c), 2 * k, close);
    }
  }

  lemma SomeTokens(c: Comparison)
    ensures ComparisonTokens(c) != []
  {
  }

  lemma AndAlone(render: real -> string, ts: seq<Token>, pos: nat, depth: nat, c: Comparison, need: nat, next: nat)
    requires pos < next <= |ts| && NoAnd(At(ts, next))
    requires NotAt(render, ts, pos, depth) == Outcome(Leaf(c), depth, need, next)
    ensures AndAt(render, ts, pos, depth) == Outcome(Leaf(c), depth, need, next)
  {
    hide NotAt;
  }

  /** Up to 63 pairs of parentheses around a comparison. */
  lemma ParenthesesSay(render: real -> string, k: nat, c: Comparison)
    requires ComparisonPrintable(c)
    ensures Parse(render, Wrapped(k, c)) == if k <= 63 then Ok(Leaf(c), |Wrapped(k, c)|) else Fail("expression nesting too deep")
  {
    hide NotAt, OrAt, AndAt, ComparisonTokens;
    var ts := Wrapped(k, c);
    SitsWhole(ts);
    NothingBehind(ts);
    WrappedParses(render, ts, 0, 1, k, c);
    AndAlone(render, ts, 0, 1, c, 2 * k + 1, |ts|);
    AloneInOr(render, ts, 0, 0, Leaf(c), 2 * k + 1, |ts|);
  }
}
