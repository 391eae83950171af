/** `predicate_key`: the text under which predicates are shared between rules. */
module PredicateKey {
  import opened Bits
  import opened Decimals
  import opened Predicates
  import C = ClosedValues

  /** The unit separator, '\x1f', that closes each value of a list. */
  const SEPARATOR: char := '\U{1f}'

  /** Text that cannot continue a number. */
  predicate Stops(s: string) {
    s == "" || !IsNumeral(s[0])
  }

  function Fields(sep: char, ints: seq<int>, tail: string): string {
    if ints == [] then tail else [sep] + Dec(ints[0]) + Fields(sep, ints[1..], tail)
  }

  /** Every value closed by the separator. */
  function Joined(vs: seq<string>): string {
    if vs == [] then "" else vs[0] + [SEPARATOR] + Joined(vs[1..])
  }

  function TextualKey(values: Textual): string {
    match values
    case One(s) => "s:" + s
    case Many(vs) => "v:" + Joined(vs)
  }

  function NodesKey(nodes: seq<ValueNode>): string {
    if nodes == [] then ""
    else
      var n := nodes[0];
      "|n:" + Dec(n.kind) + Fields(',', [n.col, n.ctype, n.literal, n.left, n.right], NodesKey(nodes[1..]))
  }

  function Tag(p: Predicate): string {
    match p
    case Numeric(_, _, _, _) => "n"
    case Range(_, _, _, _, _) => "r"
    case Categorical(_, _, _) => "c"
    case ArrayLen(_, _, _) => "al"
    case NullTest(_, _) => "z"
    case CrossField(_, _, _, _, _) => "x"
    case Bitfield(_, _, _, _) => "b"
    case Str(_, _, _, _) => "s"
    case Regex(_, _, _) => "re"
    case Lookup(_, _, _, _, _, _) => "lk"
    case Cidr(_, _, _, _, _) => "ip"
    case Temporal(_, _, _, _, _, _) => "t"
    case Geo(_, _, _, _, _, _) => "g"
    case Arithmetic(_, _, _, _, _) => "a"
    case Window(_, _, _, _) => "w"
  }

  /** The numbers that follow the tag. */
  function Ints(p: Predicate): seq<int> {
    match p
    case Numeric(col, ctype, op, threshold) => [col, ctype, op, threshold]
    case Range(col, ctype, op, lower, upper) => [col, ctype, op, lower, upper]
    case Categorical(col, op, _) => [col, op]
    case ArrayLen(col, op, length) => [col, op, length]
    case NullTest(col, op) => [col, op]
    case CrossField(col, right, ctype, rtype, op) => [col, right, ctype, rtype, op]
    case Bitfield(col, ctype, op, mask) => [col, ctype, op, mask]
    case Str(col, op, _, _) => [col, op]
    case Regex(col, op, _) => [col, op]
    case Lookup(col, ctype, op, _, _, _) => [col, ctype, op]
    case Cidr(col, ctype, op, network, mask) => [col, ctype, op, network, mask]
    case Temporal(col, op, value, lower, upper, days) => [col, op, value, lower, upper] + days
    case Geo(col, lon, otherLat, otherLon, op, threshold) => [col, lon, otherLat, otherLon, op, threshold]
    case Arithmetic(op, threshold, other, otherType, _) => [op, threshold, other, otherType]
    case Window(col, ctype, op, threshold) => [col, ctype, op, threshold]
  }

  /** The text that follows the numbers. */
  function Rest(p: Predicate): string {
    match p
    case Categorical(_, _, values) => "|" + TextualKey(values)
    case Str(_, _, pattern, length) => "|" + (pattern + "|" + Dec(length))
    case Regex(_, _, pattern) => "|" + pattern
    case Lookup(_, _, _, name, kind, generation) => "|" + ((name + "|" + Dec(kind)) + "|" + Dec(generation))
    case Arithmetic(_, _, _, _, nodes) => NodesKey(nodes)
    case _ => ""
  }

  function Key(p: Predicate): string {
    Tag(p) + Fields('|', Ints(p), Rest(p))
  }

  /** No categorical value holds the separator. */
  predicate Clean(p: Predicate) {
    p.Categorical? && p.values.Many? ==> forall k | 0 <= k < |p.values.vs| :: SEPARATOR !in p.values.vs[k]
  }

  // ---- Reading a key back ----------------------------------------------------------------------------

  lemma {:induction false} DecInjective(m: int, n: int)
    requires Dec(m) == Dec(n)
    ensures m == n
    decreases if m < 0 then 1 - m else m
  {
    if m < 0 {
      assert Dec(m)[0] == '-';
      DecHead(n);
      assert Dec(m)[1..] == Dec(-m) && Dec(n)[1..] == Dec(-n);
      DecInjective(-m, -n);
    } else {
      DecHead(m);
      DecHead(n);
      assert n >= 0;
      DecLast(m);
      DecLast(n);
      if m >= 10 || n >= 10 {
        DecLength(m);
        DecLength(n);
        assert Dec(m)[..|Dec(m)| - 1] == Dec(m / 10) && Dec(n)[..|Dec(n)| - 1] == Dec(n / 10);
        DecInjective(m / 10, n / 10);
      }
    }
  }

  lemma {:induction false} DecHead(n: int)
    ensures Dec(n)[0] == '-' <==> n < 0
  {
    if n >= 10 { DecHead(n / 10); }
  }

  lemma DecLast(n: int)
    requires n >= 0
    ensures Dec(n)[|Dec(n)| - 1] == Digit(n % 10)
  {
  }

  lemma DecLength(n: int)
    requires n >= 0
    ensures |Dec(n)| == 1 <==> n < 10
  {
  }

  /** How many characters at the front satisfy a test. */
  function Span(u: string, test: char -> bool): nat {
    if u == "" || !test(u[0]) then 0 else 1 + Span(u[1..], test)
  }

  lemma {:induction false} SpanIs(u: string, test: char -> bool, k: nat)
    requires k <= |u| && (forall j | 0 <= j < k :: test(u[j])) && (k == |u| || !test(u[k]))
    ensures Span(u, test) == k
  {
    if k != 0 { SpanIs(u[1..], test, k - 1); }
  }

  /** A number followed by text that cannot continue it. */
  lemma HeadNumber(m: int, n: int, s: string, t: string)
    requires Dec(m) + s == Dec(n) + t && Stops(s) && Stops(t)
    ensures m == n && s == t
  {
    var a, b := Dec(m), Dec(n);
    SpanIs(a + s, IsNumeral, |a|);
    SpanIs(b + t, IsNumeral, |b|);
    assert (a + s)[..|a|] == a && (b + t)[..|b|] == b;
    assert (a + s)[|a|..] == s && (b + t)[|b|..] == t;
    DecInjective(m, n);
  }

  lemma FieldsStop(sep: char, ints: seq<int>, tail: string)
    requires !IsNumeral(sep) && Stops(tail)
    ensures Stops(Fields(sep, ints, tail))
  {
  }

  lemma {:induction false} FieldsInjective(sep: char, a: seq<int>, b: seq<int>, s: string, t: string)
    requires !IsNumeral(sep) && Stops(s) && Stops(t)
    requires |a| == |b| || (s == "" && t == "")
    requires Fields(sep, a, s) == Fields(sep, b, t)
    ensures a == b && s == t
    decreases |a|
  {
    if a != [] && b != [] {
      var x, y := Fields(sep, a[1..], s), Fields(sep, b[1..], t);
      assert Fields(sep, a, s)[1..] == Dec(a[0]) + x && Fields(sep, b, t)[1..] == Dec(b[0]) + y;
      FieldsStop(sep, a[1..], s);
      FieldsStop(sep, b[1..], t);
      hide Fields, Dec;
      HeadNumber(a[0], b[0], x, y);
      FieldsInjective(sep, a[1..], b[1..], s, t);
    }
  }

  /** Two texts that end in the same separator and number. */
  lemma LastNumber(s: string, t: string, m: int, n: int)
    requires s + "|" + Dec(m) == t + "|" + Dec(n)
    ensures s == t && m == n
  {
    var u, v := s + "|" + Dec(m), t + "|" + Dec(n);
    LastBar(s, Dec(m));
    LastBar(t, Dec(n));
    assert u[..|s|] == s && v[..|t|] == t;
    assert u[|s| + 1..] == Dec(m) && v[|t| + 1..] == Dec(n);
    DecInjective(m, n);
  }

  function Reverse(u: string): (v: string)
    ensures |v| == |u| && forall k | 0 <= k < |u| :: v[k] == u[|u| - 1 - k]
  {
    seq(|u|, k requires 0 <= k < |u| => u[|u| - 1 - k])
  }

  lemma LastBar(s: string, d: string)
    requires forall k | 0 <= k < |d| :: IsNumeral(d[k])
    ensures Span(Reverse(s + "|" + d), IsNumeral) == |d| && |s| == |s + "|" + d| - |d| - 1
  {
    SpanIs(Reverse(s + "|" + d), IsNumeral, |d|);
  }

  predicate NotSeparator(c: char) {
    c != SEPARATOR
  }

  lemma {:induction false} JoinedInjective(vs: seq<string>, ws: seq<string>)
    requires forall k | 0 <= k < |vs| :: SEPARATOR !in vs[k]
    requires forall k | 0 <= k < |ws| :: SEPARATOR !in ws[k]
    requires Joined(vs) == Joined(ws)
    ensures vs == ws
    decreases |vs|
  {
    if vs != [] && ws != [] {
      var u, v := Joined(vs), Joined(ws);
      var a, b := |vs[0]|, |ws[0]|;
      SpanIs(u, NotSeparator, a);
      SpanIs(v, NotSeparator, b);
      assert u[..a] == vs[0] && v[..b] == ws[0];
      assert u[a + 1..] == Joined(vs[1..]) && v[b + 1..] == Joined(ws[1..]);
      JoinedInjective(vs[1..], ws[1..]);
    }
  }

  lemma TextualInjective(a: Textual, b: Textual)
    requires a.Many? ==> forall k | 0 <= k < |a.vs| :: SEPARATOR !in a.vs[k]
    requires b.Many? ==> forall k | 0 <= k < |b.vs| :: SEPARATOR !in b.vs[k]
    requires TextualKey(a) == TextualKey(b)
    ensures a == b
  {
    assert TextualKey(a)[0] == if a.One? then 's' else 'v';
    assert TextualKey(b)[0] == if b.One? then 's' else 'v';
    if a.One? {
      assert TextualKey(a)[2..] == a.s && TextualKey(b)[2..] == b.s;
    } else {
      assert TextualKey(a)[2..] == Joined(a.vs) && TextualKey(b)[2..] == Joined(b.vs);
      JoinedInjective(a.vs, b.vs);
    }
  }

  lemma {:induction false} NodesInjective(a: seq<ValueNode>, b: seq<ValueNode>)
    requires NodesKey(a) == NodesKey(b)
    ensures a == b
    decreases |a|
  {
    if a != [] && b != [] {
      var m, n := a[0], b[0];
      var s, t := NodesKey(a[1..]), NodesKey(b[1..]);
      var i, j := NodeInts(m), NodeInts(n);
      assert NodesKey(a)[3..] == Dec(m.kind) + Fields(',', i, s);
      assert NodesKey(b)[3..] == Dec(n.kind) + Fields(',', j, t);
      hide NodesKey, Fields, NodeInts;
      FieldsStop(',', i, s);
      FieldsStop(',', j, t);
      HeadNumber(m.kind, n.kind, Fields(',', i, s), Fields(',', j, t));
      FieldsInjective(',', i, j, s, t);
      NodeIntsInjective(m, n);
      NodesInjective(a[1..], b[1..]);
    }
  }

  function NodeInts(n: ValueNode): (ints: seq<int>)
    ensures |ints| == 5
  {
    [n.col, n.ctype, n.literal, n.left, n.right]
  }

  lemma NodeIntsInjective(m: ValueNode, n: ValueNode)
    requires m.kind == n.kind && NodeInts(m) == NodeInts(n)
    ensures m == n
  {
    var i, j := NodeInts(m), NodeInts(n);
    assert i[0] == j[0] && i[1] == j[1] && i[2] == j[2] && i[3] == j[3] && i[4] == j[4];
  }

  predicate NotBar(c: char) {
    c != '|'
  }

  lemma TagSpan(p: Predicate)
    ensures Span(Key(p), NotBar) == |Tag(p)|
  {
    SpanIs(Key(p), NotBar, |Tag(p)|);
  }

  lemma SameTag(p: Predicate, q: Predicate)
    requires Key(p) == Key(q)
    ensures Tag(p) == Tag(q) && Fields('|', Ints(p), Rest(p)) == Fields('|', Ints(q), Rest(q))
  {
    hide Fields, Ints, Rest, Tag;
    TagSpan(p);
    TagSpan(q);
    var a, b := Tag(p), Tag(q);
    assert Key(p)[..|a|] == a && Key(q)[..|b|] == b;
    assert Key(p)[|a|..] == Fields('|', Ints(p), Rest(p)) && Key(q)[|b|..] == Fields('|', Ints(q), Rest(q));
  }

  /** Equal keys mean equal predicates, output register aside, when no value holds the separator. */
  lemma KeyInjective(p: Predicate, q: Predicate)
    requires Key(p) == Key(q) && Clean(p) && Clean(q)
    ensures p == q
  {
    SameTag(p, q);
    FieldsInjective('|', Ints(p), Ints(q), Rest(p), Rest(q));
    if p.Categorical? || p.Str? || p.Regex? || p.Lookup? {
      SameText(p, q);
    } else {
      SameNumbers(p, q);
    }
  }

  lemma SameText(p: Predicate, q: Predicate)
    requires Tag(p) == Tag(q) && Ints(p) == Ints(q) && Rest(p) == Rest(q) && Clean(p) && Clean(q)
    requires p.Categorical? || p.Str? || p.Regex? || p.Lookup?
    ensures p == q
  {
    var a, b, s, t := Ints(p), Ints(q), Rest(p), Rest(q);
    assert forall k | 0 <= k < |a| :: a[k] == b[k];
    hide Fields, Dec, Ints;
    match p
    case Categorical(_, _, values) =>
      assert s[1..] == TextualKey(values) && t[1..] == TextualKey(q.values);
      TextualInjective(values, q.values);
    case Str(_, _, pattern, length) =>
      assert s[1..] == pattern + "|" + Dec(length) && t[1..] == q.pattern + "|" + Dec(q.length);
      LastNumber(pattern, q.pattern, length, q.length);
    case Regex(_, _, pattern) =>
      assert s[1..] == pattern && t[1..] == q.pattern;
    case Lookup(_, _, _, name, kind, generation) =>
      var x, y := name + "|" + Dec(kind), q.name + "|" + Dec(q.kind);
      assert s[1..] == x + "|" + Dec(generation) && t[1..] == y + "|" + Dec(q.generation);
      LastNumber(x, y, generation, q.generation);
      LastNumber(name, q.name, kind, q.kind);
  }

  lemma SameNumbers(p: Predicate, q: Predicate)
    requires Tag(p) == Tag(q) && Ints(p) == Ints(q) && Rest(p) == Rest(q)
    requires !(p.Categorical? || p.Str? || p.Regex? || p.Lookup?)
    ensures p == q
  {
    var a, b := Ints(p), Ints(q);
    assert forall k | 0 <= k < |a| :: a[k] == b[k];
    hide NodesKey;
    if p.Temporal? {
      assert a[5..] == p.days && b[5..] == q.days;
    } else if p.Arithmetic? {
      NodesInjective(p.nodes, q.nodes);
    }
  }

  // ---- Values that hold the separator ------------------------------------------------------------------------

  /** How many separators a text holds. */
  function Separators(u: string): nat {
    if u == "" then 0 else (if u[0] == SEPARATOR then 1 else 0) + Separators(u[1..])
  }

  lemma {:induction false} SeparatorsConcat(u: string, v: string)
    ensures Separators(u + v) == Separators(u) + Separators(v)
  {
    if u == "" {
      assert u + v == v;
    } else {
      assert (u + v)[1..] == u[1..] + v;
      SeparatorsConcat(u[1..], v);
    }
  }

  lemma {:induction false} NoSeparators(u: string)
    ensures Separators(u) == 0 <==> SEPARATOR !in u
  {
    if u != "" {
      assert u == [u[0]] + u[1..];
      NoSeparators(u[1..]);
    }
  }

  ghost predicate CleanValues(vs: seq<string>) {
    forall k | 0 <= k < |vs| :: SEPARATOR !in vs[k]
  }

  /** A joined text closes every value once, so only values that hold separators add any. */
  lemma {:induction false} JoinedSeparators(vs: seq<string>)
    ensures Separators(Joined(vs)) >= |vs|
    ensures Separators(Joined(vs)) == |vs| <==> CleanValues(vs)
  {
    if vs != [] {
      var closed := vs[0] + [SEPARATOR];
      SeparatorsConcat(vs[0], [SEPARATOR]);
      SeparatorsConcat(closed, Joined(vs[1..]));
      assert Separators([SEPARATOR]) == 1;
      NoSeparators(vs[0]);
      JoinedSeparators(vs[1..]);
      assert vs == [vs[0]] + vs[1..];
    }
  }

  /** The values that a joined text reads as when every separator closes one. */
  function Pieces(u: string, open: string): (ws: seq<string>) {
    if u == "" then []
    else if u[0] == SEPARATOR then [open] + Pieces(u[1..], "")
    else Pieces(u[1..], open + [u[0]])
  }

  /** Reading a text that ends in a separator and joining again gives the text. */
  lemma {:induction false} PiecesJoin(u: string, open: string)
    requires SEPARATOR !in open && (u == "" ==> open == "") && (u != "" ==> u[|u| - 1] == SEPARATOR)
    ensures Joined(Pieces(u, open)) == open + u && CleanValues(Pieces(u, open))
  {
    if u != "" {
      if u[0] == SEPARATOR {
        PiecesJoin(u[1..], "");
        var ws := Pieces(u, open);
        assert ws[1..] == Pieces(u[1..], "");
        assert u == [SEPARATOR] + u[1..];
      } else {
        PiecesJoin(u[1..], open + [u[0]]);
        assert open + u == (open + [u[0]]) + u[1..];
      }
    }
  }

  lemma {:induction false} JoinedEnds(vs: seq<string>)
    requires vs != []
    ensures Joined(vs) != "" && Joined(vs)[|Joined(vs)| - 1] == SEPARATOR
  {
    if |vs| > 1 { JoinedEnds(vs[1..]); }
  }

  /** The separator-free values with the same joined text. */
  function Split(vs: seq<string>): seq<string> {
    Pieces(Joined(vs), "")
  }

  lemma SplitJoins(vs: seq<string>)
    ensures Joined(Split(vs)) == Joined(vs) && CleanValues(Split(vs))
  {
    if vs != [] { JoinedEnds(vs); }
    PiecesJoin(Joined(vs), "");
  }

  /** A longer list shares the key of a list exactly when one of its values holds the separator. */
  lemma SeparatorCollidesIff(p: Predicate)
    requires p.Categorical? && p.values.Many?
    ensures !Clean(p) <==>
            exists ws: seq<string> :: |ws| > |p.values.vs| && Key(p.(values := Many(ws))) == Key(p)
  {
    var vs := p.values.vs;
    JoinedSeparators(vs);
    if Clean(p) {
      forall ws: seq<string> | |ws| > |vs| ensures Key(p.(values := Many(ws))) != Key(p) {
        JoinedSeparators(ws);
        if Key(p.(values := Many(ws))) == Key(p) {
          SameJoined(p, p.(values := Many(ws)));
        }
      }
    } else {
      SplitJoins(vs);
      JoinedSeparators(Split(vs));
      SameKey(p, Split(vs));
    }
  }

  /** The separator is the character 31. */
  lemma CleanSays(p: Predicate)
    requires p.Categorical? && p.values.Many?
    ensures Clean(p) <==> forall k | 0 <= k < |p.values.vs| :: forall j | 0 <= j < |p.values.vs[k]| :: p.values.vs[k][j] as int != 31
  {
    if !Clean(p) {
      var k :| 0 <= k < |p.values.vs| && SEPARATOR in p.values.vs[k];
      var j :| 0 <= j < |p.values.vs[k]| && p.values.vs[k][j] == SEPARATOR;
    }
  }

  lemma SameKey(p: Predicate, ws: seq<string>)
    requires p.Categorical? && p.values.Many? && Joined(ws) == Joined(p.values.vs)
    ensures Key(p.(values := Many(ws))) == Key(p)
  {
  }

  lemma SameJoined(p: Predicate, q: Predicate)
    requires p.Categorical? && p.values.Many? && q.Categorical? && q.values.Many?
    requires Key(p) == Key(q) && Ints(p) == Ints(q)
    ensures Joined(p.values.vs) == Joined(q.values.vs)
  {
    SameTag(p, q);
    FieldsInjective('|', Ints(p), Ints(q), Rest(p), Rest(q));
    assert Rest(p)[1..] == TextualKey(p.values) && Rest(q)[1..] == TextualKey(q.values);
    assert TextualKey(p.values)[2..] == Joined(p.values.vs) && TextualKey(q.values)[2..] == Joined(q.values.vs);
  }

  /** Whatever the operator and whichever value holds the separator: the list split there shares the key and answers
      differently on a row of closed values. */
  lemma SplitAnswersDifferently(p: Predicate) returns (q: Predicate, w: World, row: Row)
    requires p.Categorical? && p.values.Many? && !Clean(p)
    ensures q == p.(values := Many(Split(p.values.vs))) && Clean(q) && Key(q) == Key(p)
    ensures Holds(w, p, row) != Holds(w, q, row)
  {
    hide Key, Split, Joined, CategoricalHolds, C.BitsOf, And, Bit;
    var vs := p.values.vs;
    var k :| 0 <= k < |vs| && SEPARATOR in vs[k];
    q := p.(values := Many(Split(vs)));
    SplitIsClean(p);
    w := World(_ => 0.0, x => x, (_, v) => if v == vs[k] then 1 else 0, (_, _) => false, (_, _) => false, (_, _) => false);
    var a, b := Ids(w, p.col, p.values), Ids(w, p.col, q.values);
    assert a[k] == 1;
    forall j | 0 <= j < |b| ensures b[j] == 0 { assert SEPARATOR !in Split(vs)[j]; }
    row := if p.op == CONTAINS_ALL then _ => Labels(C.BitsOf(b)) else _ => Labels(C.BitsOf([1]));
    SetsDiffer(a, b, p.op);
  }

  lemma SplitIsClean(p: Predicate)
    requires p.Categorical? && p.values.Many?
    ensures var q := p.(values := Many(Split(p.values.vs))); Clean(q) && Key(q) == Key(p)
    ensures CleanValues(Split(p.values.vs))
  {
    hide Key, Split, Joined;
    SplitJoins(p.values.vs);
    SameKey(p, Split(p.values.vs));
  }

  /** Requests with and without digit 1 answer differently on some set: the smaller request's own, or digit 1 alone. */
  lemma SetsDiffer(a: seq<int>, b: seq<int>, op: OpType)
    requires 1 in a && 1 !in b
    ensures op == CONTAINS_ALL ==> CategoricalHolds(Labels(C.BitsOf(b)), op, a) != CategoricalHolds(Labels(C.BitsOf(b)), op, b)
    ensures op != CONTAINS_ALL ==> CategoricalHolds(Labels(C.BitsOf([1])), op, a) != CategoricalHolds(Labels(C.BitsOf([1])), op, b)
  {
    hide C.BitsOf, And, Bit;
    var x, y, one := C.BitsOf(a), C.BitsOf(b), C.BitsOf([1]);
    forall k: nat ensures (Bit(x, k) <==> k < C.WIDTH && k in a) && (Bit(y, k) <==> k < C.WIDTH && k in b) && (Bit(one, k) <==> k == 1) {
      C.BitsOfBit(a, k);
      C.BitsOfBit(b, k);
      C.BitsOfBit([1], k);
    }
    C.AndCovers(y, x);
    C.AndCovers(y, y);
    C.AndNonZero(one, x);
    C.AndNonZero(one, y);
    assert !C.Passes(x, y, 1);
    assert C.BothSet(one, x, 1);
  }
}
