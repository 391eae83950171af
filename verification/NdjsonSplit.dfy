/** Cutting a buffer of newline-separated records into chunks for parallel parsing. */
module NdjsonSplit {

  /** 8 MiB: smaller buffers are not cut. */
  const PARALLEL_THRESHOLD := 0x80_0000

  datatype Chunk = Chunk(start: nat, end: nat)

  /** The position of the first newline from `from` on and before `upto`, or `upto`. */
  function NextNewline(text: string, from: nat, upto: nat): (p: nat)
    requires from <= upto <= |text|
    ensures from <= p <= upto && (p < upto ==> text[p] == '\n')
    decreases upto - from
  {
    if from == upto || text[from] == '\n' then from else NextNewline(text, from + 1, upto)
  }

  ghost predicate NoNewline(text: string, from: nat, upto: int)
    requires upto <= |text|
  {
    forall k | from <= k < upto :: text[k] != '\n'
  }

  lemma {:induction false} NextNewlineFirst(text: string, from: nat, upto: nat)
    requires from <= upto <= |text|
    ensures NoNewline(text, from, NextNewline(text, from, upto))
    decreases upto - from
  {
    if from != NextNewline(text, from, upto) { NextNewlineFirst(text, from + 1, upto); }
  }

  /** The chunks lie end to end over the whole buffer, and every one but the last ends just behind a
      newline. */
  ghost predicate Tiles(text: string, chunks: seq<Chunk>) {
    && chunks != []
    && chunks[0].start == 0 && chunks[|chunks| - 1].end == |text|
    && (forall k | 0 <= k < |chunks| :: chunks[k].start <= chunks[k].end <= |text|)
    && (forall k | 0 <= k < |chunks| - 1 :: Joined(text, chunks[k], chunks[k + 1]))
  }

  ghost predicate Joined(text: string, left: Chunk, right: Chunk) {
    left.end == right.start && 0 < left.end <= |text| && text[left.end - 1] == '\n'
  }

  /** What the chunks found so far cover. */
  ghost predicate TilesTo(text: string, chunks: seq<Chunk>, start: nat) {
    && start <= |text|
    && (if chunks == [] then start == 0 else chunks[0].start == 0 && chunks[|chunks| - 1].end == start)
    && (forall k | 0 <= k < |chunks| :: chunks[k].start < chunks[k].end <= |text|)
    && (forall k | 0 <= k < |chunks| - 1 :: Joined(text, chunks[k], chunks[k + 1]))
    && (0 < start < |text| ==> text[start - 1] == '\n')
  }

  /** `split_ndjson`. */
  method SplitNdjson(text: string, threads: int) returns (chunks: seq<Chunk>)
    ensures Tiles(text, chunks)
    ensures threads <= 1 || |text| < PARALLEL_THRESHOLD ==> |chunks| == 1
    ensures |chunks| > 1 ==> forall k | 0 <= k < |chunks| :: chunks[k].start < chunks[k].end
    ensures threads > 1 && |text| >= 0x80_0000 ==>
              Aimed(text, chunks, if threads < |text| / 0x80_0000 + 1 then threads else |text| / 0x80_0000 + 1)
  {
    if threads <= 1 || |text| < PARALLEL_THRESHOLD {
      return [Chunk(0, |text|)];
    }
    chunks := SplitParts(text, Parts(|text|, threads));
  }

  /** `end` is just behind the first newline from `aim` on, or at the end of a text without one. */
  ghost predicate Boundary(text: string, aim: nat, end: nat) {
    && end <= |text|
    && (if aim < end && text[end - 1] == '\n' then NoNewline(text, aim, end - 1) else end == |text| && NoNewline(text, aim, |text|))
  }

  ghost predicate EndsChunk(text: string, chunks: seq<Chunk>, aim: nat) {
    exists k :: 0 <= k < |chunks| && Boundary(text, aim, chunks[k].end)
  }

  ghost predicate PartEnds(text: string, chunks: seq<Chunk>, parts: nat, i: nat)
    requires parts > 0
  {
    EndsChunk(text, chunks, |text| * i / parts)
  }

  ghost predicate EndsAimed(text: string, end: nat, parts: nat)
    requires parts > 0
  {
    exists i: nat :: 1 <= i <= parts && Boundary(text, |text| * i / parts, end)
  }

  /** The chunks end behind the newlines that follow the equal parts of the text, and nowhere else. */
  ghost predicate Aimed(text: string, chunks: seq<Chunk>, parts: nat) {
    && parts > 0
    && (forall i | 1 <= i <= parts :: PartEnds(text, chunks, parts, i))
    && (forall k | 0 <= k < |chunks| :: EndsAimed(text, chunks[k].end, parts))
  }

  /** What is aimed at so far. */
  ghost predicate AimedTo(text: string, chunks: seq<Chunk>, parts: nat, upto: nat) {
    && parts > 0
    && (forall i | 1 <= i < upto :: PartEnds(text, chunks, parts, i))
    && (forall k | 0 <= k < |chunks| :: EndsAimed(text, chunks[k].end, parts))
  }

  lemma EndIsBoundary(text: string, aim: nat, end: nat)
    requires EndsAt(text, aim, end) && text != ""
    ensures Boundary(text, aim, end) && 0 < end
  {
    NextNewlineFirst(text, aim, |text|);
  }

  /** One more part: a new chunk, or the end of the last one again. */
  lemma AimedMore(text: string, chunks: seq<Chunk>, parts: nat, i: nat, end: nat, more: seq<Chunk>)
    requires AimedTo(text, chunks, parts, i) && 1 <= i <= parts && Boundary(text, |text| * i / parts, end)
    requires if more == chunks then chunks != [] && chunks[|chunks| - 1].end == end
             else more != [] && more[..|more| - 1] == chunks && more[|more| - 1].end == end
    ensures AimedTo(text, more, parts, i + 1)
  {
    hide Boundary, PartEnds, EndsAimed;
    forall j | 1 <= j < i + 1 ensures PartEnds(text, more, parts, j) {
      if j == i { PartEndsNow(text, more, parts, i); } else { PartStaysEnded(text, chunks, more, parts, j); }
    }
    forall k | 0 <= k < |more| ensures EndsAimed(text, more[k].end, parts) {
      if k < |chunks| { assert more[k] == chunks[k]; } else { EndIsAimed(text, end, parts, i); }
    }
  }

  lemma EndIsAimed(text: string, end: nat, parts: nat, i: nat)
    requires 1 <= i <= parts && Boundary(text, |text| * i / parts, end)
    ensures EndsAimed(text, end, parts)
  {
  }

  lemma PartEndsNow(text: string, more: seq<Chunk>, parts: nat, i: nat)
    requires parts > 0 && more != [] && Boundary(text, |text| * i / parts, more[|more| - 1].end)
    ensures PartEnds(text, more, parts, i)
  {
    hide Boundary;
  }

  lemma PartStaysEnded(text: string, chunks: seq<Chunk>, more: seq<Chunk>, parts: nat, i: nat)
    requires parts > 0 && PartEnds(text, chunks, parts, i) && |chunks| <= |more| && more[..|chunks|] == chunks
    ensures PartEnds(text, more, parts, i)
  {
    hide Boundary;
    var k :| 0 <= k < |chunks| && Boundary(text, |text| * i / parts, chunks[k].end);
    assert more[k] == more[..|chunks|][k];
  }

  /** Once the end of the text is reached, every later part ends there. */
  lemma AimedAll(text: string, chunks: seq<Chunk>, parts: nat, i: nat)
    requires AimedTo(text, chunks, parts, i + 1) && 1 <= i <= parts && chunks != [] && chunks[|chunks| - 1].end == |text|
    requires NoNewline(text, |text| * i / parts, |text| - 1)
    ensures Aimed(text, chunks, parts)
  {
    hide NoNewline, PartEnds, EndsAimed;
    forall j | i < j <= parts ensures PartEnds(text, chunks, parts, j) {
      EndForLater(text, chunks, parts, i, j);
    }
  }

  lemma EndForLater(text: string, chunks: seq<Chunk>, parts: nat, i: nat, j: nat)
    requires i <= j <= parts && parts > 0 && NoNewline(text, |text| * i / parts, |text| - 1)
    requires chunks != [] && chunks[|chunks| - 1].end == |text|
    ensures PartEnds(text, chunks, parts, j)
  {
    AimsRise(text, i, j, parts);
    BoundaryLater(text, |text| * i / parts, |text| * j / parts);
    hide Boundary;
    assert Boundary(text, |text| * j / parts, chunks[|chunks| - 1].end);
  }

  lemma BoundaryLater(text: string, aim: nat, later: nat)
    requires aim <= later && NoNewline(text, aim, |text| - 1)
    ensures Boundary(text, later, |text|)
  {
  }

  lemma AimsRise(text: string, i: nat, j: nat, parts: nat)
    requires i <= j <= parts && parts > 0
    ensures |text| * i / parts <= |text| * j / parts
  {
    Scaled(i, j, |text|);
    DivMonotone(|text| * i, |text| * j, parts);
  }

  /** What the loop of `split_ndjson` keeps. */
  ghost predicate Cut(text: string, parts: nat, chunks: seq<Chunk>, start: nat, i: nat, aimed: nat) {
    && 1 <= i <= parts && aimed <= start < |text|
    && TilesTo(text, chunks, start) && AimedTo(text, chunks, parts, i)
    && aimed <= |text| * i / parts && NoNewline(text, aimed, start - 1)
  }

  function Grown(chunks: seq<Chunk>, start: nat, end: nat): seq<Chunk> {
    if end > start then chunks + [Chunk(start, end)] else chunks
  }

  lemma CutStarts(text: string, parts: nat)
    requires text != "" && parts >= 1
    ensures Cut(text, parts, [], 0, 1, 0)
  {
  }

  lemma CutStep(text: string, parts: nat, chunks: seq<Chunk>, start: nat, i: nat, aimed: nat, aim: nat, end: nat)
    requires Cut(text, parts, chunks, start, i, aimed) && aim == |text| * i / parts && EndsAt(text, aim, end)
    ensures start <= end <= |text|
    ensures end < |text| ==> i < parts && Cut(text, parts, Grown(chunks, start, end), end, i + 1, aim)
    ensures end == |text| ==> CutDone(text, parts, Grown(chunks, start, end))
  {
    var more := Grown(chunks, start, end);
    AimsRise(text, i, parts, parts);
    DivExact(|text|, parts);
    BehindNewline(text, chunks, start);
    NotBehind(text, aimed, aim, start, end);
    EndIsBoundary(text, aim, end);
    LastEnds(text, chunks, start);
    if end > start { TilesMore(text, chunks, start, end); }
    hide *;
    CutGoesOn(text, parts, chunks, start, i, aim, end, more);
  }

  lemma CutGoesOn(text: string, parts: nat, chunks: seq<Chunk>, start: nat, i: nat, aim: nat, end: nat, more: seq<Chunk>)
    requires 1 <= i <= parts && start < |text| && start <= end <= |text| && aim == |text| * i / parts && |text| == |text| * parts / parts
    requires TilesTo(text, chunks, start) && AimedTo(text, chunks, parts, i) && Boundary(text, aim, end) && EndsAt(text, aim, end)
    requires start > 0 ==> chunks != [] && chunks[|chunks| - 1].end == start
    requires more == Grown(chunks, start, end) && TilesTo(text, more, end) && 0 < end
    requires end < |text| ==> aim <= end && NoNewline(text, aim, end - 1)
    ensures end < |text| ==> i < parts && Cut(text, parts, more, end, i + 1, aim)
    ensures end == |text| ==> CutDone(text, parts, more)
  {
    hide TilesTo, AimedTo, Boundary, NoNewline, Tiles, Aimed;
    AimedMore(text, chunks, parts, i, end, more);
    if end == |text| {
      TilesAll(text, more, end);
      EndSeen(text, aim);
      AimedAll(text, more, parts, i);
    } else {
      AimsRise(text, i, i + 1, parts);
    }
  }

  lemma EndSeen(text: string, aim: nat)
    requires EndsAt(text, aim, |text|)
    ensures NoNewline(text, aim, |text| - 1)
  {
    NextNewlineFirst(text, aim, |text|);
  }

  ghost predicate CutDone(text: string, parts: nat, chunks: seq<Chunk>) {
    Tiles(text, chunks) && Aimed(text, chunks, parts) && forall k | 0 <= k < |chunks| :: chunks[k].start < chunks[k].end
  }

  /** The loop of `split_ndjson`. */
  method SplitParts(text: string, parts: nat) returns (chunks: seq<Chunk>)
    requires text != "" && parts >= 1
    ensures Tiles(text, chunks) && forall k | 0 <= k < |chunks| :: chunks[k].start < chunks[k].end
    ensures Aimed(text, chunks, parts)
  {
    hide Cut, Tiles, Aimed, NextNewline;
    chunks := [];
    var size := |text|;
    var start: nat := 0;
    ghost var aimed: nat := 0;
    var i: nat := 1;
    CutStarts(text, parts);
    CutIndex(text, parts, chunks, start, i, aimed);
    while i <= parts
      invariant 1 <= i <= parts && start < size && Cut(text, parts, chunks, start, i, aimed)
      decreases parts - i
    {
      TargetsRise(size, i, parts);
      DivExact(size, parts);
      var aim := if i == parts then size else Target(size, i, parts);
      var end := aim;
      if end < size {
        var newline := NextNewline(text, end, size);
        end := if newline == size then size else newline + 1;
      }
      CutStep(text, parts, chunks, start, i, aimed, aim, end);
      if end > start {
        chunks := chunks + [Chunk(start, end)];
      }
      start := end;
      if start >= size { return; }
      aimed := aim;
      i := i + 1;
    }
  }

  lemma CutIndex(text: string, parts: nat, chunks: seq<Chunk>, start: nat, i: nat, aimed: nat)
    requires Cut(text, parts, chunks, start, i, aimed)
    ensures 1 <= i <= parts && start < |text|
  {
  }

  lemma LastEnds(text: string, chunks: seq<Chunk>, start: nat)
    requires TilesTo(text, chunks, start)
    ensures start > 0 ==> chunks != [] && chunks[|chunks| - 1].end == start
  {
  }

  lemma BehindNewline(text: string, chunks: seq<Chunk>, start: nat)
    requires TilesTo(text, chunks, start) && start < |text|
    ensures 0 < start ==> text[start - 1] == '\n'
  {
  }

  lemma TilesAll(text: string, chunks: seq<Chunk>, start: nat)
    requires TilesTo(text, chunks, start) && start == |text| && text != ""
    ensures Tiles(text, chunks) && forall k | 0 <= k < |chunks| :: chunks[k].start < chunks[k].end
  {
  }

  /** Where a chunk ends that is aimed at some position. */
  predicate EndsAt(text: string, aim: nat, end: nat) {
    aim <= |text| && end == if aim == |text| || NextNewline(text, aim, |text|) == |text| then |text| else NextNewline(text, aim, |text|) + 1
  }

  /** A later aim never ends earlier: between the last aim and the last newline there is no other. */
  lemma NotBehind(text: string, aimed: nat, aim: nat, start: nat, end: nat)
    requires aimed <= aim && start < |text| && EndsAt(text, aim, end)
    requires aimed <= start && (0 < start ==> text[start - 1] == '\n') && NoNewline(text, aimed, start - 1)
    ensures start <= end <= |text|
    ensures end < |text| ==> aim <= end && 0 < end && text[end - 1] == '\n' && NoNewline(text, aim, end - 1)
  {
    NextNewlineFirst(text, aim, |text|);
  }

  lemma TilesMore(text: string, chunks: seq<Chunk>, start: nat, end: nat)
    requires TilesTo(text, chunks, start) && start < end <= |text|
    requires end < |text| ==> text[end - 1] == '\n'
    requires 0 < start ==> text[start - 1] == '\n'
    ensures TilesTo(text, chunks + [Chunk(start, end)], end)
  {
    var more := chunks + [Chunk(start, end)];
    forall k | 0 <= k < |more| - 1 ensures Joined(text, more[k], more[k + 1]) {
      if k < |chunks| - 1 { assert Joined(text, chunks[k], chunks[k + 1]); }
    }
  }

  function Parts(size: nat, threads: int): (parts: nat)
    requires threads >= 1
    ensures parts >= 1
  {
    if threads < size / PARALLEL_THRESHOLD + 1 then threads else size / PARALLEL_THRESHOLD + 1
  }

  /** Where chunk i would end if newlines did not matter. */
  function Target(size: nat, i: nat, parts: nat): nat
    requires parts > 0
  {
    size * i / parts
  }

  lemma TargetsRise(size: nat, i: nat, parts: nat)
    requires 1 <= i <= parts
    ensures Target(size, i, parts) <= size
    ensures i < parts ==> Target(size, i, parts) <= Target(size, i + 1, parts)
  {
    Scaled(i, parts, size);
    DivMonotone(size * i, size * parts, parts);
    DivExact(size, parts);
    if i < parts {
      Scaled(i, i + 1, size);
      DivMonotone(size * i, size * (i + 1), parts);
    }
  }

  lemma {:induction false} Scaled(x: nat, y: nat, d: nat)
    requires x <= y
    ensures d * x <= d * y
    decreases y - x
  {
    if x < y {
      Scaled(x, y - 1, d);
      assert d * y == d * (y - 1) + d;
    }
  }

  lemma DivMonotone(a: nat, b: nat, d: nat)
    requires a <= b && d > 0
    ensures a / d <= b / d
  {
    var p, q := a / d, b / d;
    assert a == d * p + a % d && b == d * q + b % d;
    assert d * (q + 1) == d * q + d;
    if p > q { Scaled(q + 1, p, d); }
  }

  lemma DivExact(q: nat, d: nat)
    requires d > 0
    ensures q * d / d == q
  {
    var k := q * d / d;
    assert q * d == d * k + q * d % d && q * d == d * q;
    assert d * (k + 1) == d * k + d && d * (q + 1) == d * q + d;
    if k < q {
      Scaled(k + 1, q, d);
    } else if k > q {
      Scaled(q + 1, k, d);
    }
  }

  // ---- Lines -------------------------------------------------------------------------------------------------

  predicate Trailing(c: char) {
    c == '\r' || c == ' ' || c == '\t'
  }

  function Trim(line: string): string {
    if line != "" && Trailing(line[|line| - 1]) then Trim(line[..|line| - 1]) else line
  }

  /** A line in front of other records; an empty one is no record. */
  function Keep(line: string, rest: seq<string>): seq<string> {
    if Trim(line) == "" then rest else [Trim(line)] + rest
  }

  lemma KeepConcat(line: string, left: seq<string>, right: seq<string>)
    ensures Keep(line, left + right) == Keep(line, left) + right
  {
    hide Trim;
    assert [Trim(line)] + (left + right) == ([Trim(line)] + left) + right;
  }

  /** The records between two positions: the lines without trailing blanks, empty ones left out. */
  function Records(text: string, from: nat, upto: nat): seq<string>
    requires from <= upto <= |text|
    decreases upto - from
  {
    if from == upto then []
    else
      var end := NextNewline(text, from, upto);
      if end < upto then Keep(text[from..end], Records(text, end + 1, upto)) else Keep(text[from..end], [])
  }

  // ---- Records without the functions that compute them -------------------------------------------------------------

  /** The stretch between two newlines, or between a newline and an end of the text looked at. */
  ghost predicate Line(text: string, from: nat, upto: nat, line: Chunk)
    requires from <= upto <= |text|
  {
    && from <= line.start <= line.end <= upto
    && (line.start == from || text[line.start - 1] == '\n')
    && (line.end == upto || text[line.end] == '\n')
    && forall k | line.start <= k < line.end :: text[k] != '\n'
  }

  ghost predicate Solid(text: string, k: nat)
    requires k < |text|
  {
    text[k] != '\r' && text[k] != ' ' && text[k] != '\t'
  }

  ghost predicate HoldsSolid(text: string, line: Chunk) {
    exists k: nat :: line.start <= k < line.end && k < |text| && Solid(text, k)
  }

  /** The record is the line up to its last character that is no blank. */
  ghost predicate RecordOf(text: string, line: Chunk, record: string)
    requires line.start <= line.end <= |text|
  {
    && record != "" && line.start + |record| <= line.end && record == text[line.start..line.start + |record|]
    && Solid(text, line.start + |record| - 1)
    && forall k: nat | line.start + |record| <= k < line.end :: !Solid(text, k)
  }

  ghost predicate IsLineOf(text: string, from: nat, upto: nat, line: Chunk, record: string)
    requires from <= upto <= |text|
  {
    Line(text, from, upto, line) && RecordOf(text, line, record)
  }

  ghost predicate Behind(left: Chunk, right: Chunk) {
    left.end < right.start
  }

  /** One record for each line that holds more than blanks, in the order of the text. */
  ghost predicate Spread(text: string, from: nat, upto: nat, lines: seq<Chunk>, records: seq<string>)
    requires from <= upto <= |text|
  {
    && |lines| == |records|
    && (forall i | 0 <= i < |lines| :: IsLineOf(text, from, upto, lines[i], records[i]))
    && (forall i, j | 0 <= i < j < |lines| :: Behind(lines[i], lines[j]))
    && (forall line: Chunk | Line(text, from, upto, line) && HoldsSolid(text, line) :: line in lines)
  }

  ghost predicate AreRecords(text: string, from: nat, upto: nat, records: seq<string>)
    requires from <= upto <= |text|
  {
    exists lines: seq<Chunk> :: Spread(text, from, upto, lines, records)
  }

  /** Trimming takes away blanks at the end and nothing else. */
  lemma {:induction false} TrimSays(line: string)
    ensures Trim(line) <= line
    ensures forall k | |Trim(line)| <= k < |line| :: line[k] == '\r' || line[k] == ' ' || line[k] == '\t'
    ensures Trim(line) != "" ==> var last := line[|Trim(line)| - 1]; last != '\r' && last != ' ' && last != '\t'
    decreases |line|
  {
    if line != "" && Trailing(line[|line| - 1]) { TrimSays(line[..|line| - 1]); }
  }

  lemma TrimIsRecord(text: string, line: Chunk)
    requires line.start <= line.end <= |text|
    ensures var record := Trim(text[line.start..line.end]);
            if HoldsSolid(text, line) then record != "" && RecordOf(text, line, record) else record == ""
  {
    hide Trim;
    var raw := text[line.start..line.end];
    TrimSays(raw);
    forall k: nat | line.start + |Trim(raw)| <= k < line.end ensures !Solid(text, k) { assert raw[k - line.start] == text[k]; }
    if Trim(raw) != "" {
      var last := line.start + |Trim(raw)| - 1;
      assert raw[|Trim(raw)| - 1] == text[last];
      assert Solid(text, last);
    }
  }

  /** The first line of a stretch. */
  lemma FirstLine(text: string, from: nat, upto: nat)
    requires from < upto <= |text|
    ensures Line(text, from, upto, Chunk(from, NextNewline(text, from, upto)))
    ensures forall line: Chunk | Line(text, from, upto, line) && line.start <= NextNewline(text, from, upto) ::
              line == Chunk(from, NextNewline(text, from, upto))
  {
    var end := NextNewline(text, from, upto);
    NextNewlineFirst(text, from, upto);
    forall line: Chunk | Line(text, from, upto, line) && line.start <= end ensures line == Chunk(from, end) {
    }
  }

  /** The lines behind the first are the lines of the rest. */
  lemma LaterLine(text: string, from: nat, upto: nat, line: Chunk)
    requires from < upto <= |text| && NextNewline(text, from, upto) < upto
    ensures var next := NextNewline(text, from, upto) + 1;
            Line(text, next, upto, line) <==> Line(text, from, upto, line) && line.start >= next
  {
  }

  lemma {:induction false} RecordsSay(text: string, from: nat, upto: nat) returns (lines: seq<Chunk>)
    requires from <= upto <= |text|
    ensures Spread(text, from, upto, lines, Records(text, from, upto))
    decreases upto - from
  {
    lines := [];
    if from < upto {
      var first := Chunk(from, NextNewline(text, from, upto));
      var later: seq<Chunk>, rest: seq<string> := [], [];
      if first.end < upto {
        later := RecordsSay(text, first.end + 1, upto);
        rest := Records(text, first.end + 1, upto);
      }
      lines := AddLine(text, from, upto, first, later, rest);
    }
  }

  /** The first line in front of the others. */
  lemma AddLine(text: string, from: nat, upto: nat, first: Chunk, later: seq<Chunk>, rest: seq<string>) returns (lines: seq<Chunk>)
    requires from < upto <= |text| && first == Chunk(from, NextNewline(text, from, upto))
    requires if first.end < upto then Spread(text, first.end + 1, upto, later, rest) else later == [] && rest == []
    ensures Spread(text, from, upto, lines, Keep(text[from..first.end], rest))
  {
    hide Trim, Line, RecordOf, HoldsSolid, NextNewline;
    TrimIsRecord(text, first);
    FirstLine(text, from, upto);
    lines := if Trim(text[first.start..first.end]) == "" then later else [first] + later;
    AddCovers(text, from, upto, first, later, rest, lines);
    LaterLines(text, from, upto, first, later, rest);
    if HoldsSolid(text, first) { AddOrdered(text, from, upto, first, later, rest, Trim(text[from..first.end])); }
  }

  lemma AddOrdered(text: string, from: nat, upto: nat, first: Chunk, later: seq<Chunk>, rest: seq<string>, record: string)
    requires from <= upto <= |text| && IsLineOf(text, from, upto, first, record) && |later| == |rest|
    requires forall i | 0 <= i < |later| :: Behind(first, later[i]) && IsLineOf(text, from, upto, later[i], rest[i])
    requires forall i, j | 0 <= i < j < |later| :: Behind(later[i], later[j])
    ensures forall i | 0 <= i <= |later| :: IsLineOf(text, from, upto, ([first] + later)[i], ([record] + rest)[i])
    ensures forall i, j | 0 <= i < j <= |later| :: Behind(([first] + later)[i], ([first] + later)[j])
  {
    hide *;
  }

  /** A line that holds more than blanks is the first or one of the later ones. */
  lemma AddCovers(text: string, from: nat, upto: nat, first: Chunk, later: seq<Chunk>, rest: seq<string>, lines: seq<Chunk>)
    requires from < upto <= |text| && first == Chunk(from, NextNewline(text, from, upto)) && first.end <= upto
    requires if first.end < upto then Spread(text, first.end + 1, upto, later, rest) else later == []
    requires if HoldsSolid(text, first) then lines == [first] + later else lines == later
    ensures forall line: Chunk | Line(text, from, upto, line) && HoldsSolid(text, line) :: line in lines
  {
    hide Line, RecordOf, HoldsSolid, NextNewline;
    FirstLine(text, from, upto);
    forall line: Chunk | Line(text, from, upto, line) && HoldsSolid(text, line) ensures line in lines {
      EndInside(text, from, upto, line);
      if line.start <= first.end {
        assert line == first;
      } else {
        LaterLine(text, from, upto, line);
        assert line in later;
      }
    }
  }

  lemma EndInside(text: string, from: nat, upto: nat, line: Chunk)
    requires from <= upto <= |text| && Line(text, from, upto, line)
    ensures line.start <= line.end <= upto
    ensures line.start > from ==> text[line.start - 1] == '\n'
  {
  }

  lemma LaterLines(text: string, from: nat, upto: nat, first: Chunk, later: seq<Chunk>, rest: seq<string>)
    requires from < upto <= |text| && first == Chunk(from, NextNewline(text, from, upto))
    requires if first.end < upto then Spread(text, first.end + 1, upto, later, rest) else later == [] && rest == []
    ensures |later| == |rest|
    ensures forall i | 0 <= i < |later| :: Behind(first, later[i]) && IsLineOf(text, from, upto, later[i], rest[i])
  {
    hide RecordOf, Solid;
    forall i | 0 <= i < |later| ensures Behind(first, later[i]) && IsLineOf(text, from, upto, later[i], rest[i]) {
      LaterLine(text, from, upto, later[i]);
    }
  }

  /** `parse_ndjson_lines_safe` on one chunk: one record for each line that holds more than blanks, in order, cut
      behind its last other character. */
  method SplitLines(text: string, from: nat, upto: nat) returns (records: seq<string>)
    requires from <= upto <= |text|
    ensures records == Records(text, from, upto)
    ensures AreRecords(text, from, upto, records)
  {
    hide Records, NextNewline, Trim, AreRecords, Spread;
    RecordsAreRecords(text, from, upto);
    records := [];
    var pos := from;
    while pos < upto
      invariant from <= pos <= upto
      invariant records + Records(text, pos, upto) == Records(text, from, upto)
    {
      RecordsCut(text, pos, upto);
      var newline := NextNewline(text, pos, upto);
      var line := TrimEnd(text[pos..newline]);
      pos := if newline == upto then upto else newline + 1;
      if line != "" {
        assert records + ([line] + Records(text, pos, upto)) == (records + [line]) + Records(text, pos, upto);
        records := records + [line];
      }
    }
    NoRecords(text, upto);
  }

  lemma RecordsAreRecords(text: string, from: nat, upto: nat)
    requires from <= upto <= |text|
    ensures AreRecords(text, from, upto, Records(text, from, upto))
  {
    hide Spread;
    var lines := RecordsSay(text, from, upto);
  }

  lemma RecordsCut(text: string, pos: nat, upto: nat)
    requires pos < upto <= |text|
    ensures var newline := NextNewline(text, pos, upto);
            Records(text, pos, upto) == Keep(text[pos..newline], Records(text, if newline == upto then upto else newline + 1, upto))
  {
    NoRecords(text, upto);
  }

  lemma NoRecords(text: string, at: nat)
    requires at <= |text|
    ensures Records(text, at, at) == []
  {
  }

  method TrimEnd(raw: string) returns (line: string)
    ensures line == Trim(raw)
  {
    line := raw;
    while line != "" && Trailing(line[|line| - 1])
      invariant Trim(line) == Trim(raw)
      decreases |line|
    {
      line := line[..|line| - 1];
    }
  }

  /** A newline before `mid` is found whether the search may go on behind `mid` or not. */
  lemma {:induction false} NewlineStays(text: string, from: nat, mid: nat, upto: nat)
    requires from < mid <= upto <= |text| && text[mid - 1] == '\n'
    ensures NextNewline(text, from, upto) == NextNewline(text, from, mid) < mid
    decreases mid - from
  {
    if from + 1 < mid { NewlineStays(text, from + 1, mid, upto); }
  }

  lemma RecordsStep(text: string, from: nat, upto: nat)
    requires from < upto <= |text| && NextNewline(text, from, upto) < upto
    ensures var end := NextNewline(text, from, upto);
            Records(text, from, upto) == Keep(text[from..end], Records(text, end + 1, upto))
  {
  }

  /** Cutting behind a newline cuts no record. */
  lemma {:induction false} RecordsSplit(text: string, from: nat, mid: nat, upto: nat)
    requires from <= mid <= upto <= |text| && (from < mid ==> text[mid - 1] == '\n')
    ensures Records(text, from, upto) == Records(text, from, mid) + Records(text, mid, upto)
    decreases mid - from
  {
    if from < mid {
      var end := NextNewline(text, from, mid);
      NewlineStays(text, from, mid, upto);
      RecordsStep(text, from, mid);
      RecordsStep(text, from, upto);
      hide Records;
      RecordsSplit(text, end + 1, mid, upto);
      KeepConcat(text[from..end], Records(text, end + 1, mid), Records(text, mid, upto));
    } else {
      assert [] + Records(text, mid, upto) == Records(text, mid, upto);
    }
  }

  /** The records of the chunks, one chunk after the other. */
  function ChunkRecords(text: string, chunks: seq<Chunk>): seq<string>
    requires forall k | 0 <= k < |chunks| :: chunks[k].start <= chunks[k].end <= |text|
  {
    if chunks == [] then [] else Records(text, chunks[0].start, chunks[0].end) + ChunkRecords(text, chunks[1..])
  }

  lemma {:induction false} ChunksKeepRecords(text: string, chunks: seq<Chunk>)
    requires chunks != [] && (forall k | 0 <= k < |chunks| :: chunks[k].start <= chunks[k].end <= |text|)
    requires chunks[|chunks| - 1].end == |text| && forall k | 0 <= k < |chunks| - 1 :: Joined(text, chunks[k], chunks[k + 1])
    ensures ChunkRecords(text, chunks) == Records(text, chunks[0].start, |text|)
  {
    if |chunks| > 1 {
      ChunksKeepRecords(text, chunks[1..]);
      assert Joined(text, chunks[0], chunks[0 + 1]);
      RecordsSplit(text, chunks[0].start, chunks[0].end, |text|);
    }
  }

  /** Parsing chunk by chunk reads exactly the records of the buffer, in order. */
  lemma TilesKeepRecords(text: string, chunks: seq<Chunk>)
    requires Tiles(text, chunks)
    ensures ChunkRecords(text, chunks) == Records(text, 0, |text|)
  {
    ChunksKeepRecords(text, chunks);
  }
}
