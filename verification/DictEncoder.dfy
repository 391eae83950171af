/** String dictionaries: ids handed out on first sight, and IN tests answered on ids. */
module DictEncoder {
  import opened Optional

  const INT32_MAX := 0x7fff_ffff
  const UNKNOWN := -1

  /** What limits a column's dictionary: only columns of other types than ENTITY_KEY have the maximum. */
  datatype Field = Field(entityKey: bool, max: nat) {
    predicate Full(size: nat) {
      (!entityKey && size >= max) || size >= INT32_MAX
    }
  }

  /** `dicts_` and `reverse_` of one column. */
  datatype Dict = Dict(ids: map<string, int>, names: seq<string>) {
    /** The two are inverse bijections between values and 0, ..., size - 1. */
    ghost predicate Inverse() {
      && |ids| == |names|
      && (forall v | v in ids :: 0 <= ids[v] < |names| && names[ids[v]] == v)
      && (forall i | 0 <= i < |names| :: names[i] in ids && ids[names[i]] == i)
    }

    /** `resolve`. */
    function IdOf(v: string): int {
      if v in ids then ids[v] else UNKNOWN
    }

    /** `reverse_lookup`. */
    function NameOf(id: int): string {
      if 0 <= id < |names| then names[id] else ""
    }

    /** The dictionary after `get_or_create`. */
    function Add(f: Field, v: string): Dict {
      if v in ids || f.Full(|ids|) then this else Dict(ids[v := |ids|], names + [v])
    }

    /** Later dictionaries keep every id of this one. */
    ghost predicate GrowsTo(later: Dict) {
      && names <= later.names
      && forall v | v in ids :: v in later.ids && later.ids[v] == ids[v]
    }
  }

  const EMPTY := Dict(map[], [])

  function AddAll(f: Field, d: Dict, vs: seq<string>): Dict {
    if vs == [] then d else AddAll(f, d, vs[..|vs| - 1]).Add(f, vs[|vs| - 1])
  }

  lemma AddKeeps(f: Field, d: Dict, v: string)
    requires d.Inverse()
    ensures d.Add(f, v).Inverse() && d.GrowsTo(d.Add(f, v))
    ensures v in d.Add(f, v).ids || f.Full(|d.ids|)
  {
  }

  lemma {:induction false} AddAllKeeps(f: Field, d: Dict, vs: seq<string>)
    requires d.Inverse()
    ensures AddAll(f, d, vs).Inverse() && d.GrowsTo(AddAll(f, d, vs))
  {
    if vs != [] {
      AddAllKeeps(f, d, vs[..|vs| - 1]);
      AddKeeps(f, AddAll(f, d, vs[..|vs| - 1]), vs[|vs| - 1]);
    }
  }

  /** A column's dictionary after some preloads and batches. */
  function AfterAll(f: Field, d: Dict, batches: seq<seq<string>>): Dict
    decreases |batches|
  {
    if batches == [] then d else AfterAll(f, AddAll(f, d, batches[0]), batches[1..])
  }

  /** Over any such sequence the two maps stay inverse and dense, and no id ever changes. */
  lemma {:induction false} HistoryKeeps(f: Field, d: Dict, batches: seq<seq<string>>)
    requires d.Inverse()
    ensures AfterAll(f, d, batches).Inverse() && d.GrowsTo(AfterAll(f, d, batches))
    decreases |batches|
  {
    if batches != [] {
      AddAllKeeps(f, d, batches[0]);
      HistoryKeeps(f, AddAll(f, d, batches[0]), batches[1..]);
    }
  }

  lemma {:induction false} FullStays(f: Field, d: Dict, vs: seq<string>)
    requires f.Full(|d.ids|)
    ensures AddAll(f, d, vs) == d
  {
    if vs != [] { FullStays(f, d, vs[..|vs| - 1]); }
  }

  lemma {:induction false} AddAllSplit(f: Field, d: Dict, vs: seq<string>, k: nat)
    requires k <= |vs|
    ensures AddAll(f, d, vs) == AddAll(f, AddAll(f, d, vs[..k]), vs[k..])
    decreases |vs|
  {
    if k == |vs| {
      assert vs[..k] == vs;
    } else {
      var last := |vs| - 1;
      AddAllSplit(f, d, vs[..last], k);
      assert vs[..last][..k] == vs[..k] && vs[k..][..|vs[k..]| - 1] == vs[..last][k..];
    }
  }

  /** A value's id when it is encoded is the one it has after the whole batch: an id never changes, and a
      value turned away by a full dictionary is never let in later. */
  lemma EncodedIdLasts(f: Field, d: Dict, vs: seq<string>, i: nat)
    requires d.Inverse() && i < |vs|
    ensures AddAll(f, d, vs[..i + 1]).IdOf(vs[i]) == AddAll(f, d, vs).IdOf(vs[i])
  {
    var v, before, now := vs[i], AddAll(f, d, vs[..i]), AddAll(f, d, vs[..i + 1]);
    assert vs[..i + 1][..i] == vs[..i];
    AddAllKeeps(f, d, vs[..i]);
    AddKeeps(f, before, v);
    AddAllSplit(f, d, vs, i + 1);
    if v in now.ids {
      AddAllKeeps(f, now, vs[i + 1..]);
    } else {
      FullStays(f, now, vs[i + 1..]);
    }
  }

  /** The values of a column that are not null. */
  function Present(column: seq<Option<string>>): seq<string> {
    if column == [] then []
    else
      var last := |column| - 1;
      Present(column[..last]) + if column[last].Some? then [column[last].value] else []
  }

  // ---- The encoder -----------------------------------------------------------------------------------------

  class Encoder {
    const fields: seq<Field>
    var dicts: seq<map<string, int>>
    var reverse: seq<seq<string>>
    var generation: nat

    ghost predicate Valid()
      reads this`dicts, this`reverse
    {
      && |dicts| == |reverse| == |fields|
      && forall c: nat | c < |fields| :: Column(c).Inverse()
    }

    function Column(c: nat): Dict
      requires c < |dicts| == |reverse|
      reads this`dicts, this`reverse
    {
      Dict(dicts[c], reverse[c])
    }

    /** Columns start with their closed values. */
    constructor (fields: seq<Field>, closed: seq<seq<string>>)
      requires |closed| == |fields|
      ensures Valid() && this.fields == fields && generation == 0
      ensures forall c: nat | c < |fields| :: Column(c) == AddAll(fields[c], EMPTY, closed[c])
    {
      this.fields := fields;
      dicts := seq(|fields|, _ => map[]);
      reverse := seq(|fields|, _ => []);
      generation := 0;
      new;
      var c := 0;
      while c < |fields|
        invariant 0 <= c <= |fields| && Valid() && generation == 0
        invariant forall k: nat | k < c :: Column(k) == AddAll(fields[k], EMPTY, closed[k])
        invariant forall k: nat | c <= k < |fields| :: Column(k) == EMPTY
      {
        AddValues(c, closed[c]);
        c := c + 1;
      }
    }

    method GetOrCreate(c: nat, value: string) returns (id: int)
      requires Valid() && c < |fields|
      modifies this`dicts, this`reverse
      ensures Valid() && id == Column(c).IdOf(value)
      ensures Column(c) == old(Column(c)).Add(fields[c], value)
      ensures forall k: nat | k < |fields| && k != c :: Column(k) == old(Column(k))
      ensures var dict, names := old(dicts[c]), old(reverse[c]);
              if value in dict then id == dict[value] && dicts[c] == dict && reverse[c] == names
              else if |dict| >= 0x7fff_ffff || (!fields[c].entityKey && |dict| >= fields[c].max) then
                id == -1 && dicts[c] == dict && reverse[c] == names
              else id == |dict| && dicts[c] == dict[value := id] && reverse[c] == names + [value]
    {
      var dict := dicts[c];
      AddKeeps(fields[c], Column(c), value);
      if value in dict { return dict[value]; }
      if !fields[c].entityKey && |dict| >= fields[c].max { return UNKNOWN; }
      if |dict| >= INT32_MAX { return UNKNOWN; }
      id := |dict|;
      dicts := dicts[c := dict[value := id]];
      reverse := reverse[c := reverse[c] + [value]];
      assert Column(c) == old(Column(c)).Add(fields[c], value);
      assert forall k: nat | k < |fields| && k != c :: Column(k) == old(Column(k));
    }

    method AddValues(c: nat, values: seq<string>)
      requires Valid() && c < |fields|
      modifies this`dicts, this`reverse
      ensures Valid() && Column(c) == AddAll(fields[c], old(Column(c)), values)
      ensures forall k: nat | k < |fields| && k != c :: Column(k) == old(Column(k))
    {
      var i := 0;
      while i < |values|
        invariant 0 <= i <= |values| && Valid()
        invariant Column(c) == AddAll(fields[c], old(Column(c)), values[..i])
        invariant forall k: nat | k < |fields| && k != c :: Column(k) == old(Column(k))
      {
        var _ := GetOrCreate(c, values[i]);
        assert values[..i + 1][..i] == values[..i];
        i := i + 1;
      }
      assert values[..i] == values;
    }

    method Resolve(c: nat, value: string) returns (id: int)
      requires Valid() && c < |fields|
      ensures id == Column(c).IdOf(value)
    {
      if value in dicts[c] { return dicts[c][value]; }
      return UNKNOWN;
    }

    method ReverseLookup(c: nat, id: int) returns (name: string)
      requires Valid() && c < |fields|
      ensures name == Column(c).NameOf(id)
    {
      if id < 0 || id >= |reverse[c]| { return ""; }
      return reverse[c][id];
    }

    method Preload(c: nat, values: seq<string>)
      requires Valid() && c < |fields|
      modifies this
      ensures Valid() && Column(c) == AddAll(fields[c], old(Column(c)), values)
      ensures forall k: nat | k < |fields| && k != c :: Column(k) == old(Column(k))
      ensures generation == old(generation) + 1
    {
      AddValues(c, values);
      generation := generation + 1;
    }

    method Reset()
      requires Valid()
      modifies this
      ensures Valid() && generation == old(generation) + 1
      ensures forall c: nat | c < |fields| :: Column(c) == EMPTY
    {
      dicts := seq(|fields|, _ => map[]);
      reverse := seq(|fields|, _ => []);
      generation := generation + 1;
    }

    /** `encode_batch` on a string column: every value gets the id it still has after the batch, and null
        rows stay null. */
    method EncodeStrings(c: nat, column: seq<Option<string>>) returns (ids: seq<Option<int>>)
      requires Valid() && c < |fields|
      modifies this`dicts, this`reverse
      ensures Valid() && Column(c) == AddAll(fields[c], old(Column(c)), Present(column))
      ensures forall k: nat | k < |fields| && k != c :: Column(k) == old(Column(k))
      ensures |ids| == |column| && Encoded(ids, column, Column(c))
    {
      ids := [];
      ghost var start := Column(c);
      var i := 0;
      while i < |column|
        invariant 0 <= i <= |column| && Valid()
        invariant Column(c) == AddAll(fields[c], start, Present(column[..i]))
        invariant forall k: nat | k < |fields| && k != c :: Column(k) == old(Column(k))
        invariant |ids| == i && Encoded(ids, column, Column(c))
      {
        hide Encoded, Dict.Add, Dict.IdOf, AddAll, Present;
        if column[i].None? {
          EncodedNull(ids, column, Column(c));
          PresentNull(column, i);
          ids := ids + [None];
        } else {
          EncodedNext(fields[c], start, column, ids);
          PresentNext(fields[c], start, column, i);
          var id := GetOrCreate(c, column[i].value);
          ids := ids + [Some(id)];
        }
        i := i + 1;
      }
      assert column[..i] == column;
    }
  }

  /** The ids of the first rows, as the dictionary has them. */
  ghost predicate Encoded(ids: seq<Option<int>>, column: seq<Option<string>>, d: Dict) {
    && |ids| <= |column|
    && forall k: nat | k < |ids| :: ids[k] == if column[k].None? then None else Some(d.IdOf(column[k].value))
  }

  lemma EncodedNull(ids: seq<Option<int>>, column: seq<Option<string>>, d: Dict)
    requires Encoded(ids, column, d) && |ids| < |column| && column[|ids|].None?
    ensures Encoded(ids + [None], column, d)
  {
  }

  lemma EncodedNext(f: Field, start: Dict, column: seq<Option<string>>, ids: seq<Option<int>>)
    requires |ids| < |column| && column[|ids|].Some? && start.Inverse()
    requires Encoded(ids, column, AddAll(f, start, Present(column[..|ids|])))
    ensures var next := column[|ids|].value;
            var d := AddAll(f, start, Present(column[..|ids|])).Add(f, next);
            Encoded(ids + [Some(d.IdOf(next))], column, d)
  {
    IdsStay(f, start, column[..|ids|], column[|ids|].value);
  }

  lemma {:induction false} PresentHas(column: seq<Option<string>>, k: nat)
    requires k < |column| && column[k].Some?
    ensures column[k].value in Present(column)
  {
    if k < |column| - 1 { PresentHas(column[..|column| - 1], k); }
  }

  lemma PresentNull(column: seq<Option<string>>, i: nat)
    requires i < |column| && column[i].None?
    ensures Present(column[..i + 1]) == Present(column[..i])
  {
    assert column[..i + 1][..i] == column[..i];
  }

  lemma PresentNext(f: Field, d: Dict, column: seq<Option<string>>, i: nat)
    requires i < |column| && column[i].Some?
    ensures AddAll(f, d, Present(column[..i + 1])) == AddAll(f, d, Present(column[..i])).Add(f, column[i].value)
  {
    assert column[..i + 1][..i] == column[..i];
    var vs := Present(column[..i + 1]);
    assert vs[..|vs| - 1] == Present(column[..i]);
  }

  lemma IdsStay(f: Field, d: Dict, column: seq<Option<string>>, next: string)
    requires d.Inverse()
    ensures var before := AddAll(f, d, Present(column));
            forall k: nat | k < |column| && column[k].Some? ::
              before.Add(f, next).IdOf(column[k].value) == before.IdOf(column[k].value)
  {
    forall k: nat | k < |column| && column[k].Some?
      ensures var before := AddAll(f, d, Present(column));
              before.Add(f, next).IdOf(column[k].value) == before.IdOf(column[k].value)
    {
      PresentHas(column, k);
      EncodedStays(f, d, Present(column), column[k].value, next);
    }
  }

  /** One more value leaves the ids of the earlier ones alone, the missing ones included. */
  lemma EncodedStays(f: Field, d: Dict, vs: seq<string>, v: string, next: string)
    requires d.Inverse() && v in vs
    ensures AddAll(f, d, vs).Add(f, next).IdOf(v) == AddAll(f, d, vs).IdOf(v)
  {
    var i :| 0 <= i < |vs| && vs[i] == v;
    var ws := vs + [next];
    assert ws[..|ws| - 1] == vs && ws[..i + 1] == vs[..i + 1];
    EncodedIdLasts(f, d, vs, i);
    EncodedIdLasts(f, d, ws, i);
  }

  // ---- Tests on ids --------------------------------------------------------------------------------------

  /** `resolve_textual_values`: unresolved values stay in the list, as -1. */
  function ListedIds(d: Dict, listed: seq<string>): (ids: seq<int>)
    ensures |ids| == |listed| && forall k | 0 <= k < |ids| :: ids[k] == d.IdOf(listed[k])
  {
    seq(|listed|, k requires 0 <= k < |listed| => d.IdOf(listed[k]))
  }

  /** The IN kernel on one row's id; NOT IN is its complement on rows that are not null. */
  predicate InIds(id: int, ids: seq<int>) {
    id in ids
  }

  /** The test on ids gives the answer of the test on strings exactly when it is not the case that the
      row's value is unresolved and unlisted while some listed value is unresolved too. */
  lemma InExactIff(d: Dict, v: string, listed: seq<string>)
    requires d.Inverse()
    ensures InIds(d.IdOf(v), ListedIds(d, listed)) == (v in listed)
            <==> (v in d.ids || v in listed || forall w | w in listed :: w in d.ids)
  {
    var ids := ListedIds(d, listed);
    if v in listed {
      var k :| 0 <= k < |listed| && listed[k] == v;
      assert ids[k] == d.IdOf(v);
    } else if v !in d.ids {
      if w :| w in listed && w !in d.ids {
        var k :| 0 <= k < |listed| && listed[k] == w;
        assert ids[k] == UNKNOWN;
      }
    }
  }

  /** `resolve_lookup_values` drops the unresolved values. */
  function KnownIds(d: Dict, listed: seq<string>): (ids: set<int>) {
    set v | v in listed && v in d.ids :: d.ids[v]
  }

  lemma LookupExactIff(d: Dict, v: string, listed: seq<string>)
    requires d.Inverse()
    ensures (d.IdOf(v) in KnownIds(d, listed)) == (v in listed) <==> (v in listed ==> v in d.ids)
  {
    if v in d.ids && d.IdOf(v) in KnownIds(d, listed) {
      var w :| w in listed && w in d.ids && d.ids[w] == d.IdOf(v);
      assert w == d.names[d.ids[w]] == v;
    }
  }

  /** While the dictionary has room, every encoded value is resolved, so encoding first and resolving the
      listed values afterwards makes IN exact on every row of the batch. */
  lemma EncodeThenResolve(f: Field, d: Dict, vs: seq<string>, listed: seq<string>, i: nat)
    requires d.Inverse() && i < |vs| && !f.Full(|AddAll(f, d, vs).ids|)
    ensures var after := AddAll(f, d, vs);
            vs[i] in after.ids && InIds(after.IdOf(vs[i]), ListedIds(after, listed)) == (vs[i] in listed)
  {
    var after, before, now := AddAll(f, d, vs), AddAll(f, d, vs[..i]), AddAll(f, d, vs[..i + 1]);
    assert vs[..i + 1][..i] == vs[..i];
    AddAllKeeps(f, d, vs);
    AddAllKeeps(f, d, vs[..i]);
    AddKeeps(f, before, vs[i]);
    AddAllSplit(f, d, vs, i + 1);
    if vs[i] !in now.ids {
      FullStays(f, now, vs[i + 1..]);
    } else {
      AddAllKeeps(f, now, vs[i + 1..]);
    }
    InExactIff(after, vs[i], listed);
  }

  /** The other order misses a value that the batch itself introduces. */
  lemma ResolveFirstMisses(f: Field, v: string)
    requires !f.Full(0)
    ensures var after := EMPTY.Add(f, v); !InIds(after.IdOf(v), ListedIds(EMPTY, [v])) && v in [v]
  {
    assert ListedIds(EMPTY, [v]) == [UNKNOWN];
  }
}
