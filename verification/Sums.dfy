/** Sums of per-place counts. */
module Sums {
  function Sum(loads: seq<nat>): nat {
    if loads == [] then 0 else loads[0] + Sum(loads[1..])
  }

  lemma {:induction false} SumUpdate(loads: seq<nat>, i: nat, load: nat)
    requires i < |loads|
    ensures Sum(loads[i := load]) + loads[i] == Sum(loads) + load
  {
    var after := loads[i := load];
    if i == 0 {
      assert after[1..] == loads[1..];
    } else {
      assert after[1..] == loads[1..][i - 1 := load];
      SumUpdate(loads[1..], i - 1, load);
    }
  }

  lemma {:induction false} SumNone(loads: seq<nat>)
    requires forall i | 0 <= i < |loads| :: loads[i] == 0
    ensures Sum(loads) == 0
  {
    if loads != [] { SumNone(loads[1..]); }
  }

  lemma {:induction false} SumHas(loads: seq<nat>, i: nat)
    requires i < |loads|
    ensures loads[i] <= Sum(loads)
  {
    if i != 0 { SumHas(loads[1..], i - 1); }
  }

  lemma {:induction false} SumPush(loads: seq<nat>, load: nat)
    ensures Sum(loads + [load]) == Sum(loads) + load
  {
    if loads == [] {
      assert loads + [load] == [load];
    } else {
      assert (loads + [load])[1..] == loads[1..] + [load];
      SumPush(loads[1..], load);
    }
  }

  lemma {:induction false} SumHasTwo(loads: seq<nat>, i: nat, j: nat)
    requires i < j < |loads|
    ensures loads[i] + loads[j] <= Sum(loads)
  {
    if i == 0 { SumHas(loads[1..], j - 1); } else { SumHasTwo(loads[1..], i - 1, j - 1); }
  }

  lemma SumHasBoth(loads: seq<nat>, i: nat, j: nat)
    requires i < |loads| && j < |loads| && i != j
    ensures loads[i] + loads[j] <= Sum(loads)
  {
    if i < j { SumHasTwo(loads, i, j); } else { SumHasTwo(loads, j, i); }
  }
}
