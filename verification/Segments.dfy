/** Stretches of a sequence, by position. */
module Segments {
  /** part occupies positions base, base + 1, ... of whole. */
  ghost predicate Sits<A(!new)>(part: seq<A>, base: nat, whole: seq<A>) {
    base + |part| <= |whole| && forall k | 0 <= k < |part| :: whole[base + k] == part[k]
  }

  lemma SitsSplit<A(!new)>(left: seq<A>, right: seq<A>, base: nat, whole: seq<A>)
    requires Sits(left + right, base, whole)
    ensures Sits(left, base, whole) && Sits(right, base + |left|, whole)
  {
    forall k | 0 <= k < |left| ensures whole[base + k] == left[k] {
      assert (left + right)[k] == left[k];
    }
    forall k | 0 <= k < |right| ensures whole[base + |left| + k] == right[k] {
      assert (left + right)[|left| + k] == right[k];
    }
  }

  lemma SitsOne<A(!new)>(x: A, base: nat, whole: seq<A>)
    requires Sits([x], base, whole)
    ensures base < |whole| && whole[base] == x
  {
    assert [x][0] == x;
  }

  lemma SitsWhole<A(!new)>(whole: seq<A>)
    ensures Sits(whole, 0, whole)
  {
  }
}
