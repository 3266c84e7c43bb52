/**
  The canonical order of a fixture list: ascending by group, then round, then
  the home team's id. The list is sorted by insertion, which leaves fixtures
  with equal keys in their original order. The contract states only that the
  result is ordered by that key and is a permutation of the input.
 */
module FixtureOrder {
  import opened Entities

  /** `a` may come before `b`: the key `(group, round, home.id)` of `a` is not larger. */
  predicate KeyLe(a: Match, b: Match)
  {
    || a.group < b.group
    || (a.group == b.group && a.round < b.round)
    || (a.group == b.group && a.round == b.round && a.home.id <= b.home.id)
  }

  predicate Sorted(ms: seq<Match>)
  {
    forall i, j :: 0 <= i < j < |ms| ==> KeyLe(ms[i], ms[j])
  }

  /** Inserts `x` in front of the first element whose key is not smaller than its own. */
  function Insert(x: Match, ms: seq<Match>): (r: seq<Match>)
    requires Sorted(ms)
    ensures Sorted(r)
    ensures multiset(r) == multiset(ms) + multiset{x}
    ensures |r| == |ms| + 1
  {
    if |ms| == 0 || KeyLe(x, ms[0]) then
      [x] + ms
    else
      var rest := Insert(x, ms[1..]);
      assert ms == [ms[0]] + ms[1..];
      HeadBelowRest(ms, x, rest);
      [ms[0]] + rest
  }

  /** The head of a sorted list is not above any element of the list with `x` inserted, when `x` belongs after it. */
  lemma HeadBelowRest(ms: seq<Match>, x: Match, rest: seq<Match>)
    requires Sorted(ms) && |ms| > 0 && !KeyLe(x, ms[0])
    requires multiset(rest) == multiset(ms[1..]) + multiset{x}
    ensures forall k :: 0 <= k < |rest| ==> KeyLe(ms[0], rest[k])
  {
    forall k | 0 <= k < |rest|
      ensures KeyLe(ms[0], rest[k])
    {
      var e := rest[k];
      assert e in multiset(rest);
      if e != x {
        assert e in ms[1..];
        var i :| 0 <= i < |ms| - 1 && ms[1..][i] == e;
        assert ms[i + 1] == e;
      }
    }
  }

  /** Stable sort by `(group, round, home.id)`. */
  function SortFixtures(ms: seq<Match>): (r: seq<Match>)
    ensures Sorted(r)
    ensures multiset(r) == multiset(ms)
    ensures |r| == |ms|
  {
    if |ms| == 0 then []
    else
      assert ms == [ms[0]] + ms[1..];
      Insert(ms[0], SortFixtures(ms[1..]))
  }
}
