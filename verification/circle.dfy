/**
  The rotation step of the circle method and its closed form.

  The working list of the scheduler keeps its first element fixed and, after
  every round, moves its last element to position 1 while every other element
  moves one place to the right. After `r` such steps position 0 still holds the
  original element 0, and position `p >= 1` holds the original element
  `1 + (p - 1 - r) mod (n - 1)`. `Position` is the inverse map: where the
  original element `x` sits after `r` steps.

  For an even list length `n` the scheduler pairs position `p` with `n - 1 - p`.
  Two original indices therefore meet in round `r` exactly when their positions
  add up to `n - 1`; `FacingExactlyOnce` shows this happens in exactly one of
  the `n - 1` rounds, which is why the circle method is a complete
  round-robin.
 */
module Circle {
  import opened Modular

  /** One circle-method step: the head stays, the last element moves to position 1. */
  function Rotate<T>(l: seq<T>): (r: seq<T>)
    requires |l| >= 2
    ensures |r| == |l|
  {
    [l[0]] + [l[|l| - 1]] + l[1..|l| - 1]
  }

  /** The working list after `r` circle-method steps. */
  function Rotations<T>(l: seq<T>, r: nat): (res: seq<T>)
    requires |l| >= 2
    ensures |res| == |l|
  {
    if r == 0 then l else Rotate(Rotations(l, r - 1))
  }

  /** One rotation step only reorders the working list. */
  lemma RotatePermutes<T>(l: seq<T>)
    requires |l| >= 2
    ensures multiset(Rotate(l)) == multiset(l)
  {
    var mid := l[1..|l| - 1];
    assert l == [l[0]] + mid + [l[|l| - 1]];
    calc {
      multiset(Rotate(l));
      multiset([l[0]]) + multiset([l[|l| - 1]]) + multiset(mid);
      multiset([l[0]]) + multiset(mid) + multiset([l[|l| - 1]]);
      multiset(l);
    }
  }

  /** Original index of the element found at position `p` after `r` steps. */
  function Source(n: nat, r: int, p: nat): (x: nat)
    requires n >= 2 && p < n
    ensures x < n
    ensures (x == 0) == (p == 0)
  {
    if p == 0 then 0 else 1 + (p - 1 - r) % (n - 1)
  }

  /** Position of the original element `x` after `r` steps. */
  function Position(n: nat, r: int, x: nat): (p: nat)
    requires n >= 2 && x < n
    ensures p < n
    ensures (p == 0) == (x == 0)
  {
    if x == 0 then 0 else 1 + (x - 1 + r) % (n - 1)
  }

  lemma RotateAt<T>(l: seq<T>, p: nat)
    requires |l| >= 2 && p < |l|
    ensures Rotate(l)[p] == (if p == 0 then l[0] else if p == 1 then l[|l| - 1] else l[p - 1])
  {
  }

  /** How `Source` moves with one more step: it mirrors `RotateAt`. */
  lemma SourceStep(n: nat, r: int, p: nat)
    requires n >= 2 && p < n
    ensures Source(n, r + 1, p) ==
      (if p == 0 then 0 else if p == 1 then Source(n, r, n - 1) else Source(n, r, p - 1))
  {
    if p == 1 {
      ModShift(-r - 1, 1, n - 1);
      assert -r - 1 + 1 * (n - 1) == n - 1 - 1 - r;
    } else if p >= 2 {
      assert p - 1 - (r + 1) == p - 1 - 1 - r;
    }
  }

  /** Closed form of the rotation: position `p` after `r` steps holds original element `Source(n, r, p)`. */
  lemma {:induction false} RotationsClosedForm<T>(l: seq<T>, r: nat)
    requires |l| >= 2
    ensures forall p :: 0 <= p < |l| ==> Rotations(l, r)[p] == l[Source(|l|, r, p)]
  {
    if r > 0 {
      var n := |l|;
      var prev := Rotations(l, r - 1);
      RotationsClosedForm(l, r - 1);
      forall p | 0 <= p < n
        ensures Rotations(l, r)[p] == l[Source(n, r, p)]
      {
        RotateAt(prev, p);
        SourceStep(n, r - 1, p);
      }
    }
  }

  lemma SourceOfPosition(n: nat, r: int, x: nat)
    requires n >= 2 && x < n
    ensures Source(n, r, Position(n, r, x)) == x
  {
    if x > 0 {
      var m := n - 1;
      var a := x - 1 + r;
      var q := a / m;
      assert a == q * m + a % m;
      assert a % m - r == (-q) * m + (x - 1);
      ModUnique(a % m - r, -q, x - 1, m);
    }
  }

  lemma PositionOfSource(n: nat, r: int, p: nat)
    requires n >= 2 && p < n
    ensures Position(n, r, Source(n, r, p)) == p
  {
    if p > 0 {
      var m := n - 1;
      var a := p - 1 - r;
      var q := a / m;
      assert a == q * m + a % m;
      assert a % m + r == (-q) * m + (p - 1);
      ModUnique(a % m + r, -q, p - 1, m);
    }
  }

  /** Original element `x` is found at position `p` after `r` steps exactly when `p` is its `Position`. */
  lemma SourceIffPosition(n: nat, r: int, p: nat, x: nat)
    requires n >= 2 && p < n && x < n
    ensures Source(n, r, p) == x <==> p == Position(n, r, x)
  {
    SourceOfPosition(n, r, x);
    PositionOfSource(n, r, p);
  }

  /** Original indices `x` and `y` sit on facing positions `p` and `n - 1 - p` after `r` steps. */
  predicate Facing(n: nat, r: nat, x: nat, y: nat)
    requires n >= 2 && x < n && y < n
  {
    Position(n, r, x) + Position(n, r, y) == n - 1
  }

  /** The round (counted from 0) in which original indices `x` and `y` face each other. */
  function MeetingRound(n: nat, x: nat, y: nat): (r: nat)
    requires n >= 2 && x < n && y < n && x != y
    ensures n % 2 == 0 ==> r < n - 1
  {
    var m := n - 1;
    if x == 0 then m - y
    else if y == 0 then m - x
    else
      var s := x + y;
      if s % 2 == 0 then (2 * m - s) / 2
      else if s <= m then (m - s) / 2
      else (3 * m - s) / 2
  }

  /**
    The linear core of `FacingExactlyOnce` for two indices that both rotate.
    The rotated positions `u` and `v` are passed in with their values fixed
    by the requires, so that the solver reasons about plain linear arithmetic
    instead of unfolding `%`.
   */
  lemma FacingRotating(m: int, x: int, y: int, r: int, u: int, v: int)
    requires m >= 3 && m % 2 == 1
    requires 1 <= x <= m && 1 <= y <= m && x != y && 0 <= r < m
    requires u == (if x - 1 + r < m then x - 1 + r else x - 1 + r - m)
    requires v == (if y - 1 + r < m then y - 1 + r else y - 1 + r - m)
    ensures u + v == m - 2 <==>
      r == (var s := x + y;
            if s % 2 == 0 then (2 * m - s) / 2
            else if s <= m then (m - s) / 2
            else (3 * m - s) / 2)
  {
  }

  /**
    In a list of even length, two distinct original indices face each other in
    exactly one of the first `n - 1` rounds, namely `MeetingRound(n, x, y)`.
   */
  lemma FacingExactlyOnce(n: nat, x: nat, y: nat, r: nat)
    requires n >= 2 && n % 2 == 0
    requires x < n && y < n && x != y
    requires r < n - 1
    ensures MeetingRound(n, x, y) < n - 1
    ensures Facing(n, r, x, y) <==> r == MeetingRound(n, x, y)
  {
    if x == 0 {
      FacingHead(n, y, r);
    } else if y == 0 {
      FacingHead(n, x, r);
    } else {
      var m := n - 1;
      ModNear(x - 1 + r, m);
      ModNear(y - 1 + r, m);
      FacingRotating(m, x, y, r, (x - 1 + r) % m, (y - 1 + r) % m);
    }
  }

  /** The fixed head (index 0) faces index `y` only in round `n - 1 - y`. */
  lemma FacingHead(n: nat, y: nat, r: nat)
    requires n >= 2 && 1 <= y < n && r < n - 1
    ensures Position(n, r, y) == n - 1 <==> r == n - 1 - y
  {
    ModNear(y - 1 + r, n - 1);
  }

  /**
    Of two facing positions exactly one is in the front half, where the home
    side sits. The indicators `c` and `c'` are passed in so that callers can
    name them without the solver unfolding the conditionals again.
   */
  lemma FrontOfPair(n: nat, p: nat, p': nat, c: int, c': int)
    requires n % 2 == 0 && p + p' == n - 1
    requires c == (if p < n / 2 then 1 else 0) && c' == (if p' < n / 2 then 1 else 0)
    ensures c + c' == 1
  {
  }

  /** Index of the pair (counted from 0) that position `p` belongs to when `p` is paired with `n - 1 - p`. */
  function PairIndex(n: nat, p: nat): (i: nat)
    requires n >= 2 && n % 2 == 0 && p < n
    ensures i < n / 2
    ensures p == i || p == n - 1 - i
  {
    if p < n - 1 - p then p else n - 1 - p
  }

  /** Position `p` belongs to pair `i` exactly when it is one of the pair's two positions. */
  lemma PairIndexOf(n: nat, p: nat, i: nat)
    requires n >= 2 && n % 2 == 0 && p < n && i < n / 2
    ensures PairIndex(n, p) == i <==> p == i || p == n - 1 - i
  {
  }
}
