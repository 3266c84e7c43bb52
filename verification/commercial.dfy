/**
  Commercial valuation of a fixture list: every fixture scores 1.0, 1.5 or
  2.0 by how many of its two teams come from the tier-1 markets, and a
  format is worth the sum of its fixtures' scores.

  Scores are exact reals. The only values involved are 1.0, 1.5, 2.0 and
  their sums, which binary floating point represents exactly for any list
  of realistic length.
 */
module Commercial {
  import opened Counting
  import opened Entities

  /** Ids of the teams from the largest commercial markets. */
  const Tier1Teams: seq<int> := [1, 2, 3, 4, 5, 6, 7, 8]

  predicate IsTier1(t: Team)
  {
    t.id in Tier1Teams
  }

  /** Tier-1 membership is exactly the id range 1..8. */
  lemma Tier1Range(t: Team)
    ensures IsTier1(t) <==> 1 <= t.id <= 8
  {
    if 1 <= t.id <= 8 {
      assert Tier1Teams[t.id - 1] == t.id;
    }
  }

  /**
    Score of one fixture: 2.0 when both teams are tier-1, 1.5 when exactly
    one is, 1.0 when neither is.
   */
  function CommercialScore(m: Match): (score: real)
    ensures score == 2.0 <==> IsTier1(m.home) && IsTier1(m.away)
    ensures score == 1.5 <==> IsTier1(m.home) != IsTier1(m.away)
    ensures score == 1.0 <==> !IsTier1(m.home) && !IsTier1(m.away)
    ensures 1.0 <= score <= 2.0
  {
    var homeTier1 := IsTier1(m.home);
    var awayTier1 := IsTier1(m.away);
    if homeTier1 && awayTier1 then 2.0
    else if homeTier1 || awayTier1 then 1.5
    else 1.0
  }

  /** Number of tier-1 teams in a fixture: 0, 1 or 2. */
  function Tier1Sides(m: Match): nat
  {
    (if IsTier1(m.home) then 1 else 0) + (if IsTier1(m.away) then 1 else 0)
  }

  /** The score is a base of 1.0 plus half a point for every tier-1 side. */
  lemma ScoreBySides(m: Match)
    ensures CommercialScore(m) == 1.0 + 0.5 * (Tier1Sides(m) as real)
  {
  }

  /** Which team is at home does not affect the score. */
  lemma ScoreSymmetric(m: Match)
    ensures CommercialScore(m) == CommercialScore(m.(home := m.away, away := m.home))
  {
  }

  /** Total score of a fixture list; the empty list is worth 0. */
  function TotalCommercialValue(ms: seq<Match>): (total: real)
    ensures (|ms| as real) <= total <= 2.0 * (|ms| as real)
  {
    if |ms| == 0 then 0.0 else CommercialScore(ms[0]) + TotalCommercialValue(ms[1..])
  }

  /** The total over two lists played one after the other is the sum of their totals. */
  lemma {:induction false} TotalAppend(a: seq<Match>, b: seq<Match>)
    ensures TotalCommercialValue(a + b) == TotalCommercialValue(a) + TotalCommercialValue(b)
  {
    if |a| > 0 {
      assert (a + b)[1..] == a[1..] + b;
      TotalAppend(a[1..], b);
    } else {
      assert a + b == b;
    }
  }

  /** The query "the home team is tier-1". */
  function HomeTier1(): Match -> bool
  {
    (m: Match) => IsTier1(m.home)
  }

  /** The query "the away team is tier-1". */
  function AwayTier1(): Match -> bool
  {
    (m: Match) => IsTier1(m.away)
  }

  /**
    Closed form of the total: one point per fixture plus half a point for
    every tier-1 appearance, home or away.
   */
  lemma {:induction false} TotalByAppearances(ms: seq<Match>)
    ensures TotalCommercialValue(ms)
         == (|ms| as real) + 0.5 * ((Count(ms, HomeTier1()) + Count(ms, AwayTier1())) as real)
  {
    if |ms| > 0 {
      TotalByAppearances(ms[1..]);
      ScoreBySides(ms[0]);
    }
  }

  /** The total does not depend on the order of the fixtures. */
  lemma TotalPermutation(a: seq<Match>, b: seq<Match>)
    requires multiset(a) == multiset(b)
    ensures TotalCommercialValue(a) == TotalCommercialValue(b)
  {
    TotalByAppearances(a);
    TotalByAppearances(b);
    CountPermutation(a, b, HomeTier1());
    CountPermutation(a, b, AwayTier1());
    assert |a| == |multiset(a)| == |multiset(b)| == |b|;
  }
}
