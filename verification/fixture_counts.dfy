/**
  How many fixtures a group's schedule holds, and how many of them a team
  plays in each round. Every round holds `k / 2` fixtures for a group of `k`
  teams, so the single round-robin has `k (k - 1) / 2` of them and the double
  one twice as many; a team plays exactly one fixture in every round except
  the one in which it faces the BYE.
 */
module FixtureCounts {
  import opened Counting
  import opened Modular
  import opened Entities
  import opened Circle
  import opened RoundRobin
  import opened RoundRobinFacts
  import opened Completeness

  // ---------------------------------------------------------------------------
  // Number of fixtures
  // ---------------------------------------------------------------------------

  /** In a group of odd size the index of the pairing of round `r + 1` that holds the BYE, otherwise `-1`. */
  function ByeIndex(teams: seq<Team>, r: nat): int
    requires |teams| >= 2
  {
    var n := |Pad(teams)|;
    if |teams| % 2 == 1 then PairIndex(n, Position(n, r, |teams|)) else -1
  }

  /** Pairing `i` of round `r + 1` holds the BYE. */
  predicate ByePairing(teams: seq<Team>, r: nat, i: nat)
    requires |teams| >= 2
  {
    ByeIndex(teams, r) == i
  }

  /** A pairing yields one first-leg fixture unless it holds the BYE. */
  lemma PairLength(teams: seq<Team>, r: nat, i: nat, rounds: int, g: nat)
    requires |teams| >= 2 && i < |Pad(teams)| / 2
    ensures |PairMatches(Rotations(Pad(teams), r), i, r + 1, rounds, g, false)| ==
      if ByePairing(teams, r, i) then 0 else 1
  {
    var n := |Pad(teams)|;
    ByeAt(teams, r, i);
    ByeAt(teams, r, n - 1 - i);
  }

  lemma {:induction false} RoundLength(teams: seq<Team>, r: nat, j: nat, rounds: int, g: nat)
    requires |teams| >= 2 && j <= |Pad(teams)| / 2
    ensures |RoundPairings(Rotations(Pad(teams), r), j, r + 1, rounds, g, false)| ==
      j - (if 0 <= ByeIndex(teams, r) < j then 1 else 0)
  {
    if j > 0 {
      var L := Rotations(Pad(teams), r);
      var prefix := RoundPairings(L, j - 1, r + 1, rounds, g, false);
      var pair := PairMatches(L, j - 1, r + 1, rounds, g, false);
      assert RoundPairings(L, j, r + 1, rounds, g, false) == prefix + pair;
      RoundLength(teams, r, j - 1, rounds, g);
      PairLength(teams, r, j - 1, rounds, g);
    }
  }

  /** Every round of a group of `k` teams holds `k / 2` first-leg fixtures. */
  lemma RoundSize(teams: seq<Team>, r: nat, g: nat)
    requires |teams| >= 2
    ensures |RoundOf(Pad(teams), r, g, false)| == |teams| / 2
  {
    RoundLength(teams, r, |Pad(teams)| / 2, |Pad(teams)| - 1, g);
  }

  lemma RoundSizes(teams: seq<Team>, g: nat)
    requires |teams| >= 2
    ensures var rs := Rounds(Pad(teams), g, false);
      forall q :: 0 <= q < |rs| ==> |rs[q]| == |teams| / 2
  {
    var P := Pad(teams);
    var rs := Rounds(P, g, false);
    forall q | 0 <= q < |rs|
      ensures |rs[q]| == |teams| / 2
    {
      assert rs[q] == RoundOf(P, q, g, false);
      RoundSize(teams, q, g);
    }
  }

  /** `LegRounds(k)` rounds of `k / 2` fixtures make `k (k - 1) / 2` fixtures. */
  lemma HalfProduct(k: nat)
    requires k >= 2
    ensures 2 * (LegRounds(k) * (k / 2)) == k * (k - 1)
    ensures LegRounds(k) * (k / 2) == k * (k - 1) / 2
  {
    var h := k / 2;
    if k % 2 == 0 {
      assert k == 2 * h;
      assert k * (k - 1) == 2 * (h * (k - 1));
    } else {
      assert k == 2 * h + 1;
      assert k * (k - 1) == 2 * (k * h);
    }
  }

  /** The single round-robin has `LegRounds(k)` rounds of `k / 2` fixtures. */
  lemma SingleLength(g: nat, teams: seq<Team>)
    requires |teams| >= 2
    ensures |GroupFixtures(g, teams, false)| == LegRounds(|teams|) * (|teams| / 2)
  {
    RoundSizes(teams, g);
    FlattenLength(Rounds(Pad(teams), g, false), |teams| / 2);
    FixturesAreRounds(g, teams, false);
  }

  /**
    A group of `k` teams has `k (k - 1) / 2` fixtures in a single round-robin
    and `k (k - 1)` in a double one (none when `k < 2`), whatever the teams.
   */
  lemma FixtureCount(g: nat, teams: seq<Team>)
    ensures var k := |teams|;
      |GenerateRoundRobin(g, teams, false)| == k * (k - 1) / 2
    ensures var k := |teams|;
      |GenerateRoundRobin(g, teams, true)| == k * (k - 1)
  {
    var k := |teams|;
    if k >= 2 {
      SingleLength(g, teams);
      DoubleLength(g, teams);
      HalfProduct(k);
    } else {
      assert k * (k - 1) == 0;
    }
  }

  /** The double round-robin has twice the fixtures of the single one. */
  lemma DoubleLength(g: nat, teams: seq<Team>)
    requires |teams| >= 2
    ensures |GroupFixtures(g, teams, true)| == 2 * |GroupFixtures(g, teams, false)|
  {
    FixturesDouble(g, teams);
  }

  // ---------------------------------------------------------------------------
  // One fixture per team and round
  // ---------------------------------------------------------------------------

  /** Team `x` sits out round `r + 1`: the group is odd and the team faces the BYE. */
  predicate SitsOut(teams: seq<Team>, r: nat, x: nat)
    requires |teams| >= 2 && x < |teams|
  {
    var n := |Pad(teams)|;
    ByePairing(teams, r, PairIndex(n, Position(n, r, x)))
  }

  /** Pairing `i` of round `r + 1` involves `teams[x]` exactly when it is that team's pairing and not the BYE's. */
  lemma PairPlays(teams: seq<Team>, r: nat, i: nat, x: nat, q: int, rounds: int, g: nat)
    requires |teams| >= 2 && Distinct(teams) && x < |teams| && i < |Pad(teams)| / 2
    ensures var n := |Pad(teams)|;
      Count(PairMatches(Rotations(Pad(teams), r), i, r + 1, rounds, g, false), PlaysInRound(teams[x], q)) ==
      if q == r + 1 && PairIndex(n, Position(n, r, x)) == i && !ByePairing(teams, r, i) then 1 else 0
  {
    var n := |Pad(teams)|;
    var L := Rotations(Pad(teams), r);
    ByeAt(teams, r, i);
    ByeAt(teams, r, n - 1 - i);
    TeamAt(teams, r, i, x);
    TeamAt(teams, r, n - 1 - i, x);
    PairIndexOf(n, Position(n, r, x), i);
    if |teams| % 2 == 1 {
      PairIndexOf(n, Position(n, r, |teams|), i);
    }
    PairCount(L, i, r + 1, rounds, g, PlaysInRound(teams[x], q));
  }

  lemma {:induction false} RoundPlays(teams: seq<Team>, r: nat, j: nat, x: nat, q: int, rounds: int, g: nat)
    requires |teams| >= 2 && Distinct(teams) && x < |teams| && j <= |Pad(teams)| / 2
    ensures var n := |Pad(teams)|;
      var i := PairIndex(n, Position(n, r, x));
      Count(RoundPairings(Rotations(Pad(teams), r), j, r + 1, rounds, g, false), PlaysInRound(teams[x], q)) ==
      if q == r + 1 && i < j && !ByePairing(teams, r, i) then 1 else 0
  {
    if j > 0 {
      var L := Rotations(Pad(teams), r);
      var prefix := RoundPairings(L, j - 1, r + 1, rounds, g, false);
      var pair := PairMatches(L, j - 1, r + 1, rounds, g, false);
      assert RoundPairings(L, j, r + 1, rounds, g, false) == prefix + pair;
      RoundPlays(teams, r, j - 1, x, q, rounds, g);
      PairPlays(teams, r, j - 1, x, q, rounds, g);
      CountAppend(prefix, pair, PlaysInRound(teams[x], q));
    }
  }

  /**
    Round `r` of the first leg holds a fixture of `teams[x]` in round `q`
    only when `r` is the meeting index `meet`, and then `v` of them. The
    expected values `meet` and `v` are passed in rather than written out in
    the ensures, which keeps the solver's work on this step small.
   */
  lemma RoundPlaysAt(teams: seq<Team>, r: nat, x: nat, q: int, g: nat, meet: int, v: nat)
    requires |teams| >= 2 && Distinct(teams) && x < |teams| && r < |Pad(teams)| - 1
    requires meet == q - 1
    requires v == (if 1 <= q < |Pad(teams)| && !SitsOut(teams, q - 1, x) then 1 else 0)
    ensures Count(RoundOf(Pad(teams), r, g, false), PlaysInRound(teams[x], q)) == if r == meet then v else 0
  {
    var n := |Pad(teams)|;
    RoundPlays(teams, r, n / 2, x, q, n - 1, g);
  }

  /** `RoundPlaysAt` for every round at once; `meet` and `v` are passed in for the same reason. */
  lemma RoundsPlays(teams: seq<Team>, x: nat, q: int, g: nat, meet: int, v: nat)
    requires |teams| >= 2 && Distinct(teams) && x < |teams|
    requires meet == q - 1
    requires v == (if 1 <= q < |Pad(teams)| && !SitsOut(teams, q - 1, x) then 1 else 0)
    ensures var rs := Rounds(Pad(teams), g, false);
      forall r :: 0 <= r < |rs| ==> Count(rs[r], PlaysInRound(teams[x], q)) == if r == meet then v else 0
  {
    var rs := Rounds(Pad(teams), g, false);
    forall r | 0 <= r < |rs|
      ensures Count(rs[r], PlaysInRound(teams[x], q)) == if r == meet then v else 0
    {
      RoundPlaysAt(teams, r, x, q, g, meet, v);
    }
  }

  /**
    In the unsorted single round-robin a team plays exactly one fixture in
    every round `1 .. LegRounds(k)` except the one in which it sits out, and
    none in any other round.
   */
  lemma SchedulePlays(g: nat, teams: seq<Team>, x: nat, q: int)
    requires |teams| >= 2 && Distinct(teams) && x < |teams|
    ensures Count(GroupFixtures(g, teams, false), PlaysInRound(teams[x], q)) ==
      if 1 <= q <= LegRounds(|teams|) && !SitsOut(teams, q - 1, x) then 1 else 0
  {
    var n := |Pad(teams)|;
    var v := if 1 <= q < n && !SitsOut(teams, q - 1, x) then 1 else 0;
    RoundsPlays(teams, x, q, g, q - 1, v);
    FlattenCountOne(Rounds(Pad(teams), g, false), PlaysInRound(teams[x], q), q - 1, v);
    FixturesAreRounds(g, teams, false);
  }

  /** The doubled list has `t` in round `q` as often as the single list has it in round `q` or `q - rounds`. */
  lemma {:induction false} WithMirrorsPlays(ms: seq<Match>, rounds: int, t: Team, q: int)
    ensures Count(WithMirrors(ms, rounds), PlaysInRound(t, q)) ==
      Count(ms, PlaysInRound(t, q)) + Count(ms, PlaysInRound(t, q - rounds))
  {
    if |ms| > 0 {
      var w := WithMirrors(ms, rounds);
      WithMirrorsPlays(ms[1..], rounds, t, q);
      assert w[1..][1..] == WithMirrors(ms[1..], rounds);
    }
  }

  /** A team outside the group never plays. */
  lemma OutsiderIdle(g: nat, teams: seq<Team>, doubleRound: bool, t: Team, q: int)
    requires t !in teams
    ensures Count(GroupFixtures(g, teams, doubleRound), PlaysInRound(t, q)) == 0
  {
    var ms := GroupFixtures(g, teams, doubleRound);
    forall i | 0 <= i < |ms|
      ensures !PlaysInRound(t, q)(ms[i])
    {
      GroupFixturesShape(g, teams, doubleRound, ms[i]);
    }
    CountNone(ms, PlaysInRound(t, q));
  }

  /**
    In a group without repeated teams, no team plays more than one fixture in
    any round, in a single or a double round-robin. In the first leg a team
    of the group plays exactly one fixture in each round `1 .. LegRounds(k)`
    except the one in which it faces the BYE.
   */
  lemma OneMatchPerRound(g: nat, teams: seq<Team>, doubleRound: bool, t: Team, q: int)
    requires Distinct(teams)
    ensures Count(GenerateRoundRobin(g, teams, doubleRound), PlaysInRound(t, q)) <= 1
    ensures |teams| >= 2 && !doubleRound ==> forall x :: 0 <= x < |teams| && teams[x] == t ==>
      Count(GenerateRoundRobin(g, teams, false), PlaysInRound(t, q)) ==
      if 1 <= q <= LegRounds(|teams|) && !SitsOut(teams, q - 1, x) then 1 else 0
  {
    CountPermutation(GenerateRoundRobin(g, teams, doubleRound), GroupFixtures(g, teams, doubleRound), PlaysInRound(t, q));
    if |teams| < 2 {
    } else if t !in teams {
      OutsiderIdle(g, teams, doubleRound, t, q);
    } else {
      var x := IndexOf(teams, t);
      if doubleRound {
        DoublePlays(g, teams, x, q);
      } else {
        SchedulePlays(g, teams, x, q);
        forall x' | 0 <= x' < |teams| && teams[x'] == t
          ensures x' == x
        {
        }
      }
    }
  }

  /** In the double round-robin a team plays a first-leg fixture in round `q` or a second-leg one, never both. */
  lemma DoublePlays(g: nat, teams: seq<Team>, x: nat, q: int)
    requires |teams| >= 2 && Distinct(teams) && x < |teams|
    ensures Count(GroupFixtures(g, teams, true), PlaysInRound(teams[x], q)) <= 1
  {
    FirstLegPlaysAtMost(g, teams, x);
    MirroredPlaysAtMost(GroupFixtures(g, teams, false), LegRounds(|teams|), teams[x], q);
    FixturesDouble(g, teams);
  }

  /** A list in which `t` plays at most once per round `1 .. rounds` keeps that bound once mirrored `rounds` rounds later. */
  lemma MirroredPlaysAtMost(ms: seq<Match>, rounds: int, t: Team, q: int)
    requires forall q' :: Count(ms, PlaysInRound(t, q')) <= if 1 <= q' <= rounds then 1 else 0
    ensures Count(WithMirrors(ms, rounds), PlaysInRound(t, q)) <= 1
  {
    WithMirrorsPlays(ms, rounds, t, q);
    assert Count(ms, PlaysInRound(t, q - rounds)) <= if 1 <= q - rounds <= rounds then 1 else 0;
  }

  /** In the first leg a team plays at most once in a round, and only in rounds `1 .. LegRounds(k)`. */
  lemma FirstLegPlaysAtMost(g: nat, teams: seq<Team>, x: nat)
    requires |teams| >= 2 && Distinct(teams) && x < |teams|
    ensures forall q :: Count(GroupFixtures(g, teams, false), PlaysInRound(teams[x], q)) <= if 1 <= q <= LegRounds(|teams|) then 1 else 0
  {
    forall q
      ensures Count(GroupFixtures(g, teams, false), PlaysInRound(teams[x], q)) <= if 1 <= q <= LegRounds(|teams|) then 1 else 0
    {
      SchedulePlays(g, teams, x, q);
    }
  }
}
