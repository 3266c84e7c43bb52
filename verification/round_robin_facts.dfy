/**
  Shape of the fixtures one group's schedule produces: who may appear in
  them, which rounds they fall in, and how the second leg mirrors the first.
 */
module RoundRobinFacts {
  import opened Counting
  import opened Entities
  import opened Circle
  import opened FixtureOrder
  import opened RoundRobin

  lemma PadDistinct(teams: seq<Team>)
    requires Distinct(teams)
    ensures Distinct(Pad(teams))
  {
  }

  /** Every real slot of `l` holds a team of the group. */
  predicate SlotsFrom(l: seq<Slot>, teams: seq<Team>)
  {
    forall p :: 0 <= p < |l| && l[p].Real? ==> l[p].team in teams
  }

  /** Fixture `m` of round `roundNo` belongs to group `g`, is between teams of the group, and is not a self-pairing when `distinct` holds. */
  predicate FitsRound(m: Match, teams: seq<Team>, g: nat, roundNo: int, rounds: int, doubleRound: bool, distinct: bool)
  {
    && m.group == g && m.home in teams && m.away in teams
    && (m.round == roundNo || (doubleRound && m.round == roundNo + rounds))
    && (distinct ==> m.home != m.away)
  }

  lemma PairShape(teams: seq<Team>, l: seq<Slot>, i: nat, roundNo: int, rounds: int, g: nat, doubleRound: bool, m: Match)
    requires i < |l| / 2 && SlotsFrom(l, teams)
    requires m in PairMatches(l, i, roundNo, rounds, g, doubleRound)
    ensures FitsRound(m, teams, g, roundNo, rounds, doubleRound, Distinct(l))
  {
    var n := |l|;
    assert l[i].Real? && l[n - 1 - i].Real?;
    if Distinct(l) {
      assert l[i] != l[n - 1 - i];
    }
  }

  /** A first-leg pairing counts once for a query exactly when it is between two teams and the fixture answers the query. */
  lemma PairCount(l: seq<Slot>, i: nat, roundNo: int, rounds: int, g: nat, p: Match -> bool)
    requires i < |l|
    ensures Count(PairMatches(l, i, roundNo, rounds, g, false), p) ==
      if l[i].Real? && l[|l| - 1 - i].Real? && p(Match(l[i].team, l[|l| - 1 - i].team, roundNo, g)) then 1 else 0
  {
    var ms := PairMatches(l, i, roundNo, rounds, g, false);
    if |ms| > 0 {
      assert ms[1..] == [];
    }
  }

  /** Every fixture of the first `j` pairings of a round. */
  lemma {:induction false} RoundShape(teams: seq<Team>, l: seq<Slot>, j: nat, roundNo: int, rounds: int, g: nat, doubleRound: bool, m: Match)
    requires j <= |l| / 2 && SlotsFrom(l, teams)
    requires m in RoundPairings(l, j, roundNo, rounds, g, doubleRound)
    ensures FitsRound(m, teams, g, roundNo, rounds, doubleRound, Distinct(l))
  {
    assert j > 0;
    var prefix := RoundPairings(l, j - 1, roundNo, rounds, g, doubleRound);
    var last := PairMatches(l, j - 1, roundNo, rounds, g, doubleRound);
    assert RoundPairings(l, j, roundNo, rounds, g, doubleRound) == prefix + last;
    if m in prefix {
      RoundShape(teams, l, j - 1, roundNo, rounds, g, doubleRound, m);
    } else {
      PairShape(teams, l, j - 1, roundNo, rounds, g, doubleRound, m);
    }
  }

  /** One circle-method step keeps the slots within the group and free of repetitions. */
  lemma RotateKeeps(teams: seq<Team>, l: seq<Slot>)
    requires |l| >= 2 && SlotsFrom(l, teams)
    ensures SlotsFrom(Rotate(l), teams)
    ensures Distinct(l) ==> Distinct(Rotate(l))
  {
    forall p | 0 <= p < |l|
      ensures Rotate(l)[p] == (if p == 0 then l[0] else if p == 1 then l[|l| - 1] else l[p - 1])
    {
      RotateAt(l, p);
    }
  }

  /** Fixture `m` belongs to group `g`, is between teams of the group, and falls in rounds `r0 + 1 ..` of the leg(s). */
  predicate FitsFrom(m: Match, teams: seq<Team>, g: nat, r0: nat, rounds: nat, doubleRound: bool)
  {
    && m.group == g && m.home in teams && m.away in teams
    && (r0 < m.round <= rounds || (doubleRound && r0 + rounds < m.round <= 2 * rounds))
    && (Distinct(teams) ==> m.home != m.away)
  }

  lemma {:induction false} ScheduleShapeFrom(teams: seq<Team>, l: seq<Slot>, r0: nat, rounds: nat, g: nat, doubleRound: bool, m: Match)
    requires |l| >= 2 && SlotsFrom(l, teams)
    requires Distinct(teams) ==> Distinct(l)
    requires m in Schedule(l, r0, rounds, g, doubleRound)
    ensures FitsFrom(m, teams, g, r0, rounds, doubleRound)
    decreases rounds - r0
  {
    assert r0 < rounds;
    var next := ScheduleStep(teams, l, r0, rounds, g, doubleRound);
    if m in RoundPairings(l, |l| / 2, r0 + 1, rounds, g, doubleRound) {
      FirstRoundFits(teams, l, r0, rounds, g, doubleRound, m);
    } else {
      ScheduleShapeFrom(teams, next, r0 + 1, rounds, g, doubleRound, m);
      FitsLater(m, teams, g, r0, rounds, doubleRound);
    }
  }

  lemma FirstRoundFits(teams: seq<Team>, l: seq<Slot>, r0: nat, rounds: nat, g: nat, doubleRound: bool, m: Match)
    requires |l| >= 2 && SlotsFrom(l, teams) && r0 < rounds
    requires Distinct(teams) ==> Distinct(l)
    requires m in RoundPairings(l, |l| / 2, r0 + 1, rounds, g, doubleRound)
    ensures FitsFrom(m, teams, g, r0, rounds, doubleRound)
  {
    RoundShape(teams, l, |l| / 2, r0 + 1, rounds, g, doubleRound, m);
  }

  /** A fixture of rounds `r0 + 2 ..` is one of rounds `r0 + 1 ..`. */
  lemma FitsLater(m: Match, teams: seq<Team>, g: nat, r0: nat, rounds: nat, doubleRound: bool)
    requires FitsFrom(m, teams, g, r0 + 1, rounds, doubleRound)
    ensures FitsFrom(m, teams, g, r0, rounds, doubleRound)
  {
  }

  /** A schedule is its first round followed by the schedule of the rotated list, which keeps the slots' shape. */
  lemma ScheduleStep(teams: seq<Team>, l: seq<Slot>, r: nat, rounds: nat, g: nat, doubleRound: bool) returns (next: seq<Slot>)
    requires |l| >= 2 && r < rounds && SlotsFrom(l, teams)
    requires Distinct(teams) ==> Distinct(l)
    ensures |next| == |l| && SlotsFrom(next, teams)
    ensures Distinct(teams) ==> Distinct(next)
    ensures Schedule(l, r, rounds, g, doubleRound) ==
      RoundPairings(l, |l| / 2, r + 1, rounds, g, doubleRound) + Schedule(next, r + 1, rounds, g, doubleRound)
  {
    next := Rotate(l);
    RotateKeeps(teams, l);
  }

  /**
    Every generated fixture belongs to group `g`, is between two teams of the
    group (never the BYE), and is played in a round between 1 and the number
    of first-leg rounds, or, for a double round-robin, twice that number. With
    no repeated team, no team plays itself.
   */
  lemma FixturesWellFormed(g: nat, teams: seq<Team>, doubleRound: bool, m: Match)
    requires m in GenerateRoundRobin(g, teams, doubleRound)
    ensures m.group == g && m.home in teams && m.away in teams
    ensures 1 <= m.round <= (if doubleRound then 2 else 1) * LegRounds(|teams|)
    ensures Distinct(teams) ==> m.home != m.away
  {
    assert m in multiset(GroupFixtures(g, teams, doubleRound));
    GroupFixturesShape(g, teams, doubleRound, m);
  }

  lemma GroupFixturesShape(g: nat, teams: seq<Team>, doubleRound: bool, m: Match)
    requires m in GroupFixtures(g, teams, doubleRound)
    ensures m.group == g && m.home in teams && m.away in teams
    ensures 1 <= m.round <= (if doubleRound then 2 else 1) * LegRounds(|teams|)
    ensures Distinct(teams) ==> m.home != m.away
  {
    var P := Pad(teams);
    assert SlotsFrom(P, teams);
    if Distinct(teams) {
      PadDistinct(teams);
    }
    ScheduleShapeFrom(teams, P, 0, |P| - 1, g, doubleRound, m);
  }

  /** The second-leg counterpart of a fixture: home and away swapped, `rounds` rounds later. */
  function MirrorOf(m: Match, rounds: int): Match
  {
    Match(m.away, m.home, m.round + rounds, m.group)
  }

  function Mirror(ms: seq<Match>, rounds: int): (r: seq<Match>)
    ensures |r| == |ms|
  {
    if |ms| == 0 then [] else [MirrorOf(ms[0], rounds)] + Mirror(ms[1..], rounds)
  }

  /** Each fixture `z` occurs in the mirrored list as often as its pre-image occurs in the original. */
  lemma {:induction false} MirrorCounts(ms: seq<Match>, rounds: int, z: Match)
    ensures multiset(Mirror(ms, rounds))[z] == multiset(ms)[MirrorOf(z, -rounds)]
  {
    if |ms| > 0 {
      MirrorCounts(ms[1..], rounds, z);
      assert ms == [ms[0]] + ms[1..];
      assert MirrorOf(ms[0], rounds) == z <==> ms[0] == MirrorOf(z, -rounds);
    }
  }

  lemma MirrorPermutation(s: seq<Match>, t: seq<Match>, rounds: int)
    requires multiset(s) == multiset(t)
    ensures multiset(Mirror(s, rounds)) == multiset(Mirror(t, rounds))
  {
    forall z
      ensures multiset(Mirror(s, rounds))[z] == multiset(Mirror(t, rounds))[z]
    {
      MirrorCounts(s, rounds, z);
      MirrorCounts(t, rounds, z);
    }
  }

  /** Each fixture immediately followed by its mirror: the emission order of a double round-robin. */
  function WithMirrors(ms: seq<Match>, rounds: int): (r: seq<Match>)
    ensures |r| == 2 * |ms|
  {
    if |ms| == 0 then [] else [ms[0], MirrorOf(ms[0], rounds)] + WithMirrors(ms[1..], rounds)
  }

  lemma {:induction false} WithMirrorsAppend(a: seq<Match>, b: seq<Match>, rounds: int)
    ensures WithMirrors(a + b, rounds) == WithMirrors(a, rounds) + WithMirrors(b, rounds)
  {
    if |a| > 0 {
      assert (a + b)[1..] == a[1..] + b;
      WithMirrorsAppend(a[1..], b, rounds);
    } else {
      assert a + b == b;
    }
  }

  /** The interleaved list has the fixtures of the original and of its mirror, whatever is counted. */
  lemma {:induction false} WithMirrorsCount(ms: seq<Match>, rounds: int, p: Match -> bool)
    ensures Count(WithMirrors(ms, rounds), p) == Count(ms, p) + Count(Mirror(ms, rounds), p)
  {
    if |ms| > 0 {
      var w := WithMirrors(ms, rounds);
      WithMirrorsCount(ms[1..], rounds, p);
      assert w[1..][1..] == WithMirrors(ms[1..], rounds);
    }
  }

  lemma WithMirrorsMultiset(ms: seq<Match>, rounds: int)
    ensures multiset(WithMirrors(ms, rounds)) == multiset(ms) + multiset(Mirror(ms, rounds))
  {
    forall z
      ensures multiset(WithMirrors(ms, rounds))[z] == (multiset(ms) + multiset(Mirror(ms, rounds)))[z]
    {
      var p := x => x == z;
      WithMirrorsCount(ms, rounds, p);
      CountIsMultiplicity(WithMirrors(ms, rounds), z, p);
      CountIsMultiplicity(ms, z, p);
      CountIsMultiplicity(Mirror(ms, rounds), z, p);
    }
  }

  lemma MirrorsJoin(x: seq<Match>, y: seq<Match>, a: seq<Match>, b: seq<Match>, rounds: int)
    requires x == WithMirrors(a, rounds) && y == WithMirrors(b, rounds)
    ensures x + y == WithMirrors(a + b, rounds)
  {
    WithMirrorsAppend(a, b, rounds);
  }

  lemma PairMatchesDouble(l: seq<Slot>, i: nat, roundNo: int, rounds: int, g: nat)
    requires i < |l|
    ensures PairMatches(l, i, roundNo, rounds, g, true) ==
      WithMirrors(PairMatches(l, i, roundNo, rounds, g, false), rounds)
  {
    var single := PairMatches(l, i, roundNo, rounds, g, false);
    if |single| > 0 {
      assert single[1..] == [];
    }
  }

  lemma {:induction false} RoundPairingsDouble(l: seq<Slot>, j: nat, roundNo: int, rounds: int, g: nat)
    requires j <= |l|
    ensures RoundPairings(l, j, roundNo, rounds, g, true) ==
      WithMirrors(RoundPairings(l, j, roundNo, rounds, g, false), rounds)
  {
    if j > 0 {
      var prefix := RoundPairings(l, j - 1, roundNo, rounds, g, false);
      var single := PairMatches(l, j - 1, roundNo, rounds, g, false);
      RoundPairingsDouble(l, j - 1, roundNo, rounds, g);
      PairMatchesDouble(l, j - 1, roundNo, rounds, g);
      MirrorsJoin(RoundPairings(l, j - 1, roundNo, rounds, g, true), PairMatches(l, j - 1, roundNo, rounds, g, true),
        prefix, single, rounds);
    }
  }

  lemma {:induction false} ScheduleDouble(l: seq<Slot>, r: nat, rounds: nat, g: nat)
    requires |l| >= 2
    ensures Schedule(l, r, rounds, g, true) == WithMirrors(Schedule(l, r, rounds, g, false), rounds)
    decreases rounds - r
  {
    if r < rounds {
      RoundPairingsDouble(l, |l| / 2, r + 1, rounds, g);
      ScheduleDouble(Rotate(l), r + 1, rounds, g);
      WithMirrorsAppend(RoundPairings(l, |l| / 2, r + 1, rounds, g, false), Schedule(Rotate(l), r + 1, rounds, g, false), rounds);
    }
  }

  /** The double round-robin emits every first-leg fixture immediately followed by its mirror. */
  lemma FixturesDouble(g: nat, teams: seq<Team>)
    ensures GroupFixtures(g, teams, true) == WithMirrors(GroupFixtures(g, teams, false), LegRounds(|teams|))
  {
    if |teams| >= 2 {
      var l := Pad(teams);
      ScheduleDouble(l, 0, |l| - 1, g);
    }
  }

  /**
    A double round-robin consists of the single round-robin fixtures together
    with their mirrors: home and away swapped and the round moved on by the
    number of first-leg rounds. Every second-leg fixture is such a mirror.
   */
  lemma SecondLegMirrorsFirst(g: nat, teams: seq<Team>)
    ensures multiset(GenerateRoundRobin(g, teams, true)) ==
      multiset(GenerateRoundRobin(g, teams, false))
      + multiset(Mirror(GenerateRoundRobin(g, teams, false), LegRounds(|teams|)))
  {
    var single := GenerateRoundRobin(g, teams, false);
    if |teams| >= 2 {
      FixturesDouble(g, teams);
      WithMirrorsMultiset(GroupFixtures(g, teams, false), LegRounds(|teams|));
      MirrorPermutation(single, GroupFixtures(g, teams, false), LegRounds(|teams|));
    }
  }
}
