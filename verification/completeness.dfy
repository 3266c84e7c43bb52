/**
  Completeness of the circle method for one group of `k >= 2` teams: every
  pair of different teams meets exactly once in the first leg (and once more,
  home and away swapped, in a double round-robin), there are `k (k - 1) / 2`
  first-leg fixtures, and no team plays twice in a round.

  The proofs read the working list of round `r + 1` through the closed form
  `Rotations(P, r)[p] == P[Source(n, r, p)]` of the rotation: the team at
  index `x` of the padded list `P` sits at position `Position(n, r, x)`.
 */
module Completeness {
  import opened Counting
  import opened Entities
  import opened Circle
  import opened RoundRobin
  import opened RoundRobinFacts

  /** In the padded list of teams without repetitions, team `x` is found at index `x` only. */
  lemma PadIndex(teams: seq<Team>, z: nat, x: nat)
    requires Distinct(teams) && x < |teams| && z < |Pad(teams)|
    ensures Pad(teams)[z] == Real(teams[x]) <==> z == x
  {
  }

  /** The BYE, if any, is the last slot of the padded list. */
  lemma PadBye(teams: seq<Team>, z: nat)
    requires z < |Pad(teams)|
    ensures Pad(teams)[z].Bye? <==> |teams| % 2 == 1 && z == |teams|
  {
  }

  /** The slot at position `p` in round `r + 1`. */
  lemma SlotAt(teams: seq<Team>, r: nat, p: nat)
    requires |teams| >= 2 && p < |Pad(teams)|
    ensures Rotations(Pad(teams), r)[p] == Pad(teams)[Source(|Pad(teams)|, r, p)]
  {
    RotationsClosedForm(Pad(teams), r);
  }

  /** Team `x` is at position `p` in round `r + 1` exactly when `p` is its `Position`. */
  lemma TeamAt(teams: seq<Team>, r: nat, p: nat, x: nat)
    requires |teams| >= 2 && Distinct(teams) && x < |teams| && p < |Pad(teams)|
    ensures Rotations(Pad(teams), r)[p] == Real(teams[x]) <==> p == Position(|Pad(teams)|, r, x)
  {
    var n := |Pad(teams)|;
    SlotAt(teams, r, p);
    PadIndex(teams, Source(n, r, p), x);
    SourceIffPosition(n, r, p, x);
  }

  /** The BYE is at position `p` in round `r + 1` exactly when the group is odd and `p` is the BYE's `Position`. */
  lemma ByeAt(teams: seq<Team>, r: nat, p: nat)
    requires |teams| >= 2 && p < |Pad(teams)|
    ensures Rotations(Pad(teams), r)[p].Bye? <==>
      |teams| % 2 == 1 && p == Position(|Pad(teams)|, r, |teams|)
  {
    var n := |Pad(teams)|;
    SlotAt(teams, r, p);
    PadBye(teams, Source(n, r, p));
    if |teams| % 2 == 1 {
      SourceIffPosition(n, r, p, |teams|);
    }
  }

  // ---------------------------------------------------------------------------
  // Pairwise completeness
  // ---------------------------------------------------------------------------

  /** Pairing `i` of round `r + 1` has `teams[x]` at home to `teams[y]` exactly when they sit at `i` and `n - 1 - i`. */
  lemma PairHosts(teams: seq<Team>, r: nat, i: nat, x: nat, y: nat, rounds: int, g: nat)
    requires |teams| >= 2 && Distinct(teams) && x < |teams| && y < |teams|
    requires i < |Pad(teams)| / 2
    ensures var n := |Pad(teams)|;
      Count(PairMatches(Rotations(Pad(teams), r), i, r + 1, rounds, g, false), Hosts(teams[x], teams[y])) ==
      if Position(n, r, x) == i && Position(n, r, y) == n - 1 - i then 1 else 0
  {
    var n := |Pad(teams)|;
    var L := Rotations(Pad(teams), r);
    TeamAt(teams, r, i, x);
    TeamAt(teams, r, n - 1 - i, y);
    PairCount(L, i, r + 1, rounds, g, Hosts(teams[x], teams[y]));
  }

  /** The first `j` pairings of round `r + 1` hold the fixture `teams[x]` v `teams[y]` once if the two face each other with `x` in front. */
  lemma {:induction false} RoundHosts(teams: seq<Team>, r: nat, j: nat, x: nat, y: nat, rounds: int, g: nat)
    requires |teams| >= 2 && Distinct(teams) && x < |teams| && y < |teams|
    requires j <= |Pad(teams)| / 2
    ensures var n := |Pad(teams)|;
      Count(RoundPairings(Rotations(Pad(teams), r), j, r + 1, rounds, g, false), Hosts(teams[x], teams[y])) ==
      if Facing(n, r, x, y) && Position(n, r, x) < j then 1 else 0
  {
    if j > 0 {
      var L := Rotations(Pad(teams), r);
      RoundHosts(teams, r, j - 1, x, y, rounds, g);
      PairHosts(teams, r, j - 1, x, y, rounds, g);
      CountAppend(RoundPairings(L, j - 1, r + 1, rounds, g, false),
        PairMatches(L, j - 1, r + 1, rounds, g, false), Hosts(teams[x], teams[y]));
    }
  }

  /** The fixtures of round `q + 1` of a schedule over the rotations of `base`. */
  function RoundOf(base: seq<Slot>, q: nat, g: nat, doubleRound: bool): seq<Match>
    requires |base| >= 2
  {
    RoundPairings(Rotations(base, q), |base| / 2, q + 1, |base| - 1, g, doubleRound)
  }

  /** A schedule from round `r + 1` on is round `r + 1` followed by the schedule from round `r + 2` on. */
  lemma ScheduleUnroll(base: seq<Slot>, r: nat, g: nat, doubleRound: bool)
    requires |base| >= 2 && r < |base| - 1
    ensures var rounds := |base| - 1;
      Schedule(Rotations(base, r), r, rounds, g, doubleRound) ==
      RoundOf(base, r, g, doubleRound) + Schedule(Rotations(base, r + 1), r + 1, rounds, g, doubleRound)
  {
    var rounds := |base| - 1;
    var L := Rotations(base, r);
    assert Rotate(L) == Rotations(base, r + 1);
    assert Schedule(L, r, rounds, g, doubleRound) ==
      RoundPairings(L, |L| / 2, r + 1, rounds, g, doubleRound) + Schedule(Rotate(L), r + 1, rounds, g, doubleRound);
  }

  /** The rounds of a schedule over the rotations of `base`, round `q + 1` at index `q`. */
  function Rounds(base: seq<Slot>, g: nat, doubleRound: bool): (rs: seq<seq<Match>>)
    requires |base| >= 2
    ensures |rs| == |base| - 1
  {
    seq(|base| - 1, q requires 0 <= q < |base| - 1 => RoundOf(base, q, g, doubleRound))
  }

  /** A schedule is its rounds one after the other. */
  lemma {:induction false} ScheduleIsFlatten(base: seq<Slot>, r: nat, g: nat, doubleRound: bool)
    requires |base| >= 2 && r <= |base| - 1
    ensures Schedule(Rotations(base, r), r, |base| - 1, g, doubleRound) == Flatten(Rounds(base, g, doubleRound)[r..])
    decreases |base| - 1 - r
  {
    var rs := Rounds(base, g, doubleRound);
    if r < |base| - 1 {
      var tail := rs[r..];
      ScheduleUnroll(base, r, g, doubleRound);
      ScheduleIsFlatten(base, r + 1, g, doubleRound);
      assert tail[0] == RoundOf(base, r, g, doubleRound);
      assert tail[1..] == rs[r + 1..];
      assert Flatten(tail) == tail[0] + Flatten(tail[1..]);
    } else {
      assert rs[r..] == [];
    }
  }

  /**
    Round `q + 1` holds the fixture `teams[x]` v `teams[y]` only in the round
    the two meet, and there `v` times: once if `x` is in front. The value `v`
    is passed in, fixed by the requires, to keep each proof step small.
   */
  lemma RoundsHosts(teams: seq<Team>, x: nat, y: nat, g: nat, v: nat)
    requires |teams| >= 2 && Distinct(teams) && x < |teams| && y < |teams| && x != y
    requires var n := |Pad(teams)|;
      v == if Position(n, MeetingRound(n, x, y), x) < n / 2 then 1 else 0
    ensures var rs := Rounds(Pad(teams), g, false);
      forall q :: 0 <= q < |rs| ==>
        Count(rs[q], Hosts(teams[x], teams[y])) == if q == MeetingRound(|Pad(teams)|, x, y) then v else 0
  {
    var rs := Rounds(Pad(teams), g, false);
    forall q | 0 <= q < |rs|
      ensures Count(rs[q], Hosts(teams[x], teams[y])) == if q == MeetingRound(|Pad(teams)|, x, y) then v else 0
    {
      RoundHostsAt(teams, q, x, y, g, v);
    }
  }

  /** `RoundsHosts` for a single round `q`, with `v` passed in for the same reason. */
  lemma RoundHostsAt(teams: seq<Team>, q: nat, x: nat, y: nat, g: nat, v: nat)
    requires |teams| >= 2 && Distinct(teams) && x < |teams| && y < |teams| && x != y
    requires q < |Pad(teams)| - 1
    requires var n := |Pad(teams)|;
      v == if Position(n, MeetingRound(n, x, y), x) < n / 2 then 1 else 0
    ensures var P := Pad(teams);
      var n := |P|;
      Count(RoundOf(P, q, g, false), Hosts(teams[x], teams[y])) == if q == MeetingRound(n, x, y) then v else 0
  {
    var n := |Pad(teams)|;
    RoundHosts(teams, q, n / 2, x, y, n - 1, g);
    FacingExactlyOnce(n, x, y, q);
  }

  /** The unsorted fixtures of a group are its rounds one after the other. */
  lemma FixturesAreRounds(g: nat, teams: seq<Team>, doubleRound: bool)
    requires |teams| >= 2
    ensures GroupFixtures(g, teams, doubleRound) == Flatten(Rounds(Pad(teams), g, doubleRound))
  {
    var P := Pad(teams);
    ScheduleIsFlatten(P, 0, g, doubleRound);
    assert Rounds(P, g, doubleRound)[0..] == Rounds(P, g, doubleRound);
  }

  /**
    A single round-robin holds the fixture `teams[x]` v `teams[y]` once if
    `x` is in front in the round in which the two meet, and never otherwise.
   */
  lemma ScheduleHosts(teams: seq<Team>, x: nat, y: nat, g: nat)
    requires |teams| >= 2 && Distinct(teams) && x < |teams| && y < |teams| && x != y
    ensures var n := |Pad(teams)|;
      var meet := MeetingRound(n, x, y);
      Count(GroupFixtures(g, teams, false), Hosts(teams[x], teams[y])) ==
      if Position(n, meet, x) < n / 2 then 1 else 0
  {
    var P := Pad(teams);
    var n := |P|;
    var meet := MeetingRound(n, x, y);
    var v := if Position(n, meet, x) < n / 2 then 1 else 0;
    RoundsHosts(teams, x, y, g, v);
    FacingExactlyOnce(n, x, y, 0);
    FlattenCountOne(Rounds(P, g, false), Hosts(teams[x], teams[y]), meet, v);
    FixturesAreRounds(g, teams, false);
  }

  /** Two teams face each other in the same round whichever is named first. */
  lemma MeetingRoundSymmetric(n: nat, x: nat, y: nat)
    requires n >= 2 && n % 2 == 0 && x < n && y < n && x != y
    ensures MeetingRound(n, x, y) == MeetingRound(n, y, x)
  {
    var m := MeetingRound(n, y, x);
    FacingExactlyOnce(n, y, x, m);
    FacingExactlyOnce(n, x, y, m);
  }

  /** In the unsorted single round-robin, two different teams meet exactly once, one way round. */
  lemma FirstLegOnce(g: nat, teams: seq<Team>, x: nat, y: nat)
    requires Distinct(teams) && x < |teams| && y < |teams| && x != y
    ensures Played(GroupFixtures(g, teams, false), teams[x], teams[y])
      + Played(GroupFixtures(g, teams, false), teams[y], teams[x]) == 1
  {
    var n := |Pad(teams)|;
    var meet := MeetingRound(n, x, y);
    ScheduleHosts(teams, x, y, g);
    ScheduleHosts(teams, y, x, g);
    MeetingRoundSymmetric(n, x, y);
    FacingExactlyOnce(n, x, y, meet);
    FrontOfPair(n, Position(n, meet, x), Position(n, meet, y),
      Played(GroupFixtures(g, teams, false), teams[x], teams[y]),
      Played(GroupFixtures(g, teams, false), teams[y], teams[x]));
  }

  /** A fixture of the doubled list hosts `a` v `b` as often as the single list has `a` v `b` or `b` v `a`. */
  lemma {:induction false} WithMirrorsHosts(ms: seq<Match>, rounds: int, a: Team, b: Team)
    ensures Count(WithMirrors(ms, rounds), Hosts(a, b)) == Count(ms, Hosts(a, b)) + Count(ms, Hosts(b, a))
  {
    if |ms| > 0 {
      var w := WithMirrors(ms, rounds);
      WithMirrorsHosts(ms[1..], rounds, a, b);
      assert w[1..][1..] == WithMirrors(ms[1..], rounds);
    }
  }

  /** A team `t` of the group: its index in the team list. */
  lemma IndexOf(teams: seq<Team>, t: Team) returns (x: nat)
    requires t in teams
    ensures x < |teams| && teams[x] == t
  {
    x :| 0 <= x < |teams| && teams[x] == t;
  }

  /** Sorting does not change how often `a` hosts `b`. */
  lemma PlayedUnsorted(g: nat, teams: seq<Team>, doubleRound: bool, a: Team, b: Team)
    ensures Played(GenerateRoundRobin(g, teams, doubleRound), a, b) == Count(GroupFixtures(g, teams, doubleRound), Hosts(a, b))
  {
    CountPermutation(GenerateRoundRobin(g, teams, doubleRound), GroupFixtures(g, teams, doubleRound), Hosts(a, b));
  }

  /** In a double round-robin `a` hosts `b` as often as the two meet, either way round, in the first leg. */
  lemma DoubleHosts(g: nat, teams: seq<Team>, a: Team, b: Team)
    ensures Count(GroupFixtures(g, teams, true), Hosts(a, b)) ==
      Count(GroupFixtures(g, teams, false), Hosts(a, b)) + Count(GroupFixtures(g, teams, false), Hosts(b, a))
  {
    if |teams| >= 2 {
      FixturesDouble(g, teams);
      WithMirrorsHosts(GroupFixtures(g, teams, false), LegRounds(|teams|), a, b);
    }
  }

  /** A fixture never involves a team from outside the group, whether or not the group repeats a team. */
  lemma OutsiderNeverHosts(g: nat, teams: seq<Team>, doubleRound: bool, a: Team, b: Team)
    requires a !in teams || b !in teams
    ensures Count(GroupFixtures(g, teams, doubleRound), Hosts(a, b)) == 0
  {
    var ms := GroupFixtures(g, teams, doubleRound);
    forall i | 0 <= i < |ms|
      ensures !Hosts(a, b)(ms[i])
    {
      GroupFixturesShape(g, teams, doubleRound, ms[i]);
    }
    CountNone(ms, Hosts(a, b));
  }

  /**
    In a group without repeated teams only two different teams of the group
    ever meet: outsiders never do, and no team is paired with itself.
   */
  lemma OutsideNever(g: nat, teams: seq<Team>, doubleRound: bool, a: Team, b: Team)
    requires Distinct(teams) && !(a in teams && b in teams && a != b)
    ensures Count(GroupFixtures(g, teams, doubleRound), Hosts(a, b)) == 0
  {
    var ms := GroupFixtures(g, teams, doubleRound);
    forall i | 0 <= i < |ms|
      ensures !Hosts(a, b)(ms[i])
    {
      GroupFixturesShape(g, teams, doubleRound, ms[i]);
    }
    CountNone(ms, Hosts(a, b));
  }

  /**
    Pairwise completeness. In a group without repeated teams, `a` is at home
    to `b` in the single round-robin exactly once in one of the two orders
    when `a` and `b` are different teams of the group, and never otherwise. In
    a double round-robin `a` is at home to `b` exactly once, and `b` to `a`
    exactly once.
   */
  lemma PairwiseCompleteness(g: nat, teams: seq<Team>, a: Team, b: Team)
    requires Distinct(teams)
    ensures a in teams && b in teams && a != b ==>
      Played(GenerateRoundRobin(g, teams, false), a, b) + Played(GenerateRoundRobin(g, teams, false), b, a) == 1
    ensures a in teams && b in teams && a != b ==>
      Played(GenerateRoundRobin(g, teams, true), a, b) == 1
    ensures !(a in teams && b in teams && a != b) ==>
      Played(GenerateRoundRobin(g, teams, false), a, b) == 0 && Played(GenerateRoundRobin(g, teams, true), a, b) == 0
  {
    PlayedUnsorted(g, teams, false, a, b);
    PlayedUnsorted(g, teams, false, b, a);
    PlayedUnsorted(g, teams, true, a, b);
    if a in teams && b in teams && a != b {
      var x := IndexOf(teams, a);
      var y := IndexOf(teams, b);
      FirstLegOnce(g, teams, x, y);
      DoubleHosts(g, teams, a, b);
    } else {
      OutsideNever(g, teams, false, a, b);
      OutsideNever(g, teams, true, a, b);
    }
  }
}
