/**
  Round-robin fixtures for one group by the circle method.

  The group's teams, padded with a BYE placeholder when their number is odd,
  form a working list of even length `n`. There are `n - 1` rounds. In each
  round position `i` is paired with position `n - 1 - i` for `i < n / 2`; a
  pairing with the BYE is skipped, every other pairing yields a first-leg
  fixture and, for a double round-robin, its home/away mirror `n - 1` rounds
  later. After each round the working list is rotated (`Circle.Rotate`). The
  fixtures are finally sorted by `(group, round, home.id)`.
 */
module RoundRobin {
  import opened Counting
  import opened Entities
  import opened Circle
  import opened FixtureOrder

  /** A place in the working list: a real team or the BYE placeholder. */
  datatype Slot = Real(team: Team) | Bye

  /** The working list: the teams in order, followed by the BYE when their number is odd. */
  function Pad(teams: seq<Team>): (l: seq<Slot>)
    ensures |l| == if |teams| % 2 == 1 then |teams| + 1 else |teams|
    ensures |l| % 2 == 0
    ensures forall i :: 0 <= i < |teams| ==> l[i] == Real(teams[i])
    ensures |teams| % 2 == 1 ==> l[|teams|] == Bye
  {
    seq(|teams|, i requires 0 <= i < |teams| => Real(teams[i]))
    + (if |teams| % 2 == 1 then [Bye] else [])
  }

  /** Number of first-leg rounds for a group of `k` teams: the padded size minus one. */
  function LegRounds(k: nat): nat
  {
    if k < 2 then 0 else if k % 2 == 1 then k else k - 1
  }

  /**
    The fixtures of pairing `i` in a round: `l[i]` at home to `l[n - 1 - i]`
    unless either is the BYE, plus the mirrored second leg `rounds` rounds
    later for a double round-robin.
   */
  function PairMatches(l: seq<Slot>, i: nat, roundNo: int, rounds: int, g: nat, doubleRound: bool): seq<Match>
    requires i < |l|
  {
    var home := l[i];
    var away := l[|l| - 1 - i];
    if home.Bye? || away.Bye? then []
    else
      [Match(home.team, away.team, roundNo, g)]
      + (if doubleRound then [Match(away.team, home.team, roundNo + rounds, g)] else [])
  }

  /** The fixtures of the first `j` pairings of a round, in emission order. */
  function RoundPairings(l: seq<Slot>, j: nat, roundNo: int, rounds: int, g: nat, doubleRound: bool): seq<Match>
    requires j <= |l|
  {
    if j == 0 then []
    else RoundPairings(l, j - 1, roundNo, rounds, g, doubleRound) + PairMatches(l, j - 1, roundNo, rounds, g, doubleRound)
  }

  /** The fixtures of rounds `r + 1 .. rounds`, where `l` is the working list of round `r + 1`. */
  function Schedule(l: seq<Slot>, r: nat, rounds: nat, g: nat, doubleRound: bool): seq<Match>
    requires |l| >= 2
    decreases rounds - r
  {
    if r >= rounds then []
    else
      RoundPairings(l, |l| / 2, r + 1, rounds, g, doubleRound)
      + Schedule(Rotate(l), r + 1, rounds, g, doubleRound)
  }

  /** The fixtures of group `g` in the order they are generated, before sorting. */
  function GroupFixtures(g: nat, teams: seq<Team>, doubleRound: bool): seq<Match>
  {
    if |teams| < 2 then []
    else
      var l := Pad(teams);
      Schedule(l, 0, |l| - 1, g, doubleRound)
  }

  /** The sorted round-robin fixture list of group `g`. */
  function GenerateRoundRobin(g: nat, teams: seq<Team>, doubleRound: bool := true): (ms: seq<Match>)
    ensures |teams| < 2 ==> ms == []
    ensures Sorted(ms)
    ensures multiset(ms) == multiset(GroupFixtures(g, teams, doubleRound))
  {
    if |teams| < 2 then [] else SortFixtures(GroupFixtures(g, teams, doubleRound))
  }
}
