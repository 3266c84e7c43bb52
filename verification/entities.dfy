/**
  The value types of the fixture engine: teams, matches, the one error the
  engine reports, and the counting queries that the scheduling properties are
  stated with.
 */
module Entities {
  import opened Counting

  /** A competing team. Ids are assigned from 1 in creation order. */
  datatype Team = Team(id: int, name: string)

  /**
    One fixture. `group` is the index of the group the fixture belongs to; the
    display label of group `j` is `GroupPartitioner.GroupLabel(j)`, and
    comparing labels orders groups the same way as comparing indices.
   */
  datatype Match = Match(home: Team, away: Team, round: int, group: nat)

  /** The only failure of the engine: a group size that is not positive. */
  datatype Error = InvalidGroupSize

  datatype Result<T> = Success(value: T) | Failure(error: Error)

  /** No value occurs twice. */
  predicate Distinct<T(==)>(s: seq<T>)
  {
    forall i, j :: 0 <= i < j < |s| ==> s[i] != s[j]
  }

  /** The query "`a` hosts `b`". */
  function Hosts(a: Team, b: Team): Match -> bool
  {
    (m: Match) => m.home == a && m.away == b
  }

  /** Number of fixtures in which `a` is at home to `b`. */
  function Played(ms: seq<Match>, a: Team, b: Team): nat
  {
    Count(ms, Hosts(a, b))
  }

  /** The query "`t` takes part, home or away, in round `q`". */
  function PlaysInRound(t: Team, q: int): Match -> bool
  {
    (m: Match) => m.round == q && (m.home == t || m.away == t)
  }

  /** The query "the fixture is played in round `q`". */
  function InRound(q: int): Match -> bool
  {
    (m: Match) => m.round == q
  }
}
