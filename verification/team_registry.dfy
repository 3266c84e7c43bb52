/**
  Team creation: `count` teams with ids `1..count` and display names
  `"Team <id>"`.
 */
module TeamRegistry {
  import opened Entities
  import opened Decimal

  function TeamName(id: nat): string
  {
    "Team " + NatToString(id)
  }

  /**
    The teams of a tournament with `numTeams` entrants. A negative count is
    not rejected: it yields no teams, as an empty `range` does.
   */
  function CreateTeams(numTeams: int): (teams: seq<Team>)
    ensures |teams| == if numTeams < 0 then 0 else numTeams
    ensures forall i :: 0 <= i < |teams| ==> teams[i].id == i + 1
  {
    var count := if numTeams < 0 then 0 else numTeams;
    seq(count, i requires 0 <= i < count => Team(i + 1, TeamName(i + 1)))
  }

  /** A team's id can be read back from its display name. */
  lemma TeamNameRoundTrip(id: nat)
    ensures |TeamName(id)| > 5
    ensures ParseNat(TeamName(id)[5..]) == id
  {
    assert TeamName(id)[5..] == NatToString(id);
    ParseNatToString(id);
  }

  /**
    The created teams are pairwise different in id and in name, and their ids
    are exactly `1..count`.
   */
  lemma CreateTeamsUnique(numTeams: int)
    ensures Distinct(CreateTeams(numTeams))
    ensures forall i, j :: 0 <= i < j < |CreateTeams(numTeams)| ==>
      CreateTeams(numTeams)[i].name != CreateTeams(numTeams)[j].name
    ensures forall t :: t in CreateTeams(numTeams) <==>
      1 <= t.id <= numTeams && t.name == TeamName(t.id)
  {
    var teams := CreateTeams(numTeams);
    forall i, j | 0 <= i < j < |teams|
      ensures teams[i].name != teams[j].name
    {
      TeamNameRoundTrip(i + 1);
      TeamNameRoundTrip(j + 1);
    }
    forall t: Team | 1 <= t.id <= numTeams && t.name == TeamName(t.id)
      ensures t in teams
    {
      assert teams[t.id - 1] == t;
    }
  }
}
