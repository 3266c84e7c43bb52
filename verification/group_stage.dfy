/**
  The whole group stage: `numTeams` generated teams are cut into groups of
  `groupSize`, each group gets its own round-robin with the group's index as
  its id, and the concatenated fixtures are sorted by `(group, round, home.id)`.
 */
module GroupStage {
  import opened Counting
  import opened Modular
  import opened Entities
  import opened FixtureOrder
  import opened TeamRegistry
  import opened GroupPartitioner
  import opened RoundRobin
  import opened RoundRobinFacts
  import opened Completeness
  import opened FixtureCounts

  /** The round-robin of every group, group `j` carrying id `j`. */
  function GroupSchedules(groups: seq<seq<Team>>, doubleRound: bool): (blocks: seq<seq<Match>>)
    ensures |blocks| == |groups|
  {
    seq(|groups|, j requires 0 <= j < |groups| => GenerateRoundRobin(j, groups[j], doubleRound))
  }

  /**
    Every fixture scheduled for group `j` carries id `j`, is between two teams
    of that group, has a round within the group's schedule, and, when the group
    repeats no team, is not a team against itself.
   */
  lemma GroupSchedulesShape(groups: seq<seq<Team>>, doubleRound: bool, j: nat, m: Match)
    requires j < |groups| && m in GroupSchedules(groups, doubleRound)[j]
    ensures m.group == j && m.home in groups[j] && m.away in groups[j]
    ensures 1 <= m.round <= (if doubleRound then 2 else 1) * LegRounds(|groups[j]|)
    ensures Distinct(groups[j]) ==> m.home != m.away
  {
    FixturesWellFormed(j, groups[j], doubleRound, m);
  }

  /** The tournament: a group size that is not positive is rejected, as the split rejects it. */
  function BuildGroupStage(numTeams: int, groupSize: int, doubleRound: bool := true): (r: Result<seq<Match>>)
    ensures r.Failure? <==> groupSize <= 0
    ensures r.Failure? ==> r.error == InvalidGroupSize
    ensures r.Success? ==> Sorted(r.value)
    ensures r.Success? ==>
      multiset(r.value) == multiset(Flatten(GroupSchedules(Groups(numTeams, groupSize), doubleRound)))
  {
    match SplitIntoGroups(CreateTeams(numTeams), groupSize)
    case Failure(e) => Failure(e)
    case Success(groups) => Success(SortFixtures(Flatten(GroupSchedules(groups, doubleRound))))
  }

  /** The groups the tournament is drawn into. */
  function Groups(numTeams: int, groupSize: int): seq<seq<Team>>
    requires groupSize > 0
  {
    SplitIntoGroups(CreateTeams(numTeams), groupSize).value
  }

  /** The group that holds team `t`: `(t.id - 1) / groupSize`, or `-1` for a team that was never created. */
  function HomeGroup(numTeams: int, groupSize: int, t: Team): int
    requires groupSize > 0
  {
    if t in CreateTeams(numTeams) then (t.id - 1) / groupSize else -1
  }

  /** Fixtures of a `k`-team group: `k (k - 1) / 2` in a single round-robin, twice that in a double one. */
  function FixturesOf(k: nat, doubleRound: bool): int
  {
    if doubleRound then k * (k - 1) else k * (k - 1) / 2
  }

  /** Fixtures over all groups. */
  function TotalFixtures(groups: seq<seq<Team>>, doubleRound: bool): int
  {
    if |groups| == 0 then 0 else FixturesOf(|groups[0]|, doubleRound) + TotalFixtures(groups[1..], doubleRound)
  }

  /** Only created teams are drawn into groups. */
  lemma GroupsHoldCreated(numTeams: int, groupSize: int, t: Team, j: nat)
    requires groupSize > 0 && j < |Groups(numTeams, groupSize)|
    requires t in Groups(numTeams, groupSize)[j]
    ensures t in CreateTeams(numTeams)
  {
    var teams := CreateTeams(numTeams);
    var i := ChunkMember(teams, groupSize, j, t);
    assert teams[i] in teams;
  }

  /** A created team sits at index `t.id - 1` of the created list. */
  lemma CreatedAt(numTeams: int, t: Team)
    requires t in CreateTeams(numTeams)
    ensures 0 <= t.id - 1 < |CreateTeams(numTeams)| && CreateTeams(numTeams)[t.id - 1] == t
  {
    CreateTeamsUnique(numTeams);
  }

  /** A created team is in group `(t.id - 1) / groupSize`. */
  lemma CreatedInHome(numTeams: int, groupSize: int, t: Team)
    requires groupSize > 0 && t in CreateTeams(numTeams)
    ensures 0 <= HomeGroup(numTeams, groupSize, t) < |Groups(numTeams, groupSize)|
    ensures t in Groups(numTeams, groupSize)[HomeGroup(numTeams, groupSize, t)]
  {
    var teams := CreateTeams(numTeams);
    CreatedAt(numTeams, t);
    var i: nat := t.id - 1;
    var h := i / groupSize;
    GroupOfIndex(teams, groupSize, i);
    assert Groups(numTeams, groupSize) == SplitIntoGroups(teams, groupSize).value;
    assert |Groups(numTeams, groupSize)| == GroupCount(|teams|, groupSize);
    assert HomeGroup(numTeams, groupSize, t) == h;
  }

  /** A created team is in no group but its own. */
  lemma CreatedNowhereElse(numTeams: int, groupSize: int, t: Team, j: nat)
    requires groupSize > 0 && t in CreateTeams(numTeams)
    requires j < |Groups(numTeams, groupSize)| && j != HomeGroup(numTeams, groupSize, t)
    ensures t !in Groups(numTeams, groupSize)[j]
  {
    var teams := CreateTeams(numTeams);
    CreateTeamsUnique(numTeams);
    CreatedInHome(numTeams, groupSize, t);
    var h: nat := HomeGroup(numTeams, groupSize, t);
    if j < h {
      if t in Groups(numTeams, groupSize)[j] {
        SplitGroupsDisjoint(teams, groupSize, j, h, t);
      }
    } else {
      SplitGroupsDisjoint(teams, groupSize, h, j, t);
    }
  }

  /** A created team sits in exactly one group, the one `HomeGroup` names; any other team is in none. */
  lemma HomeGroupIff(numTeams: int, groupSize: int, t: Team, j: nat)
    requires groupSize > 0 && j < |Groups(numTeams, groupSize)|
    ensures HomeGroup(numTeams, groupSize, t) < |Groups(numTeams, groupSize)|
    ensures t in Groups(numTeams, groupSize)[j] <==> HomeGroup(numTeams, groupSize, t) == j
  {
    if t in CreateTeams(numTeams) {
      CreatedInHome(numTeams, groupSize, t);
      if j != HomeGroup(numTeams, groupSize, t) {
        CreatedNowhereElse(numTeams, groupSize, t, j);
      }
    } else if t in Groups(numTeams, groupSize)[j] {
      GroupsHoldCreated(numTeams, groupSize, t, j);
    }
  }

  /**
    Every fixture of the stage belongs to one group: its group id indexes a
    group that holds both teams, the two teams differ, and its round lies
    within that group's schedule.
   */
  lemma StageFixtureShape(numTeams: int, groupSize: int, doubleRound: bool, m: Match)
    requires groupSize > 0
    requires m in BuildGroupStage(numTeams, groupSize, doubleRound).value
    ensures m.group < |Groups(numTeams, groupSize)|
    ensures m.home in Groups(numTeams, groupSize)[m.group] && m.away in Groups(numTeams, groupSize)[m.group]
    ensures m.home != m.away
    ensures 1 <= m.round <= (if doubleRound then 2 else 1) * LegRounds(|Groups(numTeams, groupSize)[m.group]|)
  {
    var groups := Groups(numTeams, groupSize);
    var blocks := GroupSchedules(groups, doubleRound);
    assert m in multiset(BuildGroupStage(numTeams, groupSize, doubleRound).value);
    assert m in multiset(Flatten(blocks));
    var j := FlattenMember(blocks, m);
    CreateTeamsUnique(numTeams);
    SplitGroupsDistinct(CreateTeams(numTeams), groupSize);
    FixturesWellFormed(j, groups[j], doubleRound, m);
  }

  /**
    Across the whole stage `a` hosts `b` in `Played(.., a, b)` fixtures, which
    is the count in the round-robin of their common group, and none when they
    are not in one group.
   */
  lemma StageHosts(numTeams: int, groupSize: int, doubleRound: bool, a: Team, b: Team)
    requires groupSize > 0
    ensures var h := HomeGroup(numTeams, groupSize, a);
      && h < |Groups(numTeams, groupSize)|
      && Played(BuildGroupStage(numTeams, groupSize, doubleRound).value, a, b) ==
         if a != b && 0 <= h && h == HomeGroup(numTeams, groupSize, b)
         then Played(GenerateRoundRobin(h, Groups(numTeams, groupSize)[h], doubleRound), a, b)
         else 0
  {
    var teams := CreateTeams(numTeams);
    var groups := Groups(numTeams, groupSize);
    var blocks := GroupSchedules(groups, doubleRound);
    var h := HomeGroup(numTeams, groupSize, a);
    var together := a != b && 0 <= h && h == HomeGroup(numTeams, groupSize, b);
    CreateTeamsUnique(numTeams);
    SplitGroupsDistinct(teams, groupSize);
    if |groups| > 0 {
      HomeGroupIff(numTeams, groupSize, a, 0);
    } else if 0 <= h {
      GroupOfIndex(teams, groupSize, a.id - 1);
    }
    var hit := if together then h else -1;
    var v := if together then Played(blocks[h], a, b) else 0;
    forall i | 0 <= i < |blocks|
      ensures Count(blocks[i], Hosts(a, b)) == if i == hit then v else 0
    {
      HomeGroupIff(numTeams, groupSize, a, i);
      HomeGroupIff(numTeams, groupSize, b, i);
      PairwiseCompleteness(i, groups[i], a, b);
    }
    FlattenCountOne(blocks, Hosts(a, b), hit, v);
    CountPermutation(BuildGroupStage(numTeams, groupSize, doubleRound).value, Flatten(blocks), Hosts(a, b));
  }

  /**
    Pairwise completeness over the stage: two different teams of one group
    meet exactly once in a single round-robin and `a` hosts `b` exactly once
    in a double one; teams of different groups, and a team with itself, never meet.
   */
  lemma StagePairwise(numTeams: int, groupSize: int, a: Team, b: Team)
    requires groupSize > 0
    ensures var together := a != b && 0 <= HomeGroup(numTeams, groupSize, a) == HomeGroup(numTeams, groupSize, b);
      && Played(BuildGroupStage(numTeams, groupSize, false).value, a, b)
         + Played(BuildGroupStage(numTeams, groupSize, false).value, b, a) == (if together then 1 else 0)
      && Played(BuildGroupStage(numTeams, groupSize, true).value, a, b) == (if together then 1 else 0)
  {
    StageHosts(numTeams, groupSize, false, a, b);
    StageHosts(numTeams, groupSize, false, b, a);
    StageHosts(numTeams, groupSize, true, a, b);
    var h := HomeGroup(numTeams, groupSize, a);
    if a != b && 0 <= h == HomeGroup(numTeams, groupSize, b) {
      var groups := Groups(numTeams, groupSize);
      HomeGroupIff(numTeams, groupSize, a, h);
      HomeGroupIff(numTeams, groupSize, b, h);
      CreateTeamsUnique(numTeams);
      SplitGroupsDistinct(CreateTeams(numTeams), groupSize);
      PairwiseCompleteness(h, groups[h], a, b);
    }
  }

  /** No team plays twice in one round anywhere in the stage. */
  lemma StageOneMatchPerRound(numTeams: int, groupSize: int, doubleRound: bool, t: Team, q: int)
    requires groupSize > 0
    ensures Count(BuildGroupStage(numTeams, groupSize, doubleRound).value, PlaysInRound(t, q)) <= 1
  {
    var teams := CreateTeams(numTeams);
    var groups := Groups(numTeams, groupSize);
    var blocks := GroupSchedules(groups, doubleRound);
    var h := HomeGroup(numTeams, groupSize, t);
    CreateTeamsUnique(numTeams);
    SplitGroupsDistinct(teams, groupSize);
    if |groups| > 0 {
      HomeGroupIff(numTeams, groupSize, t, 0);
    } else if 0 <= h {
      GroupOfIndex(teams, groupSize, t.id - 1);
    }
    var v := if 0 <= h then Count(blocks[h], PlaysInRound(t, q)) else 0;
    forall i | 0 <= i < |blocks|
      ensures Count(blocks[i], PlaysInRound(t, q)) == if i == h then v else 0
    {
      HomeGroupIff(numTeams, groupSize, t, i);
      if i != h {
        OutsiderIdle(i, groups[i], doubleRound, t, q);
        CountPermutation(blocks[i], GroupFixtures(i, groups[i], doubleRound), PlaysInRound(t, q));
      }
    }
    if 0 <= h {
      OneMatchPerRound(h, groups[h], doubleRound, t, q);
    }
    FlattenCountOne(blocks, PlaysInRound(t, q), h, v);
    CountPermutation(BuildGroupStage(numTeams, groupSize, doubleRound).value, Flatten(blocks), PlaysInRound(t, q));
  }

  lemma {:induction false} StageLengthFrom(groups: seq<seq<Team>>, doubleRound: bool, j: nat)
    requires j <= |groups|
    ensures |Flatten(GroupSchedules(groups, doubleRound)[j..])| == TotalFixtures(groups[j..], doubleRound)
    decreases |groups| - j
  {
    var blocks := GroupSchedules(groups, doubleRound);
    var tail := blocks[j..];
    if j < |groups| {
      assert tail[0] == GenerateRoundRobin(j, groups[j], doubleRound);
      assert tail[1..] == blocks[j + 1..];
      assert Flatten(tail) == tail[0] + Flatten(tail[1..]);
      assert groups[j..][0] == groups[j] && groups[j..][1..] == groups[j + 1..];
      FixtureCount(j, groups[j]);
      StageLengthFrom(groups, doubleRound, j + 1);
    } else {
      assert tail == [] && groups[j..] == [];
    }
  }

  /** The stage holds, over all groups, `k (k - 1) / 2` fixtures per `k`-team group, or twice that for a double round-robin. */
  lemma StageLength(numTeams: int, groupSize: int, doubleRound: bool)
    requires groupSize > 0
    ensures |BuildGroupStage(numTeams, groupSize, doubleRound).value| == TotalFixtures(Groups(numTeams, groupSize), doubleRound)
  {
    var groups := Groups(numTeams, groupSize);
    StageLengthFrom(groups, doubleRound, 0);
    assert GroupSchedules(groups, doubleRound)[0..] == GroupSchedules(groups, doubleRound);
    assert groups[0..] == groups;
    assert |BuildGroupStage(numTeams, groupSize, doubleRound).value|
      == |multiset(BuildGroupStage(numTeams, groupSize, doubleRound).value)|
      == |multiset(Flatten(GroupSchedules(groups, doubleRound)))|;
  }

  lemma {:induction false} TotalUniform(groups: seq<seq<Team>>, k: nat, doubleRound: bool)
    requires forall j :: 0 <= j < |groups| ==> |groups[j]| == k
    ensures TotalFixtures(groups, doubleRound) == |groups| * FixturesOf(k, doubleRound)
  {
    if |groups| > 0 {
      TotalUniform(groups[1..], k, doubleRound);
      MulSucc(|groups|, |groups| - 1, FixturesOf(k, doubleRound));
    }
  }

  /** `c` full groups of `groupSize` teams each give `c` times the fixtures of one group. */
  lemma UniformStage(c: nat, groupSize: int, doubleRound: bool)
    requires groupSize > 0
    ensures |Groups(c * groupSize, groupSize)| == c
    ensures |BuildGroupStage(c * groupSize, groupSize, doubleRound).value| == c * FixturesOf(groupSize, doubleRound)
  {
    var n := c * groupSize;
    var teams := CreateTeams(n);
    var groups := Groups(n, groupSize);
    DivUnique(n + groupSize - 1, c, groupSize - 1, groupSize);
    assert |teams| == n;
    assert |groups| == GroupCount(n, groupSize) == c;
    forall j | 0 <= j < |groups|
      ensures |groups[j]| == groupSize
    {
      MulSucc(j + 1, j, groupSize);
      MulMonotone(j + 1, c, groupSize);
      assert groups[j] == teams[j * groupSize .. Min(j * groupSize + groupSize, n)];
    }
    TotalUniform(groups, groupSize, doubleRound);
    StageLength(n, groupSize, doubleRound);
  }

  /**
    `UniformStage` for a team count and a fixture count given by value. The
    counts are passed in, fixed by the requires, so that the solver checks the
    products once rather than unfolding the stage on literal arguments.
   */
  lemma UniformStageOf(c: nat, groupSize: int, doubleRound: bool, numTeams: int, fixtures: int)
    requires groupSize > 0 && numTeams == c * groupSize && fixtures == c * FixturesOf(groupSize, doubleRound)
    ensures |Groups(numTeams, groupSize)| == c
    ensures |BuildGroupStage(numTeams, groupSize, doubleRound).value| == fixtures
  {
    UniformStage(c, groupSize, doubleRound);
  }

  /** Fifty-five teams in groups of five: eleven groups, 110 fixtures single and 220 double. */
  lemma FiftyFiveInFives()
    ensures |Groups(55, 5)| == 11
    ensures |BuildGroupStage(55, 5, false).value| == 110
    ensures |BuildGroupStage(55, 5, true).value| == 220
  {
    FiftyFiveInFivesOf(55, 5);
  }

  /**
    `FiftyFiveInFives` with the two counts passed in: on literal arguments the
    solver would unfold the whole stage, so the proof works on parameters.
   */
  lemma FiftyFiveInFivesOf(numTeams: int, groupSize: int)
    requires numTeams == 55 && groupSize == 5
    ensures |Groups(numTeams, groupSize)| == 11
    ensures |BuildGroupStage(numTeams, groupSize, false).value| == 110
    ensures |BuildGroupStage(numTeams, groupSize, true).value| == 220
  {
    assert 11 * groupSize == numTeams;
    assert FixturesOf(groupSize, false) == 10 && FixturesOf(groupSize, true) == 20;
    UniformStageOf(11, groupSize, false, numTeams, 110);
    UniformStageOf(11, groupSize, true, numTeams, 220);
  }
}
