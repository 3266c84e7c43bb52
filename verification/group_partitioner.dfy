/**
  Partitioning an ordered team list into labelled groups: consecutive chunks of
  `groupSize` teams, the last one possibly shorter, labelled `Group A`,
  `Group B`, ... in chunk order. The ordered mapping from label to chunk is
  represented by the sequence of chunks: the chunk at index `j` is the one
  labelled `GroupLabel(j)`.
 */
module GroupPartitioner {
  import opened Counting
  import opened Entities
  import opened Modular

  function Min(a: int, b: int): int
  {
    if a <= b then a else b
  }

  /** Number of chunks of `groupSize` needed for `numTeams` teams. */
  function GroupCount(numTeams: nat, groupSize: nat): nat
    requires groupSize > 0
  {
    (numTeams + groupSize - 1) / groupSize
  }

  /** `GroupCount` is the ceiling of `numTeams / groupSize`. */
  lemma GroupCountIsCeiling(numTeams: nat, groupSize: nat)
    requires groupSize > 0
    ensures GroupCount(numTeams, groupSize) * groupSize >= numTeams
    ensures numTeams > 0 ==> (GroupCount(numTeams, groupSize) - 1) * groupSize < numTeams
    ensures GroupCount(numTeams, groupSize) == 0 <==> numTeams == 0
  {
    var q := GroupCount(numTeams, groupSize);
    var a := numTeams + groupSize - 1;
    assert a == q * groupSize + a % groupSize;
    assert (q - 1) * groupSize == q * groupSize - groupSize;
    if q >= 1 {
      MulAtLeast(q, groupSize);
    }
  }

  lemma ChunkStartInRange(numTeams: nat, groupSize: nat, j: nat)
    requires groupSize > 0 && j < GroupCount(numTeams, groupSize)
    ensures j * groupSize < numTeams
  {
    GroupCountIsCeiling(numTeams, groupSize);
    MulMonotone(j, GroupCount(numTeams, groupSize) - 1, groupSize);
  }

  /** The `j`-th chunk: `teams[j*groupSize : j*groupSize + groupSize]` with the end clipped. */
  function Chunk(teams: seq<Team>, groupSize: nat, j: nat): seq<Team>
    requires groupSize > 0 && j < GroupCount(|teams|, groupSize)
  {
    ChunkStartInRange(|teams|, groupSize, j);
    teams[j * groupSize .. Min(j * groupSize + groupSize, |teams|)]
  }

  /** Splits `teams` into groups of `groupSize`; a size that is not positive is an error. */
  function SplitIntoGroups(teams: seq<Team>, groupSize: int): (r: Result<seq<seq<Team>>>)
    ensures r.Failure? <==> groupSize <= 0
    ensures r.Success? ==> |r.value| == GroupCount(|teams|, groupSize)
  {
    if groupSize <= 0 then Failure(InvalidGroupSize)
    else
      var count := GroupCount(|teams|, groupSize);
      Success(seq(count, j requires 0 <= j < count => Chunk(teams, groupSize, j)))
  }

  /** The display label of group `j`: `"Group "` followed by the character with code `65 + j`. */
  function GroupLabel(j: nat): (text: string)
    requires j < 0xD800 - 65
    ensures |text| == 7 && text[..6] == "Group "
  {
    "Group " + [(65 + j) as char]
  }

  /** Strict lexicographic order on strings, by code point, as Python compares `str`. */
  predicate LexLess(a: string, b: string)
  {
    if |a| == 0 then |b| > 0
    else if |b| == 0 then false
    else a[0] < b[0] || (a[0] == b[0] && LexLess(a[1..], b[1..]))
  }

  lemma {:induction false} LexLessCommonPrefix(p: string, a: string, b: string)
    ensures LexLess(p + a, p + b) <==> LexLess(a, b)
  {
    if |p| > 0 {
      assert (p + a)[1..] == p[1..] + a;
      assert (p + b)[1..] == p[1..] + b;
      LexLessCommonPrefix(p[1..], a, b);
    } else {
      assert p + a == a && p + b == b;
    }
  }

  /**
    Group labels are ordered as their indices are, and `"Group A"` to
    `"Group Z"` are the first 26 labels. Sorting fixtures by label is
    therefore sorting them by group index.
   */
  lemma GroupLabelOrder(i: nat, j: nat)
    requires i < 0xD800 - 65 && j < 0xD800 - 65
    ensures LexLess(GroupLabel(i), GroupLabel(j)) <==> i < j
    ensures GroupLabel(i) == GroupLabel(j) <==> i == j
    ensures GroupLabel(0) == "Group A" && GroupLabel(25) == "Group Z"
  {
    LexLessCommonPrefix("Group ", [(65 + i) as char], [(65 + j) as char]);
    assert [(65 + i) as char][1..] == [] && [(65 + j) as char][1..] == [];
    if GroupLabel(i) == GroupLabel(j) {
      assert GroupLabel(i)[6] == GroupLabel(j)[6];
    }
  }

  lemma {:induction false} FlattenPrefix(teams: seq<Team>, groupSize: nat, c: nat)
    requires groupSize > 0 && c <= GroupCount(|teams|, groupSize)
    ensures Flatten(SplitIntoGroups(teams, groupSize).value[..c]) ==
      teams[..Min(c * groupSize, |teams|)]
  {
    var groups := SplitIntoGroups(teams, groupSize).value;
    if c > 0 {
      FlattenPrefix(teams, groupSize, c - 1);
      ChunkStartInRange(|teams|, groupSize, c - 1);
      var lo := (c - 1) * groupSize;
      var hi := Min(lo + groupSize, |teams|);
      assert lo + groupSize == c * groupSize;
      assert groups[c - 1] == teams[lo..hi];
      assert groups[..c] == groups[..c - 1] + [groups[c - 1]];
      FlattenSnoc(groups[..c - 1], groups[c - 1]);
      assert Flatten(groups[..c - 1]) == teams[..lo];
      assert teams[..lo] + teams[lo..hi] == teams[..hi];
    } else {
      assert groups[..0] == [];
    }
  }

  /** Concatenating the groups in label order gives back the team list. */
  lemma SplitRoundTrip(teams: seq<Team>, groupSize: int)
    requires groupSize > 0
    ensures Flatten(SplitIntoGroups(teams, groupSize).value) == teams
  {
    var groups := SplitIntoGroups(teams, groupSize).value;
    FlattenPrefix(teams, groupSize, |groups|);
    GroupCountIsCeiling(|teams|, groupSize);
    assert groups[..|groups|] == groups;
  }

  /**
    Every group is non-empty and holds at most `groupSize` teams, and only the
    last group may hold fewer; there is one group per started chunk.
   */
  lemma SplitSizes(teams: seq<Team>, groupSize: int)
    requires groupSize > 0
    ensures var groups := SplitIntoGroups(teams, groupSize).value;
      && (|teams| == 0 <==> |groups| == 0)
      && (|groups| - 1) * groupSize < |teams| <= |groups| * groupSize
      && forall j :: 0 <= j < |groups| ==>
           && 1 <= |groups[j]| <= groupSize
           && (j < |groups| - 1 ==> |groups[j]| == groupSize)
  {
    var groups := SplitIntoGroups(teams, groupSize).value;
    GroupCountIsCeiling(|teams|, groupSize);
    forall j | 0 <= j < |groups|
      ensures 1 <= |groups[j]| <= groupSize
      ensures j < |groups| - 1 ==> |groups[j]| == groupSize
    {
      ChunkStartInRange(|teams|, groupSize, j);
      if j < |groups| - 1 {
        ChunkStartInRange(|teams|, groupSize, j + 1);
        assert (j + 1) * groupSize == j * groupSize + groupSize;
      }
    }
  }

  /** A team of group `j` is one of the input teams at an index of the `j`-th chunk. */
  lemma ChunkMember(teams: seq<Team>, groupSize: int, j: nat, t: Team) returns (i: nat)
    requires groupSize > 0 && j < GroupCount(|teams|, groupSize)
    requires t in SplitIntoGroups(teams, groupSize).value[j]
    ensures j * groupSize <= i < j * groupSize + groupSize && i < |teams| && teams[i] == t
  {
    var lo := j * groupSize;
    var chunk := SplitIntoGroups(teams, groupSize).value[j];
    var k :| 0 <= k < |chunk| && chunk[k] == t;
    ChunkStartInRange(|teams|, groupSize, j);
    i := lo + k;
  }

  /** The team at index `i` is in group `i / groupSize`. */
  lemma GroupOfIndex(teams: seq<Team>, groupSize: int, i: nat)
    requires groupSize > 0 && i < |teams|
    ensures i / groupSize < GroupCount(|teams|, groupSize)
    ensures teams[i] in SplitIntoGroups(teams, groupSize).value[i / groupSize]
  {
    var j := i / groupSize;
    var k := i % groupSize;
    assert i == j * groupSize + k;
    GroupCountIsCeiling(|teams|, groupSize);
    if j >= GroupCount(|teams|, groupSize) {
      MulMonotone(GroupCount(|teams|, groupSize), j, groupSize);
    }
    var chunk := SplitIntoGroups(teams, groupSize).value[j];
    assert chunk == teams[j * groupSize .. Min(j * groupSize + groupSize, |teams|)];
    assert chunk[k] == teams[i];
  }

  /** With no repeated team, no group repeats a team. */
  lemma SplitGroupsDistinct(teams: seq<Team>, groupSize: int)
    requires groupSize > 0 && Distinct(teams)
    ensures var groups := SplitIntoGroups(teams, groupSize).value;
      forall j :: 0 <= j < |groups| ==> Distinct(groups[j])
  {
    var groups := SplitIntoGroups(teams, groupSize).value;
    forall j | 0 <= j < |groups|
      ensures Distinct(groups[j])
    {
      ChunkStartInRange(|teams|, groupSize, j);
      var lo := j * groupSize;
      assert groups[j] == teams[lo..Min(lo + groupSize, |teams|)];
    }
  }

  /** With no repeated team, two different groups share no team. */
  lemma SplitGroupsDisjoint(teams: seq<Team>, groupSize: int, j: nat, j': nat, t: Team)
    requires groupSize > 0 && Distinct(teams)
    requires j < j' < GroupCount(|teams|, groupSize)
    requires t in SplitIntoGroups(teams, groupSize).value[j]
    ensures t !in SplitIntoGroups(teams, groupSize).value[j']
  {
    var groups := SplitIntoGroups(teams, groupSize).value;
    if t in groups[j'] {
      var i := ChunkMember(teams, groupSize, j, t);
      var i' := ChunkMember(teams, groupSize, j', t);
      var lo' := j' * groupSize;
      var hi := j * groupSize + groupSize;
      assert (j + 1) * groupSize == hi;
      MulMonotone(j + 1, j', groupSize);
    }
  }

  /** Every team belongs to some group, and every group member is one of the teams. */
  lemma SplitCovers(teams: seq<Team>, groupSize: int, t: Team)
    requires groupSize > 0
    ensures var groups := SplitIntoGroups(teams, groupSize).value;
      t in teams <==> exists j :: 0 <= j < |groups| && t in groups[j]
  {
    SplitRoundTrip(teams, groupSize);
    FlattenMemberIff(SplitIntoGroups(teams, groupSize).value, t);
  }
}
