# Competition format lab: fixture engine, metrics and commercial value

This project is a Dafny model of the core of a tournament-format tool. It
covers these parts:

- **Team creation.** `num_teams` teams get ids `1..num_teams` and names `"Team <id>"`.
- **Group partitioning.** The team list is cut into consecutive chunks of `group_size`. The chunks are labelled `Group A`, `Group B`, … in order. A size that is not positive is the one error.
- **Round-robin scheduling.** Each group is scheduled by the circle method:
  - an odd group is padded with a BYE;
  - position `i` meets position `n-1-i` in every round;
  - pairings with the BYE are skipped;
  - in a double round-robin, each fixture is mirrored `n-1` rounds later;
  - after every round, every element except the first rotates right by one;
  - the result is sorted by `(group, round, home id)`.
- **Group-stage assembly.** Teams are created, split, each group is scheduled, and everything is sorted globally.
- **Metrics.** Fixtures are counted per team name, in first-seen order, and per round, in ascending round order.
- **Commercial value.** Each fixture scores 1.0, 1.5 or 2.0, depending on how many of its teams have ids among the tier-1 ids `1..8`. A format's value is the sum of its fixtures' scores.

Modules, one concept each:

| file | module | what |
|---|---|---|
| counting.dfy | `Counting` | `Count(s, p)`, the number of elements matching a query; `Flatten` |
| modular.dfy | `Modular` | small facts about `/` and `%` |
| decimal.dfy | `Decimal` | decimal rendering of a `nat`, with its inverse parser |
| entities.dfy | `Entities` | `Team`, `Match`, `Error`, `Result`, and the match queries (`Hosts`, `PlaysInRound`, …) |
| team_registry.dfy | `TeamRegistry` | `create_teams` |
| group_partitioner.dfy | `GroupPartitioner` | `split_into_groups` and the group labels |
| circle.dfy | `Circle` | the rotation step, its closed form, and the meeting round of two teams |
| fixture_order.dfy | `FixtureOrder` | the `(group, round, home id)` order and a stable insertion sort |
| round_robin.dfy | `RoundRobin` | `generate_round_robin_matches` |
| round_robin_facts.dfy | `RoundRobinFacts` | the shape of every fixture, and the second leg as the mirror of the first |
| completeness.dfy | `Completeness` | every pair meets exactly once per leg |
| fixture_counts.dfy | `FixtureCounts` | fixture counts, and at most one fixture per team per round |
| group_stage.dfy | `GroupStage` | `build_group_stage` and its properties |
| metrics.dfy | `Metrics` | `matches_per_team`, `matches_per_round` |
| commercial.dfy | `Commercial` | `TIER_1_TEAMS`, `commercial_score`, `total_commercial_value` |

Representation choices:

- A fixture's `group_id` is the group's index `j`, not its label string. `GroupPartitioner.GroupLabel(j)` is the label `"Group " + chr(65 + j)`. `GroupLabelOrder` proves that comparing labels as strings orders groups exactly as comparing indices does. Sorting by index is therefore sorting by label.
- A working-list slot is `Slot = Real(team) | Bye`. This replaces the source's identity test `is dummy` against a BYE team with id 0.
- A Python `dict` built from a `Counter` is `Metrics.Counter<K>`: a key sequence in dictionary order, plus a map from key to count.
- Scores are exact `real`s.
- `double_round` defaults to `true` in `GenerateRoundRobin` and `BuildGroupStage`, as it does in the source.

## Model

| member | source | states |
|---|---|---|
| TeamRegistry.CreateTeams | format_engine.py:19-24 | yields `max(n, 0)` teams; team `i` has id `i + 1`; a negative count gives no teams rather than an error |
| TeamRegistry.TeamNameRoundTrip | format_engine.py:24 | the id can be parsed back from the display name `"Team <id>"` |
| TeamRegistry.CreateTeamsUnique | format_engine.py:19-24 | created teams differ pairwise in id and in name; a team is created exactly when its id is in `1..n` and its name is `"Team <id>"` |
| Decimal.ParseNatToString | format_engine.py:24 | decimal rendering of an id is inverted by parsing, so different ids get different names |
| GroupPartitioner.SplitIntoGroups | format_engine.py:27-44 | fails exactly when `group_size <= 0`; otherwise there are `GroupCount` groups |
| GroupPartitioner.GroupCountIsCeiling | format_engine.py:38 | the number of chunks is the ceiling of `len(teams) / group_size`, and is zero exactly for no teams |
| GroupPartitioner.SplitRoundTrip | format_engine.py:38-42 | concatenating the groups in label order gives back the input team list |
| GroupPartitioner.SplitSizes | format_engine.py:38-42 | every group is non-empty and holds at most `group_size` teams; only the last may be short; there are no groups exactly when there are no teams |
| GroupPartitioner.ChunkMember | format_engine.py:39 | a member of group `j` is an input team from index range `j*group_size .. j*group_size+group_size` |
| GroupPartitioner.GroupOfIndex | format_engine.py:38-41 | the team at index `i` lands in group `i / group_size` |
| GroupPartitioner.SplitGroupsDistinct | format_engine.py:38-42 | with no repeated input team, no group repeats a team |
| GroupPartitioner.SplitGroupsDisjoint | format_engine.py:38-42 | with no repeated input team, two different groups share no team |
| GroupPartitioner.SplitCovers | format_engine.py:38-42 | a team is in some group exactly when it is an input team |
| GroupPartitioner.GroupLabel | format_engine.py:40 | group labels are seven characters beginning with `"Group "` |
| GroupPartitioner.GroupLabelOrder | format_engine.py:40 | labels compare as strings exactly as their group indices compare; distinct indices give distinct labels; group 0 is `"Group A"` and group 25 is `"Group Z"` |
| Circle.Rotate | format_engine.py:105-109 | one rotation keeps the working list's length |
| Circle.RotatePermutes | format_engine.py:105-109 | one rotation only reorders the working list |
| Circle.RotationsClosedForm | format_engine.py:105-109 | after `r` rotations, position `p` holds the original element `Source(n, r, p)`: position 0 keeps element 0, and position `p >= 1` holds element `1 + (p - 1 - r) mod (n - 1)` |
| Circle.SourceIffPosition | format_engine.py:105-109 | `Position` is the exact inverse of `Source`: element `x` sits at position `p` after `r` rotations iff `p == Position(n, r, x)` |
| Circle.FacingExactlyOnce | format_engine.py:73-77 | in an even working list, two different original elements face each other in exactly one of the `n - 1` rounds, `MeetingRound` |
| Circle.PairIndex | format_engine.py:75-77 | every position belongs to exactly one of the `n / 2` pairings `(i, n-1-i)` |
| RoundRobin.Pad | format_engine.py:60-64 | the working list is even; it keeps the teams in order and ends with the BYE exactly when the group is odd |
| RoundRobin.GenerateRoundRobin | format_engine.py:47-113 | a group of fewer than 2 teams gets no fixtures; the result is sorted by `(group, round, home id)` and is a permutation of the fixtures generated round by round |
| FixtureOrder.Insert | format_engine.py:112 | inserting into a sorted list keeps it sorted and adds exactly the one fixture |
| FixtureOrder.SortFixtures | format_engine.py:112 | the sorted list is ordered by `(group, round, home id)` and is a permutation of its input |
| RoundRobinFacts.PadDistinct | format_engine.py:60-64 | padding a group without repeated teams leaves no repeated slot |
| RoundRobinFacts.RotateKeeps | format_engine.py:105-109 | rotation keeps every slot within the group and keeps the slots free of repetitions |
| RoundRobinFacts.FixturesWellFormed | format_engine.py:73-103 | every fixture carries its group's id, is between two teams of the group, and has a round in `1..rounds` (or `1..2*rounds` for a double round-robin); in a group without repeated teams it is never a team against itself |
| RoundRobinFacts.FixturesDouble | format_engine.py:84-103 | the double round-robin emits every first-leg fixture immediately followed by its home/away mirror `rounds` later |
| RoundRobinFacts.SecondLegMirrorsFirst | format_engine.py:95-103 | the double round-robin is exactly the single round-robin plus the mirror of each of its fixtures, with home and away swapped and round `+ rounds` |
| RoundRobinFacts.MirrorPermutation | format_engine.py:95-103 | mirroring two lists with the same fixtures gives two lists with the same fixtures |
| Completeness.MeetingRoundSymmetric | format_engine.py:75-77 | two teams meet in the same round whichever is named first |
| Completeness.FirstLegOnce | format_engine.py:73-93 | in a group without repeated teams, in the first leg, two different teams of the group meet exactly once in one of the two home/away orders |
| Completeness.PlayedUnsorted | format_engine.py:112 | sorting does not change how often `a` hosts `b` |
| Completeness.OutsiderNeverHosts | format_engine.py:73-103 | a fixture never involves a team from outside the group, even when the group repeats a team |
| Completeness.OutsideNever | format_engine.py:73-103 | in a group without repeated teams, a team outside the group, or a team paired with itself, is never scheduled |
| Completeness.PairwiseCompleteness | format_engine.py:66-113 | in a group without repeated teams, two different teams of the group meet exactly once in a single round-robin; in a double round-robin each hosts the other exactly once; no other pair ever meets |
| FixtureCounts.FixtureCount | format_engine.py:57-103 | a group of `k` teams has `k(k-1)/2` fixtures in a single round-robin and `k(k-1)` in a double one, none when `k < 2` |
| FixtureCounts.RoundSize | format_engine.py:75-92 | every first-leg round holds `k / 2` fixtures, rounded down: the pairing with the BYE yields none |
| FixtureCounts.DoubleLength | format_engine.py:95-103 | the double round-robin has twice the fixtures of the single one |
| FixtureCounts.SchedulePlays | format_engine.py:73-93 | in a group without repeated teams, in the first leg, team `x` plays exactly once in each round `1..rounds` except the one where it faces the BYE, and in no other round |
| FixtureCounts.OneMatchPerRound | format_engine.py:73-112 | in a group without repeated teams, no team plays more than one fixture in any round, single or double; in a single round-robin a group member plays exactly once in every round where it does not sit out |
| FixtureCounts.DoublePlays | format_engine.py:95-103 | in a group without repeated teams, adding the second leg never puts a team in two fixtures of one round |
| FixtureCounts.OutsiderIdle | format_engine.py:73-103 | a team not in the group plays in no round |
| GroupStage.GroupSchedulesShape | format_engine.py:131-137 | every fixture scheduled for group `j` carries group id `j`, is between two teams of group `j`, and has a round within that group's schedule; if the group repeats no team, it is never a team against itself |
| GroupStage.BuildGroupStage | format_engine.py:116-141 | fails exactly when `group_size <= 0`, with the split's error; otherwise it is sorted by `(group, round, home id)` and is a permutation of the groups' round-robins |
| GroupStage.HomeGroupIff | format_engine.py:127-128 | a created team is in exactly one group, index `(id - 1) / group_size`; any other team is in none |
| GroupStage.StageFixtureShape | format_engine.py:130-141 | every stage fixture's group id names a group that holds both its teams; the teams differ; the round lies within that group's schedule |
| GroupStage.StageHosts | format_engine.py:130-141 | across the stage, `a` hosts `b` as often as in their common group's round-robin, and never when they are in different groups |
| GroupStage.StagePairwise | format_engine.py:116-141 | two different teams of one group meet exactly once in a single group stage, and `a` hosts `b` exactly once in a double one; teams of different groups never meet |
| GroupStage.StageOneMatchPerRound | format_engine.py:116-141 | no team plays twice in one round anywhere in the stage |
| GroupStage.StageLength | format_engine.py:130-140 | the stage length is the sum over groups of `k(k-1)/2`, doubled for a double round-robin |
| GroupStage.UniformStage | format_engine.py:116-141 | `c` full groups of `s` teams give `c` groups and `c` times one group's fixtures |
| GroupStage.FiftyFiveInFives | format_engine.py:116-141 | 55 teams in groups of 5 give 11 groups, with 110 fixtures single and 220 double |
| Metrics.FirstSeenDedups | metrics.py:15 | the first-seen key order lists every counted key exactly once and nothing else |
| Metrics.Bump | metrics.py:13-14 | counting a key adds one to its count and appends it if new; every other count is unchanged |
| Metrics.BumpValid | metrics.py:13-14 | counting keeps the counter well formed and adds one to its total |
| Metrics.Tally | metrics.py:11-14 | counting a stream gives each key its multiplicity in the stream, lists keys in first-seen order, and totals the stream's length |
| Metrics.MatchesPerTeam | metrics.py:7-15 | keys are exactly the names that occur, in first-seen order; each name maps to its home plus away appearances; every count is at least 1; counts sum to `2 * len(matches)` |
| Metrics.SortKeys | metrics.py:25 | sorting the keys only reorders them |
| Metrics.SortKeysAscending | metrics.py:25 | distinct keys come out in strictly ascending order |
| Metrics.ReorderValid | metrics.py:25 | reordering a counter's keys keeps it well formed and keeps its total |
| Metrics.MatchesPerRound | metrics.py:18-25 | keys are exactly the rounds that occur, in strictly ascending order; each maps to its fixture count; every count is at least 1; counts sum to `len(matches)` |
| Commercial.Tier1Range | commercial.py:6 | a team is tier-1 exactly when its id is in `1..8` |
| Commercial.CommercialScore | commercial.py:9-26 | the score is 2.0 iff both teams are tier-1, 1.5 iff exactly one is, 1.0 iff neither is; it always lies in `1.0..2.0` |
| Commercial.ScoreBySides | commercial.py:18-26 | the score is 1.0 plus 0.5 per tier-1 team |
| Commercial.ScoreSymmetric | commercial.py:18-26 | swapping home and away does not change the score |
| Commercial.TotalCommercialValue | commercial.py:29-33 | the total of `m` fixtures lies between `m` and `2m` |
| Commercial.TotalAppend | commercial.py:29-33 | the total is additive over concatenation |
| Commercial.TotalByAppearances | commercial.py:29-33 | the total is one point per fixture plus half a point per tier-1 appearance, home or away |
| Commercial.TotalPermutation | commercial.py:29-33 | reordering the fixtures does not change the total |

## Left out

- ui_app.py and app.py are not part of this model. They are a Streamlit interface and a console example; both only call the core and display results.
- GroupPartitioner.GroupLabel: the label is modelled only for indices whose character code is below the surrogate range, `j < 0xD800 - 65`. Past `j = 25` the source's `chr(65 + j)` runs into punctuation and other characters. The model keeps that behaviour for the indices it covers. Larger indices, and `chr`'s own range error, are not modelled.
- Sort stability: the source's `list.sort` is stable, and the model sorts with a stable insertion sort. Only "sorted" and "a permutation of the input" are proved. The exact order of fixtures with equal keys is not stated.
- TeamRegistry.CreateTeams: a negative team count yields no teams, as the source's empty `range` does. The model does not report it as an error.
- Commercial.TotalCommercialValue: scores are exact reals. The source's floats represent 1.0, 1.5, 2.0 and their sums exactly for any list of at most 2^51 fixtures, because every partial sum then stays at or below 2^52, where multiples of 0.5 are still exact. Python's `sum` of an empty list is the integer `0`; the model returns `0.0`.
- Metrics: a `Counter` that is turned into a `dict` is modelled as a key sequence plus a map. Dictionary hashing and internal layout are not modelled.
- The `dataclass` equality of `Team` and `Match` is modelled as datatype equality. The BYE team object (id 0, name `"BYE"`) is modelled as the `Bye` slot, which can never appear in a fixture.
