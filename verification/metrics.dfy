/**
  Summary metrics of a fixture list: how many fixtures each team plays, keyed
  by team name, and how many fixtures each round holds, keyed by round number.

  Both are built with a counter that behaves like an insertion-ordered
  dictionary: `Counter<K>` lists its keys in the order they were first
  counted, and maps each of them to its count.
 */
module Metrics {
  import opened Counting
  import opened Entities

  datatype Counter<K> = Counter(keys: seq<K>, counts: map<K, nat>)

  /** The count held for `k`; `0` for a key that was never counted. */
  function Lookup<K>(c: Counter<K>, k: K): nat
  {
    if k in c.counts then c.counts[k] else 0
  }

  /** A well-formed counter lists each of its keys once, and exactly the keys it maps. */
  ghost predicate Valid<K(!new)>(c: Counter<K>)
  {
    Distinct(c.keys) && forall k :: k in c.counts <==> k in c.keys
  }

  /** Sum of the counts held for `keys`. */
  function SumCounts<K>(keys: seq<K>, c: Counter<K>): nat
  {
    if |keys| == 0 then 0 else Lookup(c, keys[0]) + SumCounts(keys[1..], c)
  }

  /** Sum of all counts. */
  function Total<K>(c: Counter<K>): nat
  {
    SumCounts(c.keys, c)
  }

  /** The distinct elements of `s`, each at the place it first occurs. */
  function FirstSeen<K(==)>(s: seq<K>): seq<K>
  {
    if |s| == 0 then []
    else
      var prefix := FirstSeen(s[..|s| - 1]);
      if s[|s| - 1] in prefix then prefix else prefix + [s[|s| - 1]]
  }

  /** `FirstSeen` keeps every element once and nothing else. */
  lemma {:induction false} FirstSeenDedups<K>(s: seq<K>)
    ensures Distinct(FirstSeen(s))
    ensures forall x :: x in FirstSeen(s) <==> x in s
  {
    if |s| > 0 {
      FirstSeenDedups(s[..|s| - 1]);
      assert s == s[..|s| - 1] + [s[|s| - 1]];
    }
  }

  /**
    Counting one more `k`: its count goes up by one, a key not seen before is
    appended at the end, every other count is unchanged.
   */
  function Bump<K(==,!new)>(c: Counter<K>, k: K): (r: Counter<K>)
    ensures r.keys == if k in c.counts then c.keys else c.keys + [k]
    ensures Lookup(r, k) == Lookup(c, k) + 1
    ensures forall k' :: k' != k ==> Lookup(r, k') == Lookup(c, k')
  {
    if k in c.counts then Counter(c.keys, c.counts[k := c.counts[k] + 1])
    else Counter(c.keys + [k], c.counts[k := 1])
  }

  lemma {:induction false} SumAppend<K>(keys: seq<K>, k: K, c: Counter<K>)
    ensures SumCounts(keys + [k], c) == SumCounts(keys, c) + Lookup(c, k)
  {
    if |keys| > 0 {
      assert (keys + [k])[1..] == keys[1..] + [k];
      SumAppend(keys[1..], k, c);
    }
  }

  /** Bumping `k` adds one to a sum over keys that hold `k` once, and nothing to one over keys without it. */
  lemma {:induction false} SumBump<K(!new)>(keys: seq<K>, c: Counter<K>, k: K)
    requires Distinct(keys)
    ensures SumCounts(keys, Bump(c, k)) == SumCounts(keys, c) + (if k in keys then 1 else 0)
  {
    if |keys| > 0 {
      SumBump(keys[1..], c, k);
      assert keys[0] == k ==> k !in keys[1..];
    }
  }

  /** Bumping keeps a counter well formed and adds one to its total. */
  lemma BumpValid<K(!new)>(c: Counter<K>, k: K)
    requires Valid(c)
    ensures Valid(Bump(c, k))
    ensures Total(Bump(c, k)) == Total(c) + 1
  {
    var r := Bump(c, k);
    SumBump(c.keys, c, k);
    if k !in c.counts {
      SumAppend(c.keys, k, r);
    }
  }

  /** `c` holds, for every key, the number of times it occurs in `s`. */
  ghost predicate Counts<K(!new)>(c: Counter<K>, s: seq<K>)
  {
    forall k :: Lookup(c, k) == multiset(s)[k]
  }

  lemma BumpCounts<K(!new)>(c: Counter<K>, s: seq<K>, x: K)
    requires Counts(c, s)
    ensures Counts(Bump(c, x), s + [x])
  {
  }

  lemma BumpKeys<K(!new)>(c: Counter<K>, s: seq<K>, x: K)
    requires Valid(c) && c.keys == FirstSeen(s)
    ensures Bump(c, x).keys == FirstSeen(s + [x])
  {
    assert (s + [x])[..|s|] == s;
  }

  /**
    Counting a stream of keys one at a time, as the source's counter loop
    does: each element seen is counted under its own key, keys appear in the
    order first seen, and the counts add up to the length of the stream.
   */
  method Tally<K(==,!new)>(stream: seq<K>) returns (c: Counter<K>)
    ensures Valid(c)
    ensures c.keys == FirstSeen(stream)
    ensures Counts(c, stream)
    ensures Total(c) == |stream|
  {
    c := Counter([], map[]);
    for i := 0 to |stream|
      invariant Valid(c)
      invariant c.keys == FirstSeen(stream[..i])
      invariant Counts(c, stream[..i])
      invariant Total(c) == i
    {
      assert stream[..i + 1] == stream[..i] + [stream[i]];
      BumpCounts(c, stream[..i], stream[i]);
      BumpKeys(c, stream[..i], stream[i]);
      BumpValid(c, stream[i]);
      c := Bump(c, stream[i]);
    }
    assert stream[..|stream|] == stream;
  }

  /** The query "a team named `n` is at home". */
  function HomeNamed(n: string): Match -> bool
  {
    (m: Match) => m.home.name == n
  }

  /** The query "a team named `n` is away". */
  function AwayNamed(n: string): Match -> bool
  {
    (m: Match) => m.away.name == n
  }

  /** The names counted, in counting order: home then away, match by match. */
  function Names(ms: seq<Match>): (names: seq<string>)
    ensures |names| == 2 * |ms|
  {
    if |ms| == 0 then []
    else Names(ms[..|ms| - 1]) + [ms[|ms| - 1].home.name, ms[|ms| - 1].away.name]
  }

  /** The round numbers counted, in counting order. */
  function RoundsOf(ms: seq<Match>): (rounds: seq<int>)
    ensures |rounds| == |ms|
  {
    if |ms| == 0 then [] else RoundsOf(ms[..|ms| - 1]) + [ms[|ms| - 1].round]
  }

  /** A name occurs in the stream as often as it is at home plus as often as it is away. */
  lemma {:induction false} NamesCount(ms: seq<Match>, n: string)
    ensures multiset(Names(ms))[n] == Count(ms, HomeNamed(n)) + Count(ms, AwayNamed(n))
  {
    if |ms| > 0 {
      var last := ms[|ms| - 1];
      assert ms == ms[..|ms| - 1] + [last];
      NamesCount(ms[..|ms| - 1], n);
      CountAppend(ms[..|ms| - 1], [last], HomeNamed(n));
      CountAppend(ms[..|ms| - 1], [last], AwayNamed(n));
    }
  }

  /** A round number occurs in the stream as often as fixtures are played in that round. */
  lemma {:induction false} RoundsCount(ms: seq<Match>, q: int)
    ensures multiset(RoundsOf(ms))[q] == Count(ms, InRound(q))
  {
    if |ms| > 0 {
      var last := ms[|ms| - 1];
      assert ms == ms[..|ms| - 1] + [last];
      RoundsCount(ms[..|ms| - 1], q);
      CountAppend(ms[..|ms| - 1], [last], InRound(q));
    }
  }

  lemma {:induction false} NamesMember(ms: seq<Match>, n: string)
    ensures n in Names(ms) <==> exists m :: m in ms && (m.home.name == n || m.away.name == n)
  {
    if |ms| > 0 {
      var last := ms[|ms| - 1];
      assert ms == ms[..|ms| - 1] + [last];
      NamesMember(ms[..|ms| - 1], n);
    }
  }

  lemma {:induction false} RoundsMember(ms: seq<Match>, q: int)
    ensures q in RoundsOf(ms) <==> exists m :: m in ms && m.round == q
  {
    if |ms| > 0 {
      var last := ms[|ms| - 1];
      assert ms == ms[..|ms| - 1] + [last];
      RoundsMember(ms[..|ms| - 1], q);
    }
  }

  /**
    Fixtures per team, keyed by team name: every name that appears is listed
    once, in order of first appearance, with the number of its home plus away
    appearances; names that do not appear hold nothing, and the counts add up
    to twice the number of fixtures.
   */
  method MatchesPerTeam(ms: seq<Match>) returns (c: Counter<string>)
    ensures Valid(c)
    ensures c.keys == FirstSeen(Names(ms))
    ensures forall n :: n in c.keys <==> exists m :: m in ms && (m.home.name == n || m.away.name == n)
    ensures forall n :: Lookup(c, n) == Count(ms, HomeNamed(n)) + Count(ms, AwayNamed(n))
    ensures forall n :: n in c.keys ==> Lookup(c, n) >= 1
    ensures Total(c) == 2 * |ms|
  {
    c := Tally(Names(ms));
    forall n
      ensures n in c.keys <==> exists m :: m in ms && (m.home.name == n || m.away.name == n)
    {
      FirstSeenDedups(Names(ms));
      NamesMember(ms, n);
    }
    forall n | n in c.keys
      ensures Lookup(c, n) >= 1
    {
      FirstSeenDedups(Names(ms));
      assert n in multiset(Names(ms));
    }
    forall n
      ensures Lookup(c, n) == Count(ms, HomeNamed(n)) + Count(ms, AwayNamed(n))
    {
      NamesCount(ms, n);
    }
  }

  predicate StrictlyAscending(ks: seq<int>)
  {
    forall i, j :: 0 <= i < j < |ks| ==> ks[i] < ks[j]
  }

  /** Inserting `x` before the first larger key. */
  function InsertKey(ks: seq<int>, x: int): (r: seq<int>)
    ensures multiset(r) == multiset(ks) + multiset{x}
  {
    if |ks| == 0 || x < ks[0] then [x] + ks
    else
      assert ks == [ks[0]] + ks[1..];
      [ks[0]] + InsertKey(ks[1..], x)
  }

  /** Inserting a new key into keys in strictly ascending order keeps them so. */
  lemma {:induction false} InsertKeepsOrder(ks: seq<int>, x: int)
    requires StrictlyAscending(ks) && x !in ks
    ensures StrictlyAscending(InsertKey(ks, x))
  {
    if |ks| > 0 && x >= ks[0] {
      var rest := InsertKey(ks[1..], x);
      InsertKeepsOrder(ks[1..], x);
      forall i | 0 <= i < |rest|
        ensures ks[0] < rest[i]
      {
        assert rest[i] in multiset(rest);
      }
    }
  }

  /** Keys reordered by inserting them one by one. */
  function SortKeys(ks: seq<int>): (r: seq<int>)
    ensures multiset(r) == multiset(ks)
  {
    if |ks| == 0 then []
    else
      assert ks == [ks[0]] + ks[1..];
      InsertKey(SortKeys(ks[1..]), ks[0])
  }

  /** Keys without repetition come out in strictly ascending order. */
  lemma {:induction false} SortKeysAscending(ks: seq<int>)
    requires Distinct(ks)
    ensures StrictlyAscending(SortKeys(ks))
  {
    if |ks| > 0 {
      SortKeysAscending(ks[1..]);
      assert ks[0] !in multiset(ks[1..]);
      InsertKeepsOrder(SortKeys(ks[1..]), ks[0]);
    }
  }

  lemma {:induction false} SumRemoveAt<K>(b: seq<K>, j: nat, c: Counter<K>)
    requires j < |b|
    ensures SumCounts(b, c) == SumCounts(b[..j] + b[j + 1..], c) + Lookup(c, b[j])
  {
    if j > 0 {
      SumRemoveAt(b[1..], j - 1, c);
      assert b[1..][..j - 1] + b[1..][j..] == (b[..j] + b[j + 1..])[1..];
    } else {
      assert b[..j] + b[j + 1..] == b[1..];
    }
  }

  /** A sum over keys does not depend on their order. */
  lemma {:induction false} SumPermutation<K>(a: seq<K>, b: seq<K>, c: Counter<K>)
    requires multiset(a) == multiset(b)
    ensures SumCounts(a, c) == SumCounts(b, c)
  {
    if |a| > 0 {
      assert a[0] in multiset(b);
      var j :| 0 <= j < |b| && b[j] == a[0];
      var rest := b[..j] + b[j + 1..];
      RemoveAtMultiset(b, j);
      assert a == [a[0]] + a[1..];
      SumPermutation(a[1..], rest, c);
      SumRemoveAt(b, j, c);
    } else {
      assert |b| == |multiset(b)| == 0;
    }
  }

  /** A sum over keys reads only the counts, not the order the counter lists its keys in. */
  lemma {:induction false} SumSameCounts<K>(keys: seq<K>, c: Counter<K>, d: Counter<K>)
    requires c.counts == d.counts
    ensures SumCounts(keys, c) == SumCounts(keys, d)
  {
    if |keys| > 0 {
      SumSameCounts(keys[1..], c, d);
    }
  }

  /** Reordering the keys of a well-formed counter keeps it well formed, with the same total. */
  lemma ReorderValid(c: Counter<int>, keys: seq<int>)
    requires Valid(c) && multiset(keys) == multiset(c.keys)
    ensures Valid(Counter(keys, c.counts))
    ensures Total(Counter(keys, c.counts)) == Total(c)
  {
    var r := Counter(keys, c.counts);
    SumPermutation(c.keys, keys, c);
    SumSameCounts(keys, c, r);
    assert forall q :: q in keys <==> q in multiset(c.keys);
    forall i, j | 0 <= i < j < |keys|
      ensures keys[i] != keys[j]
    {
      if keys[i] == keys[j] {
        assert multiset{keys[i], keys[j]} <= multiset(keys) by {
          assert keys == keys[..i] + [keys[i]] + keys[i + 1..j] + [keys[j]] + keys[j + 1..];
        }
        assert multiset(c.keys)[keys[i]] >= 2;
        DistinctOnce(c.keys, keys[i]);
      }
    }
  }

  /** In a sequence without repetition every element occurs at most once. */
  lemma {:induction false} DistinctOnce<K>(s: seq<K>, x: K)
    requires Distinct(s)
    ensures multiset(s)[x] <= 1
  {
    if |s| > 0 {
      assert s == [s[0]] + s[1..];
      assert s[0] !in s[1..];
      DistinctOnce(s[1..], x);
    }
  }

  /** The rounds listed by a tally of the round numbers, whatever their order, are the rounds that have a fixture. */
  lemma RoundKeys(ms: seq<Match>, tally: Counter<int>)
    requires tally.keys == FirstSeen(RoundsOf(ms)) && Counts(tally, RoundsOf(ms))
    ensures forall q :: q in SortKeys(tally.keys) <==> exists m :: m in ms && m.round == q
    ensures forall q :: q in SortKeys(tally.keys) ==> Lookup(tally, q) >= 1
  {
    FirstSeenDedups(RoundsOf(ms));
    forall q
      ensures q in SortKeys(tally.keys) <==> q in RoundsOf(ms)
    {
      assert q in SortKeys(tally.keys) <==> q in multiset(tally.keys);
    }
    forall q
      ensures q in RoundsOf(ms) <==> exists m :: m in ms && m.round == q
    {
      RoundsMember(ms, q);
    }
    forall q | q in RoundsOf(ms)
      ensures Lookup(tally, q) >= 1
    {
      assert q in multiset(RoundsOf(ms));
    }
  }

  /**
    Fixtures per round: every round that has a fixture is listed once, in
    ascending order, with the number of its fixtures; rounds without a
    fixture hold nothing, and the counts add up to the number of fixtures.
   */
  method MatchesPerRound(ms: seq<Match>) returns (c: Counter<int>)
    ensures Valid(c)
    ensures StrictlyAscending(c.keys)
    ensures forall q :: q in c.keys <==> exists m :: m in ms && m.round == q
    ensures forall q :: Lookup(c, q) == Count(ms, InRound(q))
    ensures forall q :: q in c.keys ==> Lookup(c, q) >= 1
    ensures Total(c) == |ms|
  {
    var tally := Tally(RoundsOf(ms));
    c := Counter(SortKeys(tally.keys), tally.counts);
    SortKeysAscending(tally.keys);
    ReorderValid(tally, c.keys);
    RoundKeys(ms, tally);
    forall q
      ensures Lookup(c, q) == Count(ms, InRound(q))
    {
      RoundsCount(ms, q);
    }
  }
}
