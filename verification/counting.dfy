/**
  Counting elements of a sequence that satisfy a predicate, and the two facts
  every aggregate in this project leans on: counts add up over concatenation
  and do not depend on the order of the elements.
 */
module Counting {

  /** Number of elements of `s` that satisfy `p`. */
  function Count<T>(s: seq<T>, p: T -> bool): (c: nat)
    ensures c <= |s|
  {
    if |s| == 0 then 0 else (if p(s[0]) then 1 else 0) + Count(s[1..], p)
  }

  lemma {:induction false} CountAppend<T>(s: seq<T>, t: seq<T>, p: T -> bool)
    ensures Count(s + t, p) == Count(s, p) + Count(t, p)
  {
    if |s| == 0 {
      assert s + t == t;
    } else {
      assert (s + t)[1..] == s[1..] + t;
      CountAppend(s[1..], t, p);
    }
  }

  lemma {:induction false} CountNone<T>(s: seq<T>, p: T -> bool)
    requires forall i :: 0 <= i < |s| ==> !p(s[i])
    ensures Count(s, p) == 0
  {
    if |s| > 0 {
      CountNone(s[1..], p);
    }
  }

  /** Removing the element at index `k` removes one copy of it from the multiset. */
  lemma RemoveAtMultiset<T>(t: seq<T>, k: nat)
    requires k < |t|
    ensures multiset(t[..k] + t[k+1..]) == multiset(t) - multiset{t[k]}
  {
    assert t == t[..k] + [t[k]] + t[k+1..];
  }

  lemma {:induction false} CountRemoveAt<T>(t: seq<T>, k: nat, p: T -> bool)
    requires k < |t|
    ensures Count(t, p) == Count(t[..k] + t[k+1..], p) + (if p(t[k]) then 1 else 0)
  {
    assert t == (t[..k] + [t[k]]) + t[k+1..];
    CountAppend(t[..k] + [t[k]], t[k+1..], p);
    CountAppend(t[..k], [t[k]], p);
    CountAppend(t[..k], t[k+1..], p);
    assert [t[k]][1..] == [];
  }

  /** A count is a function of the multiset of elements only. */
  lemma {:induction false} CountPermutation<T>(s: seq<T>, t: seq<T>, p: T -> bool)
    requires multiset(s) == multiset(t)
    ensures Count(s, p) == Count(t, p)
  {
    if |s| == 0 {
      assert |t| == |multiset(t)| == 0;
    } else {
      var x := s[0];
      assert x in multiset(t);
      var k :| 0 <= k < |t| && t[k] == x;
      var rest := t[..k] + t[k+1..];
      assert multiset(s[1..]) == multiset(rest) by {
        RemoveAtMultiset(t, k);
        assert s == [x] + s[1..];
      }
      CountPermutation(s[1..], rest, p);
      CountRemoveAt(t, k, p);
      assert Count(s, p) == Count(s[1..], p) + (if p(x) then 1 else 0);
    }
  }

  /** Counting the elements equal to `z` gives the multiplicity of `z`. */
  lemma {:induction false} CountIsMultiplicity<T>(s: seq<T>, z: T, p: T -> bool)
    requires forall x :: p(x) == (x == z)
    ensures Count(s, p) == multiset(s)[z]
  {
    if |s| > 0 {
      assert s == [s[0]] + s[1..];
      CountIsMultiplicity(s[1..], z, p);
    }
  }

  /** The concatenation of a list of blocks, in order. */
  function Flatten<T>(blocks: seq<seq<T>>): seq<T>
  {
    if |blocks| == 0 then [] else blocks[0] + Flatten(blocks[1..])
  }

  /** An element of the concatenation comes from one of the blocks. */
  lemma {:induction false} FlattenMember<T>(blocks: seq<seq<T>>, x: T) returns (j: nat)
    requires x in Flatten(blocks)
    ensures j < |blocks| && x in blocks[j]
  {
    if x in blocks[0] {
      j := 0;
    } else {
      var j' := FlattenMember(blocks[1..], x);
      j := j' + 1;
    }
  }

  /** An element is in the concatenation exactly when it is in one of the blocks. */
  lemma {:induction false} FlattenMemberIff<T>(blocks: seq<seq<T>>, x: T)
    ensures x in Flatten(blocks) <==> exists j :: 0 <= j < |blocks| && x in blocks[j]
  {
    if |blocks| > 0 {
      var rest := blocks[1..];
      FlattenMemberIff(rest, x);
      if x in Flatten(rest) {
        var j :| 0 <= j < |rest| && x in rest[j];
        assert x in blocks[j + 1];
      }
      if exists j :: 0 <= j < |blocks| && x in blocks[j] {
        var j :| 0 <= j < |blocks| && x in blocks[j];
        if j > 0 {
          assert x in rest[j - 1];
        }
      }
    }
  }

  /** Appending a block at the end appends its elements at the end. */
  lemma {:induction false} FlattenSnoc<T>(blocks: seq<seq<T>>, b: seq<T>)
    ensures Flatten(blocks + [b]) == Flatten(blocks) + b
  {
    if |blocks| > 0 {
      assert (blocks + [b])[1..] == blocks[1..] + [b];
      FlattenSnoc(blocks[1..], b);
    } else {
      assert (blocks + [b])[1..] == [];
    }
  }

  /** A count over blocks of which only block `hit` contributes, and it contributes `v`. */
  lemma {:induction false} FlattenCountOne<T>(blocks: seq<seq<T>>, p: T -> bool, hit: int, v: nat)
    requires forall i :: 0 <= i < |blocks| ==> Count(blocks[i], p) == if i == hit then v else 0
    ensures Count(Flatten(blocks), p) == if 0 <= hit < |blocks| then v else 0
  {
    if |blocks| > 0 {
      var rest := blocks[1..];
      assert forall i :: 0 <= i < |rest| ==> rest[i] == blocks[i + 1];
      FlattenCountOne(rest, p, hit - 1, v);
      CountAppend(blocks[0], Flatten(rest), p);
    }
  }

  /** Blocks of `c` elements each flatten to `|blocks| * c` elements. */
  lemma {:induction false} FlattenLength<T>(blocks: seq<seq<T>>, c: nat)
    requires forall i :: 0 <= i < |blocks| ==> |blocks[i]| == c
    ensures |Flatten(blocks)| == |blocks| * c
  {
    if |blocks| > 0 {
      var rest := blocks[1..];
      assert forall i :: 0 <= i < |rest| ==> rest[i] == blocks[i + 1];
      FlattenLength(rest, c);
      assert |blocks| * c == |rest| * c + c;
    }
  }
}
