/**
 * Generic sums and maps over sequences, and the fact that both only depend
 * on the multiset of the elements: reordering a sequence (as a sort does)
 * changes neither the sum nor the multiset of the mapped values.
 */
module Seqs {

  /** The sum of f over the elements of s. */
  function Sum<T>(s: seq<T>, f: T -> int): int
  {
    if s == [] then 0 else f(s[0]) + Sum(s[1..], f)
  }

  /** f applied to each element, in order. */
  function Map<A, B>(s: seq<A>, f: A -> B): (r: seq<B>)
    ensures |r| == |s|
    ensures forall i :: 0 <= i < |s| ==> r[i] == f(s[i])
  {
    if s == [] then [] else [f(s[0])] + Map(s[1..], f)
  }

  lemma {:induction false} SumConcat<T>(a: seq<T>, b: seq<T>, f: T -> int)
    ensures Sum(a + b, f) == Sum(a, f) + Sum(b, f)
  {
    if a == [] {
      assert a + b == b;
    } else {
      assert (a + b)[1..] == a[1..] + b;
      SumConcat(a[1..], b, f);
    }
  }

  /** The sum over a two-element sequence. */
  lemma SumPair<T>(a: T, b: T, f: T -> int)
    ensures Sum([a, b], f) == f(a) + f(b)
  {
    assert [a, b][1..] == [b];
    assert [b][1..] == [];
    assert Sum([b], f) == f(b) + Sum([], f);
  }

  /** Terms that agree element-wise have the same sum. */
  lemma {:induction false} SumCongruent<T>(s: seq<T>, f: T -> int, g: T -> int)
    requires forall i :: 0 <= i < |s| ==> f(s[i]) == g(s[i])
    ensures Sum(s, f) == Sum(s, g)
  {
    if s != [] {
      SumCongruent(s[1..], f, g);
    }
  }

  /** A sum whose every term is zero is zero. */
  lemma {:induction false} SumOfZeros<T>(s: seq<T>, f: T -> int)
    requires forall i :: 0 <= i < |s| ==> f(s[i]) == 0
    ensures Sum(s, f) == 0
  {
    if s != [] {
      SumOfZeros(s[1..], f);
    }
  }

  /** A sum whose every term is one counts the elements. */
  lemma {:induction false} SumOfOnes<T>(s: seq<T>, f: T -> int)
    requires forall i :: 0 <= i < |s| ==> f(s[i]) == 1
    ensures Sum(s, f) == |s|
  {
    if s != [] {
      SumOfOnes(s[1..], f);
    }
  }

  /** A sum whose terms vanish from c on, and agree with g before c, is the sum of g over the first c. */
  lemma SumPrefix<T>(s: seq<T>, c: int, f: T -> int, g: T -> int)
    requires 0 <= c <= |s|
    requires forall j :: 0 <= j < c ==> f(s[j]) == g(s[j])
    requires forall j :: c <= j < |s| ==> f(s[j]) == 0
    ensures Sum(s, f) == Sum(s[..c], g)
  {
    var pre, post := s[..c], s[c..];
    assert s == pre + post;
    SumConcat(pre, post, f);
    SumOfZeros(post, f);
    SumCongruent(pre, f, g);
  }

  /** Taking out the element at k removes one copy of it from the multiset. */
  lemma RemoveAt<T>(t: seq<T>, k: int)
    requires 0 <= k < |t|
    ensures t == t[..k] + [t[k]] + t[k + 1..]
    ensures multiset(t[..k] + t[k + 1..]) == multiset(t) - multiset{t[k]}
  {
    assert t == t[..k] + [t[k]] + t[k + 1..];
    var m := multiset(t[..k] + t[k + 1..]);
    assert multiset(t) == m + multiset{t[k]};
  }

  /** The sum splits off the term at k. */
  lemma SumRemoveAt<T>(t: seq<T>, k: int, f: T -> int)
    requires 0 <= k < |t|
    ensures Sum(t, f) == f(t[k]) + Sum(t[..k] + t[k + 1..], f)
  {
    assert t == t[..k] + ([t[k]] + t[k + 1..]);
    SumConcat(t[..k], [t[k]] + t[k + 1..], f);
    SumConcat(t[..k], t[k + 1..], f);
  }

  /** The mapped sequence without the element at k is the map of the sequence without it. */
  lemma MapRemoveAt<A, B>(t: seq<A>, k: int, f: A -> B)
    requires 0 <= k < |t|
    ensures multiset(Map(t[..k] + t[k + 1..], f)) == multiset(Map(t, f)) - multiset{f(t[k])}
  {
    var mt := Map(t, f);
    RemoveAt(mt, k);
    var rest := t[..k] + t[k + 1..];
    var mr := Map(rest, f);
    forall i | 0 <= i < |mr|
      ensures mr[i] == (mt[..k] + mt[k + 1..])[i]
    {
      if i < k {
        assert rest[i] == t[i];
      } else {
        assert rest[i] == t[i + 1];
      }
    }
    assert mr == mt[..k] + mt[k + 1..];
  }

  /** For s a permutation of t, the tail of s is a permutation of t without the first element of s. */
  lemma PermutationTail<T>(s: seq<T>, t: seq<T>) returns (k: int)
    requires multiset(s) == multiset(t) && s != []
    ensures 0 <= k < |t| && t[k] == s[0]
    ensures multiset(s[1..]) == multiset(t[..k] + t[k + 1..])
  {
    assert s[0] in multiset(t);
    k :| 0 <= k < |t| && t[k] == s[0];
    RemoveAt(t, k);
    RemoveAt(s, 0);
  }

  /** A sum does not depend on the order of its terms. */
  lemma {:induction false} SumPermutation<T>(s: seq<T>, t: seq<T>, f: T -> int)
    requires multiset(s) == multiset(t)
    ensures Sum(s, f) == Sum(t, f)
    decreases |s|
  {
    if s == [] {
      assert |t| == |multiset(t)| == 0;
    } else {
      var k := PermutationTail(s, t);
      SumPermutation(s[1..], t[..k] + t[k + 1..], f);
      SumRemoveAt(t, k, f);
    }
  }

  /** Taking one copy of a out of a multiset that holds it and putting it back changes nothing. */
  lemma AddBack<T>(m: multiset<T>, a: T)
    requires a in m
    ensures (m - multiset{a}) + multiset{a} == m
  {
  }

  /** Mapping a permutation gives a permutation. */
  lemma {:induction false} MapPermutation<A, B>(s: seq<A>, t: seq<A>, f: A -> B)
    requires multiset(s) == multiset(t)
    ensures multiset(Map(s, f)) == multiset(Map(t, f))
    decreases |s|
  {
    if s == [] {
      assert |t| == |multiset(t)| == 0;
    } else {
      var k := PermutationTail(s, t);
      MapPermutation(s[1..], t[..k] + t[k + 1..], f);
      MapRemoveAt(t, k, f);
      var mt := Map(t, f);
      assert mt[k] == f(s[0]);
      AddBack(multiset(mt), f(s[0]));
      assert Map(s, f) == [f(s[0])] + Map(s[1..], f);
    }
  }
}
