/**
 Sequence utilities shared by the model: the `Array.prototype.filter` of the
 source, order-preserving subsequences, counting and removal of every copy of a
 value.
 */
module Seqs {

  /** `sub` is obtained from `s` by deleting some elements, keeping the order of the rest. */
  ghost predicate Subseq<T>(sub: seq<T>, s: seq<T>)
    decreases |s|
  {
    || |sub| == 0
    || (&& |s| > 0
        && ((sub[0] == s[0] && Subseq(sub[1..], s[1..])) || Subseq(sub, s[1..])))
  }

  /** Number of positions of `s` whose element satisfies `p`. */
  function Count<T>(s: seq<T>, p: T -> bool): nat
  {
    if |s| == 0 then 0 else (if p(s[0]) then 1 else 0) + Count(s[1..], p)
  }

  /** `s.filter(p)`: the elements satisfying `p`, in their original order. */
  function Filter<T(!new)>(s: seq<T>, p: T -> bool): (r: seq<T>)
    ensures Subseq(r, s)
    ensures forall i :: 0 <= i < |r| ==> p(r[i])
    ensures |r| == Count(s, p)
    ensures forall x :: x in r <==> x in s && p(x)
  {
    if |s| == 0 then []
    else if p(s[0]) then [s[0]] + Filter(s[1..], p)
    else Filter(s[1..], p)
  }

  /** The predicate "differs from `x`". */
  function NotEqual<T(==)>(x: T): T -> bool {
    y => y != x
  }

  /** The predicate "is not an element of `xs`". */
  function NotIn<T(==)>(xs: seq<T>): T -> bool {
    y => y !in xs
  }

  /** `s.filter(y => y !== x)`: every copy of `x` removed, everything else kept in order. */
  function RemoveAll<T(==,!new)>(s: seq<T>, x: T): (r: seq<T>)
    ensures Subseq(r, s) && |r| == Count(s, NotEqual(x))
    ensures x !in r
    ensures forall y :: y != x ==> (y in r <==> y in s)
    ensures x !in s ==> r == s
  {
    if x in s then Filter(s, NotEqual(x))
    else
      FilterKeepsAll(s, NotEqual(x));
      Filter(s, NotEqual(x))
  }

  /** A subsequence whose elements all satisfy `p` is no longer than the number of such elements. */
  lemma {:induction false} SubseqCountBound<T(!new)>(sub: seq<T>, s: seq<T>, p: T -> bool)
    requires Subseq(sub, s)
    requires forall i :: 0 <= i < |sub| ==> p(sub[i])
    ensures |sub| <= Count(s, p)
    decreases |s|
  {
    if |sub| == 0 {
    } else if sub[0] == s[0] && Subseq(sub[1..], s[1..]) {
      SubseqCountBound(sub[1..], s[1..], p);
    } else {
      SubseqCountBound(sub, s[1..], p);
    }
  }

  /**
   The filter is the ONLY order-preserving subsequence that consists of elements
   satisfying `p` and has as many elements as `s` has such positions: the three
   facts in `Filter`'s contract pin its result down completely.
   */
  lemma {:induction false} FilterUnique<T(!new)>(sub: seq<T>, s: seq<T>, p: T -> bool)
    requires Subseq(sub, s)
    requires forall i :: 0 <= i < |sub| ==> p(sub[i])
    requires |sub| == Count(s, p)
    ensures sub == Filter(s, p)
    decreases |s|
  {
    if |sub| == 0 {
      assert |Filter(s, p)| == 0;
    } else if sub[0] == s[0] && Subseq(sub[1..], s[1..]) {
      FilterUnique(sub[1..], s[1..], p);
      assert sub == [sub[0]] + sub[1..];
    } else {
      assert Subseq(sub, s[1..]);
      SubseqCountBound(sub, s[1..], p);
      if p(s[0]) {
        assert false;
      }
      FilterUnique(sub, s[1..], p);
    }
  }

  /** Filtering with a predicate every element satisfies changes nothing. */
  lemma {:induction false} FilterKeepsAll<T(!new)>(s: seq<T>, p: T -> bool)
    requires forall x :: x in s ==> p(x)
    ensures Filter(s, p) == s
  {
    if |s| > 0 {
      assert forall x :: x in s[1..] ==> x in s;
      FilterKeepsAll(s[1..], p);
      assert s == [s[0]] + s[1..];
    }
  }

  /** Of two elements, keeping the first and dropping the second gives the first alone. */
  lemma FilterPair<T(!new)>(a: T, b: T, p: T -> bool)
    requires p(a) && !p(b)
    ensures Filter([a, b], p) == [a]
  {
    assert [a, b][1..] == [b];
    assert [b][1..] == [];
  }

  /** Filtering distributes over concatenation. */
  lemma {:induction false} FilterConcat<T(!new)>(a: seq<T>, b: seq<T>, p: T -> bool)
    ensures Filter(a + b, p) == Filter(a, p) + Filter(b, p)
  {
    if |a| > 0 {
      assert (a + b)[1..] == a[1..] + b;
      FilterConcat(a[1..], b, p);
    } else {
      assert a + b == b;
    }
  }

  /** Filtering twice is filtering once with the conjunction. */
  lemma {:induction false} FilterFilter<T(!new)>(s: seq<T>, p: T -> bool, q: T -> bool, both: T -> bool)
    requires forall x :: x in s ==> both(x) == (p(x) && q(x))
    ensures Filter(Filter(s, p), q) == Filter(s, both)
  {
    if |s| > 0 {
      assert forall x :: x in s[1..] ==> x in s;
      FilterFilter(s[1..], p, q, both);
      if p(s[0]) {
        assert Filter([s[0]] + Filter(s[1..], p), q)
            == Filter([s[0]], q) + Filter(Filter(s[1..], p), q) by {
          FilterConcat([s[0]], Filter(s[1..], p), q);
        }
        assert Filter([s[0]], q) == if q(s[0]) then [s[0]] else [];
      }
    }
  }

  /** Predicates that agree on every element of `s` count the same positions. */
  lemma {:induction false} CountCongruent<T>(s: seq<T>, p: T -> bool, q: T -> bool)
    requires forall x :: x in s ==> p(x) == q(x)
    ensures Count(s, p) == Count(s, q)
  {
    if |s| > 0 {
      assert forall x :: x in s[1..] ==> x in s;
      CountCongruent(s[1..], p, q);
    }
  }

  /** The elements satisfying `p` and those failing it together account for every position. */
  lemma {:induction false} CountComplement<T(!new)>(s: seq<T>, p: T -> bool, notP: T -> bool)
    requires forall x :: notP(x) == !p(x)
    ensures Count(s, p) + Count(s, notP) == |s|
  {
    if |s| > 0 {
      CountComplement(s[1..], p, notP);
    }
  }

  /** One step of `Filter`: the head is kept or dropped, then the tail is filtered. */
  lemma FilterCons<T(!new)>(x: T, rest: seq<T>, p: T -> bool)
    ensures Filter([x] + rest, p) == (if p(x) then [x] else []) + Filter(rest, p)
  {
    assert ([x] + rest)[1..] == rest;
  }

  /** A filter and its complementary filter split the multiset of `s` between them. */
  lemma {:induction false} FilterSplitsMultiset<T(!new)>(s: seq<T>, p: T -> bool, notP: T -> bool)
    requires forall x :: notP(x) == !p(x)
    ensures multiset(Filter(s, p)) + multiset(Filter(s, notP)) == multiset(s)
  {
    if |s| > 0 {
      var x, rest := s[0], s[1..];
      assert s == [x] + rest;
      FilterSplitsMultiset(rest, p, notP);
      FilterCons(x, rest, p);
      FilterCons(x, rest, notP);
      var kept, dropped := Filter(rest, p), Filter(rest, notP);
      assert multiset(kept) + multiset(dropped) == multiset(rest);
      if p(x) {
        assert multiset(Filter(s, p)) == multiset{x} + multiset(kept);
        assert multiset(Filter(s, notP)) == multiset(dropped);
      } else {
        assert multiset(Filter(s, p)) == multiset(kept);
        assert multiset(Filter(s, notP)) == multiset{x} + multiset(dropped);
      }
      assert multiset(s) == multiset{x} + multiset(rest);
    }
  }

  /** Appending copies of `x` and then removing every copy is the same as removing them up front. */
  lemma RemoveAllAppended<T(!new)>(s: seq<T>, x: T)
    ensures RemoveAll(s + [x], x) == RemoveAll(s, x)
  {
    FilterConcat(s, [x], NotEqual(x));
  }

  /** Appending `xs` and then removing every element of `xs` restores a list that shared none of them. */
  lemma RemoveAppendedBlock<T(!new)>(s: seq<T>, xs: seq<T>)
    requires forall x :: x in s ==> x !in xs
    ensures Filter(s + xs, NotIn(xs)) == s
  {
    FilterConcat(s, xs, NotIn(xs));
    FilterKeepsAll(s, NotIn(xs));
    assert |Filter(xs, NotIn(xs))| == 0;
  }

  lemma {:induction false} SubseqRefl<T>(s: seq<T>)
    ensures Subseq(s, s)
  {
    if |s| > 0 {
      SubseqRefl(s[1..]);
    }
  }

  lemma PrefixTrans<T>(a: seq<T>, b: seq<T>, c: seq<T>)
    requires a <= b && b <= c
    ensures a <= c
  {
    assert forall i :: 0 <= i < |a| ==> a[i] == b[i] == c[i];
  }

  lemma PrefixKeeps<T>(a: seq<T>, b: seq<T>, i: nat)
    requires a <= b && i < |a|
    ensures a[i] in b
  {
    assert a[i] == b[i];
  }

  lemma PrefixMembers<T>(a: seq<T>, b: seq<T>)
    requires a <= b
    ensures forall k :: k in a ==> k in b
  {
    forall k | k in a
      ensures k in b
    {
      var i :| 0 <= i < |a| && a[i] == k;
      PrefixKeeps(a, b, i);
    }
  }
}
