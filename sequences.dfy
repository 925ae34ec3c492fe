/**
 * Order-preserving filtering of a sequence, the model of JavaScript's
 * `Array.prototype.filter`, and the subsequence relation it establishes.
 */
module Sequences {

  /** `r` is obtained from `s` by deleting some elements and keeping the order of the rest. */
  ghost predicate IsSubsequence<T>(r: seq<T>, s: seq<T>)
    decreases |s|
  {
    r == [] || (s != [] && ((r[0] == s[0] && IsSubsequence(r[1..], s[1..])) || IsSubsequence(r, s[1..])))
  }

  /** Every element of a subsequence is an element of the sequence. */
  lemma {:induction false} SubsequenceMembers<T>(r: seq<T>, s: seq<T>)
    requires IsSubsequence(r, s)
    ensures forall x :: x in r ==> x in s
    decreases |s|
  {
    if r != [] {
      if r[0] == s[0] && IsSubsequence(r[1..], s[1..]) {
        SubsequenceMembers(r[1..], s[1..]);
        forall x | x in r ensures x in s {
          if x != r[0] {
            assert x in r[1..];
          }
        }
      } else {
        SubsequenceMembers(r, s[1..]);
      }
    }
  }

  /** `s.filter(keep)`: the elements of `s` that satisfy `keep`, in their original order. */
  function Filter<T(==)>(s: seq<T>, keep: T -> bool): (r: seq<T>)
    decreases |s|
  {
    if s == [] then []
    else if keep(s[0]) then [s[0]] + Filter(s[1..], keep)
    else Filter(s[1..], keep)
  }

  /** The filter deletes elements and keeps the order of the rest. */
  lemma {:induction false} FilterSubsequence<T(!new)>(s: seq<T>, keep: T -> bool)
    ensures IsSubsequence(Filter(s, keep), s)
    decreases |s|
  {
    if s != [] {
      FilterSubsequence(s[1..], keep);
      var rest := Filter(s[1..], keep);
      if keep(s[0]) {
        assert ([s[0]] + rest)[1..] == rest;
      }
    }
  }

  /**
   * The filter keeps every kept element exactly as often as `s` holds it, and
   * no other element. FilterUnique shows that, with FilterSubsequence, this
   * determines the result.
   */
  lemma {:induction false} FilterCounts<T(!new)>(s: seq<T>, keep: T -> bool)
    ensures forall x :: multiset(Filter(s, keep))[x] == if keep(x) then multiset(s)[x] else 0
    decreases |s|
  {
    if s != [] {
      FilterCounts(s[1..], keep);
      assert s == [s[0]] + s[1..];
    }
  }

  /** A subsequence holds each element at most as often as the sequence does. */
  lemma {:induction false} SubsequenceMultiset<T>(r: seq<T>, s: seq<T>)
    requires IsSubsequence(r, s)
    ensures multiset(r) <= multiset(s)
    decreases |s|
  {
    if r != [] {
      assert s == [s[0]] + s[1..];
      if r[0] == s[0] && IsSubsequence(r[1..], s[1..]) {
        SubsequenceMultiset(r[1..], s[1..]);
        assert r == [r[0]] + r[1..];
      } else {
        SubsequenceMultiset(r, s[1..]);
      }
    }
  }

  /**
   * The only subsequence of `s` that holds each kept element as often as `s`
   * does, and no other element, is the filter's result.
   */
  lemma {:induction false} FilterUnique<T(!new)>(r: seq<T>, s: seq<T>, keep: T -> bool)
    requires IsSubsequence(r, s)
    requires forall x :: multiset(r)[x] == if keep(x) then multiset(s)[x] else 0
    ensures r == Filter(s, keep)
    decreases |s|
  {
    if s == [] {
      assert r == [];
    } else {
      var h, t := s[0], s[1..];
      assert s == [h] + t;
      assert r != [] ==> r == [r[0]] + r[1..] && multiset(r)[r[0]] > 0;
      if keep(h) {
        assert multiset(r)[h] == multiset(t)[h] + 1;
        if IsSubsequence(r, t) {
          SubsequenceMultiset(r, t);
          assert false;
        }
        assert r != [] && r[0] == h && IsSubsequence(r[1..], t);
        FilterUnique(r[1..], t, keep);
      } else {
        assert multiset(r)[h] == 0;
        assert IsSubsequence(r, t);
        FilterUnique(r, t, keep);
      }
    }
  }

  /** Every element of the result is kept, and every kept element of `s` survives. */
  lemma FilterMembers<T(!new)>(s: seq<T>, keep: T -> bool)
    ensures forall x :: x in Filter(s, keep) <==> x in s && keep(x)
  {
  }

  /** One step of the filter: the head is kept or dropped, the tail is filtered. */
  lemma FilterCons<T(!new)>(s: seq<T>, keep: T -> bool)
    requires s != []
    ensures Filter(s, keep) == (if keep(s[0]) then [s[0]] else []) + Filter(s[1..], keep)
  {
  }

  /** Filtering distributes over concatenation. */
  lemma {:induction false} FilterAppend<T(!new)>(a: seq<T>, b: seq<T>, keep: T -> bool)
    ensures Filter(a + b, keep) == Filter(a, keep) + Filter(b, keep)
    decreases |a|
  {
    if a == [] {
      assert a + b == b;
    } else {
      var ab := a + b;
      assert ab[0] == a[0];
      assert ab[1..] == a[1..] + b;
      FilterAppend(a[1..], b, keep);
      FilterCons(ab, keep);
      FilterCons(a, keep);
    }
  }

  /** Filtering a sequence all of whose elements are kept gives it back. */
  lemma {:induction false} FilterKeepsAll<T(!new)>(s: seq<T>, keep: T -> bool)
    requires forall i :: 0 <= i < |s| ==> keep(s[i])
    ensures Filter(s, keep) == s
    decreases |s|
  {
    if s != [] {
      FilterKeepsAll(s[1..], keep);
    }
  }
}
