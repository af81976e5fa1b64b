/**
 * Sequence vocabulary shared by the text and filename utilities: order-keeping
 * deletion filters, the subsequence relation they produce, and reversal.
 */
module Sequences {

  /** `r` is `s` with some elements deleted and the rest kept in their order. */
  predicate IsSubsequence<T(==)>(r: seq<T>, s: seq<T>)
    decreases |s|
  {
    if r == [] then true
    else if s == [] then false
    else if r[0] == s[0] then IsSubsequence(r[1..], s[1..])
    else IsSubsequence(r, s[1..])
  }

  /** Deletes every element that `keep` rejects; the kept ones stay in order. */
  function Filter<T>(keep: T -> bool, s: seq<T>): (r: seq<T>)
    ensures |r| <= |s|
    ensures forall i :: 0 <= i < |r| ==> keep(r[i])
  {
    if s == [] then []
    else if keep(s[0]) then [s[0]] + Filter(keep, s[1..])
    else Filter(keep, s[1..])
  }

  /** Filtering only deletes: the output is a subsequence of the input. */
  lemma {:induction false} FilterIsSubsequence<T>(keep: T -> bool, s: seq<T>)
    ensures IsSubsequence(Filter(keep, s), s)
  {
    if s != [] {
      FilterIsSubsequence(keep, s[1..]);
      var rest := Filter(keep, s[1..]);
      if keep(s[0]) {
        assert Filter(keep, s) == [s[0]] + rest;
        assert ([s[0]] + rest)[1..] == rest;
      } else {
        SubsequenceOfTail(rest, s);
      }
    }
  }

  /** A subsequence of the tail of `s` is a subsequence of `s`. */
  lemma {:induction false} SubsequenceOfTail<T>(r: seq<T>, s: seq<T>)
    requires s != [] && IsSubsequence(r, s[1..])
    ensures IsSubsequence(r, s)
    decreases |s|, |r|
  {
    if r != [] && r[0] == s[0] {
      // r[0] matches s[0]; it remains to place r[1..] inside s[1..]
      SubsequenceDropHead(r, s[1..]);
    }
  }

  /** Dropping the first element of a subsequence keeps it a subsequence. */
  lemma {:induction false} SubsequenceDropHead<T>(r: seq<T>, s: seq<T>)
    requires r != [] && IsSubsequence(r, s)
    ensures IsSubsequence(r[1..], s)
    decreases |s|, |r|
  {
    assert s != [];
    if r[0] != s[0] {
      SubsequenceDropHead(r, s[1..]);
      if r[1..] != [] {
        SubsequenceOfTail(r[1..], s);
      }
    } else if r[1..] != [] {
      SubsequenceOfTail(r[1..], s);
    }
  }

  /** Filtering a concatenation filters each part: the filter looks at one element at a time. */
  lemma {:induction false} FilterAppend<T>(keep: T -> bool, a: seq<T>, b: seq<T>)
    ensures Filter(keep, a + b) == Filter(keep, a) + Filter(keep, b)
  {
    if a != [] {
      assert (a + b)[1..] == a[1..] + b;
      FilterAppend(keep, a[1..], b);
    } else {
      assert a + b == b;
    }
  }

  /** The filter changes nothing exactly when every element is kept. */
  lemma {:induction false} FilterFixesKept<T>(keep: T -> bool, s: seq<T>)
    ensures Filter(keep, s) == s <==> forall i :: 0 <= i < |s| ==> keep(s[i])
  {
    if s != [] {
      FilterFixesKept(keep, s[1..]);
      if !keep(s[0]) {
        assert |Filter(keep, s)| < |s|;
      } else if forall i :: 0 <= i < |s| ==> keep(s[i]) {
        assert forall i :: 0 <= i < |s[1..]| ==> keep(s[1..][i]) by {
          forall i | 0 <= i < |s[1..]| ensures keep(s[1..][i]) {
            assert s[1..][i] == s[i + 1];
          }
        }
        assert s == [s[0]] + s[1..];
      }
    }
  }

  /** Each kept value occurs in the output exactly as often as in the input. */
  lemma {:induction false} FilterKeepsCount<T>(keep: T -> bool, s: seq<T>, x: T)
    requires keep(x)
    ensures multiset(Filter(keep, s))[x] == multiset(s)[x]
  {
    if s != [] {
      FilterKeepsCount(keep, s[1..], x);
      assert s == [s[0]] + s[1..];
      assert multiset(s) == multiset([s[0]]) + multiset(s[1..]);
    }
  }

  /** The elements of `s` in the opposite order. */
  function Reverse<T>(s: seq<T>): (r: seq<T>)
    ensures |r| == |s|
    ensures forall i :: 0 <= i < |s| ==> r[i] == s[|s| - 1 - i]
  {
    if s == [] then [] else [s[|s| - 1]] + Reverse(s[..|s| - 1])
  }

  /** The position of the first element satisfying `p`, or `|s|` when there is none. */
  function FirstIndexWhere<T>(p: T -> bool, s: seq<T>): (i: nat)
    ensures i <= |s|
    ensures i < |s| ==> p(s[i])
    ensures forall j :: 0 <= j < i ==> !p(s[j])
  {
    if s == [] || p(s[0]) then 0
    else
      var i := FirstIndexWhere(p, s[1..]);
      assert forall j :: 1 <= j < |s| ==> s[j] == s[1..][j - 1];
      1 + i
  }

  /** The position of the last element satisfying `p`, or -1 when there is none. */
  function LastIndexWhere<T>(p: T -> bool, s: seq<T>): (i: int)
    ensures -1 <= i < |s|
    ensures 0 <= i ==> p(s[i])
    ensures forall j :: i < j < |s| ==> !p(s[j])
  {
    if s == [] || p(s[|s| - 1]) then |s| - 1
    else
      var front := s[..|s| - 1];
      var i := LastIndexWhere(p, front);
      assert forall j :: 0 <= j < |front| ==> s[j] == front[j];
      i
  }

  /** Searching backwards finds the mirror image of what searching the reversed sequence finds. */
  lemma LastIndexIsFirstIndexOfReverse<T>(p: T -> bool, s: seq<T>)
    ensures var i := LastIndexWhere(p, s);
            FirstIndexWhere(p, Reverse(s)) == if i < 0 then |s| else |s| - 1 - i
  {
    var i := LastIndexWhere(p, s);
    var k := FirstIndexWhere(p, Reverse(s));
    var r := Reverse(s);
    if k < |s| {
      // the element found in the reversed sequence sits at |s| - 1 - k in `s`
      assert r[k] == s[|s| - 1 - k];
      assert p(s[|s| - 1 - k]);
      assert |s| - 1 - k <= i;
    }
    if 0 <= i {
      assert r[|s| - 1 - i] == s[i];
      assert k <= |s| - 1 - i;
    }
  }
}
