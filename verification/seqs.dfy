/** Sequence helpers mirroring the array methods the service relies on
    (`filter`, `findIndex`/`find`, `some`), with the facts the model needs about them. */
module Seqs {
  import opened Wrappers

  /** The elements of `s` that satisfy `p`, in their original order (`Array.prototype.filter`).
      Every element keeps its multiplicity when it passes `p` and disappears when it does not. */
  function Filter<T(!new)>(p: T -> bool, s: seq<T>): (r: seq<T>)
    ensures |r| <= |s|
    ensures forall x :: x in r ==> x in s && p(x)
    decreases |s|
  {
    if |s| == 0 then []
    else
      assert s == [s[0]] + s[1..];
      (if p(s[0]) then [s[0]] else []) + Filter(p, s[1..])
  }

  /** A filter keeps every passing element with its multiplicity and drops every other one. */
  lemma {:induction false} FilterMultiset<T(!new)>(p: T -> bool, s: seq<T>)
    ensures forall x :: multiset(Filter(p, s))[x] == if p(x) then multiset(s)[x] else 0
    decreases |s|
  {
    if |s| > 0 {
      FilterMultiset(p, s[1..]);
      assert s == [s[0]] + s[1..];
    }
  }

  /** The members of a filter's result are exactly the passing members of its input. */
  lemma FilterMembers<T(!new)>(p: T -> bool, s: seq<T>)
    ensures forall x :: x in Filter(p, s) <==> x in s && p(x)
  {
  }

  /** Every passing element of the input survives the filter. */
  lemma FilterKeeps<T(!new)>(p: T -> bool, s: seq<T>, i: nat)
    requires i < |s| && p(s[i])
    ensures s[i] in Filter(p, s)
  {
    FilterMembers(p, s);
  }

  /** The index of the first element of `s` satisfying `p` (`Array.prototype.findIndex`,
      with `None` for its `-1`). */
  function FindIndex<T>(p: T -> bool, s: seq<T>): (r: Option<nat>)
    ensures r.Some? ==> r.value < |s| && p(s[r.value]) && forall j :: 0 <= j < r.value ==> !p(s[j])
    ensures r.None? <==> forall j :: 0 <= j < |s| ==> !p(s[j])
    decreases |s|
  {
    if |s| == 0 then None
    else if p(s[0]) then Some(0)
    else
      match FindIndex(p, s[1..])
      case None => None
      case Some(i) => Some(i + 1)
  }

  /** `r` is an order-preserving subsequence of `s`: `r` is obtained by deleting elements of `s`. */
  predicate IsSubsequence<T(==)>(r: seq<T>, s: seq<T>)
    decreases |s|
  {
    if |r| == 0 then true
    else if |s| == 0 then false
    else (r[0] == s[0] && IsSubsequence(r[1..], s[1..])) || IsSubsequence(r, s[1..])
  }

  lemma {:induction false} FilterAppend<T(!new)>(p: T -> bool, a: seq<T>, b: seq<T>)
    ensures Filter(p, a + b) == Filter(p, a) + Filter(p, b)
    decreases |a|
  {
    if |a| == 0 {
      assert a + b == b;
    } else {
      assert (a + b)[0] == a[0];
      assert (a + b)[1..] == a[1..] + b;
      FilterAppend(p, a[1..], b);
      calc {
        Filter(p, a + b);
        (if p(a[0]) then [a[0]] else []) + Filter(p, a[1..] + b);
        (if p(a[0]) then [a[0]] else []) + (Filter(p, a[1..]) + Filter(p, b));
        ((if p(a[0]) then [a[0]] else []) + Filter(p, a[1..])) + Filter(p, b);
      }
    }
  }

  /** A non-empty sequence is its front followed by its last element. */
  lemma SplitLast<T>(s: seq<T>)
    requires |s| > 0
    ensures s == s[..|s| - 1] + [s[|s| - 1]]
  {
  }

  /** Two tails of which one is empty can be appended in either order. */
  lemma SwapEmptyTail<T>(a: seq<T>, b: seq<T>, c: seq<T>)
    requires b == [] || c == []
    ensures a + b + c == a + c + b
  {
  }

  /** Filtering by a test and by its negation splits the input between the two results. */
  lemma FilterSplitsMultiset<T(!new)>(p: T -> bool, q: T -> bool, s: seq<T>)
    requires forall x :: q(x) == !p(x)
    ensures multiset(Filter(p, s)) + multiset(Filter(q, s)) == multiset(s)
  {
    FilterMultiset(p, s);
    FilterMultiset(q, s);
    forall x ensures (multiset(Filter(p, s)) + multiset(Filter(q, s)))[x] == multiset(s)[x] {
      assert q(x) == !p(x);
    }
  }

  /** Filtering keeps a sequence whose every element passes. */
  lemma {:induction false} FilterKeepsAll<T(!new)>(p: T -> bool, s: seq<T>)
    requires forall i :: 0 <= i < |s| ==> p(s[i])
    ensures Filter(p, s) == s
    decreases |s|
  {
    if |s| > 0 {
      FilterKeepsAll(p, s[1..]);
    }
  }

  /** Filtering empties a sequence none of whose elements passes. */
  lemma {:induction false} FilterDropsAll<T(!new)>(p: T -> bool, s: seq<T>)
    requires forall i :: 0 <= i < |s| ==> !p(s[i])
    ensures Filter(p, s) == []
    decreases |s|
  {
    if |s| > 0 {
      FilterDropsAll(p, s[1..]);
    }
  }

  /** A filter's result is an order-preserving subsequence of its input. */
  lemma {:induction false} FilterIsSubsequence<T(!new)>(p: T -> bool, s: seq<T>)
    ensures IsSubsequence(Filter(p, s), s)
    decreases |s|
  {
    if |s| > 0 {
      FilterIsSubsequence(p, s[1..]);
      var r := Filter(p, s);
      if p(s[0]) {
        assert r[0] == s[0] && r[1..] == Filter(p, s[1..]);
      } else {
        assert r == Filter(p, s[1..]);
      }
    }
  }

  /** Replacing one element changes the number of passing elements by the difference of the two
      elements' verdicts. */
  lemma FilterCountUpdate<T(!new)>(p: T -> bool, s: seq<T>, k: nat, x: T)
    requires k < |s|
    ensures |Filter(p, s[k := x])| == |Filter(p, s)| - (if p(s[k]) then 1 else 0) + (if p(x) then 1 else 0)
  {
    assert s == s[..k] + [s[k]] + s[k + 1..];
    assert s[k := x] == s[..k] + [x] + s[k + 1..];
    FilterAppend(p, s[..k] + [s[k]], s[k + 1..]);
    FilterAppend(p, s[..k], [s[k]]);
    FilterAppend(p, s[..k] + [x], s[k + 1..]);
    FilterAppend(p, s[..k], [x]);
  }

  /** Appending elements does not move an existing first match. */
  lemma FindIndexAppend<T>(p: T -> bool, s: seq<T>, t: seq<T>)
    requires FindIndex(p, s).Some?
    ensures FindIndex(p, s + t) == FindIndex(p, s)
  {
    var i := FindIndex(p, s).value;
    assert (s + t)[i] == s[i];
    assert forall j :: 0 <= j < i ==> (s + t)[j] == s[j];
  }

  /** Appending a match to a sequence without one makes the appended element the first match. */
  lemma FindIndexAppendFirst<T>(p: T -> bool, s: seq<T>, x: T)
    requires FindIndex(p, s).None? && p(x)
    ensures FindIndex(p, s + [x]) == Some(|s|)
  {
    assert (s + [x])[|s|] == x;
    assert forall j :: 0 <= j < |s| ==> (s + [x])[j] == s[j];
  }
}
