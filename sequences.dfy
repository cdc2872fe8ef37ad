/** Generic searches and filters over sequences of rows: the two things a
    SELECT ... WHERE and a DELETE ... WHERE do to a table. */
module Sequences {

  /** Index of the first element satisfying `hit`, or `|s|` when there is none
      (the row `fetchone` returns after a table scan). */
  function FirstIndex<T>(s: seq<T>, hit: T -> bool): (k: nat)
    ensures k <= |s|
    ensures k < |s| ==> hit(s[k])
    ensures forall j :: 0 <= j < k ==> !hit(s[j])
  {
    if s == [] then 0
    else if hit(s[0]) then 0
    else 1 + FirstIndex(s[1..], hit)
  }

  /** Appending rows after a hit does not move the first hit. */
  lemma FirstIndexExtend<T>(s: seq<T>, t: seq<T>, hit: T -> bool)
    requires FirstIndex(s, hit) < |s|
    ensures FirstIndex(s + t, hit) == FirstIndex(s, hit)
  {
    var k, k' := FirstIndex(s, hit), FirstIndex(s + t, hit);
    assert (s + t)[k] == s[k];
    if k' < k {
      assert (s + t)[k'] == s[k'];
    }
  }

  /** The rows of `s` that satisfy `keep`, in their original order. */
  function Filter<T(==,!new)>(s: seq<T>, keep: T -> bool): (r: seq<T>)
    ensures |r| <= |s|
    ensures forall x :: x in r <==> x in s && keep(x)
  {
    if s == [] then []
    else (if keep(s[0]) then [s[0]] else []) + Filter(s[1..], keep)
  }

  /** Filtering keeps each kept row as often as it occurred: rows that are not
      deleted are left exactly as they were. */
  lemma {:induction false} FilterCount<T(!new)>(s: seq<T>, keep: T -> bool, x: T)
    ensures multiset(Filter(s, keep))[x] == if keep(x) then multiset(s)[x] else 0
  {
    if s != [] {
      FilterCount(s[1..], keep, x);
      assert s == [s[0]] + s[1..];
    }
  }

  lemma {:induction false} FilterAppend<T(!new)>(a: seq<T>, b: seq<T>, keep: T -> bool)
    ensures Filter(a + b, keep) == Filter(a, keep) + Filter(b, keep)
  {
    if a != [] {
      assert (a + b)[0] == a[0] && (a + b)[1..] == a[1..] + b;
      FilterAppend(a[1..], b, keep);
      var head := if keep(a[0]) then [a[0]] else [];
      calc {
        Filter(a + b, keep);
        head + Filter(a[1..] + b, keep);
        head + (Filter(a[1..], keep) + Filter(b, keep));
        (head + Filter(a[1..], keep)) + Filter(b, keep);
      }
    } else {
      assert a + b == b;
    }
  }

  lemma {:induction false} FilterKeepsAll<T(!new)>(s: seq<T>, keep: T -> bool)
    requires forall x :: x in s ==> keep(x)
    ensures Filter(s, keep) == s
  {
    if s != [] {
      FilterKeepsAll(s[1..], keep);
    }
  }

  lemma {:induction false} FilterKeepsNone<T(!new)>(s: seq<T>, keep: T -> bool)
    requires forall x :: x in s ==> !keep(x)
    ensures Filter(s, keep) == []
  {
    if s != [] {
      FilterKeepsNone(s[1..], keep);
    }
  }

  /** Some row satisfies `keep` exactly when the filtered table is non-empty. */
  lemma FilterNonEmpty<T(!new)>(s: seq<T>, keep: T -> bool)
    ensures Filter(s, keep) != [] <==> exists x :: x in s && keep(x)
  {
    if Filter(s, keep) != [] {
      assert Filter(s, keep)[0] in Filter(s, keep);
    }
  }

  /** Deleting a rejected element leaves the filtered sequence as it was. */
  lemma {:induction false} FilterDeleteRejected<T(!new)>(s: seq<T>, i: nat, keep: T -> bool)
    requires i < |s| && !keep(s[i])
    ensures Filter(Delete(s, i), keep) == Filter(s, keep)
  {
    if i == 0 {
      assert Delete(s, 0) == s[1..];
    } else {
      DeleteTail(s, i);
      FilterDeleteRejected(s[1..], i - 1, keep);
    }
  }

  /** The first kept element heads the filtered sequence, and deleting it
      leaves the rest. */
  lemma {:induction false} FilterDeleteFirst<T(!new)>(s: seq<T>, i: nat, keep: T -> bool)
    requires i < |s| && keep(s[i])
    requires forall j :: 0 <= j < i ==> !keep(s[j])
    ensures Filter(s, keep) == [s[i]] + Filter(Delete(s, i), keep)
  {
    if i == 0 {
      assert Delete(s, 0) == s[1..];
    } else {
      DeleteTail(s, i);
      FilterDeleteFirst(s[1..], i - 1, keep);
    }
  }

  /** Every earlier element stands in relation `rel` to every later one. */
  ghost predicate Pairwise<T>(s: seq<T>, rel: (T, T) -> bool) {
    forall i, j :: 0 <= i < j < |s| ==> rel(s[i], s[j])
  }

  /** Deleting rows keeps every pairwise property of the remaining rows. */
  lemma {:induction false} FilterKeepsPairwise<T(!new)>(s: seq<T>, keep: T -> bool, rel: (T, T) -> bool)
    requires Pairwise(s, rel)
    ensures Pairwise(Filter(s, keep), rel)
  {
    if s != [] {
      FilterKeepsPairwise(s[1..], keep, rel);
      var rest := Filter(s[1..], keep);
      forall y | y in rest
        ensures rel(s[0], y)
      {
        var j :| 0 <= j < |s[1..]| && s[1..][j] == y;
        assert s[j + 1] == y;
      }
    }
  }

  /** `del s[i]`. */
  function Delete<T>(s: seq<T>, i: nat): seq<T>
    requires i < |s|
  {
    s[..i] + s[i + 1..]
  }

  /** Deleting a later position keeps the head in front. */
  lemma DeleteTail<T>(s: seq<T>, i: nat)
    requires 0 < i < |s|
    ensures Delete(s, i) == [s[0]] + Delete(s[1..], i - 1)
  {
    assert s[1..][..i - 1] == s[1..i];
    assert s[1..][i..] == s[i + 1..];
  }

  /** `idx` picks, in increasing order, the positions of `b` that spell `a`. */
  ghost predicate Embedding<T>(idx: seq<int>, a: seq<T>, b: seq<T>) {
    && |idx| == |a|
    && (forall k :: 0 <= k < |a| ==> 0 <= idx[k] < |b| && a[k] == b[idx[k]])
    && (forall k, l :: 0 <= k < l < |a| ==> idx[k] < idx[l])
  }

  /** `a` is `b` with some elements removed and the rest in their order. */
  ghost predicate Subsequence<T>(a: seq<T>, b: seq<T>) {
    exists idx :: Embedding(idx, a, b)
  }

  lemma SubsequenceRefl<T>(s: seq<T>)
    ensures Subsequence(s, s)
  {
    var idx := seq(|s|, k => k);
    assert Embedding(idx, s, s);
  }

  lemma DeleteSubsequence<T>(s: seq<T>, i: nat)
    requires i < |s|
    ensures Subsequence(Delete(s, i), s)
  {
    var idx := seq(|s| - 1, k => if k < i then k else k + 1);
    assert Embedding(idx, Delete(s, i), s);
  }

  lemma SubsequenceTrans<T>(a: seq<T>, b: seq<T>, c: seq<T>)
    requires Subsequence(a, b) && Subsequence(b, c)
    ensures Subsequence(a, c)
  {
    var ia :| Embedding(ia, a, b);
    var ib :| Embedding(ib, b, c);
    var idx := seq(|a|, k requires 0 <= k < |a| => ib[ia[k]]);
    assert Embedding(idx, a, c);
  }
}
