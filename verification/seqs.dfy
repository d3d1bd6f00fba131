/** Sequence helpers shared by every dashboard module: the `Array.prototype.filter`
    of the scripts, flattening of nested rows, and the subsequence relation that
    the filtering operations promise. */
module Seqs {

  /** `xs.filter(p)`: the elements of `s` that satisfy `p`, in their original order
      and with their multiplicity, so a subsequence of `s` as long as the number of
      elements that pass. */
  function Filter<T(==)>(s: seq<T>, p: T -> bool): (r: seq<T>)
    ensures |r| == Count(s, p) <= |s|
    ensures IsSubsequence(r, s)
    ensures forall i :: 0 <= i < |r| ==> r[i] in s && p(r[i])
    ensures forall i :: 0 <= i < |s| && p(s[i]) ==> s[i] in r
  {
    if |s| == 0 then []
    else
      var rest := Filter(s[1..], p);
      assert IsSubsequence([] + rest, s) by { SubsequenceSkip(rest, s); assert [] + rest == rest; }
      assert p(s[0]) ==> IsSubsequence([s[0]] + rest, s) by { SubsequenceKeep(s[0], rest, s); }
      (if p(s[0]) then [s[0]] else []) + rest
  }

  /** Concatenation of a sequence of sequences, in order. */
  function Flatten<T>(ss: seq<seq<T>>): seq<T>
  {
    if |ss| == 0 then [] else ss[0] + Flatten(ss[1..])
  }

  /** Number of elements of `s` that satisfy `p`. */
  function Count<T>(s: seq<T>, p: T -> bool): nat
  {
    if |s| == 0 then 0 else (if p(s[0]) then 1 else 0) + Count(s[1..], p)
  }

  /** `a` can be obtained from `b` by deleting elements (order kept). */
  predicate IsSubsequence<T(==)>(a: seq<T>, b: seq<T>)
  {
    if |a| == 0 then true
    else if |b| == 0 then false
    else (a[0] == b[0] && IsSubsequence(a[1..], b[1..])) || IsSubsequence(a, b[1..])
  }

  /** Pairwise distinct elements. */
  predicate Distinct<T(==)>(s: seq<T>)
  {
    forall i, j :: 0 <= i < j < |s| ==> s[i] != s[j]
  }

  /** Dropping the head of `b` keeps `a` a subsequence of it. */
  lemma SubsequenceSkip<T>(a: seq<T>, b: seq<T>)
    requires |b| > 0 && IsSubsequence(a, b[1..])
    ensures IsSubsequence(a, b)
  {
  }

  /** Keeping the head of `b` in front of a subsequence of its tail. */
  lemma SubsequenceKeep<T>(x: T, a: seq<T>, b: seq<T>)
    requires |b| > 0 && x == b[0] && IsSubsequence(a, b[1..])
    ensures IsSubsequence([x] + a, b)
  {
    assert ([x] + a)[1..] == a;
  }

  /** When every element passes, filtering returns its input unchanged. */
  lemma {:induction false} FilterAllPass<T>(s: seq<T>, p: T -> bool)
    requires forall i :: 0 <= i < |s| ==> p(s[i])
    ensures Filter(s, p) == s
  {
    if |s| > 0 {
      FilterAllPass(s[1..], p);
      assert p(s[0]);
      assert [s[0]] + s[1..] == s;
    }
  }

  /** Filtering twice with the same predicate is filtering once. */
  lemma FilterIdempotent<T>(s: seq<T>, p: T -> bool)
    ensures Filter(Filter(s, p), p) == Filter(s, p)
  {
    var r := Filter(s, p);
    FilterAllPass(r, p);
  }

  /** Filtering distributes over concatenation. */
  lemma {:induction false} FilterAppend<T>(a: seq<T>, b: seq<T>, p: T -> bool)
    ensures Filter(a + b, p) == Filter(a, p) + Filter(b, p)
  {
    if |a| == 0 {
      assert a + b == b;
    } else {
      assert (a + b)[0] == a[0];
      assert (a + b)[1..] == a[1..] + b;
      FilterAppend(a[1..], b, p);
    }
  }

  /** Flattening distributes over concatenation. */
  lemma {:induction false} FlattenAppend<T>(a: seq<seq<T>>, b: seq<seq<T>>)
    ensures Flatten(a + b) == Flatten(a) + Flatten(b)
  {
    if |a| == 0 {
      assert a + b == b;
    } else {
      assert (a + b)[0] == a[0];
      assert (a + b)[1..] == a[1..] + b;
      FlattenAppend(a[1..], b);
    }
  }

  /** Counting distributes over concatenation. */
  lemma {:induction false} CountAppend<T>(a: seq<T>, b: seq<T>, p: T -> bool)
    ensures Count(a + b, p) == Count(a, p) + Count(b, p)
  {
    if |a| == 0 {
      assert a + b == b;
    } else {
      assert (a + b)[0] == a[0];
      assert (a + b)[1..] == a[1..] + b;
      CountAppend(a[1..], b, p);
    }
  }

  /** `xs.slice(0, n)`: the first `n` elements, or all of them when there are fewer. */
  function Take<T>(s: seq<T>, n: nat): (r: seq<T>)
    ensures |r| == if |s| <= n then |s| else n
    ensures forall i :: 0 <= i < |r| ==> r[i] == s[i]
  {
    if |s| <= n then s else s[..n]
  }

  /** Appending after the first `n` elements does not change them. */
  lemma TakeAppend<T>(a: seq<T>, b: seq<T>, n: nat)
    requires n <= |a|
    ensures Take(a + b, n) == Take(a, n)
  {
    assert (a + b)[..n] == a[..n];
  }

  /** Appending a new element keeps a sequence free of duplicates. */
  lemma DistinctSnoc<T>(s: seq<T>, x: T)
    requires Distinct(s) && x !in s
    ensures Distinct(s + [x])
  {
    forall i, j | 0 <= i < j < |s| + 1
      ensures (s + [x])[i] != (s + [x])[j]
    {
      if j == |s| {
        assert (s + [x])[i] == s[i];
      }
    }
  }

  /** Position of the first element that satisfies `p`, or `|s|` when none does. */
  function FirstWhere<T>(s: seq<T>, p: T -> bool): (k: nat)
    ensures k <= |s|
    ensures k < |s| ==> p(s[k])
    ensures forall i :: 0 <= i < k ==> !p(s[i])
  {
    if |s| == 0 || p(s[0]) then 0 else 1 + FirstWhere(s[1..], p)
  }

  /** `xs.filter(p)[0]` is the first element of `xs` that satisfies `p`, and the
      filtered list is empty exactly when no element does. */
  lemma {:induction false} FilterHead<T>(s: seq<T>, p: T -> bool)
    ensures |Filter(s, p)| > 0 <==> FirstWhere(s, p) < |s|
    ensures |Filter(s, p)| > 0 ==> Filter(s, p)[0] == s[FirstWhere(s, p)]
  {
    if |s| > 0 && !p(s[0]) {
      FilterHead(s[1..], p);
      assert Filter(s, p) == Filter(s[1..], p);
    }
  }

  /** The first position where `p` holds is the one before which it never does. */
  lemma FirstWhereIs<T>(s: seq<T>, p: T -> bool, k: nat)
    requires k < |s| && p(s[k]) && forall i :: 0 <= i < k ==> !p(s[i])
    ensures FirstWhere(s, p) == k
  {
  }

  /** `Take` keeps a prefix, so a subsequence. */
  lemma TakePrefix<T>(s: seq<T>, n: nat)
    ensures IsSubsequence(Take(s, n), s)
  {
    if |s| > n {
      PrefixIsSubsequence(s, n);
    } else {
      PrefixIsSubsequence(s, |s|);
      assert s[..|s|] == s;
    }
  }

  lemma {:induction false} PrefixIsSubsequence<T>(s: seq<T>, n: nat)
    requires n <= |s|
    ensures IsSubsequence(s[..n], s)
  {
    if n > 0 {
      PrefixIsSubsequence(s[1..], n - 1);
      assert s[..n][1..] == s[1..][..n - 1];
    } else {
      assert s[..n] == [];
    }
  }

  /** A subsequence of a subsequence is a subsequence. */
  lemma {:induction false} SubsequenceTransitive<T>(a: seq<T>, b: seq<T>, c: seq<T>)
    requires IsSubsequence(a, b) && IsSubsequence(b, c)
    ensures IsSubsequence(a, c)
    decreases |c|
  {
    if |a| > 0 {
      assert |b| > 0 && |c| > 0;
      if b[0] == c[0] && IsSubsequence(b[1..], c[1..]) {
        if a[0] == b[0] && IsSubsequence(a[1..], b[1..]) {
          SubsequenceTransitive(a[1..], b[1..], c[1..]);
        } else {
          SubsequenceTransitive(a, b[1..], c[1..]);
          SubsequenceSkip(a, c);
        }
      } else {
        SubsequenceTransitive(a, b, c[1..]);
        SubsequenceSkip(a, c);
      }
    }
  }
}
