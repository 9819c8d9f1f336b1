/**
  Sequence helpers that stand in for the LINQ operators the source uses:
  `Where` (Filter), `First` (FirstIndex), `Any`, `Count` and the
  order-preserving "is a subsequence of" relation.
 */
module Seqs {

  /** The elements of `s` satisfying `p`, in their original order (LINQ `Where`). */
  function Filter<T(==)>(s: seq<T>, p: T -> bool): (r: seq<T>)
    ensures |r| <= |s|
    ensures forall i :: 0 <= i < |r| ==> r[i] in s && p(r[i])
    ensures forall i :: 0 <= i < |s| && p(s[i]) ==> s[i] in r
    decreases |s|
  {
    if s == [] then []
    else Filter(s[..|s| - 1], p) + (if p(s[|s| - 1]) then [s[|s| - 1]] else [])
  }

  lemma {:induction false} FilterAppend<T>(a: seq<T>, b: seq<T>, p: T -> bool)
    ensures Filter(a + b, p) == Filter(a, p) + Filter(b, p)
    decreases |b|
  {
    if b == [] {
      assert a + b == a;
    } else {
      var b' := b[..|b| - 1];
      assert (a + b)[..|a + b| - 1] == a + b';
      assert (a + b)[|a + b| - 1] == b[|b| - 1];
      FilterAppend(a, b', p);
    }
  }

  /** Filtering keeps every element that passes and nothing else, so a
      sequence whose elements all pass is its own filter. */
  lemma {:induction false} FilterAll<T>(s: seq<T>, p: T -> bool)
    requires forall i :: 0 <= i < |s| ==> p(s[i])
    ensures Filter(s, p) == s
    decreases |s|
  {
    if s != [] {
      FilterAll(s[..|s| - 1], p);
      assert s[..|s| - 1] + [s[|s| - 1]] == s;
    }
  }

  /** `Where` keeps the input order. */
  lemma {:induction false} FilterSubsequence<T>(s: seq<T>, p: T -> bool)
    ensures Subsequence(Filter(s, p), s)
    decreases |s|
  {
    if s != [] {
      var init := s[..|s| - 1];
      FilterSubsequence(init, p);
      SubsequenceSnoc(Filter(init, p), init, s[|s| - 1], p(s[|s| - 1]));
      assert init + [s[|s| - 1]] == s;
    }
  }

  /** Appending the same element to both sides, or only to the longer one,
      keeps a subsequence. */
  lemma {:induction false} SubsequenceSnoc<T>(a: seq<T>, b: seq<T>, x: T, keep: bool)
    requires Subsequence(a, b)
    ensures Subsequence(a + (if keep then [x] else []), b + [x])
    decreases |b|
  {
    var a' := a + (if keep then [x] else []);
    if a == [] {
      if keep {
        assert a' == [x];
        SubsequenceAppendOne(x, b);
      }
    } else if a[0] == b[0] {
      SubsequenceSnoc(a[1..], b[1..], x, keep);
      assert a'[1..] == a[1..] + (if keep then [x] else []);
      assert (b + [x])[1..] == b[1..] + [x];
    } else {
      SubsequenceSnoc(a, b[1..], x, keep);
      assert (b + [x])[1..] == b[1..] + [x];
    }
  }

  /** A single element is a subsequence of any sequence ending in it. */
  lemma {:induction false} SubsequenceAppendOne<T>(x: T, b: seq<T>)
    ensures Subsequence([x], b + [x])
    decreases |b|
  {
    if b != [] {
      SubsequenceAppendOne(x, b[1..]);
      assert (b + [x])[1..] == b[1..] + [x];
    }
  }

  /** The index of the first element satisfying `p` (LINQ `First`). */
  function FirstIndex<T>(s: seq<T>, p: T -> bool): (i: nat)
    requires exists j :: 0 <= j < |s| && p(s[j])
    ensures i < |s| && p(s[i])
    ensures forall j :: 0 <= j < i ==> !p(s[j])
    decreases |s|
  {
    if p(s[0]) then 0
    else
      assert exists j :: 0 <= j < |s[1..]| && p(s[1..][j]) by {
        var j :| 0 <= j < |s| && p(s[j]);
        assert j != 0 && p(s[1..][j - 1]);
      }
      1 + FirstIndex(s[1..], p)
  }

  /** The number of occurrences of `x` in `s`. */
  function Count<T(==)>(s: seq<T>, x: T): (n: nat)
    ensures n == multiset(s)[x]
    decreases |s|
  {
    if s == [] then 0
    else
      assert s == [s[0]] + s[1..];
      (if s[0] == x then 1 else 0) + Count(s[1..], x)
  }

  /** `a` is obtained from `b` by deleting elements: the survivors keep their relative order. */
  predicate Subsequence<T(==)>(a: seq<T>, b: seq<T>)
    decreases |b|
  {
    if a == [] then true
    else if b == [] then false
    else if a[0] == b[0] then Subsequence(a[1..], b[1..])
    else Subsequence(a, b[1..])
  }

  lemma {:induction false} SubsequenceReflexive<T>(a: seq<T>)
    ensures Subsequence(a, a)
    decreases |a|
  {
    if a != [] {
      SubsequenceReflexive(a[1..]);
    }
  }

  /** Dropping the head of a subsequence keeps it a subsequence. */
  lemma {:induction false} SubsequenceTail<T>(a: seq<T>, b: seq<T>)
    requires a != [] && Subsequence(a, b)
    ensures Subsequence(a[1..], b)
    decreases |b|, 2
  {
    if a[0] == b[0] {
      SubsequenceDropHead(a[1..], b);
    } else {
      SubsequenceTail(a, b[1..]);
      SubsequenceDropHead(a[1..], b);
    }
  }

  /** A subsequence of the tail of `b` is a subsequence of `b`. */
  lemma {:induction false} SubsequenceDropHead<T>(a: seq<T>, b: seq<T>)
    requires b != [] && Subsequence(a, b[1..])
    ensures Subsequence(a, b)
    decreases |b|, 1
  {
    if a != [] && a[0] == b[0] {
      SubsequenceTail(a, b[1..]);
    }
  }

  lemma {:induction false} SubsequenceTransitive<T>(a: seq<T>, b: seq<T>, c: seq<T>)
    requires Subsequence(a, b) && Subsequence(b, c)
    ensures Subsequence(a, c)
    decreases |c|
  {
    if a == [] {
    } else if b[0] == c[0] {
      if a[0] == b[0] {
        SubsequenceTransitive(a[1..], b[1..], c[1..]);
      } else {
        SubsequenceTransitive(a, b[1..], c[1..]);
        SubsequenceDropHead(a, c);
      }
    } else {
      SubsequenceTransitive(a, b, c[1..]);
      SubsequenceDropHead(a, c);
    }
  }

  /** A relation that holds position by position keeps holding after one
      more related pair is appended to both sides. */
  lemma {:induction false} PairwiseSnoc<A, B>(xs: seq<A>, ys: seq<B>, x: A, y: B, rel: (A, B) -> bool)
    requires |xs| == |ys| && rel(x, y)
    requires forall i :: 0 <= i < |xs| ==> rel(xs[i], ys[i])
    ensures forall i :: 0 <= i < |xs| + 1 ==> rel((xs + [x])[i], (ys + [y])[i])
  {
    forall i | 0 <= i < |xs| + 1 ensures rel((xs + [x])[i], (ys + [y])[i]) {
      if i < |xs| {
        assert (xs + [x])[i] == xs[i] && (ys + [y])[i] == ys[i];
      }
    }
  }
}
