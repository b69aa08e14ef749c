/** Order-preserving filtering of sequences (Swift's `Array.filter`) and the
    subsequence relation it establishes. */
module Seqs {

  /** `a` can be obtained from `b` by deleting elements, keeping the order. */
  predicate IsSubsequence<T(==)>(a: seq<T>, b: seq<T>)
    decreases |b|
  {
    && |a| <= |b|
    && (|a| == 0
        || (a[0] == b[0] && IsSubsequence(a[1..], b[1..]))
        || IsSubsequence(a, b[1..]))
  }

  /** Keeps, in order, exactly the elements of `s` that satisfy `p`. */
  function Filter<T(==, !new)>(p: T -> bool, s: seq<T>): (r: seq<T>)
    ensures |r| <= |s|
    ensures forall x :: x in r <==> x in s && p(x)
    ensures forall x :: multiset(r)[x] == if p(x) then multiset(s)[x] else 0
    ensures IsSubsequence(r, s)
  {
    if |s| == 0 then []
    else
      var rest := Filter(p, s[1..]);
      assert s == [s[0]] + s[1..];
      if p(s[0]) then [s[0]] + rest else rest
  }

  /** Filtering distributes over concatenation. */
  lemma {:induction false} FilterAppend<T(!new)>(p: T -> bool, a: seq<T>, b: seq<T>)
    ensures Filter(p, a + b) == Filter(p, a) + Filter(p, b)
    decreases |a|
  {
    if |a| == 0 {
      assert a + b == b;
    } else {
      assert (a + b)[1..] == a[1..] + b;
      FilterAppend(p, a[1..], b);
    }
  }

  /** Overwriting a position whose old and new values are both rejected by
      `p` does not change the filtered sequence. */
  lemma {:induction false} FilterUpdateRejected<T(!new)>(p: T -> bool, s: seq<T>, k: nat, x: T)
    requires k < |s|
    requires !p(s[k]) && !p(x)
    ensures Filter(p, s[k := x]) == Filter(p, s)
    decreases |s|
  {
    if k == 0 {
      assert s[k := x][1..] == s[1..];
    } else {
      assert s[k := x][1..] == s[1..][k - 1 := x];
      FilterUpdateRejected(p, s[1..], k - 1, x);
    }
  }

  /** Filtering keeps a sequence whose elements all satisfy `p` intact. */
  lemma {:induction false} FilterKeepsSatisfying<T(!new)>(p: T -> bool, s: seq<T>)
    requires forall i :: 0 <= i < |s| ==> p(s[i])
    ensures Filter(p, s) == s
    decreases |s|
  {
    if |s| > 0 {
      var tail := s[1..];
      forall i | 0 <= i < |tail| ensures p(tail[i]) {
        assert tail[i] == s[i + 1];
      }
      FilterKeepsSatisfying(p, tail);
      assert p(s[0]);
      assert Filter(p, s) == [s[0]] + Filter(p, tail);
      assert s == [s[0]] + tail;
    }
  }

  /** Every element of `s` satisfies `p` exactly when filtering keeps all of `s`. */
  lemma FilterKeepsAll<T(!new)>(p: T -> bool, s: seq<T>)
    ensures Filter(p, s) == s <==> forall i :: 0 <= i < |s| ==> p(s[i])
  {
    if forall i :: 0 <= i < |s| ==> p(s[i]) {
      FilterKeepsSatisfying(p, s);
    } else {
      var i :| 0 <= i < |s| && !p(s[i]);
      assert s[i] !in Filter(p, s);
    }
  }

  /** Deleting elements twice is deleting elements once. */
  lemma {:induction false} SubsequenceTransitive<T>(a: seq<T>, b: seq<T>, c: seq<T>)
    requires IsSubsequence(a, b) && IsSubsequence(b, c)
    ensures IsSubsequence(a, c)
    decreases |c|
  {
    if |a| > 0 {
      if IsSubsequence(b, c[1..]) {
        SubsequenceTransitive(a, b, c[1..]);
      } else if a[0] == b[0] && IsSubsequence(a[1..], b[1..]) {
        SubsequenceTransitive(a[1..], b[1..], c[1..]);
      } else {
        SubsequenceTransitive(a, b[1..], c[1..]);
      }
    }
  }

  /** The contributions `f(xs[0]) + f(xs[1]) + ...`, accumulated left to
      right as `append(contentsOf:)` does. */
  function FlatMap<T, U(==, !new)>(f: T -> seq<U>, xs: seq<T>): (r: seq<U>)
    ensures forall y :: y in r <==> exists j :: 0 <= j < |xs| && y in f(xs[j])
    decreases |xs|
  {
    if |xs| == 0 then []
    else
      var init := xs[..|xs| - 1];
      var rest := FlatMap(f, init);
      assert forall j :: 0 <= j < |init| ==> init[j] == xs[j];
      rest + f(xs[|xs| - 1])
  }

  /** One more element appends its contribution. */
  lemma FlatMapSnoc<T, U(!new)>(f: T -> seq<U>, xs: seq<T>, x: T)
    ensures FlatMap(f, xs + [x]) == FlatMap(f, xs) + f(x)
  {
    assert (xs + [x])[..|xs|] == xs;
  }

  /** The contribution of a concatenation is the concatenation of the
      contributions. */
  lemma {:induction false} FlatMapAppend<T, U(!new)>(f: T -> seq<U>, xs: seq<T>, ys: seq<T>)
    ensures FlatMap(f, xs + ys) == FlatMap(f, xs) + FlatMap(f, ys)
    decreases |ys|
  {
    if |ys| == 0 {
      assert xs + ys == xs;
    } else {
      var ys' := ys[..|ys| - 1];
      var last := ys[|ys| - 1];
      assert ys == ys' + [last];
      assert xs + ys == (xs + ys') + [last];
      calc {
        FlatMap(f, xs + ys);
        { FlatMapSnoc(f, xs + ys', last); }
        FlatMap(f, xs + ys') + f(last);
        { FlatMapAppend(f, xs, ys'); }
        FlatMap(f, xs) + FlatMap(f, ys') + f(last);
        { FlatMapSnoc(f, ys', last); }
        FlatMap(f, xs) + FlatMap(f, ys);
      }
    }
  }

  /** Reordering the inputs permutes the output: the multiset of
      contributions does not depend on the order. */
  lemma {:induction false} FlatMapPermutation<T, U(!new)>(f: T -> seq<U>, xs: seq<T>, ys: seq<T>)
    requires multiset(xs) == multiset(ys)
    ensures multiset(FlatMap(f, xs)) == multiset(FlatMap(f, ys))
    decreases |xs|
  {
    if |xs| == 0 {
      assert |ys| == |multiset(ys)| == 0;
    } else {
      var x := xs[|xs| - 1];
      var xs' := xs[..|xs| - 1];
      assert xs == xs' + [x];
      assert x in multiset(ys);
      var k :| 0 <= k < |ys| && ys[k] == x;
      var before, after := ys[..k], ys[k + 1..];
      assert ys == before + [x] + after;
      RemoveOne(xs', x, before, after);
      FlatMapPermutation(f, xs', before + after);
      FlatMapSnoc(f, xs', x);
      FlatMapMiddle(f, before, x, after);
    }
  }

  /** Elements whose contribution is empty can be dropped beforehand. */
  lemma {:induction false} FlatMapSkipsEmpty<T(!new), U(!new)>(f: T -> seq<U>, p: T -> bool, xs: seq<T>)
    requires forall x :: !p(x) ==> f(x) == []
    ensures FlatMap(f, xs) == FlatMap(f, Filter(p, xs))
    decreases |xs|
  {
    if |xs| > 0 {
      var init, last := xs[..|xs| - 1], xs[|xs| - 1];
      assert xs == init + [last];
      FlatMapSkipsEmpty(f, p, init);
      FilterAppend(p, init, [last]);
      FlatMapSnoc(f, init, last);
      if p(last) {
        assert Filter(p, [last]) == [last];
        FlatMapSnoc(f, Filter(p, init), last);
      } else {
        assert Filter(p, [last]) == [];
        assert Filter(p, init) + [] == Filter(p, init);
      }
    }
  }

  /** Taking the same element out of two permutations of each other leaves
      permutations of each other. */
  lemma RemoveOne<T>(xs: seq<T>, x: T, before: seq<T>, after: seq<T>)
    requires multiset(xs + [x]) == multiset(before + [x] + after)
    ensures multiset(xs) == multiset(before + after)
  {
    assert multiset(xs + [x]) == multiset(xs) + multiset{x};
    assert multiset(before + [x] + after) == multiset(before) + multiset{x} + multiset(after);
    assert multiset(before + after) == multiset(before) + multiset(after);
    calc {
      multiset(xs);
      multiset(xs + [x]) - multiset{x};
      multiset(before + [x] + after) - multiset{x};
      multiset(before) + multiset(after);
    }
  }

  /** Moving one element to the end moves its contribution to the end. */
  lemma FlatMapMiddle<T, U(!new)>(f: T -> seq<U>, before: seq<T>, x: T, after: seq<T>)
    ensures multiset(FlatMap(f, before + [x] + after)) == multiset(FlatMap(f, before + after) + f(x))
  {
    FlatMapAppend(f, before + [x], after);
    FlatMapSnoc(f, before, x);
    FlatMapAppend(f, before, after);
    assert multiset(FlatMap(f, before) + f(x) + FlatMap(f, after))
        == multiset(FlatMap(f, before) + FlatMap(f, after) + f(x));
  }

  /** Every sequence is a subsequence of itself. */
  lemma {:induction false} SubsequenceReflexive<T>(s: seq<T>)
    ensures IsSubsequence(s, s)
    decreases |s|
  {
    if |s| > 0 {
      SubsequenceReflexive(s[1..]);
    }
  }
}
