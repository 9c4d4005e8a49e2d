/** Sequence utilities shared by the scanner, the walker and the fetcher. */
module Lists {
  /** LINQ's `Select`: `f` applied to every element, in order. */
  function Map<T, U>(xs: seq<T>, f: T -> U): (ys: seq<U>)
    ensures |ys| == |xs|
  {
    if xs == [] then [] else Map(xs[..|xs| - 1], f) + [f(xs[|xs| - 1])]
  }

  /** The i-th result is `f` of the i-th element. */
  lemma {:induction false} MapAt<T, U>(xs: seq<T>, f: T -> U, i: int)
    requires 0 <= i < |xs|
    ensures Map(xs, f)[i] == f(xs[i])
  {
    var init := xs[..|xs| - 1];
    if i < |init| {
      MapAt(init, f, i);
      assert xs[i] == init[i];
    }
  }

  /** Mapping distributes over concatenation. */
  lemma {:induction false} MapAppend<T, U>(a: seq<T>, b: seq<T>, f: T -> U)
    ensures Map(a + b, f) == Map(a, f) + Map(b, f)
  {
    if b == [] {
      assert a + b == a;
    } else {
      var init, last := b[..|b| - 1], b[|b| - 1];
      var ab := a + b;
      assert ab[..|ab| - 1] == a + init;
      assert ab[|ab| - 1] == last;
      MapAppend(a, init, f);
      calc {
        Map(ab, f);
        Map(a + init, f) + [f(last)];
        (Map(a, f) + Map(init, f)) + [f(last)];
        Map(a, f) + (Map(init, f) + [f(last)]);
        Map(a, f) + Map(b, f);
      }
    }
  }

  /** Mapping a sequence one element longer. */
  lemma {:induction false} MapSnoc<T, U>(xs: seq<T>, x: T, f: T -> U)
    ensures Map(xs + [x], f) == Map(xs, f) + [f(x)]
  {
    var ys := xs + [x];
    assert ys[..|ys| - 1] == xs;
  }

  /** LINQ's `Where`: the elements satisfying `p`, in order, duplicates kept. */
  function Filter<T>(xs: seq<T>, p: T -> bool): (ys: seq<T>)
    ensures |ys| <= |xs|
  {
    if xs == [] then [] else Filter(xs[..|xs| - 1], p) + (if p(xs[|xs| - 1]) then [xs[|xs| - 1]] else [])
  }

  /** An element is kept exactly when it occurs and satisfies `p`. */
  lemma {:induction false} FilterMembership<T>(xs: seq<T>, p: T -> bool, x: T)
    ensures x in Filter(xs, p) <==> x in xs && p(x)
  {
    if xs != [] {
      var init := xs[..|xs| - 1];
      FilterMembership(init, p, x);
      assert xs == init + [xs[|xs| - 1]];
    }
  }

  /** An element satisfying `p` is kept as often as it occurs; any other never. */
  lemma {:induction false} FilterMultiplicity<T>(xs: seq<T>, p: T -> bool, x: T)
    ensures multiset(Filter(xs, p))[x] == if p(x) then multiset(xs)[x] else 0
  {
    if xs != [] {
      var init, last := xs[..|xs| - 1], xs[|xs| - 1];
      FilterMultiplicity(init, p, x);
      assert xs == init + [last];
      assert multiset(xs) == multiset(init) + multiset{last};
    }
  }

  /** Filtering distributes over concatenation. */
  lemma {:induction false} FilterAppend<T>(a: seq<T>, b: seq<T>, p: T -> bool)
    ensures Filter(a + b, p) == Filter(a, p) + Filter(b, p)
  {
    if b == [] {
      assert a + b == a;
    } else {
      var init, last := b[..|b| - 1], b[|b| - 1];
      var ab := a + b;
      assert ab[..|ab| - 1] == a + init;
      assert ab[|ab| - 1] == last;
      FilterAppend(a, init, p);
      var tail := if p(last) then [last] else [];
      calc {
        Filter(ab, p);
        Filter(a + init, p) + tail;
        (Filter(a, p) + Filter(init, p)) + tail;
        Filter(a, p) + (Filter(init, p) + tail);
        Filter(a, p) + Filter(b, p);
      }
    }
  }

  /** Filtering a sequence one element longer. */
  lemma {:induction false} FilterSnoc<T>(xs: seq<T>, x: T, p: T -> bool)
    ensures Filter(xs + [x], p) == Filter(xs, p) + (if p(x) then [x] else [])
  {
    var ys := xs + [x];
    assert ys[..|ys| - 1] == xs;
  }

  /** When no element satisfies `p`, nothing is kept. */
  lemma {:induction false} FilterNone<T>(xs: seq<T>, p: T -> bool)
    requires forall i :: 0 <= i < |xs| ==> !p(xs[i])
    ensures Filter(xs, p) == []
  {
    if xs != [] {
      FilterNone(xs[..|xs| - 1], p);
    }
  }

  /** The elements whose verdict in `keep` is true, in order. */
  function Pick<T>(xs: seq<T>, keep: seq<bool>): (ys: seq<T>)
    requires |keep| == |xs|
    ensures |ys| <= |xs|
  {
    if xs == [] then []
    else Pick(xs[..|xs| - 1], keep[..|keep| - 1]) + (if keep[|keep| - 1] then [xs[|xs| - 1]] else [])
  }

  /** Picking from a prefix one element longer. */
  lemma {:induction false} PickPrefixSnoc<T>(xs: seq<T>, keep: seq<bool>, i: int, k: bool)
    requires 0 <= i < |xs| && |keep| == i
    ensures Pick(xs[..i + 1], keep + [k]) == Pick(xs[..i], keep) + (if k then [xs[i]] else [])
  {
    var ys, ks := xs[..i + 1], keep + [k];
    assert ys[..|ys| - 1] == xs[..i];
    assert ks[..|ks| - 1] == keep;
  }

  /** Picking from the empty prefix. */
  lemma {:induction false} PickPrefixEmpty<T>(xs: seq<T>)
    ensures Pick(xs[..0], []) == []
  {
    assert xs[..0] == [];
  }

  /** Picking by the verdicts of `p` is filtering by `p`. */
  lemma {:induction false} PickIsFilter<T>(xs: seq<T>, keep: seq<bool>, p: T -> bool)
    requires |keep| == |xs|
    requires forall j :: 0 <= j < |xs| ==> keep[j] == p(xs[j])
    ensures Pick(xs, keep) == Filter(xs, p)
  {
    if xs != [] {
      var init, kinit := xs[..|xs| - 1], keep[..|keep| - 1];
      forall j | 0 <= j < |init| ensures kinit[j] == p(init[j]) {
        assert kinit[j] == keep[j] && init[j] == xs[j];
      }
      PickIsFilter(init, kinit, p);
    }
  }

  /**
   * A log that grows by one entry after a run of entries. Dafny knows this
   * regrouping; naming it at the call spares the solver a search inside
   * the download loop.
   */
  lemma {:induction false} AppendSnoc<T>(log: seq<T>, run: seq<T>, x: T)
    ensures log + run + [x] == log + (run + [x])
  {
  }

  /** Recording the verdict of `p` on one more element keeps the verdicts in step with `xs`. */
  lemma {:induction false} VerdictsSnoc<T>(xs: seq<T>, verdicts: seq<bool>, p: T -> bool, b: bool)
    requires |verdicts| < |xs| && b == p(xs[|verdicts|])
    requires forall j {:trigger verdicts[j]} :: 0 <= j < |verdicts| ==> verdicts[j] == p(xs[j])
    ensures forall j {:trigger (verdicts + [b])[j]} :: 0 <= j < |verdicts| + 1 ==> (verdicts + [b])[j] == p(xs[j])
  {
    forall j | 0 <= j < |verdicts| + 1
      ensures (verdicts + [b])[j] == p(xs[j])
    {
      if j < |verdicts| {
        assert (verdicts + [b])[j] == verdicts[j];
      }
    }
  }
}
