/** Vocabulary about sequences shared by every other module. */
module Lists {

  datatype Option<+T> = None | Some(value: T)

  ghost function Elems<T>(q: seq<T>): set<T> {
    set x | x in q
  }

  ghost predicate Distinct<T>(q: seq<T>) {
    forall i, j :: 0 <= i < j < |q| ==> q[i] != q[j]
  }

  /** The concatenation of `f(x)` for every `x` of `xs`, in order. */
  ghost function FlatMap<A, B>(xs: seq<A>, f: A -> seq<B>): seq<B> {
    if xs == [] then [] else FlatMap(xs[..|xs| - 1], f) + f(xs[|xs| - 1])
  }

  lemma FlatMapSnoc<A, B>(xs: seq<A>, i: nat, f: A -> seq<B>)
    requires i < |xs|
    ensures FlatMap(xs[..i + 1], f) == FlatMap(xs[..i], f) + f(xs[i])
  {
    assert xs[..i + 1][..i] == xs[..i];
  }

  lemma {:induction false} FlatMapElems<A, B>(xs: seq<A>, f: A -> seq<B>, y: B)
    ensures y in FlatMap(xs, f) <==> exists x :: x in xs && y in f(x)
  {
    if xs == [] {
    } else {
      var front, last := xs[..|xs| - 1], xs[|xs| - 1];
      FlatMapElems(front, f, y);
      assert xs == front + [last];
    }
  }

  lemma {:induction false} FlatMapAppend<A, B>(xs: seq<A>, ys: seq<A>, f: A -> seq<B>)
    ensures FlatMap(xs + ys, f) == FlatMap(xs, f) + FlatMap(ys, f)
  {
    if ys == [] {
      assert xs + ys == xs;
    } else {
      assert (xs + ys)[..|xs + ys| - 1] == xs + ys[..|ys| - 1];
      FlatMapAppend(xs, ys[..|ys| - 1], f);
    }
  }

  ghost predicate Ordered<T>(q: seq<T>, before: (T, T) -> bool) {
    forall i, j :: 0 <= i < j < |q| ==> before(q[i], q[j])
  }

  /** Every element of the one comes before every element of the other. */
  ghost predicate AllBefore<T>(p: seq<T>, q: seq<T>, before: (T, T) -> bool) {
    forall x, y :: x in p && y in q ==> before(x, y)
  }

  lemma {:induction false} FlatMapOrdered<A, B>(xs: seq<A>, f: A -> seq<B>, before: (B, B) -> bool)
    requires forall i :: 0 <= i < |xs| ==> Ordered(f(xs[i]), before)
    requires forall i, j :: 0 <= i < j < |xs| ==> AllBefore(f(xs[i]), f(xs[j]), before)
    ensures Ordered(FlatMap(xs, f), before)
  {
    if xs == [] {
    } else {
      var front, n := xs[..|xs| - 1], |xs| - 1;
      FlatMapOrdered(front, f, before);
      forall x, y | x in FlatMap(front, f) && y in f(xs[n]) ensures before(x, y) {
        FlatMapElems(front, f, x);
        var a :| a in front && x in f(a);
        var i :| 0 <= i < n && front[i] == a;
        assert AllBefore(f(xs[i]), f(xs[n]), before);
      }
      var p, q := FlatMap(front, f), f(xs[n]);
      forall i, j | 0 <= i < j < |p + q| ensures before((p + q)[i], (p + q)[j]) {
        if i < |p| && j >= |p| { assert p[i] in p && q[j - |p|] in q; }
      }
    }
  }

  lemma EmptyElems<T>(q: seq<T>)
    ensures Elems(q) == {} <==> q == []
  {
    if q != [] { assert q[0] in Elems(q); }
  }

  /** A list without repetitions is as long as the set of its elements. */
  lemma {:induction false} DistinctSize<T>(q: seq<T>)
    requires Distinct(q)
    ensures |Elems(q)| == |q|
  {
    if q == [] {
    } else {
      var front, last := q[..|q| - 1], q[|q| - 1];
      DistinctSize(front);
      assert Elems(q) == Elems(front) + {last};
    }
  }

  lemma DistinctSnoc<T>(q: seq<T>, x: T)
    requires Distinct(q) && x !in Elems(q)
    ensures Distinct(q + [x]) && Elems(q + [x]) == Elems(q) + {x}
    ensures x !in q
  {
    assert forall y :: y in q ==> y in Elems(q);
  }

  lemma PermutationElems<T>(p: seq<T>, q: seq<T>)
    requires multiset(p) == multiset(q)
    ensures Elems(p) == Elems(q)
  {
    forall x ensures x in p <==> x in q {
      assert x in p <==> x in multiset(p);
    }
  }

  lemma PermutationDistinct<T>(p: seq<T>, q: seq<T>)
    requires multiset(p) == multiset(q) && Distinct(q)
    ensures Distinct(p)
  {
    forall i, j | 0 <= i < j < |p| ensures p[i] != p[j] {
      if p[i] == p[j] {
        assert p == p[..i] + [p[i]] + p[i + 1..j] + [p[j]] + p[j + 1..];
        assert multiset(p)[p[i]] >= 2;
        DistinctCount(q, p[i]);
      }
    }
  }

  lemma {:induction false} DistinctCount<T>(q: seq<T>, x: T)
    requires Distinct(q)
    ensures multiset(q)[x] <= 1
  {
    if q == [] {
    } else {
      var front, last := q[..|q| - 1], q[|q| - 1];
      assert q == front + [last];
      DistinctCount(front, x);
      if x == last {
        assert x !in front;
        assert x !in multiset(front);
      }
    }
  }

  ghost function Concat<T>(xs: seq<seq<T>>): seq<T> {
    if xs == [] then [] else Concat(xs[..|xs| - 1]) + xs[|xs| - 1]
  }

  lemma ConcatSnoc<T>(xs: seq<seq<T>>, i: nat)
    requires i < |xs|
    ensures Concat(xs[..i + 1]) == Concat(xs[..i]) + xs[i]
  {
    assert xs[..i + 1][..i] == xs[..i];
  }

  lemma {:induction false} ConcatAppend<T>(xs: seq<seq<T>>, ys: seq<seq<T>>)
    ensures Concat(xs + ys) == Concat(xs) + Concat(ys)
  {
    if ys == [] {
      assert xs + ys == xs;
    } else {
      var all, front, last := xs + ys, ys[..|ys| - 1], ys[|ys| - 1];
      ConcatAppend(xs, front);
      assert all[..|all| - 1] == xs + front && all[|all| - 1] == last;
      assert Concat(all) == Concat(xs + front) + last;
    }
  }

  lemma {:induction false} ConcatElems<T>(xs: seq<seq<T>>, x: T)
    ensures x in Concat(xs) <==> exists i :: 0 <= i < |xs| && x in xs[i]
  {
    if xs == [] {
    } else {
      var front := xs[..|xs| - 1];
      ConcatElems(front, x);
      if i :| 0 <= i < |front| && x in front[i] { assert x in xs[i]; }
      if i :| 0 <= i < |xs| && x in xs[i] { assert i < |front| ==> x in front[i]; }
    }
  }

  // ----- Runs -----

  /** The state after these events, one after the other. */
  ghost function Fold<S, E>(next: (S, E) -> S, s: S, es: seq<E>): S {
    if es == [] then s else next(Fold(next, s, es[..|es| - 1]), es[|es| - 1])
  }

  lemma {:induction false} FoldAppend<S, E>(next: (S, E) -> S, s: S, a: seq<E>, b: seq<E>)
    ensures Fold(next, s, a + b) == Fold(next, Fold(next, s, a), b)
  {
    if b == [] {
      assert a + b == a;
    } else {
      assert (a + b)[..|a + b| - 1] == a + b[..|b| - 1];
      FoldAppend(next, s, a, b[..|b| - 1]);
    }
  }

  lemma FoldOne<S, E>(next: (S, E) -> S, s: S, e: E)
    ensures Fold(next, s, [e]) == next(s, e)
  {
    assert [e][..0] == [];
  }

  /** The states a run goes through. */
  ghost predicate Chain<S, E>(next: (S, E) -> S, states: seq<S>, es: seq<E>) {
    |states| == |es| + 1 && forall i :: 0 <= i < |es| ==> states[i + 1] == next(states[i], es[i])
  }

  lemma {:induction false} ChainIsFold<S, E>(next: (S, E) -> S, states: seq<S>, es: seq<E>)
    requires Chain(next, states, es)
    ensures Fold(next, states[0], es) == states[|es|]
  {
    if es == [] {
    } else {
      var n := |es| - 1;
      ChainIsFold(next, states[..n + 1], es[..n]);
    }
  }
}
