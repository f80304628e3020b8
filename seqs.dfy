/**
 * Rendering a list of things is always the same shape: render each one and
 * put the results one after the other, in order. `FlatMap` is that shape,
 * for the list items, the columns of a row, the rows of a block, the sections
 * of a document and the image registrations they make.
 */
module Seqs {

  /** `f(xs[0]) + f(xs[1]) + ... + f(xs[|xs| - 1])`. */
  function FlatMap<T, U>(f: T -> seq<U>, xs: seq<T>): seq<U>
    decreases |xs|
  {
    if |xs| == 0 then [] else FlatMap(f, xs[..|xs| - 1]) + f(xs[|xs| - 1])
  }

  lemma FlatMapSnoc<T, U>(f: T -> seq<U>, xs: seq<T>, x: T)
    ensures FlatMap(f, xs + [x]) == FlatMap(f, xs) + f(x)
  {
    assert (xs + [x])[..|xs|] == xs;
  }

  /** The step of a loop that renders `xs[i]` after `xs[..i]`. */
  lemma FlatMapPrefix<T, U>(f: T -> seq<U>, xs: seq<T>, i: int)
    requires 0 <= i < |xs|
    ensures FlatMap(f, xs[..i + 1]) == FlatMap(f, xs[..i]) + f(xs[i])
  {
    assert xs[..i + 1][..i] == xs[..i];
  }

  /** The same step, after a fixed prefix: what an appending loop needs. */
  lemma FlatMapExtend<T, U>(prefix: seq<U>, f: T -> seq<U>, xs: seq<T>, i: int)
    requires 0 <= i < |xs|
    ensures prefix + FlatMap(f, xs[..i]) + f(xs[i]) == prefix + FlatMap(f, xs[..i + 1])
  {
    FlatMapPrefix(f, xs, i);
  }

  lemma FlatMapSingle<T, U>(f: T -> seq<U>, x: T)
    ensures FlatMap(f, [x]) == f(x)
  {
    FlatMapSnoc(f, [], x);
  }

  /** Rendering two lists one after the other is rendering each and concatenating. */
  lemma {:induction false} FlatMapAppend<T, U>(f: T -> seq<U>, a: seq<T>, b: seq<T>)
    ensures FlatMap(f, a + b) == FlatMap(f, a) + FlatMap(f, b)
    decreases |b|
  {
    if |b| == 0 {
      assert a + b == a;
    } else {
      var init, last := b[..|b| - 1], b[|b| - 1];
      assert a + b == (a + init) + [last];
      assert b == init + [last];
      FlatMapAppend(f, a, init);
      FlatMapSnoc(f, a + init, last);
      FlatMapSnoc(f, init, last);
    }
  }

  /** Whatever the rendering holds comes from the rendering of one element. */
  lemma {:induction false} FlatMapMember<T, U>(f: T -> seq<U>, xs: seq<T>, y: U)
    requires y in FlatMap(f, xs)
    ensures exists i :: 0 <= i < |xs| && y in f(xs[i])
    decreases |xs|
  {
    var init, last := xs[..|xs| - 1], xs[|xs| - 1];
    if y !in f(last) {
      FlatMapMember(f, init, y);
      var i :| 0 <= i < |init| && y in f(init[i]);
      assert init[i] == xs[i];
    }
  }

  /** Element `i` renders between the elements before it and those after it. */
  lemma FlatMapAt<T, U>(f: T -> seq<U>, xs: seq<T>, i: int)
    requires 0 <= i < |xs|
    ensures FlatMap(f, xs) == FlatMap(f, xs[..i]) + f(xs[i]) + FlatMap(f, xs[i + 1..])
  {
    assert xs == xs[..i + 1] + xs[i + 1..];
    FlatMapAppend(f, xs[..i + 1], xs[i + 1..]);
    FlatMapPrefix(f, xs, i);
  }

  /** The elements that `keep` accepts, in order. */
  function Filter<T>(keep: T -> bool, xs: seq<T>): (r: seq<T>)
    ensures forall i :: 0 <= i < |r| ==> keep(r[i])
    decreases |xs|
  {
    if |xs| == 0 then []
    else Filter(keep, xs[..|xs| - 1]) + (if keep(xs[|xs| - 1]) then [xs[|xs| - 1]] else [])
  }

  /** Dropping elements that render to nothing does not change the rendering. */
  lemma {:induction false} FlatMapFilter<T, U>(f: T -> seq<U>, keep: T -> bool, xs: seq<T>)
    requires forall i :: 0 <= i < |xs| && !keep(xs[i]) ==> f(xs[i]) == []
    ensures FlatMap(f, Filter(keep, xs)) == FlatMap(f, xs)
    decreases |xs|
  {
    if |xs| > 0 {
      var init, last := xs[..|xs| - 1], xs[|xs| - 1];
      FlatMapFilter(f, keep, init);
      if keep(last) {
        FlatMapSnoc(f, Filter(keep, init), last);
      } else {
        assert Filter(keep, xs) == Filter(keep, init);
      }
    }
  }
}
