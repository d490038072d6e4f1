/** Facts about sequences shared by the model. */
module Seqs {
  import opened Wrappers

  /** The position of the first element that satisfies `f`: the scan that
      breaks out of its loop at the first hit. */
  function FirstWhere<T>(xs: seq<T>, f: T -> bool): (r: Option<nat>)
    ensures r.Some? ==> r.value < |xs| && f(xs[r.value])
    ensures r.Some? ==> forall j | 0 <= j < r.value :: !f(xs[j])
    ensures r.None? ==> forall j | 0 <= j < |xs| :: !f(xs[j])
    decreases |xs|
  {
    if xs == [] then None
    else if f(xs[0]) then Some(0)
    else
      match FirstWhere(xs[1..], f)
      case None => None
      case Some(j) => Some(j + 1)
  }

  /** A scan that has passed the first `i` elements without a hit stops at
      element `i` when it satisfies `f`, and finds nothing when `i` is the
      end. */
  lemma FirstWhereAt<T>(xs: seq<T>, f: T -> bool, i: nat)
    requires i <= |xs| && forall j | 0 <= j < i :: !f(xs[j])
    ensures i < |xs| && f(xs[i]) ==> FirstWhere(xs, f) == Some(i)
    ensures i == |xs| ==> FirstWhere(xs, f).None?
  {
    var r := FirstWhere(xs, f);
    if r.Some? {
      assert f(xs[r.value]);
      assert r.value >= i;
    }
  }

  /** Some element of `p + [x]` satisfies `f` exactly when some element of
      `p` does, or `x` does. */
  lemma SomeInSnoc<T>(p: seq<T>, x: T, f: T -> bool)
    ensures (exists i | 0 <= i < |p + [x]| :: f((p + [x])[i])) <==>
      (exists i | 0 <= i < |p| :: f(p[i])) || f(x)
  {
    assert forall i | 0 <= i < |p| :: (p + [x])[i] == p[i];
    assert (p + [x])[|p|] == x;
  }

  /** The outputs of `f` over `xs`, concatenated in order. */
  function Flatten<T, U>(xs: seq<T>, f: T -> seq<U>): seq<U>
    decreases |xs|
  {
    if xs == [] then [] else Flatten(xs[..|xs| - 1], f) + f(xs[|xs| - 1])
  }

  /** One more element adds its own output at the end. */
  lemma FlattenSnoc<T, U>(xs: seq<T>, x: T, f: T -> seq<U>)
    ensures Flatten(xs + [x], f) == Flatten(xs, f) + f(x)
  {
    assert (xs + [x])[..|xs|] == xs;
  }

  /** Flattening the two parts of a split sequence and concatenating gives
      the flattening of the whole. */
  lemma {:induction false} FlattenSplit<T, U>(a: seq<T>, b: seq<T>, f: T -> seq<U>)
    ensures Flatten(a + b, f) == Flatten(a, f) + Flatten(b, f)
    decreases |b|
  {
    if b == [] {
      assert a + b == a;
    } else {
      var b', last := b[..|b| - 1], b[|b| - 1];
      var ab' := a + b';
      assert b == b' + [last];
      assert a + b == ab' + [last];
      FlattenSplit(a, b', f);
      FlattenSnoc(ab', last, f);
      FlattenSnoc(b', last, f);
      ConcatAssociative(Flatten(a, f), Flatten(b', f), f(last));
    }
  }

  lemma ConcatAssociative<U>(x: seq<U>, y: seq<U>, z: seq<U>)
    ensures (x + y) + z == x + (y + z)
  {
  }

  /** The union of the outputs of `f` over `xs`. */
  function UnionOf<T, U>(xs: seq<T>, f: T -> set<U>): set<U>
    decreases |xs|
  {
    if xs == [] then {} else UnionOf(xs[..|xs| - 1], f) + f(xs[|xs| - 1])
  }

  /** One more element adds its own output. */
  lemma UnionOfStep<T, U>(xs: seq<T>, i: nat, f: T -> set<U>)
    requires i < |xs|
    ensures UnionOf(xs[..i + 1], f) == UnionOf(xs[..i], f) + f(xs[i])
  {
    assert xs[..i + 1][..i] == xs[..i];
  }

  /** An element is in the union exactly when some output holds it. */
  lemma {:induction false} InUnionOf<T, U>(xs: seq<T>, f: T -> set<U>, u: U)
    ensures u in UnionOf(xs, f) <==> exists i | 0 <= i < |xs| :: u in f(xs[i])
    decreases |xs|
  {
    if xs != [] {
      var init, last := xs[..|xs| - 1], xs[|xs| - 1];
      var holds := (x: T) => u in f(x);
      InUnionOf(init, f, u);
      assert xs == init + [last];
      SomeInSnoc(init, last, holds);
      assert forall i | 0 <= i < |init| :: holds(init[i]) == (u in f(init[i]));
      assert forall i | 0 <= i < |xs| :: holds(xs[i]) == (u in f(xs[i]));
    }
  }

  /** Replacing one element by one that still contributes everything the
      old one did outside `lost` loses at most `lost`. */
  lemma UnionOfReplace<T, U>(xs: seq<T>, f: T -> set<U>, i: nat, y: T, lost: set<U>)
    requires i < |xs|
    requires f(xs[i]) - lost <= f(y)
    ensures UnionOf(xs, f) - lost <= UnionOf(xs[i := y], f)
  {
    forall u | u in UnionOf(xs, f) - lost
      ensures u in UnionOf(xs[i := y], f)
    {
      InUnionOf(xs, f, u);
      var j :| 0 <= j < |xs| && u in f(xs[j]);
      assert u in f(xs[i := y][j]);
      InUnionOf(xs[i := y], f, u);
    }
  }

  /** One more element adds exactly its output. */
  lemma UnionOfAppend<T, U>(xs: seq<T>, f: T -> set<U>, y: T)
    ensures UnionOf(xs + [y], f) == UnionOf(xs, f) + f(y)
  {
    assert (xs + [y])[..|xs|] == xs;
  }
}
