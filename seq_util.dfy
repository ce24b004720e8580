/** Sequence helpers shared by the diff engine and the replicator. */
module SeqUtil {

  /** f applied to each element of xs in order, the results concatenated. */
  function Flatten<X, Y>(f: X -> seq<Y>, xs: seq<X>): seq<Y>
  {
    if xs == [] then [] else Flatten(f, xs[..|xs| - 1]) + f(xs[|xs| - 1])
  }

  /** Every element of a flattening comes from some element of xs. */
  lemma {:induction false} FlattenFrom<X, Y>(f: X -> seq<Y>, xs: seq<X>, y: Y)
    requires y in Flatten(f, xs)
    ensures exists i | 0 <= i < |xs| :: y in f(xs[i])
  {
    var init := xs[..|xs| - 1];
    if y in Flatten(f, init) {
      FlattenFrom(f, init, y);
      var i :| 0 <= i < |init| && y in f(init[i]);
      assert init[i] == xs[i];
    } else {
      assert y in f(xs[|xs| - 1]);
    }
  }

  /** Every element of f(xs[i]) occurs in the flattening. */
  lemma {:induction false} FlattenHas<X, Y>(f: X -> seq<Y>, xs: seq<X>, i: nat, y: Y)
    requires i < |xs| && y in f(xs[i])
    ensures y in Flatten(f, xs)
  {
    var init := xs[..|xs| - 1];
    if i < |init| {
      assert init[i] == xs[i];
      FlattenHas(f, init, i, y);
    }
  }

  /** When f always yields two elements, xs[i]'s pair sits at 2*i. */
  lemma {:induction false} FlattenPairs<X, Y>(f: X -> seq<Y>, xs: seq<X>, i: nat)
    requires forall x | x in xs :: |f(x)| == 2
    requires i < |xs|
    ensures |Flatten(f, xs)| == 2 * |xs|
    ensures Flatten(f, xs)[2 * i..2 * i + 2] == f(xs[i])
  {
    var init := xs[..|xs| - 1];
    assert xs == init + [xs[|xs| - 1]];
    if i < |init| {
      FlattenPairs(f, init, i);
    } else if init != [] {
      FlattenPairs(f, init, 0);
    }
  }

  /**
    When f yields at most n elements, the flattening has at most n*|xs|, and
    exactly n*|xs| when and only when every element yields exactly n.
   */
  lemma {:induction false} FlattenLength<X, Y>(f: X -> seq<Y>, xs: seq<X>, n: nat)
    requires forall x | x in xs :: |f(x)| <= n
    ensures |Flatten(f, xs)| <= n * |xs|
    ensures |Flatten(f, xs)| == n * |xs| <==> forall x | x in xs :: |f(x)| == n
  {
    if xs != [] {
      var init := xs[..|xs| - 1];
      var last := xs[|xs| - 1];
      assert xs == init + [last];
      FlattenLength(f, init, n);
      assert n * |xs| == n * |init| + n;
      if |Flatten(f, xs)| == n * |xs| {
        forall x | x in xs ensures |f(x)| == n {
          if x != last {
            assert x in init;
          }
        }
      }
    }
  }
}
