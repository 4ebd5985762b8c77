/** Sequence helpers shared by the loops that flatten nested iterations. */
module Seqs {

  /** `[y for x in xs for y in f(x)]`: what `f` yields for each element, in order. */
  function FlatMap<T, U>(f: T -> seq<U>, xs: seq<T>): seq<U>
  {
    if |xs| == 0 then [] else FlatMap(f, xs[..|xs| - 1]) + f(xs[|xs| - 1])
  }

  lemma FlatMapSnoc<T, U>(f: T -> seq<U>, init: seq<T>, x: T)
    ensures FlatMap(f, init + [x]) == FlatMap(f, init) + f(x)
  {
    assert (init + [x])[..|init|] == init;
  }

  /** Flattening distributes over concatenation. */
  lemma {:induction false} FlatMapAppend<T, U>(f: T -> seq<U>, a: seq<T>, b: seq<T>)
    ensures FlatMap(f, a + b) == FlatMap(f, a) + FlatMap(f, b)
  {
    if |b| == 0 {
      assert a + b == a;
    } else {
      var b' := b[..|b| - 1];
      var x := b[|b| - 1];
      assert a + b == (a + b') + [x];
      assert b == b' + [x];
      FlatMapAppend(f, a, b');
      FlatMapSnoc(f, a + b', x);
      FlatMapSnoc(f, b', x);
    }
  }
}
