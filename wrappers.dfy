/**
  The optional value used wherever the scripts either produce something or
  skip, and the loop shape they all share: run every item through a step that
  may skip it, and keep what it produces, in order.
 */
module Wrappers {

  datatype Option<+T> = None | Some(value: T)

  /** What `f` produces for the items of `xs`, in order; items it skips leave nothing. */
  function FilterMap<S, T>(xs: seq<S>, f: S -> Option<T>): seq<T> {
    if xs == [] then []
    else
      var last := match f(xs[|xs| - 1]) case Some(y) => [y] case None => [];
      FilterMap(xs[..|xs| - 1], f) + last
  }

  lemma {:induction false} FilterMapConcat<S, T>(a: seq<S>, b: seq<S>, f: S -> Option<T>)
    ensures FilterMap(a + b, f) == FilterMap(a, f) + FilterMap(b, f)
  {
    if b == [] {
      assert a + b == a;
    } else {
      assert (a + b)[..|a + b| - 1] == a + b[..|b| - 1];
      assert (a + b)[|a + b| - 1] == b[|b| - 1];
      FilterMapConcat(a, b[..|b| - 1], f);
    }
  }

  lemma FilterMapSingle<S, T>(x: S, f: S -> Option<T>)
    ensures FilterMap([x], f) == match f(x) case Some(y) => [y] case None => []
  {
    assert [x][..0] == [];
  }

  /** A skipped item, wherever it stands, changes nothing. */
  lemma FilterMapSkip<S, T>(a: seq<S>, x: S, b: seq<S>, f: S -> Option<T>)
    requires f(x).None?
    ensures FilterMap(a + [x] + b, f) == FilterMap(a + b, f)
  {
    FilterMapConcat(a + [x], b, f);
    FilterMapConcat(a, [x], f);
    FilterMapConcat(a, b, f);
    FilterMapSingle(x, f);
  }

  /** No more results than items, and each result is produced from some item. */
  lemma {:induction false} FilterMapSources<S, T>(xs: seq<S>, f: S -> Option<T>)
    ensures |FilterMap(xs, f)| <= |xs|
    ensures forall k | 0 <= k < |FilterMap(xs, f)| :: exists j | 0 <= j < |xs| :: f(xs[j]) == Some(FilterMap(xs, f)[k])
  {
    if xs != [] {
      var init := xs[..|xs| - 1];
      FilterMapSources(init, f);
      var r := FilterMap(xs, f);
      forall k | 0 <= k < |r| ensures exists j | 0 <= j < |xs| :: f(xs[j]) == Some(r[k]) {
        if k < |FilterMap(init, f)| {
          var j :| 0 <= j < |init| && f(init[j]) == Some(FilterMap(init, f)[k]);
          assert xs[j] == init[j];
        } else {
          assert f(xs[|xs| - 1]) == Some(r[k]);
        }
      }
    }
  }

  /** A value is among the results exactly when some item produces it. */
  lemma {:induction false} FilterMapMembers<S, T>(xs: seq<S>, f: S -> Option<T>, y: T)
    ensures y in FilterMap(xs, f) <==> exists k | 0 <= k < |xs| :: f(xs[k]) == Some(y)
  {
    if xs != [] {
      var init := xs[..|xs| - 1];
      FilterMapMembers(init, f, y);
      if k :| 0 <= k < |xs| && f(xs[k]) == Some(y) {
        if k < |init| {
          assert init[k] == xs[k];
        }
      }
      if y in FilterMap(xs, f) && y !in FilterMap(init, f) {
        assert f(xs[|xs| - 1]) == Some(y);
      }
    }
  }
}
