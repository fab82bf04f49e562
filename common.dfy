/** Small shared vocabulary: an optional value, duplicate-freedom and a
    filter over sequences that keeps the order of what it keeps. */
module Common {

  datatype Option<+T> = None | Some(value: T)

  /** No element occurs twice. */
  ghost predicate NoDup<T>(xs: seq<T>) {
    forall i, j :: 0 <= i < j < |xs| ==> xs[i] != xs[j]
  }

  /** The elements of `xs` satisfying `keep`, in their original order. */
  function Filter<T(!new)>(xs: seq<T>, keep: T -> bool): (r: seq<T>)
    ensures |r| <= |xs|
    ensures forall x :: x in r <==> x in xs && keep(x)
  {
    if xs == [] then []
    else if keep(xs[0]) then [xs[0]] + Filter(xs[1..], keep)
    else Filter(xs[1..], keep)
  }

  /** Any two positions of a filtered sequence come from two positions of the
      original in the same order: filtering never reorders. */
  lemma {:induction false} FilterKeepsOrder<T(!new)>(xs: seq<T>, keep: T -> bool, i: nat, j: nat)
    requires i < j < |Filter(xs, keep)|
    ensures exists i', j' :: 0 <= i' < j' < |xs| && Filter(xs, keep)[i] == xs[i'] && Filter(xs, keep)[j] == xs[j']
  {
    var r := Filter(xs, keep);
    if keep(xs[0]) {
      assert r == [xs[0]] + Filter(xs[1..], keep);
      if i == 0 {
        var y := r[j];
        assert y in Filter(xs[1..], keep);
        assert y in xs[1..];
        var k :| 0 <= k < |xs[1..]| && xs[1..][k] == y;
        assert xs[k + 1] == y;
      } else {
        FilterKeepsOrder(xs[1..], keep, i - 1, j - 1);
        var i', j' :| 0 <= i' < j' < |xs[1..]| && Filter(xs[1..], keep)[i - 1] == xs[1..][i'] && Filter(xs[1..], keep)[j - 1] == xs[1..][j'];
        assert r[i] == xs[i' + 1] && r[j] == xs[j' + 1];
      }
    } else {
      assert r == Filter(xs[1..], keep);
      FilterKeepsOrder(xs[1..], keep, i, j);
      var i', j' :| 0 <= i' < j' < |xs[1..]| && r[i] == xs[1..][i'] && r[j] == xs[1..][j'];
      assert r[i] == xs[i' + 1] && r[j] == xs[j' + 1];
    }
  }

  /** Filtering a duplicate-free sequence leaves it duplicate-free. */
  lemma FilterNoDup<T(!new)>(xs: seq<T>, keep: T -> bool)
    requires NoDup(xs)
    ensures NoDup(Filter(xs, keep))
  {
    var r := Filter(xs, keep);
    forall i, j | 0 <= i < j < |r| ensures r[i] != r[j] {
      FilterKeepsOrder(xs, keep, i, j);
    }
  }

  /** A relation that holds from every element of `xs` to every later one
      holds the same way in what a filter keeps. */
  lemma FilterPairwise<T(!new)>(xs: seq<T>, keep: T -> bool, rel: (T, T) -> bool)
    requires forall i, j :: 0 <= i < j < |xs| ==> rel(xs[i], xs[j])
    ensures forall i, j :: 0 <= i < j < |Filter(xs, keep)| ==> rel(Filter(xs, keep)[i], Filter(xs, keep)[j])
  {
    var r := Filter(xs, keep);
    forall i, j | 0 <= i < j < |r| ensures rel(r[i], r[j]) {
      FilterKeepsOrder(xs, keep, i, j);
    }
  }

  /** What lies past a prefix `base` after appending `x` to `a`. */
  lemma AppendedTail<T>(base: seq<T>, a: seq<T>, x: T, y: T)
    requires base <= a && y in (a + [x])[|base|..]
    ensures y in a[|base|..] || y == x
  {
    assert (a + [x])[|base|..] == a[|base|..] + [x];
  }
}
