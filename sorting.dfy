/** A stable sort, descending on an integer key, over `(item, key)` pairs.
    This is the behaviour the forum gets from Python's
    `list.sort(key=..., reverse=True)` (stable: items with equal keys keep
    their relative order). It is modelled as an insertion sort whose three
    guarantees are proved below: the result is ordered, it is a permutation of
    the input, and equal keys keep their input order. */
module Sorting {

  /** Keys never increase from left to right. */
  ghost predicate NonIncreasing<T>(s: seq<(T, int)>) {
    forall i, j :: 0 <= i < j < |s| ==> s[i].1 >= s[j].1
  }

  /** Insert `x` in front of the first element whose key is not larger than
      its own, so that `x` precedes every element with an equal key. */
  function Insert<T>(x: (T, int), s: seq<(T, int)>): (r: seq<(T, int)>) {
    if s == [] || x.1 >= s[0].1 then [x] + s else [s[0]] + Insert(x, s[1..])
  }

  function SortDesc<T>(xs: seq<(T, int)>): (r: seq<(T, int)>) {
    if xs == [] then [] else Insert(xs[0], SortDesc(xs[1..]))
  }

  /** The items, without their keys. */
  function Items<T>(xs: seq<(T, int)>): (r: seq<T>)
    ensures |r| == |xs|
    ensures forall i :: 0 <= i < |xs| ==> r[i] == xs[i].0
  {
    if xs == [] then [] else [xs[0].0] + Items(xs[1..])
  }

  /** The entries whose key is `k`, in order. */
  function WithKey<T>(xs: seq<(T, int)>, k: int): (r: seq<(T, int)>) {
    if xs == [] then []
    else if xs[0].1 == k then [xs[0]] + WithKey(xs[1..], k)
    else WithKey(xs[1..], k)
  }

  lemma {:induction false} InsertPerm<T>(x: (T, int), s: seq<(T, int)>)
    ensures multiset(Insert(x, s)) == multiset(s) + multiset{x}
  {
    if s != [] && x.1 < s[0].1 {
      InsertPerm(x, s[1..]);
      assert s == [s[0]] + s[1..];
    }
  }

  lemma ItemsCons<T>(x: (T, int), s: seq<(T, int)>)
    ensures Items([x] + s) == [x.0] + Items(s)
  {
    assert ([x] + s)[1..] == s;
  }

  lemma {:induction false} InsertItemsPerm<T>(x: (T, int), s: seq<(T, int)>)
    ensures multiset(Items(Insert(x, s))) == multiset(Items(s)) + multiset{x.0}
  {
    if s == [] || x.1 >= s[0].1 {
      ConsItemsPerm(x, s);
    } else {
      InsertItemsPerm(x, s[1..]);
      InsertItemsPermStep(x, s);
    }
  }

  lemma ConsItemsPerm<T>(x: (T, int), s: seq<(T, int)>)
    ensures multiset(Items([x] + s)) == multiset{x.0} + multiset(Items(s))
  {
    ItemsCons(x, s);
    assert multiset([x.0] + Items(s)) == multiset{x.0} + multiset(Items(s));
  }

  /** One step of the induction: `x` goes past the head of `s`. */
  lemma InsertItemsPermStep<T>(x: (T, int), s: seq<(T, int)>)
    requires s != [] && x.1 < s[0].1
    requires multiset(Items(Insert(x, s[1..]))) == multiset(Items(s[1..])) + multiset{x.0}
    ensures multiset(Items(Insert(x, s))) == multiset(Items(s)) + multiset{x.0}
  {
    ConsItemsPerm(s[0], Insert(x, s[1..]));
    HeadItemsPerm(s);
  }

  lemma HeadItemsPerm<T>(s: seq<(T, int)>)
    requires s != []
    ensures multiset(Items(s)) == multiset{s[0].0} + multiset(Items(s[1..]))
  {
    assert Items(s) == [s[0].0] + Items(s[1..]);
  }

  lemma InsertMember<T>(x: (T, int), s: seq<(T, int)>, y: (T, int))
    ensures y in Insert(x, s) <==> y == x || y in s
  {
    InsertPerm(x, s);
    assert y in Insert(x, s) <==> y in multiset(Insert(x, s));
  }

  /** Putting in front an element whose key is at least every other key
      keeps a sequence sorted. */
  lemma ConsSorted<T>(x: (T, int), s: seq<(T, int)>)
    requires NonIncreasing(s)
    requires forall y :: y in s ==> x.1 >= y.1
    ensures NonIncreasing([x] + s)
  {
    var r := [x] + s;
    forall i, j | 0 <= i < j < |r| ensures r[i].1 >= r[j].1 {
      assert r[j] == s[j - 1];
      if i > 0 { assert r[i] == s[i - 1]; }
    }
  }

  lemma SortedHead<T>(s: seq<(T, int)>)
    requires NonIncreasing(s) && s != []
    ensures forall y :: y in s ==> s[0].1 >= y.1
  {
    forall y | y in s ensures s[0].1 >= y.1 {
      var k :| 0 <= k < |s| && s[k] == y;
    }
  }

  lemma {:induction false} InsertSorted<T>(x: (T, int), s: seq<(T, int)>)
    requires NonIncreasing(s)
    ensures NonIncreasing(Insert(x, s))
  {
    if s == [] {
    } else if x.1 >= s[0].1 {
      SortedHead(s);
      ConsSorted(x, s);
    } else {
      InsertSorted(x, s[1..]);
      SortedHead(s);
      forall y | y in Insert(x, s[1..]) ensures s[0].1 >= y.1 {
        InsertMember(x, s[1..], y);
        if y != x {
          assert y in s[1..];
          var k :| 0 <= k < |s[1..]| && s[1..][k] == y;
          assert s[k + 1] == y;
        }
      }
      ConsSorted(s[0], Insert(x, s[1..]));
    }
  }

  /** Inserting into a sorted sequence keeps each key class in the order
      "`x` first, then the old elements". */
  lemma {:induction false} InsertStable<T>(x: (T, int), s: seq<(T, int)>, k: int)
    requires NonIncreasing(s)
    ensures WithKey(Insert(x, s), k) == WithKey([x] + s, k)
  {
    if s == [] || x.1 >= s[0].1 {
    } else {
      var t := Insert(x, s[1..]);
      InsertStable(x, s[1..], k);
      assert ([s[0]] + t)[1..] == t;
      assert ([x] + s)[1..] == s;
      assert ([x] + s[1..])[1..] == s[1..];
      assert s == [s[0]] + s[1..];
    }
  }

  /** The result of the sort is ordered by nonincreasing key. */
  lemma {:induction false} SortDescSorted<T>(xs: seq<(T, int)>)
    ensures NonIncreasing(SortDesc(xs))
  {
    if xs != [] {
      SortDescSorted(xs[1..]);
      InsertSorted(xs[0], SortDesc(xs[1..]));
    }
  }

  /** The sort rearranges its input and nothing else. */
  lemma {:induction false} SortDescPerm<T>(xs: seq<(T, int)>)
    ensures |SortDesc(xs)| == |xs|
    ensures multiset(SortDesc(xs)) == multiset(xs)
  {
    if xs != [] {
      var t := SortDesc(xs[1..]);
      SortDescPerm(xs[1..]);
      InsertPerm(xs[0], t);
      assert xs == [xs[0]] + xs[1..];
      assert multiset(xs) == multiset{xs[0]} + multiset(xs[1..]);
      assert |multiset(SortDesc(xs))| == |multiset(xs)|;
    }
  }

  /** The same holds of the items once their keys are dropped. */
  lemma {:induction false} SortDescItemsPerm<T>(xs: seq<(T, int)>)
    ensures multiset(Items(SortDesc(xs))) == multiset(Items(xs))
  {
    if xs != [] {
      var t := SortDesc(xs[1..]);
      SortDescItemsPerm(xs[1..]);
      InsertItemsPerm(xs[0], t);
      HeadItemsPerm(xs);
    }
  }

  /** Stability: for every key, the entries with that key appear in the
      result in exactly the order they had in the input. */
  lemma {:induction false} SortDescStable<T>(xs: seq<(T, int)>, k: int)
    ensures WithKey(SortDesc(xs), k) == WithKey(xs, k)
  {
    if xs != [] {
      SortDescStable(xs[1..], k);
      SortDescSorted(xs[1..]);
      InsertStable(xs[0], SortDesc(xs[1..]), k);
      assert ([xs[0]] + SortDesc(xs[1..]))[1..] == SortDesc(xs[1..]);
    }
  }

  /** Lexicographic order: by nonincreasing key, then by increasing `tie`. */
  ghost predicate KeyThenTie<T>(s: seq<(T, int)>, tie: T -> int) {
    forall i, j :: 0 <= i < j < |s| ==>
      s[i].1 > s[j].1 || (s[i].1 == s[j].1 && tie(s[i].0) < tie(s[j].0))
  }

  /** `x` may go in front when it comes before every element in that order. */
  lemma ConsKeyThenTie<T>(x: (T, int), s: seq<(T, int)>, tie: T -> int)
    requires KeyThenTie(s, tie)
    requires forall y :: y in s ==> x.1 > y.1 || (x.1 == y.1 && tie(x.0) < tie(y.0))
    ensures KeyThenTie([x] + s, tie)
  {
    var r := [x] + s;
    forall i, j | 0 <= i < j < |r|
      ensures r[i].1 > r[j].1 || (r[i].1 == r[j].1 && tie(r[i].0) < tie(r[j].0))
    {
      assert r[j] == s[j - 1];
      if i > 0 { assert r[i] == s[i - 1]; }
    }
  }

  lemma KeyThenTieHead<T>(s: seq<(T, int)>, tie: T -> int)
    requires KeyThenTie(s, tie) && s != []
    ensures forall y :: y in s[1..] ==> s[0].1 > y.1 || (s[0].1 == y.1 && tie(s[0].0) < tie(y.0))
  {
    forall y | y in s[1..] ensures s[0].1 > y.1 || (s[0].1 == y.1 && tie(s[0].0) < tie(y.0)) {
      var k :| 0 <= k < |s[1..]| && s[1..][k] == y;
      assert s[k + 1] == y;
    }
  }

  lemma {:induction false} InsertKeyThenTie<T>(x: (T, int), s: seq<(T, int)>, tie: T -> int)
    requires KeyThenTie(s, tie)
    requires forall y :: y in s ==> tie(x.0) < tie(y.0)
    ensures KeyThenTie(Insert(x, s), tie)
  {
    if s == [] {
    } else if x.1 >= s[0].1 {
      forall y | y in s ensures x.1 > y.1 || (x.1 == y.1 && tie(x.0) < tie(y.0)) {
        var k :| 0 <= k < |s| && s[k] == y;
        if k > 0 {
          KeyThenTieHead(s, tie);
          assert y in s[1..];
        }
      }
      ConsKeyThenTie(x, s, tie);
    } else {
      assert forall y :: y in s[1..] ==> y in s;
      assert KeyThenTie(s[1..], tie) by {
        forall i, j | 0 <= i < j < |s[1..]|
          ensures s[1..][i].1 > s[1..][j].1 || (s[1..][i].1 == s[1..][j].1 && tie(s[1..][i].0) < tie(s[1..][j].0))
        {
          assert s[1..][i] == s[i + 1] && s[1..][j] == s[j + 1];
        }
      }
      InsertKeyThenTie(x, s[1..], tie);
      KeyThenTieHead(s, tie);
      forall y | y in Insert(x, s[1..])
        ensures s[0].1 > y.1 || (s[0].1 == y.1 && tie(s[0].0) < tie(y.0))
      {
        InsertMember(x, s[1..], y);
      }
      ConsKeyThenTie(s[0], Insert(x, s[1..]), tie);
    }
  }

  /** When the input is in increasing `tie` order, the stable sort orders
      entries with equal keys by increasing `tie`. */
  lemma {:induction false} SortDescTieBreak<T>(xs: seq<(T, int)>, tie: T -> int)
    requires forall i, j :: 0 <= i < j < |xs| ==> tie(xs[i].0) < tie(xs[j].0)
    ensures KeyThenTie(SortDesc(xs), tie)
  {
    if xs != [] {
      SortDescTieBreak(xs[1..], tie);
      SortDescPerm(xs[1..]);
      forall y | y in SortDesc(xs[1..]) ensures tie(xs[0].0) < tie(y.0) {
        assert y in multiset(SortDesc(xs[1..]));
        assert y in xs[1..];
        var m :| 0 <= m < |xs[1..]| && xs[1..][m] == y;
        assert xs[m + 1] == y;
      }
      InsertKeyThenTie(xs[0], SortDesc(xs[1..]), tie);
    }
  }
}
