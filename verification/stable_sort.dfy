/** A stable sort by an integer key, the behaviour `Array.prototype.sort`
    guarantees for a comparator of the form `key(a) - key(b)`: the result
    is ordered by key, and elements with equal keys keep their order. */
module StableSort {

  predicate SortedBy<T>(s: seq<T>, key: T -> int) {
    forall i, j :: 0 <= i < j < |s| ==> key(s[i]) <= key(s[j])
  }

  /** The elements of `s` whose key is `k`, in their order in `s`. */
  function WithKey<T>(s: seq<T>, key: T -> int, k: int): seq<T> {
    if |s| == 0 then []
    else (if key(s[0]) == k then [s[0]] else []) + WithKey(s[1..], key, k)
  }

  lemma {:induction false} WithKeyAppend<T>(a: seq<T>, b: seq<T>, key: T -> int, k: int)
    ensures WithKey(a + b, key, k) == WithKey(a, key, k) + WithKey(b, key, k)
  {
    if |a| > 0 {
      assert (a + b)[1..] == a[1..] + b;
      WithKeyAppend(a[1..], b, key, k);
    } else {
      assert a + b == b;
    }
  }

  lemma {:induction false} WithKeyNone<T>(s: seq<T>, key: T -> int, k: int)
    requires forall i :: 0 <= i < |s| ==> key(s[i]) != k
    ensures WithKey(s, key, k) == []
  {
    if |s| > 0 {
      WithKeyNone(s[1..], key, k);
    }
  }

  /** Where `x` goes in `s`: after every leading element whose key does not
      exceed its own. */
  function InsertPoint<T>(x: T, s: seq<T>, key: T -> int): (i: nat)
    ensures i <= |s|
    ensures forall j :: 0 <= j < i ==> key(s[j]) <= key(x)
    ensures i < |s| ==> key(x) < key(s[i])
  {
    if |s| == 0 || key(x) < key(s[0]) then 0 else 1 + InsertPoint(x, s[1..], key)
  }

  function InsertBy<T>(x: T, s: seq<T>, key: T -> int): (r: seq<T>)
    ensures |r| == |s| + 1
  {
    var i := InsertPoint(x, s, key);
    s[..i] + [x] + s[i..]
  }

  /** Insertion sort, each element inserted after the equal-keyed ones
      already placed. */
  function SortBy<T>(xs: seq<T>, key: T -> int): (r: seq<T>)
    ensures |r| == |xs|
  {
    if |xs| == 0 then [] else InsertBy(xs[|xs| - 1], SortBy(xs[..|xs| - 1], key), key)
  }

  lemma SortByLast<T>(xs: seq<T>, key: T -> int)
    requires |xs| > 0
    ensures SortBy(xs, key) == InsertBy(xs[|xs| - 1], SortBy(xs[..|xs| - 1], key), key)
  {
  }

  /** The output is ordered by key. */
  lemma {:induction false} SortBySorted<T>(xs: seq<T>, key: T -> int)
    ensures SortedBy(SortBy(xs, key), key)
  {
    if |xs| > 0 {
      SortBySorted(xs[..|xs| - 1], key);
      InsertSorted(xs[|xs| - 1], SortBy(xs[..|xs| - 1], key), key);
    }
  }

  lemma InsertSorted<T>(x: T, s: seq<T>, key: T -> int)
    requires SortedBy(s, key)
    ensures SortedBy(InsertBy(x, s, key), key)
  {
    var i := InsertPoint(x, s, key);
    var r := InsertBy(x, s, key);
    forall a, b | 0 <= a < b < |r|
      ensures key(r[a]) <= key(r[b])
    {
      if a < i && b == i {
      } else if a == i && b > i {
        assert r[b] == s[b - 1];
        assert key(x) < key(s[i]) <= key(s[b - 1]);
      } else if a < i && b > i {
        assert r[b] == s[b - 1];
      } else if a > i {
        assert r[a] == s[a - 1] && r[b] == s[b - 1];
      }
    }
  }

  lemma InsertWithKey<T>(x: T, s: seq<T>, key: T -> int, k: int)
    requires SortedBy(s, key)
    ensures WithKey(InsertBy(x, s, key), key, k)
         == WithKey(s, key, k) + (if key(x) == k then [x] else [])
  {
    var i := InsertPoint(x, s, key);
    assert forall j :: i <= j < |s| ==> key(x) < key(s[j]) by {
      forall j | i <= j < |s| ensures key(x) < key(s[j]) {
        assert key(s[i]) <= key(s[j]);
      }
    }
    InsertWithKeyAt(x, s, key, k, i);
  }

  lemma InsertWithKeyAt<T>(x: T, s: seq<T>, key: T -> int, k: int, i: nat)
    requires i <= |s| && forall j :: i <= j < |s| ==> key(x) < key(s[j])
    ensures WithKey(s[..i] + [x] + s[i..], key, k)
         == WithKey(s, key, k) + (if key(x) == k then [x] else [])
  {
    assert s == s[..i] + s[i..];
    WithKeyAppend(s[..i], s[i..], key, k);
    WithKeyAppend(s[..i] + [x], s[i..], key, k);
    WithKeyAppend(s[..i], [x], key, k);
    if key(x) == k {
      WithKeyNone(s[i..], key, k);
    }
  }

  /** Stability: for every key, the elements with that key appear in the
      result exactly as, and in the order, they appear in the input. */
  lemma {:induction false} SortByStable<T>(xs: seq<T>, key: T -> int, k: int)
    ensures WithKey(SortBy(xs, key), key, k) == WithKey(xs, key, k)
  {
    if |xs| > 0 {
      var init := xs[..|xs| - 1];
      var x := xs[|xs| - 1];
      SortByStable(init, key, k);
      SortBySorted(init, key);
      InsertWithKey(x, SortBy(init, key), key, k);
      assert xs == init + [x];
      WithKeyAppend(init, [x], key, k);
    }
  }

  lemma InsertPermutes<T>(x: T, s: seq<T>, key: T -> int)
    ensures multiset(InsertBy(x, s, key)) == multiset(s) + multiset{x}
  {
    var i := InsertPoint(x, s, key);
    assert s == s[..i] + s[i..];
  }

  lemma PermutesStep<T>(a: seq<T>, b: seq<T>, xs: seq<T>)
    requires |xs| > 0
    requires multiset(b) == multiset(xs[..|xs| - 1])
    requires multiset(a) == multiset(b) + multiset{xs[|xs| - 1]}
    ensures multiset(a) == multiset(xs)
  {
    assert xs == xs[..|xs| - 1] + [xs[|xs| - 1]];
  }

  /** The sort only reorders. */
  lemma {:induction false} SortByPermutes<T>(xs: seq<T>, key: T -> int)
    ensures multiset(SortBy(xs, key)) == multiset(xs)
  {
    if |xs| > 0 {
      var init := xs[..|xs| - 1];
      var x := xs[|xs| - 1];
      var s := SortBy(init, key);
      SortByLast(xs, key);
      SortByPermutes(init, key);
      InsertPermutes(x, s, key);
      PermutesStep(SortBy(xs, key), s, xs);
    }
  }

  /** Every element of the output is an element of the input. */
  lemma SortByOrigin<T>(xs: seq<T>, key: T -> int)
    ensures forall i :: 0 <= i < |SortBy(xs, key)| ==> SortBy(xs, key)[i] in xs
  {
    SortByPermutes(xs, key);
    forall i | 0 <= i < |SortBy(xs, key)|
      ensures SortBy(xs, key)[i] in xs
    {
      assert SortBy(xs, key)[i] in multiset(SortBy(xs, key));
    }
  }

  lemma InsertPairwise<T>(x: T, s: seq<T>, key: T -> int, rel: (T, T) -> bool)
    requires forall i, j :: 0 <= i < |s| && 0 <= j < |s| && i != j ==> rel(s[i], s[j])
    requires forall j :: 0 <= j < |s| ==> rel(x, s[j]) && rel(s[j], x)
    ensures var r := InsertBy(x, s, key);
            forall i, j :: 0 <= i < |r| && 0 <= j < |r| && i != j ==> rel(r[i], r[j])
  {
    var p := InsertPoint(x, s, key);
    var r := InsertBy(x, s, key);
    forall i, j | 0 <= i < |r| && 0 <= j < |r| && i != j
      ensures rel(r[i], r[j])
    {
      var i' := if i < p then i else i - 1;
      var j' := if j < p then j else j - 1;
      if i == p {
        assert r[j] == s[j'];
      } else if j == p {
        assert r[i] == s[i'];
      } else {
        assert r[i] == s[i'] && r[j] == s[j'];
      }
    }
  }

  /** A relation that holds between any two elements at distinct positions
      of the input still does so in the output. */
  lemma {:induction false} SortByPairwise<T>(xs: seq<T>, key: T -> int, rel: (T, T) -> bool)
    requires forall i, j :: 0 <= i < |xs| && 0 <= j < |xs| && i != j ==> rel(xs[i], xs[j])
    ensures forall i, j :: 0 <= i < |SortBy(xs, key)| && 0 <= j < |SortBy(xs, key)| && i != j
              ==> rel(SortBy(xs, key)[i], SortBy(xs, key)[j])
  {
    if |xs| > 0 {
      var init := xs[..|xs| - 1];
      var x := xs[|xs| - 1];
      SortByPairwise(init, key, rel);
      var s := SortBy(init, key);
      SortByOrigin(init, key);
      forall j | 0 <= j < |s|
        ensures rel(x, s[j]) && rel(s[j], x)
      {
        var m :| 0 <= m < |init| && s[j] == init[m];
        assert init[m] == xs[m];
      }
      InsertPairwise(x, s, key, rel);
      SortByLast(xs, key);
    }
  }
}
