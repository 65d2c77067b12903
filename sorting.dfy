/**
 * Python's stable `sorted(..., reverse=True)` and `list.sort(key=..., reverse=True)`,
 * modelled as insertion sort.  `above(x, y)` says that x must be placed
 * before y (its key is strictly greater); elements that are not strictly
 * above one another keep their input order.
 */
module Sorting {

  /** No element is strictly above the one just before it. */
  ghost predicate Ordered<T>(s: seq<T>, above: (T, T) -> bool)
  {
    forall i :: 0 < i < |s| ==> !above(s[i], s[i - 1])
  }

  /** `above` never holds both ways round: it is a strict order on keys. */
  ghost predicate Asymmetric<T(!new)>(above: (T, T) -> bool)
  {
    forall x, y :: above(x, y) ==> !above(y, x)
  }

  /** Places x in front of the first element it is strictly above. */
  function Insert<T>(x: T, s: seq<T>, above: (T, T) -> bool): (r: seq<T>)
    ensures |r| == |s| + 1
    ensures multiset(r) == multiset(s) + multiset{x}
    ensures r[0] == x || (s != [] && r[0] == s[0])
  {
    if s == [] || above(x, s[0]) then [x] + s
    else
      assert s == [s[0]] + s[1..];
      [s[0]] + Insert(x, s[1..], above)
  }

  /** Insertion sort: each element in turn is inserted into the sorted prefix. */
  function Sort<T>(s: seq<T>, above: (T, T) -> bool): (r: seq<T>)
    ensures multiset(r) == multiset(s)
    ensures |r| == |s|
  {
    if s == [] then []
    else
      assert s == s[..|s| - 1] + [s[|s| - 1]];
      Insert(s[|s| - 1], Sort(s[..|s| - 1], above), above)
  }

  lemma {:induction false} InsertOrdered<T(!new)>(x: T, s: seq<T>, above: (T, T) -> bool)
    requires Asymmetric(above)
    requires Ordered(s, above)
    ensures Ordered(Insert(x, s, above), above)
  {
    if s == [] || above(x, s[0]) {
      var r := [x] + s;
      forall i | 0 < i < |r| ensures !above(r[i], r[i - 1]) {
        if i == 1 {
          assert !above(s[0], x);
        } else {
          assert r[i] == s[i - 1] && r[i - 1] == s[i - 2];
        }
      }
    } else {
      var t := s[1..];
      assert Ordered(t, above) by {
        forall i | 0 < i < |t| ensures !above(t[i], t[i - 1]) {
          assert t[i] == s[i + 1] && t[i - 1] == s[i];
        }
      }
      InsertOrdered(x, t, above);
      var rest := Insert(x, t, above);
      var r := [s[0]] + rest;
      forall i | 0 < i < |r| ensures !above(r[i], r[i - 1]) {
        if i == 1 {
          assert r[1] == rest[0];
          if rest[0] != x {
            assert rest[0] == s[1];
          }
        } else {
          assert r[i] == rest[i - 1] && r[i - 1] == rest[i - 2];
        }
      }
    }
  }

  /** The sorted sequence is in order: a permutation of the input (the
      multiset ensures of `Sort`) in which no element is above its predecessor. */
  lemma {:induction false} SortOrdered<T(!new)>(s: seq<T>, above: (T, T) -> bool)
    requires Asymmetric(above)
    ensures Ordered(Sort(s, above), above)
  {
    if s != [] {
      SortOrdered(s[..|s| - 1], above);
      InsertOrdered(s[|s| - 1], Sort(s[..|s| - 1], above), above);
    }
  }

  /** Every element of the input is in the output and vice versa. */
  lemma SortSameElements<T>(s: seq<T>, above: (T, T) -> bool)
    ensures forall x :: x in Sort(s, above) <==> x in s
  {
    var r := Sort(s, above);
    forall x ensures x in r <==> x in s {
      assert x in r <==> x in multiset(r);
      assert x in s <==> x in multiset(s);
    }
  }

  /** No value occurs twice. */
  ghost predicate Distinct<T>(s: seq<T>)
  {
    forall i, j :: 0 <= i < j < |s| ==> s[i] != s[j]
  }

  /** Any two different values are related one way or the other: `above`
      compares keys that identify the values (a dictionary's keys, say). */
  ghost predicate Total<T(!new)>(above: (T, T) -> bool)
  {
    forall x, y :: x != y ==> above(x, y) || above(y, x)
  }

  /** Not being above is transitive: `above` is a strict weak order, the
      order of keys that may tie. */
  ghost predicate NegTransitive<T(!new)>(above: (T, T) -> bool)
  {
    forall x, y, z :: !above(x, y) && !above(y, z) ==> !above(x, z)
  }

  lemma {:induction false} InsertDistinct<T>(x: T, s: seq<T>, above: (T, T) -> bool)
    requires Distinct(s) && x !in s
    ensures Distinct(Insert(x, s, above))
  {
    var r := Insert(x, s, above);
    if s == [] || above(x, s[0]) {
      forall i, j | 0 <= i < j < |r| ensures r[i] != r[j] {
        if i > 0 {
          assert r[i] == s[i - 1] && r[j] == s[j - 1];
        } else {
          assert r[j] == s[j - 1];
        }
      }
    } else {
      var t := s[1..];
      assert Distinct(t) by {
        forall i, j | 0 <= i < j < |t| ensures t[i] != t[j] {
          assert t[i] == s[i + 1] && t[j] == s[j + 1];
        }
      }
      assert x !in t by {
        assert forall y :: y in t ==> y in s;
      }
      InsertDistinct(x, t, above);
      var rest := Insert(x, t, above);
      assert s[0] !in rest by {
        forall k | 0 <= k < |t| ensures t[k] != s[0] {
          assert t[k] == s[k + 1];
        }
        assert s[0] != x;
        assert s[0] !in multiset(t) + multiset{x};
        assert s[0] !in multiset(rest);
      }
      forall i, j | 0 <= i < j < |r| ensures r[i] != r[j] {
        if i > 0 {
          assert r[i] == rest[i - 1] && r[j] == rest[j - 1];
        } else {
          assert r[j] == rest[j - 1];
          assert r[j] in rest;
        }
      }
    }
  }

  /** Sorting keeps values that were distinct distinct. */
  lemma {:induction false} SortDistinct<T>(s: seq<T>, above: (T, T) -> bool)
    requires Distinct(s)
    ensures Distinct(Sort(s, above))
  {
    if s != [] {
      var init := s[..|s| - 1];
      var last := s[|s| - 1];
      assert Distinct(init) by {
        forall i, j | 0 <= i < j < |init| ensures init[i] != init[j] {
          assert init[i] == s[i] && init[j] == s[j];
        }
      }
      SortDistinct(init, above);
      assert last !in Sort(init, above) by {
        forall k | 0 <= k < |init| ensures init[k] != last {
          assert init[k] == s[k];
        }
        assert last !in multiset(init);
      }
      InsertDistinct(last, Sort(init, above), above);
    }
  }

  /** Sorting distinct values under an order that relates any two of them
      gives a strictly decreasing sequence. */
  lemma StrictlyOrdered<T(!new)>(s: seq<T>, above: (T, T) -> bool)
    requires Asymmetric(above) && Total(above) && Distinct(s)
    ensures forall i :: 0 < i < |Sort(s, above)| ==> above(Sort(s, above)[i - 1], Sort(s, above)[i])
  {
    SortOrdered(s, above);
    SortDistinct(s, above);
  }

  /** In an ordered sequence, under a strict weak order, no value is above
      any value before it (not only the one just before it). */
  lemma {:induction false} OrderedPairs<T(!new)>(s: seq<T>, above: (T, T) -> bool)
    requires NegTransitive(above) && Ordered(s, above)
    ensures forall i, j :: 0 <= i < j < |s| ==> !above(s[j], s[i])
  {
    forall i, j | 0 <= i < j < |s| ensures !above(s[j], s[i]) {
      OrderedPair(s, above, i, j);
    }
  }

  lemma {:induction false} OrderedPair<T(!new)>(s: seq<T>, above: (T, T) -> bool, i: int, j: int)
    requires NegTransitive(above) && Ordered(s, above)
    requires 0 <= i < j < |s|
    ensures !above(s[j], s[i])
    decreases j - i
  {
    if j > i + 1 {
      OrderedPair(s, above, i, j - 1);
      assert !above(s[j], s[j - 1]);
    }
  }
}
