/**
 * Generic operations on the in-memory tables of the model: a table is a
 * sequence of rows, and a row is looked at through a key function (its id,
 * or the id of the parent row it references).
 */
module Tables {

  /** The set of keys carried by the rows of `s`. */
  function Keys<T(!new), K(==)>(s: seq<T>, key: T -> K): (ks: set<K>)
    ensures forall x :: x in s ==> key(x) in ks
    ensures |ks| <= |s|
  {
    if s == [] then {} else
    var rest := Keys(s[1..], key);
    assert forall x :: x in s ==> x == s[0] || x in s[1..];
    rest + {key(s[0])}
  }

  /** No two rows of `s` carry the same key (a primary key or a unique column). */
  ghost predicate DistinctKeys<T(!new), K>(s: seq<T>, key: T -> K)
  {
    forall i, j :: 0 <= i < j < |s| ==> key(s[i]) != key(s[j])
  }

  /** The rows of `s` whose key is NOT in `ks`, in their original order
      (a bulk `DELETE ... WHERE key IN ks`). */
  function Drop<T(!new), K(==)>(s: seq<T>, key: T -> K, ks: set<K>): (r: seq<T>)
    ensures forall x :: x in r <==> x in s && key(x) !in ks
    ensures |r| <= |s|
  {
    if s == [] then []
    else if key(s[0]) in ks then Drop(s[1..], key, ks)
    else [s[0]] + Drop(s[1..], key, ks)
  }

  /** The rows of `s` whose key IS in `ks`, in their original order
      (a `SELECT ... WHERE key IN ks`). */
  function Select<T(!new), K(==)>(s: seq<T>, key: T -> K, ks: set<K>): (r: seq<T>)
    ensures forall x :: x in r <==> x in s && key(x) in ks
    ensures |r| <= |s|
  {
    if s == [] then []
    else if key(s[0]) in ks then [s[0]] + Select(s[1..], key, ks)
    else Select(s[1..], key, ks)
  }

  /** The first row of `s` whose key is `k`, if any (a primary-key lookup). */
  function Find<T(!new), K(==)>(s: seq<T>, key: T -> K, k: K): (r: Option<T>)
    ensures r.Some? <==> k in Keys(s, key)
    ensures r.Some? ==> r.value in s && key(r.value) == k
  {
    if s == [] then None
    else if key(s[0]) == k then Some(s[0])
    else
      var r := Find(s[1..], key, k);
      assert Keys(s, key) == Keys(s[1..], key) + {key(s[0])};
      r
  }

  datatype Option<T> = None | Some(value: T)

  lemma {:induction false} KeysMember<T(!new), K>(s: seq<T>, key: T -> K, k: K)
    requires k in Keys(s, key)
    ensures exists x :: x in s && key(x) == k
  {
    if key(s[0]) != k {
      KeysMember(s[1..], key, k);
    }
  }

  lemma {:induction false} KeysAbsent<T(!new), K>(s: seq<T>, key: T -> K, k: K)
    requires forall x :: x in s ==> key(x) != k
    ensures k !in Keys(s, key)
  {
    if s != [] {
      assert s[0] in s;
      KeysAbsent(s[1..], key, k);
    }
  }

  /** Two bulk deletes in a row are one bulk delete of the union of keys. */
  lemma {:induction false} DropDrop<T(!new), K>(s: seq<T>, key: T -> K, a: set<K>, b: set<K>)
    ensures Drop(Drop(s, key, a), key, b) == Drop(s, key, a + b)
  {
    if s != [] {
      DropDrop(s[1..], key, a, b);
    }
  }

  /** Deleting rows never creates a duplicate key. */
  lemma {:induction false} DropKeepsDistinct<T(!new), K, J>(s: seq<T>, key: T -> K, ks: set<K>, id: T -> J)
    requires DistinctKeys(s, id)
    ensures DistinctKeys(Drop(s, key, ks), id)
  {
    if s != [] {
      assert DistinctKeys(s[1..], id) by {
        forall i, j | 0 <= i < j < |s[1..]| ensures id(s[1..][i]) != id(s[1..][j]) {
          assert s[1..][i] == s[i + 1] && s[1..][j] == s[j + 1];
        }
      }
      DropKeepsDistinct(s[1..], key, ks, id);
      var rest := Drop(s[1..], key, ks);
      if key(s[0]) !in ks {
        forall x | x in rest ensures id(x) != id(s[0]) {
          var j :| 0 <= j < |s[1..]| && s[1..][j] == x;
          assert s[j + 1] == x;
        }
        var r := [s[0]] + rest;
        forall i, j | 0 <= i < j < |r| ensures id(r[i]) != id(r[j]) {
          if i == 0 {
            assert r[j] in rest;
          } else {
            assert r[i] == rest[i - 1] && r[j] == rest[j - 1];
          }
        }
      }
    }
  }

  /** Deleting rows by some keys leaves the selection by other keys alone. */
  lemma {:induction false} SelectAfterDrop<T(!new), K>(s: seq<T>, key: T -> K, a: set<K>, b: set<K>)
    requires a !! b
    ensures Select(Drop(s, key, a), key, b) == Select(s, key, b)
  {
    if s != [] {
      SelectAfterDrop(s[1..], key, a, b);
    }
  }

  /** When ids are unique, deleting the rows selected by a parent key, one id
      at a time, is the same as deleting by the parent key. */
  lemma {:induction false} DropSelectedIds<T(!new), K, J>(s: seq<T>, id: T -> J, parent: T -> K, ps: set<K>)
    requires DistinctKeys(s, id)
    ensures Drop(s, id, Keys(Select(s, parent, ps), id)) == Drop(s, parent, ps)
  {
    if s != [] {
      var tail := s[1..];
      assert DistinctKeys(tail, id) by {
        forall i, j | 0 <= i < j < |tail| ensures id(tail[i]) != id(tail[j]) {
          assert tail[i] == s[i + 1] && tail[j] == s[j + 1];
        }
      }
      DropSelectedIds(tail, id, parent, ps);
      var all := Keys(Select(s, parent, ps), id);
      var rest := Keys(Select(tail, parent, ps), id);
      assert all == if parent(s[0]) in ps then rest + {id(s[0])} else rest;
      forall x | x in tail ensures id(x) != id(s[0]) {
        var j :| 0 <= j < |tail| && tail[j] == x;
        assert s[j + 1] == x;
      }
      DropIgnoresAbsent(tail, id, rest, {id(s[0])});
      if parent(s[0]) !in ps {
        assert id(s[0]) !in rest by {
          if id(s[0]) in rest {
            KeysMember(Select(tail, parent, ps), id, id(s[0]));
          }
        }
      }
    }
  }

  /** Keys that no row carries do not change a bulk delete. */
  lemma {:induction false} DropIgnoresAbsent<T(!new), K>(s: seq<T>, key: T -> K, ks: set<K>, extra: set<K>)
    requires forall x :: x in s ==> key(x) !in extra
    ensures Drop(s, key, ks + extra) == Drop(s, key, ks)
  {
    if s != [] {
      DropIgnoresAbsent(s[1..], key, ks, extra);
    }
  }

  lemma {:induction false} SelectNothing<T(!new), K>(s: seq<T>, key: T -> K)
    ensures Select(s, key, {}) == []
  {
    if s != [] {
      SelectNothing(s[1..], key);
    }
  }

  /** Selecting by keys that no row carries selects nothing. */
  lemma {:induction false} SelectNone<T(!new), K>(s: seq<T>, key: T -> K, ks: set<K>)
    requires forall x :: x in s ==> key(x) !in ks
    ensures Select(s, key, ks) == []
  {
    if s != [] {
      assert s[0] in s;
      SelectNone(s[1..], key, ks);
    }
  }

  /** Selecting by two disjoint key sets splits the count. */
  lemma {:induction false} SelectUnionCount<T(!new), K>(s: seq<T>, key: T -> K, a: set<K>, b: set<K>)
    requires a !! b
    ensures |Select(s, key, a + b)| == |Select(s, key, a)| + |Select(s, key, b)|
  {
    if s != [] {
      SelectUnionCount(s[1..], key, a, b);
    }
  }

  /** Selecting by a set that covers every row's key keeps every row. */
  lemma {:induction false} SelectAll<T(!new), K>(s: seq<T>, key: T -> K, ks: set<K>)
    requires forall x :: x in s ==> key(x) in ks
    ensures Select(s, key, ks) == s
  {
    if s != [] {
      SelectAll(s[1..], key, ks);
    }
  }

  /** A selection of rows with unique ids has unique ids. */
  lemma {:induction false} SelectKeepsDistinct<T(!new), K, J>(s: seq<T>, key: T -> K, ks: set<K>, id: T -> J)
    requires DistinctKeys(s, id)
    ensures DistinctKeys(Select(s, key, ks), id)
  {
    if s != [] {
      var tail := s[1..];
      assert DistinctKeys(tail, id) by {
        forall i, j | 0 <= i < j < |tail| ensures id(tail[i]) != id(tail[j]) {
          assert tail[i] == s[i + 1] && tail[j] == s[j + 1];
        }
      }
      SelectKeepsDistinct(tail, key, ks, id);
      var rest := Select(tail, key, ks);
      if key(s[0]) in ks {
        forall x | x in rest ensures id(x) != id(s[0]) {
          var j :| 0 <= j < |tail| && tail[j] == x;
          assert s[j + 1] == x;
        }
        var r := [s[0]] + rest;
        forall i, j | 0 <= i < j < |r| ensures id(r[i]) != id(r[j]) {
          if i == 0 {
            assert r[j] in rest;
          } else {
            assert r[i] == rest[i - 1] && r[j] == rest[j - 1];
          }
        }
      }
    }
  }

  // ------------------------------------------------------------------ sums

  /** The sum of a weight over the rows of `s` (Python's `sum(w(x) for x in s)`). */
  function SumOver<T>(s: seq<T>, w: T -> nat): nat
  {
    if s == [] then 0 else w(s[0]) + SumOver(s[1..], w)
  }

  /** The weight that counts rows. */
  function One<T>(x: T): nat
  {
    1
  }

  /** `sum(len(children_of(p)) for p in ps)`: the number of rows of `cs` under a parent. */
  function ChildCount<P, T(!new), K(==)>(cs: seq<T>, parent: T -> K, id: P -> K): P -> nat
  {
    p => |Select(cs, parent, {id(p)})|
  }

  /** The weight of a parent row: the total weight of its children in `cs`. */
  function GroupWeight<P, T(!new), K(==)>(id: P -> K, cs: seq<T>, parent: T -> K, w: T -> nat): P -> nat
  {
    p => SumOver(Select(cs, parent, {id(p)}), w)
  }

  lemma {:induction false} SumOverAppend<T>(a: seq<T>, b: seq<T>, w: T -> nat)
    ensures SumOver(a + b, w) == SumOver(a, w) + SumOver(b, w)
  {
    if a == [] {
      assert a + b == b;
    } else {
      assert (a + b)[1..] == a[1..] + b;
      SumOverAppend(a[1..], b, w);
    }
  }

  lemma {:induction false} SumOverOne<T>(s: seq<T>)
    ensures SumOver(s, One) == |s|
  {
    if s != [] {
      SumOverOne(s[1..]);
    }
  }

  /** Counting the children of each parent is summing a weight of one over them. */
  lemma {:induction false} CountIsSum<P, T(!new), K>(ps: seq<P>, cs: seq<T>, parent: T -> K, id: P -> K)
    ensures SumOver(ps, ChildCount(cs, parent, id)) == SumOver(ps, GroupWeight(id, cs, parent, One))
  {
    if ps != [] {
      SumOverOne(Select(cs, parent, {id(ps[0])}));
      CountIsSum(ps[1..], cs, parent, id);
    }
  }

  lemma {:induction false} SelectAppend<T(!new), K>(a: seq<T>, b: seq<T>, key: T -> K, ks: set<K>)
    ensures Select(a + b, key, ks) == Select(a, key, ks) + Select(b, key, ks)
  {
    if a == [] {
      assert a + b == b;
    } else {
      assert (a + b)[1..] == a[1..] + b;
      SelectAppend(a[1..], b, key, ks);
    }
  }

  lemma {:induction false} KeysAppend<T(!new), K>(a: seq<T>, b: seq<T>, key: T -> K)
    ensures Keys(a + b, key) == Keys(a, key) + Keys(b, key)
  {
    if a == [] {
      assert a + b == b;
    } else {
      assert (a + b)[1..] == a[1..] + b;
      KeysAppend(a[1..], b, key);
    }
  }

  /** Selecting by two disjoint key sets splits any sum over the selection. */
  lemma {:induction false} SelectUnionSum<T(!new), K>(s: seq<T>, key: T -> K, a: set<K>, b: set<K>, w: T -> nat)
    requires a !! b
    ensures SumOver(Select(s, key, a + b), w) == SumOver(Select(s, key, a), w) + SumOver(Select(s, key, b), w)
  {
    if s != [] {
      SelectUnionSum(s[1..], key, a, b, w);
    }
  }

  /** Summing over each parent's children, parent by parent, is summing over
      all children of those parents at once, when the parents' ids are unique. */
  lemma {:induction false} Regroup<P(!new), T(!new), K>(ps: seq<P>, id: P -> K, cs: seq<T>, parent: T -> K, w: T -> nat)
    requires DistinctKeys(ps, id)
    ensures SumOver(ps, GroupWeight(id, cs, parent, w)) == SumOver(Select(cs, parent, Keys(ps, id)), w)
  {
    if ps != [] {
      var tail := ps[1..];
      assert DistinctKeys(tail, id) by {
        forall i, j | 0 <= i < j < |tail| ensures id(tail[i]) != id(tail[j]) {
          assert tail[i] == ps[i + 1] && tail[j] == ps[j + 1];
        }
      }
      Regroup(tail, id, cs, parent, w);
      forall x | x in tail ensures id(x) != id(ps[0]) {
        var j :| 0 <= j < |tail| && tail[j] == x;
        assert ps[j + 1] == x;
      }
      KeysAbsent(tail, id, id(ps[0]));
      assert Keys(ps, id) == {id(ps[0])} + Keys(tail, id);
      SelectUnionSum(cs, parent, {id(ps[0])}, Keys(tail, id), w);
      var g := GroupWeight(id, cs, parent, w);
      assert g(ps[0]) == SumOver(Select(cs, parent, {id(ps[0])}), w);
      assert SumOver(ps, g) == g(ps[0]) + SumOver(tail, g);
    } else {
      SelectNothing(cs, parent);
    }
  }

  /** When parent ids are unique and every child's parent is among the
      parents, summing each parent's children covers every child once. */
  lemma GroupTotal<P(!new), T(!new), K>(ps: seq<P>, id: P -> K, cs: seq<T>, parent: T -> K, w: T -> nat)
    requires DistinctKeys(ps, id)
    requires forall c :: c in cs ==> parent(c) in Keys(ps, id)
    ensures SumOver(ps, GroupWeight(id, cs, parent, w)) == SumOver(cs, w)
  {
    Regroup(ps, id, cs, parent, w);
    SelectAll(cs, parent, Keys(ps, id));
  }

  /** Under the same conditions the children counts add up to the number of children. */
  lemma ChildTotal<P(!new), T(!new), K>(ps: seq<P>, id: P -> K, cs: seq<T>, parent: T -> K)
    requires DistinctKeys(ps, id)
    requires forall c :: c in cs ==> parent(c) in Keys(ps, id)
    ensures SumOver(ps, ChildCount(cs, parent, id)) == |cs|
  {
    CountIsSum(ps, cs, parent, id);
    GroupTotal(ps, id, cs, parent, One);
    SumOverOne(cs);
  }

  /** `Some(k)`, as a key function. */
  function Wrap<K>(k: K): Option<K>
  {
    Some(k)
  }

  /** Two sums agree when their rows carry the same weights, position by position. */
  lemma {:induction false} SumOverPointwise<T, U>(a: seq<T>, wa: T -> nat, b: seq<U>, wb: U -> nat)
    requires |a| == |b|
    requires forall i :: 0 <= i < |a| ==> wa(a[i]) == wb(b[i])
    ensures SumOver(a, wa) == SumOver(b, wb)
  {
    if a != [] {
      SumOverPointwise(a[1..], wa, b[1..], wb);
    }
  }

  /** Deleting by an empty key set keeps every row. */
  lemma {:induction false} DropNothing<T(!new), K>(s: seq<T>, key: T -> K)
    ensures Drop(s, key, {}) == s
  {
    if s != [] {
      DropNothing(s[1..], key);
    }
  }

  /** The keys of a prefix grown by one row. */
  lemma KeysSnoc<T(!new), K>(s: seq<T>, key: T -> K, i: int)
    requires 0 <= i < |s|
    ensures Keys(s[..i + 1], key) == Keys(s[..i], key) + {key(s[i])}
  {
    assert s[..i + 1] == s[..i] + [s[i]];
    KeysAppend(s[..i], [s[i]], key);
  }

  /** In a table with unique keys, a row's key is not among the keys of the rows before it. */
  lemma KeysBefore<T(!new), K>(s: seq<T>, key: T -> K, i: int)
    requires DistinctKeys(s, key) && 0 <= i < |s|
    ensures key(s[i]) !in Keys(s[..i], key)
  {
    forall x | x in s[..i] ensures key(x) != key(s[i]) {
      var j :| 0 <= j < i && s[..i][j] == x;
      assert s[j] == x;
    }
    KeysAbsent(s[..i], key, key(s[i]));
  }

  /** Two rows of a table with unique keys that carry the same key are the same row. */
  lemma SameKeySameRow<T(!new), K>(s: seq<T>, key: T -> K, x: T, y: T)
    requires DistinctKeys(s, key) && x in s && y in s && key(x) == key(y)
    ensures x == y
  {
    var i :| 0 <= i < |s| && s[i] == x;
    var j :| 0 <= j < |s| && s[j] == y;
    if i < j {
      assert key(s[i]) != key(s[j]);
    } else if j < i {
      assert key(s[j]) != key(s[i]);
    }
  }

  /** The ids of the rows selected by a union of key sets. */
  lemma KeysSelectUnion<T(!new), K, J>(s: seq<T>, key: T -> K, a: set<K>, b: set<K>, id: T -> J)
    ensures Keys(Select(s, key, a + b), id) == Keys(Select(s, key, a), id) + Keys(Select(s, key, b), id)
  {
    var all := Select(s, key, a + b);
    var sa := Select(s, key, a);
    var sb := Select(s, key, b);
    forall k | k in Keys(all, id) ensures k in Keys(sa, id) + Keys(sb, id) {
      KeysMember(all, id, k);
      var x :| x in all && id(x) == k;
      assert x in sa || x in sb;
    }
    forall k | k in Keys(sa, id) + Keys(sb, id) ensures k in Keys(all, id) {
      if k in Keys(sa, id) {
        KeysMember(sa, id, k);
        var x :| x in sa && id(x) == k;
        assert x in all;
      } else {
        KeysMember(sb, id, k);
        var x :| x in sb && id(x) == k;
        assert x in all;
      }
    }
  }

  /** A parent key that survives a bulk delete of parents still names a row. */
  lemma KeptParent<T(!new), K>(ps: seq<T>, id: T -> K, ks: set<K>, k: K)
    requires k in Keys(ps, id) && k !in ks
    ensures k in Keys(Drop(ps, id, ks), id)
  {
    KeysMember(ps, id, k);
    var x :| x in ps && id(x) == k;
    assert x in Drop(ps, id, ks);
  }

  /** A row appended under a key no row carries keeps keys unique. */
  lemma AppendDistinct<T(!new), K>(s: seq<T>, key: T -> K, x: T)
    requires DistinctKeys(s, key)
    requires forall y :: y in s ==> key(y) != key(x)
    ensures DistinctKeys(s + [x], key)
  {
    var r := s + [x];
    forall i, j | 0 <= i < j < |r| ensures key(r[i]) != key(r[j]) {
      if j == |s| {
        assert r[i] == s[i] && r[j] == x;
      } else {
        assert r[i] == s[i] && r[j] == s[j];
      }
    }
  }

  /** `s` with every row whose key is `k` replaced by `v` (an UPDATE by key). */
  function Replace<T, K(==)>(s: seq<T>, key: T -> K, k: K, v: T): seq<T>
  {
    seq(|s|, i requires 0 <= i < |s| => if key(s[i]) == k then v else s[i])
  }

  /** An update that leaves column `col` of the updated rows alone leaves the
      column's values, and their uniqueness, alone. */
  lemma ReplaceKeepsColumn<T(!new), K, J>(s: seq<T>, key: T -> K, k: K, v: T, col: T -> J)
    requires forall x :: x in s && key(x) == k ==> col(x) == col(v)
    ensures Keys(Replace(s, key, k, v), col) == Keys(s, col)
    ensures DistinctKeys(s, col) ==> DistinctKeys(Replace(s, key, k, v), col)
  {
    var r := Replace(s, key, k, v);
    assert forall i :: 0 <= i < |s| ==> col(r[i]) == col(s[i]);
    forall c | c in Keys(r, col) ensures c in Keys(s, col) {
      KeysMember(r, col, c);
      var x :| x in r && col(x) == c;
      var i :| 0 <= i < |r| && r[i] == x;
      assert s[i] in s;
    }
    forall c | c in Keys(s, col) ensures c in Keys(r, col) {
      KeysMember(s, col, c);
      var x :| x in s && col(x) == c;
      var i :| 0 <= i < |s| && s[i] == x;
      assert r[i] in r;
    }
  }
}
