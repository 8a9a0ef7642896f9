/** `Array.prototype.sort` with a comparator `(a, b) => key(b) - key(a)` on an
    integer key: the result is ordered by non-increasing key, and since the
    sort is required to be stable (ECMA-262, 2019 edition onwards), elements
    with equal keys keep their input order. That determines the result
    uniquely; it is computed here by insertion. */
module Sorting {
  import opened Seqs

  predicate SortedDesc<T>(s: seq<T>, key: T -> int) {
    forall i, j :: 0 <= i < j < |s| ==> key(s[i]) >= key(s[j])
  }

  /** The elements whose key is `v`. */
  function KeyIs<T(!new)>(key: T -> int, v: int): (keep: T -> bool)
  {
    x => key(x) == v
  }

  /** No key of `s` exceeds `b`. */
  predicate KeysAtMost<T>(s: seq<T>, key: T -> int, b: int) {
    forall i :: 0 <= i < |s| ==> key(s[i]) <= b
  }

  /** Places `x` after every element of `s` whose key is at least its own. */
  function Insert<T>(x: T, s: seq<T>, key: T -> int): (r: seq<T>)
    ensures |r| == |s| + 1
    ensures multiset(r) == multiset(s) + multiset{x}
    ensures forall b :: KeysAtMost(s, key, b) && key(x) <= b ==> KeysAtMost(r, key, b)
  {
    if |s| == 0 || key(s[0]) < key(x) then [x] + s
    else
      assert s == [s[0]] + s[1..];
      var r := [s[0]] + Insert(x, s[1..], key);
      forall b | KeysAtMost(s, key, b) && key(x) <= b ensures KeysAtMost(r, key, b) {
        assert KeysAtMost(s[1..], key, b);
      }
      r
  }

  lemma {:induction false} InsertSorted<T>(x: T, s: seq<T>, key: T -> int)
    requires SortedDesc(s, key)
    ensures SortedDesc(Insert(x, s, key), key)
  {
    if |s| > 0 && key(s[0]) >= key(x) {
      InsertSorted(x, s[1..], key);
      assert KeysAtMost(s[1..], key, key(s[0]));
    }
  }

  /** Among elements of one key, the inserted element comes last. */
  lemma {:induction false} InsertKeepsOrder<T(!new)>(x: T, s: seq<T>, key: T -> int, v: int)
    requires SortedDesc(s, key)
    ensures Filter(Insert(x, s, key), KeyIs(key, v)) == Filter(s, KeyIs(key, v)) + Filter([x], KeyIs(key, v))
  {
    var keep := KeyIs(key, v);
    if |s| == 0 {
      assert [] + [x] == [x];
    } else if key(s[0]) < key(x) {
      InsertFront(x, s, key, v);
    } else {
      InsertKeepsOrder(x, s[1..], key, v);
      InsertBehind(x, s, Insert(x, s[1..], key), keep);
    }
  }

  lemma InsertFront<T(!new)>(x: T, s: seq<T>, key: T -> int, v: int)
    requires SortedDesc(s, key)
    requires |s| > 0 && key(s[0]) < key(x)
    ensures Filter([x] + s, KeyIs(key, v)) == Filter(s, KeyIs(key, v)) + Filter([x], KeyIs(key, v))
  {
    var keep := KeyIs(key, v);
    if keep(x) {
      assert forall i :: 0 <= i < |s| ==> !keep(s[i]);
    }
    SwapFront(x, s, keep);
  }

  /** An element that nothing in `s` competes with can move behind `s`. */
  lemma SwapFront<T>(x: T, s: seq<T>, keep: T -> bool)
    requires keep(x) ==> forall i :: 0 <= i < |s| ==> !keep(s[i])
    ensures Filter([x] + s, keep) == Filter(s, keep) + Filter([x], keep)
  {
    FilterAppend([x], s, keep);
    if keep(x) {
      FilterNone(s, keep);
    } else {
      FilterNone([x], keep);
    }
  }

  /** Putting `s[0]` in front of a sequence that filters like `s[1..]`
      followed by `x` gives one that filters like `s` followed by `x`. */
  lemma InsertBehind<T>(x: T, s: seq<T>, ins: seq<T>, keep: T -> bool)
    requires |s| > 0
    requires Filter(ins, keep) == Filter(s[1..], keep) + Filter([x], keep)
    ensures Filter([s[0]] + ins, keep) == Filter(s, keep) + Filter([x], keep)
  {
    var f0, f1, fx := Filter([s[0]], keep), Filter(s[1..], keep), Filter([x], keep);
    FilterAppend([s[0]], ins, keep);
    AppendAssoc(f0, f1, fx);
    FilterCons(s, keep);
  }

  /** The stable sort by non-increasing key. */
  function SortDesc<T>(s: seq<T>, key: T -> int): (r: seq<T>)
    ensures SortedDesc(r, key)
    ensures multiset(r) == multiset(s)
  {
    if |s| == 0 then []
    else
      var prefix := s[..|s| - 1];
      assert s == prefix + [s[|s| - 1]];
      InsertSorted(s[|s| - 1], SortDesc(prefix, key), key);
      Insert(s[|s| - 1], SortDesc(prefix, key), key)
  }

  /** Stability: the elements of each key appear in input order. */
  lemma {:induction false} SortDescIsStable<T(!new)>(s: seq<T>, key: T -> int, v: int)
    ensures Filter(SortDesc(s, key), KeyIs(key, v)) == Filter(s, KeyIs(key, v))
  {
    if |s| > 0 {
      var keep := KeyIs(key, v);
      var prefix, x := s[..|s| - 1], s[|s| - 1];
      var sorted := SortDesc(prefix, key);
      calc {
        Filter(SortDesc(s, key), keep);
        Filter(Insert(x, sorted, key), keep);
        == { InsertKeepsOrder(x, sorted, key, v); }
        Filter(sorted, keep) + Filter([x], keep);
        == { SortDescIsStable(prefix, key, v); }
        Filter(prefix, keep) + Filter([x], keep);
        == { FilterSnoc(s, keep); }
        Filter(s, keep);
      }
    }
  }

  /** When the first element has key `v`, it heads the elements of key `v`;
      otherwise it is not among them. */
  lemma FilterKeyCons<T(!new)>(t: seq<T>, key: T -> int, v: int)
    requires |t| > 0
    ensures key(t[0]) == v ==> Filter(t, KeyIs(key, v)) == [t[0]] + Filter(t[1..], KeyIs(key, v))
    ensures key(t[0]) != v ==> Filter(t, KeyIs(key, v)) == Filter(t[1..], KeyIs(key, v))
  {
    FilterCons(t, KeyIs(key, v));
    assert [t[0]][1..] == [];
  }

  /** A key that occurs in a sequence ordered by non-increasing key is at
      most its first key. */
  lemma KeyAtMostFirst<T(!new)>(t: seq<T>, key: T -> int, w: int)
    requires SortedDesc(t, key) && |Filter(t, KeyIs(key, w))| > 0
    ensures |t| > 0 && w <= key(t[0])
  {
    var f := Filter(t, KeyIs(key, w));
    assert f[0] in t;
  }

  /** Two non-empty sequences that agree on the elements of every key and
      start with the same element agree on the elements of every key after
      it. */
  lemma TailsAgree<T(!new)>(t: seq<T>, u: seq<T>, key: T -> int)
    requires |t| > 0 && |u| > 0 && t[0] == u[0]
    requires forall v :: Filter(t, KeyIs(key, v)) == Filter(u, KeyIs(key, v))
    ensures forall v :: Filter(t[1..], KeyIs(key, v)) == Filter(u[1..], KeyIs(key, v))
  {
    forall v ensures Filter(t[1..], KeyIs(key, v)) == Filter(u[1..], KeyIs(key, v)) {
      assert Filter(t, KeyIs(key, v)) == Filter(u, KeyIs(key, v));
      FilterKeyCons(t, key, v);
      FilterKeyCons(u, key, v);
      if key(t[0]) == v {
        ConsCancel(t[0], Filter(t[1..], KeyIs(key, v)), Filter(u[1..], KeyIs(key, v)));
      }
    }
  }

  /** Two sequences ordered by non-increasing key that agree on the elements
      of every key start with the same element. */
  lemma HeadsAgree<T(!new)>(t: seq<T>, u: seq<T>, key: T -> int)
    requires SortedDesc(t, key) && SortedDesc(u, key) && |t| > 0
    requires forall v :: Filter(t, KeyIs(key, v)) == Filter(u, KeyIs(key, v))
    ensures |u| > 0 && t[0] == u[0]
  {
    var v := key(t[0]);
    FilterKeyCons(t, key, v);
    assert Filter(u, KeyIs(key, v)) == Filter(t, KeyIs(key, v));
    KeyAtMostFirst(u, key, v);
    var w := key(u[0]);
    FilterKeyCons(u, key, w);
    assert Filter(t, KeyIs(key, w)) == Filter(u, KeyIs(key, w));
    KeyAtMostFirst(t, key, w);
    FilterKeyCons(u, key, v);
  }

  /** Two sequences ordered by non-increasing key that agree on the elements
      of every key, in order, are equal. */
  lemma {:induction false} SortedUnique<T(!new)>(t: seq<T>, u: seq<T>, key: T -> int)
    requires SortedDesc(t, key) && SortedDesc(u, key)
    requires forall v :: Filter(t, KeyIs(key, v)) == Filter(u, KeyIs(key, v))
    ensures t == u
  {
    if |t| > 0 {
      HeadsAgree(t, u, key);
      TailsAgree(t, u, key);
      SortedUnique(t[1..], u[1..], key);
      ConsEqual(t, u);
    } else if |u| > 0 {
      HeadsAgree(u, t, key);
    }
  }

  /** The sort result is the only ordering by non-increasing key that keeps
      the elements of each key in input order. */
  lemma SortDescUnique<T(!new)>(s: seq<T>, t: seq<T>, key: T -> int)
    requires SortedDesc(t, key)
    requires forall v :: Filter(t, KeyIs(key, v)) == Filter(s, KeyIs(key, v))
    ensures t == SortDesc(s, key)
  {
    forall v ensures Filter(t, KeyIs(key, v)) == Filter(SortDesc(s, key), KeyIs(key, v)) {
      SortDescIsStable(s, key, v);
    }
    SortedUnique(t, SortDesc(s, key), key);
  }

  /** A sequence already in order is left as it is. */
  lemma SortDescOfSorted<T(!new)>(s: seq<T>, key: T -> int)
    requires SortedDesc(s, key)
    ensures SortDesc(s, key) == s
  {
    SortDescUnique(s, s, key);
  }
}
