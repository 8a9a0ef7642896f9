/** `Array.prototype.filter` on sequences: the one order-preserving selection
    that the deduplication, the Torrentio mapping and the cache filter of the
    request handler all build on. */
module Seqs {
  import opened Wrappers

  function Filter<T>(s: seq<T>, keep: T -> bool): (r: seq<T>)
    ensures |r| <= |s|
    ensures forall i :: 0 <= i < |r| ==> r[i] in s && keep(r[i])
    ensures forall i :: 0 <= i < |s| && keep(s[i]) ==> s[i] in r
    ensures (forall i :: 0 <= i < |s| ==> keep(s[i])) ==> r == s
  {
    if |s| == 0 then []
    else
      var rest := Filter(s[1..], keep);
      assert forall i :: 0 < i < |s| ==> s[i] == s[1..][i - 1];
      if keep(s[0]) then [s[0]] + rest else rest
  }

  /** Filtering commutes with concatenation, so the survivors keep the
      relative order they had in the input. */
  lemma {:induction false} FilterAppend<T>(a: seq<T>, b: seq<T>, keep: T -> bool)
    ensures Filter(a + b, keep) == Filter(a, keep) + Filter(b, keep)
  {
    if |a| == 0 {
      assert a + b == b;
    } else {
      assert (a + b)[1..] == a[1..] + b;
      FilterAppend(a[1..], b, keep);
    }
  }

  /** The first element is kept or dropped on its own. */
  lemma FilterCons<T>(s: seq<T>, keep: T -> bool)
    requires |s| > 0
    ensures Filter(s, keep) == Filter([s[0]], keep) + Filter(s[1..], keep)
  {
    assert [s[0]][1..] == [];
  }

  /** The last element is kept or dropped on its own. */
  lemma FilterSnoc<T>(s: seq<T>, keep: T -> bool)
    requires |s| > 0
    ensures Filter(s, keep) == Filter(s[..|s| - 1], keep) + Filter([s[|s| - 1]], keep)
  {
    FilterAppend(s[..|s| - 1], [s[|s| - 1]], keep);
    assert s[..|s| - 1] + [s[|s| - 1]] == s;
  }

  /** When nothing passes, nothing survives. */
  lemma {:induction false} FilterNone<T>(s: seq<T>, keep: T -> bool)
    requires forall i :: 0 <= i < |s| ==> !keep(s[i])
    ensures Filter(s, keep) == []
  {
    if |s| > 0 {
      assert forall i :: 0 <= i < |s| - 1 ==> s[1..][i] == s[i + 1];
      FilterNone(s[1..], keep);
    }
  }

  /** Filtering by a predicate that agrees with `keep` on every element gives
      the same sequence. */
  lemma {:induction false} FilterCongruent<T>(s: seq<T>, keep: T -> bool, keep': T -> bool)
    requires forall i :: 0 <= i < |s| ==> keep(s[i]) == keep'(s[i])
    ensures Filter(s, keep) == Filter(s, keep')
  {
    if |s| > 0 {
      assert forall i :: 0 <= i < |s| - 1 ==> s[1..][i] == s[i + 1];
      FilterCongruent(s[1..], keep, keep');
    }
  }

  lemma AppendAssoc<T>(a: seq<T>, b: seq<T>, c: seq<T>)
    ensures a + (b + c) == (a + b) + c
  {
  }

  lemma ConsCancel<T>(x: T, a: seq<T>, b: seq<T>)
    requires [x] + a == [x] + b
    ensures a == b
  {
    assert a == ([x] + a)[1..];
  }

  lemma ConsEqual<T>(t: seq<T>, u: seq<T>)
    requires |t| > 0 && |u| > 0 && t[0] == u[0] && t[1..] == u[1..]
    ensures t == u
  {
    assert t == [t[0]] + t[1..];
    assert u == [u[0]] + u[1..];
  }

  /** The elements `f` maps to a value. */
  function Defined<T(!new), U>(f: T -> Option<U>): (keep: T -> bool)
  {
    x => f(x).Some?
  }

  /** `s.map(f).filter(Boolean)`: the values of the elements `f` maps to a
      value, in order. */
  function FilterMap<T(!new), U>(s: seq<T>, f: T -> Option<U>): (r: seq<U>)
    ensures |r| == |Filter(s, Defined(f))|
    ensures forall i :: 0 <= i < |r| ==> f(Filter(s, Defined(f))[i]) == Some(r[i])
  {
    if |s| == 0 then []
    else
      var rest := FilterMap(s[1..], f);
      match f(s[0])
      case None => rest
      case Some(y) => [y] + rest
  }

  lemma {:induction false} FilterMapAppend<T(!new), U>(a: seq<T>, b: seq<T>, f: T -> Option<U>)
    ensures FilterMap(a + b, f) == FilterMap(a, f) + FilterMap(b, f)
  {
    if |a| == 0 {
      assert a + b == b;
    } else {
      assert (a + b)[1..] == a[1..] + b;
      FilterMapAppend(a[1..], b, f);
    }
  }

  /** No two elements that have a key share it. */
  predicate DistinctKeys<T, K(==)>(s: seq<T>, key: T -> Option<K>) {
    forall i, j :: 0 <= i < j < |s| && key(s[i]).Some? ==> key(s[i]) != key(s[j])
  }

  lemma DistinctKeysTail<T, K>(s: seq<T>, key: T -> Option<K>)
    requires |s| > 0 && DistinctKeys(s, key)
    ensures DistinctKeys(s[1..], key)
  {
    forall i, j | 0 <= i < j < |s| - 1 && key(s[1..][i]).Some?
      ensures key(s[1..][i]) != key(s[1..][j])
    {
      assert s[1..][i] == s[i + 1] && s[1..][j] == s[j + 1];
    }
  }

  lemma DistinctKeysCons<T, K>(x: T, rest: seq<T>, key: T -> Option<K>)
    requires DistinctKeys(rest, key)
    requires forall j :: 0 <= j < |rest| && key(x).Some? ==> key(x) != key(rest[j])
    ensures DistinctKeys([x] + rest, key)
  {
    var r := [x] + rest;
    forall i, j | 0 <= i < j < |r| && key(r[i]).Some?
      ensures key(r[i]) != key(r[j])
    {
      assert r[j] == rest[j - 1];
      if i > 0 {
        assert r[i] == rest[i - 1];
      }
    }
  }

  /** Filtering keeps keys distinct. */
  lemma {:induction false} FilterKeepsDistinctKeys<T, K>(s: seq<T>, keep: T -> bool, key: T -> Option<K>)
    requires DistinctKeys(s, key)
    ensures DistinctKeys(Filter(s, keep), key)
  {
    if |s| > 0 {
      DistinctKeysTail(s, key);
      FilterKeepsDistinctKeys(s[1..], keep, key);
      var rest := Filter(s[1..], keep);
      if keep(s[0]) {
        forall j | 0 <= j < |rest| && key(s[0]).Some?
          ensures key(s[0]) != key(rest[j])
        {
          var k :| 0 <= k < |s| - 1 && s[1..][k] == rest[j];
          assert s[k + 1] == rest[j];
        }
        DistinctKeysCons(s[0], rest, key);
      }
    }
  }
}
