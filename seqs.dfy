/** Sequence operations that stand for the relational parts of the SQL queries:
    WHERE (Filter), `fetchone()` on a WHERE (IndexOf) and ORDER BY ... DESC (SortDesc). */
module Seqs {
  import opened Optional

  /** The elements of `s` that satisfy `p`, in their original order. */
  function Filter<T(!new)>(s: seq<T>, p: T -> bool): (r: seq<T>)
    ensures |r| <= |s|
    ensures forall x :: multiset(r)[x] == if p(x) then multiset(s)[x] else 0
    ensures forall x :: x in r <==> x in s && p(x)
  {
    if s == [] then []
    else
      assert s == [s[0]] + s[1..];
      if p(s[0]) then [s[0]] + Filter(s[1..], p) else Filter(s[1..], p)
  }

  /** The position of the first element of `s` that satisfies `p`, if any. */
  function IndexOf<T>(s: seq<T>, p: T -> bool): (r: Option<nat>)
    ensures r.Some? ==> r.value < |s| && p(s[r.value])
    ensures r.Some? ==> forall j :: 0 <= j < r.value ==> !p(s[j])
    ensures r.None? <==> forall j :: 0 <= j < |s| ==> !p(s[j])
  {
    if s == [] then None
    else if p(s[0]) then Some(0)
    else match IndexOf(s[1..], p)
      case None => None
      case Some(k) => Some(k + 1)
  }

  /** No two elements of `s` have the same key (a PRIMARY KEY or UNIQUE column). */
  predicate Distinct<T, K(==)>(s: seq<T>, key: T -> K) {
    forall i, j :: 0 <= i < j < |s| ==> key(s[i]) != key(s[j])
  }

  /** In a sequence with distinct keys, a key determines the position. */
  lemma DistinctAt<T, K>(s: seq<T>, key: T -> K, i: nat, j: nat)
    requires Distinct(s, key)
    requires i < |s| && j < |s| && key(s[i]) == key(s[j])
    ensures i == j
  {
  }

  /** Replacing elements without changing their keys keeps the keys distinct. */
  lemma DistinctSameKeys<T, K>(s: seq<T>, s': seq<T>, key: T -> K)
    requires Distinct(s, key) && |s'| == |s|
    requires forall k :: 0 <= k < |s| ==> key(s'[k]) == key(s[k])
    ensures Distinct(s', key)
  {
    forall i, j | 0 <= i < j < |s'| ensures key(s'[i]) != key(s'[j]) {
      assert key(s[i]) != key(s[j]);
    }
  }

  /** Appending an element with a new key keeps the keys distinct. */
  lemma DistinctAppend<T, K>(s: seq<T>, x: T, key: T -> K)
    requires Distinct(s, key)
    requires forall k :: 0 <= k < |s| ==> key(s[k]) != key(x)
    ensures Distinct(s + [x], key)
  {
    forall i, j | 0 <= i < j < |s| + 1 ensures key((s + [x])[i]) != key((s + [x])[j]) {
      if j < |s| {
        assert key(s[i]) != key(s[j]);
      }
    }
  }

  /** Putting an element with a new key in front keeps the keys distinct. */
  lemma ConsDistinct<T, K>(x: T, s: seq<T>, key: T -> K)
    requires Distinct(s, key)
    requires forall k :: 0 <= k < |s| ==> key(s[k]) != key(x)
    ensures Distinct([x] + s, key)
  {
    forall i, j | 0 <= i < j < |s| + 1 ensures key(([x] + s)[i]) != key(([x] + s)[j]) {
      if 0 < i {
        assert key(s[i - 1]) != key(s[j - 1]);
      }
    }
  }

  /** Filtering keeps distinct keys distinct. */
  lemma {:induction false} DistinctFilter<T(!new), K>(s: seq<T>, key: T -> K, p: T -> bool)
    requires Distinct(s, key)
    ensures Distinct(Filter(s, p), key)
  {
    if s != [] {
      DistinctFilter(s[1..], key, p);
      var rest := Filter(s[1..], p);
      if p(s[0]) {
        forall k | 0 <= k < |rest| ensures key(rest[k]) != key(s[0]) {
          assert rest[k] in s[1..];
          var m :| 0 <= m < |s| - 1 && s[1..][m] == rest[k];
          assert s[m + 1] == rest[k];
        }
        ConsDistinct(s[0], rest, key);
      }
    }
  }

  /** `s` is ordered by `key`, largest first. */
  predicate SortedDesc<T>(s: seq<T>, key: T -> nat) {
    forall i, j :: 0 <= i < j < |s| ==> key(s[i]) >= key(s[j])
  }

  /** Puts `x` into the descending sequence `s`, ahead of the elements with an equal key. */
  function InsertDesc<T(!new)>(x: T, s: seq<T>, key: T -> nat): (r: seq<T>)
    requires SortedDesc(s, key)
    ensures SortedDesc(r, key)
    ensures multiset(r) == multiset(s) + multiset{x}
    ensures |r| == |s| + 1
  {
    if s == [] || key(x) >= key(s[0]) then
      ConsSorted(x, s, key);
      [x] + s
    else
      var rest := InsertDesc(x, s[1..], key);
      assert s == [s[0]] + s[1..];
      assert forall y :: y in rest ==> key(y) <= key(s[0]) by {
        forall y | y in rest ensures key(y) <= key(s[0]) {
          assert y in multiset(rest);
          if y != x {
            assert y in s[1..];
          }
        }
      }
      ConsSorted(s[0], rest, key);
      [s[0]] + rest
  }

  /** A head no smaller than anything in a descending tail keeps the sequence descending. */
  lemma ConsSorted<T>(h: T, t: seq<T>, key: T -> nat)
    requires SortedDesc(t, key)
    requires forall y :: y in t ==> key(y) <= key(h)
    ensures SortedDesc([h] + t, key)
  {
    forall i, j | 0 <= i < j < |t| + 1
      ensures key(([h] + t)[i]) >= key(([h] + t)[j])
    {
      assert t[j - 1] in t;
    }
  }

  /** `s` ordered by `key`, largest first; elements with equal keys keep their order. */
  function SortDesc<T(!new)>(s: seq<T>, key: T -> nat): (r: seq<T>)
    ensures SortedDesc(r, key)
    ensures multiset(r) == multiset(s)
    ensures |r| == |s|
  {
    if s == [] then []
    else
      assert s == [s[0]] + s[1..];
      InsertDesc(s[0], SortDesc(s[1..], key), key)
  }
}
