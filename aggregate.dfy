/**
 * `GROUP BY key ... SUM(amount)` over a sequence of keyed amounts, as the
 * expense reports compute it. Groups come out in order of first
 * appearance (SQL leaves the order open; the lemmas below do not depend
 * on it).
 */
module Aggregate {

  /** Total of all amounts. */
  function Sum<K>(rows: seq<(K, real)>): real
  {
    if rows == [] then 0.0 else rows[0].1 + Sum(rows[1..])
  }

  /** Total of the amounts whose key is k. */
  function SumFor<K(==)>(rows: seq<(K, real)>, k: K): real
  {
    if rows == [] then 0.0
    else (if rows[0].0 == k then rows[0].1 else 0.0) + SumFor(rows[1..], k)
  }

  /** The keys that occur. */
  function Keys<K>(rows: seq<(K, real)>): set<K>
  {
    if rows == [] then {} else {rows[0].0} + Keys(rows[1..])
  }

  /** No key occurs twice. */
  predicate DistinctKeys<K(==)>(g: seq<(K, real)>)
  {
    g == [] || (g[0].0 !in Keys(g[1..]) && DistinctKeys(g[1..]))
  }

  /** Adds v to the group of k, opening a new group at the end if there is none. */
  function AddTo<K(==)>(g: seq<(K, real)>, k: K, v: real): seq<(K, real)>
  {
    if g == [] then [(k, v)]
    else if g[0].0 == k then [(k, g[0].1 + v)] + g[1..]
    else [g[0]] + AddTo(g[1..], k, v)
  }

  /** Folds the rows into the groups acc, left to right. */
  function GroupFrom<K(==)>(acc: seq<(K, real)>, rows: seq<(K, real)>): seq<(K, real)>
    decreases rows
  {
    if rows == [] then acc else GroupFrom(AddTo(acc, rows[0].0, rows[0].1), rows[1..])
  }

  /** One row per distinct key holding the sum of that key's amounts. */
  function GroupSum<K(==)>(rows: seq<(K, real)>): seq<(K, real)>
  {
    GroupFrom([], rows)
  }

  lemma {:induction false} KeysIndex<K>(rows: seq<(K, real)>, k: K)
    ensures k in Keys(rows) <==> exists i :: 0 <= i < |rows| && rows[i].0 == k
  {
    if rows != [] {
      KeysIndex(rows[1..], k);
      if k in Keys(rows[1..]) {
        var i :| 0 <= i < |rows[1..]| && rows[1..][i].0 == k;
        assert rows[i + 1].0 == k;
      }
      if exists i :: 0 <= i < |rows| && rows[i].0 == k {
        var i :| 0 <= i < |rows| && rows[i].0 == k;
        if i > 0 { assert rows[1..][i - 1].0 == k; }
      }
    }
  }

  lemma {:induction false} SumForAbsent<K>(rows: seq<(K, real)>, k: K)
    requires k !in Keys(rows)
    ensures SumFor(rows, k) == 0.0
  {
    if rows != [] { SumForAbsent(rows[1..], k); }
  }

  lemma {:induction false} AddToSumFor<K>(g: seq<(K, real)>, k: K, v: real, j: K)
    ensures SumFor(AddTo(g, k, v), j) == SumFor(g, j) + (if j == k then v else 0.0)
  {
    if g != [] && g[0].0 != k {
      AddToSumFor(g[1..], k, v, j);
      assert AddTo(g, k, v)[1..] == AddTo(g[1..], k, v);
    } else if g != [] {
      assert AddTo(g, k, v)[1..] == g[1..];
    }
  }

  lemma {:induction false} AddToSum<K>(g: seq<(K, real)>, k: K, v: real)
    ensures Sum(AddTo(g, k, v)) == Sum(g) + v
  {
    if g != [] && g[0].0 != k {
      AddToSum(g[1..], k, v);
      assert AddTo(g, k, v)[1..] == AddTo(g[1..], k, v);
    } else if g != [] {
      assert AddTo(g, k, v)[1..] == g[1..];
    }
  }

  lemma {:induction false} AddToKeys<K>(g: seq<(K, real)>, k: K, v: real)
    ensures Keys(AddTo(g, k, v)) == Keys(g) + {k}
    ensures DistinctKeys(g) ==> DistinctKeys(AddTo(g, k, v))
  {
    if g == [] {
      assert AddTo(g, k, v)[1..] == [];
    } else if g[0].0 == k {
      assert AddTo(g, k, v)[1..] == g[1..];
    } else {
      AddToKeys(g[1..], k, v);
      assert AddTo(g, k, v)[1..] == AddTo(g[1..], k, v);
    }
  }

  lemma {:induction false} GroupFromFacts<K>(acc: seq<(K, real)>, rows: seq<(K, real)>)
    ensures Keys(GroupFrom(acc, rows)) == Keys(acc) + Keys(rows)
    ensures DistinctKeys(acc) ==> DistinctKeys(GroupFrom(acc, rows))
    ensures Sum(GroupFrom(acc, rows)) == Sum(acc) + Sum(rows)
    ensures forall k :: SumFor(GroupFrom(acc, rows), k) == SumFor(acc, k) + SumFor(rows, k)
    decreases rows
  {
    if rows != [] {
      var next := AddTo(acc, rows[0].0, rows[0].1);
      AddToKeys(acc, rows[0].0, rows[0].1);
      AddToSum(acc, rows[0].0, rows[0].1);
      forall k ensures SumFor(next, k) == SumFor(acc, k) + (if k == rows[0].0 then rows[0].1 else 0.0) {
        AddToSumFor(acc, rows[0].0, rows[0].1, k);
      }
      GroupFromFacts(next, rows[1..]);
    }
  }

  /** In groups with distinct keys, each row's amount is the sum for its key. */
  lemma {:induction false} DistinctEntry<K>(g: seq<(K, real)>, i: int)
    requires DistinctKeys(g) && 0 <= i < |g|
    ensures g[i].1 == SumFor(g, g[i].0)
  {
    if i == 0 {
      SumForAbsent(g[1..], g[0].0);
    } else {
      DistinctEntry(g[1..], i - 1);
      KeysIndex(g[1..], g[i].0);
      assert g[0].0 != g[i].0;
    }
  }

  lemma {:induction false} DistinctIndex<K>(g: seq<(K, real)>, i: int, j: int)
    requires DistinctKeys(g) && 0 <= i < j < |g|
    ensures g[i].0 != g[j].0
  {
    if i == 0 {
      KeysIndex(g[1..], g[j].0);
      assert g[1..][j - 1].0 == g[j].0;
    } else {
      DistinctIndex(g[1..], i - 1, j - 1);
    }
  }

  /**
   * The grouping is exact: one row per key that occurs (and no other), no
   * key twice, every row carrying the total of its key, and the row totals
   * adding up to the total of the input.
   */
  lemma GroupSumCorrect<K>(rows: seq<(K, real)>)
    ensures Keys(GroupSum(rows)) == Keys(rows)
    ensures forall i, j :: 0 <= i < j < |GroupSum(rows)| ==> GroupSum(rows)[i].0 != GroupSum(rows)[j].0
    ensures forall i :: 0 <= i < |GroupSum(rows)| ==> GroupSum(rows)[i].1 == SumFor(rows, GroupSum(rows)[i].0)
    ensures Sum(GroupSum(rows)) == Sum(rows)
  {
    var g := GroupSum(rows);
    GroupFromFacts([], rows);
    forall i, j | 0 <= i < j < |g| ensures g[i].0 != g[j].0 {
      DistinctIndex(g, i, j);
    }
    forall i | 0 <= i < |g| ensures g[i].1 == SumFor(rows, g[i].0) {
      DistinctEntry(g, i);
      assert SumFor(g, g[i].0) == SumFor([], g[i].0) + SumFor(rows, g[i].0);
    }
  }
}
