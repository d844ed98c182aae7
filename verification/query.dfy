/**
 The database's list query `findMany({ where, orderBy: { createdAt: "desc" } })` over one
 table, stated generically: a table is a map from integer key to record, `keep` is the
 `where` filter and `stamp` the creation time.
 */
module Query {
  import opened Seqs

  /** No key occurs twice. */
  predicate Distinct(ks: seq<int>) {
    forall i, j :: 0 <= i < j < |ks| ==> ks[i] != ks[j]
  }

  predicate AllIn<T>(m: map<int, T>, ks: seq<int>) {
    forall i :: 0 <= i < |ks| ==> ks[i] in m
  }

  /** The keys are listed newest record first. */
  ghost predicate NewestFirst<T>(m: map<int, T>, stamp: T -> int, ks: seq<int>)
    requires AllIn(m, ks)
  {
    forall i, j :: 0 <= i < j < |ks| ==> stamp(m[ks[i]]) >= stamp(m[ks[j]])
  }

  /** No two records of the table carry the same creation time. */
  ghost predicate StampsDistinct<T>(m: map<int, T>, stamp: T -> int) {
    forall a, b :: a in m && b in m && a != b ==> stamp(m[a]) != stamp(m[b])
  }

  /** The keys below `n` whose record passes `keep`, highest key first. */
  function Select<T>(m: map<int, T>, keep: T -> bool, n: nat): (ks: seq<int>)
    ensures forall k :: k in ks <==> 0 <= k < n && k in m && keep(m[k])
    ensures forall i, j :: 0 <= i < j < |ks| ==> ks[i] > ks[j]
  {
    if n == 0 then []
    else
      var rest := Select(m, keep, n - 1);
      if n - 1 in m && keep(m[n - 1]) then
        assert forall j :: 0 <= j < |rest| ==> rest[j] in rest;
        [n - 1] + rest
      else rest
  }

  /** Places key `k` before the first key whose record is not newer than `k`'s. */
  function InsertNewest<T>(m: map<int, T>, stamp: T -> int, k: int, ks: seq<int>): (r: seq<int>)
    requires k in m && AllIn(m, ks)
    ensures |r| == |ks| + 1 && AllIn(m, r)
    ensures forall x :: x in r <==> x == k || x in ks
  {
    if |ks| == 0 then [k]
    else if stamp(m[k]) >= stamp(m[ks[0]]) then [k] + ks
    else
      var rest := InsertNewest(m, stamp, k, ks[1..]);
      assert forall x :: x in ks <==> x == ks[0] || x in ks[1..] by { HeadTail(ks); }
      [ks[0]] + rest
  }

  /** Orders keys newest record first (insertion sort). */
  function SortNewest<T>(m: map<int, T>, stamp: T -> int, ks: seq<int>): (r: seq<int>)
    requires AllIn(m, ks)
    ensures |r| == |ks| && AllIn(m, r)
    ensures forall x :: x in r <==> x in ks
  {
    if |ks| == 0 then []
    else
      assert forall x :: x in ks <==> x == ks[0] || x in ks[1..] by { HeadTail(ks); }
      InsertNewest(m, stamp, ks[0], SortNewest(m, stamp, ks[1..]))
  }

  /** A key placed in front of newest-first keys whose records are all not newer keeps them newest first. */
  lemma ConsNewestFirst<T>(m: map<int, T>, stamp: T -> int, k: int, ks: seq<int>)
    requires k in m && AllIn(m, ks) && NewestFirst(m, stamp, ks)
    requires forall x :: x in ks ==> stamp(m[x]) <= stamp(m[k])
    ensures AllIn(m, [k] + ks) && NewestFirst(m, stamp, [k] + ks)
  {
    var r := [k] + ks;
    forall i, j | 0 <= i < j < |r| ensures stamp(m[r[i]]) >= stamp(m[r[j]]) {
      assert r[j] == ks[j - 1];
      if i > 0 { assert r[i] == ks[i - 1]; }
    }
  }

  lemma {:induction false} InsertNewestOrdered<T>(m: map<int, T>, stamp: T -> int, k: int, ks: seq<int>)
    requires k in m && AllIn(m, ks) && NewestFirst(m, stamp, ks)
    ensures NewestFirst(m, stamp, InsertNewest(m, stamp, k, ks))
    decreases |ks|
  {
    if |ks| == 0 {
    } else if stamp(m[k]) >= stamp(m[ks[0]]) {
      forall x | x in ks ensures stamp(m[x]) <= stamp(m[k]) {
        var i :| 0 <= i < |ks| && ks[i] == x;
      }
      ConsNewestFirst(m, stamp, k, ks);
    } else {
      var rest := InsertNewest(m, stamp, k, ks[1..]);
      InsertNewestOrdered(m, stamp, k, ks[1..]);
      forall x | x in rest ensures stamp(m[x]) <= stamp(m[ks[0]]) {
        if x != k {
          var i :| 0 <= i < |ks[1..]| && ks[1..][i] == x;
          assert ks[i + 1] == x;
        }
      }
      ConsNewestFirst(m, stamp, ks[0], rest);
    }
  }

  /** Keys of which none occurs in `ks` can be placed in front of distinct keys. */
  lemma ConsDistinct(k: int, ks: seq<int>)
    requires Distinct(ks) && k !in ks
    ensures Distinct([k] + ks)
  {
    var r := [k] + ks;
    forall i, j | 0 <= i < j < |r| ensures r[i] != r[j] {
      assert r[j] == ks[j - 1];
      if i > 0 { assert r[i] == ks[i - 1]; }
    }
  }

  lemma {:induction false} InsertNewestDistinct<T>(m: map<int, T>, stamp: T -> int, k: int, ks: seq<int>)
    requires k in m && AllIn(m, ks) && Distinct(ks) && k !in ks
    ensures Distinct(InsertNewest(m, stamp, k, ks))
    decreases |ks|
  {
    if |ks| == 0 {
    } else if stamp(m[k]) >= stamp(m[ks[0]]) {
      ConsDistinct(k, ks);
    } else {
      HeadTail(ks);
      DistinctTail(ks);
      InsertNewestDistinct(m, stamp, k, ks[1..]);
      ConsDistinct(ks[0], InsertNewest(m, stamp, k, ks[1..]));
    }
  }

  /** The tail of distinct keys is distinct and does not hold the head. */
  lemma DistinctTail(ks: seq<int>)
    requires |ks| > 0 && Distinct(ks)
    ensures Distinct(ks[1..]) && ks[0] !in ks[1..]
  {
    forall j | 0 <= j < |ks| - 1 ensures ks[1..][j] != ks[0] {
      assert ks[1..][j] == ks[j + 1];
    }
  }

  lemma {:induction false} SortNewestOrdered<T>(m: map<int, T>, stamp: T -> int, ks: seq<int>)
    requires AllIn(m, ks)
    ensures NewestFirst(m, stamp, SortNewest(m, stamp, ks))
    decreases |ks|
  {
    if |ks| > 0 {
      SortNewestOrdered(m, stamp, ks[1..]);
      InsertNewestOrdered(m, stamp, ks[0], SortNewest(m, stamp, ks[1..]));
    }
  }

  lemma {:induction false} SortNewestDistinct<T>(m: map<int, T>, stamp: T -> int, ks: seq<int>)
    requires AllIn(m, ks) && Distinct(ks)
    ensures Distinct(SortNewest(m, stamp, ks))
    decreases |ks|
  {
    if |ks| > 0 {
      DistinctTail(ks);
      SortNewestDistinct(m, stamp, ks[1..]);
      InsertNewestDistinct(m, stamp, ks[0], SortNewest(m, stamp, ks[1..]));
    }
  }

  /** The records stored under the given keys, in the same order. */
  function Fetch<T>(m: map<int, T>, ks: seq<int>): (r: seq<T>)
    requires AllIn(m, ks)
    ensures |r| == |ks| && forall i :: 0 <= i < |ks| ==> r[i] == m[ks[i]]
  {
    seq(|ks|, i requires 0 <= i < |ks| => m[ks[i]])
  }

  /** The keys of the records `FindNewest` lists, in the order it lists them. */
  function NewestKeys<T>(m: map<int, T>, keep: T -> bool, stamp: T -> int, n: nat): (ks: seq<int>)
    ensures AllIn(m, ks)
  {
    SortNewest(m, stamp, Select(m, keep, n))
  }

  /**
   `findMany` with filter `keep`, newest first, over the keys below `n`: every result is a
   stored record passing the filter, every such record is in the result, the result is
   ordered by descending creation time, and strictly so when creation times are distinct.
   */
  function FindNewest<T(==)>(m: map<int, T>, keep: T -> bool, stamp: T -> int, n: nat): (r: seq<T>)
    ensures forall i :: 0 <= i < |r| ==> r[i] in m.Values && keep(r[i])
    ensures |r| == |NewestKeys(m, keep, stamp, n)|
    ensures forall i :: 0 <= i < |r| ==> r[i] == m[NewestKeys(m, keep, stamp, n)[i]]
    ensures forall k :: 0 <= k < n && k in m && keep(m[k]) ==> m[k] in r
    ensures forall i, j :: 0 <= i < j < |r| ==> stamp(r[i]) >= stamp(r[j])
    ensures StampsDistinct(m, stamp) ==> forall i, j :: 0 <= i < j < |r| ==> stamp(r[i]) > stamp(r[j])
  {
    var selected := Select(m, keep, n);
    var ks := NewestKeys(m, keep, stamp, n);
    SortNewestOrdered(m, stamp, selected);
    SortNewestDistinct(m, stamp, selected);
    FetchKept(m, keep, ks);
    FetchComplete(m, ks);
    FetchOrdered(m, stamp, ks);
    Fetch(m, ks)
  }

  lemma FetchKept<T>(m: map<int, T>, keep: T -> bool, ks: seq<int>)
    requires AllIn(m, ks) && forall i :: 0 <= i < |ks| ==> keep(m[ks[i]])
    ensures var r := Fetch(m, ks); forall i :: 0 <= i < |r| ==> r[i] in m.Values && keep(r[i])
  {
    var r := Fetch(m, ks);
    forall i | 0 <= i < |r| ensures r[i] in m.Values {
      assert r[i] == m[ks[i]];
    }
  }

  lemma FetchComplete<T>(m: map<int, T>, ks: seq<int>)
    requires AllIn(m, ks)
    ensures forall k :: k in ks ==> m[k] in Fetch(m, ks)
  {
    var r := Fetch(m, ks);
    forall k | k in ks ensures m[k] in r {
      var i :| 0 <= i < |ks| && ks[i] == k;
      assert r[i] == m[k];
    }
  }

  lemma FetchOrdered<T>(m: map<int, T>, stamp: T -> int, ks: seq<int>)
    requires AllIn(m, ks) && NewestFirst(m, stamp, ks) && Distinct(ks)
    ensures var r := Fetch(m, ks); forall i, j :: 0 <= i < j < |r| ==> stamp(r[i]) >= stamp(r[j])
    ensures var r := Fetch(m, ks);
      StampsDistinct(m, stamp) ==> forall i, j :: 0 <= i < j < |r| ==> stamp(r[i]) > stamp(r[j])
  {
    var r := Fetch(m, ks);
    forall i, j | 0 <= i < j < |r| ensures stamp(r[i]) >= stamp(r[j]) {
      assert r[i] == m[ks[i]] && r[j] == m[ks[j]];
    }
    if StampsDistinct(m, stamp) {
      forall i, j | 0 <= i < j < |r| ensures stamp(r[i]) > stamp(r[j]) {
        assert r[i] == m[ks[i]] && r[j] == m[ks[j]];
        assert ks[i] != ks[j];
      }
    }
  }

  /** A listed record that is at least as new as every record of the table comes first. */
  lemma NewestComesFirst<T>(m: map<int, T>, keep: T -> bool, stamp: T -> int, n: nat, v: T)
    requires StampsDistinct(m, stamp)
    requires v in FindNewest(m, keep, stamp, n)
    requires forall k :: k in m ==> stamp(m[k]) <= stamp(v)
    ensures FindNewest(m, keep, stamp, n)[0] == v
  {
    var r := FindNewest(m, keep, stamp, n);
    var ks := NewestKeys(m, keep, stamp, n);
    var j :| 0 <= j < |r| && r[j] == v;
    assert r[0] == m[ks[0]] && ks[0] in m;
    assert stamp(r[0]) <= stamp(v);
    assert j == 0;
  }
}
