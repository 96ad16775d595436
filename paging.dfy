/** Row order and `LIMIT ? OFFSET ?` paging as the list queries use them. */
module Paging {

  /** SQLite's rule for OFFSET: a negative offset acts as 0. */
  function Offset(skip: int): nat
  {
    if skip < 0 then 0 else skip
  }

  /** The number of rows `LIMIT limit OFFSET skip` keeps out of `n` ordered rows.
      SQLite's rule for LIMIT: a negative limit means no upper bound. */
  function PageSize(n: nat, skip: int, limit: int): nat
  {
    if Offset(skip) >= n then 0
    else if limit < 0 || n - Offset(skip) <= limit then n - Offset(skip)
    else limit
  }

  /** The rows of `s` that `LIMIT limit OFFSET skip` returns. */
  function Window<T>(s: seq<T>, skip: int, limit: int): (r: seq<T>)
    ensures |r| == PageSize(|s|, skip, limit)
    ensures limit >= 0 ==> |r| <= limit
    ensures Offset(skip) >= |s| ==> r == []
    ensures Offset(skip) < |s| ==> r == s[Offset(skip)..Offset(skip) + |r|]
  {
    if Offset(skip) >= |s| then []
    else s[Offset(skip)..Offset(skip) + PageSize(|s|, skip, limit)]
  }

  /** Two consecutive pages, the second starting where the first ends, are
      together the page that spans both. */
  lemma {:induction false} WindowConsecutive<T>(s: seq<T>, skip: nat, n: nat, m: nat)
    ensures Window(s, skip, n) + Window(s, skip + n, m) == Window(s, skip, n + m)
  {
    if skip >= |s| {
    } else if skip + n >= |s| {
      assert Window(s, skip + n, m) == [];
      assert PageSize(|s|, skip, n) == |s| - skip == PageSize(|s|, skip, n + m);
    } else {
      var a := PageSize(|s|, skip + n, m);
      assert PageSize(|s|, skip, n) == n;
      assert PageSize(|s|, skip, n + m) == n + a;
      assert s[skip..skip + n] + s[skip + n..skip + n + a] == s[skip..skip + n + a];
    }
  }

  /** A page with no effective bounds is the whole ordered result. */
  lemma WindowUnbounded<T>(s: seq<T>, skip: int, limit: int)
    requires skip <= 0 && (limit < 0 || limit >= |s|)
    ensures Window(s, skip, limit) == s
  {
    if |s| > 0 {
      assert Window(s, skip, limit) == s[0..|s|];
    }
  }

  /** Rows in the order of `key`, largest first (ties in any order). */
  ghost predicate SortedDesc<T>(s: seq<T>, key: T -> int)
  {
    forall i, j :: 0 <= i < j < |s| ==> key(s[i]) >= key(s[j])
  }

  /** `key` never decreases as the row id grows: the rows of an AUTOINCREMENT
      table stamped from a clock that does not run backwards. */
  ghost predicate MonotoneInId<T>(m: map<int, T>, key: T -> int)
  {
    forall i, j :: i in m && j in m && i < j ==> key(m[i]) <= key(m[j])
  }

  /** The ids in `keys` below `hi`, largest first. */
  function IdsDesc(keys: set<int>, hi: nat): (r: seq<int>)
    ensures forall k :: 0 <= k < |r| ==> r[k] in keys && 0 <= r[k] < hi
  {
    if hi == 0 then []
    else if hi - 1 in keys then [hi - 1] + IdsDesc(keys, hi - 1)
    else IdsDesc(keys, hi - 1)
  }

  /** The listing is strictly decreasing, so it names no id twice. */
  lemma {:induction false} IdsDescDecreasing(keys: set<int>, hi: nat)
    ensures forall k, l :: 0 <= k < l < |IdsDesc(keys, hi)| ==> IdsDesc(keys, hi)[k] > IdsDesc(keys, hi)[l]
  {
    if hi > 0 {
      IdsDescDecreasing(keys, hi - 1);
    }
  }

  /** The listing names every id in `keys` below `hi`. */
  lemma {:induction false} IdsDescComplete(keys: set<int>, hi: nat)
    ensures forall id :: id in keys && 0 <= id < hi ==> id in IdsDesc(keys, hi)
  {
    if hi > 0 {
      IdsDescComplete(keys, hi - 1);
    }
  }

  /** The ids in `keys` below `hi`. */
  ghost function Below(keys: set<int>, hi: nat): set<int>
  {
    set id | id in keys && 0 <= id < hi
  }

  /** Every id below `hi` is listed exactly once, so the listing is as long as
      the set of those ids. */
  lemma {:induction false} IdsDescLength(keys: set<int>, hi: nat)
    ensures |IdsDesc(keys, hi)| == |Below(keys, hi)|
  {
    if hi == 0 {
      assert Below(keys, hi) == {};
    } else {
      IdsDescLength(keys, hi - 1);
      if hi - 1 in keys {
        assert Below(keys, hi) == Below(keys, hi - 1) + {hi - 1};
        assert hi - 1 !in Below(keys, hi - 1);
      } else {
        assert Below(keys, hi) == Below(keys, hi - 1);
      }
    }
  }

  /** The rows of `m` listed in the order of `ids`. */
  function Rows<T>(m: map<int, T>, ids: seq<int>): seq<T>
    requires forall k :: 0 <= k < |ids| ==> ids[k] in m
  {
    seq(|ids|, k requires 0 <= k < |ids| => m[ids[k]])
  }

  /** The rows of `m`, most recent id first: the order `ORDER BY created_at DESC`
      returns when created_at is monotone in the id. */
  function NewestFirst<T>(m: map<int, T>, hi: nat): seq<T>
  {
    Rows(m, IdsDesc(m.Keys, hi))
  }

  /** When every id is below `hi`, the newest-first listing holds as many rows as the table. */
  lemma NewestFirstLength<T>(m: map<int, T>, hi: nat)
    requires forall id :: id in m ==> 0 <= id < hi
    ensures |NewestFirst(m, hi)| == |m|
  {
    IdsDescLength(m.Keys, hi);
    assert Below(m.Keys, hi) == m.Keys;
  }

  /** When every id is below `hi`, every row of the table is in the newest-first listing. */
  lemma NewestFirstComplete<T>(m: map<int, T>, hi: nat)
    requires forall id :: id in m ==> 0 <= id < hi
    ensures forall id :: id in m ==> m[id] in NewestFirst(m, hi)
  {
    var ids := IdsDesc(m.Keys, hi);
    var rows := NewestFirst(m, hi);
    IdsDescComplete(m.Keys, hi);
    forall id | id in m ensures m[id] in rows {
      var k :| 0 <= k < |ids| && ids[k] == id;
      assert rows[k] == m[id];
    }
  }

  /** If `key` is monotone in the id, the newest-first listing is sorted by `key`,
      largest first. */
  lemma NewestFirstSorted<T>(m: map<int, T>, hi: nat, key: T -> int)
    requires MonotoneInId(m, key)
    ensures SortedDesc(NewestFirst(m, hi), key)
  {
    var ids := IdsDesc(m.Keys, hi);
    var rows := NewestFirst(m, hi);
    IdsDescDecreasing(m.Keys, hi);
    forall i, j | 0 <= i < j < |rows| ensures key(rows[i]) >= key(rows[j]) {
      assert rows[i] == m[ids[i]] && rows[j] == m[ids[j]];
      assert ids[j] < ids[i];
    }
  }

  /** The newest-first listing of a table whose rows carry their own id (given
      by `id`) and whose `key` is monotone in the id: every row exactly once,
      each row the one stored under its id, ids strictly decreasing, `key` never
      increasing. */
  lemma NewestFirstListing<T>(m: map<int, T>, hi: nat, key: T -> int, id: T -> int)
    requires forall i :: i in m ==> 0 <= i < hi && id(m[i]) == i
    requires MonotoneInId(m, key)
    ensures |NewestFirst(m, hi)| == |m|
    ensures forall i :: i in m ==> m[i] in NewestFirst(m, hi)
    ensures forall k :: 0 <= k < |NewestFirst(m, hi)| ==>
      id(NewestFirst(m, hi)[k]) in m && m[id(NewestFirst(m, hi)[k])] == NewestFirst(m, hi)[k]
    ensures forall k, l :: 0 <= k < l < |NewestFirst(m, hi)| ==> id(NewestFirst(m, hi)[k]) > id(NewestFirst(m, hi)[l])
    ensures SortedDesc(NewestFirst(m, hi), key)
  {
    NewestFirstLength(m, hi);
    NewestFirstComplete(m, hi);
    NewestFirstSorted(m, hi, key);
    var ids := IdsDesc(m.Keys, hi);
    IdsDescDecreasing(m.Keys, hi);
    var rows := NewestFirst(m, hi);
    forall k | 0 <= k < |rows| ensures id(rows[k]) == ids[k] && ids[k] in m {
      assert rows[k] == m[ids[k]];
    }
  }

  /** A page of rows sorted by `key` is sorted by `key`. */
  lemma WindowSorted<T>(s: seq<T>, skip: int, limit: int, key: T -> int)
    requires SortedDesc(s, key)
    ensures SortedDesc(Window(s, skip, limit), key)
  {
    var page, o := Window(s, skip, limit), Offset(skip);
    forall i, j | 0 <= i < j < |page| ensures key(page[i]) >= key(page[j]) {
      assert page[i] == s[o + i] && page[j] == s[o + j];
    }
  }

  /** Paging the rows is paging the ids and then fetching the rows. */
  lemma RowsWindow<T>(m: map<int, T>, ids: seq<int>, skip: int, limit: int)
    requires forall k :: 0 <= k < |ids| ==> ids[k] in m
    ensures forall k :: 0 <= k < |Window(ids, skip, limit)| ==> Window(ids, skip, limit)[k] in m
    ensures Rows(m, Window(ids, skip, limit)) == Window(Rows(m, ids), skip, limit)
  {
  }
}
