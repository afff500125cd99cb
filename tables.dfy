/** Reading a table of the persisted store as a list of rows, and the
    `orderBy: { createdAt: 'desc' }` ordering the listings ask for. A table is
    a map from row id to record; ids are handed out below a counter, so the
    rows can be listed in id order. */
module Tables {

  /** The rows of `m` with ids below `n`, in increasing id order. */
  function TableRows<T(!new)>(m: map<nat, T>, n: nat): (r: seq<(nat, T)>)
    ensures forall row :: row in r ==> row.0 < n && row.0 in m && m[row.0] == row.1
    ensures forall id :: id in m && id < n ==> (id, m[id]) in r
  {
    if n == 0 then []
    else
      var before := TableRows(m, n - 1);
      if n - 1 in m then before + [(n - 1, m[n - 1])] else before
  }

  /** Each record is listed once: the ids strictly increase along the rows. */
  lemma {:induction false} TableRowsIncreasing<T(!new)>(m: map<nat, T>, n: nat)
    ensures forall a, b :: 0 <= a < b < |TableRows(m, n)| ==> TableRows(m, n)[a].0 < TableRows(m, n)[b].0
  {
    if n > 0 {
      TableRowsIncreasing(m, n - 1);
    }
  }

  /** The rows that satisfy `p`, in their order. */
  function Filter<T(!new)>(s: seq<T>, p: T -> bool): (r: seq<T>)
    ensures forall x :: x in r <==> x in s && p(x)
    ensures |r| <= |s|
  {
    if s == [] then []
    else (if p(s[0]) then [s[0]] else []) + Filter(s[1..], p)
  }

  /** How many of the rows hold a record satisfying `p`. */
  function CountRecords<T>(rows: seq<(nat, T)>, p: T -> bool): (c: nat)
    ensures c <= |rows|
  {
    if rows == [] then 0 else CountRecords(rows[..|rows| - 1], p) + (if p(rows[|rows| - 1].1) then 1 else 0)
  }

  /** The ids of the records of a table that satisfy `p`. */
  function IdsWhere<T>(m: map<nat, T>, n: nat, p: T -> bool): set<nat> {
    set id | id in m && id < n && p(m[id])
  }

  /** How many ids below `n` hold a record satisfying `p`. */
  function IdCount<T>(m: map<nat, T>, n: nat, p: T -> bool): nat {
    |IdsWhere(m, n, p)|
  }

  /** How many listed rows below `n` hold a record satisfying `p`. */
  function RowCount<T(!new)>(m: map<nat, T>, n: nat, p: T -> bool): nat {
    CountRecords(TableRows(m, n), p)
  }

  /** Whether the id `n - 1` adds one to a count. */
  function Step<T>(m: map<nat, T>, n: nat, p: T -> bool): nat
    requires n > 0
  {
    if n - 1 in m && p(m[n - 1]) then 1 else 0
  }

  lemma IdsWhereStep<T>(m: map<nat, T>, n: nat, p: T -> bool)
    requires n > 0
    ensures IdCount(m, n, p) == IdCount(m, n - 1, p) + Step(m, n, p)
  {
    var ids := IdsWhere(m, n - 1, p);
    if n - 1 in m && p(m[n - 1]) {
      assert IdsWhere(m, n, p) == ids + {n - 1};
      assert n - 1 !in ids;
    } else {
      assert IdsWhere(m, n, p) == ids;
    }
  }

  lemma RowsStep<T(!new)>(m: map<nat, T>, n: nat, p: T -> bool)
    requires n > 0
    ensures RowCount(m, n, p) == RowCount(m, n - 1, p) + Step(m, n, p)
  {
    var before := TableRows(m, n - 1);
    if n - 1 in m {
      var rows := before + [(n - 1, m[n - 1])];
      assert rows[..|rows| - 1] == before;
    }
  }

  lemma {:induction false} CountsAgree<T(!new)>(m: map<nat, T>, n: nat, p: T -> bool)
    ensures RowCount(m, n, p) == IdCount(m, n, p)
  {
    if n > 0 {
      CountsAgree(m, n - 1, p);
      RowsStep(m, n, p);
      IdsWhereStep(m, n, p);
    } else {
      assert IdsWhere(m, n, p) == {};
    }
  }

  /** Counting the listed rows counts the records of the table. */
  lemma CountRows<T(!new)>(m: map<nat, T>, n: nat, p: T -> bool)
    ensures CountRecords(TableRows(m, n), p) == |IdsWhere(m, n, p)|
  {
    CountsAgree(m, n, p);
  }

  /** The records of a table with an id below `n` are exactly the table when
      every id is below `n`: counting them counts the table. */
  lemma {:induction false} CountAll<T(!new)>(m: map<nat, T>, n: nat, p: T -> bool)
    requires forall id :: id in m ==> id < n
    requires forall x :: p(x)
    ensures CountRecords(TableRows(m, n), p) == |m|
  {
    CountRows(m, n, p);
    assert IdsWhere(m, n, p) == m.Keys;
  }

  /** Each id below `n` gives one row. */
  lemma {:induction false} TableRowsLength<T(!new)>(m: map<nat, T>, n: nat)
    requires forall id :: id in m ==> id < n
    ensures |TableRows(m, n)| == |m|
  {
    CountAll(m, n, _ => true);
    CountEverything(TableRows(m, n));
  }

  lemma {:induction false} CountEverything<T>(rows: seq<(nat, T)>)
    ensures CountRecords(rows, _ => true) == |rows|
  {
    if rows != [] {
      CountEverything(rows[..|rows| - 1]);
    }
  }

  /** `aggregate({ _sum: amount, where: p })`: the total over the records with
      an id below `n` that satisfy `p` (0 when there are none). */
  function SumWhere<T>(m: map<nat, T>, n: nat, p: T -> bool, amount: T -> real): real {
    if n == 0 then 0.0
    else SumWhere(m, n - 1, p, amount) + (if n - 1 in m && p(m[n - 1]) then amount(m[n - 1]) else 0.0)
  }

  /** What one record adds to a sum. */
  function Share<T>(x: T, p: T -> bool, amount: T -> real): real {
    if p(x) then amount(x) else 0.0
  }

  /** Replacing the record with id `id` changes the sum by the difference of the two shares. */
  lemma {:induction false} SumWhereUpdate<T>(m: map<nat, T>, n: nat, p: T -> bool, amount: T -> real, id: nat, x: T)
    requires id in m && id < n
    ensures SumWhere(m[id := x], n, p, amount) ==
      SumWhere(m, n, p, amount) - Share(m[id], p, amount) + Share(x, p, amount)
  {
    if n - 1 == id {
      SumWhereFrame(m, m[id := x], n - 1, p, amount);
    } else {
      SumWhereUpdate(m, n - 1, p, amount, id, x);
    }
  }

  /** Records at ids `n` and above do not enter the sum below `n`. */
  lemma {:induction false} SumWhereFrame<T>(m1: map<nat, T>, m2: map<nat, T>, n: nat, p: T -> bool, amount: T -> real)
    requires forall id :: id < n ==> (id in m1 <==> id in m2)
    requires forall id :: id < n && id in m1 ==> m1[id] == m2[id]
    ensures SumWhere(m1, n, p, amount) == SumWhere(m2, n, p, amount)
  {
    if n > 0 {
      SumWhereFrame(m1, m2, n - 1, p, amount);
    }
  }

  /** Adding a record under the next id adds its share. */
  lemma SumWhereInsert<T>(m: map<nat, T>, n: nat, p: T -> bool, amount: T -> real, x: T)
    requires forall id :: id in m ==> id < n
    ensures SumWhere(m[n := x], n + 1, p, amount) == SumWhere(m, n, p, amount) + Share(x, p, amount)
  {
    SumWhereFrame(m, m[n := x], n, p, amount);
  }

  /** With no negative amount the sum is not negative. */
  lemma {:induction false} SumWhereNonnegative<T>(m: map<nat, T>, n: nat, p: T -> bool, amount: T -> real)
    requires forall id :: id in m && p(m[id]) ==> amount(m[id]) >= 0.0
    ensures SumWhere(m, n, p, amount) >= 0.0
  {
    if n > 0 {
      SumWhereNonnegative(m, n - 1, p, amount);
    }
  }

  /** No id occurs on two rows. */
  ghost predicate DistinctIds<T>(rows: seq<(nat, T)>) {
    forall i, j :: 0 <= i < j < |rows| ==> rows[i].0 != rows[j].0
  }

  /** Filtering keeps rows with distinct ids distinct. */
  lemma {:induction false} FilterDistinctIds<T(!new)>(rows: seq<(nat, T)>, p: ((nat, T)) -> bool)
    requires DistinctIds(rows)
    ensures DistinctIds(Filter(rows, p))
  {
    if rows != [] {
      var tail := rows[1..];
      assert DistinctIds(tail) by {
        forall i, j | 0 <= i < j < |tail| ensures tail[i].0 != tail[j].0 {
          assert tail[i] == rows[i + 1] && tail[j] == rows[j + 1];
        }
      }
      FilterDistinctIds(tail, p);
      var rest := Filter(tail, p);
      var r := Filter(rows, p);
      if p(rows[0]) {
        forall j | 0 <= j < |rest| ensures rows[0].0 != rest[j].0 {
          assert rest[j] in rest;
          assert rest[j] in tail;
          var k :| 0 <= k < |tail| && tail[k] == rest[j];
          assert rows[k + 1] == rest[j];
        }
        assert r == [rows[0]] + rest;
        forall i, j | 0 <= i < j < |r| ensures r[i].0 != r[j].0 {
          if i > 0 { assert r[i] == rest[i - 1]; }
          assert r[j] == rest[j - 1];
        }
      } else {
        assert r == rest;
      }
    }
  }

  /** A row occurs at two positions only if it occurs twice. */
  lemma TwiceInMultiset<T>(s: seq<T>, i: nat, j: nat)
    requires i < j < |s| && s[i] == s[j]
    ensures multiset(s)[s[i]] >= 2
  {
    assert s == s[..j] + [s[j]] + s[j + 1..];
    assert s[i] in s[..j];
  }

  /** Rows with distinct ids each occur once. */
  lemma {:induction false} DistinctIdsOnce<T>(rows: seq<(nat, T)>)
    requires DistinctIds(rows)
    ensures forall x :: multiset(rows)[x] <= 1
  {
    if rows != [] {
      var tail := rows[1..];
      assert rows == [rows[0]] + tail;
      assert DistinctIds(tail) by {
        forall i, j | 0 <= i < j < |tail| ensures tail[i].0 != tail[j].0 {
          assert tail[i] == rows[i + 1] && tail[j] == rows[j + 1];
        }
      }
      DistinctIdsOnce(tail);
      assert rows[0] !in tail by {
        forall k | 0 <= k < |tail| ensures tail[k] != rows[0] {
          assert tail[k] == rows[k + 1];
        }
      }
    }
  }

  /** Reordering rows of one table keeps their ids distinct: two rows with the
      same id are the same record, which occurs once. */
  lemma ReorderedDistinctIds<T>(m: map<nat, T>, rows: seq<(nat, T)>, r: seq<(nat, T)>)
    requires DistinctIds(rows)
    requires forall row :: row in rows ==> row.0 in m && m[row.0] == row.1
    requires multiset(r) == multiset(rows)
    ensures DistinctIds(r)
  {
    DistinctIdsOnce(rows);
    forall i, j | 0 <= i < j < |r| ensures r[i].0 != r[j].0 {
      if r[i].0 == r[j].0 {
        assert r[i] in multiset(rows) && r[j] in multiset(rows);
        assert r[i] == r[j];
        TwiceInMultiset(r, i, j);
        assert false;
      }
    }
  }

  /** The rows of a table have distinct ids. */
  lemma TableRowsDistinct<T(!new)>(m: map<nat, T>, n: nat)
    ensures DistinctIds(TableRows(m, n))
  {
    TableRowsIncreasing(m, n);
  }

  /** Every later element has a key no larger than every earlier one. */
  ghost predicate NewestFirst<T>(s: seq<T>, key: T -> int) {
    forall i, j :: 0 <= i < j < |s| ==> key(s[i]) >= key(s[j])
  }

  ghost predicate NewestFirstAdjacent<T>(s: seq<T>, key: T -> int) {
    forall i :: 0 <= i < |s| - 1 ==> key(s[i]) >= key(s[i + 1])
  }

  lemma {:induction false} AdjacentIsNewestFirst<T>(s: seq<T>, key: T -> int)
    requires NewestFirstAdjacent(s, key)
    ensures NewestFirst(s, key)
  {
    if |s| > 1 {
      AdjacentIsNewestFirst(s[1..], key);
      forall i, j | 0 <= i < j < |s| ensures key(s[i]) >= key(s[j]) {
        if i == 0 && j > 1 {
          assert key(s[1..][0]) >= key(s[1..][j - 1]);
        } else if i > 0 {
          assert key(s[1..][i - 1]) >= key(s[1..][j - 1]);
        }
      }
    }
  }

  function InsertNewestFirst<T>(x: T, s: seq<T>, key: T -> int): (r: seq<T>)
    requires NewestFirstAdjacent(s, key)
    ensures NewestFirstAdjacent(r, key)
    ensures multiset(r) == multiset(s) + multiset{x}
    ensures |r| == |s| + 1 && (r[0] == x || (|s| > 0 && r[0] == s[0]))
  {
    if s == [] || key(x) >= key(s[0]) then [x] + s
    else
      assert s == [s[0]] + s[1..];
      [s[0]] + InsertNewestFirst(x, s[1..], key)
  }

  function SortAdjacent<T>(s: seq<T>, key: T -> int): (r: seq<T>)
    ensures NewestFirstAdjacent(r, key)
    ensures multiset(r) == multiset(s)
  {
    if s == [] then []
    else
      assert s == [s[0]] + s[1..];
      InsertNewestFirst(s[0], SortAdjacent(s[1..], key), key)
  }

  /** The rows reordered by decreasing key (ties in no particular order). */
  function SortNewestFirst<T(!new)>(s: seq<T>, key: T -> int): (r: seq<T>)
    ensures NewestFirst(r, key)
    ensures multiset(r) == multiset(s)
    ensures forall x :: x in r <==> x in s
  {
    var r := SortAdjacent(s, key);
    AdjacentIsNewestFirst(r, key);
    assert forall x :: x in r <==> x in multiset(s);
    r
  }
}
