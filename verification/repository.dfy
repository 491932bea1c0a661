/**
  The generic entity repository: one CRUD surface for every entity type.

  A table is the sequence of its committed rows, in store order. Reads take an
  optional filter (the LINQ predicate handed to `Where`; `None` is a null
  filter) and never change the table. Writes stage exactly one change and
  commit it in the same call (`Save`); the store identifies rows by a key
  function and enforces that key as a primary key.
 */
module Repository {
  import opened Wrappers

  /** Does `e` pass the optional filter? A missing filter passes everything. */
  predicate Matches<T>(filter: Option<T -> bool>, e: T) {
    filter.None? || filter.value(e)
  }

  /** The filter that selects the rows whose key is `k`. */
  function KeyIs<T, K(==)>(key: T -> K, k: K): T -> bool {
    x => key(x) == k
  }

  /** `KeyIs(key, k)` passes exactly the rows whose key is `k`. */
  lemma KeyIsSelects<T, K>(key: T -> K, k: K)
    ensures forall x :: Matches(Some(KeyIs(key, k)), x) <==> key(x) == k
  {
  }

  /** Some row of `rows` has key `k`. */
  predicate HasKey<T, K(==)>(rows: seq<T>, key: T -> K, k: K) {
    exists i :: 0 <= i < |rows| && key(rows[i]) == k
  }

  /** No two rows share a key: the primary-key constraint of a table. */
  ghost predicate UniqueKeys<T, K>(rows: seq<T>, key: T -> K) {
    forall i, j :: 0 <= i < j < |rows| ==> key(rows[i]) != key(rows[j])
  }

  /** Index `i` holds the first row of `rows` that passes `filter`. */
  ghost predicate IsFirstMatch<T>(rows: seq<T>, filter: Option<T -> bool>, i: int) {
    && 0 <= i < |rows|
    && Matches(filter, rows[i])
    && forall j :: 0 <= j < i ==> !Matches(filter, rows[j])
  }

  // ---------------------------------------------------------------- reads

  /** The rows that satisfy `p`, in store order (LINQ `Where`). */
  function Where<T>(rows: seq<T>, p: T -> bool): (r: seq<T>)
    ensures |r| <= |rows|
    ensures forall i :: 0 <= i < |r| ==> r[i] in rows && p(r[i])
    ensures forall i :: 0 <= i < |rows| && p(rows[i]) ==> rows[i] in r
    decreases |rows|
  {
    if |rows| == 0 then []
    else if p(rows[0]) then [rows[0]] + Where(rows[1..], p)
    else Where(rows[1..], p)
  }

  /** `GetAllAsync`: every row passing the optional filter, materialised as a list. */
  function GetAll<T>(rows: seq<T>, filter: Option<T -> bool>): (r: seq<T>)
    ensures forall i :: 0 <= i < |r| ==> r[i] in rows && Matches(filter, r[i])
    ensures forall i :: 0 <= i < |rows| && Matches(filter, rows[i]) ==> rows[i] in r
    ensures filter.None? ==> r == rows
  {
    if filter.None? then rows else Where(rows, filter.value)
  }

  /**
    `GetAsync`: the first row passing the optional filter, or `None`.
    `tracked` only decides whether the change tracker registers the row
    (`AsNoTracking`); the contract does not mention it, so it never changes
    which row comes back.
   */
  function Get<T>(rows: seq<T>, filter: Option<T -> bool>, tracked: bool): (r: Option<T>)
    ensures r.None? <==> forall i :: 0 <= i < |rows| ==> !Matches(filter, rows[i])
    ensures r.Some? ==> exists i :: IsFirstMatch(rows, filter, i) && rows[i] == r.value
  {
    var matches := GetAll(rows, filter);
    HeadIsFirstMatch(rows, filter);
    if |matches| == 0 then None else Some(matches[0])
  }

  /** The head of a filtered table is the table's first matching row. */
  lemma {:induction false} HeadIsFirstMatch<T>(rows: seq<T>, filter: Option<T -> bool>)
    ensures |GetAll(rows, filter)| == 0 <==> forall i :: 0 <= i < |rows| ==> !Matches(filter, rows[i])
    ensures |GetAll(rows, filter)| > 0 ==>
      exists i :: IsFirstMatch(rows, filter, i) && rows[i] == GetAll(rows, filter)[0]
    decreases |rows|
  {
    var all := GetAll(rows, filter);
    if |all| == 0 {
      forall i | 0 <= i < |rows|
        ensures !Matches(filter, rows[i])
      {
        assert rows[i] in rows;
      }
    } else if Matches(filter, rows[0]) {
      if filter.Some? {
        assert all[0] == rows[0];
      }
      assert IsFirstMatch(rows, filter, 0);
    } else {
      assert filter.Some?;
      var tail := rows[1..];
      assert all == GetAll(tail, filter);
      HeadIsFirstMatch(tail, filter);
      var k :| IsFirstMatch(tail, filter, k) && tail[k] == all[0];
      forall j | 0 <= j < k + 1
        ensures !Matches(filter, rows[j])
      {
        if j > 0 { assert rows[j] == tail[j - 1]; }
      }
      assert IsFirstMatch(rows, filter, k + 1);
    }
  }

  /** `Where` keeps every passing row as often as it occurs and drops the rest. */
  lemma {:induction false} WhereCounts<T>(rows: seq<T>, p: T -> bool, x: T)
    ensures multiset(Where(rows, p))[x] == if p(x) then multiset(rows)[x] else 0
    decreases |rows|
  {
    if |rows| > 0 {
      WhereCounts(rows[1..], p, x);
      assert rows == [rows[0]] + rows[1..];
    }
  }

  /**
    `GetAllAsync` returns exactly the stored rows that pass the filter: no
    omissions, no extras, and no row more often than it is stored.
   */
  lemma GetAllExact<T>(rows: seq<T>, filter: Option<T -> bool>, x: T)
    ensures multiset(GetAll(rows, filter))[x] == if Matches(filter, x) then multiset(rows)[x] else 0
  {
    if filter.Some? {
      WhereCounts(rows, filter.value, x);
    }
  }

  /** Filtering a table keeps its primary key unique. */
  lemma {:induction false} WhereKeepsKeysUnique<T, K>(rows: seq<T>, key: T -> K, p: T -> bool)
    ensures UniqueKeys(rows, key) ==> UniqueKeys(Where(rows, p), key)
    decreases |rows|
  {
    if |rows| > 0 && UniqueKeys(rows, key) {
      var tail := rows[1..];
      assert UniqueKeys(tail, key) by {
        forall i, j | 0 <= i < j < |tail|
          ensures key(tail[i]) != key(tail[j])
        {
          assert tail[i] == rows[i + 1] && tail[j] == rows[j + 1];
        }
      }
      WhereKeepsKeysUnique(tail, key, p);
      if p(rows[0]) {
        var r := Where(rows, p);
        var rest := Where(tail, p);
        assert r == [rows[0]] + rest;
        forall i, j | 0 <= i < j < |r|
          ensures key(r[i]) != key(r[j])
        {
          if i == 0 {
            assert r[j] == rest[j - 1];
            assert rest[j - 1] in tail;
            var m :| 0 <= m < |tail| && tail[m] == rest[j - 1];
            assert tail[m] == rows[m + 1];
          } else {
            assert r[i] == rest[i - 1] && r[j] == rest[j - 1];
          }
        }
      }
    }
  }

  // ---------------------------------------------------------------- writes

  /** A change staged in the context, waiting for the next commit. */
  datatype Change<T> = Added(entity: T) | Modified(entity: T) | Deleted(entity: T)

  /** Why the store refuses a commit. */
  datatype PersistenceError =
    | DuplicateKey  // an insert whose key is already taken
    | RowMissing    // an update or delete that affects no row

  /** Every row with `e`'s key replaced, as a whole, by `e`. */
  function ReplaceByKey<T, K(==)>(rows: seq<T>, key: T -> K, e: T): (r: seq<T>)
    ensures |r| == |rows|
    ensures forall i :: 0 <= i < |rows| && key(rows[i]) == key(e) ==> r[i] == e
    ensures forall i :: 0 <= i < |rows| && key(rows[i]) != key(e) ==> r[i] == rows[i]
  {
    seq(|rows|, i requires 0 <= i < |rows| => if key(rows[i]) == key(e) then e else rows[i])
  }

  /** Applies one staged change to the committed rows. */
  function Apply<T, K(==)>(rows: seq<T>, key: T -> K, c: Change<T>): (r: Result<seq<T>, PersistenceError>)
    ensures r.Success? <==> (c.Added? != HasKey(rows, key, key(c.entity)))
    ensures UniqueKeys(rows, key) && r.Success? ==> UniqueKeys(r.value, key)
  {
    var k := key(c.entity);
    match c
    case Added(e) =>
      if HasKey(rows, key, k) then Failure(DuplicateKey) else Success(rows + [e])
    case Modified(e) =>
      if HasKey(rows, key, k) then Success(ReplaceByKey(rows, key, e)) else Failure(RowMissing)
    case Deleted(e) =>
      if HasKey(rows, key, k) then
        var p := (x: T) => key(x) != k;
        WhereKeepsKeysUnique(rows, key, p);
        Success(Where(rows, p))
      else Failure(RowMissing)
  }

  /**
    `SaveAsync`: commits the staged changes all-or-nothing. Either every
    change applies and the new rows come back, or the first refusal comes
    back and the caller keeps its old rows.
   */
  function Save<T, K(==)>(rows: seq<T>, key: T -> K, changes: seq<Change<T>>): (r: Result<seq<T>, PersistenceError>)
    ensures changes == [] ==> r == Success(rows)
    ensures |changes| == 1 ==> r == Apply(rows, key, changes[0])
    ensures UniqueKeys(rows, key) && r.Success? ==> UniqueKeys(r.value, key)
    decreases |changes|
  {
    if |changes| == 0 then Success(rows)
    else
      match Apply(rows, key, changes[0])
      case Failure(err) => Failure(err)
      case Success(next) => Save(next, key, changes[1..])
  }

  /** `CreateAsync`: stages the insert of `e` and commits it in the same call. */
  function Create<T, K(==)>(rows: seq<T>, key: T -> K, e: T): (r: Result<seq<T>, PersistenceError>)
    ensures r.Success? <==> !HasKey(rows, key, key(e))
    ensures r.Failure? ==> r.error == DuplicateKey
    ensures r.Success? ==> |r.value| == |rows| + 1 && r.value[..|rows|] == rows && r.value[|rows|] == e
    ensures r.Success? ==> multiset(r.value) == multiset(rows) + multiset{e}
    ensures UniqueKeys(rows, key) && r.Success? ==> UniqueKeys(r.value, key)
  {
    var r := Save(rows, key, [Added(e)]);
    assert r.Success? ==> r.value == rows + [e];
    r
  }

  /**
    `UpdateAsync`: stages a full replacement of the row that has `e`'s key and
    commits it in the same call; the store refuses when no row has that key.
   */
  function Update<T, K(==)>(rows: seq<T>, key: T -> K, e: T): (r: Result<seq<T>, PersistenceError>)
    ensures r.Success? <==> HasKey(rows, key, key(e))
    ensures r.Failure? ==> r.error == RowMissing
    ensures r.Success? ==> |r.value| == |rows|
    ensures r.Success? ==> forall i :: 0 <= i < |rows| && key(rows[i]) == key(e) ==> r.value[i] == e
    ensures r.Success? ==> forall i :: 0 <= i < |rows| && key(rows[i]) != key(e) ==> r.value[i] == rows[i]
    ensures UniqueKeys(rows, key) && r.Success? ==> UniqueKeys(r.value, key)
  {
    Save(rows, key, [Modified(e)])
  }

  /**
    `RemoveAsync`: stages the delete of the row that has `e`'s key and commits
    it in the same call; every row with another key stays.
   */
  function Remove<T, K(==)>(rows: seq<T>, key: T -> K, e: T): (r: Result<seq<T>, PersistenceError>)
    ensures r.Success? <==> HasKey(rows, key, key(e))
    ensures r.Failure? ==> r.error == RowMissing
    ensures r.Success? ==> forall i :: 0 <= i < |r.value| ==> r.value[i] in rows && key(r.value[i]) != key(e)
    ensures r.Success? ==> forall i :: 0 <= i < |rows| && key(rows[i]) != key(e) ==> rows[i] in r.value
    ensures UniqueKeys(rows, key) && r.Success? ==> UniqueKeys(r.value, key)
  {
    Save(rows, key, [Deleted(e)])
  }

  // ---------------------------------------------------------------- round trips

  /** After `CreateAsync(e)`, a read by `e`'s key returns `e` itself. */
  lemma CreateThenGet<T, K>(rows: seq<T>, key: T -> K, e: T, tracked: bool)
    requires Create(rows, key, e).Success?
    ensures Get(Create(rows, key, e).value, Some(KeyIs(key, key(e))), tracked) == Some(e)
  {
  }

  /**
    After `UpdateAsync(e)`, a read by `e`'s key returns `e` itself: the stored
    row is replaced as a whole, never merged with its previous fields.
   */
  lemma UpdateThenGet<T, K>(rows: seq<T>, key: T -> K, e: T, tracked: bool)
    requires Update(rows, key, e).Success?
    ensures Get(Update(rows, key, e).value, Some(KeyIs(key, key(e))), tracked) == Some(e)
  {
  }

  /** `UpdateAsync(e)` leaves the reads of every other key as they were. */
  lemma UpdateKeepsOtherKeys<T, K>(rows: seq<T>, key: T -> K, e: T, k: K, tracked: bool)
    requires Update(rows, key, e).Success?
    requires k != key(e)
    ensures Get(Update(rows, key, e).value, Some(KeyIs(key, k)), tracked)
         == Get(rows, Some(KeyIs(key, k)), tracked)
  {
    var after := Update(rows, key, e).value;
    var filter := Some(KeyIs(key, k));
    assert forall i :: 0 <= i < |rows| ==> (Matches(filter, after[i]) <==> Matches(filter, rows[i]));
    assert forall i :: 0 <= i < |rows| && Matches(filter, rows[i]) ==> after[i] == rows[i];
    var before := Get(rows, filter, tracked);
    var now := Get(after, filter, tracked);
    if before.Some? {
      var i :| IsFirstMatch(rows, filter, i) && rows[i] == before.value;
      var i' :| IsFirstMatch(after, filter, i') && after[i'] == now.value;
      assert i == i';
    }
  }

  /** After `RemoveAsync(e)`, a read by `e`'s key finds nothing. */
  lemma RemoveThenGet<T, K>(rows: seq<T>, key: T -> K, e: T, tracked: bool)
    requires Remove(rows, key, e).Success?
    ensures Get(Remove(rows, key, e).value, Some(KeyIs(key, key(e))), tracked).None?
  {
  }

  /** In a table with a unique key, a stored row occurs exactly once. */
  lemma {:induction false} StoredRowOccursOnce<T, K>(rows: seq<T>, key: T -> K, i: int)
    requires UniqueKeys(rows, key)
    requires 0 <= i < |rows|
    ensures multiset(rows)[rows[i]] == 1
    decreases |rows|
  {
    var tail := rows[1..];
    assert rows == [rows[0]] + tail;
    if i == 0 {
      assert rows[0] !in tail;
    } else {
      assert UniqueKeys(tail, key) by {
        forall a, b | 0 <= a < b < |tail|
          ensures key(tail[a]) != key(tail[b])
        {
          assert tail[a] == rows[a + 1] && tail[b] == rows[b + 1];
        }
      }
      StoredRowOccursOnce(tail, key, i - 1);
      assert rows[i] == tail[i - 1];
    }
  }

  /**
    `RemoveAsync(e)` on a table with a unique key, where `e` is a stored row,
    removes exactly that one row and keeps every other row.
   */
  lemma RemoveExactlyOne<T, K>(rows: seq<T>, key: T -> K, e: T)
    requires UniqueKeys(rows, key)
    requires e in rows
    ensures Remove(rows, key, e).Success?
    ensures multiset(Remove(rows, key, e).value) == multiset(rows) - multiset{e}
  {
    var n :| 0 <= n < |rows| && rows[n] == e;
    var p := (x: T) => key(x) != key(e);
    var after := Remove(rows, key, e).value;
    assert after == Where(rows, p);
    StoredRowOccursOnce(rows, key, n);
    forall x
      ensures multiset(after)[x] == (multiset(rows) - multiset{e})[x]
    {
      WhereCounts(rows, p, x);
    }
  }
}
