/**
 * A database table with a unique key, as a sequence of rows in storage
 * order. `Get` is the keyed view; `Upsert` is `INSERT ... ON CONFLICT (key)
 * DO UPDATE`, `InsertIgnore` is `INSERT ... ON CONFLICT DO NOTHING`,
 * `DeleteWhere` and `UpdateWhere` are `DELETE`/`UPDATE ... WHERE`.
 *
 * The operations are plain functions; what they do to the keyed view, and
 * that they keep keys unique, is stated by the lemmas beside them.
 */
module Tables {
  import opened Wrappers

  datatype Row<K, V> = Row(key: K, val: V)

  type Table<K, V> = seq<Row<K, V>>

  /** The table's unique-key constraint. */
  ghost predicate UniqueKeys<K(!new), V(!new)>(t: Table<K, V>)
  {
    forall i, j :: 0 <= i < j < |t| ==> t[i].key != t[j].key
  }

  /** Position of the first row whose key is `k`. */
  function IndexOf<K(==,!new), V(!new)>(t: Table<K, V>, k: K): Option<nat>
  {
    IndexFrom(t, k, 0)
  }

  /** Position of the first row at or after `from` whose key is `k`. */
  function IndexFrom<K(==,!new), V(!new)>(t: Table<K, V>, k: K, from: nat): Option<nat>
    decreases |t| - from
  {
    if from >= |t| then None
    else if t[from].key == k then Some(from)
    else IndexFrom(t, k, from + 1)
  }

  lemma {:induction false} IndexFromSpec<K(!new), V(!new)>(t: Table<K, V>, k: K, from: nat)
    decreases |t| - from
    ensures IndexFrom(t, k, from).Some? ==>
      from <= IndexFrom(t, k, from).value < |t| && t[IndexFrom(t, k, from).value].key == k
    ensures IndexFrom(t, k, from).Some? ==> forall j :: from <= j < IndexFrom(t, k, from).value ==> t[j].key != k
    ensures IndexFrom(t, k, from).None? ==> forall j :: from <= j < |t| ==> t[j].key != k
  {
    if from < |t| && t[from].key != k {
      IndexFromSpec(t, k, from + 1);
    }
  }

  /** `IndexOf` finds the first row with the key, and finds nothing only when no row has it. */
  lemma IndexOfSpec<K(!new), V(!new)>(t: Table<K, V>, k: K)
    ensures IndexOf(t, k).Some? ==> IndexOf(t, k).value < |t| && t[IndexOf(t, k).value].key == k
    ensures IndexOf(t, k).Some? ==> forall j :: 0 <= j < IndexOf(t, k).value ==> t[j].key != k
    ensures IndexOf(t, k).None? ==> forall j :: 0 <= j < |t| ==> t[j].key != k
  {
    IndexFromSpec(t, k, 0);
  }

  /** The value stored under `k`, if any row has that key. */
  function Get<K(==,!new), V(!new)>(t: Table<K, V>, k: K): Option<V>
  {
    match IndexOf(t, k)
    case Some(i) => if i < |t| then Some(t[i].val) else None
    case None => None
  }

  predicate HasKey<K(==,!new), V(!new)>(t: Table<K, V>, k: K)
  {
    Get(t, k).Some?
  }

  /** A key has a value exactly when some row carries it, and the value is that of a row with the key. */
  lemma GetSpec<K(!new), V(!new)>(t: Table<K, V>, k: K)
    ensures Get(t, k).Some? <==> exists i :: 0 <= i < |t| && t[i].key == k
    ensures Get(t, k).Some? ==> Row(k, Get(t, k).value) in t
  {
    IndexOfSpec(t, k);
    if IndexOf(t, k).Some? {
      assert t[IndexOf(t, k).value] == Row(k, Get(t, k).value);
    }
  }

  /** Two tables whose key columns agree position by position find a key at the same place. */
  lemma IndexOfSameKeys<K(!new), V(!new), W(!new)>(t: Table<K, V>, u: Table<K, W>, k: K)
    requires |t| == |u|
    requires forall i :: 0 <= i < |t| ==> t[i].key == u[i].key
    ensures IndexOf(t, k) == IndexOf(u, k)
  {
    IndexOfSpec(t, k);
    IndexOfSpec(u, k);
    var a, b := IndexOf(t, k), IndexOf(u, k);
    if a.Some? {
      assert u[a.value].key == k;
    }
    if b.Some? {
      assert t[b.value].key == k;
    }
  }

  lemma IndexOfAppend<K(!new), V(!new)>(t: Table<K, V>, row: Row<K, V>, k: K)
    ensures IndexOf(t + [row], k) ==
      if IndexOf(t, k).Some? then IndexOf(t, k)
      else if row.key == k then Some(|t|)
      else None
  {
    var u := t + [row];
    IndexOfSpec(t, k);
    IndexOfSpec(u, k);
    assert forall j :: 0 <= j < |t| ==> u[j] == t[j];
    assert u[|t|] == row;
  }

  /** Reading a table after one more row is appended. */
  lemma GetAppend<K(!new), V(!new)>(t: Table<K, V>, row: Row<K, V>, k: K)
    ensures Get(t + [row], k) ==
      if Get(t, k).Some? then Get(t, k)
      else if row.key == k then Some(row.val)
      else None
  {
    IndexOfAppend(t, row, k);
    IndexOfSpec(t, k);
    var u := t + [row];
    if IndexOf(t, k).Some? {
      assert u[IndexOf(t, k).value] == t[IndexOf(t, k).value];
    }
  }

  /** With unique keys, every row is what `Get` returns for its key. */
  lemma GetUnique<K(!new), V(!new)>(t: Table<K, V>, i: nat)
    requires UniqueKeys(t)
    requires i < |t|
    ensures Get(t, t[i].key) == Some(t[i].val)
  {
    IndexOfSpec(t, t[i].key);
    assert forall j :: 0 <= j < i ==> t[j].key != t[i].key;
  }

  /** INSERT ... ON CONFLICT (key) DO UPDATE: overwrite the row in place, or append a new one. */
  function Upsert<K(==,!new), V(!new)>(t: Table<K, V>, k: K, v: V): Table<K, V>
  {
    match IndexOf(t, k)
    case Some(i) => if i < |t| then t[i := Row(k, v)] else t
    case None => t + [Row(k, v)]
  }

  /** After an upsert the key holds the new value and every other key is unchanged. */
  lemma UpsertGet<K(!new), V(!new)>(t: Table<K, V>, k: K, v: V, k': K)
    ensures Get(Upsert(t, k, v), k') == if k' == k then Some(v) else Get(t, k')
  {
    IndexOfSpec(t, k);
    match IndexOf(t, k)
    case Some(i) =>
      var u := t[i := Row(k, v)];
      IndexOfSameKeys(t, u, k');
      IndexOfSpec(t, k');
    case None =>
      GetAppend(t, Row(k, v), k');
  }

  /** An upsert keeps the keys unique. */
  lemma UpsertUnique<K(!new), V(!new)>(t: Table<K, V>, k: K, v: V)
    requires UniqueKeys(t)
    ensures UniqueKeys(Upsert(t, k, v))
  {
    IndexOfSpec(t, k);
  }

  /** Upserting the value a key already holds changes nothing. */
  lemma UpsertSame<K(!new), V(!new)>(t: Table<K, V>, k: K, v: V)
    requires Get(t, k) == Some(v)
    ensures Upsert(t, k, v) == t
  {
    IndexOfSpec(t, k);
    var i := IndexOf(t, k).value;
    assert t[i] == Row(k, v);
  }

  /** INSERT ... ON CONFLICT DO NOTHING: append only when the key is new. */
  function InsertIgnore<K(==,!new), V(!new)>(t: Table<K, V>, k: K, v: V): Table<K, V>
  {
    if HasKey(t, k) then t else t + [Row(k, v)]
  }

  /** An existing key keeps its value, a new key gets `v`, and every other key is unchanged. */
  lemma InsertIgnoreGet<K(!new), V(!new)>(t: Table<K, V>, k: K, v: V, k': K)
    ensures Get(InsertIgnore(t, k, v), k') == if k' == k && !HasKey(t, k) then Some(v) else Get(t, k')
  {
    if !HasKey(t, k) {
      GetAppend(t, Row(k, v), k');
    }
  }

  /** Insert-or-ignore keeps the keys unique. */
  lemma InsertIgnoreUnique<K(!new), V(!new)>(t: Table<K, V>, k: K, v: V)
    requires UniqueKeys(t)
    ensures UniqueKeys(InsertIgnore(t, k, v))
  {
    GetSpec(t, k);
  }

  /** The value of the LAST row with key `k`; for a batch of writes, the one that wins. */
  function LastGet<K(==,!new), V(!new)>(t: Table<K, V>, k: K): Option<V>
  {
    if |t| == 0 then None
    else if t[|t| - 1].key == k then Some(t[|t| - 1].val)
    else LastGet(t[..|t| - 1], k)
  }

  /** The last row of a batch extended by one row is that row, for its key. */
  lemma LastGetSnoc<K(!new), V(!new)>(t: Table<K, V>, row: Row<K, V>, k: K)
    ensures LastGet(t + [row], k) == if row.key == k then Some(row.val) else LastGet(t, k)
  {
    assert (t + [row])[..|t|] == t;
  }

  /** `LastGet` finds a row of the key that no later row shares, and nothing when no row has the key. */
  lemma {:induction false} LastGetSpec<K(!new), V(!new)>(t: Table<K, V>, k: K)
    ensures LastGet(t, k).Some? ==>
      exists i :: 0 <= i < |t| && t[i] == Row(k, LastGet(t, k).value) && forall j :: i < j < |t| ==> t[j].key != k
    ensures LastGet(t, k).None? ==> forall i :: 0 <= i < |t| ==> t[i].key != k
  {
    if |t| > 0 {
      var n := |t| - 1;
      var p := t[..n];
      assert forall i :: 0 <= i < n ==> p[i] == t[i];
      if t[n].key != k {
        LastGetSpec(p, k);
        if LastGet(p, k).Some? {
          var i :| 0 <= i < n && p[i] == Row(k, LastGet(p, k).value) && forall j :: i < j < n ==> p[j].key != k;
          assert t[i] == p[i];
        }
      }
    }
  }

  lemma {:induction false} LastGetOfUnique<K(!new), V(!new)>(t: Table<K, V>, k: K)
    requires UniqueKeys(t)
    ensures LastGet(t, k) == Get(t, k)
  {
    if |t| > 0 {
      var n := |t| - 1;
      var p := t[..n];
      assert t == p + [t[n]];
      GetAppend(p, t[n], k);
      if t[n].key == k {
        GetSpec(p, k);
        assert forall i :: 0 <= i < n ==> p[i].key != k by {
          assert forall i :: 0 <= i < n ==> p[i] == t[i];
        }
      } else {
        LastGetOfUnique(p, k);
      }
    }
  }

  /** A batch of upserts applied in order. */
  function UpsertAll<K(==,!new), V(!new)>(t: Table<K, V>, ups: Table<K, V>): Table<K, V>
  {
    if |ups| == 0 then t
    else
      var n := |ups| - 1;
      Upsert(UpsertAll(t, ups[..n]), ups[n].key, ups[n].val)
  }

  /** A batch of upserts extended by one row is the batch followed by one more upsert. */
  lemma UpsertAllSnoc<K(!new), V(!new)>(t: Table<K, V>, ups: Table<K, V>, row: Row<K, V>)
    ensures UpsertAll(t, ups + [row]) == Upsert(UpsertAll(t, ups), row.key, row.val)
  {
    assert (ups + [row])[..|ups|] == ups;
  }

  /** After a batch of upserts the last write of each key wins; other keys keep their values. */
  lemma {:induction false} UpsertAllGet<K(!new), V(!new)>(t: Table<K, V>, ups: Table<K, V>, k: K)
    ensures Get(UpsertAll(t, ups), k) == if LastGet(ups, k).Some? then LastGet(ups, k) else Get(t, k)
  {
    if |ups| > 0 {
      var n := |ups| - 1;
      UpsertAllGet(t, ups[..n], k);
      UpsertGet(UpsertAll(t, ups[..n]), ups[n].key, ups[n].val, k);
    }
  }

  /** A batch of upserts keeps the keys unique. */
  lemma {:induction false} UpsertAllUnique<K(!new), V(!new)>(t: Table<K, V>, ups: Table<K, V>)
    requires UniqueKeys(t)
    ensures UniqueKeys(UpsertAll(t, ups))
  {
    if |ups| > 0 {
      var n := |ups| - 1;
      UpsertAllUnique(t, ups[..n]);
      UpsertUnique(UpsertAll(t, ups[..n]), ups[n].key, ups[n].val);
    }
  }

  /** A batch each of whose writes is already in place changes nothing. */
  lemma {:induction false} UpsertAllNoop<K(!new), V(!new)>(t: Table<K, V>, ups: Table<K, V>)
    requires forall i :: 0 <= i < |ups| ==> Get(t, ups[i].key) == Some(ups[i].val)
    ensures UpsertAll(t, ups) == t
  {
    if |ups| > 0 {
      var n := |ups| - 1;
      UpsertAllNoop(t, ups[..n]);
      UpsertSame(t, ups[n].key, ups[n].val);
    }
  }

  /** Repeating a batch of upserts with distinct keys leaves the table identical. */
  lemma UpsertAllIdempotent<K(!new), V(!new)>(t: Table<K, V>, ups: Table<K, V>)
    requires UniqueKeys(ups)
    ensures UpsertAll(UpsertAll(t, ups), ups) == UpsertAll(t, ups)
  {
    var once := UpsertAll(t, ups);
    forall i | 0 <= i < |ups|
      ensures Get(once, ups[i].key) == Some(ups[i].val)
    {
      UpsertAllGet(t, ups, ups[i].key);
      LastGetOfUnique(ups, ups[i].key);
      GetUnique(ups, i);
    }
    UpsertAllNoop(once, ups);
  }

  /** A batch of insert-or-ignore statements applied in order. */
  function InsertIgnoreAll<K(==,!new), V(!new)>(t: Table<K, V>, ins: Table<K, V>): Table<K, V>
  {
    if |ins| == 0 then t
    else
      var n := |ins| - 1;
      InsertIgnore(InsertIgnoreAll(t, ins[..n]), ins[n].key, ins[n].val)
  }

  /** A batch of inserts extended by one row is the batch followed by one more insert. */
  lemma InsertIgnoreAllSnoc<K(!new), V(!new)>(t: Table<K, V>, ins: Table<K, V>, row: Row<K, V>)
    ensures InsertIgnoreAll(t, ins + [row]) == InsertIgnore(InsertIgnoreAll(t, ins), row.key, row.val)
  {
    assert (ins + [row])[..|ins|] == ins;
  }

  /** Two batches in a row are one batch of both: the statements simply run in order. */
  lemma {:induction false} InsertIgnoreAllConcat<K(!new), V(!new)>(t: Table<K, V>, a: Table<K, V>, b: Table<K, V>)
    ensures InsertIgnoreAll(t, a + b) == InsertIgnoreAll(InsertIgnoreAll(t, a), b)
  {
    if |b| == 0 {
      assert a + b == a;
    } else {
      var n := |b| - 1;
      InsertIgnoreAllConcat(t, a, b[..n]);
      assert (a + b)[..|a| + n] == a + b[..n];
    }
  }

  /** Existing rows keep their values; a new key takes the value of its first insert. */
  lemma {:induction false} InsertIgnoreAllGet<K(!new), V(!new)>(t: Table<K, V>, ins: Table<K, V>, k: K)
    ensures Get(InsertIgnoreAll(t, ins), k) == if HasKey(t, k) then Get(t, k) else Get(ins, k)
  {
    if |ins| > 0 {
      var n := |ins| - 1;
      InsertIgnoreAllGet(t, ins[..n], k);
      InsertIgnoreGet(InsertIgnoreAll(t, ins[..n]), ins[n].key, ins[n].val, k);
      assert ins == ins[..n] + [ins[n]];
      GetAppend(ins[..n], ins[n], k);
    }
  }

  /** A batch of insert-or-ignore statements keeps the keys unique. */
  lemma {:induction false} InsertIgnoreAllUnique<K(!new), V(!new)>(t: Table<K, V>, ins: Table<K, V>)
    requires UniqueKeys(t)
    ensures UniqueKeys(InsertIgnoreAll(t, ins))
  {
    if |ins| > 0 {
      var n := |ins| - 1;
      InsertIgnoreAllUnique(t, ins[..n]);
      InsertIgnoreUnique(InsertIgnoreAll(t, ins[..n]), ins[n].key, ins[n].val);
    }
  }

  /** When every key of the batch is already present, nothing is inserted. */
  lemma {:induction false} InsertIgnoreAllNoop<K(!new), V(!new)>(t: Table<K, V>, ins: Table<K, V>)
    requires forall i :: 0 <= i < |ins| ==> HasKey(t, ins[i].key)
    ensures InsertIgnoreAll(t, ins) == t
  {
    if |ins| > 0 {
      InsertIgnoreAllNoop(t, ins[..|ins| - 1]);
    }
  }

  /** DELETE ... WHERE p(row), keeping the surviving rows in order. */
  function DeleteWhere<K(==,!new), V(!new)>(t: Table<K, V>, p: Row<K, V> -> bool): Table<K, V>
  {
    if |t| == 0 then []
    else
      var n := |t| - 1;
      DeleteWhere(t[..n], p) + if p(t[n]) then [] else [t[n]]
  }

  /** Exactly the rows that do not match survive. */
  lemma {:induction false} DeleteWhereMember<K(!new), V(!new)>(t: Table<K, V>, p: Row<K, V> -> bool, row: Row<K, V>)
    ensures row in DeleteWhere(t, p) <==> row in t && !p(row)
  {
    if |t| > 0 {
      var n := |t| - 1;
      DeleteWhereMember(t[..n], p, row);
      assert t == t[..n] + [t[n]];
    }
  }

  /** A delete keeps the keys unique. */
  lemma {:induction false} DeleteWhereUnique<K(!new), V(!new)>(t: Table<K, V>, p: Row<K, V> -> bool)
    requires UniqueKeys(t)
    ensures UniqueKeys(DeleteWhere(t, p))
  {
    if |t| > 0 {
      var n := |t| - 1;
      var init := t[..n];
      assert UniqueKeys(init) by {
        assert forall i :: 0 <= i < n ==> init[i] == t[i];
      }
      DeleteWhereUnique(init, p);
      var rest := DeleteWhere(init, p);
      forall row | row in rest
        ensures row.key != t[n].key
      {
        DeleteWhereMember(init, p, row);
        var j :| 0 <= j < n && init[j] == row;
        assert t[j] == row;
      }
    }
  }

  /** After the delete, the row of key `k` is gone if it matched and untouched otherwise. */
  lemma DeleteWhereGet<K(!new), V(!new)>(t: Table<K, V>, p: Row<K, V> -> bool, k: K)
    requires UniqueKeys(t)
    ensures Get(DeleteWhere(t, p), k) == match Get(t, k) case Some(v) => (if p(Row(k, v)) then None else Some(v)) case None => None
  {
    var r := DeleteWhere(t, p);
    DeleteWhereUnique(t, p);
    GetSpec(t, k);
    GetSpec(r, k);
    if HasKey(t, k) {
      IndexOfSpec(t, k);
      var i := IndexOf(t, k).value;
      GetUnique(t, i);
      DeleteWhereMember(t, p, t[i]);
      if p(t[i]) {
        forall j | 0 <= j < |r|
          ensures r[j].key != k
        {
          DeleteWhereMember(t, p, r[j]);
          var m :| 0 <= m < |t| && t[m] == r[j];
          if m != i {
            assert t[m].key != t[i].key by {
              if m < i {
                assert t[m].key != t[i].key;
              }
            }
          }
        }
      } else {
        var j :| 0 <= j < |r| && r[j] == t[i];
        GetUnique(r, j);
      }
    } else {
      forall j | 0 <= j < |r|
        ensures r[j].key != k
      {
        DeleteWhereMember(t, p, r[j]);
      }
    }
  }

  /** The same rows with every value passed through `f` (a projection in a SELECT list). */
  function MapValues<K(==,!new), V(!new), W(!new)>(t: Table<K, V>, f: V -> W): Table<K, W>
  {
    seq(|t|, i requires 0 <= i < |t| => Row(t[i].key, f(t[i].val)))
  }

  /** Reading a projected table is projecting what the original table holds; keys stay unique. */
  lemma MapValuesGet<K(!new), V(!new), W(!new)>(t: Table<K, V>, f: V -> W, k: K)
    ensures Get(MapValues(t, f), k) == match Get(t, k) case Some(v) => Some(f(v)) case None => None
    ensures UniqueKeys(t) ==> UniqueKeys(MapValues(t, f))
  {
    var r := MapValues(t, f);
    IndexOfSameKeys(t, r, k);
    IndexOfSpec(t, k);
    match IndexOf(t, k)
    case Some(i) =>
      assert r[i] == Row(t[i].key, f(t[i].val));
    case None =>
  }

  /** The same rows under keys mapped by `f` (the scoping columns a result row is stored under). */
  function Rekey<K(==,!new), K2(==,!new), V(!new)>(t: Table<K, V>, f: K -> K2): Table<K2, V>
  {
    seq(|t|, i requires 0 <= i < |t| => Row(f(t[i].key), t[i].val))
  }

  /** Under an injective `f`, the key `f(k)` holds what `k` held, keys outside its range are absent, and keys stay unique. */
  lemma RekeyGet<K(!new), K2(!new), V(!new)>(t: Table<K, V>, f: K -> K2, k2: K2)
    requires forall a, b :: f(a) == f(b) ==> a == b
    ensures forall k :: f(k) == k2 ==> Get(Rekey(t, f), k2) == Get(t, k)
    ensures (forall k :: f(k) != k2) ==> Get(Rekey(t, f), k2) == None
    ensures UniqueKeys(t) ==> UniqueKeys(Rekey(t, f))
  {
    var r := Rekey(t, f);
    IndexOfSpec(r, k2);
    forall k | f(k) == k2
      ensures Get(r, k2) == Get(t, k)
    {
      IndexOfSpec(t, k);
      match IndexOf(t, k)
      case Some(i) =>
        assert r[i].key == k2;
        assert forall j :: 0 <= j < i ==> r[j].key != k2;
      case None =>
        forall j | 0 <= j < |r|
          ensures r[j].key != k2
        {
          assert r[j].key == f(t[j].key) && t[j].key != k;
        }
    }
    if forall k :: f(k) != k2 {
      forall j | 0 <= j < |r|
        ensures r[j].key != k2
      {
        assert r[j].key == f(t[j].key);
      }
    }
  }

  /** UPDATE ... SET val = f(val) WHERE p(row): rows keep their keys and positions. */
  function UpdateWhere<K(==,!new), V(!new)>(t: Table<K, V>, p: Row<K, V> -> bool, f: V -> V): Table<K, V>
  {
    seq(|t|, i requires 0 <= i < |t| => if p(t[i]) then Row(t[i].key, f(t[i].val)) else t[i])
  }

  /**
   * The row of key `k` is updated exactly when it matches, every other key
   * reads as before, and keys stay unique.
   */
  lemma UpdateWhereGet<K(!new), V(!new)>(t: Table<K, V>, p: Row<K, V> -> bool, f: V -> V, k: K)
    ensures Get(UpdateWhere(t, p, f), k) ==
      match Get(t, k) case Some(v) => (if p(Row(k, v)) then Some(f(v)) else Some(v)) case None => None
    ensures UniqueKeys(t) ==> UniqueKeys(UpdateWhere(t, p, f))
  {
    var r := UpdateWhere(t, p, f);
    IndexOfSameKeys(t, r, k);
    IndexOfSpec(t, k);
    if IndexOf(t, k).Some? {
      var i := IndexOf(t, k).value;
      assert t[i] == Row(k, t[i].val);
    }
  }

  /** An update rewrites values only, so the table keeps its unique keys. */
  lemma UpdateWhereUnique<K(!new), V(!new)>(t: Table<K, V>, p: Row<K, V> -> bool, f: V -> V)
    requires UniqueKeys(t)
    ensures UniqueKeys(UpdateWhere(t, p, f))
  {
    var r := UpdateWhere(t, p, f);
    assert forall i :: 0 <= i < |t| ==> r[i].key == t[i].key;
  }

  /**
   * Running the same update twice is running it once, when `f` is
   * idempotent and an updated row still matches.
   */
  lemma UpdateWhereIdempotent<K(!new), V(!new)>(t: Table<K, V>, p: Row<K, V> -> bool, f: V -> V)
    requires forall v :: f(f(v)) == f(v)
    requires forall row: Row<K, V> :: p(row) ==> p(Row(row.key, f(row.val)))
    ensures UpdateWhere(UpdateWhere(t, p, f), p, f) == UpdateWhere(t, p, f)
  {
    var once := UpdateWhere(t, p, f);
    var twice := UpdateWhere(once, p, f);
    forall i | 0 <= i < |t|
      ensures twice[i] == once[i]
    {
      if p(t[i]) {
        assert p(once[i]);
        assert f(f(t[i].val)) == f(t[i].val);
      }
    }
  }

  /** The first row, in storage order, that satisfies `p` (`SELECT ... WHERE p LIMIT 1`). */
  function FirstWhere<K(==,!new), V(!new)>(t: Table<K, V>, p: Row<K, V> -> bool): Option<Row<K, V>>
  {
    FirstFrom(t, p, 0)
  }

  /** The first row at or after position `from` that satisfies `p`. */
  function FirstFrom<K(==,!new), V(!new)>(t: Table<K, V>, p: Row<K, V> -> bool, from: nat): Option<Row<K, V>>
    decreases |t| - from
  {
    if from >= |t| then None
    else if p(t[from]) then Some(t[from])
    else FirstFrom(t, p, from + 1)
  }

  lemma {:induction false} FirstFromSpec<K(!new), V(!new)>(t: Table<K, V>, p: Row<K, V> -> bool, from: nat)
    decreases |t| - from
    ensures FirstFrom(t, p, from).Some? ==>
      exists i :: from <= i < |t| && t[i] == FirstFrom(t, p, from).value && p(t[i]) &&
                  forall j :: from <= j < i ==> !p(t[j])
    ensures FirstFrom(t, p, from).None? ==> forall i :: from <= i < |t| ==> !p(t[i])
  {
    if from < |t| {
      if !p(t[from]) {
        FirstFromSpec(t, p, from + 1);
      }
    }
  }

  /**
   * `FirstWhere` returns the row of the table satisfying `p` that comes
   * first, and nothing only when no row does.
   */
  lemma FirstWhereSpec<K(!new), V(!new)>(t: Table<K, V>, p: Row<K, V> -> bool)
    ensures FirstWhere(t, p).Some? ==>
      exists i :: 0 <= i < |t| && t[i] == FirstWhere(t, p).value && p(t[i]) && forall j :: 0 <= j < i ==> !p(t[j])
    ensures FirstWhere(t, p).Some? ==> FirstWhere(t, p).value in t && p(FirstWhere(t, p).value)
    ensures FirstWhere(t, p).None? ==> forall i :: 0 <= i < |t| ==> !p(t[i])
  {
    FirstFromSpec(t, p, 0);
  }

  // ----- Tables with a serial id and a second unique constraint -----

  /** Every id lies below the next value of the table's serial sequence. */
  ghost predicate SerialBelow<V(!new)>(t: Table<int, V>, next: int)
  {
    forall i :: 0 <= i < |t| ==> t[i].key < next
  }

  /** No two rows agree on `slot`: the `UNIQUE (...)` constraint an `ON CONFLICT (...)` names. */
  ghost predicate UniqueOn<V(!new), S(!new)>(t: Table<int, V>, slot: V -> S)
  {
    forall i, j :: 0 <= i < j < |t| ==> slot(t[i].val) != slot(t[j].val)
  }

  /** The row filter `WHERE slot(row) = s`. */
  function SlotIs<V(!new), S(==,!new)>(slot: V -> S, s: S): Row<int, V> -> bool
  {
    (row: Row<int, V>) => slot(row.val) == s
  }

  /**
   * The id `INSERT ... ON CONFLICT (slot) DO UPDATE ... RETURNING id` returns:
   * the id of the row already holding the slot, or the serial value drawn.
   */
  function SerialUpsertId<V(!new), S(==,!new)>(t: Table<int, V>, next: int, slot: V -> S, s: S): int
  {
    match FirstWhere(t, SlotIs(slot, s))
    case Some(row) => row.key
    case None => next
  }

  /**
   * `INSERT ... ON CONFLICT (slot) DO UPDATE SET ...`: the row holding the
   * slot of `v` becomes `merge(old, v)`; without one, `v` is appended under the
   * serial value `next`.
   */
  function SerialUpsert<V(!new), S(==,!new)>(t: Table<int, V>, next: int, slot: V -> S, v: V,
                                             merge: (V, V) -> V): Table<int, V>
  {
    match FirstWhere(t, SlotIs(slot, slot(v)))
    case Some(row) => Upsert(t, row.key, merge(row.val, v))
    case None => t + [Row(next, v)]
  }

  /** The returned id holds the merged (or new) row; every other id keeps its row. */
  lemma SerialUpsertGet<V(!new), S(!new)>(t: Table<int, V>, next: int, slot: V -> S, v: V,
                                          merge: (V, V) -> V, k: int)
    requires UniqueKeys(t) && SerialBelow(t, next)
    ensures var id := SerialUpsertId(t, next, slot, slot(v));
      Get(SerialUpsert(t, next, slot, v, merge), k) ==
        if k == id then Some(match Get(t, id) case Some(o) => merge(o, v) case None => v) else Get(t, k)
  {
    var p := SlotIs(slot, slot(v));
    FirstWhereSpec(t, p);
    match FirstWhere(t, p)
    case Some(row) =>
      var i :| 0 <= i < |t| && t[i] == row;
      GetUnique(t, i);
      UpsertGet(t, row.key, merge(row.val, v), k);
    case None =>
      GetSpec(t, next);
      GetAppend(t, Row(next, v), k);
  }

  /**
   * The upsert keeps both constraints and the serial bound, and afterwards
   * the slot of `v` is held by exactly the returned id, so a repeated upsert
   * returns the same id.
   */
  lemma SerialUpsertKeys<V(!new), S(!new)>(t: Table<int, V>, next: int, slot: V -> S, v: V, merge: (V, V) -> V)
    requires UniqueKeys(t) && UniqueOn(t, slot) && SerialBelow(t, next)
    requires forall o, x :: slot(merge(o, x)) == slot(o)
    ensures var r := SerialUpsert(t, next, slot, v, merge);
      UniqueKeys(r) && UniqueOn(r, slot) && SerialBelow(r, next + 1)
    ensures var r := SerialUpsert(t, next, slot, v, merge);
      var id := SerialUpsertId(t, next, slot, slot(v));
      forall i :: 0 <= i < |r| ==> (slot(r[i].val) == slot(v) <==> r[i].key == id)
    ensures forall n :: SerialUpsertId(SerialUpsert(t, next, slot, v, merge), n, slot, slot(v)) ==
                        SerialUpsertId(t, next, slot, slot(v))
  {
    var p := SlotIs(slot, slot(v));
    var r := SerialUpsert(t, next, slot, v, merge);
    var id := SerialUpsertId(t, next, slot, slot(v));
    FirstWhereSpec(t, p);
    match FirstWhere(t, p)
    case Some(row) =>
      var i0 :| 0 <= i0 < |t| && t[i0] == row;
      IndexOfSpec(t, row.key);
      assert |r| == |t| && forall j :: 0 <= j < |t| ==> r[j].key == t[j].key && slot(r[j].val) == slot(t[j].val);
      FirstWhereSpec(r, p);
      assert p(r[i0]);
    case None =>
      assert r == t + [Row(next, v)];
      FirstWhereSpec(r, p);
      assert p(r[|t|]);
  }
}
