/** The forecast dataset and the merge `save_data` performs on it
    (Weather3.py:83-108).

    A dataset is a sequence of seven-column rows.  Its index is the first
    four columns: mountain, date, elevation and time.  Saving a batch keeps
    every stored row whose index the batch does not hold, in stored order,
    then appends the whole batch; when no dataset is stored yet the batch
    is the dataset. */
module Dataset {
  import opened Wrappers
  import opened Text

  /** `['mountain', 'date', 'elevation', 'time', 'summary',
      'max_temperature', 'min_temperature']`. */
  datatype Row = Row(mountain: String, date: String, elevation: String, time: String,
                     summary: String, maxTemperature: String, minTemperature: String)

  /** The index `column_names[:4]`. */
  datatype Key = Key(mountain: String, date: String, elevation: String, time: String)

  /** What saving can raise once a dataset is stored: `DataFrame.update`
      reindexes the batch on the stored index, which fails when the batch
      holds one index twice. */
  datatype MergeError = DuplicateBatchKey(key: Key)

  function KeyOf(r: Row): Key {
    Key(r.mountain, r.date, r.elevation, r.time)
  }

  /** The index values of `rows`. */
  function Keys(rows: seq<Row>): set<Key> {
    set i | 0 <= i < |rows| :: KeyOf(rows[i])
  }

  lemma KeysCons(rows: seq<Row>)
    requires rows != []
    ensures Keys(rows) == {KeyOf(rows[0])} + Keys(rows[1..])
  {
    forall k | k in Keys(rows) && k != KeyOf(rows[0])
      ensures k in Keys(rows[1..])
    {
      var i :| 0 <= i < |rows| && KeyOf(rows[i]) == k;
      assert rows[1..][i - 1] == rows[i];
    }
    forall k | k in Keys(rows[1..])
      ensures k in Keys(rows)
    {
      var i :| 0 <= i < |rows[1..]| && KeyOf(rows[1..][i]) == k;
      assert rows[1..][i] == rows[i + 1];
    }
  }

  /** No two rows share an index value. */
  predicate UniqueKeys(rows: seq<Row>) {
    forall i, j :: 0 <= i < j < |rows| ==> KeyOf(rows[i]) != KeyOf(rows[j])
  }

  /** `old_df[~old_df.index.isin(new_df.index)]`: the rows whose index is
      not in `ks`, in their order. */
  function Retained(rows: seq<Row>, ks: set<Key>): (r: seq<Row>)
    ensures |r| <= |rows|
  {
    if rows == [] then []
    else if KeyOf(rows[0]) in ks then Retained(rows[1..], ks)
    else [rows[0]] + Retained(rows[1..], ks)
  }

  /** The rows of `rows` indexed `k`, in their order. */
  function WithKey(rows: seq<Row>, k: Key): (r: seq<Row>)
    ensures |r| <= |rows|
  {
    if rows == [] then []
    else if KeyOf(rows[0]) == k then [rows[0]] + WithKey(rows[1..], k)
    else WithKey(rows[1..], k)
  }

  /** The first batch row with index `k`, if any. */
  function Lookup(batch: seq<Row>, k: Key): (m: Option<Row>)
    ensures m.Some? ==> m.value in batch && KeyOf(m.value) == k
    ensures m.None? ==> k !in Keys(batch)
  {
    if batch == [] then None
    else if KeyOf(batch[0]) == k then Some(batch[0])
    else
      KeysCons(batch);
      Lookup(batch[1..], k)
  }

  /** `old_df.update(new_df)`: every stored row whose index the batch holds
      takes the summary and temperatures of a batch row with that index
      (the first one); the index columns and every other row stay as they
      were. */
  function Update(stored: seq<Row>, batch: seq<Row>): (r: seq<Row>)
    ensures |r| == |stored|
    ensures forall i :: 0 <= i < |stored| ==> KeyOf(r[i]) == KeyOf(stored[i])
    ensures forall i :: 0 <= i < |stored| && KeyOf(stored[i]) !in Keys(batch) ==> r[i] == stored[i]
    ensures forall i :: 0 <= i < |stored| && KeyOf(stored[i]) in Keys(batch) ==>
      exists j :: 0 <= j < |batch| && KeyOf(batch[j]) == KeyOf(stored[i])
        && r[i] == stored[i].(summary := batch[j].summary, maxTemperature := batch[j].maxTemperature,
                              minTemperature := batch[j].minTemperature)
  {
    if stored == [] then []
    else
      var rest := Update(stored[1..], batch);
      var row := match Lookup(batch, KeyOf(stored[0]))
        case None => stored[0]
        case Some(b) => stored[0].(summary := b.summary, maxTemperature := b.maxTemperature,
                                   minTemperature := b.minTemperature);
      assert forall i :: 1 <= i < |stored| ==> ([row] + rest)[i] == rest[i - 1] && stored[i] == stored[1..][i - 1];
      [row] + rest
  }

  /** The first index the batch holds twice, if any. */
  function DuplicateKey(batch: seq<Row>): (d: Option<Key>)
    ensures d.None? <==> UniqueKeys(batch)
    ensures d.Some? ==> exists i, j :: 0 <= i < j < |batch| && KeyOf(batch[i]) == d.value && KeyOf(batch[j]) == d.value
  {
    if batch == [] then None
    else if KeyOf(batch[0]) in Keys(batch[1..]) then
      var j :| 0 <= j < |batch[1..]| && KeyOf(batch[1..][j]) == KeyOf(batch[0]);
      assert KeyOf(batch[j + 1]) == KeyOf(batch[0]);
      Some(KeyOf(batch[0]))
    else
      var d := DuplicateKey(batch[1..]);
      if d.Some? then
        var i, j :| 0 <= i < j < |batch[1..]| && KeyOf(batch[1..][i]) == d.value && KeyOf(batch[1..][j]) == d.value;
        assert KeyOf(batch[i + 1]) == d.value && KeyOf(batch[j + 1]) == d.value;
        d
      else
        assert forall j :: 0 < j < |batch| ==> KeyOf(batch[j]) != KeyOf(batch[0]) by {
          forall j | 0 < j < |batch|
            ensures KeyOf(batch[j]) != KeyOf(batch[0])
          {
            assert batch[1..][j - 1] == batch[j];
          }
        }
        assert forall i, j :: 0 < i < j < |batch| ==> KeyOf(batch[i]) != KeyOf(batch[j]) by {
          forall i, j | 0 < i < j < |batch|
            ensures KeyOf(batch[i]) != KeyOf(batch[j])
          {
            assert batch[1..][i - 1] == batch[i] && batch[1..][j - 1] == batch[j];
          }
        }
        d
  }

  /** The index of `rows` in row order. */
  function KeySeq(rows: seq<Row>): (ks: seq<Key>)
    ensures |ks| == |rows|
  {
    seq(|rows|, i requires 0 <= i < |rows| => KeyOf(rows[i]))
  }

  /** `save_data(rows)` on the dataset: with no stored dataset the batch
      itself; otherwise the stored rows after the update, without those
      the batch re-indexes, followed by the batch.  The update reindexes
      the batch on the stored index, which raises when the batch holds an
      index twice, unless the two indexes are equal row for row, in which
      case nothing is reindexed. */
  function Merge(stored: Option<seq<Row>>, batch: seq<Row>): (r: Result<seq<Row>, MergeError>)
    ensures stored.None? ==> r == Success(batch)
    ensures stored.Some? ==>
      (r.Success? <==> UniqueKeys(batch) || KeySeq(stored.value) == KeySeq(batch))
    ensures stored.Some? && r.Success? ==> r.value == Retained(stored.value, Keys(batch)) + batch
    ensures r.Failure? ==>
      exists i, j :: 0 <= i < j < |batch| && KeyOf(batch[i]) == r.error.key && KeyOf(batch[j]) == r.error.key
  {
    match stored
    case None => Success(batch)
    case Some(rows) =>
      var d := DuplicateKey(batch);
      if d.Some? && KeySeq(rows) != KeySeq(batch) then Failure(DuplicateBatchKey(d.value))
      else
        UpdateErased(rows, batch);
        Success(Retained(Update(rows, batch), Keys(batch)) + batch)
  }

  // ---------------------------------------------------------------------
  // Properties of the pieces
  // ---------------------------------------------------------------------

  /** A row is retained exactly when it is stored and its index is not in `ks`. */
  lemma {:induction false} RetainedMembers(rows: seq<Row>, ks: set<Key>)
    ensures forall r :: r in Retained(rows, ks) <==> r in rows && KeyOf(r) !in ks
  {
    if rows != [] {
      RetainedMembers(rows[1..], ks);
      assert rows == [rows[0]] + rows[1..];
    }
  }

  /** Filtering a concatenation filters each part, keeping their order. */
  lemma {:induction false} RetainedConcat(a: seq<Row>, b: seq<Row>, ks: set<Key>)
    ensures Retained(a + b, ks) == Retained(a, ks) + Retained(b, ks)
  {
    if a != [] {
      RetainedConcat(a[1..], b, ks);
      assert (a + b)[0] == a[0];
      assert (a + b)[1..] == a[1..] + b;
    } else {
      assert a + b == b;
    }
  }

  lemma {:induction false} RetainedKeys(rows: seq<Row>, ks: set<Key>)
    ensures Keys(Retained(rows, ks)) == Keys(rows) - ks
  {
    if rows != [] {
      KeysCons(rows);
      RetainedKeys(rows[1..], ks);
      if KeyOf(rows[0]) !in ks {
        KeysCons(Retained(rows, ks));
        assert Retained(rows, ks)[1..] == Retained(rows[1..], ks);
      }
    }
  }

  /** Filtering out every index of the batch leaves nothing of it. */
  lemma {:induction false} RetainedOwnKeys(rows: seq<Row>, ks: set<Key>)
    requires Keys(rows) <= ks
    ensures Retained(rows, ks) == []
  {
    if rows != [] {
      KeysCons(rows);
      RetainedOwnKeys(rows[1..], ks);
    }
  }

  lemma {:induction false} KeysConcat(a: seq<Row>, b: seq<Row>)
    ensures Keys(a + b) == Keys(a) + Keys(b)
  {
    if a == [] {
      assert a + b == b;
    } else {
      KeysConcat(a[1..], b);
      KeysCons(a);
      KeysCons(a + b);
      assert (a + b)[0] == a[0];
      assert (a + b)[1..] == a[1..] + b;
    }
  }

  /** The update of Weather3.py:102 changes nothing that survives the
      filter of line 103: every row it rewrites is dropped. */
  lemma {:induction false} UpdateErased(stored: seq<Row>, batch: seq<Row>)
    ensures Retained(Update(stored, batch), Keys(batch)) == Retained(stored, Keys(batch))
  {
    if stored != [] {
      UpdateErased(stored[1..], batch);
      assert Update(stored, batch)[1..] == Update(stored[1..], batch);
    }
  }

  lemma {:induction false} WithKeyConcat(a: seq<Row>, b: seq<Row>, k: Key)
    ensures WithKey(a + b, k) == WithKey(a, k) + WithKey(b, k)
  {
    if a != [] {
      WithKeyConcat(a[1..], b, k);
      assert (a + b)[0] == a[0];
      assert (a + b)[1..] == a[1..] + b;
    } else {
      assert a + b == b;
    }
  }

  lemma {:induction false} WithKeyAbsent(rows: seq<Row>, k: Key)
    requires k !in Keys(rows)
    ensures WithKey(rows, k) == []
  {
    if rows != [] {
      KeysCons(rows);
      WithKeyAbsent(rows[1..], k);
    }
  }

  lemma {:induction false} WithKeyRetained(rows: seq<Row>, ks: set<Key>, k: Key)
    ensures WithKey(Retained(rows, ks), k) == if k in ks then [] else WithKey(rows, k)
  {
    if rows != [] {
      WithKeyRetained(rows[1..], ks, k);
    }
  }

  // ---------------------------------------------------------------------
  // Properties of the merge
  // ---------------------------------------------------------------------

  /** The merged index is the stored index together with the batch's. */
  lemma MergeKeys(stored: seq<Row>, batch: seq<Row>)
    requires Merge(Some(stored), batch).Success?
    ensures Keys(Merge(Some(stored), batch).value) == Keys(stored) + Keys(batch)
  {
    KeysConcat(Retained(stored, Keys(batch)), batch);
    RetainedKeys(stored, Keys(batch));
  }

  /** Upsert by index: after the merge, the rows with an index the batch
      holds are exactly the batch's rows with that index, and the rows
      with any other index are exactly the stored ones. */
  lemma MergeByKey(stored: seq<Row>, batch: seq<Row>, k: Key)
    requires Merge(Some(stored), batch).Success?
    ensures WithKey(Merge(Some(stored), batch).value, k)
         == if k in Keys(batch) then WithKey(batch, k) else WithKey(stored, k)
  {
    WithKeyConcat(Retained(stored, Keys(batch)), batch, k);
    WithKeyRetained(stored, Keys(batch), k);
    if k !in Keys(batch) {
      WithKeyAbsent(batch, k);
    }
  }

  /** Saving a batch over a dataset whose index is the batch's, row for
      row, gives the batch, even when the batch holds an index twice. */
  lemma MergeSameIndex(stored: seq<Row>, batch: seq<Row>)
    requires KeySeq(stored) == KeySeq(batch)
    ensures Merge(Some(stored), batch) == Success(batch)
  {
    forall k | k in Keys(stored)
      ensures k in Keys(batch)
    {
      var i :| 0 <= i < |stored| && KeyOf(stored[i]) == k;
      assert KeySeq(stored)[i] == KeySeq(batch)[i];
    }
    RetainedOwnKeys(stored, Keys(batch));
    assert Retained(stored, Keys(batch)) + batch == batch;
  }

  /** Saving the same batch twice gives the dataset saving it once gave,
      whenever the first save succeeds. */
  lemma MergeIdempotent(stored: Option<seq<Row>>, batch: seq<Row>)
    requires Merge(stored, batch).Success?
    ensures Merge(Some(Merge(stored, batch).value), batch) == Merge(stored, batch)
  {
    var once := Merge(stored, batch).value;
    if !UniqueKeys(batch) {
      if stored.Some? {
        MergeSameIndex(stored.value, batch);
      }
      assert once == batch;
      MergeSameIndex(batch, batch);
    } else {
      var kept := if stored.Some? then Retained(stored.value, Keys(batch)) else [];
      assert once == kept + batch;
      RetainedConcat(kept, batch, Keys(batch));
      RetainedOwnKeys(batch, Keys(batch));
      if stored.Some? {
        RetainedKeys(stored.value, Keys(batch));
        RetainedIdentity(kept, Keys(batch));
      }
      assert Retained(once, Keys(batch)) == kept;
    }
  }

  lemma UniqueCons(rows: seq<Row>)
    requires rows != []
    ensures UniqueKeys(rows) <==> KeyOf(rows[0]) !in Keys(rows[1..]) && UniqueKeys(rows[1..])
  {
    if UniqueKeys(rows) {
      forall j | 0 <= j < |rows[1..]|
        ensures KeyOf(rows[1..][j]) != KeyOf(rows[0])
      {
        assert rows[1..][j] == rows[j + 1];
      }
      forall i, j | 0 <= i < j < |rows[1..]|
        ensures KeyOf(rows[1..][i]) != KeyOf(rows[1..][j])
      {
        assert rows[1..][i] == rows[i + 1] && rows[1..][j] == rows[j + 1];
      }
    }
    if KeyOf(rows[0]) !in Keys(rows[1..]) && UniqueKeys(rows[1..]) {
      forall i, j | 0 <= i < j < |rows|
        ensures KeyOf(rows[i]) != KeyOf(rows[j])
      {
        assert rows[j] == rows[1..][j - 1];
        if i > 0 {
          assert rows[i] == rows[1..][i - 1];
        }
      }
    }
  }

  lemma {:induction false} RetainedUnique(rows: seq<Row>, ks: set<Key>)
    requires UniqueKeys(rows)
    ensures UniqueKeys(Retained(rows, ks))
  {
    if rows != [] {
      UniqueCons(rows);
      RetainedUnique(rows[1..], ks);
      if KeyOf(rows[0]) !in ks {
        RetainedKeys(rows[1..], ks);
        UniqueCons(Retained(rows, ks));
        assert Retained(rows, ks)[1..] == Retained(rows[1..], ks);
      }
    }
  }

  lemma {:induction false} UniqueConcat(a: seq<Row>, b: seq<Row>)
    requires UniqueKeys(a) && UniqueKeys(b) && Keys(a) !! Keys(b)
    ensures UniqueKeys(a + b)
  {
    if a == [] {
      assert a + b == b;
    } else {
      UniqueCons(a);
      UniqueConcat(a[1..], b);
      KeysConcat(a[1..], b);
      assert (a + b)[0] == a[0];
      assert (a + b)[1..] == a[1..] + b;
      UniqueCons(a + b);
    }
  }

  /** A dataset and a batch that each hold every index at most once merge
      into a dataset that does too. */
  lemma MergeUnique(stored: seq<Row>, batch: seq<Row>)
    requires UniqueKeys(stored) && UniqueKeys(batch)
    ensures Merge(Some(stored), batch).Success?
    ensures UniqueKeys(Merge(Some(stored), batch).value)
  {
    RetainedUnique(stored, Keys(batch));
    RetainedKeys(stored, Keys(batch));
    UniqueConcat(Retained(stored, Keys(batch)), batch);
  }

  /** Filtering out indices the rows do not hold leaves them as they are. */
  lemma {:induction false} RetainedIdentity(rows: seq<Row>, ks: set<Key>)
    requires Keys(rows) !! ks
    ensures Retained(rows, ks) == rows
  {
    if rows != [] {
      KeysCons(rows);
      RetainedIdentity(rows[1..], ks);
    }
  }
}
