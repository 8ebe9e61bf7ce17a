/**
 The table of todo records behind the create, update and delete views.

 The table is an ordered sequence of rows keyed by an auto-assigned
 primary key, together with the next key to hand out.  Keys start at 1
 and are never reused, so a new row always gets a key larger than every
 key ever stored; rows stay in ascending key order, and the model lists
 rows in this order.
 */
module TodoStore {
  import opened Wrappers
  import opened TodoModel

  /** A stored record with its primary key. */
  datatype Row = Row(id: nat, todo: Todo)

  /** The table and its key counter. */
  datatype Store = Store(rows: seq<Row>, nextId: nat)

  /** Why a store operation was refused. */
  datatype StoreError =
    | NotFound(id: nat)          // no row has this primary key
    | Invalid(error: NameError)  // the submitted record failed validation

  /** The empty table: the first key handed out is 1. */
  const EmptyStore: Store := Store([], 1)

  /** Keys strictly increase along the rows (hence they are distinct). */
  predicate IdsIncreasing(rows: seq<Row>) {
    forall i, j :: 0 <= i < j < |rows| ==> rows[i].id < rows[j].id
  }

  /** What every reachable table satisfies: rows in key order, every key
      below the counter, every record valid. */
  predicate Inv(s: Store) {
    && IdsIncreasing(s.rows)
    && (forall i :: 0 <= i < |s.rows| ==> s.rows[i].id < s.nextId)
    && (forall i :: 0 <= i < |s.rows| ==> Valid(s.rows[i].todo))
  }

  /** Some row carries key `id`. */
  predicate HasId(rows: seq<Row>, id: nat) {
    exists i :: 0 <= i < |rows| && rows[i].id == id
  }

  /** Lookup by primary key: the record of a row with key `id` (keys are
      unique in a reachable table). */
  function Find(rows: seq<Row>, id: nat): (r: Option<Todo>)
    ensures r.Some? <==> HasId(rows, id)
    ensures r.Some? ==> Row(id, r.value) in rows
  {
    if rows == [] then None
    else if rows[0].id == id then Some(rows[0].todo)
    else
      var r := Find(rows[1..], id);
      assert HasId(rows[1..], id) ==> HasId(rows, id) by {
        if HasId(rows[1..], id) {
          var i :| 0 <= i < |rows[1..]| && rows[1..][i].id == id;
          assert rows[i + 1].id == id;
        }
      }
      assert HasId(rows, id) ==> HasId(rows[1..], id) by {
        if HasId(rows, id) {
          var i :| 0 <= i < |rows| && rows[i].id == id;
          assert i > 0 && rows[1..][i - 1].id == id;
        }
      }
      r
  }

  /** The rows without any row keyed `id`, in their original order. */
  function Without(rows: seq<Row>, id: nat): (r: seq<Row>)
    ensures forall x :: x in r <==> x in rows && x.id != id
    ensures |r| <= |rows|
  {
    if rows == [] then []
    else if rows[0].id == id then Without(rows[1..], id)
    else [rows[0]] + Without(rows[1..], id)
  }

  /** The rows with the record of every row keyed `id` replaced by `t`;
      keys and order are untouched. */
  function Replace(rows: seq<Row>, id: nat, t: Todo): (r: seq<Row>)
    ensures |r| == |rows|
    ensures forall i :: 0 <= i < |rows| ==> r[i].id == rows[i].id
    ensures forall i :: 0 <= i < |rows| ==>
              r[i].todo == (if rows[i].id == id then t else rows[i].todo)
  {
    if rows == [] then []
    else [Row(rows[0].id, if rows[0].id == id then t else rows[0].todo)]
         + Replace(rows[1..], id, t)
  }

  /** Fetch one record; an unknown key is NotFound. */
  function Get(s: Store, id: nat): (r: Result<Todo, StoreError>)
    ensures r.Success? <==> HasId(s.rows, id)
    ensures r.Failure? ==> r.error == NotFound(id)
    ensures r.Success? ==> Row(id, r.value) in s.rows
  {
    match Find(s.rows, id)
    case None => Failure(NotFound(id))
    case Some(t) => Success(t)
  }

  /** Save a submitted record under a fresh key.  An invalid record is
      refused with its validation error and nothing is stored. */
  function Create(s: Store, t: Todo): (r: Result<Store, StoreError>)
    ensures r.Success? <==> Valid(t)
    ensures r.Failure? ==> r.error == Invalid(CheckName(t.taskName).value)
    ensures r.Success? ==> r.value.rows == s.rows + [Row(s.nextId, t)]
    ensures r.Success? ==> r.value.nextId == s.nextId + 1
  {
    match FullClean(t)
    case Failure(e) => Failure(Invalid(e))
    case Success(clean) => Success(Store(s.rows + [Row(s.nextId, clean)], s.nextId + 1))
  }

  /** Overwrite the three editable fields of the row keyed `id` with the
      submitted record.  The key is looked up first: an unknown key is
      NotFound whatever was submitted; an invalid submission is refused. */
  function Update(s: Store, id: nat, t: Todo): (r: Result<Store, StoreError>)
    ensures r.Failure? && r.error.NotFound? <==> !HasId(s.rows, id)
    ensures r.Failure? && r.error.NotFound? ==> r.error.id == id
    ensures r.Failure? && r.error.Invalid? <==> HasId(s.rows, id) && !Valid(t)
    ensures r.Success? ==> r.value.nextId == s.nextId && |r.value.rows| == |s.rows|
    ensures r.Success? ==> forall i :: 0 <= i < |s.rows| ==> r.value.rows[i].id == s.rows[i].id
  {
    if !HasId(s.rows, id) then Failure(NotFound(id))
    else match FullClean(t)
      case Failure(e) => Failure(Invalid(e))
      case Success(clean) => Success(Store(Replace(s.rows, id, clean), s.nextId))
  }

  /** Remove the row keyed `id`; an unknown key is NotFound. */
  function Delete(s: Store, id: nat): (r: Result<Store, StoreError>)
    ensures r.Failure? <==> !HasId(s.rows, id)
    ensures r.Failure? ==> r.error == NotFound(id)
    ensures r.Success? ==> r.value.nextId == s.nextId
    ensures r.Success? ==> forall x :: x in r.value.rows <==> x in s.rows && x.id != id
  {
    if !HasId(s.rows, id) then Failure(NotFound(id))
    else Success(Store(Without(s.rows, id), s.nextId))
  }

  // ---------------------------------------------------------------------
  // Lookup-level effects of each operation: what changes and what does not.

  /** After removing key `id`, that key is gone and every other key finds
      what it found before. */
  lemma {:induction false} FindWithout(rows: seq<Row>, id: nat, k: nat)
    ensures Find(Without(rows, id), k) == if k == id then None else Find(rows, k)
    decreases |rows|
  {
    if rows != [] {
      FindWithout(rows[1..], id, k);
    }
  }

  /** After replacing the record of key `id`, that key finds the new
      record (if it existed) and every other key finds what it found
      before. */
  lemma {:induction false} FindReplace(rows: seq<Row>, id: nat, t: Todo, k: nat)
    ensures Find(Replace(rows, id, t), k) ==
            if k == id && HasId(rows, id) then Some(t) else Find(rows, k)
    decreases |rows|
  {
    if rows != [] {
      FindReplace(rows[1..], id, t, k);
      assert Replace(rows, id, t)[1..] == Replace(rows[1..], id, t);
    }
  }

  /** Appending a row with a key not yet present makes that key find the
      new record and leaves every other lookup alone. */
  lemma {:induction false} FindAppend(rows: seq<Row>, row: Row, k: nat)
    requires !HasId(rows, row.id)
    ensures Find(rows + [row], k) == if k == row.id then Some(row.todo) else Find(rows, k)
    decreases |rows|
  {
    if rows != [] {
      assert (rows + [row])[1..] == rows[1..] + [row];
      assert !HasId(rows[1..], row.id);
      FindAppend(rows[1..], row, k);
    } else {
      assert Find([row][1..], k) == None;
    }
  }

  /** With distinct keys, removing a present key removes exactly one row. */
  lemma {:induction false} WithoutCount(rows: seq<Row>, id: nat)
    requires IdsIncreasing(rows)
    ensures |Without(rows, id)| == if HasId(rows, id) then |rows| - 1 else |rows|
    decreases |rows|
  {
    if rows != [] {
      assert IdsIncreasing(rows[1..]);
      WithoutCount(rows[1..], id);
      if rows[0].id == id {
        assert !HasId(rows[1..], id);
      } else {
        assert HasId(rows, id) <==> HasId(rows[1..], id) by {
          if HasId(rows, id) {
            var i :| 0 <= i < |rows| && rows[i].id == id;
            assert rows[1..][i - 1].id == id;
          }
          if HasId(rows[1..], id) {
            var i :| 0 <= i < |rows[1..]| && rows[1..][i].id == id;
            assert rows[i + 1].id == id;
          }
        }
      }
    }
  }

  /** Removing rows keeps the remaining keys in increasing order. */
  lemma {:induction false} WithoutIncreasing(rows: seq<Row>, id: nat)
    requires IdsIncreasing(rows)
    ensures IdsIncreasing(Without(rows, id))
    decreases |rows|
  {
    if rows != [] {
      assert IdsIncreasing(rows[1..]);
      WithoutIncreasing(rows[1..], id);
      if rows[0].id != id {
        var rest := Without(rows[1..], id);
        forall j | 0 <= j < |rest|
          ensures rows[0].id < rest[j].id
        {
          assert rest[j] in rows[1..];
        }
      }
    }
  }

  // ---------------------------------------------------------------------
  // Operation-level properties.

  /** Create hands out a key no row carries, stores exactly the submitted
      record under it (name and description unchanged) and leaves every
      other key as it was. */
  lemma CreateEffect(s: Store, t: Todo, k: nat)
    requires Inv(s)
    requires Valid(t)
    ensures !HasId(s.rows, s.nextId)
    ensures Get(Create(s, t).value, s.nextId) == Success(t)
    ensures k != s.nextId ==> Get(Create(s, t).value, k) == Get(s, k)
  {
    FindAppend(s.rows, Row(s.nextId, t), k);
    FindAppend(s.rows, Row(s.nextId, t), s.nextId);
  }

  /** Update of an existing key makes that key hold the submitted record
      and leaves every other key, the key set and the counter unchanged. */
  lemma UpdateEffect(s: Store, id: nat, t: Todo, k: nat)
    requires HasId(s.rows, id) && Valid(t)
    ensures Update(s, id, t).Success?
    ensures Get(Update(s, id, t).value, id) == Success(t)
    ensures k != id ==> Get(Update(s, id, t).value, k) == Get(s, k)
  {
    FindReplace(s.rows, id, t, k);
    FindReplace(s.rows, id, t, id);
  }

  /** Delete of an existing key removes exactly that key: it is no longer
      found, every other key finds what it found before, and the table has
      one row fewer. */
  lemma DeleteEffect(s: Store, id: nat, k: nat)
    requires Inv(s) && HasId(s.rows, id)
    ensures Delete(s, id).Success?
    ensures Get(Delete(s, id).value, id) == Failure(NotFound(id))
    ensures k != id ==> Get(Delete(s, id).value, k) == Get(s, k)
    ensures |Delete(s, id).value.rows| == |s.rows| - 1
  {
    FindWithout(s.rows, id, k);
    FindWithout(s.rows, id, id);
    WithoutCount(s.rows, id);
  }

  /** Every operation keeps the table invariant, so keys stay unique and
      ordered and only valid records are ever stored. */
  lemma OperationsPreserveInv(s: Store, id: nat, t: Todo)
    requires Inv(s)
    ensures Create(s, t).Success? ==> Inv(Create(s, t).value)
    ensures Update(s, id, t).Success? ==> Inv(Update(s, id, t).value)
    ensures Delete(s, id).Success? ==> Inv(Delete(s, id).value)
  {
    if Delete(s, id).Success? {
      WithoutIncreasing(s.rows, id);
      var rows' := Delete(s, id).value.rows;
      forall i | 0 <= i < |rows'|
        ensures rows'[i].id < s.nextId && Valid(rows'[i].todo)
      {
        assert rows'[i] in s.rows;
      }
    }
  }

  /** The empty table satisfies the invariant. */
  lemma EmptyStoreInv()
    ensures Inv(EmptyStore) && EmptyStore.rows == []
  {
  }
}
