/**
 The request handlers for the add, edit and delete pages, reduced to what
 they decide: which store operation runs and what the response is.  Each
 successful change redirects to the list page; a failed validation shows
 the form again with the field error and changes nothing; an unknown key
 is a not-found response and changes nothing.
 */
module TodoViews {
  import opened Wrappers
  import opened TodoModel
  import opened TodoStore
  import opened TodoList

  /** The pages a handler redirects to: only the list page is used. */
  datatype Page = ListPage

  /** What a handler answers with. */
  datatype Response =
    | Redirect(to: Page)              // the change was saved
    | FormErrors(error: NameError)    // the form is shown again
    | NotFoundPage                    // no row has the requested key

  /** The redirect target after every successful change. */
  const SuccessPage: Page := ListPage

  /** The table after a handler ran, and its response. */
  datatype Outcome = Outcome(store: Store, response: Response)

  /** Turns a store result into the handler's outcome: the new table and a
      redirect on success, the old table and an error page otherwise. */
  function Respond(s: Store, r: Result<Store, StoreError>): (o: Outcome)
    ensures r.Success? <==> o.response == Redirect(SuccessPage)
    ensures r.Success? ==> o.store == r.value
    ensures r.Failure? ==> o.store == s
    ensures o.response == NotFoundPage <==> r.Failure? && r.error.NotFound?
  {
    match r
    case Success(s') => Outcome(s', Redirect(SuccessPage))
    case Failure(NotFound(_)) => Outcome(s, NotFoundPage)
    case Failure(Invalid(e)) => Outcome(s, FormErrors(e))
  }

  /** Posting the add form. */
  function PostCreate(s: Store, submitted: Todo): (o: Outcome)
    ensures o.response == Redirect(ListPage) <==> Valid(submitted)
    ensures !Valid(submitted) ==>
              o == Outcome(s, FormErrors(CheckName(submitted.taskName).value))
    ensures Valid(submitted) ==> o.store.rows == s.rows + [Row(s.nextId, submitted)]
    ensures Valid(submitted) ==> o.store.nextId == s.nextId + 1
  {
    Respond(s, Create(s, submitted))
  }

  /** Posting the edit form of row `pk`. */
  function PostUpdate(s: Store, pk: nat, submitted: Todo): (o: Outcome)
    ensures o.response == NotFoundPage <==> !HasId(s.rows, pk)
    ensures o.response == Redirect(ListPage) <==> HasId(s.rows, pk) && Valid(submitted)
    ensures o.response != Redirect(ListPage) ==> o.store == s
    ensures |o.store.rows| == |s.rows|
    ensures o.store.nextId == s.nextId
    ensures o.response == Redirect(ListPage) ==> Get(o.store, pk) == Success(submitted)
    ensures o.response == Redirect(ListPage) ==>
              forall k :: k != pk ==> Get(o.store, k) == Get(s, k)
    ensures o.response.FormErrors? ==> CheckName(submitted.taskName) == Some(o.response.error)
  {
    assert forall k :: Find(Replace(s.rows, pk, submitted), k) ==
             if k == pk && HasId(s.rows, pk) then Some(submitted) else Find(s.rows, k) by {
      forall k {
        FindReplace(s.rows, pk, submitted, k);
      }
    }
    Respond(s, Update(s, pk, submitted))
  }

  /** Confirming deletion of row `pk`. */
  function PostDelete(s: Store, pk: nat): (o: Outcome)
    ensures o.response == NotFoundPage <==> !HasId(s.rows, pk)
    ensures o.response == NotFoundPage || o.response == Redirect(ListPage)
    ensures o.response == NotFoundPage ==> o.store == s
    ensures o.response == Redirect(ListPage) ==>
              && !HasId(o.store.rows, pk)
              && (forall x :: x in o.store.rows <==> x in s.rows && x.id != pk)
              && o.store.nextId == s.nextId
  {
    FindWithout(s.rows, pk, pk);
    Respond(s, Delete(s, pk))
  }

  /** Whatever is posted, each handler leaves a reachable table reachable:
      keys stay unique, ascending and below the counter, and only valid
      records are ever stored; a refused request leaves it untouched. */
  lemma HandlersPreserveInv(s: Store, pk: nat, submitted: Todo)
    requires Inv(s)
    ensures Inv(PostCreate(s, submitted).store)
    ensures Inv(PostUpdate(s, pk, submitted).store)
    ensures Inv(PostDelete(s, pk).store)
    ensures PostDelete(s, pk).response == Redirect(ListPage) ==>
              |PostDelete(s, pk).store.rows| == |s.rows| - 1
  {
    OperationsPreserveInv(s, pk, submitted);
    if HasId(s.rows, pk) {
      DeleteEffect(s, pk, pk);
    }
  }

  /** A session of requests starting from the empty table: add one task,
      try to add one whose name is too short, then edit and delete the
      first.  The short name is refused, unknown keys are not found, and
      the list page follows every change. */
  lemma SessionExample()
    ensures
      var a := PostCreate(EmptyStore, NewTodo("Task", Some("Description")));
      var b := PostCreate(a.store, NewTodo("Tsk"));
      var c := PostUpdate(b.store, 1, NewTodo("Task", Some(""), true));
      var d := PostDelete(c.store, 2);
      var e := PostDelete(c.store, 1);
      && a.response == Redirect(ListPage)
      && b == Outcome(a.store, FormErrors(TooShort(3)))
      && GetQueryset(a.store, None) == []
      && GetQueryset(a.store, Some("all")) == [Row(1, Todo("Task", Some("Description"), false))]
      && c.response == Redirect(ListPage)
      && GetQueryset(c.store, None) == [Row(1, Todo("Task", Some(""), true))]
      && d == Outcome(c.store, NotFoundPage)
      && e.store.rows == [] && e.store.nextId == 2
  {
  }
}
