/**
 The list page's selection: the optional `filter` request parameter picks
 which stored rows are shown, in table order.
 */
module TodoList {
  import opened Wrappers
  import opened TodoModel
  import opened TodoStore

  /** The value used when the request carries no `filter` parameter. */
  const DefaultFilter: string := "completed"

  /** The three selections the parameter can pick. */
  datatype Selection = OnlyCompleted | OnlyNotCompleted | Everything

  /** Maps the raw parameter to a selection: missing means "completed";
      "completed" and "not_completed" are recognised exactly (case and
      spacing matter); any other string selects everything. */
  function Dispatch(filter: Option<string>): (m: Selection)
    ensures m == OnlyCompleted <==> filter == None || filter == Some("completed")
    ensures m == OnlyNotCompleted <==> filter == Some("not_completed")
    ensures m == Everything <==>
              filter.Some? && filter.value != "completed" && filter.value != "not_completed"
  {
    var value := match filter
      case None => DefaultFilter
      case Some(v) => v;
    if value == "completed" then OnlyCompleted
    else if value == "not_completed" then OnlyNotCompleted
    else Everything
  }

  /** Whether a record belongs to a selection. */
  predicate Selects(m: Selection, t: Todo) {
    match m
    case OnlyCompleted => t.isCompleted
    case OnlyNotCompleted => !t.isCompleted
    case Everything => true
  }

  /** The rows whose completion flag equals `done`, in table order. */
  function WithStatus(rows: seq<Row>, done: bool): (r: seq<Row>)
    ensures forall x :: x in r <==> x in rows && x.todo.isCompleted == done
    ensures |r| <= |rows|
  {
    if rows == [] then []
    else if rows[0].todo.isCompleted == done then [rows[0]] + WithStatus(rows[1..], done)
    else WithStatus(rows[1..], done)
  }

  /** The rows the list page shows for a given `filter` parameter: exactly
      the stored rows the selected mode admits. */
  function GetQueryset(s: Store, filter: Option<string>): (r: seq<Row>)
    ensures forall x :: x in r <==> x in s.rows && Selects(Dispatch(filter), x.todo)
  {
    match Dispatch(filter)
    case OnlyCompleted => WithStatus(s.rows, true)
    case OnlyNotCompleted => WithStatus(s.rows, false)
    case Everything => s.rows
  }

  /** `xs` is `ys` with some elements dropped and the rest in order. */
  predicate IsSubsequence<T(==)>(xs: seq<T>, ys: seq<T>)
    decreases |ys|
  {
    if xs == [] then true
    else if ys == [] then false
    else if xs[0] == ys[0] then IsSubsequence(xs[1..], ys[1..])
    else IsSubsequence(xs, ys[1..])
  }

  /** Selecting by completion keeps the table's order. */
  lemma {:induction false} WithStatusIsSubsequence(rows: seq<Row>, done: bool)
    ensures IsSubsequence(WithStatus(rows, done), rows)
    decreases |rows|
  {
    if rows != [] {
      WithStatusIsSubsequence(rows[1..], done);
      if rows[0].todo.isCompleted == done {
        assert ([rows[0]] + WithStatus(rows[1..], done))[1..] == WithStatus(rows[1..], done);
      }
    }
  }

  /** Every sequence is a subsequence of itself. */
  lemma {:induction false} SubsequenceReflexive<T>(xs: seq<T>)
    ensures IsSubsequence(xs, xs)
    decreases |xs|
  {
    if xs != [] {
      SubsequenceReflexive(xs[1..]);
    }
  }

  /** A subsequence of a key-ordered sequence is key-ordered, and only
      holds elements of it. */
  lemma {:induction false} SubsequenceKeepsOrder(xs: seq<Row>, ys: seq<Row>)
    requires IsSubsequence(xs, ys)
    requires IdsIncreasing(ys)
    ensures IdsIncreasing(xs)
    ensures forall x :: x in xs ==> x in ys
    decreases |ys|
  {
    if xs != [] {
      assert IdsIncreasing(ys[1..]);
      if xs[0] == ys[0] {
        SubsequenceKeepsOrder(xs[1..], ys[1..]);
        assert xs == [xs[0]] + xs[1..];
        forall j | 0 < j < |xs|
          ensures xs[0].id < xs[j].id
        {
          assert xs[j] == xs[1..][j - 1];
          assert xs[j] in ys[1..];
        }
      } else {
        SubsequenceKeepsOrder(xs, ys[1..]);
      }
    }
  }

  /** Whatever the parameter, the page shows an order-preserving
      subsequence of the table; for a reachable table it is therefore in
      ascending key order. */
  lemma QuerysetIsSubsequence(s: Store, filter: Option<string>)
    ensures IsSubsequence(GetQueryset(s, filter), s.rows)
    ensures Inv(s) ==> IdsIncreasing(GetQueryset(s, filter))
  {
    match Dispatch(filter) {
      case OnlyCompleted => WithStatusIsSubsequence(s.rows, true);
      case OnlyNotCompleted => WithStatusIsSubsequence(s.rows, false);
      case Everything => SubsequenceReflexive(s.rows);
    }
    if Inv(s) {
      SubsequenceKeepsOrder(GetQueryset(s, filter), s.rows);
    }
  }

  /** No parameter behaves exactly like "completed". */
  lemma MissingFilterIsCompleted(s: Store)
    ensures GetQueryset(s, None) == GetQueryset(s, Some("completed"))
    ensures GetQueryset(s, None) == WithStatus(s.rows, true)
  {
  }

  /** The three modes of the `filter` parameter, by value. */
  lemma FilterModes(s: Store, other: string)
    requires other != "completed" && other != "not_completed"
    ensures forall x :: x in GetQueryset(s, Some("completed")) <==> x in s.rows && x.todo.isCompleted
    ensures forall x :: x in GetQueryset(s, Some("not_completed")) <==> x in s.rows && !x.todo.isCompleted
    ensures GetQueryset(s, Some(other)) == s.rows
  {
  }

  /** The completed and not-completed selections split the table: they
      share no row, and together they hold every row exactly as often as
      the table does. */
  lemma {:induction false} StatusPartition(rows: seq<Row>)
    ensures multiset(WithStatus(rows, true)) + multiset(WithStatus(rows, false)) == multiset(rows)
    ensures |WithStatus(rows, true)| + |WithStatus(rows, false)| == |rows|
    ensures forall x :: !(x in WithStatus(rows, true) && x in WithStatus(rows, false))
    decreases |rows|
  {
    if rows != [] {
      StatusPartition(rows[1..]);
      assert rows == [rows[0]] + rows[1..];
      assert multiset(rows) == multiset{rows[0]} + multiset(rows[1..]);
    }
  }

  /** The same split stated on the list page itself: the "completed" and
      "not_completed" pages are disjoint and their sizes add up to the
      size of the page that shows everything. */
  lemma QuerysetPartition(s: Store)
    ensures forall x :: !(x in GetQueryset(s, Some("completed")) && x in GetQueryset(s, Some("not_completed")))
    ensures |GetQueryset(s, Some("completed"))| + |GetQueryset(s, Some("not_completed"))|
            == |GetQueryset(s, Some("all"))|
  {
    StatusPartition(s.rows);
  }

  /** A table holding one completed and one incomplete task: the bare list
      page shows only the completed one, "not_completed" only the other,
      and "all" both, in key order. */
  lemma ListExample()
    ensures
      var done := Row(1, Todo("Completed Task", None, true));
      var open := Row(2, Todo("Incomplete Task", None, false));
      var s := Store([done, open], 3);
      && GetQueryset(s, None) == [done]
      && GetQueryset(s, Some("not_completed")) == [open]
      && GetQueryset(s, Some("all")) == [done, open]
  {
  }
}
