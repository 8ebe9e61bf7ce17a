/**
 The `Todo` record and its field-level validity rule.

 `task_name` is a character field of at most 50 characters carrying a
 minimum-length validator of 4 and not allowed to be blank;
 `task_description` is a nullable, blankable text field; `is_completed`
 is a boolean defaulting to false.  Strings are sequences of Unicode
 scalar values, so a length here counts characters the way Python's `len`
 does.
 */
module TodoModel {
  import opened Wrappers

  /** Lower bound of the minimum-length validator on `task_name`. */
  const MinNameLength: nat := 4
  /** `max_length` of the `task_name` column. */
  const MaxNameLength: nat := 50

  /** One todo item.  The description is nullable: `None` and `Some("")`
      are two different stored states. */
  datatype Todo = Todo(taskName: string, taskDescription: Option<string>, isCompleted: bool)

  /** Why validation of `task_name` failed.  Lengths are carried because
      the field errors report them. */
  datatype NameError =
    | Blank                      // the empty string: the field is required
    | TooShort(length: nat)      // 1 .. MinNameLength - 1 characters
    | TooLong(length: nat)       // more than MaxNameLength characters

  /** A task name passes every check of its field. */
  predicate ValidName(name: string) {
    MinNameLength <= |name| <= MaxNameLength
  }

  /** A record passes full validation.  Only the name is constrained: the
      description is nullable and blankable and has no length limit, and a
      boolean is always acceptable. */
  predicate Valid(t: Todo) {
    ValidName(t.taskName)
  }

  /** Builds a record the way the model's constructor does: an omitted
      description is `None` and an omitted completion flag is `false`.
      Nothing is validated, trimmed or truncated here. */
  function NewTodo(taskName: string, taskDescription: Option<string> := None,
                   isCompleted: bool := false): (t: Todo)
    ensures t.taskName == taskName && t.taskDescription == taskDescription
    ensures t.isCompleted == isCompleted
    ensures Valid(t) <==> MinNameLength <= |taskName| <= MaxNameLength
  {
    Todo(taskName, taskDescription, isCompleted)
  }

  /** The checks run on `task_name`: the blank check comes first, and the
      length validators only run on a non-empty value. */
  function CheckName(name: string): (r: Option<NameError>)
    ensures r.None? <==> ValidName(name)
    ensures r == Some(Blank) <==> name == []
    ensures r.Some? && r.value.TooShort? <==> 0 < |name| < MinNameLength
    ensures r.Some? && r.value.TooLong? <==> |name| > MaxNameLength
    ensures r.Some? && !r.value.Blank? ==> r.value.length == |name|
  {
    if name == [] then Some(Blank)
    else if |name| < MinNameLength then Some(TooShort(|name|))
    else if |name| > MaxNameLength then Some(TooLong(|name|))
    else None
  }

  /** Full validation of a record: either the record itself, unchanged, or
      the error on its name. */
  function FullClean(t: Todo): (r: Result<Todo, NameError>)
    ensures r.Success? <==> Valid(t)
    ensures r.Success? ==> r.value == t
    ensures r.Failure? ==> CheckName(t.taskName) == Some(r.error)
  {
    match CheckName(t.taskName)
    case None => Success(t)
    case Some(e) => Failure(e)
  }

  /** The string form of a record is its task name; for a valid record it
      is therefore a non-empty string of at most 50 characters. */
  function Str(t: Todo): (s: string)
    ensures Valid(t) ==> MinNameLength <= |s| <= MaxNameLength
  {
    t.taskName
  }

  /** Construction followed by the string form gives back the name passed
      in, whatever the other two arguments were. */
  lemma StrOfNewTodo(name: string, description: Option<string>, done: bool)
    ensures Str(NewTodo(name, description, done)) == name
    ensures Str(NewTodo(name)) == name
  {
  }

  /** Both omitted fields take their defaults: no description and not
      completed. */
  lemma NewTodoDefaults(name: string)
    ensures NewTodo(name).taskDescription == None
    ensures !NewTodo(name).isCompleted
    ensures NewTodo(name, Some("")).taskDescription == Some("")
    ensures NewTodo(name) != NewTodo(name, Some(""))
  {
  }

  /** A name is valid exactly when its length is within 4 .. 50; in
      particular the empty name never is. */
  lemma ValidNameBounds(name: string)
    ensures ValidName(name) <==> 4 <= |name| <= 50
    ensures name == [] ==> !ValidName(name)
    ensures FullClean(Todo(name, None, false)).Success? <==> 4 <= |name| <= 50
  {
  }

  /** The boundary cases the test-suite pins down: "" and "Tsk" are
      rejected, "Task" is accepted; and at the other end 50 characters are
      accepted and 51 are not. */
  lemma NameBoundaryExamples()
    ensures FullClean(NewTodo("", Some("Description"), true)) == Failure(Blank)
    ensures FullClean(NewTodo("Tsk", Some("Description"), true)) == Failure(TooShort(3))
    ensures FullClean(NewTodo("Task", Some("Description"), true)).Success?
    ensures ValidName(seq(50, _ => 'a'))
    ensures !ValidName(seq(51, _ => 'a'))
  {
  }

  /** Validity never depends on the description nor on the completion
      flag: any description, absent, empty or of any length, is accepted
      alongside a valid name. */
  lemma DescriptionIrrelevant(name: string, d1: Option<string>, d2: Option<string>, c1: bool, c2: bool)
    ensures Valid(Todo(name, d1, c1)) <==> Valid(Todo(name, d2, c2))
    ensures ValidName(name) ==> Valid(Todo(name, None, c1)) && Valid(Todo(name, Some(""), c1))
  {
  }

  /** A valid record comes out of validation exactly as it went in: the
      name and the description (including `None` versus `""`) are kept. */
  lemma CleanKeepsFields(name: string, description: Option<string>, done: bool)
    requires ValidName(name)
    ensures FullClean(NewTodo(name, description, done)) == Success(Todo(name, description, done))
    ensures FullClean(NewTodo(name)) == Success(Todo(name, None, false))
  {
  }
}
