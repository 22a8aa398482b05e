/** The home page: the list state, how each settled request changes it, and
    the view derived from it. The add-task form is rendered inside the page
    with the page's append as its `onAdd` callback.

    Requests are taken to settle one at a time, each handler applying its
    transition to the list as it stands when its request settles.
 */
module HomePage {
  import opened Outcomes
  import opened Todos
  import opened TodoList
  import CreateForm
  import Whitespace

  /** The settled requests and callbacks that reach the page's list state. */
  datatype HomeEvent =
    | Loaded(listing: Outcome<seq<Todo>>)          // the initial fetch on mount
    | Edited(id: Id, updated: Outcome<Todo>)       // toggle request for `id`; body unused
    | Deleted(id: Id, removed: Outcome<Option<Todo>>)  // delete request for `id`; body unused
    | Added(todo: Todo)                            // the form's `onAdd` callback

  /** The event reports a rejected request. */
  predicate Rejected(ev: HomeEvent)
  {
    match ev
    case Loaded(listing) => listing.Failure?
    case Edited(_, updated) => updated.Failure?
    case Deleted(_, removed) => removed.Failure?
    case Added(_) => false
  }

  /** The list state after one event: a rejected request leaves it alone; a
      resolved one applies exactly its own transition. */
  function Step(s: seq<Todo>, ev: HomeEvent): (r: seq<Todo>)
    ensures Rejected(ev) ==> r == s
    ensures ev.Loaded? && ev.listing.Success? ==> r == ev.listing.data
    ensures ev.Edited? && !Rejected(ev) ==> r == Toggle(s, ev.id)
    ensures ev.Deleted? && !Rejected(ev) ==> r == Delete(s, ev.id)
    ensures ev.Added? ==> r == Append(s, ev.todo)
  {
    match ev
    case Loaded(listing) =>
      if listing.Success? then listing.data else s
    case Edited(id, updated) =>
      if updated.Success? then Toggle(s, id) else s
    case Deleted(id, removed) =>
      if removed.Success? then Delete(s, id) else s
    case Added(todo) =>
      Append(s, todo)
  }

  /** The list state after a sequence of events, applied in order. */
  function Run(s: seq<Todo>, evs: seq<HomeEvent>): seq<Todo>
    decreases |evs|
  {
    if evs == [] then s else Run(Step(s, evs[0]), evs[1..])
  }

  /** The events of `evs` that are not rejected requests, in order. */
  function Confirmed(evs: seq<HomeEvent>): (c: seq<HomeEvent>)
    ensures |c| <= |evs|
    ensures forall ev :: ev in c <==> ev in evs && !Rejected(ev)
    decreases |evs|
  {
    if evs == [] then []
    else if Rejected(evs[0]) then Confirmed(evs[1..])
    else [evs[0]] + Confirmed(evs[1..])
  }

  /** Rejected requests leave no trace: a run of events ends in the same
      list as the run of its confirmed events alone. */
  lemma {:induction false} RejectedLeaveNoTrace(s: seq<Todo>, evs: seq<HomeEvent>)
    ensures Run(s, evs) == Run(s, Confirmed(evs))
    decreases |evs|
  {
    if evs != [] {
      RejectedLeaveNoTrace(Step(s, evs[0]), evs[1..]);
      if !Rejected(evs[0]) {
        var c := [evs[0]] + Confirmed(evs[1..]);
        assert c[0] == evs[0] && c[1..] == Confirmed(evs[1..]);
      }
    }
  }

  // ---------------------------------------------------------------------
  // The view

  /** The two icons a row's checkbox shows. */
  datatype Icon = CheckedCircle | PlainCircle

  /** The class name that strikes a completed task's text through. */
  const LineThrough: string := "line_through"

  /** What one row shows: the task text, the checkbox icon and the text's class. */
  datatype Row = Row(id: Id, text: string, icon: Icon, textClass: string)

  /** The task container: the "no tasks yet" placeholder, or one row per record. */
  datatype View = NoTasks | Rows(rows: seq<Row>)

  function RenderRow(t: Todo): Row
  {
    Row(t.id, t.task, if t.done then CheckedCircle else PlainCircle, if t.done then LineThrough else "")
  }

  /** The view of the list: the placeholder exactly when the list is empty;
      otherwise the records in order, each struck through and checked
      exactly when it is done. */
  function Render(s: seq<Todo>): (v: View)
    ensures v.NoTasks? <==> s == []
    ensures v.Rows? ==> |v.rows| == |s|
    ensures v.Rows? ==> forall i :: 0 <= i < |s| ==>
              && v.rows[i].id == s[i].id && v.rows[i].text == s[i].task
              && (v.rows[i].icon == CheckedCircle <==> s[i].done)
              && (v.rows[i].textClass == if s[i].done then LineThrough else "")
  {
    if |s| == 0 then NoTasks
    else Rows(seq(|s|, i requires 0 <= i < |s| => RenderRow(s[i])))
  }

  // ---------------------------------------------------------------------
  // Row interactions

  /** A click on row `i`'s checkbox whose toggle request settles with `updated`. */
  function ClickCheckbox(s: seq<Todo>, i: nat, updated: Outcome<Todo>): (r: seq<Todo>)
    requires i < |s|
    ensures updated.Failure? ==> r == s
    ensures updated.Success? ==> |r| == |s| && r[i].done == !s[i].done
    ensures updated.Success? ==> forall j :: 0 <= j < |s| ==>
              && r[j].id == s[j].id && r[j].task == s[j].task
              && (s[j].id == s[i].id ==> r[j].done == !s[j].done)
              && (s[j].id != s[i].id ==> r[j] == s[j])
  {
    Step(s, Edited(s[i].id, updated))
  }

  /** A click on row `i`'s trash icon whose delete request settles with `removed`. */
  function ClickTrash(s: seq<Todo>, i: nat, removed: Outcome<Option<Todo>>): (r: seq<Todo>)
    requires i < |s|
    ensures removed.Failure? ==> r == s
    ensures removed.Success? ==> forall t :: t in r <==> t in s && t.id != s[i].id
    ensures removed.Success? ==> s[i] !in r && |r| < |s|
  {
    Step(s, Deleted(s[i].id, removed))
  }

  /** A confirmed checkbox click flips the icon and strike-through of its
      row, and leaves every row with a different identifier as it was; a
      rejected one changes nothing. */
  lemma CheckboxFlipsRow(s: seq<Todo>, i: nat, updated: Outcome<Todo>)
    requires i < |s|
    ensures var r := ClickCheckbox(s, i, updated);
            updated.Failure? ==> r == s
    ensures var v, w := Render(s), Render(ClickCheckbox(s, i, updated));
            updated.Success? ==>
              && w.Rows? && |w.rows| == |v.rows|
              && w.rows[i].icon != v.rows[i].icon
              && w.rows[i].textClass != v.rows[i].textClass
              && forall j :: 0 <= j < |s| && s[j].id != s[i].id ==> w.rows[j] == v.rows[j]
  {
  }

  /** A confirmed trash click removes the row's record and every other
      record with its identifier; with unique identifiers exactly one row
      goes. */
  lemma TrashRemovesRow(s: seq<Todo>, i: nat, removed: Outcome<Option<Todo>>)
    requires i < |s|
    ensures removed.Failure? ==> ClickTrash(s, i, removed) == s
    ensures removed.Success? ==> !HasId(ClickTrash(s, i, removed), s[i].id)
    ensures removed.Success? && UniqueIds(s) ==> |ClickTrash(s, i, removed)| == |s| - 1
  {
    if removed.Success? {
      DeleteRemovesAll(s, s[i].id);
      if UniqueIds(s) {
        DeleteUniqueLength(s, s[i].id);
      }
    }
  }

  /** The placeholder appears after a delete exactly when every record
      carried the deleted identifier. */
  lemma PlaceholderAfterDelete(s: seq<Todo>, id: Id)
    ensures Render(Delete(s, id)).NoTasks? <==> forall i :: 0 <= i < |s| ==> s[i].id == id
  {
    var r := Delete(s, id);
    if r == [] {
      forall i | 0 <= i < |s|
        ensures s[i].id == id
      {
        assert s[i] in s;
      }
    } else {
      assert r[0] in r;
    }
  }

  /** `n` confirmed toggles of the same identifier, one after another. */
  function ToggleTimes(s: seq<Todo>, id: Id, n: nat): seq<Todo>
    decreases n
  {
    if n == 0 then s else ToggleTimes(Toggle(s, id), id, n - 1)
  }

  /** Two more confirmed toggles of the same identifier change nothing. */
  lemma ToggleTwiceMore(s: seq<Todo>, id: Id, n: nat)
    ensures ToggleTimes(s, id, n + 2) == ToggleTimes(s, id, n)
  {
    var t := Toggle(s, id);
    assert ToggleTimes(s, id, n + 2) == ToggleTimes(Toggle(t, id), id, n);
    ToggleInvolution(s, id);
  }

  /** A run of confirmed toggles of the same identifier leaves the list as it
      was when the run has even length and as after one toggle otherwise. */
  lemma {:induction false} RepeatedToggles(s: seq<Todo>, id: Id, n: nat)
    ensures ToggleTimes(s, id, n) == if n % 2 == 0 then s else Toggle(s, id)
    decreases n
  {
    if n >= 2 {
      ToggleTwiceMore(s, id, n - 2);
      RepeatedToggles(s, id, n - 2);
    } else if n == 1 {
      assert ToggleTimes(s, id, 1) == ToggleTimes(Toggle(s, id), id, 0);
    }
  }

  // ---------------------------------------------------------------------
  // The page with its embedded form

  /** The page's whole state: the list and the add-task form. */
  datatype App = App(todos: seq<Todo>, form: CreateForm.Form)

  /** The page as first rendered, before the initial fetch settles. */
  const Initial: App := App([], CreateForm.Cleared)

  /** An interaction with the embedded form. The page always passes its
      append as `onAdd`, so every record the form hands over is appended. */
  function FormStep(a: App, ev: CreateForm.FormEvent): (r: App)
    ensures ev.Typed? ==> r == App(a.todos, CreateForm.Form(ev.value))
    ensures !CreateForm.Submits(ev) && !ev.Typed? ==> r == a
    ensures CreateForm.Submits(ev) && Whitespace.IsBlank(a.form.text) ==> r == a
    ensures CreateForm.Submits(ev) && ev.response.Failure? ==> r == a
    ensures CreateForm.Submits(ev) && !Whitespace.IsBlank(a.form.text) && ev.response.Success? ==>
              r == App(Append(a.todos, ev.response.data), CreateForm.Cleared)
  {
    var e := CreateForm.Step(a.form, ev, true);
    App(if e.handed == [] then a.todos else Step(a.todos, Added(e.handed[0])), e.form)
  }

  /** On first render, before the listing arrives, the placeholder shows;
      a failed initial fetch keeps it. */
  lemma InitialShowsPlaceholder(listing: Outcome<seq<Todo>>)
    ensures Render(Initial.todos) == NoTasks
    ensures listing.Failure? ==> Render(Step(Initial.todos, Loaded(listing))) == NoTasks
  {
  }

  /** A successful add from the form removes the placeholder and shows the
      new record as the last row, unchecked exactly when the server
      returned it not done. */
  lemma AddShowsNewRow(a: App, ev: CreateForm.FormEvent)
    requires CreateForm.Submits(ev) && ev.response.Success? && !Whitespace.AllWhitespace(a.form.text)
    ensures var v := Render(FormStep(a, ev).todos);
            && v.Rows? && |v.rows| == |a.todos| + 1
            && v.rows[|a.todos|].text == ev.response.data.task
            && (v.rows[|a.todos|].icon == PlainCircle <==> !ev.response.data.done)
  {
    Whitespace.BlankIffAllWhitespace(a.form.text);
  }
}
