/** The add-task form: a controlled text input and an "Add Task" button.

    Submitting (the button, or Enter in the input) does nothing for blank
    text; otherwise it posts the text exactly as typed, and once the request
    settles either hands the returned record to the optional `onAdd`
    callback and clears the input (resolved), or only logs (rejected).
 */
module CreateForm {
  import opened Outcomes
  import opened Todos
  import opened Whitespace

  /** The form's state: the current value of the input. */
  datatype Form = Form(text: string)

  /** The state the form starts in, and returns to after a successful add. */
  const Cleared: Form := Form("")

  /** The name the input's key-press event carries for the Enter key. */
  const EnterKey: string := "Enter"

  /** The JSON body of the create request. */
  datatype AddRequest = AddRequest(task: string)

  /** Everything one user action leads to: the create request issued, if
      any; the records handed to `onAdd`, in call order; and the form's next
      state. */
  datatype Effects = Effects(request: Option<AddRequest>, handed: seq<Todo>, form: Form)

  /** Nothing happens: no request, no callback, the form as it was. */
  function NoEffect(f: Form): Effects
  {
    Effects(None, [], f)
  }

  /** A submission of the form whose request, if one is issued, settles
      with `response`; `hasOnAdd` says whether the parent passed `onAdd`. */
  function HandleAdd(f: Form, response: Outcome<Todo>, hasOnAdd: bool): (e: Effects)
    ensures e.request.None? <==> IsBlank(f.text)
    ensures e.request.Some? ==> e.request.value.task == f.text
    ensures e.request.None? ==> e == NoEffect(f)
    ensures |e.handed| <= 1
    ensures e.handed != [] <==> e.request.Some? && response.Success? && hasOnAdd
    ensures e.handed != [] ==> e.handed[0] == response.data
    ensures e.form != f <==> e.request.Some? && response.Success?
    ensures e.form != f ==> e.form == Cleared
  {
    if IsBlank(f.text) then NoEffect(f)
    else
      var request := Some(AddRequest(f.text));
      match response
      case Success(created) => Effects(request, if hasOnAdd then [created] else [], Cleared)
      case Failure => Effects(request, [], f)
  }

  /** The user interactions the form reacts to. */
  datatype FormEvent =
    | Typed(value: string)                               // the input's change event
    | KeyPressed(key: string, response: Outcome<Todo>)   // a key press in the input
    | Clicked(response: Outcome<Todo>)                   // the "Add Task" button

  /** The event is a submission: the button, or the Enter key. */
  predicate Submits(ev: FormEvent)
  {
    ev.Clicked? || (ev.KeyPressed? && ev.key == EnterKey)
  }

  /** The form's reaction to one interaction. */
  function Step(f: Form, ev: FormEvent, hasOnAdd: bool): (e: Effects)
    ensures ev.Typed? ==> e == NoEffect(Form(ev.value))
    ensures e.request.Some? ==> Submits(ev)
    ensures Submits(ev) ==> e == HandleAdd(f, ev.response, hasOnAdd)
    ensures !Submits(ev) && !ev.Typed? ==> e == NoEffect(f)
  {
    match ev
    case Typed(value) => NoEffect(Form(value))
    case KeyPressed(key, response) =>
      if key == EnterKey then HandleAdd(f, response, hasOnAdd) else NoEffect(f)
    case Clicked(response) => HandleAdd(f, response, hasOnAdd)
  }

  /** Enter in the input behaves exactly like the button. */
  lemma EnterIsClick(f: Form, response: Outcome<Todo>, hasOnAdd: bool)
    ensures Step(f, KeyPressed(EnterKey, response), hasOnAdd) == Step(f, Clicked(response), hasOnAdd)
  {
  }

  /** Blank input is never sent and leaves the form as it is, whatever the
      text's whitespace characters are. */
  lemma BlankNeverSent(f: Form, ev: FormEvent, hasOnAdd: bool)
    requires AllWhitespace(f.text) && !ev.Typed?
    ensures Step(f, ev, hasOnAdd) == NoEffect(f)
  {
    BlankIffAllWhitespace(f.text);
  }

  /** Text holding any non-whitespace character is sent untrimmed on submission. */
  lemma NonBlankSentVerbatim(f: Form, ev: FormEvent, hasOnAdd: bool)
    requires Submits(ev) && !AllWhitespace(f.text)
    ensures Step(f, ev, hasOnAdd).request == Some(AddRequest(f.text))
  {
    BlankIffAllWhitespace(f.text);
  }

  /** Typing a text and then submitting it: `onAdd` receives the created
      record exactly once when the request resolves and the parent gave a
      callback; the input is empty afterwards exactly when the request
      resolved. */
  lemma TypeThenSubmit(f: Form, text: string, ev: FormEvent, hasOnAdd: bool)
    requires Submits(ev) && !AllWhitespace(text)
    ensures var e := Step(Step(f, Typed(text), hasOnAdd).form, ev, hasOnAdd);
            && (e.handed == if ev.response.Success? && hasOnAdd then [ev.response.data] else [])
            && (e.form.text == "" <==> ev.response.Success?)
  {
    BlankIffAllWhitespace(text);
  }
}
