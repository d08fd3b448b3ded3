/** The add/edit form: what its title field starts with and which action its
    FINISH button hands back to the list screen. */
module EditScreen {
  import opened Tasks
  import opened TaskReducer

  /** How the form was opened: with the + button, or with the pencil of a task. */
  datatype Form = Adding | Editing(task: Task)

  /** The text the title field starts with. */
  function InitialInput(form: Form): (text: string)
    ensures form.Adding? ==> text == ""
    ensures form.Editing? ==> text == form.task.title
  {
    match form
    case Adding => ""
    case Editing(t) => t.title
  }

  /** The action dispatched when FINISH is pressed with `title` in the field:
      a new draft when adding, the edited task with its own id when editing.
      The form never produces a DELETE or an unknown action. */
  function Submit(form: Form, title: string): (a: Action)
    ensures a.AddTask? || a.UpdateTask?
    ensures a.AddTask? <==> form.Adding?
    ensures a.AddTask? ==> a.draft.title == title
    ensures a.UpdateTask? ==> a.task.id == form.task.id && a.task.title == title
  {
    match form
    case Adding => AddTask(Draft(title))
    case Editing(t) => UpdateTask(t.(title := title))
  }

  /** On a list with unique ids, editing task `j` re-titles that task and
      leaves every other task as it was. */
  lemma EditRetitlesOne(s: seq<Task>, j: int, title: string)
    requires UniqueIds(s)
    requires 0 <= j < |s|
    ensures Reduce(s, Submit(Editing(s[j]), title)) == s[j := Task(s[j].id, title)]
  {
    UpdateRewritesOne(s, j, s[j].(title := title));
  }

  /** Opening a task for editing and pressing FINISH without typing leaves the
      list unchanged (on a list with unique ids). */
  lemma FinishWithoutTypingIsNoOp(s: seq<Task>, j: int)
    requires UniqueIds(s)
    requires 0 <= j < |s|
    ensures Reduce(s, Submit(Editing(s[j]), InitialInput(Editing(s[j])))) == s
  {
    UniqueIdsIdentify(s, j);
    UpdateIdentityIff(s, s[j]);
  }

  /** Adding through the form appends the typed title under id `length + 1`. */
  lemma AddThroughForm(s: seq<Task>, title: string)
    ensures Reduce(s, Submit(Adding, title)) == s + [Task(|s| + 1, title)]
  {
  }

  /** One press of FINISH: how the form was opened and what was typed. */
  datatype Submission = Submission(form: Form, title: string)

  /** The actions a sequence of form submissions dispatches. */
  function Dispatched(subs: seq<Submission>): (actions: seq<Action>)
    ensures |actions| == |subs|
    ensures forall a :: a in actions ==> a.AddTask? || a.UpdateTask?
  {
    seq(|subs|, i requires 0 <= i < |subs| => Submit(subs[i].form, subs[i].title))
  }

  /** The screens never dispatch DELETE, so from the seed list any sequence of
      adds and edits keeps the ids equal to 1..n, hence unique, and the next
      id `length + 1` is always free. */
  lemma FormSessionKeepsIdsUnique(subs: seq<Submission>)
    ensures SequentialIds(Replay(InitialTasks(), Dispatched(subs)))
    ensures UniqueIds(Replay(InitialTasks(), Dispatched(subs)))
  {
    var final := Replay(InitialTasks(), Dispatched(subs));
    ReplayWithoutDeleteKeepsSequential(InitialTasks(), Dispatched(subs));
    SequentialIdsUnique(final);
  }
}
