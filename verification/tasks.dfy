/** The task entity, the actions the list screen dispatches, and the seed list. */
module Tasks {

  /** A task: a numeric id and a (possibly empty) title. */
  datatype Task = Task(id: int, title: string)

  /** What the add form hands over: a task without an id. */
  datatype Draft = Draft(title: string)

  /** The actions the reducer receives. `Unknown` stands for every action
      whose type string is none of ADD_TASK, UPDATE_TASK and DELETE_TASK; the
      reducer reads nothing else of such an action. */
  datatype Action =
    | AddTask(draft: Draft)
    | UpdateTask(task: Task)
    | DeleteTask(id: int)
    | Unknown

  /** The six tasks the list starts with. */
  function InitialTasks(): (r: seq<Task>)
    ensures |r| == 6
    ensures SequentialIds(r)
  {
    [ Task(1, "To check email"),
      Task(2, "UI task web page"),
      Task(3, "Learn javascript basic"),
      Task(4, "Learn HTML Advance"),
      Task(5, "Medical App UI"),
      Task(6, "Learn Java") ]
  }

  /** Some task in `s` carries id `k`. */
  predicate HasId(s: seq<Task>, k: int) {
    exists t :: t in s && t.id == k
  }

  /** The ids are exactly 1, 2, ..., |s| in order: the shape the seed has and
      that the `length + 1` id rule relies on. */
  predicate SequentialIds(s: seq<Task>) {
    forall i :: 0 <= i < |s| ==> s[i].id == i + 1
  }

  /** No two tasks share an id. */
  predicate UniqueIds(s: seq<Task>) {
    forall i, j :: 0 <= i < j < |s| ==> s[i].id != s[j].id
  }

  /** Ids 1..n in order are in particular unique, and `n + 1` is not yet taken. */
  lemma SequentialIdsUnique(s: seq<Task>)
    requires SequentialIds(s)
    ensures UniqueIds(s)
    ensures !HasId(s, |s| + 1)
  {
    forall t | t in s
      ensures t.id != |s| + 1
    {
      var i :| 0 <= i < |s| && s[i] == t;
    }
  }

  /** With unique ids, a task of the list is the only one carrying its id. */
  lemma UniqueIdsIdentify(s: seq<Task>, j: int)
    requires UniqueIds(s)
    requires 0 <= j < |s|
    ensures forall t :: t in s && t.id == s[j].id ==> t == s[j]
  {
    forall t | t in s && t.id == s[j].id
      ensures t == s[j]
    {
      var i :| 0 <= i < |s| && s[i] == t;
      assert i == j;
    }
  }
}
