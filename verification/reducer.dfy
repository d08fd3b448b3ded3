/** The task-list reducer: a total, side-effect-free map from the current
    list and a dispatched action to the next list. */
module TaskReducer {
  import opened Tasks
  import opened Sequences

  /** The delete callback: keep the tasks whose id differs from `k`. */
  function IdIsNot(k: int): (keep: Task -> bool)
    ensures forall t :: keep(t) <==> t.id != k
  {
    (t: Task) => t.id != k
  }

  /** The next list after `action`.
      ADD appends the draft under id `|state| + 1`; UPDATE puts the payload at
      every position whose task carries the payload's id; DELETE keeps, in
      order, the tasks with another id; any other action is ignored. */
  function Reduce(state: seq<Task>, action: Action): (r: seq<Task>)
    ensures action.AddTask? ==>
      && |r| == |state| + 1
      && r[..|state|] == state
      && r[|state|] == Task(|state| + 1, action.draft.title)
    ensures action.UpdateTask? ==>
      && |r| == |state|
      && forall i :: 0 <= i < |state| ==>
           r[i] == (if state[i].id == action.task.id then action.task else state[i])
    ensures action.DeleteTask? ==>
      && IsSubsequence(r, state)
      && (forall t :: t in r <==> t in state && t.id != action.id)
      && |r| == Count(state, IdIsNot(action.id))
    ensures action.Unknown? ==> r == state
  {
    match action
    case AddTask(draft) => state + [Task(|state| + 1, draft.title)]
    case UpdateTask(payload) =>
      seq(|state|, i requires 0 <= i < |state| =>
        if state[i].id == payload.id then payload else state[i])
    case DeleteTask(k) => Filter(state, IdIsNot(k))
    case Unknown => state
  }

  /** The list after dispatching `actions` one after the other. Each action
      adds at most one task, and actions the reducer ignores change nothing. */
  function Replay(state: seq<Task>, actions: seq<Action>): (r: seq<Task>)
    ensures |r| <= |state| + |actions|
    ensures (forall a :: a in actions ==> a.Unknown?) ==> r == state
    decreases |actions|
  {
    if actions == [] then state else Replay(Reduce(state, actions[0]), actions[1..])
  }

  // ---------------------------------------------------------------- ADD

  /** ADD followed by DELETE of the id it assigned gives back the list, as long
      as that id was not already taken. */
  lemma AddThenDeleteRestores(s: seq<Task>, d: Draft)
    requires !HasId(s, |s| + 1)
    ensures Reduce(Reduce(s, AddTask(d)), DeleteTask(|s| + 1)) == s
  {
    var added := Task(|s| + 1, d.title);
    assert Reduce(s, AddTask(d)) == s + [added];
    FilterAppend(s, [added], IdIsNot(|s| + 1));
    FilterKeepsAll(s, IdIsNot(|s| + 1));
    assert Filter([added], IdIsNot(|s| + 1)) == [];
  }

  /** ADD keeps the ids equal to 1..n. */
  lemma AddKeepsSequential(s: seq<Task>, d: Draft)
    requires SequentialIds(s)
    ensures SequentialIds(Reduce(s, AddTask(d)))
  {
    var r := Reduce(s, AddTask(d));
    forall i | 0 <= i < |r|
      ensures r[i].id == i + 1
    {
      if i < |s| {
        assert r[i] == r[..|s|][i];
      }
    }
  }

  /** On a list with unique ids, ADD keeps them unique exactly when no task
      already carries `length + 1`. */
  lemma AddUniqueIff(s: seq<Task>, d: Draft)
    requires UniqueIds(s)
    ensures UniqueIds(Reduce(s, AddTask(d))) <==> !HasId(s, |s| + 1)
  {
    var r := Reduce(s, AddTask(d));
    assert forall i :: 0 <= i < |s| ==> r[i] == r[..|s|][i];
    if HasId(s, |s| + 1) {
      var t :| t in s && t.id == |s| + 1;
      var i :| 0 <= i < |s| && s[i] == t;
      assert r[i].id == r[|s|].id;
    }
  }

  // ---------------------------------------------------------------- UPDATE

  /** UPDATE returns the list unchanged exactly when every task carrying the
      payload's id is already equal to the payload. */
  lemma UpdateIdentityIff(s: seq<Task>, p: Task)
    ensures Reduce(s, UpdateTask(p)) == s <==> forall t :: t in s && t.id == p.id ==> t == p
  {
    var r := Reduce(s, UpdateTask(p));
    if r == s {
      forall t | t in s && t.id == p.id
        ensures t == p
      {
        var i :| 0 <= i < |s| && s[i] == t;
        assert r[i] == p;
      }
    }
  }

  /** UPDATE with an id no task carries leaves the list unchanged. */
  lemma UpdateAbsentIsIdentity(s: seq<Task>, p: Task)
    requires !HasId(s, p.id)
    ensures Reduce(s, UpdateTask(p)) == s
  {
    UpdateIdentityIff(s, p);
  }

  /** On a list with unique ids, UPDATE of the id at position `j` replaces
      that one task and nothing else. */
  lemma UpdateRewritesOne(s: seq<Task>, j: int, p: Task)
    requires UniqueIds(s)
    requires 0 <= j < |s| && s[j].id == p.id
    ensures Reduce(s, UpdateTask(p)) == s[j := p]
  {
    var r := Reduce(s, UpdateTask(p));
    forall i | 0 <= i < |s|
      ensures r[i] == s[j := p][i]
    {
      if i != j {
        assert s[i].id != s[j].id;
      }
    }
  }

  /** UPDATE never moves an id: position by position the ids are the same. */
  lemma UpdateKeepsIds(s: seq<Task>, p: Task)
    ensures |Reduce(s, UpdateTask(p))| == |s|
    ensures forall i :: 0 <= i < |s| ==> Reduce(s, UpdateTask(p))[i].id == s[i].id
  {
  }

  /** UPDATE therefore keeps ids 1..n, and keeps ids unique. */
  lemma UpdateKeepsIdInvariants(s: seq<Task>, p: Task)
    ensures SequentialIds(s) ==> SequentialIds(Reduce(s, UpdateTask(p)))
    ensures UniqueIds(s) ==> UniqueIds(Reduce(s, UpdateTask(p)))
  {
    UpdateKeepsIds(s, p);
  }

  /** Dispatching the same UPDATE twice is dispatching it once. */
  lemma UpdateIdempotent(s: seq<Task>, p: Task)
    ensures Reduce(Reduce(s, UpdateTask(p)), UpdateTask(p)) == Reduce(s, UpdateTask(p))
  {
  }

  /** On a list with unique ids, re-titling a task and then updating with the
      original task gives back the list. */
  lemma UpdateUndo(s: seq<Task>, j: int, title: string)
    requires UniqueIds(s)
    requires 0 <= j < |s|
    ensures Reduce(Reduce(s, UpdateTask(s[j].(title := title))), UpdateTask(s[j])) == s
  {
    var edited := s[j].(title := title);
    UpdateRewritesOne(s, j, edited);
    UpdateKeepsIdInvariants(s, edited);
    UpdateRewritesOne(s[j := edited], j, s[j]);
    assert s[j := edited][j := s[j]] == s;
  }

  // ---------------------------------------------------------------- DELETE

  /** After DELETE no task carries the deleted id. */
  lemma DeleteRemovesId(s: seq<Task>, k: int)
    ensures !HasId(Reduce(s, DeleteTask(k)), k)
  {
  }

  /** DELETE returns the list unchanged exactly when no task carries the id. */
  lemma DeleteIdentityIff(s: seq<Task>, k: int)
    ensures Reduce(s, DeleteTask(k)) == s <==> !HasId(s, k)
  {
    FilterKeepsAll(s, IdIsNot(k));
  }

  /** On a list with unique ids, DELETE of the id at position `j` removes that
      one task and keeps the others in order. */
  lemma DeleteRemovesOne(s: seq<Task>, j: int)
    requires UniqueIds(s)
    requires 0 <= j < |s|
    ensures Reduce(s, DeleteTask(s[j].id)) == s[..j] + s[j + 1..]
  {
    OthersCarryOtherIds(s, j, s[..j], 0);
    OthersCarryOtherIds(s, j, s[j + 1..], j + 1);
    assert s == s[..j] + [s[j]] + s[j + 1..];
    FilterDropsOne(s[..j], s[j], s[j + 1..], IdIsNot(s[j].id));
  }

  /** With unique ids, no task of a slice that avoids position `j` carries the id at `j`. */
  lemma OthersCarryOtherIds(s: seq<Task>, j: int, part: seq<Task>, from: int)
    requires UniqueIds(s)
    requires 0 <= j < |s|
    requires 0 <= from && from + |part| <= |s|
    requires part == s[from..from + |part|]
    requires j < from || from + |part| <= j
    ensures forall t :: t in part ==> IdIsNot(s[j].id)(t)
  {
    forall t | t in part
      ensures t.id != s[j].id
    {
      var i :| 0 <= i < |part| && part[i] == t;
      assert t == s[from + i];
    }
  }

  /** Dispatching the same DELETE twice is dispatching it once. */
  lemma DeleteIdempotent(s: seq<Task>, k: int)
    ensures Reduce(Reduce(s, DeleteTask(k)), DeleteTask(k)) == Reduce(s, DeleteTask(k))
  {
    FilterIdempotent(s, IdIsNot(k));
  }

  /** Dropping tasks cannot create a duplicate id. */
  lemma {:induction false} SubsequenceKeepsUniqueIds(r: seq<Task>, s: seq<Task>)
    requires IsSubsequence(r, s)
    requires UniqueIds(s)
    ensures UniqueIds(r)
    decreases |s|
  {
    if r != [] {
      assert UniqueIds(s[1..]) by {
        forall i, j | 0 <= i < j < |s[1..]|
          ensures s[1..][i].id != s[1..][j].id
        {
          assert s[1..][i] == s[i + 1] && s[1..][j] == s[j + 1];
        }
      }
      if r[0] == s[0] && IsSubsequence(r[1..], s[1..]) {
        SubsequenceKeepsUniqueIds(r[1..], s[1..]);
        SubsequenceMembers(r[1..], s[1..]);
        forall i, j | 0 <= i < j < |r|
          ensures r[i].id != r[j].id
        {
          assert r[j] == r[1..][j - 1];
          assert r[1..][j - 1] in r[1..];
          if i == 0 {
            var m :| 0 <= m < |s[1..]| && s[1..][m] == r[j];
            assert s[m + 1] == r[j];
          } else {
            assert r[i] == r[1..][i - 1];
          }
        }
      } else {
        SubsequenceKeepsUniqueIds(r, s[1..]);
      }
    }
  }

  /** DELETE keeps ids unique. */
  lemma DeleteKeepsUnique(s: seq<Task>, k: int)
    requires UniqueIds(s)
    ensures UniqueIds(Reduce(s, DeleteTask(k)))
  {
    SubsequenceKeepsUniqueIds(Reduce(s, DeleteTask(k)), s);
  }

  // ---------------------------------------------------------------- id assignment

  /** As long as no DELETE is dispatched, the ids stay 1..n: every ADD and
      every UPDATE keeps that shape. */
  lemma {:induction false} ReplayWithoutDeleteKeepsSequential(s: seq<Task>, actions: seq<Action>)
    requires SequentialIds(s)
    requires forall a :: a in actions ==> !a.DeleteTask?
    ensures SequentialIds(Replay(s, actions))
    decreases |actions|
  {
    if actions != [] {
      var next := Reduce(s, actions[0]);
      if actions[0].AddTask? {
        AddKeepsSequential(s, actions[0].draft);
      } else if actions[0].UpdateTask? {
        UpdateKeepsIdInvariants(s, actions[0].task);
      }
      assert forall a :: a in actions[1..] ==> a in actions;
      ReplayWithoutDeleteKeepsSequential(next, actions[1..]);
    }
  }

  /** On any list with ids 1..n, deleting an id k < n and then adding a task
      leaves two tasks with id n: the old last task and the new one. */
  lemma DeleteThenAddDuplicates(s: seq<Task>, k: int, title: string)
    requires SequentialIds(s)
    requires 1 <= k < |s|
    ensures var r := Reduce(Reduce(s, DeleteTask(k)), AddTask(Draft(title)));
      && |r| == |s|
      && r[|s| - 2] == s[|s| - 1]
      && r[|s| - 1] == Task(|s|, title)
      && !UniqueIds(r)
  {
    SequentialIdsUnique(s);
    assert s[k - 1].id == k;
    DeleteRemovesOne(s, k - 1);
    var afterDelete := s[..k - 1] + s[k..];
    assert afterDelete[|s| - 2] == s[|s| - 1];
    var r := afterDelete + [Task(|s|, title)];
    assert r[|s| - 2].id == r[|s| - 1].id;
  }

  /** The `length + 1` rule is not collision-free: from the seed list, deleting
      id 3 and then adding any task gives two tasks with id 6. */
  lemma DeleteThenAddCollides(title: string)
    ensures var r := Reduce(Reduce(InitialTasks(), DeleteTask(3)), AddTask(Draft(title)));
      && |r| == 6
      && r[4] == Task(6, "Learn Java")
      && r[5] == Task(6, title)
      && !UniqueIds(r)
  {
    DeleteThenAddDuplicates(InitialTasks(), 3, title);
  }

  // ---------------------------------------------------------------- scenarios

  /** From the seed, adding "Call mom" assigns id 7, and deleting id 7
      afterwards gives back the seed in its original order. */
  lemma AddCallMomScenario()
    ensures Reduce(InitialTasks(), AddTask(Draft("Call mom")))[6] == Task(7, "Call mom")
    ensures Reduce(Reduce(InitialTasks(), AddTask(Draft("Call mom"))), DeleteTask(7)) == InitialTasks()
  {
    SequentialIdsUnique(InitialTasks());
    AddThenDeleteRestores(InitialTasks(), Draft("Call mom"));
  }

  /** From the seed, re-titling task 2 changes that title and nothing else. */
  lemma RetitleScenario()
    ensures Reduce(InitialTasks(), UpdateTask(Task(2, "UI task revised")))
         == InitialTasks()[1 := Task(2, "UI task revised")]
  {
    SequentialIdsUnique(InitialTasks());
    UpdateRewritesOne(InitialTasks(), 1, Task(2, "UI task revised"));
  }
}
