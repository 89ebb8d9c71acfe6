/** The application controller of `src/App.js`: the four state transitions over the active
    task list and the history log. Each transition is one sequential step on an immutable
    state; the fresh id (`Date.now()`) and the date label (`toLocaleDateString()`) are
    parameters, so the model has no clock. */
module App {
  import opened Wrappers
  import opened Seqs
  import opened Model
  import TodoForm

  datatype State = State(todos: seq<Todo>, history: seq<Record>)

  /** `t` with its completion flag inverted. */
  function Flip(t: Todo): (r: Todo)
    ensures r.id == t.id && r.text == t.text && r.createdAt == t.createdAt
    ensures r.completed != t.completed
  {
    t.(completed := !t.completed)
  }

  predicate Done(t: Todo) { t.completed }

  predicate Pending(t: Todo) { !t.completed }

  /** The filter predicate of `deleteTodo`: the task does not carry `id`. */
  function OtherId(id: int): Todo -> bool
  {
    (t: Todo) => t.id != id
  }

  /** History is append-only: `after` begins with all of `before`. */
  predicate Extends(before: seq<Record>, after: seq<Record>)
  {
    |before| <= |after| && after[..|before|] == before
  }

  // ---------------------------------------------------------------- addTodo

  /** Prepends a new, incomplete task carrying `text` exactly as given: no trimming and no
      emptiness check happen here (the guard lives in the form). */
  function AddTodo(s: State, id: int, text: string, today: string): (r: State)
    ensures |r.todos| == |s.todos| + 1
    ensures r.todos[0].id == id && r.todos[0].text == text
    ensures !r.todos[0].completed && r.todos[0].createdAt == today
    ensures r.todos[1..] == s.todos
    ensures r.history == s.history
  {
    State([Todo(id, text, false, today)] + s.todos, s.history)
  }

  /** Adding a task under a fresh id keeps the active ids distinct. */
  lemma {:induction false} AddTodoKeepsUniqueIds(s: State, id: int, text: string, today: string)
    requires UniqueIds(s.todos)
    requires forall i :: 0 <= i < |s.todos| ==> s.todos[i].id != id
    ensures UniqueIds(AddTodo(s, id, text, today).todos)
  {
    var ts := AddTodo(s, id, text, today).todos;
    forall i, j | 0 <= i < j < |ts| ensures ts[i].id != ts[j].id {
      assert ts[j] == s.todos[j - 1];
      if i > 0 { assert ts[i] == s.todos[i - 1]; }
    }
  }

  // ------------------------------------------------------------- toggleTodo

  /** The `map` of `toggleTodo`: every task whose id matches is flipped, the rest kept. */
  function ToggleIn(ts: seq<Todo>, id: int): (r: seq<Todo>)
    ensures |r| == |ts|
    ensures forall i :: 0 <= i < |ts| ==> r[i] == if ts[i].id == id then Flip(ts[i]) else ts[i]
  {
    if ts == [] then []
    else [if ts[0].id == id then Flip(ts[0]) else ts[0]] + ToggleIn(ts[1..], id)
  }

  /** Flips `completed` on every task with this id; positions, ids, texts and dates of all
      tasks and the whole history are untouched. */
  function ToggleTodo(s: State, id: int): (r: State)
    ensures |r.todos| == |s.todos|
    ensures forall i :: 0 <= i < |s.todos| ==>
      && r.todos[i].id == s.todos[i].id
      && r.todos[i].text == s.todos[i].text
      && r.todos[i].createdAt == s.todos[i].createdAt
      && (r.todos[i].completed <==> (s.todos[i].completed != (s.todos[i].id == id)))
    ensures r.history == s.history
  {
    State(ToggleIn(s.todos, id), s.history)
  }

  /** Toggling the same id twice restores the state. */
  lemma {:induction false} ToggleTwiceIsIdentity(s: State, id: int)
    ensures ToggleTodo(ToggleTodo(s, id), id) == s
  {
    var r := ToggleTodo(ToggleTodo(s, id), id);
    assert r.todos == s.todos;
  }

  /** Toggling an id no task has changes nothing. */
  lemma {:induction false} ToggleAbsentIsIdentity(s: State, id: int)
    requires forall i :: 0 <= i < |s.todos| ==> s.todos[i].id != id
    ensures ToggleTodo(s, id) == s
  {
    assert ToggleTodo(s, id).todos == s.todos;
  }

  /** Toggling never introduces an id clash. */
  lemma {:induction false} ToggleKeepsUniqueIds(s: State, id: int)
    requires UniqueIds(s.todos)
    ensures UniqueIds(ToggleTodo(s, id).todos)
  {
  }

  // ------------------------------------------------------------- deleteTodo

  /** `Array.prototype.find`: the first task with this id, if any. */
  function Find(ts: seq<Todo>, id: int): (r: Option<Todo>)
    ensures r.None? <==> forall i :: 0 <= i < |ts| ==> ts[i].id != id
    ensures r.Some? ==> exists i :: 0 <= i < |ts| && ts[i] == r.value && ts[i].id == id
                                    && forall j :: 0 <= j < i ==> ts[j].id != id
  {
    if ts == [] then None
    else if ts[0].id == id then Some(ts[0])
    else
      var r := Find(ts[1..], id);
      if r.Some? then
        var i :| 0 <= i < |ts[1..]| && ts[1..][i] == r.value && ts[1..][i].id == id
                 && forall j :: 0 <= j < i ==> ts[1..][j].id != id;
        assert ts[i + 1] == r.value;
        r
      else r
  }

  /** Archives the first task with this id (if one exists) at the end of history, and
      drops every task with this id from the active list. */
  function DeleteTodo(s: State, id: int, today: string): (r: State)
    ensures forall t :: t in r.todos ==> t in s.todos && t.id != id
    ensures Extends(s.history, r.history)
    ensures (forall i :: 0 <= i < |s.todos| ==> s.todos[i].id != id) ==> r == s
    ensures (exists i :: 0 <= i < |s.todos| && s.todos[i].id == id) ==>
      && |r.history| == |s.history| + 1
      && exists i :: 0 <= i < |s.todos| && s.todos[i].id == id
                     && (forall j :: 0 <= j < i ==> s.todos[j].id != id)
                     && r.history[|s.history|] == Archive(s.todos[i], today)
  {
    var found := Find(s.todos, id);
    var history := if found.Some? then s.history + [Archive(found.value, today)] else s.history;
    var todos := Filter(s.todos, OtherId(id));
    FilterMembers(s.todos, OtherId(id));
    if found.None? then FilterAll(s.todos, OtherId(id)); State(todos, history)
    else State(todos, history)
  }

  /** Every task without this id survives a delete as often as it occurred, every task with
      it is gone, and the survivors keep their relative order. */
  lemma {:induction false} DeleteKeepsOthers(s: State, id: int, today: string)
    ensures var r := DeleteTodo(s, id, today);
      && (forall t | t in s.todos :: multiset(r.todos)[t] == if t.id == id then 0 else multiset(s.todos)[t])
      && multiset(r.todos) <= multiset(s.todos)
      && Subsequence(r.todos, s.todos)
  {
    FilterSpec(s.todos, OtherId(id));
  }

  /** With distinct ids, deleting a present id moves exactly one task: the active list
      shrinks by one and that task, and nothing else, reappears at the end of history. */
  lemma {:induction false} DeleteMovesOneTask(s: State, id: int, today: string)
    requires UniqueIds(s.todos)
    requires exists i :: 0 <= i < |s.todos| && s.todos[i].id == id
    ensures var r := DeleteTodo(s, id, today);
      && |r.todos| + 1 == |s.todos|
      && |r.history| == |s.history| + 1
      && multiset(s.todos) == multiset(r.todos) + multiset{Restore(r.history[|s.history|])}
  {
    var found := Find(s.todos, id);
    var i :| 0 <= i < |s.todos| && s.todos[i] == found.value && s.todos[i].id == id;
    assert forall j :: 0 <= j < |s.todos| && j != i ==> OtherId(id)(s.todos[j]);
    FilterCutsOneCounts(s.todos, i, OtherId(id));
  }

  /** Deleting a present id keeps the active ids distinct (the survivors are a subsequence). */
  lemma {:induction false} DeleteKeepsUniqueIds(s: State, id: int, today: string)
    requires UniqueIds(s.todos)
    ensures UniqueIds(DeleteTodo(s, id, today).todos)
  {
    DeleteKeepsOthers(s, id, today);
    UniqueIdsSubsequence(DeleteTodo(s, id, today).todos, s.todos);
  }

  /** Deleting the task just added under a fresh id restores the active list and leaves
      that task, archived, as the newest history record. */
  lemma {:induction false} DeleteUndoesAdd(s: State, id: int, text: string, created: string, today: string)
    requires forall i :: 0 <= i < |s.todos| ==> s.todos[i].id != id
    ensures DeleteTodo(AddTodo(s, id, text, created), id, today)
         == State(s.todos, s.history + [Archive(Todo(id, text, false, created), today)])
  {
    var a := AddTodo(s, id, text, created);
    var p := OtherId(id);
    assert a.todos == [a.todos[0]] + s.todos;
    FilterAppend([a.todos[0]], s.todos, p);
    FilterAll(s.todos, p);
    assert Filter([a.todos[0]], p) == [];
  }

  /** Without distinct ids the operation is lossy: of two tasks sharing an id, both leave
      the active list but only the first reaches history. */
  lemma {:induction false} DeleteDropsDuplicateWithoutRecord(a: Todo, b: Todo, today: string)
    requires a.id == b.id
    ensures var r := DeleteTodo(State([a, b], []), a.id, today);
      r.todos == [] && r.history == [Archive(a, today)]
  {
    var r := DeleteTodo(State([a, b], []), a.id, today);
    assert Find([a, b], a.id) == Some(a);
    assert [a, b][1..] == [b];
    assert Filter([a, b], OtherId(a.id)) == [];
  }

  // --------------------------------------------------------- clearCompleted

  /** Moves every completed task, in list order and under one date label, to the end of
      history; the active list keeps exactly the incomplete tasks in their order. */
  function ClearCompleted(s: State, today: string): (r: State)
    ensures forall t :: t in r.todos ==> t in s.todos && !t.completed
    ensures Extends(s.history, r.history)
    ensures forall t :: t in RestoreAll(r.history[|s.history|..]) ==> t in s.todos && t.completed
    ensures forall i :: |s.history| <= i < |r.history| ==> r.history[i].deletedAt == Some(today)
  {
    var done := Filter(s.todos, Done);
    FilterMembers(s.todos, Done);
    FilterMembers(s.todos, Pending);
    RestoreArchiveAll(done, today);
    var history := s.history + ArchiveAll(done, today);
    assert history[|s.history|..] == ArchiveAll(done, today);
    State(Filter(s.todos, Pending), history)
  }

  /** The kept tasks are the incomplete ones and the archived tasks the completed ones, each
      as often as in the old list and in the old relative order. */
  lemma {:induction false} ClearCompletedSplits(s: State, today: string)
    ensures var r := ClearCompleted(s, today);
      var added := RestoreAll(r.history[|s.history|..]);
      && (forall t | t in s.todos :: multiset(r.todos)[t] == if t.completed then 0 else multiset(s.todos)[t])
      && Subsequence(r.todos, s.todos)
      && (forall t | t in s.todos :: multiset(added)[t] == if t.completed then multiset(s.todos)[t] else 0)
      && Subsequence(added, s.todos)
  {
    var r := ClearCompleted(s, today);
    var done := Filter(s.todos, Done);
    FilterSpec(s.todos, Done);
    FilterSpec(s.todos, Pending);
    RestoreArchiveAll(done, today);
    assert r.history[|s.history|..] == ArchiveAll(done, today);
  }

  /** Nothing is lost or duplicated: the kept tasks and the archived ones together are
      exactly the old active list. */
  lemma {:induction false} ClearCompletedConserves(s: State, today: string)
    ensures var r := ClearCompleted(s, today);
      && |r.todos| + (|r.history| - |s.history|) == |s.todos|
      && multiset(r.todos) + multiset(RestoreAll(r.history[|s.history|..])) == multiset(s.todos)
  {
    var r := ClearCompleted(s, today);
    FilterPartition(s.todos, Pending, Done);
    RestoreArchiveAll(Filter(s.todos, Done), today);
    assert r.history[|s.history|..] == ArchiveAll(Filter(s.todos, Done), today);
  }

  /** A second clear finds nothing to move. */
  lemma {:induction false} ClearCompletedIdempotent(s: State, today: string, later: string)
    ensures ClearCompleted(ClearCompleted(s, today), later) == ClearCompleted(s, today)
  {
    var r := ClearCompleted(s, today);
    forall i | 0 <= i < |r.todos| ensures !Done(r.todos[i]) {
      assert r.todos[i] in r.todos;
    }
    FilterNone(r.todos, Done);
    FilterAll(r.todos, Pending);
    assert r.history + ArchiveAll([], later) == r.history;
  }

  /** Clearing keeps the active ids distinct. */
  lemma {:induction false} ClearCompletedKeepsUniqueIds(s: State, today: string)
    requires UniqueIds(s.todos)
    ensures UniqueIds(ClearCompleted(s, today).todos)
  {
    ClearCompletedSplits(s, today);
    UniqueIdsSubsequence(ClearCompleted(s, today).todos, s.todos);
  }

  // ------------------------------------------------------------- invariants

  /** A subsequence of a list with distinct ids has distinct ids. */
  lemma {:induction false} UniqueIdsSubsequence(a: seq<Todo>, b: seq<Todo>)
    requires Subsequence(a, b)
    requires UniqueIds(b)
    ensures UniqueIds(a)
    decreases |b|
  {
    if a != [] {
      if a[0] == b[0] {
        UniqueIdsSubsequence(a[1..], b[1..]);
        SubsequenceMembers(a[1..], b[1..]);
        forall j | 0 < j < |a| ensures a[0].id != a[j].id {
          assert a[j] == a[1..][j - 1];
          assert a[j] in b[1..];
          var k :| 0 <= k < |b[1..]| && b[1..][k] == a[j];
          assert b[k + 1] == a[j];
        }
      } else {
        UniqueIdsSubsequence(a, b[1..]);
      }
    }
  }

  /** Every history record carries a removal label. */
  ghost predicate Stamped(h: seq<Record>)
  {
    forall i :: 0 <= i < |h| ==> h[i].deletedAt.Some?
  }

  /** The application only ever appends stamped records, so a stamped history stays stamped. */
  lemma {:induction false} OperationsKeepHistoryStamped(s: State, id: int, text: string, today: string)
    requires Stamped(s.history)
    ensures Stamped(AddTodo(s, id, text, today).history)
    ensures Stamped(ToggleTodo(s, id).history)
    ensures Stamped(DeleteTodo(s, id, today).history)
    ensures Stamped(ClearCompleted(s, today).history)
  {
    var d := DeleteTodo(s, id, today);
    if |d.history| > |s.history| {
      assert d.history[|s.history|].deletedAt == Some(today);
    }
    StampedExtends(s.history, d.history);
    StampedExtends(s.history, ClearCompleted(s, today).history);
  }

  /** Appending records that carry a removal label keeps a history stamped. */
  lemma {:induction false} StampedExtends(h: seq<Record>, h': seq<Record>)
    requires Stamped(h) && Extends(h, h')
    requires forall i :: |h| <= i < |h'| ==> h'[i].deletedAt.Some?
    ensures Stamped(h')
  {
    forall i | 0 <= i < |h'| ensures h'[i].deletedAt.Some? {
      if i < |h| { assert h'[i] == h'[..|h|][i]; }
    }
  }

  // ---------------------------------------------------- form -> controller

  /** The form and controller together: a submit of the current draft either does nothing
      (blank draft) or adds a task whose text is the raw, untrimmed draft and clears the draft. */
  datatype Session = Session(app: State, draft: string)

  function SubmitDraft(s: State, draft: string, id: int, today: string): (r: Session)
    ensures TodoForm.IsBlank(draft) ==> r == Session(s, draft)
    ensures !TodoForm.IsBlank(draft) ==>
      && r.draft == ""
      && |r.app.todos| == |s.todos| + 1
      && r.app.todos[0] == Todo(id, draft, false, today)
      && r.app.todos[1..] == s.todos
      && r.app.history == s.history
  {
    var o := TodoForm.HandleSubmit(draft);
    match o.added
    case None => Session(s, o.draft)
    case Some(text) => Session(AddTodo(s, id, text, today), o.draft)
  }

  /** The worked example: add, toggle, delete one task. */
  lemma {:induction false} BuyMilkScenario(id: int, today: string, later: string)
    ensures var s1 := AddTodo(State([], []), id, "Buy milk", today);
      var s2 := ToggleTodo(s1, id);
      var s3 := DeleteTodo(s2, id, later);
      && s1.todos == [Todo(id, "Buy milk", false, today)]
      && s2.todos == [Todo(id, "Buy milk", true, today)]
      && s3 == State([], [Record(id, "Buy milk", true, today, Some(later))])
  {
    var s1 := AddTodo(State([], []), id, "Buy milk", today);
    var s2 := ToggleTodo(s1, id);
    assert s2.todos == [Todo(id, "Buy milk", true, today)];
    assert Find(s2.todos, id) == Some(s2.todos[0]);
  }
}
