/** The two kinds of object the application stores: an active task and a history record,
    which is a task copied with a removal date label added. */
module Model {
  import opened Wrappers

  /** An active task. `id` is the numeric timestamp taken at creation; `createdAt` is an
      opaque locale date label. */
  datatype Todo = Todo(id: int, text: string, completed: bool, createdAt: string)

  /** A task moved to history: every field of the task carried over, plus `deletedAt`.
      Records read back from storage may lack `deletedAt`, hence the option. */
  datatype Record = Record(id: int, text: string, completed: bool, createdAt: string, deletedAt: Option<string>)

  /** The object spread `{ ...todo, deletedAt }`. */
  function Archive(t: Todo, deletedAt: string): (r: Record)
    ensures Restore(r) == t
    ensures r.deletedAt == Some(deletedAt)
  {
    Record(t.id, t.text, t.completed, t.createdAt, Some(deletedAt))
  }

  /** The task a record was made from: the record without its removal label. */
  function Restore(r: Record): Todo
  {
    Todo(r.id, r.text, r.completed, r.createdAt)
  }

  /** Archives each task of `ts`, in order, under one removal label. */
  function ArchiveAll(ts: seq<Todo>, deletedAt: string): (rs: seq<Record>)
    ensures |rs| == |ts|
    ensures forall i :: 0 <= i < |rs| ==> Restore(rs[i]) == ts[i] && rs[i].deletedAt == Some(deletedAt)
  {
    if ts == [] then [] else [Archive(ts[0], deletedAt)] + ArchiveAll(ts[1..], deletedAt)
  }

  /** The tasks a sequence of records was made from. */
  function RestoreAll(rs: seq<Record>): (ts: seq<Todo>)
    ensures |ts| == |rs|
    ensures forall i :: 0 <= i < |ts| ==> ts[i] == Restore(rs[i])
  {
    if rs == [] then [] else [Restore(rs[0])] + RestoreAll(rs[1..])
  }

  /** Archiving and then restoring a batch gives the batch back. */
  lemma {:induction false} RestoreArchiveAll(ts: seq<Todo>, deletedAt: string)
    ensures RestoreAll(ArchiveAll(ts, deletedAt)) == ts
  {
    var back := RestoreAll(ArchiveAll(ts, deletedAt));
    assert forall i :: 0 <= i < |ts| ==> back[i] == ts[i];
  }

  /** No two active tasks share an id. The application does not enforce this (ids are
      clock readings), so it is an invariant the operations are shown to keep. */
  ghost predicate UniqueIds(ts: seq<Todo>)
  {
    forall i, j :: 0 <= i < j < |ts| ==> ts[i].id != ts[j].id
  }
}
