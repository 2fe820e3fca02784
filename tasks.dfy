/**
 The task and output model the invalidation code works against.

 Tasks and their outputs belong to the external workflow library; the
 invalidation code only reads a few of their attributes. Those attributes are
 modelled here as plain fields: the flattened output collection of a task,
 its family name, whether it is a wrapper (grouping) task, and what its
 completion check answers.
 */
module Tasks {

  datatype Option<+T> = None | Some(value: T)

  /** Identifies a persisted artifact (a file path, a table name, ...). */
  type OutputId = string

  /** One output handle: the artifact it points at and its `protected` flag. */
  datatype Target = Target(id: OutputId, protected: bool)

  /**
   A task as the invalidation code sees it. `outputs` is already flattened;
   `isWrapper` stands for `isinstance(task, WrapperTask)` and `complete` for
   the answer of `task.complete()`.
   */
  datatype Task = Task(family: string, outputs: seq<Target>, isWrapper: bool, complete: bool)

  /**
   The ids an invalidation of `outputs` may remove: those reached through at
   least one handle that is not protected.
   */
  function UnprotectedIds(outputs: seq<Target>): (ids: set<OutputId>)
    ensures forall id :: id in ids <==>
              exists k :: 0 <= k < |outputs| && !outputs[k].protected && outputs[k].id == id
  {
    if outputs == [] then {}
    else
      (if outputs[0].protected then {} else {outputs[0].id}) + UnprotectedIds(outputs[1..])
  }

  /** The outputs of a sequence of tasks, one task after the other. */
  function AllOutputs(tasks: seq<Task>): (outputs: seq<Target>)
    ensures forall id :: id in UnprotectedIds(outputs) <==>
              exists t :: t in tasks && id in UnprotectedIds(t.outputs)
  {
    if tasks == [] then []
    else
      var rest := AllOutputs(tasks[1..]);
      UnprotectedIdsAppend(tasks[0].outputs, rest);
      assert forall t :: t in tasks <==> t == tasks[0] || t in tasks[1..];
      tasks[0].outputs + rest
  }

  /** Unprotected ids distribute over concatenation of output collections. */
  lemma {:induction false} UnprotectedIdsAppend(a: seq<Target>, b: seq<Target>)
    ensures UnprotectedIds(a + b) == UnprotectedIds(a) + UnprotectedIds(b)
  {
    if a == [] {
      assert a + b == b;
    } else {
      assert (a + b)[1..] == a[1..] + b;
      UnprotectedIdsAppend(a[1..], b);
    }
  }
}
