/**
 Output invalidation (`invalidate`, `invalidate_downstream`).

 The storage behind the outputs is modelled as one artifact store: for each
 artifact id it records whether the artifact currently exists (`exists()`),
 and removing an artifact (`remove()`) makes it absent. A ghost log records
 every `remove()` call, in order, so that "performs no removal" can be stated.
 */
module Store {
  import opened Tasks
  import opened Traversal

  /** What `exists()` answers for artifact `id` in store state `p`. */
  predicate Present(p: map<OutputId, bool>, id: OutputId)
  {
    id in p && p[id]
  }

  /** One iteration of the loop in `invalidate`, applied to the store state. */
  function InvalidateOne(p: map<OutputId, bool>, output: Target): map<OutputId, bool>
  {
    if !output.protected && Present(p, output.id) then p[output.id := false] else p
  }

  /** The store state after invalidating `outputs` one after the other, starting from `p`. */
  function Invalidated(p: map<OutputId, bool>, outputs: seq<Target>): map<OutputId, bool>
  {
    if outputs == [] then p else Invalidated(InvalidateOne(p, outputs[0]), outputs[1..])
  }

  /** The ids `remove()` is called on while invalidating `outputs` from `p`, in call order. */
  function Removals(p: map<OutputId, bool>, outputs: seq<Target>): seq<OutputId>
  {
    if outputs == [] then []
    else
      (if !outputs[0].protected && Present(p, outputs[0].id) then [outputs[0].id] else [])
      + Removals(InvalidateOne(p, outputs[0]), outputs[1..])
  }

  /**
   What invalidation does, in one statement: no artifact appears or
   disappears from the store's domain; afterwards an artifact exists iff it
   existed before and no unprotected handle among `outputs` points at it.
   So a protected output (with no unprotected alias) and every artifact the
   task does not own keep their state, and no unprotected output exists.
   */
  lemma {:induction false} InvalidatedState(p: map<OutputId, bool>, outputs: seq<Target>)
    ensures Invalidated(p, outputs).Keys == p.Keys
    ensures forall id :: id in p ==>
              Invalidated(p, outputs)[id] == (p[id] && id !in UnprotectedIds(outputs))
  {
    if outputs != [] {
      InvalidatedState(InvalidateOne(p, outputs[0]), outputs[1..]);
    }
  }

  /**
   The removal calls made: `remove()` is only called on an artifact that
   exists and is reached through an unprotected handle of `outputs`; every
   such artifact is removed; and none is removed twice, even when several
   handles point at it.
   */
  lemma {:induction false} RemovalsExact(p: map<OutputId, bool>, outputs: seq<Target>)
    ensures forall id :: id in Removals(p, outputs) <==> Present(p, id) && id in UnprotectedIds(outputs)
    ensures forall i, j :: 0 <= i < j < |Removals(p, outputs)| ==> Removals(p, outputs)[i] != Removals(p, outputs)[j]
  {
    if outputs != [] {
      var q := InvalidateOne(p, outputs[0]);
      RemovalsExact(q, outputs[1..]);
      var head := if !outputs[0].protected && Present(p, outputs[0].id) then [outputs[0].id] else [];
      assert Removals(p, outputs) == head + Removals(q, outputs[1..]);
      if head != [] {
        assert outputs[0].id !in Removals(q, outputs[1..]);
      }
    }
  }

  /**
   When no artifact reached through an unprotected handle exists (an empty
   output collection, only protected outputs, or a task already
   invalidated), invalidation removes nothing and leaves the store as it is.
   */
  lemma {:induction false} NothingToRemove(p: map<OutputId, bool>, outputs: seq<Target>)
    requires forall id :: id in UnprotectedIds(outputs) ==> !Present(p, id)
    ensures Removals(p, outputs) == []
    ensures Invalidated(p, outputs) == p
  {
    if outputs != [] {
      assert InvalidateOne(p, outputs[0]) == p;
      NothingToRemove(p, outputs[1..]);
    }
  }

  /** Invalidating a task a second time removes nothing and changes nothing. */
  lemma InvalidateIdempotent(p: map<OutputId, bool>, outputs: seq<Target>)
    ensures Removals(Invalidated(p, outputs), outputs) == []
    ensures Invalidated(Invalidated(p, outputs), outputs) == Invalidated(p, outputs)
  {
    InvalidatedState(p, outputs);
    NothingToRemove(Invalidated(p, outputs), outputs);
  }

  /** Invalidating `a + b` is invalidating `a`, then `b`; the removal calls follow suit. */
  lemma {:induction false} InvalidatedAppend(p: map<OutputId, bool>, a: seq<Target>, b: seq<Target>)
    ensures Invalidated(p, a + b) == Invalidated(Invalidated(p, a), b)
    ensures Removals(p, a + b) == Removals(p, a) + Removals(Invalidated(p, a), b)
  {
    if a == [] {
      assert a + b == b;
    } else {
      assert (a + b)[1..] == a[1..] + b;
      InvalidatedAppend(InvalidateOne(p, a[0]), a[1..], b);
    }
  }

  /** The store state after `invalidate` has run on each task of `tasks`, in order. */
  function InvalidatedAll(p: map<OutputId, bool>, tasks: seq<Task>): map<OutputId, bool>
    decreases tasks
  {
    if tasks == [] then p else InvalidatedAll(Invalidated(p, tasks[0].outputs), tasks[1..])
  }

  /** The removal calls made by `invalidate` over each task of `tasks`, in order. */
  function RemovalsAll(p: map<OutputId, bool>, tasks: seq<Task>): seq<OutputId>
    decreases tasks
  {
    if tasks == [] then []
    else Removals(p, tasks[0].outputs) + RemovalsAll(Invalidated(p, tasks[0].outputs), tasks[1..])
  }

  /**
   Invalidating the tasks one at a time amounts to one invalidation of all
   their outputs, in emission order.
   */
  lemma {:induction false} InvalidatedAllFlat(p: map<OutputId, bool>, tasks: seq<Task>)
    ensures InvalidatedAll(p, tasks) == Invalidated(p, AllOutputs(tasks))
    ensures RemovalsAll(p, tasks) == Removals(p, AllOutputs(tasks))
    decreases tasks
  {
    if tasks != [] {
      InvalidatedAppend(p, tasks[0].outputs, AllOutputs(tasks[1..]));
      InvalidatedAllFlat(Invalidated(p, tasks[0].outputs), tasks[1..]);
    }
  }

  /**
   After invalidating a traversal, an artifact exists iff it existed before
   and no emitted task reaches it through an unprotected handle.
   */
  lemma InvalidatedAllState(p: map<OutputId, bool>, tasks: seq<Task>)
    ensures InvalidatedAll(p, tasks).Keys == p.Keys
    ensures forall id :: id in p ==>
              InvalidatedAll(p, tasks)[id] == (p[id] && id !in UnprotectedIds(AllOutputs(tasks)))
  {
    InvalidatedAllFlat(p, tasks);
    InvalidatedState(p, AllOutputs(tasks));
  }

  /**
   Emitting tasks again that were already emitted is harmless: the repeated
   emissions remove nothing and change nothing. This is what makes the
   duplicates of a multi-family traversal safe.
   */
  lemma RepeatedEmissionsHarmless(p: map<OutputId, bool>, tasks: seq<Task>, again: seq<Task>)
    requires forall t :: t in again ==> t in tasks
    ensures RemovalsAll(p, tasks + again) == RemovalsAll(p, tasks)
    ensures InvalidatedAll(p, tasks + again) == InvalidatedAll(p, tasks)
  {
    InvalidatedAllFlat(p, tasks + again);
    InvalidatedAllFlat(p, tasks);
    AllOutputsAppend(tasks, again);
    InvalidatedAppend(p, AllOutputs(tasks), AllOutputs(again));
    var q := Invalidated(p, AllOutputs(tasks));
    InvalidatedState(p, AllOutputs(tasks));
    NothingToRemove(q, AllOutputs(again));
  }

  /** Output collections of concatenated task sequences concatenate. */
  lemma {:induction false} AllOutputsAppend(a: seq<Task>, b: seq<Task>)
    ensures AllOutputs(a + b) == AllOutputs(a) + AllOutputs(b)
  {
    if a == [] {
      assert a + b == b;
    } else {
      assert (a + b)[1..] == a[1..] + b;
      AllOutputsAppend(a[1..], b);
    }
  }

  /**
   The artifact store. `present` maps each artifact id to whether the
   artifact currently exists; `removed` logs every `remove()` call.
   */
  class ArtifactStore {
    var present: map<OutputId, bool>
    ghost var removed: seq<OutputId>

    constructor (initial: map<OutputId, bool>)
      ensures present == initial && removed == []
    {
      present := initial;
      removed := [];
    }

    /**
     `invalidate(task)`: walk the task's outputs; remove each one that is not
     protected and currently exists.
     */
    method Invalidate(task: Task)
      modifies this
      ensures present == Invalidated(old(present), task.outputs)
      ensures removed == old(removed) + Removals(old(present), task.outputs)
      ensures present.Keys == old(present).Keys
      ensures forall id :: id in present ==>
                present[id] == (old(present)[id] && id !in UnprotectedIds(task.outputs))
    {
      var outputs := task.outputs;
      for i := 0 to |outputs|
        invariant Invalidated(present, outputs[i..]) == Invalidated(old(present), outputs)
        invariant removed + Removals(present, outputs[i..]) == old(removed) + Removals(old(present), outputs)
      {
        assert outputs[i..][1..] == outputs[i + 1..];
        var output := outputs[i];
        if !output.protected && Present(present, output.id) {
          present := present[output.id := false];
          removed := removed + [output.id];
        }
      }
      InvalidatedState(old(present), outputs);
    }

    /**
     `invalidate_downstream(end, filter)`: invalidate every task the
     traversal yields, once per emission, in emission order.
     */
    method InvalidateDownstream(findDeps: (seq<Task>, Option<string>) -> seq<Task>, end: seq<Task>, filter: FamilyFilter)
      modifies this
      ensures present == InvalidatedAll(old(present), DownstreamDependencies(findDeps, end, filter))
      ensures removed == old(removed) + RemovalsAll(old(present), DownstreamDependencies(findDeps, end, filter))
    {
      var tasks := DownstreamDependencies(findDeps, end, filter);
      for i := 0 to |tasks|
        invariant InvalidatedAll(present, tasks[i..]) == InvalidatedAll(old(present), tasks)
        invariant removed + RemovalsAll(present, tasks[i..]) == old(removed) + RemovalsAll(old(present), tasks)
      {
        ghost var before := present;
        assert tasks[i..][0] == tasks[i] && tasks[i..][1..] == tasks[i + 1..];
        assert InvalidatedAll(before, tasks[i..])
            == InvalidatedAll(Invalidated(before, tasks[i].outputs), tasks[i + 1..]);
        assert RemovalsAll(before, tasks[i..])
            == Removals(before, tasks[i].outputs) + RemovalsAll(Invalidated(before, tasks[i].outputs), tasks[i + 1..]);
        Invalidate(tasks[i]);
      }
    }
  }
}
