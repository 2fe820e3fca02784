/**
 Downstream-dependency enumeration (`downstream_dependencies`).

 The per-family graph search belongs to the workflow library and is not part
 of this model: it is the parameter `findDeps`, an arbitrary function from an
 end-task value and a family name (or `None`, the wildcard) to the sequence of
 tasks it yields. Nothing is assumed about it. What is modelled is how the
 family filter is turned into searches and how their results are composed.
 */
module Traversal {
  import opened Tasks

  /**
   The `starting_tasks` argument: absent (`None`), a single family-name
   string, or a list of family names.
   */
  datatype FamilyFilter = NoFilter | Family(name: string) | FamilyList(names: seq<string>)

  /**
   The searches to run: a missing filter becomes one wildcard search; a
   string or list goes through `flatten`, which turns a string into a
   one-element list and leaves a flat list as it is.
   */
  function SearchKeys(filter: FamilyFilter): seq<Option<string>>
  {
    match filter
    case NoFilter => [None]
    case Family(name) => [Some(name)]
    case FamilyList(names) => seq(|names|, i requires 0 <= i < |names| => Some(names[i]))
  }

  /** Total number of tasks the searches for `keys` yield. */
  function SearchLengths(findDeps: (seq<Task>, Option<string>) -> seq<Task>, end: seq<Task>, keys: seq<Option<string>>): nat
  {
    if keys == [] then 0 else |findDeps(end, keys[0])| + SearchLengths(findDeps, end, keys[1..])
  }

  /** The results of the searches for `keys`, one after the other, nothing dropped. */
  function ConcatSearches(findDeps: (seq<Task>, Option<string>) -> seq<Task>, end: seq<Task>, keys: seq<Option<string>>)
    : (r: seq<Task>)
    ensures |r| == SearchLengths(findDeps, end, keys)
  {
    if keys == [] then [] else findDeps(end, keys[0]) + ConcatSearches(findDeps, end, keys[1..])
  }

  /**
   The tasks `downstream_dependencies(end, filter)` yields, in order.
   */
  function DownstreamDependencies(findDeps: (seq<Task>, Option<string>) -> seq<Task>, end: seq<Task>, filter: FamilyFilter)
    : (r: seq<Task>)
    ensures filter.NoFilter? ==> r == findDeps(end, None)
    ensures filter.Family? ==> r == findDeps(end, Some(filter.name))
    ensures filter.FamilyList? ==>
              |r| == SearchLengths(findDeps, end, SearchKeys(filter))
    ensures filter == FamilyList([]) ==> r == []
  {
    ConcatSearches(findDeps, end, SearchKeys(filter))
  }

  /** Running two batches of searches yields the first batch's tasks, then the second's. */
  lemma {:induction false} ConcatSearchesAppend(findDeps: (seq<Task>, Option<string>) -> seq<Task>, end: seq<Task>,
                                                   k1: seq<Option<string>>, k2: seq<Option<string>>)
    ensures ConcatSearches(findDeps, end, k1 + k2)
         == ConcatSearches(findDeps, end, k1) + ConcatSearches(findDeps, end, k2)
  {
    if k1 == [] {
      assert k1 + k2 == k2;
    } else {
      assert (k1 + k2)[1..] == k1[1..] + k2;
      ConcatSearchesAppend(findDeps, end, k1[1..], k2);
    }
  }

  /**
   The family list is searched in list order: the results for the i-th
   family sit, whole and unchanged, right after those of the families before
   it.
   */
  lemma FamilyListInOrder(findDeps: (seq<Task>, Option<string>) -> seq<Task>, end: seq<Task>, names: seq<string>, i: nat)
    requires i < |names|
    ensures var r := DownstreamDependencies(findDeps, end, FamilyList(names));
            var before := DownstreamDependencies(findDeps, end, FamilyList(names[..i]));
            var here := findDeps(end, Some(names[i]));
            |before| + |here| <= |r| &&
            r[..|before|] == before &&
            r[|before|..|before| + |here|] == here
  {
    var keys := SearchKeys(FamilyList(names));
    assert keys == SearchKeys(FamilyList(names[..i])) + [Some(names[i])] + keys[i + 1..];
    ConcatSearchesAppend(findDeps, end, SearchKeys(FamilyList(names[..i])) + [Some(names[i])], keys[i + 1..]);
    ConcatSearchesAppend(findDeps, end, SearchKeys(FamilyList(names[..i])), [Some(names[i])]);
    assert ConcatSearches(findDeps, end, [Some(names[i])]) == findDeps(end, Some(names[i]));
  }

  /** A list filter splits: searching `a + b` yields the tasks for `a`, then those for `b`. */
  lemma FamilyListAppend(findDeps: (seq<Task>, Option<string>) -> seq<Task>, end: seq<Task>, a: seq<string>, b: seq<string>)
    ensures DownstreamDependencies(findDeps, end, FamilyList(a + b))
         == DownstreamDependencies(findDeps, end, FamilyList(a)) + DownstreamDependencies(findDeps, end, FamilyList(b))
  {
    assert SearchKeys(FamilyList(a + b)) == SearchKeys(FamilyList(a)) + SearchKeys(FamilyList(b));
    ConcatSearchesAppend(findDeps, end, SearchKeys(FamilyList(a)), SearchKeys(FamilyList(b)));
  }

  /** How often `t` is yielded by the searches for `keys`, summed over the searches. */
  function Occurrences(findDeps: (seq<Task>, Option<string>) -> seq<Task>, end: seq<Task>, keys: seq<Option<string>>, t: Task): nat
  {
    if keys == [] then 0 else multiset(findDeps(end, keys[0]))[t] + Occurrences(findDeps, end, keys[1..], t)
  }

  /**
   No deduplication across families: a task is yielded exactly as many times
   as all the per-family searches together yield it.
   */
  lemma {:induction false} DuplicatesKept(findDeps: (seq<Task>, Option<string>) -> seq<Task>, end: seq<Task>,
                                             keys: seq<Option<string>>, t: Task)
    ensures multiset(ConcatSearches(findDeps, end, keys))[t] == Occurrences(findDeps, end, keys, t)
  {
    if keys != [] {
      DuplicatesKept(findDeps, end, keys[1..], t);
    }
  }

  /** A task is yielded iff one of the per-family searches yields it. */
  lemma {:induction false} YieldedIffSomeSearchYields(findDeps: (seq<Task>, Option<string>) -> seq<Task>, end: seq<Task>,
                                                         keys: seq<Option<string>>, t: Task)
    ensures t in ConcatSearches(findDeps, end, keys) <==>
            exists i :: 0 <= i < |keys| && t in findDeps(end, keys[i])
  {
    if keys != [] {
      YieldedIffSomeSearchYields(findDeps, end, keys[1..], t);
      if t in ConcatSearches(findDeps, end, keys) && t !in findDeps(end, keys[0]) {
        var i :| 0 <= i < |keys[1..]| && t in findDeps(end, keys[1..][i]);
        assert t in findDeps(end, keys[i + 1]);
      }
      if exists i :: 0 <= i < |keys| && t in findDeps(end, keys[i]) {
        var i :| 0 <= i < |keys| && t in findDeps(end, keys[i]);
        if i > 0 {
          assert t in findDeps(end, keys[1..][i - 1]);
        }
      }
    }
  }
}
