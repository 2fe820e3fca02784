/**
 Completion statistics (`invalidate_stats`, up to the row list it renders).

 For every task the traversal yields, except wrapper tasks, one is added to
 the `complete` or the `incomplete` counter of the task's family. The rows
 come out in the order in which their families were first counted, as the
 insertion order of the counter dictionary gives them. Nothing is
 deduplicated: a task yielded twice is counted twice.
 */
module Stats {
  import opened Tasks
  import opened Traversal

  /** One row of the statistics table: family, complete count, incomplete count. */
  datatype Row = Row(family: string, complete: nat, incomplete: nat)

  /** Whether emission `t` adds one to the counter `done` (complete or not) of `family`. */
  predicate CountsFor(t: Task, family: string, done: bool)
  {
    !t.isWrapper && t.family == family && t.complete == done
  }

  /** The `complete` (done) or `incomplete` (not done) count of `family` after counting `tasks`. */
  function Tally(tasks: seq<Task>, family: string, done: bool): nat
    decreases |tasks|
  {
    if tasks == [] then 0
    else Tally(tasks[..|tasks| - 1], family, done) + (if CountsFor(tasks[|tasks| - 1], family, done) then 1 else 0)
  }

  /** Both counters of `family` together. */
  function Total(tasks: seq<Task>, family: string): nat
  {
    Tally(tasks, family, true) + Tally(tasks, family, false)
  }

  /** Families of the counted (non-wrapper) tasks, in the order they are first counted. */
  function FirstSeen(tasks: seq<Task>): seq<string>
    decreases |tasks|
  {
    if tasks == [] then []
    else
      var before := FirstSeen(tasks[..|tasks| - 1]);
      var t := tasks[|tasks| - 1];
      if t.isWrapper || t.family in before then before else before + [t.family]
  }

  /** Number of emissions that are counted at all. */
  function NonWrapperCount(tasks: seq<Task>): nat
    decreases |tasks|
  {
    if tasks == [] then 0
    else NonWrapperCount(tasks[..|tasks| - 1]) + (if tasks[|tasks| - 1].isWrapper then 0 else 1)
  }

  /** The row list built just before rendering. */
  function StatsRows(tasks: seq<Task>): seq<Row>
  {
    var families := FirstSeen(tasks);
    seq(|families|, k requires 0 <= k < |families| =>
      Row(families[k], Tally(tasks, families[k], true), Tally(tasks, families[k], false)))
  }

  /** Sum of both counters over all rows. */
  function RowsTotal(rows: seq<Row>): nat
  {
    if rows == [] then 0 else rows[0].complete + rows[0].incomplete + RowsTotal(rows[1..])
  }

  /** Sum of `Total` over a list of families. */
  function TotalOver(families: seq<string>, tasks: seq<Task>): nat
    decreases |families|
  {
    if families == [] then 0
    else TotalOver(families[..|families| - 1], tasks) + Total(tasks, families[|families| - 1])
  }

  /** Some non-wrapper emission of `tasks` belongs to `family`. */
  predicate HasCounted(tasks: seq<Task>, family: string)
  {
    exists i :: 0 <= i < |tasks| && !tasks[i].isWrapper && tasks[i].family == family
  }

  predicate Distinct(s: seq<string>)
  {
    forall i, j :: 0 <= i < j < |s| ==> s[i] != s[j]
  }

  /**
   `invalidate_stats(end, filter)` up to the row list: counts the traversal's
   emissions per family and lists one row per counted family.
   */
  method InvalidateStats(findDeps: (seq<Task>, Option<string>) -> seq<Task>, end: seq<Task>, filter: FamilyFilter)
    returns (rows: seq<Row>)
    ensures rows == StatsRows(DownstreamDependencies(findDeps, end, filter))
    ensures RowsTotal(rows) == NonWrapperCount(DownstreamDependencies(findDeps, end, filter))
    ensures forall k :: 0 <= k < |rows| ==> rows[k].complete + rows[k].incomplete >= 1
    ensures forall i, j :: 0 <= i < j < |rows| ==> rows[i].family != rows[j].family
  {
    var tasks := DownstreamDependencies(findDeps, end, filter);
    var counts: map<string, (nat, nat)> := map[];
    var families: seq<string> := [];
    for i := 0 to |tasks|
      invariant families == FirstSeen(tasks[..i])
      invariant counts == Counters(tasks[..i])
    {
      assert tasks[..i + 1][..i] == tasks[..i];
      var task := tasks[i];
      if task.isWrapper {
        continue;  // wrapper tasks have no output to delete
      }
      var family := task.family;
      CountersKeys(tasks[..i]);
      if family !in counts {
        counts := counts[family := (0, 0)];
        families := families + [family];
      }
      var (complete, incomplete) := counts[family];
      counts := if task.complete then counts[family := (complete + 1, incomplete)]
                else counts[family := (complete, incomplete + 1)];
    }
    assert tasks[..|tasks|] == tasks;
    CountersKeys(tasks);
    FirstSeenDistinct(tasks);
    rows := RowList(families, counts);
    RowListIsStatsRows(tasks);
    StatsRowsProperties(tasks);
  }

  /**
   The list comprehension over the dictionary's items. A dictionary is its
   entries `counts` together with its insertion order `families`, which lists
   every key exactly once. The result has one row per key, no key twice, in
   insertion order, and each row carries that key's two counters.
   */
  function RowList(families: seq<string>, counts: map<string, (nat, nat)>): (rows: seq<Row>)
    requires Distinct(families)
    requires forall f :: f in counts <==> f in families
    ensures |rows| == |families| == |counts|
    ensures forall f :: f in counts <==> exists k :: 0 <= k < |rows| && rows[k].family == f
    ensures forall i, j :: 0 <= i < j < |rows| ==> rows[i].family != rows[j].family
    ensures forall k :: 0 <= k < |rows| ==>
              rows[k].family == families[k] && (rows[k].complete, rows[k].incomplete) == counts[rows[k].family]
  {
    DistinctKeysCount(families, counts);
    var rows := seq(|families|, k requires 0 <= k < |families| =>
      Row(families[k], counts[families[k]].0, counts[families[k]].1));
    assert forall k :: 0 <= k < |families| ==> rows[k].family == families[k];
    rows
  }

  /** A repetition-free list of exactly a map's keys is as long as the map. */
  lemma {:induction false} DistinctKeysCount(families: seq<string>, counts: map<string, (nat, nat)>)
    requires Distinct(families)
    requires forall f :: f in counts <==> f in families
    ensures |counts| == |families|
    decreases |families|
  {
    if families == [] {
      assert counts.Keys == {};
    } else {
      var last := families[|families| - 1];
      var init := families[..|families| - 1];
      assert forall f :: f in init <==> f in families && f != last;
      DistinctKeysCount(init, counts - {last});
      assert (counts - {last}).Keys == counts.Keys - {last};
    }
  }

  /** The row list built from the counter dictionary is the table of tallies. */
  lemma RowListIsStatsRows(tasks: seq<Task>)
    ensures && Distinct(FirstSeen(tasks))
            && (forall f :: f in Counters(tasks) <==> f in FirstSeen(tasks))
            && RowList(FirstSeen(tasks), Counters(tasks)) == StatsRows(tasks)
  {
    FirstSeenDistinct(tasks);
    CountersKeys(tasks);
    CountersAreTallies(tasks);
    var rows := RowList(FirstSeen(tasks), Counters(tasks));
    assert forall k :: 0 <= k < |rows| ==> rows[k] == StatsRows(tasks)[k];
  }

  /**
   The counter dictionary after counting `tasks` one emission at a time, as
   the loop of `invalidate_stats` builds it: a family's entry starts at
   (0, 0) when first counted and each non-wrapper emission adds one to one
   of its two counters.
   */
  function Counters(tasks: seq<Task>): map<string, (nat, nat)>
    decreases |tasks|
  {
    if tasks == [] then map[]
    else
      var before := Counters(tasks[..|tasks| - 1]);
      var t := tasks[|tasks| - 1];
      if t.isWrapper then before
      else
        var (complete, incomplete) := if t.family in before then before[t.family] else (0, 0);
        before[t.family := if t.complete then (complete + 1, incomplete) else (complete, incomplete + 1)]
  }

  /** The dictionary has an entry exactly for the families seen so far. */
  lemma {:induction false} CountersKeys(tasks: seq<Task>)
    ensures forall f :: f in Counters(tasks) <==> f in FirstSeen(tasks)
    decreases |tasks|
  {
    if tasks != [] {
      CountersKeys(tasks[..|tasks| - 1]);
    }
  }

  /**
   The dictionary's entry for a family holds its two tallies: the number of
   its complete and of its incomplete non-wrapper emissions.
   */
  lemma {:induction false} CountersAreTallies(tasks: seq<Task>)
    ensures forall f :: f in Counters(tasks) ==> Counters(tasks)[f] == (Tally(tasks, f, true), Tally(tasks, f, false))
    decreases |tasks|
  {
    if tasks != [] {
      var before := tasks[..|tasks| - 1];
      var t := tasks[|tasks| - 1];
      CountersAreTallies(before);
      if !t.isWrapper && t.family !in Counters(before) {
        CountersKeys(before);
        FirstSeenCounted(before);
        assert Total(before, t.family) == 0;
      }
    }
  }

  /**
   What the table promises: one row per counted family, no family twice,
   every row non-empty, and the rows together count every non-wrapper
   emission once.
   */
  lemma StatsRowsProperties(tasks: seq<Task>)
    ensures RowsTotal(StatsRows(tasks)) == NonWrapperCount(tasks)
    ensures forall k :: 0 <= k < |StatsRows(tasks)| ==>
              StatsRows(tasks)[k].complete + StatsRows(tasks)[k].incomplete >= 1
    ensures forall i, j :: 0 <= i < j < |StatsRows(tasks)| ==> StatsRows(tasks)[i].family != StatsRows(tasks)[j].family
  {
    StatsRowsTotal(tasks);
    FirstSeenCounted(tasks);
    FirstSeenDistinct(tasks);
    var families := FirstSeen(tasks);
    forall k | 0 <= k < |families| ensures Total(tasks, families[k]) >= 1 {
      assert families[k] in families;
    }
  }

  /** The first-seen family list has no repetitions. */
  lemma {:induction false} FirstSeenDistinct(tasks: seq<Task>)
    ensures Distinct(FirstSeen(tasks))
    decreases |tasks|
  {
    if tasks != [] {
      FirstSeenDistinct(tasks[..|tasks| - 1]);
    }
  }

  /**
   A family gets a row iff some non-wrapper emission belongs to it, iff its
   counters add up to at least one.
   */
  lemma {:induction false} FirstSeenCounted(tasks: seq<Task>)
    ensures forall f :: f in FirstSeen(tasks) <==> Total(tasks, f) >= 1
    ensures forall f :: f in FirstSeen(tasks) <==> HasCounted(tasks, f)
    decreases |tasks|
  {
    if tasks != [] {
      var before := tasks[..|tasks| - 1];
      var t := tasks[|tasks| - 1];
      FirstSeenCounted(before);
      forall f ensures HasCounted(tasks, f) <==> HasCounted(before, f) || (!t.isWrapper && t.family == f) {
        if HasCounted(tasks, f) {
          var i :| 0 <= i < |tasks| && !tasks[i].isWrapper && tasks[i].family == f;
          if i < |before| {
            assert before[i] == tasks[i];
          }
        }
        if HasCounted(before, f) {
          var i :| 0 <= i < |before| && !before[i].isWrapper && before[i].family == f;
          assert tasks[i] == before[i];
        }
      }
    }
  }

  /**
   Rows appear in first-seen order: the families counted within any prefix of
   the emissions are exactly the first rows of the table.
   */
  lemma {:induction false} FirstSeenPrefix(tasks: seq<Task>, n: nat)
    requires n <= |tasks|
    ensures |FirstSeen(tasks[..n])| <= |FirstSeen(tasks)|
    ensures FirstSeen(tasks[..n]) == FirstSeen(tasks)[..|FirstSeen(tasks[..n])|]
    decreases |tasks|
  {
    if n == |tasks| {
      assert tasks[..n] == tasks;
    } else {
      var before := tasks[..|tasks| - 1];
      assert before[..n] == tasks[..n];
      FirstSeenPrefix(before, n);
    }
  }

  /** Counting is additive over the emission sequence. */
  lemma {:induction false} TallyAppend(a: seq<Task>, b: seq<Task>, family: string, done: bool)
    ensures Tally(a + b, family, done) == Tally(a, family, done) + Tally(b, family, done)
    decreases |b|
  {
    if b == [] {
      assert a + b == a;
    } else {
      assert (a + b)[..|a + b| - 1] == a + b[..|b| - 1];
      TallyAppend(a, b[..|b| - 1], family, done);
    }
  }

  /**
   Emissions whose families already have rows add no row. In particular a
   traversal that yields everything twice has the same rows as one that
   yields it once, with every counter doubled.
   */
  lemma {:induction false} FirstSeenSeenFamilies(a: seq<Task>, b: seq<Task>)
    requires forall t :: t in b && !t.isWrapper ==> t.family in FirstSeen(a)
    ensures FirstSeen(a + b) == FirstSeen(a)
    decreases |b|
  {
    if b == [] {
      assert a + b == a;
    } else {
      assert (a + b)[..|a + b| - 1] == a + b[..|b| - 1];
      FirstSeenSeenFamilies(a, b[..|b| - 1]);
    }
  }

  /** A task yielded twice is counted twice: doubling the emissions doubles every counter. */
  lemma CountedTwice(tasks: seq<Task>)
    ensures |StatsRows(tasks + tasks)| == |StatsRows(tasks)|
    ensures forall k :: 0 <= k < |StatsRows(tasks)| ==>
              StatsRows(tasks + tasks)[k].family == StatsRows(tasks)[k].family &&
              StatsRows(tasks + tasks)[k].complete == 2 * StatsRows(tasks)[k].complete &&
              StatsRows(tasks + tasks)[k].incomplete == 2 * StatsRows(tasks)[k].incomplete
  {
    FirstSeenCounted(tasks);
    forall t | t in tasks && !t.isWrapper ensures t.family in FirstSeen(tasks) {
      var i :| 0 <= i < |tasks| && tasks[i] == t;
    }
    FirstSeenSeenFamilies(tasks, tasks);
    forall f, done: bool ensures Tally(tasks + tasks, f, done) == 2 * Tally(tasks, f, done) {
      TallyAppend(tasks, tasks, f, done);
    }
  }

  /** The non-wrapper emissions, in order. */
  function Counted(tasks: seq<Task>): seq<Task>
    decreases |tasks|
  {
    if tasks == [] then []
    else Counted(tasks[..|tasks| - 1]) + (if tasks[|tasks| - 1].isWrapper then [] else [tasks[|tasks| - 1]])
  }

  /** Wrapper tasks contribute nothing: the rows are those of the non-wrapper emissions alone. */
  lemma {:induction false} WrappersIgnored(tasks: seq<Task>)
    ensures FirstSeen(Counted(tasks)) == FirstSeen(tasks)
    ensures forall f, done :: Tally(Counted(tasks), f, done) == Tally(tasks, f, done)
    ensures StatsRows(Counted(tasks)) == StatsRows(tasks)
    decreases |tasks|
  {
    if tasks != [] {
      var before := tasks[..|tasks| - 1];
      var t := tasks[|tasks| - 1];
      WrappersIgnored(before);
      if t.isWrapper {
        assert Counted(tasks) == Counted(before);
      } else {
        assert Counted(tasks) == Counted(before) + [t];
        assert (Counted(before) + [t])[..|Counted(before) + [t]| - 1] == Counted(before);
      }
      var families := FirstSeen(tasks);
      forall k | 0 <= k < |families|
        ensures StatsRows(Counted(tasks))[k] == StatsRows(tasks)[k]
      {
        var f := families[k];
        assert Tally(Counted(tasks), f, true) == Tally(tasks, f, true);
        assert Tally(Counted(tasks), f, false) == Tally(tasks, f, false);
      }
    }
  }

  /** Adding one non-wrapper emission adds one to the totals of its family only. */
  lemma {:induction false} TotalOverStep(families: seq<string>, tasks: seq<Task>, t: Task)
    requires Distinct(families) && !t.isWrapper
    ensures TotalOver(families, tasks + [t]) == TotalOver(families, tasks) + (if t.family in families then 1 else 0)
    decreases |families|
  {
    assert (tasks + [t])[..|tasks + [t]| - 1] == tasks;
    if families != [] {
      var init := families[..|families| - 1];
      assert Distinct(init);
      TotalOverStep(init, tasks, t);
      assert t.family in families <==> t.family in init || t.family == families[|families| - 1];
    }
  }

  /** The totals over the first-seen families count every non-wrapper emission once. */
  lemma {:induction false} TotalOverFirstSeen(tasks: seq<Task>)
    ensures TotalOver(FirstSeen(tasks), tasks) == NonWrapperCount(tasks)
    decreases |tasks|
  {
    if tasks != [] {
      var before := tasks[..|tasks| - 1];
      var t := tasks[|tasks| - 1];
      assert tasks == before + [t];
      TotalOverFirstSeen(before);
      FirstSeenDistinct(before);
      if t.isWrapper {
        TotalOverUnchanged(FirstSeen(before), before, t);
      } else {
        TotalOverStep(FirstSeen(before), before, t);
        if t.family !in FirstSeen(before) {
          FirstSeenCounted(before);
          var fs := FirstSeen(before) + [t.family];
          assert fs[..|fs| - 1] == FirstSeen(before);
        }
      }
    }
  }

  /** A wrapper emission changes no family's totals. */
  lemma {:induction false} TotalOverUnchanged(families: seq<string>, tasks: seq<Task>, t: Task)
    requires t.isWrapper
    ensures TotalOver(families, tasks + [t]) == TotalOver(families, tasks)
    decreases |families|
  {
    assert (tasks + [t])[..|tasks + [t]| - 1] == tasks;
    if families != [] {
      TotalOverUnchanged(families[..|families| - 1], tasks, t);
    }
  }

  /** Summing the rows of the table counts every non-wrapper emission exactly once. */
  lemma StatsRowsTotal(tasks: seq<Task>)
    ensures RowsTotal(StatsRows(tasks)) == NonWrapperCount(tasks)
  {
    RowsTotalIsTotalOver(FirstSeen(tasks), tasks);
    TotalOverFirstSeen(tasks);
  }

  /** The rows for a family list sum to the totals over the family list. */
  lemma {:induction false} RowsTotalIsTotalOver(families: seq<string>, tasks: seq<Task>)
    ensures RowsTotal(seq(|families|, k requires 0 <= k < |families| =>
              Row(families[k], Tally(tasks, families[k], true), Tally(tasks, families[k], false))))
         == TotalOver(families, tasks)
    decreases |families|
  {
    var rows := seq(|families|, k requires 0 <= k < |families| =>
              Row(families[k], Tally(tasks, families[k], true), Tally(tasks, families[k], false)));
    if families != [] {
      RowsTotalIsTotalOver(families[1..], tasks);
      TotalOverFront(families, tasks);
      assert rows[1..] == seq(|families[1..]|, k requires 0 <= k < |families[1..]| =>
              Row(families[1..][k], Tally(tasks, families[1..][k], true), Tally(tasks, families[1..][k], false)));
    }
  }

  /** `TotalOver` also peels off the first family. */
  lemma {:induction false} TotalOverFront(families: seq<string>, tasks: seq<Task>)
    requires families != []
    ensures TotalOver(families, tasks) == Total(tasks, families[0]) + TotalOver(families[1..], tasks)
    decreases |families|
  {
    if |families| > 1 {
      var init := families[..|families| - 1];
      TotalOverFront(init, tasks);
      assert init[1..] == families[1..][..|families[1..]| - 1];
    } else {
      assert families[..0] == [];
    }
  }

  /** Sum of one family's counter over the searches for `keys`. */
  function TallyAcross(findDeps: (seq<Task>, Option<string>) -> seq<Task>, end: seq<Task>, keys: seq<Option<string>>,
                          family: string, done: bool): nat
  {
    if keys == [] then 0
    else Tally(findDeps(end, keys[0]), family, done) + TallyAcross(findDeps, end, keys[1..], family, done)
  }

  /**
   Each counter is the sum of the same counter over the per-family searches:
   a task found by two searches is counted once for each.
   */
  lemma {:induction false} TallyOverSearches(findDeps: (seq<Task>, Option<string>) -> seq<Task>, end: seq<Task>,
                                                keys: seq<Option<string>>, family: string, done: bool)
    ensures Tally(ConcatSearches(findDeps, end, keys), family, done) == TallyAcross(findDeps, end, keys, family, done)
  {
    if keys != [] {
      TallyOverSearches(findDeps, end, keys[1..], family, done);
      TallyAppend(findDeps(end, keys[0]), ConcatSearches(findDeps, end, keys[1..]), family, done);
    }
  }
}
