/** The crawling tasks of the two multi-threaded services. Each data row gets
    one task, and a task reads and writes only its own row, so the pool is
    modelled as the tasks run one after another in some order; the results
    do not depend on that order. */
module Parallel {
  import opened Rows
  import opened Processor

  /** What the outside world does to one task: what the crawler returned for
      the row's website, and whether the pause after the crawl was
      interrupted (the only exception the task body can meet, since the
      crawler catches its own). */
  datatype TaskInput = TaskInput(crawled: string, interrupted: bool)

  /** What one task leaves behind: the row's found email, and whether it
      counted a success. Every task counts itself completed exactly once:
      the first service at its start, the second at its end or in its
      exception handler. */
  datatype TaskEffect = TaskEffect(found: string, succeeded: bool)

  /** `CrawlingTask.run`. An empty website is marked without crawling or
      pausing. Otherwise the crawl result (or the mark) is stored and a
      non-empty result counted; an interrupted pause then overwrites the
      stored value with the mark, but the success stays counted. */
  function RunTask(website: string, t: TaskInput): (e: TaskEffect)
    ensures e.succeeded <==> website != "" && t.crawled != ""
    ensures website == "" ==> e.found == NotFound
  {
    if website == "" then TaskEffect(NotFound, false)
    else
      var stored := FoundValue(website, t.crawled);
      var succeeded := t.crawled != "";
      if t.interrupted then TaskEffect(NotFound, succeeded) else TaskEffect(stored, succeeded)
  }

  /** A task that is not interrupted writes the value the sequential run writes. */
  lemma TaskAgreesWithSequential(website: string, crawled: string)
    ensures RunTask(website, TaskInput(crawled, false)).found == FoundValue(website, crawled)
  {
  }

  /** Any task writes the mark or the crawl result; it writes the result
      exactly when it counts a success and its pause was not interrupted. */
  lemma TaskOutcomes(website: string, t: TaskInput)
    requires t.crawled != NotFound
    ensures var e := RunTask(website, t);
            && (e.found == NotFound || e.found == t.crawled)
            && (e.found == t.crawled <==> e.succeeded && !t.interrupted)
  {
  }

  /** An interrupt after a successful crawl: the row is marked as not found
      although the success was counted. */
  lemma InterruptAfterSuccess(website: string, crawled: string)
    requires website != "" && crawled != ""
    ensures RunTask(website, TaskInput(crawled, true)) == TaskEffect(NotFound, true)
  {
  }

  /* ------------------------------------------------------------- the pool */

  datatype Progress = Progress(rows: seq<Row>, completed: nat, success: nat)

  /** The row after its task has run. */
  function Done(row: Row, t: TaskInput): Row {
    row.(foundEmail := RunTask(row.website, t).found)
  }

  predicate Succeeds(rows: seq<Row>, inputs: nat -> TaskInput, i: nat)
    requires i < |rows|
  {
    RunTask(rows[i].website, inputs(i)).succeeded
  }

  /** One task, on data row `i`, and its two counter updates. */
  function Step(p: Progress, inputs: nat -> TaskInput, i: nat): (q: Progress)
    requires i < |p.rows|
    ensures |q.rows| == |p.rows|
  {
    var e := RunTask(p.rows[i].website, inputs(i));
    Progress(p.rows[i := Done(p.rows[i], inputs(i))], p.completed + 1, p.success + if e.succeeded then 1 else 0)
  }

  predicate InRange(order: seq<nat>, n: nat) {
    forall k :: 0 <= k < |order| ==> order[k] < n
  }

  predicate Distinct(order: seq<nat>) {
    forall k, l :: 0 <= k < l < |order| ==> order[k] != order[l]
  }

  /** The tasks run one after another in the given order. */
  function RunAll(p: Progress, inputs: nat -> TaskInput, order: seq<nat>): (q: Progress)
    requires InRange(order, |p.rows|)
    ensures |q.rows| == |p.rows|
    ensures q.completed == p.completed + |order|
    ensures forall i :: 0 <= i < |p.rows| && i !in order ==> q.rows[i] == p.rows[i]
    decreases |order|
  {
    if |order| == 0 then p
    else Step(RunAll(p, inputs, order[..|order| - 1]), inputs, order[|order| - 1])
  }

  /** The rows whose tasks, among those in `order`, count a success. */
  function SuccessSet(rows: seq<Row>, inputs: nat -> TaskInput, order: seq<nat>): set<nat>
    requires InRange(order, |rows|)
  {
    set i | i in order && Succeeds(rows, inputs, i)
  }

  /** What running distinct tasks does to the rows: every row with a task
      is done, computed from its own original contents; every other row is
      as it was. */
  lemma {:induction false} RunAllRows(rows: seq<Row>, inputs: nat -> TaskInput, order: seq<nat>)
    requires InRange(order, |rows|) && Distinct(order)
    ensures var q := RunAll(Progress(rows, 0, 0), inputs, order);
            forall i :: 0 <= i < |rows| ==> q.rows[i] == if i in order then Done(rows[i], inputs(i)) else rows[i]
    decreases |order|
  {
    if |order| > 0 {
      var init := order[..|order| - 1];
      var x := order[|order| - 1];
      assert InRange(init, |rows|) && Distinct(init);
      RunAllRows(rows, inputs, init);
      LastNotEarlier(order);
      var before := RunAll(Progress(rows, 0, 0), inputs, init);
      var q := RunAll(Progress(rows, 0, 0), inputs, order);
      assert q == Step(before, inputs, x);
      forall i | 0 <= i < |rows|
        ensures q.rows[i] == if i in order then Done(rows[i], inputs(i)) else rows[i]
      {
        assert i in order <==> i in init || i == x by {
          assert order == init + [x];
        }
      }
    }
  }

  /** What running distinct tasks does to the counters: completed rises by
      the number of tasks and success by the number that found an address. */
  lemma {:induction false} RunAllCounts(rows: seq<Row>, inputs: nat -> TaskInput, order: seq<nat>)
    requires InRange(order, |rows|) && Distinct(order)
    ensures var q := RunAll(Progress(rows, 0, 0), inputs, order);
            q.completed == |order| && q.success == |SuccessSet(rows, inputs, order)|
    decreases |order|
  {
    if |order| > 0 {
      var init := order[..|order| - 1];
      var x := order[|order| - 1];
      assert InRange(init, |rows|) && Distinct(init);
      RunAllCounts(rows, inputs, init);
      RunAllRows(rows, inputs, init);
      LastNotEarlier(order);
      SuccessSetSnoc(rows, inputs, order, init, x);
    }
  }

  lemma LastNotEarlier(order: seq<nat>)
    requires Distinct(order) && |order| > 0
    ensures order[|order| - 1] !in order[..|order| - 1]
  {
    var init := order[..|order| - 1];
    forall k | 0 <= k < |init| ensures init[k] != order[|order| - 1] {
      assert init[k] == order[k];
    }
  }

  lemma SuccessSetSnoc(rows: seq<Row>, inputs: nat -> TaskInput, order: seq<nat>, init: seq<nat>, x: nat)
    requires InRange(order, |rows|) && |order| > 0
    requires init == order[..|order| - 1] && x == order[|order| - 1] && x !in init
    ensures InRange(init, |rows|)
    ensures |SuccessSet(rows, inputs, order)|
         == |SuccessSet(rows, inputs, init)| + if Succeeds(rows, inputs, x) then 1 else 0
  {
    assert order == init + [x];
    var s0 := SuccessSet(rows, inputs, init);
    var s1 := SuccessSet(rows, inputs, order);
    if Succeeds(rows, inputs, x) {
      assert s1 == s0 + {x};
    } else {
      assert s1 == s0;
    }
  }

  /** The final rows and counters do not depend on the order the pool runs
      the tasks in: any two orders of the same distinct tasks agree. */
  lemma OrderIndependent(rows: seq<Row>, inputs: nat -> TaskInput, o1: seq<nat>, o2: seq<nat>)
    requires InRange(o1, |rows|) && Distinct(o1)
    requires InRange(o2, |rows|) && Distinct(o2)
    requires |o1| == |o2| && forall i :: i in o1 <==> i in o2
    ensures RunAll(Progress(rows, 0, 0), inputs, o1) == RunAll(Progress(rows, 0, 0), inputs, o2)
  {
    RunAllRows(rows, inputs, o1);
    RunAllRows(rows, inputs, o2);
    RunAllCounts(rows, inputs, o1);
    RunAllCounts(rows, inputs, o2);
    assert SuccessSet(rows, inputs, o1) == SuccessSet(rows, inputs, o2);
    var q1 := RunAll(Progress(rows, 0, 0), inputs, o1);
    var q2 := RunAll(Progress(rows, 0, 0), inputs, o2);
    assert q1.rows == q2.rows;
  }

  /** The counters never disagree: a run counts no more successes than
      completions. */
  lemma {:induction false} SuccessAtMostCompleted(p: Progress, inputs: nat -> TaskInput, order: seq<nat>)
    requires InRange(order, |p.rows|) && p.success <= p.completed
    ensures var q := RunAll(p, inputs, order);
            q.success <= q.completed && q.completed == p.completed + |order|
    decreases |order|
  {
    if |order| > 0 {
      SuccessAtMostCompleted(p, inputs, order[..|order| - 1]);
    }
  }

  /** The pool runs one task per data row: every data row is done and
      completed counts all of them. */
  lemma {:induction false} AllRowsDone(data: seq<Row>, inputs: nat -> TaskInput, order: seq<nat>)
    requires InRange(order, |data|) && Distinct(order) && |order| == |data|
    ensures var q := RunAll(Progress(data, 0, 0), inputs, order);
            && (forall i :: 0 <= i < |data| ==> q.rows[i] == Done(data[i], inputs(i)))
            && q.completed == |data|
  {
    RunAllRows(data, inputs, order);
    RunAllCounts(data, inputs, order);
    forall i | 0 <= i < |data| ensures i in order {
      CoversAll(order, |data|, i);
    }
  }

  /** A sequence of `n` distinct indices below `n` holds every index below `n`. */
  lemma CoversAll(order: seq<nat>, n: nat, i: nat)
    requires InRange(order, n) && Distinct(order) && |order| == n && i < n
    ensures i in order
  {
    DistinctCard(order);
    MissingBound(order, n, i);
  }

  /** The elements of a sequence of indices. */
  function Elems(order: seq<nat>): (r: set<nat>)
    ensures forall k :: k in r <==> k in order
  {
    set k | k in order
  }

  /** The indices below `n`. */
  function Below(n: nat): (r: set<nat>)
    ensures forall k: nat :: k in r <==> k < n
    ensures |r| == n
  {
    if n == 0 then {}
    else
      var b := Below(n - 1);
      assert n - 1 !in b;
      b + {n - 1}
  }

  lemma {:induction false} DistinctCard(order: seq<nat>)
    requires Distinct(order)
    ensures |Elems(order)| == |order|
    decreases |order|
  {
    if |order| > 0 {
      var init := order[..|order| - 1];
      var x := order[|order| - 1];
      assert Distinct(init);
      DistinctCard(init);
      LastNotEarlier(order);
      assert order == init + [x];
      assert Elems(order) == Elems(init) + {x};
    }
  }

  /** Indices below `n` that miss one of them number at most `n - 1`. */
  lemma MissingBound(order: seq<nat>, n: nat, i: nat)
    requires InRange(order, n) && i < n
    ensures i !in order ==> |Elems(order)| <= n - 1
  {
    var rest := Below(n) - {i};
    assert |rest| == n - 1;
    if i !in order {
      SubsetCard(Elems(order), rest);
    }
  }

  lemma SubsetCard(s: set<nat>, t: set<nat>)
    requires s <= t
    ensures |s| <= |t|
  {
    assert t == s + (t - s);
  }
}
