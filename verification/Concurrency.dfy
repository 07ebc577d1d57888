/**
Bounded concurrency: one task per element, no more than a given number of them unfinished at a time, the
results collected in the order of the elements.  The event loop decides which tasks finish while the
caller waits, and may interrupt any wait with a cancellation; the contracts hold for all its decisions.
*/
module Concurrency {
  import opened Wrappers

  /** How a handler ends for one element. */
  datatype Handled<+R> = Returns(result: R) | Raises(error: int) | IsCancelled

  /** One entry of the result sequence. */
  datatype Item<+R> = Result(result: R) | Exception(error: int)

  /** How the task around the handler ends. */
  datatype Finished<+R> = Completed(item: Item<R>) | Errored(error: int) | TaskCancelled

  datatype Failure = Error(error: int) | SourceError(error: int) | Cancellation

  /** The local `process` coroutine: with `keepExceptions` an exception becomes the result. */
  function Process<R>(handled: Handled<R>, keepExceptions: bool): Finished<R> {
    match handled
    case Returns(result) => Completed(Result(result))
    case Raises(error) => if keepExceptions then Completed(Exception(error)) else Errored(error)
    case IsCancelled => TaskCancelled
  }

  /** The tasks of one task group, named by their order of creation.  `peak` is the largest number of tasks
      that were unfinished at the same time. */
  class TaskGroup<R> {
    const outcomes: seq<Finished<R>>
    var spawned: nat
    var done: set<nat>
    ghost var peak: nat
    ghost var interrupted: bool

    function Unfinished(): set<nat>
      reads this
    {
      set t | 0 <= t < spawned && t !in done
    }

    ghost predicate Valid()
      reads this
    {
      && spawned <= |outcomes|
      && (forall t <- done :: t < spawned)
      && |Unfinished()| <= peak
    }

    constructor (outcomes: seq<Finished<R>>)
      ensures Valid() && this.outcomes == outcomes && spawned == 0 && done == {} && peak == 0 && !interrupted
    {
      this.outcomes := outcomes;
      spawned, done := 0, {};
      peak, interrupted := 0, false;
    }

    /** `ctx.spawn`. */
    method Spawn() returns (task: nat)
      requires Valid() && spawned < |outcomes|
      modifies this
      ensures Valid() && task == old(spawned) && spawned == old(spawned) + 1 && done == old(done)
      ensures Unfinished() == old(Unfinished()) + {task}
      ensures peak == if old(peak) < |old(Unfinished())| + 1 then |old(Unfinished())| + 1 else old(peak)
      ensures interrupted == old(interrupted)
    {
      task := spawned;
      ghost var before := Unfinished();
      spawned := spawned + 1;
      assert Unfinished() == before + {task};
      peak := if peak < |before| + 1 then |before| + 1 else peak;
    }

    /** While the caller is suspended any unfinished tasks may finish. */
    method Progress()
      requires Valid()
      modifies this
      ensures Valid() && spawned == old(spawned) && peak == old(peak) && interrupted == old(interrupted)
      ensures old(done) <= done && Unfinished() <= old(Unfinished())
    {
      ghost var before := Unfinished();
      assert {} <= before;
      var newly :| newly <= Unfinished();
      done := done + newly;
      assert Unfinished() <= before;
      Subset(Unfinished(), before);
    }

    /** The caller waits for the next element of an asynchronous source, unless it is cancelled meanwhile; a
        source that is not asynchronous lets nothing else happen. */
    method Pull() returns (cancelled: bool)
      requires Valid()
      modifies this
      ensures Valid() && spawned == old(spawned) && peak == old(peak)
      ensures old(done) <= done && Unfinished() <= old(Unfinished())
      ensures interrupted == (old(interrupted) || cancelled)
    {
      Progress();
      var interrupt: bool :| true;
      interrupted := interrupted || interrupt;
      return interrupt;
    }

    /** `wait`: all tasks or at least one, unless the wait itself is cancelled. */
    method Wait(tasks: set<nat>, all: bool) returns (completed: set<nat>, cancelled: bool)
      requires Valid() && tasks != {} && forall t <- tasks :: t < spawned
      modifies this
      ensures Valid() && spawned == old(spawned) && peak == old(peak)
      ensures old(done) <= done && Unfinished() <= old(Unfinished())
      ensures interrupted == (old(interrupted) || cancelled)
      ensures !cancelled ==> completed == tasks * done && completed != {} && (all ==> completed == tasks)
    {
      Progress();
      var interrupt: bool :| true;
      if interrupt {
        interrupted := true;
        return {}, true;
      }
      // at the latest now something (or everything) that is waited for has finished
      ghost var before := Unfinished();
      var first :| first in tasks;
      done := done + (if all then tasks else {first});
      assert Unfinished() <= before;
      Subset(Unfinished(), before);
      assert first in tasks * done;
      return tasks * done, false;
    }

    /** The loops over done tasks after a wait: the error of one of them, if any failed. */
    method Examine(tasks: set<nat>) returns (error: Option<int>)
      requires Valid() && forall t <- tasks :: t < spawned
      ensures error.None? ==> forall t | t in tasks && t in done :: !outcomes[t].Errored?
      ensures error.Some? ==> exists t :: t in tasks && t in done && outcomes[t] == Errored(error.value)
    {
      var rest := tasks;
      while rest != {}
        invariant rest <= tasks
        invariant forall t | t in tasks && t !in rest && t in done :: !outcomes[t].Errored?
      {
        var task :| task in rest;
        if task in done && outcomes[task].Errored? {
          return Some(outcomes[task].error);
        }
        rest := rest - {task};
      }
      return None;
    }
  }

  lemma Subset(a: set<nat>, b: set<nat>)
    requires a <= b
    ensures |a| <= |b|
  {
    assert b == a + (b - a);
  }

  /** Every spawned task is tracked, or has finished and was found not to have failed. */
  ghost predicate Accounted<R>(group: TaskGroup<R>, tasks: set<nat>)
    reads group
  {
    && (forall t <- tasks :: t < group.spawned)
    && (forall t | 0 <= t < group.spawned <= |group.outcomes| && t !in tasks ::
          t in group.done && !group.outcomes[t].Errored?)
  }

  /** What a failure may stand for: an error of a task of this group, or an interrupted wait. */
  ghost predicate Explains<R>(group: TaskGroup<R>, failure: Failure)
    reads group
  {
    match failure
    case Error(error) => exists t :: 0 <= t < |group.outcomes| && group.outcomes[t] == Errored(error)
    case SourceError(_) => false
    case Cancellation => group.interrupted || exists t :: 0 <= t < |group.outcomes| && group.outcomes[t].TaskCancelled?
  }

  /** A wait and the examination after it: first or all of the tracked tasks. */
  method Settle<R>(group: TaskGroup<R>, tasks: set<nat>, all: bool) returns (rest: set<nat>, failure: Option<Failure>)
    requires group.Valid() && Accounted(group, tasks) && tasks != {}
    modifies group
    ensures group.Valid() && group.spawned == old(group.spawned) && group.peak == old(group.peak)
    ensures failure.None? ==> rest < tasks && Accounted(group, rest) && (all ==> rest == {})
    ensures failure.Some? ==> Explains(group, failure.value)
  {
    var completed, cancelled := group.Wait(tasks, all);
    if cancelled {
      var error := group.Examine(tasks);
      failure := Some(if error.Some? then Error(error.value) else Cancellation);
      return tasks, failure;
    }
    rest := tasks - completed;
    var error := group.Examine(completed);
    failure := if error.Some? then Some(Error(error.value)) else None;
  }

  /** The loop shared by `process_concurrently` and `execute_concurrently`: spawn, and wait for a slot when
      the limit is reached; then wait for the rest.  The source may fail after its last element, and the caller
      may be cancelled while it waits for the source. */
  method RunTasks<R>(group: TaskGroup<R>, limit: nat, sourceFails: Option<int>) returns (failure: Option<Failure>)
    requires group.Valid() && group.spawned == 0 && group.done == {} && group.peak == 0
    requires limit > 0
    modifies group
    ensures group.Valid() && group.peak <= limit
    ensures failure.None? ==> group.spawned == |group.outcomes| && Accounted(group, {}) && sourceFails.None?
    ensures failure.Some? ==>
              Explains(group, failure.value) || (sourceFails.Some? && failure.value == SourceError(sourceFails.value))
  {
    var tasks: set<nat> := {};
    var cancelled := false;
    for i := 0 to |group.outcomes|
      invariant group.Valid() && group.spawned == i && group.peak <= limit
      invariant Accounted(group, tasks) && |tasks| < limit
    {
      cancelled := group.Pull();
      if cancelled {
        return Some(Cancellation);
      }
      Subset(group.Unfinished(), tasks);
      var task := group.Spawn();
      tasks := tasks + {task};
      if |tasks| < limit {
        continue;
      }
      ghost var before := tasks;
      tasks, failure := Settle(group, tasks, false);
      if failure.Some? {
        return;
      }
      assert before == tasks + (before - tasks);
    }
    cancelled := group.Pull();
    if cancelled {
      return Some(Cancellation);
    }
    if sourceFails.Some? {
      return Some(SourceError(sourceFails.value));
    }
    if tasks != {} {
      tasks, failure := Settle(group, tasks, true);
    } else {
      failure := None;
    }
  }

  /** `process_concurrently`: a normal return means that no handler failed, unless failures are ignored. */
  method ProcessConcurrently<R>(handled: seq<Handled<R>>, limit: nat, ignoreExceptions: bool, sourceFails: Option<int>)
    returns (failure: Option<Failure>, group: TaskGroup<R>)
    requires limit > 0
    ensures fresh(group) && group.Valid() && group.peak <= limit
    ensures failure.None? ==>
              && sourceFails.None?
              && (forall i | 0 <= i < |handled| :: i in group.done)
              && (!ignoreExceptions ==> forall i | 0 <= i < |handled| :: !handled[i].Raises?)
    ensures failure.Some? && failure.value.SourceError? ==> sourceFails == Some(failure.value.error)
    ensures failure.Some? && failure.value.Error? ==>
              !ignoreExceptions && exists i :: 0 <= i < |handled| && handled[i] == Raises(failure.value.error)
  {
    var outcomes := seq(|handled|, i requires 0 <= i < |handled| => Process(handled[i], ignoreExceptions));
    group := new TaskGroup(outcomes);
    failure := RunTasks(group, limit, sourceFails);
    if failure.None? {
      forall i | 0 <= i < |handled| ensures i in group.done && (!ignoreExceptions ==> !handled[i].Raises?) {
        assert !group.outcomes[i].Errored?;
      }
    }
  }

  /** `execute_concurrently`: a normal return gives the result of each element's handler, in the order of
      the elements, and without kept exceptions means that no handler failed. */
  method ExecuteConcurrently<R>(handled: seq<Handled<R>>, limit: nat, keepExceptions: bool, sourceFails: Option<int>)
    returns (results: seq<Item<R>>, failure: Option<Failure>, group: TaskGroup<R>)
    requires limit > 0
    ensures fresh(group) && group.Valid() && group.peak <= limit
    ensures failure.None? ==>
              && |results| == |handled| && sourceFails.None?
              && forall i | 0 <= i < |handled| ::
                   && i in group.done
                   && match handled[i]
                      case Returns(result) => results[i] == Result(result)
                      case Raises(error) => keepExceptions && results[i] == Exception(error)
                      case IsCancelled => false
    ensures failure.Some? ==>
              match failure.value
              case Error(error) => !keepExceptions && exists i :: 0 <= i < |handled| && handled[i] == Raises(error)
              case SourceError(error) => sourceFails == Some(error)
              case Cancellation => group.interrupted || exists i :: 0 <= i < |handled| && handled[i].IsCancelled?
  {
    var outcomes := seq(|handled|, i requires 0 <= i < |handled| => Process(handled[i], keepExceptions));
    group := new TaskGroup(outcomes);
    results := [];
    failure := RunTasks(group, limit, sourceFails);
    if failure.Some? {
      return;
    }
    for i := 0 to |handled|
      invariant |results| == i
      invariant forall k | 0 <= k < i :: group.outcomes[k] == Completed(results[k])
    {
      assert !group.outcomes[i].Errored?;
      match group.outcomes[i] {
        case TaskCancelled =>
          failure := Some(Cancellation);
          return;
        case Completed(item) =>
          results := results + [item];
      }
    }
  }
}
