/** The polling loops of src/ts/util/async/retry.ts over an abstract clock.

    Time and the polled function are not executed: a run is described by a
    finite trace of steps, one per turn of the loop, each holding what the
    evaluation gave and what the clock read after it. The `wait(interval)`
    between turns only shows in how far apart consecutive clock readings
    are (see `Paced`). A trace that ends before the loop does leaves the
    run `Pending`. */
module Retry {
  import opened Wrappers
  import opened Strings

  const DefaultInterval := 100
  const DefaultTimeout := 10000

  /** What one evaluation of the polled function gave: a value to return,
      "not yet" (a condition that is false), or a thrown error. `Err`
      stands for a thrown `Error` object, which is always truthy, and
      carries its message; a falsy thrown value is not modelled. */
  datatype Outcome<+T> = Ok(value: T) | NotYet | Err(error: string)

  /** One turn of the loop: the evaluation's outcome, and the clock reading
      taken after it (only consulted when the evaluation did not return). */
  datatype Step<+T> = Step(outcome: Outcome<T>, now: int)

  /** How a run ends, and after how many evaluations. */
  datatype Completion<+T> =
    | Finished(value: T, evaluations: nat)
    | Failed(error: string, evaluations: nat)
    | Pending(evaluations: nat)

  /** The loop leaves at step `s`: the evaluation returned, or the clock
      is strictly past the deadline. */
  predicate Stops<T>(s: Step<T>, deadline: int) {
    s.outcome.Ok? || s.now > deadline
  }

  /** The common loop of `waitUntil` and `withRetry`, from turn `i` on:
      return on the first `Ok`; otherwise give up once the clock reads
      strictly past `deadline`, with the last outcome; otherwise go round. */
  function Poll<T>(steps: seq<Step<T>>, deadline: int, i: nat): (r: PollResult<T>)
    requires i <= |steps|
    ensures i <= r.evaluations <= |steps|
    ensures r.Running? <==> forall j :: i <= j < |steps| ==> !Stops(steps[j], deadline)
    ensures r.Running? ==> r.evaluations == |steps|
    ensures r.Returned? ==> i < r.evaluations && steps[r.evaluations - 1].outcome == Ok(r.value)
    ensures r.GaveUp? ==>
              && i < r.evaluations
              && r.last == steps[r.evaluations - 1].outcome && !r.last.Ok?
              && steps[r.evaluations - 1].now > deadline
    ensures forall j :: i <= j < r.evaluations - 1 ==> !Stops(steps[j], deadline)
    decreases |steps| - i
  {
    if i == |steps| then Running(i)
    else
      var s := steps[i];
      if s.outcome.Ok? then Returned(s.outcome.value, i + 1)
      else if s.now > deadline then GaveUp(s.outcome, i + 1)
      else Poll(steps, deadline, i + 1)
  }

  datatype PollResult<+T> =
    | Returned(value: T, evaluations: nat)
    | GaveUp(last: Outcome<T>, evaluations: nat)
    | Running(evaluations: nat)

  /** "waiting failed: retryTimeout Nms exceeded". */
  function TimeoutMessage(timeout: int): (m: string)
    ensures IsPrefix("waiting failed: retryTimeout ", m)
    ensures Contains(m, IntToString(timeout) + "ms exceeded")
  {
    var m := "waiting failed: retryTimeout " + IntToString(timeout) + "ms exceeded";
    ContainsInfix("waiting failed: retryTimeout ", IntToString(timeout) + "ms exceeded", []);
    assert m == "waiting failed: retryTimeout " + (IntToString(timeout) + "ms exceeded") + [];
    m
  }

  /** `waitUntil(condition, retryInterval, retryTimeout)` started at
      `start`; `None` is an omitted argument. The condition's `true` is
      `Ok(())` and its `false` is `NotYet`. */
  function WaitUntil(steps: seq<Step<()>>, start: int, retryTimeout: Option<int>): (r: Completion<()>)
    ensures r.evaluations <= |steps|
    // a falsy timeout returns at once, without evaluating the condition
    ensures retryTimeout == Some(0) ==> r == Finished((), 0)
    ensures var timeout := retryTimeout.GetOr(DefaultTimeout);
            timeout != 0 ==>
              && (r.Finished? ==> r.evaluations > 0 && steps[r.evaluations - 1].outcome.Ok?)
              && (r.Failed? ==>
                    && r.evaluations > 0
                    && steps[r.evaluations - 1].now > start + timeout
                    && !steps[r.evaluations - 1].outcome.Ok?
                    && r.error == (match steps[r.evaluations - 1].outcome
                                   case Err(e) => e
                                   case _ => TimeoutMessage(timeout)))
              && (r.Pending? <==> forall j :: 0 <= j < |steps| ==> !Stops(steps[j], start + timeout))
              && (forall j :: 0 <= j < r.evaluations - 1 ==> !Stops(steps[j], start + timeout))
  {
    var timeout := retryTimeout.GetOr(DefaultTimeout);
    if timeout == 0 then Finished((), 0)
    else
      match Poll(steps, start + timeout, 0)
      case Returned(v, n) => Finished(v, n)
      case GaveUp(last, n) => Failed(if last.Err? then last.error else TimeoutMessage(timeout), n)
      case Running(n) => Pending(n)
  }

  /** One call of the function `withRetry` wraps: its result or its
      rejection, and the clock reading taken after a rejection. */
  datatype Attempt<+T> = Attempt(result: Result<T, string>, now: int)

  function AsStep<T>(a: Attempt<T>): Step<T> {
    match a.result
    case Success(v) => Step(Ok(v), a.now)
    case Failure(e) => Step(Err(e), a.now)
  }

  /** `withRetry(interval, timeout)(fn)(...args)` started at `start`:
      the first successful result, or the latest error once the clock is
      strictly past `start + timeout`. */
  function WithRetry<T>(attempts: seq<Attempt<T>>, start: int, timeout: int): (r: Completion<T>)
    ensures r.evaluations <= |attempts|
    ensures r.Finished? ==>
              r.evaluations > 0 && attempts[r.evaluations - 1].result == Success(r.value)
    ensures r.Failed? ==>
              && r.evaluations > 0
              && attempts[r.evaluations - 1].result == Failure(r.error)
              && attempts[r.evaluations - 1].now > start + timeout
    ensures forall j :: 0 <= j < r.evaluations - 1 ==>
              attempts[j].result.Failure? && attempts[j].now <= start + timeout
    ensures r.Pending? <==> forall j :: 0 <= j < |attempts| ==>
              attempts[j].result.Failure? && attempts[j].now <= start + timeout
  {
    var steps := seq(|attempts|, k requires 0 <= k < |attempts| => AsStep(attempts[k]));
    assert forall k :: 0 <= k < |attempts| ==>
             && steps[k].now == attempts[k].now
             && (attempts[k].result.Success? ==> steps[k].outcome == Ok(attempts[k].result.value))
             && (attempts[k].result.Failure? ==> steps[k].outcome == Err(attempts[k].result.error));
    match Poll(steps, start + timeout, 0)
    case Returned(v, n) => Finished(v, n)
    case GaveUp(last, n) => Failed(last.error, n)
    case Running(n) => Pending(n)
  }

  // ---------------------------------------------------------------------
  // Properties over a realistic clock

  /** The clock trace of a real run: the first reading is no earlier than
      the start, and each turn waits `interval` before evaluating again. */
  predicate Paced<T>(steps: seq<Step<T>>, start: int, interval: int) {
    && (|steps| > 0 ==> steps[0].now >= start)
    && forall j :: 0 <= j < |steps| - 1 ==> steps[j + 1].now >= steps[j].now + interval
  }

  lemma {:induction false} PacedReadings<T>(steps: seq<Step<T>>, start: int, interval: int, j: nat)
    requires Paced(steps, start, interval) && interval >= 0 && j < |steps|
    ensures steps[j].now >= start + j * interval
  {
    if j > 0 {
      PacedReadings(steps, start, interval, j - 1);
      assert steps[j].now >= steps[j - 1].now + interval;
      assert (j - 1) * interval + interval == j * interval;
    }
  }

  /** With a positive interval the loop evaluates at most
      `timeout / interval + 2` times, however the polled function behaves,
      and a long enough trace always reaches an end. */
  lemma PollBound<T>(steps: seq<Step<T>>, start: int, interval: int, timeout: int)
    requires Paced(steps, start, interval) && interval > 0 && timeout >= 0
    ensures Poll(steps, start + timeout, 0).evaluations <= timeout / interval + 2
    ensures |steps| >= timeout / interval + 2 ==> !Poll(steps, start + timeout, 0).Running?
  {
    var m := timeout / interval + 1;
    if m < |steps| {
      PacedReadings(steps, start, interval, m);
      assert m * interval == (timeout / interval) * interval + interval;
      assert Stops(steps[m], start + timeout);
    }
  }

  /** The bound for `waitUntil` at its default interval. */
  lemma WaitUntilBound(steps: seq<Step<()>>, start: int, timeout: nat)
    requires Paced(steps, start, DefaultInterval)
    ensures WaitUntil(steps, start, Some(timeout)).evaluations <= timeout / DefaultInterval + 2
  {
    PollBound(steps, start, DefaultInterval, timeout);
  }
}
