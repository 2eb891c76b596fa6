/** `doActionAwaitingNavigation` and `waitForNavigation` of
    src/doActionAwaitingNavigation.js.

    The action and the readiness poll are inputs: the action's result, and
    when (measured from the start of the wait) the poll of
    `top.document.readyState` ends and how. The poll's own loop lives in
    helper.js, which is not part of this model. The list of promises the
    code hands to `waitForNavigation` is empty, so the markers kept by
    module PageHandler are reset but never awaited. */
module Navigation {
  import opened Wrappers
  import opened Strings
  import opened PageHandler

  /** A thrown value: a bare string (as in `reject('Timedout')`) or an
      `Error` with its message. */
  datatype Thrown = ThrownString(s: string) | ErrorObject(message: string)

  const TimedOut := ThrownString("Timedout")

  /** The options the function reads: `waitForNavigation` by truthiness,
      and `navigationTimeout`, where `0` stands for any falsy value. */
  datatype Options = Options(waitForNavigation: bool, navigationTimeout: int)

  /** What the function does, in order. */
  datatype Step = ResetPage | ResetNetwork | RunAction | WaitForNavigation(timeout: int)

  /** How the readiness poll ends, and when. */
  datatype PollEnd = Ready(at: nat) | PollGaveUp(at: nat)

  /** A call: its steps, the page markers when the action starts, the
      `navigationTimeout` the options end up with, and the outcome. */
  datatype Call = Call(steps: seq<Step>, markers: Markers, navigationTimeout: int, outcome: Result<(), Thrown>)

  /** `waitForNavigation(timeout, [])`: the poll and a `timeout` timer race;
      only a poll that finds the document complete before the timer fires
      resolves. A poll ending exactly at the timer loses the race. */
  function WaitForNavigationResult(timeout: int, poll: PollEnd): (r: Result<(), Thrown>)
    ensures r.Failure? ==> r.error == TimedOut
    ensures r.Success? <==> poll.Ready? && poll.at < timeout
  {
    if poll.Ready? && poll.at < timeout then Success(()) else Failure(TimedOut)
  }

  function TimeoutError(timeout: int): (e: Thrown)
    ensures e.ErrorObject?
    ensures IsPrefix("Navigation took more than " + IntToString(timeout) + "ms.", e.message)
  {
    var head := "Navigation took more than " + IntToString(timeout) + "ms.";
    var m := head + " Please increase the navigationTimeout.";
    assert m[..|head|] == head;
    ErrorObject(m)
  }

  /** The `catch`: the string 'Timedout' becomes an `Error` naming the
      timeout; anything else is thrown again as it is. */
  function Translate(e: Thrown, timeout: int): (r: Thrown)
    ensures e == TimedOut ==> r == TimeoutError(timeout)
    ensures e != TimedOut ==> r == e
  {
    if e == TimedOut then TimeoutError(timeout) else e
  }

  /** `doActionAwaitingNavigation(options, action)` with page markers `m`
      and the configured default navigation timeout. */
  function DoActionAwaitingNavigation(m: Markers, options: Options, defaultTimeout: int,
                                      action: Result<(), Thrown>, poll: PollEnd): (r: Call)
    // the action runs exactly once
    ensures multiset(r.steps)[RunAction] == 1
    // opting out: only the action, its result untouched, nothing reset
    ensures !options.waitForNavigation ==>
              r == Call([RunAction], m, options.navigationTimeout, action)
    // otherwise both handlers are reset strictly before the action
    ensures options.waitForNavigation ==>
              && |r.steps| >= 3 && r.steps[..3] == [ResetPage, ResetNetwork, RunAction]
              && r.markers == NoMarkers
              && r.navigationTimeout == (if options.navigationTimeout != 0 then options.navigationTimeout
                                         else defaultTimeout)
    // success needs the action and then a timely readiness poll
    ensures options.waitForNavigation ==>
              (r.outcome.Success? <==> action.Success? && poll.Ready? && poll.at < r.navigationTimeout)
    // a failing action's error, translated; the wait is then skipped
    ensures options.waitForNavigation && action.Failure? ==>
              r.outcome == Failure(Translate(action.error, r.navigationTimeout)) && |r.steps| == 3
    // a failed wait is always the timeout error
    ensures options.waitForNavigation && action.Success? && r.outcome.Failure? ==>
              r.outcome.error == TimeoutError(r.navigationTimeout)
  {
    if !options.waitForNavigation then
      Call([RunAction], m, options.navigationTimeout, action)
    else
      var timeout := if options.navigationTimeout != 0 then options.navigationTimeout else defaultTimeout;
      var reset := Handle(m, ResetPromises).0;
      if action.Failure? then
        var steps := [ResetPage, ResetNetwork, RunAction];
        assert steps[..3] == steps;
        Call(steps, reset, timeout, Failure(Translate(action.error, timeout)))
      else
        var waited := WaitForNavigationResult(timeout, poll);
        var steps := [ResetPage, ResetNetwork, RunAction, WaitForNavigation(timeout)];
        assert steps[..3] == [ResetPage, ResetNetwork, RunAction];
        Call(steps, reset, timeout,
             if waited.Success? then Success(()) else Failure(Translate(waited.error, timeout)))
  }

  // ---------------------------------------------------------------------
  // Properties

  /** The markers are not awaited: the outcome is the same whatever the
      page markers were, and the action starts with none. */
  lemma MarkersNotAwaited(m1: Markers, m2: Markers, options: Options, defaultTimeout: int,
                          action: Result<(), Thrown>, poll: PollEnd)
    requires options.waitForNavigation
    ensures DoActionAwaitingNavigation(m1, options, defaultTimeout, action, poll)
            == DoActionAwaitingNavigation(m2, options, defaultTimeout, action, poll)
  {
  }

  /** An action that itself throws the string 'Timedout' is reported as a
      navigation timeout when waiting, and as it is when not. */
  lemma ActionTimedoutString(m: Markers, options: Options, defaultTimeout: int, poll: PollEnd)
    ensures var r := DoActionAwaitingNavigation(m, options, defaultTimeout, Failure(TimedOut), poll);
            if options.waitForNavigation then r.outcome == Failure(TimeoutError(r.navigationTimeout))
            else r.outcome == Failure(TimedOut)
  {
  }

  /** After a waited action, the page markers open during the wait are
      exactly the frames whose promise was emitted after the reset and is
      still unresolved. */
  lemma {:induction false} WaitStartsClean(m: Markers, options: Options, defaultTimeout: int,
                                           action: Result<(), Thrown>, poll: PollEnd, es: seq<PageEvent>)
    requires options.waitForNavigation
    ensures var r := DoActionAwaitingNavigation(m, options, defaultTimeout, action, poll);
            Tracks(Run(r.markers, es).0, Run(r.markers, es).1)
  {
    SessionTracks(es);
  }
}
