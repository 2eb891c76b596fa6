/** The session manager's pure decisions in src/taiko.js: URL scheme
    defaulting, the browser-crash predicate and message, `validate`, the
    connection retry count of `initCRI`, history-entry selection in `_go`,
    `switchTo`'s argument checks and the client proxy's blocklist.

    The browser process, the DevTools connection and the tab list are
    observed state, passed in as values. */
module Session {
  import opened Wrappers
  import opened Strings

  /** A thrown `Error` or `TypeError`, with its message. */
  datatype JsError = Error(message: string) | TypeError(message: string)

  // ---------------------------------------------------------------------
  // URLs

  /** `/^https?:\/\//i.test(url)`. */
  predicate HasHttpScheme(url: string) {
    StartsWithIgnoreCase(url, "http://") || StartsWithIgnoreCase(url, "https://")
  }

  /** `goto` and `openTab`: a url without an http(s) scheme that does not
      start with "file" (in any case) gets "http://" in front. */
  function PrefixUrl(url: string): (r: string)
    ensures HasHttpScheme(url) || StartsWithIgnoreCase(url, "file") ==> r == url
    ensures !(HasHttpScheme(url) || StartsWithIgnoreCase(url, "file")) ==> r == "http://" + url
  {
    if !HasHttpScheme(url) && !StartsWithIgnoreCase(url, "file") then "http://" + url else url
  }

  lemma {:induction false} PrefixedHasScheme(url: string)
    ensures HasHttpScheme("http://" + url)
  {
    var s := "http://" + url;
    assert forall i :: 0 <= i < 7 ==> s[i] == "http://"[i];
  }

  /** Every url leaves `PrefixUrl` with a scheme it keeps, so prefixing
      twice is prefixing once. */
  lemma PrefixUrlIdempotent(url: string)
    ensures HasHttpScheme(PrefixUrl(url)) || StartsWithIgnoreCase(PrefixUrl(url), "file")
    ensures PrefixUrl(PrefixUrl(url)) == PrefixUrl(url)
  {
    if !HasHttpScheme(url) && !StartsWithIgnoreCase(url, "file") {
      PrefixedHasScheme(url);
    }
  }

  /** Where `openTab(targetUrl)` goes and whether it waits for the
      navigation: a missing url opens `about:blank`, and a url containing
      'about:blank' is opened without waiting. */
  function OpenTabTarget(targetUrl: string): (r: (string, bool))
    ensures r.0 == PrefixUrl(if targetUrl == "" then "about:blank" else targetUrl)
    ensures r.1 <==> !Contains(r.0, "about:blank")
  {
    var url := PrefixUrl(if targetUrl == "" then "about:blank" else targetUrl);
    (url, !Contains(url, "about:blank"))
  }

  /** A missing url opens http://about:blank, without a navigation wait. */
  lemma {:induction false} OpenTabBlank()
    ensures OpenTabTarget("") == ("http://" + "about:blank", false)
  {
    var blank := "about:blank";
    assert !HasHttpScheme(blank) by {
      assert LowerAscii(blank[0]) != LowerAscii("http://"[0]);
      assert LowerAscii(blank[0]) != LowerAscii("https://"[0]);
    }
    assert !StartsWithIgnoreCase(blank, "file") by {
      assert LowerAscii(blank[0]) != LowerAscii("file"[0]);
    }
    assert PrefixUrl(blank) == "http://" + blank;
    assert IsPrefix(blank, blank) by {
      assert blank[..|blank|] == blank;
    }
    ContainsAfter("http://", blank, blank);
  }

  // ---------------------------------------------------------------------
  // The browser process and the connection

  /** The spawned browser: `killed`, `exitCode` (`None` for null),
      `signalCode` and `pid`. */
  datatype Process = Process(pid: int, killed: bool, exitCode: Option<int>, signalCode: string)

  /** `hasChromeProcessCrashed()`: a process that is killed and did not
      exit with status 0 has crashed, including one killed by a signal
      (exit code null); no process has not. */
  function HasCrashed(p: Option<Process>): (r: bool)
    ensures r <==> p.Some? && p.value.killed && (p.value.exitCode.None? || p.value.exitCode.value != 0)
  {
    p.Some? && p.value.killed && p.value.exitCode != Some(0)
  }

  /** `errorMessageForChromeprocessCrash()`: the signal when there is no
      exit code, the status code otherwise. */
  function CrashMessage(p: Process): (m: string)
    ensures IsPrefix("Chrome process with pid " + IntToString(p.pid) + " exited with ", m)
    ensures p.exitCode.None? ==> Contains(m, "signal " + p.signalCode + ".")
    ensures p.exitCode.Some? ==> Contains(m, "status code " + IntToString(p.exitCode.value) + ".")
  {
    var head := "Chrome process with pid " + IntToString(p.pid) + " exited with ";
    var tail := if p.exitCode.None? then "signal " + p.signalCode + "."
                else "status code " + IntToString(p.exitCode.value) + ".";
    assert (head + tail)[..|head|] == head;
    ContainsInfix(head, tail, "");
    assert head + tail + "" == head + tail;
    head + tail
  }

  const NotInitialized := "Browser or page not initialized. Call `openBrowser()` before using this API"
  const BrowserClosed := "The Browser instance was closed either via `closeBrowser()` call, or it crashed for reasons unknown to Taiko. You can try launching a fresh instance using `openBrowser()` or inspect the logs for details of the possible crash."
  const ConnectionLost := "Connection to browser lost. This probably isn't a problem with Taiko, inspect logs for possible causes."

  /** The DevTools client: `None` before `openBrowser`, otherwise the
      `readyState` of its socket (1 is open, above 1 closing or closed). */
  type Client = Option<int>

  /** `validate()`. */
  function Validate(client: Client, process: Option<Process>): (r: Result<(), JsError>)
    ensures r.Success? <==> client.Some? && client.value <= 1
    ensures client.None? ==> r == Failure(Error(NotInitialized))
    ensures client.Some? && client.value > 1 ==>
              r == Failure(Error(if process.Some? && process.value.killed then BrowserClosed else ConnectionLost))
  {
    if client.None? then Failure(Error(NotInitialized))
    else if client.value > 1 then
      if process.Some? && process.value.killed then Failure(Error(BrowserClosed)) else Failure(Error(ConnectionLost))
    else Success(())
  }

  /** The pattern the crash translation looks for. */
  const SocketClosed := "WebSocket is not open: readyState 3"

  /** The `catch` of a proxied domain command: a closed-socket error while
      the browser has crashed becomes the crash message; any other error is
      rethrown as it is. */
  function TranslateCommandError(message: string, process: Option<Process>): (r: string)
    ensures Contains(message, SocketClosed) && HasCrashed(process) ==> r == CrashMessage(process.value)
    ensures !(Contains(message, SocketClosed) && HasCrashed(process)) ==> r == message
  {
    if Contains(message, SocketClosed) && HasCrashed(process) then CrashMessage(process.value) else message
  }

  /** `TAIKO_CRI_CONNECTION_RETRIES` when unset. */
  const DefaultConnectionRetries := 10

  datatype Connection<+C> = Connected(client: C, attempts: nat) | ConnectFailed(error: string, attempts: nat)

  /** `initCRI(target, n)`: attempt `k` (from 0) gives `attempt(k)`; an
      error is rethrown once `n < 2` and retried with `n - 1` otherwise. */
  function InitCri<C>(attempt: nat -> Result<C, string>, n: int, k: nat): (r: Connection<C>)
    ensures 1 <= r.attempts <= (if n < 2 then 1 else n)
    ensures r.Connected? ==> attempt(k + r.attempts - 1) == Success(r.client)
    ensures r.ConnectFailed? ==>
              r.attempts == (if n < 2 then 1 else n) && attempt(k + r.attempts - 1) == Failure(r.error)
    ensures forall j :: k <= j < k + r.attempts - 1 ==> attempt(j).Failure?
    decreases if n < 2 then 0 else n
  {
    match attempt(k)
    case Success(c) => Connected(c, 1)
    case Failure(e) =>
      if n < 2 then ConnectFailed(e, 1)
      else
        match InitCri(attempt, n - 1, k + 1)
        case Connected(c, a) => Connected(c, a + 1)
        case ConnectFailed(e2, a) => ConnectFailed(e2, a + 1)
  }

  /** `connect_to_cri` with the default retry count never tries more than
      ten times, and fails only when all ten attempts fail. */
  lemma {:induction false} ConnectionAttemptsBounded<C>(attempt: nat -> Result<C, string>)
    ensures InitCri(attempt, DefaultConnectionRetries, 0).attempts <= 10
    ensures InitCri(attempt, DefaultConnectionRetries, 0).ConnectFailed? ==>
              forall j :: 0 <= j < 10 ==> attempt(j).Failure?
  {
    var r := InitCri(attempt, DefaultConnectionRetries, 0);
    if r.ConnectFailed? {
      assert r.attempts == 10;
      assert attempt(9).Failure?;
    }
  }

  /** Names the client proxy refuses to hand out. */
  const UnsupportedClientMethods := ["removeListener", "emit", "removeAllListeners", "setMaxListeners", "off"]

  /** Reading property `name` of the client proxy. */
  function ClientAccess(name: string): (r: Result<(), JsError>)
    ensures r.Failure? <==> name in UnsupportedClientMethods
    ensures r.Failure? ==> r.error == Error("Unsupported action " + name + " on client")
  {
    if name in UnsupportedClientMethods then Failure(Error("Unsupported action " + name + " on client")) else Success(())
  }

  // ---------------------------------------------------------------------
  // History navigation

  datatype HistoryEntry = HistoryEntry(id: int, url: string)
  datatype History = History(entries: seq<HistoryEntry>, currentIndex: int)

  /** `waitForNavigation` of the caller's options: `None` when the options
      have no such own property. */
  type WaitOption = Option<bool>

  /** `_go(delta, options)`: `None` when there is no entry at
      `currentIndex + delta` (it returns null without navigating);
      otherwise the entry navigated to and the `waitForNavigation` option
      passed on. */
  function Go(history: History, delta: int, wait: WaitOption): (r: Option<(HistoryEntry, WaitOption)>)
    ensures var i := history.currentIndex + delta;
            r.Some? <==> 0 <= i < |history.entries|
    ensures r.Some? ==> r.value.0 == history.entries[history.currentIndex + delta]
    // about:blank skips the wait unless the caller said otherwise
    ensures r.Some? ==> r.value.1 == if r.value.0.url == "about:blank" && wait.None? then Some(false) else wait
  {
    var i := history.currentIndex + delta;
    if 0 <= i < |history.entries| then
      var entry := history.entries[i];
      Some((entry, if entry.url == "about:blank" && wait.None? then Some(false) else wait))
    else None
  }

  /** An explicit option always wins, whatever the entry. */
  lemma GoKeepsExplicitWait(history: History, delta: int, w: bool)
    requires Go(history, delta, Some(w)).Some?
    ensures Go(history, delta, Some(w)).value.1 == Some(w)
  {
  }

  // ---------------------------------------------------------------------
  // switchTo

  /** The argument of `switchTo`, with the printed form of a regular
      expression. Plain objects (the incognito-window path) are not part
      of this model. */
  datatype SwitchArg = StringArg(s: string) | RegExpArg(printed: string) | OtherArg(typeName: string)

  /** The TypeError for an argument that is neither a string nor a
      regular expression. */
  function ArgumentTypeError(typeName: string): JsError {
    TypeError("The \"targetUrl\" argument must be of type string or regex. Received type " + typeName)
  }

  const EmptyTargetError: JsError :=
    Error("Cannot switch to tab or window. Hint: The targetUrl is empty. Please use a valid string or regex")

  function NoTabError(printed: string): JsError {
    Error("No tab(s) matching " + printed + " found")
  }

  /** `switchTo(arg)` once the client is validated: the tabs matching `arg`
      are an input, and the first of them is connected to. */
  function SwitchTo<T>(client: Client, process: Option<Process>, arg: SwitchArg, matching: seq<T>)
    : (r: Result<T, JsError>)
    ensures Validate(client, process).Failure? ==> r == Failure(Validate(client, process).error)
    ensures Validate(client, process).Success? && arg.OtherArg? ==> r == Failure(ArgumentTypeError(arg.typeName))
    ensures Validate(client, process).Success? && arg.StringArg? && IsBlank(arg.s) ==> r == Failure(EmptyTargetError)
    // a usable argument: the first matching tab, or the error naming the argument
    ensures Validate(client, process).Success? && (arg.RegExpArg? || (arg.StringArg? && !IsBlank(arg.s))) ==>
              r == if |matching| == 0 then Failure(NoTabError(if arg.StringArg? then arg.s else arg.printed))
                   else Success(matching[0])
  {
    var v := Validate(client, process);
    if v.Failure? then Failure(v.error)
    else
      match arg
      case OtherArg(t) => Failure(ArgumentTypeError(t))
      case StringArg(s) =>
        if IsBlank(s) then Failure(EmptyTargetError)
        else if |matching| == 0 then Failure(NoTabError(s))
        else Success(matching[0])
      case RegExpArg(p) =>
        if |matching| == 0 then Failure(NoTabError(p)) else Success(matching[0])
  }

  /** A string of white space is refused before any tab is looked up:
      the result is the same whatever tabs match. */
  lemma BlankNeverSwitches<T>(client: Client, process: Option<Process>, s: string, m1: seq<T>, m2: seq<T>)
    requires IsBlank(s)
    ensures SwitchTo(client, process, StringArg(s), m1).Failure?
    ensures SwitchTo(client, process, StringArg(s), m1) == SwitchTo(client, process, StringArg(s), m2)
  {
  }
}
