# taiko core, modelled in Dafny

This project models the sequential core of taiko, a browser-automation
library, and proves properties of it. The core has four parts.

- **Selector resolution** (`Find`): a `SelectorDesc` tree is resolved against
  an explicit document snapshot, which stands in for the DOM.
  - Base candidates come from a CSS query, a text search or a text-box
    search. Each is scored on taiko's fixed scale.
  - Zero-area rectangles are dropped.
  - Each proximity constraint adds the smallest non-negative distance to the
    reference selector's own resolved elements, or eliminates the candidate.
  - The survivors are sorted stably by score and cut to 50.
  - Resolution can fail in two ways (no candidates; no match), plus a
    TypeError for an unknown type tag. `findSelectorFunc` turns any failure
    into an empty result.
- **Descriptors, builders and printer** (`Selectors`, `Builders`):
  - `createSelectorDesc`, `createConstraintDesc` and
    `stringifySelector`/`stringifyConstraint`;
  - the builders `select`, `$`, `text` and `textBox`, and the proximity API
    (`above` … `near`);
  - `press` key ordering and `click` option parsing.
- **Navigation markers** (`PageHandler`, `Navigation`):
  - the page handler's two per-frame marker maps, navigation and load;
  - the synthetic same-document response;
  - the request/response correlation of `handleNavigation`, with its two
    failure rules;
  - `doActionAwaitingNavigation`, with its reset-before-action order and the
    `waitForNavigation` opt-out.
- **Polling, element lists, decorators and session decisions** (`Retry`,
  `ElementList`, `Decorators`, `Session`):
  - `waitUntil` and `withRetry` over an abstract clock trace;
  - the caching `ElementWrapperList`;
  - the hook order of `createDecorator`;
  - the pure decisions of `taiko.js`: URL prefixing, `openTab`'s target, the
    crash predicate and message, `validate`, the `initCRI` attempt bound,
    `_go`, `switchTo`'s checks, the client-method blocklist, and the crash
    translation of command errors.

`Wrappers` (Option/Result) and `Strings` (prefix, containment, joining,
number printing, white-space trimming, ASCII case folding) are shared
helpers. `JsNumber` is JavaScript's string-to-number conversion, which the
text box filter's loose `==` applies when it compares a boolean property
with a string.

Time is a trace of clock readings. What the browser answers is an input: the
snapshot, the search results, the network events, the hook and function
outcomes. Nothing in the model performs I/O.

## Model

| member | source | states |
|---|---|---|
| Find.TextNodes | src/ts/find.ts:84-92 | exactly the text nodes of the snapshot, each a valid node index |
| Find.TextLikeInputs | src/ts/find.ts:146-154 | exactly the textareas and text-like inputs, each a valid node index |
| Find.ParentsOf | src/ts/find.ts:121-144 | exactly the parents of the given text nodes that have one, each a valid node index |
| Find.RunPass | src/ts/find.ts:96-119 | a pass keeps exact matches (score 0/5) or contains matches (10/15) with a rect, and only when the contains guard holds |
| Find.TextBoxCandidates | src/ts/find.ts:173-196 | textareas and inputs of type email/number/password/text/url/tel/search or none, every given attribute loosely equal, all with score 0 |
| Find.AttributesMatch | src/ts/find.ts:183-188 | true iff every key names a property of the element that is loosely equal (`==`) to the given value; an absent property never matches |
| Find.TextParents | src/ts/find.ts:121-144 | the parent pass visits exactly the parents of text nodes |
| Find.TextCandidates | src/ts/find.ts:94-171 | a candidate is found iff one of the three passes keeps it: a text node, a parent of a text node or a text-like input that matches exactly or by containment, with that match's score and the node's rect |
| Find.CssCandidates | src/ts/find.ts:69-81 | the elements matching the CSS query that have a rect, with score 0 |
| Find.CssMatches | src/ts/find.ts:69-81 | exactly the element nodes the CSS query matches |
| Find.ResolveWithoutConstraint | src/ts/find.ts:65-199 | fails with a TypeError exactly for an unknown content type; otherwise valid nodes with non-negative scores |
| Find.TextCandidatesValid | src/ts/find.ts:94-171 | every text candidate is a valid node with a non-negative score |
| Find.TextScores | src/ts/find.ts:94-171 | text candidates score 0 (node or input, exact), 5 (parent exact), 10 (node or input, contains) or 15 (parent contains) |
| Find.ExactBeforeContains | src/ts/find.ts:171 | once the exact and contains lists are concatenated, every exact match precedes every contains match |
| Find.ExactTextFound | src/ts/find.ts:96-106 | every text node with a client rect whose text equals the query is found with score 0, whether or not `exactMatch` is set |
| Find.MinDistance | src/ts/find.ts:254-262 | none exactly when no reference gives a non-negative distance; otherwise the value is attained and is the least such distance |
| Find.ApplyConstraints | src/ts/find.ts:243-274 | the score stays non-negative iff every constraint has an admissible reference, and never drops below the base score |
| Find.VisibleOnly | src/ts/find.ts:228-240 | keeps exactly the candidates with bottom > top and right > left |
| Find.ScoreAll | src/ts/find.ts:243-277 | the output holds exactly the surviving candidates with their constrained scores |
| Find.ScoreAllUnconstrained | src/ts/find.ts:243-277 | with no constraints every candidate survives with its base score |
| Find.Insert | src/ts/find.ts:278-280 | inserting into a sorted list keeps it sorted and adds exactly the new candidate |
| Find.InsertPermutes | src/ts/find.ts:278-280 | insertion adds exactly the new candidate (multiset) |
| Find.InsertWithScore | src/ts/find.ts:278-280 | among equal scores, the new candidate goes before the existing candidates of that score, which keep their order |
| Find.WithScore | src/ts/find.ts:278-280 | exactly the candidates with a given score, the reference view for stability |
| Find.SortByScore | src/ts/find.ts:278-280 | the output is sorted ascending by score |
| Find.SortByScorePermutes | src/ts/find.ts:278-280 | the sort is a permutation of its input |
| Find.SortByScoreIsStable | src/ts/find.ts:278-280 | candidates with equal scores keep their input order, as `Array.prototype.sort` does since ECMAScript 2019 |
| Find.Truncate | src/ts/find.ts:281 | at most 50 results, a prefix of the input, non-empty when the input is |
| Find.Rank | src/ts/find.ts:228-281 | visibility, constraints, stable sort and the 50 cut: sorted, at most 50, drawn from the scored visible survivors, empty iff there are none |
| Find.ResolveSelector | src/ts/find.ts:202-297 | success gives 1 to 50 visible candidates, sorted, with non-negative scores; a descriptor of the wrong kind fails with 'not SelectorDesc' |
| Find.ResolveAgainst | src/ts/find.ts:221-285 | an unknown content type is a TypeError; any other failure is NoCandidates or NoMatch; success gives 1 to 50 sorted visible candidates |
| Find.ResolveConstraints | src/ts/find.ts:207-219 | on success, one resolved constraint per constraint |
| Find.ResolveConstraint | src/ts/find.ts:209-218 | a resolved constraint keeps its type, and only a constraint with the right kind resolves |
| Find.ResolvedReferences | src/ts/find.ts:207-219 | each constraint's reference list is the reference selector's own constrained, sorted and truncated result |
| Find.ReferenceFailurePropagates | src/ts/find.ts:203-219 | resolving the constraints fails iff some constraint has a bad kind or an unresolvable reference |
| Find.FindSelector | src/ts/find.ts:299-307 | never fails: the empty list iff resolution failed, otherwise the resolved nodes in order |
| Find.UnconstrainedOrder | src/ts/find.ts:221-285 | without constraints the result is the visible base candidates, stably sorted and cut to 50 |
| Find.ResolveUnfold | src/ts/find.ts:221-281 | once the constraints and the base lookup succeed, a successful resolution is the visible base candidates, constrained, stably sorted and cut to 50 |
| Find.RankSoundComplete | src/ts/find.ts:228-281 | ranking keeps only surviving base candidates with their constrained scores, and all of them when below 50 |
| Find.ResolveSoundComplete | src/ts/find.ts:228-281 | once the constraints and the base lookup succeed, every result of a successful resolution is a surviving base candidate with its constrained score; below 50 results, every survivor is in the output |
| Find.NotFoundErrors | src/ts/find.ts:221-285 | NoCandidates iff there are no base candidates; NoMatch iff there are some but none survives |
| Find.NearNeverEliminates | src/ts/find.ts:56-61 | a resolved `near` constraint never eliminates a candidate: its reference list is non-empty and every centre distance is admissible |
| Find.GetDistance | src/ts/find.ts:46-55 | undefined exactly for an unknown type; the distance is non-negative iff the candidate lies wholly above, below, left or right of the reference (touching counts); `near` is never negative |
| Find.DirectionDuality | src/ts/find.ts:46-55 | `above` mirrors `below` and `toLeftOf` mirrors `toRightOf` with the rects swapped |
| Find.BelowScores | src/ts/find.ts:243-277 | in the worked example the candidates' `below` distances (110 and 10) become their scores |
| Find.BelowExample | src/ts/find.ts:46-55 | a worked `below` case: distance = candidate top − reference bottom, and touching (0) counts |
| Find.WellFormedOnlyNotFound | src/ts/find.ts:202-285 | a descriptor the builders produce can fail only with NoCandidates or NoMatch |
| Selectors.CreateSelectorDesc | src/ts/taiko_types.ts:24-33 | kind `SelectorDesc`, exactly the given content and constraints |
| Selectors.CreateConstraintDesc | src/ts/taiko_types.ts:40-49 | kind `ConstraintDesc`, the given type and reference unchanged |
| Selectors.WellFormedHasKnownTypes | src/ts/taiko_types.ts:24-49 | a tree built by the constructors has only known types, so printing it cannot throw |
| Selectors.AttributeTexts | src/ts/taiko_types.ts:79-85 | one `k=v` text per attribute, in order |
| Selectors.ContentText | src/ts/taiko_types.ts:72-91 | `$(css)`, the raw text, `text box`, or `text box (k=v, …)` with the attribute texts joined by `, ` when attributes exist; an unknown type is a TypeError |
| Selectors.StringifyConstraint | src/ts/taiko_types.ts:51-67 | succeeds iff the types are known, and is then the whole text: above/below/to left of/to right of/near, a space, and the reference's description; an unknown type is a TypeError naming it, otherwise a failure is the reference's |
| Selectors.StringifyConstraints | src/ts/taiko_types.ts:70-71 | succeeds iff every constraint's types are known, with one text per constraint |
| Selectors.StringifyConstraintsValues | src/ts/taiko_types.ts:70-71 | each constraint's text sits at its own position, in order |
| Selectors.StringifyConstraintsFirstFailure | src/ts/taiko_types.ts:70-71 | a failure is the error of the first constraint that cannot be printed; all before it print |
| Selectors.StringifySelector | src/ts/taiko_types.ts:69-93 | succeeds iff every type is known, and is then the whole text: the selector text, a space, and the constraint texts joined by ` and `; the constraints' error wins over the content's |
| Selectors.StringifySelectorLayout | src/ts/taiko_types.ts:69-93 | the text of constraint j occurs at its join offset after the selector text and a space, so the constraints appear in order |
| Selectors.StringifySelectorSeparator | src/ts/taiko_types.ts:69-93 | ` and ` stands between the texts of consecutive constraints |
| Selectors.StringifySelectorEnd | src/ts/taiko_types.ts:69-93 | the text of the last constraint ends the description |
| Selectors.StringifyNested | src/ts/taiko_types.ts:51-93 | `text('a', below('b'))` prints as `a below b `: the reference's trailing space is kept inside |
| Selectors.LooseEquals | src/ts/find.ts:186 | values of one type compare strictly; a boolean and a string compare as numbers, so the string must read as 1 for `true` and 0 for `false` |
| Selectors.BlankLooselyFalse | src/ts/find.ts:186 | an empty or white-space string is `== false` and not `== true`, in either order |
| Selectors.WordsAreNotBooleans | src/ts/find.ts:186 | `"true" == true` and `"false" == false` are both false |
| Selectors.IntTextLooseEquals | src/ts/find.ts:186 | an integer's decimal text is `== true` iff the integer is 1, and `== false` iff it is 0 |
| JsNumber.StringToNumber | src/ts/find.ts:186 | a blank string converts to 0 |
| JsNumber.IntToStringToNumber | src/ts/find.ts:186 | printing an integer and converting the text back to a number gives the integer |
| JsNumber.DigitNumeralToNumber | src/ts/find.ts:186 | a run of decimal digits converts to the integer it denotes |
| JsNumber.LetterStartIsNaN | src/ts/find.ts:186 | a trimmed text starting with a letter other than a digit, sign, point or the `I` of `Infinity` converts to NaN |
| Builders.RelsOf | src/ts/taiko_ts.ts:415 | the constraints of exactly the relative arguments |
| Builders.RelsOfAppend | src/ts/taiko_ts.ts:434 | filtering distributes over concatenation, so order is kept |
| Builders.RelsOfRelArgs | src/ts/taiko_ts.ts:434 | filtering relative search elements gives back their constraints, in order |
| Builders.Lookup | src/ts/taiko_ts.ts:426-427 | a property read: none iff the key is absent, otherwise an entry's value |
| Builders.WithConstraints | src/ts/taiko_ts.ts:37-42 | same kind and content, constraints = old ++ new |
| Builders.Select | src/ts/taiko_ts.ts:29-62 | a string is a non-exact text selector; a list without relatives is returned as is and an element without relatives is wrapped as a list of itself with its own descriptor; a list or element keeps its descriptor's kind and content, and with relatives the constraints are appended in order and the cache is empty |
| Builders.SelectTextConstraints | src/ts/taiko_ts.ts:33-34 | `select(str, …)` builds the same descriptor as `text(str, …)` |
| Builders.SelectString | src/ts/taiko_ts.ts:33-34 | `select` on a string is `createSelectorDesc(text(str, exact false), relatives)` |
| Builders.Dollar | src/ts/taiko_ts.ts:406-418 | a cssSelector descriptor whose constraints are exactly the relative arguments' |
| Builders.ExactOption | src/ts/taiko_ts.ts:426-427 | exact iff the options are an object whose `exactMatch` is `true` |
| Builders.TextSelector | src/ts/taiko_ts.ts:420-437 | a text descriptor with the given string; its constraints are the relative arguments, the options argument included when it is relative |
| Builders.TextBoxAttributes | src/ts/taiko_ts.ts:444 | the first non-relative object argument, or none when there is none |
| Builders.TextBoxSelector | src/ts/taiko_ts.ts:439-453 | a textBox descriptor with those attributes and the relative arguments as constraints |
| Builders.RelativeApi | src/ts/taiko_ts.ts:457-468 | a constraint of the API's own type whose reference is `select(arg).selectorDesc`: a list's or element's own descriptor, or the non-exact text descriptor of a string |
| Builders.RelativeWellFormed | src/ts/taiko_ts.ts:457-462 | a proximity constraint on a well-formed reference is well-formed |
| Builders.BuildersWellFormed | src/ts/taiko_ts.ts:406-453 | `$`, `text` and `textBox` build well-formed descriptors from well-formed constraints |
| Builders.BuilderConstraintsInOrder | src/ts/taiko_ts.ts:406-453 | the builders keep the relative arguments' constraints in the order given |
| Builders.Press | src/ts/taiko_ts.ts:222-233 | every key down in order, a 10 ms pause, every key up in reverse order |
| Builders.PressNests | src/ts/taiko_ts.ts:222-233 | key k goes down at position k and up at position 2n − k, so a key pressed earlier is released later |
| Builders.ClickArgs | src/ts/taiko_ts.ts:128-130 | `button` defaults to `left`; a relative second argument becomes a constraint, not options |
| ElementList.NewList | src/ts/element_wrapper_list.ts:14-23 | an element wins and seeds the cache; otherwise the descriptor with an empty cache; with neither, a TypeError |
| ElementList.Wrap | src/ts/element_wrapper_list.ts:49-51 | one wrapper per id, in order, each carrying the list's descriptor |
| ElementList.ConditionSteps | src/ts/element_wrapper_list.ts:44-54 | the poll condition holds on a non-empty result and fails with the search's error |
| ElementList.Elements | src/ts/element_wrapper_list.ts:39-61 | a non-empty cache is returned without searching; a successful poll caches one wrapper per id; exhaustion gives the empty cache |
| ElementList.ElementsFindsFirst | src/ts/element_wrapper_list.ts:43-56 | with an empty cache, the first non-empty search found before the 3000 ms deadline fills the cache with one wrapper per id and is what `elements()` returns |
| ElementList.FirstElement | src/ts/element_wrapper_list.ts:62-64 | the head of `elements()`, or undefined |
| ElementList.ElementExists | src/ts/element_wrapper_list.ts:30-32 | true iff `elements()` is non-empty |
| ElementList.Description | src/ts/element_wrapper_list.ts:8-10 | the printed descriptor: succeeds iff its types are known, and is then the selector text, a space and the constraint texts joined by ` and ` |
| ElementList.ElementsCached | src/ts/element_wrapper_list.ts:40-42 | after a successful poll, later calls return the same list with no new search |
| ElementList.TimeoutSwallowed | src/ts/element_wrapper_list.ts:55-60 | a poll that finds nothing past 3000 ms returns the empty cache instead of throwing |
| ElementList.ElementsTerminates | src/ts/element_wrapper_list.ts:43-60 | at 100 ms intervals, 32 searches always bring `elements()` to an end |
| Retry.Poll | src/ts/util/async/retry.ts:32-48 | stops at the first returning evaluation or the first past the deadline; every earlier step continued |
| Retry.TimeoutMessage | src/ts/util/async/retry.ts:43-45 | "waiting failed: retryTimeout Nms exceeded" |
| Retry.WaitUntil | src/ts/util/async/retry.ts:22-49 | a falsy timeout returns without evaluating; returns on the first true; fails only strictly past the deadline, after an evaluation that did not return true, with that step's error or the timeout message |
| Retry.WithRetry | src/ts/util/async/retry.ts:4-20 | the first successful result, or the latest error once strictly past the deadline |
| Retry.PacedReadings | src/ts/util/async/retry.ts:47 | with the loop's pause, the j-th reading is at least start + j·interval |
| Retry.PollBound | src/ts/util/async/retry.ts:30-47 | at most timeout / interval + 2 evaluations, and a long enough trace always ends |
| Retry.WaitUntilBound | src/ts/util/async/retry.ts:22-49 | the same bound for `waitUntil` at its default interval |
| Decorators.HookName | src/ts/util/decorators.ts:26 | `fnName` when given, else `fn.name` |
| Decorators.CatchPath | src/ts/util/decorators.ts:56-61 | `onError` runs once with the error, which is rethrown unless the hook throws its own |
| Decorators.AfterCall | src/ts/util/decorators.ts:29-61 | a promise stays a promise, and completing hooks pass the outcome through |
| Decorators.Decorated | src/ts/util/decorators.ts:23-62 | `onCalled` first; a throwing `onCalled` stops the call; otherwise `fn` runs exactly once, promises stay promises, and completing hooks leave the outcome as `fn` gave it |
| Decorators.NoHooksPassThrough | src/ts/util/decorators.ts:29-61 | without hooks the decorated call is exactly `fn` |
| Decorators.SyncReturnOrder | src/ts/util/decorators.ts:50-55 | `onReturned` runs after `fn`, and the same result is returned |
| Decorators.SyncThrowOrder | src/ts/util/decorators.ts:56-60 | `onError` runs after `fn`, and the same error is rethrown |
| Decorators.ReturnedHookThrows | src/ts/util/decorators.ts:31-60 | a throwing `onReturned` reaches `onError` on the sync path but only rejects the promise on the async path |
| Decorators.AsyncOrder | src/ts/util/decorators.ts:31-48 | the resolved value or the rejection is passed on after its hook completes |
| PageHandler.ResolvedFrameId | src/handlers/pageHandler.js:81 | `p.frameId` when set, else `p.frame.frameId` |
| PageHandler.EmitNavigation | src/handlers/pageHandler.js:66-78 | adds a navigation marker only for a frame without one; the load map is untouched |
| PageHandler.ResolveNavigation | src/handlers/pageHandler.js:80-87 | resolves and deletes an existing marker, otherwise changes nothing; the load map is untouched |
| PageHandler.EmitLoad | src/handlers/pageHandler.js:89-101 | the same create-if-absent rule on the load map alone |
| PageHandler.ResolveLoad | src/handlers/pageHandler.js:103-109 | the same resolve-and-delete rule on the load map alone |
| PageHandler.Handle | src/handlers/pageHandler.js:10-64 | each family touches only its own map; a reset empties both; only an open marker is resolved |
| PageHandler.HandleTracks | src/handlers/pageHandler.js:61-109 | one event keeps the markers equal to the frames with an emitted, unresolved, unreset promise |
| PageHandler.RunTracks | src/handlers/pageHandler.js:61-109 | the same invariant along any run of events |
| PageHandler.SessionTracks | src/handlers/pageHandler.js:10-13 | from a new session the markers mirror the effects emitted so far |
| PageHandler.EmitCoalesces | src/handlers/pageHandler.js:66-101 | a second scheduled navigation or load start for a frame changes nothing |
| PageHandler.ResetAbandons | src/handlers/pageHandler.js:61-64 | `resetPromises` drops an open marker without resolving it |
| PageHandler.RequestUrl | src/handlers/pageHandler.js:127-130 | the url, with the fragment appended when there is one |
| PageHandler.FirstAccepted | src/handlers/pageHandler.js:123-146 | the first response whose request id equals the one captured so far, and none before it |
| PageHandler.ReasonMessage | src/handlers/pageHandler.js:150-152 | the "REASON" failure message for the url |
| PageHandler.StatusMessage | src/handlers/pageHandler.js:153-158 | the "STATUS" failure message for the url |
| PageHandler.HandleNavigation | src/handlers/pageHandler.js:120-163 | listeners are removed iff it settles; `errorText` rejects with REASON; otherwise the first accepted response decides, rejecting on status ≥ 400 |
| PageHandler.UrlLessRequestIgnored | src/handlers/pageHandler.js:124-126 | a request without a url leaves the captured id as it was |
| PageHandler.SameDocumentSucceeds | src/handlers/pageHandler.js:28-38 | a same-document navigation succeeds through the synthetic 200 response |
| PageHandler.CapturedIdFiltersSameDocument | src/handlers/pageHandler.js:132-142 | once a request id is captured, the synthetic response is not accepted |
| Navigation.WaitForNavigationResult | src/doActionAwaitingNavigation.js:32-53 | resolves iff the readiness poll finds the page ready before the timer, else rejects with 'Timedout' |
| Navigation.TimeoutError | src/doActionAwaitingNavigation.js:24-26 | an Error naming the navigation timeout in ms |
| Navigation.Translate | src/doActionAwaitingNavigation.js:22-29 | 'Timedout' becomes the timeout Error; anything else passes unchanged |
| Navigation.DoActionAwaitingNavigation | src/doActionAwaitingNavigation.js:8-30 | the action runs once; with the opt-out nothing is reset; otherwise both resets precede it, the timeout defaults, and success needs the action and a timely poll |
| Navigation.MarkersNotAwaited | src/doActionAwaitingNavigation.js:12-20 | the outcome does not depend on the page markers, which are reset and never awaited |
| Navigation.ActionTimedoutString | src/doActionAwaitingNavigation.js:9-29 | an action throwing 'Timedout' is reported as the navigation timeout only when waiting |
| Navigation.WaitStartsClean | src/doActionAwaitingNavigation.js:12-13 | during the wait the markers are exactly the promises emitted after the reset and still open |
| Session.PrefixUrl | src/taiko.js:1013-1015 | a url without `http(s)://` (any case) that does not start with `file` gets `http://`; others are unchanged |
| Session.PrefixUrlIdempotent | src/taiko.js:1013-1015 | the result always has a kept scheme, so prefixing twice is prefixing once |
| Session.OpenTabTarget | src/taiko.js:640-660 | the prefixed url (about:blank when none), routed through `doActionAwaitingNavigation` iff it does not contain `about:blank` |
| Session.OpenTabBlank | src/taiko.js:640-660 | no url opens `http://` + `about:blank` without a navigation wait |
| Session.CrashMessage | src/taiko.js:418-426 | names the pid, then the signal when the exit code is null and the status code otherwise |
| Session.HasCrashed | src/taiko.js:195-197 | crashed iff there is a process, it was killed, and its exit code is not 0 (a null exit code counts) |
| Session.Validate | src/taiko.js:1335-1349 | passes iff there is a client with readyState ≤ 1; "not initialized" without one; otherwise the closed/crashed or lost-connection message |
| Session.TranslateCommandError | src/taiko.js:105-112 | a closed-socket error while crashed becomes the crash message; every other message is unchanged |
| Session.InitCri | src/taiko.js:140-179 | between 1 and max(n, 1) attempts; connects on the first success; fails with the last error once n < 2 |
| Session.ConnectionAttemptsBounded | src/taiko.js:140-179 | with the default of 10 retries, at most 10 attempts are made |
| Session.ClientAccess | src/taiko.js:428-445 | the five listener methods throw "Unsupported action X on client"; every other name passes |
| Session.Go | src/taiko.js:1105-1121 | none when the entry at current + delta does not exist; an about:blank entry turns off the wait unless it was set explicitly |
| Session.GoKeepsExplicitWait | src/taiko.js:1111-1116 | an explicit `waitForNavigation` always wins |
| Session.SwitchTo | src/taiko.js:473-499 | validate first; then a TypeError for a non-string non-RegExp argument, the empty-target Error for a blank string, "No tab(s) matching … found" when nothing matches, else the first match |
| Session.BlankNeverSwitches | src/taiko.js:487-491 | a white-space string fails before any tab is looked up |

## Left out

- Browser-side DOM access in `find.ts` (TreeWalker, `querySelectorAll`, ranges,
  `getBoundingClientRect`): replaced by a snapshot of nodes with kind, text,
  parent, input fields and an optional rect. The CSS engine is the snapshot's
  map from query to matching ids.
- Find.GetDistance: rect coordinates are integers, not floats. The `near`
  distance (`Math.sqrt` of the centre offsets) is the snapshot's abstract
  `centreDistance`, a natural number, so only its non-negativity is used.
- `src/ts/util/dom/at_point.ts`, `isVisible`/`isDisabled` and the rest of
  `element_wrapper.ts`: hit-testing and computed styles are browser state.
- Browser process spawning, endpoint discovery and `browserFetcher.js`; the
  chrome-remote-interface connection itself, `cri.List`/`New`/`Close` and
  the `isReachable` polling in `reconnect`. Their results are inputs
  (`Process`, the `attempt` function of `InitCri`).
- Session.InitCri: the 1000 ms pause between attempts is not modelled.
  `TAIKO_CRI_CONNECTION_RETRIES` is taken as an integer, not an environment
  string.
- Real timers and promise races. Time is a trace of readings (`Retry`), and
  the navigation wait is the poll's end time against the timeout. A poll that
  ends exactly at the timeout loses the race.
- Navigation.WaitForNavigationResult: the readiness poll lives in
  `helper.js`, which is not part of this model. Only when and how it ends is
  an input.
- Navigation.DoActionAwaitingNavigation: `networkHandler.resetPromises` is
  recorded as a step only; `networkHandler.js` is not part of this model.
  `config.js` and `setNavigationOptions` are not part of this model either:
  the default timeout is a parameter.
- URL normalization, redirect handling and `isSameUrl` are the abstract
  `UrlOps` of `PageHandler`.
- PageHandler.Handle: the marker maps hold no promise objects. Each map is
  the set of frames with an open marker, and resolving a marker is an
  emitted effect.
- The `observe` delay, the success-event stream and `logger.js`.
- Session.TranslateCommandError: only errors with a `message` are modelled.
  A thrown value without one (where `e.message.match` itself would throw) is
  left out.
- Session.SwitchTo: the object form of the argument (an incognito context
  name) and the target lookup itself are left out. The matching tabs are an
  input.
- Find.TextBoxCandidates: attribute values and DOM properties are booleans or
  strings only. Number, null, undefined and object values (such as a
  numeric `maxLength`) are not modelled, so their loose comparisons are left
  out.
- JsNumber.StringToNumber: a finite result is an exact real. Rounding to the
  nearest double is not modelled, so two numerals that round to the same
  double can compare unequal here.
- Builders.Select: the relatives are typed as constraint descriptors. In the
  list and element cases the source maps every argument's `desc` without
  filtering (src/ts/taiko_ts.ts:39-41, 51-53); a non-relative argument there
  is not modelled.
- PageHandler.ResolvedFrameId: a payload with neither `frameId` nor `frame`
  makes the source throw a TypeError. The model reads it as naming no frame
  and changes nothing.
- Session.Go: `_go` writes `waitForNavigation: false` into the caller's
  options object. The model returns the effective options instead. An own
  property holding `undefined` counts as explicit in the source and cannot
  be told apart from an absent one here.
- Retry.WaitUntil: `None` is an omitted or `undefined` timeout, which takes
  the default. A `null` timeout is falsy and returns at once in the source;
  the model has no `null`, so that case is not modelled.
- Find.ElementNode: `props` and the `value`, `placeholder` and `inputType`
  fields are independent in a snapshot. In the browser `props["value"]` and
  `value` read the same DOM property; the model does not tie them together,
  so the text-box filter and text matching may see different values.
- Retry.Outcome: `Err` is a thrown `Error` object. A falsy thrown value,
  which src/ts/util/async/retry.ts:42 replaces with the timeout message, is not modelled.
- Selectors.ContentText: attribute values print as booleans or strings. Other
  JavaScript values inside a text-box attribute object are not modelled.
- Thin protocol passthroughs: cookies, permissions, emulation, dialogs,
  `title`/`currentURL`, and the input dispatch of
  `click`/`hover`/`tap`/`write`/`clear`. Only the option parsing of `click`
  and the key order of `press` are modelled.
- `relative_search_element.ts` is folded into the builders' `Rel` argument.
  `assert.ts`, `wait.ts` and `logger.js` are left out as glue.
