/** The navigation markers and the navigate-response check of
    src/handlers/pageHandler.js.

    The two objects `frameNavigationPromise` and `framePromises` map a
    frame id to the resolver of a promise the handler has emitted; only
    which frames hold an unresolved marker matters, so each map is a set of
    frame ids. Emitting and resolving a promise show as effects. The model
    starts at `createdSession`, where both maps are first set to `{}`. */
module PageHandler {
  import opened Wrappers
  import opened Strings

  type FrameId = string

  /** Frames with an unresolved navigation marker, and frames with an
      unresolved load marker. */
  datatype Markers = Markers(navigation: set<FrameId>, load: set<FrameId>)

  /** The maps as `createdSession` and `resetPromises` leave them. */
  const NoMarkers := Markers({}, {})

  /** The parameter of a cleared/navigated event: `p.frameId` (`""` when
      absent) and `p.frame.frameId` (`None` when there is no `p.frame`). */
  datatype FrameRef = FrameRef(frameId: string, frame: Option<FrameId>)

  datatype Response = Response(status: int, statusText: string)

  /** The payload of a `responseReceived` event. */
  datatype ResponseEvent = ResponseEvent(requestId: Option<string>, response: Response, samePageNavigation: bool)

  /** The page events the handler listens to, and `resetPromises()`. */
  datatype PageEvent =
    | FrameScheduledNavigation(frameId: FrameId)
    | FrameClearedScheduledNavigation(ref: FrameRef)
    | FrameNavigated(ref: FrameRef)
    | FrameStartedLoading(frameId: FrameId)
    | FrameStoppedLoading(frameId: FrameId)
    | NavigatedWithinDocument
    | ResetPromises
  {
    predicate IsNavigationFamily() {
      FrameScheduledNavigation? || FrameClearedScheduledNavigation? || FrameNavigated?
    }
    predicate IsLoadFamily() {
      FrameStartedLoading? || FrameStoppedLoading?
    }
  }

  /** What handling an event does besides changing the markers. */
  datatype Effect =
    | NavigationStarted(frameId: FrameId)   // a `frameNavigationEvent` promise is emitted
    | NavigationResolved(frameId: FrameId)  // that promise is resolved
    | LoadStarted(frameId: FrameId)         // a `frameEvent` promise is emitted
    | LoadResolved(frameId: FrameId)        // that promise is resolved
    | LoadEventFired
    | ResponseReceived(event: ResponseEvent)
    | MarkersDropped                        // both maps replaced by `{}`

  /** The response `navigatedWithinDocument` announces: such a navigation
      always succeeds. It carries no request id. */
  const SameDocumentResponse := ResponseEvent(None, Response(200, ""), true)

  /** `p.frameId ? p.frameId : p.frame.frameId`; `None` when both are
      missing, where reading `p.frame.frameId` throws. */
  function ResolvedFrameId(ref: FrameRef): (r: Option<FrameId>)
    ensures ref.frameId != "" ==> r == Some(ref.frameId)
    ensures ref.frameId == "" ==> r == ref.frame
  {
    if ref.frameId != "" then Some(ref.frameId) else ref.frame
  }

  /** `emitFrameNavigationEvent`: a marker only for a frame without one. */
  function EmitNavigation(m: Markers, f: FrameId): (r: (Markers, seq<Effect>))
    ensures r.0.navigation == m.navigation + {f} && r.0.load == m.load
    ensures r.1 == if f in m.navigation then [] else [NavigationStarted(f)]
  {
    if f in m.navigation then (m, []) else (m.(navigation := m.navigation + {f}), [NavigationStarted(f)])
  }

  /** `resolveFrameNavigationEvent`: resolve and delete an existing marker;
      nothing otherwise. */
  function ResolveNavigation(m: Markers, f: FrameId): (r: (Markers, seq<Effect>))
    ensures r.0.navigation == m.navigation - {f} && r.0.load == m.load
    ensures r.1 == if f in m.navigation then [NavigationResolved(f)] else []
  {
    if f in m.navigation then (m.(navigation := m.navigation - {f}), [NavigationResolved(f)]) else (m, [])
  }

  /** `emitFrameEvent`. */
  function EmitLoad(m: Markers, f: FrameId): (r: (Markers, seq<Effect>))
    ensures r.0.load == m.load + {f} && r.0.navigation == m.navigation
    ensures r.1 == if f in m.load then [] else [LoadStarted(f)]
  {
    if f in m.load then (m, []) else (m.(load := m.load + {f}), [LoadStarted(f)])
  }

  /** `resolveFrameEvent`. */
  function ResolveLoad(m: Markers, f: FrameId): (r: (Markers, seq<Effect>))
    ensures r.0.load == m.load - {f} && r.0.navigation == m.navigation
    ensures r.1 == if f in m.load then [LoadResolved(f)] else []
  {
    if f in m.load then (m.(load := m.load - {f}), [LoadResolved(f)]) else (m, [])
  }

  /** One event, through the listener `createdSession` registered for it. */
  function Handle(m: Markers, e: PageEvent): (r: (Markers, seq<Effect>))
    // each family keeps to its own map
    ensures e.IsNavigationFamily() ==> r.0.load == m.load
    ensures e.IsLoadFamily() ==> r.0.navigation == m.navigation
    ensures e.NavigatedWithinDocument? ==> r.0 == m
    ensures e.ResetPromises? ==> r.0 == NoMarkers
    // a promise is resolved only while its marker is open
    ensures forall f :: NavigationResolved(f) in r.1 ==> f in m.navigation && f !in r.0.navigation
    ensures forall f :: LoadResolved(f) in r.1 ==> f in m.load && f !in r.0.load
  {
    match e
    case FrameScheduledNavigation(f) => EmitNavigation(m, f)
    case FrameClearedScheduledNavigation(ref) =>
      if ResolvedFrameId(ref).Some? then ResolveNavigation(m, ResolvedFrameId(ref).value) else (m, [])
    case FrameNavigated(ref) =>
      if ResolvedFrameId(ref).Some? then ResolveNavigation(m, ResolvedFrameId(ref).value) else (m, [])
    case FrameStartedLoading(f) => EmitLoad(m, f)
    case FrameStoppedLoading(f) => ResolveLoad(m, f)
    case NavigatedWithinDocument => (m, [LoadEventFired, ResponseReceived(SameDocumentResponse)])
    case ResetPromises => (NoMarkers, [MarkersDropped])
  }

  /** A run of events, one after the other. */
  function Run(m: Markers, es: seq<PageEvent>): (r: (Markers, seq<Effect>))
    decreases |es|
  {
    if |es| == 0 then (m, [])
    else
      var (m1, out1) := Handle(m, es[0]);
      var (m2, out2) := Run(m1, es[1..]);
      (m2, out1 + out2)
  }

  // ---------------------------------------------------------------------
  // Markers against the effects log

  /** Whether the log leaves frame `f` with an emitted navigation promise
      that is still unresolved: its last navigation effect for `f`, since
      the last drop, is a start. */
  predicate OpenNavigation(log: seq<Effect>, f: FrameId)
    decreases |log|
  {
    if |log| == 0 then false
    else
      match log[|log| - 1]
      case NavigationStarted(g) => if g == f then true else OpenNavigation(log[..|log| - 1], f)
      case NavigationResolved(g) => if g == f then false else OpenNavigation(log[..|log| - 1], f)
      case MarkersDropped => false
      case _ => OpenNavigation(log[..|log| - 1], f)
  }

  /** The same for load promises. */
  predicate OpenLoad(log: seq<Effect>, f: FrameId)
    decreases |log|
  {
    if |log| == 0 then false
    else
      match log[|log| - 1]
      case LoadStarted(g) => if g == f then true else OpenLoad(log[..|log| - 1], f)
      case LoadResolved(g) => if g == f then false else OpenLoad(log[..|log| - 1], f)
      case MarkersDropped => false
      case _ => OpenLoad(log[..|log| - 1], f)
  }

  /** The markers are exactly the frames whose promise is open in the log. */
  ghost predicate Tracks(m: Markers, log: seq<Effect>) {
    && (forall f :: f in m.navigation <==> OpenNavigation(log, f))
    && (forall f :: f in m.load <==> OpenLoad(log, f))
  }

  lemma {:induction false} OpenAppendOne(log: seq<Effect>, x: Effect, f: FrameId)
    ensures OpenNavigation(log + [x], f) == match x
                                           case NavigationStarted(g) => g == f || OpenNavigation(log, f)
                                           case NavigationResolved(g) => g != f && OpenNavigation(log, f)
                                           case MarkersDropped => false
                                           case _ => OpenNavigation(log, f)
    ensures OpenLoad(log + [x], f) == match x
                                     case LoadStarted(g) => g == f || OpenLoad(log, f)
                                     case LoadResolved(g) => g != f && OpenLoad(log, f)
                                     case MarkersDropped => false
                                     case _ => OpenLoad(log, f)
  {
    assert (log + [x])[..|log|] == log;
  }

  lemma {:induction false} HandleTracks(m: Markers, log: seq<Effect>, e: PageEvent)
    requires Tracks(m, log)
    ensures Tracks(Handle(m, e).0, log + Handle(m, e).1)
  {
    var (m', out) := Handle(m, e);
    assert |out| <= 2;
    if |out| == 0 {
      assert log + out == log;
    } else if |out| == 1 {
      forall f ensures f in m'.navigation <==> OpenNavigation(log + out, f) {
        OpenAppendOne(log, out[0], f);
      }
      forall f ensures f in m'.load <==> OpenLoad(log + out, f) {
        OpenAppendOne(log, out[0], f);
      }
    } else {
      assert out == [LoadEventFired, ResponseReceived(SameDocumentResponse)];
      assert log + out == (log + [LoadEventFired]) + [ResponseReceived(SameDocumentResponse)];
      forall f ensures f in m'.navigation <==> OpenNavigation(log + out, f) {
        OpenAppendOne(log, LoadEventFired, f);
        OpenAppendOne(log + [LoadEventFired], ResponseReceived(SameDocumentResponse), f);
      }
      forall f ensures f in m'.load <==> OpenLoad(log + out, f) {
        OpenAppendOne(log, LoadEventFired, f);
        OpenAppendOne(log + [LoadEventFired], ResponseReceived(SameDocumentResponse), f);
      }
    }
  }

  /** Along any run, a frame holds a marker exactly when the promise
      emitted for it is still unresolved; in particular no promise is
      resolved twice, and a frame's duplicate start events coalesce. */
  lemma {:induction false} RunTracks(m: Markers, log: seq<Effect>, es: seq<PageEvent>)
    requires Tracks(m, log)
    ensures Tracks(Run(m, es).0, log + Run(m, es).1)
    decreases |es|
  {
    if |es| > 0 {
      var (m1, out1) := Handle(m, es[0]);
      HandleTracks(m, log, es[0]);
      RunTracks(m1, log + out1, es[1..]);
      assert log + out1 + Run(m1, es[1..]).1 == log + (out1 + Run(m1, es[1..]).1);
    } else {
      assert log + Run(m, es).1 == log;
    }
  }

  /** From a fresh session, the markers mirror the effects so far. */
  lemma SessionTracks(es: seq<PageEvent>)
    ensures Tracks(Run(NoMarkers, es).0, Run(NoMarkers, es).1)
  {
    RunTracks(NoMarkers, [], es);
    assert [] + Run(NoMarkers, es).1 == Run(NoMarkers, es).1;
  }

  /** A second scheduled navigation for the same frame changes nothing. */
  lemma {:induction false} EmitCoalesces(m: Markers, f: FrameId)
    ensures var (m1, out1) := Handle(m, FrameScheduledNavigation(f));
            Handle(m1, FrameScheduledNavigation(f)) == (m1, [])
    ensures var (m1, out1) := Handle(m, FrameStartedLoading(f));
            Handle(m1, FrameStartedLoading(f)) == (m1, [])
  {
    var m1 := Handle(m, FrameScheduledNavigation(f)).0;
    assert f in m1.navigation;
    var m2 := Handle(m, FrameStartedLoading(f)).0;
    assert f in m2.load;
  }

  /** `resetPromises` drops open markers without resolving them: the
      promises already emitted for them never settle through this handler. */
  lemma ResetAbandons(m: Markers, f: FrameId)
    requires f in m.navigation
    ensures var (m1, out1) := Handle(m, ResetPromises);
            f !in m1.navigation && NavigationResolved(f) !in out1
  {
  }

  // ---------------------------------------------------------------------
  // handleNavigation

  /** The `url` library's parsing and redirect handling
      (`normalizeAndHandleRedirection`) and `isSameUrl` are not part of this
      model; a navigation is checked against whatever they compute. */
  datatype UrlOps = UrlOps(normalize: string -> string, same: (string, string) -> bool)

  /** `request.request` of a `requestStarted` event; `url` is `""` when the
      event carries no request or no url. */
  datatype Request = Request(requestId: Option<string>, url: string, urlFragment: Option<string>)

  datatype NetEvent = RequestStarted(request: Request) | ResponseArrived(event: ResponseEvent)

  /** The url the request is compared by: with its fragment appended when
      there is one. */
  function RequestUrl(req: Request): (u: string)
    ensures req.urlFragment.None? ==> u == req.url
    ensures req.urlFragment.Some? ==> IsPrefix(req.url, u) && |u| == |req.url| + |req.urlFragment.value|
  {
    if req.urlFragment.Some? then req.url + req.urlFragment.value else req.url
  }

  /** A request `handleRequest` records: it has a url, and once normalized
      that url is the one being navigated to. */
  predicate Matches(ops: UrlOps, target: string, e: NetEvent) {
    e.RequestStarted? && e.request.url != "" && ops.same(ops.normalize(RequestUrl(e.request)), target)
  }

  /** The request id `handleRequest` holds after the events `evs`: that of
      the last matching request, undefined (`None`) when none matched. */
  function CapturedBy(ops: UrlOps, target: string, evs: seq<NetEvent>): Option<string>
    decreases |evs|
  {
    if |evs| == 0 then None
    else if Matches(ops, target, evs[|evs| - 1]) then evs[|evs| - 1].request.requestId
    else CapturedBy(ops, target, evs[..|evs| - 1])
  }

  /** `requestId === response.requestId`, undefined equal to undefined. */
  predicate Accepts(ops: UrlOps, target: string, evs: seq<NetEvent>, j: nat)
    requires j < |evs|
  {
    evs[j].ResponseArrived? && evs[j].event.requestId == CapturedBy(ops, target, evs[..j])
  }

  /** The listeners' scan from event `i`, holding the captured id; the
      index and payload of the first response the pending promise takes. */
  function FirstAccepted(ops: UrlOps, target: string, evs: seq<NetEvent>, i: nat, captured: Option<string>)
    : (r: Option<(nat, Response)>)
    requires i <= |evs| && captured == CapturedBy(ops, target, evs[..i])
    ensures r.Some? ==> i <= r.value.0 < |evs| && Accepts(ops, target, evs, r.value.0)
                        && r.value.1 == evs[r.value.0].event.response
    ensures forall j :: i <= j < |evs| && (r.None? || j < r.value.0) ==> !Accepts(ops, target, evs, j)
    decreases |evs| - i
  {
    if i == |evs| then None
    else
      assert evs[..i + 1] == evs[..i] + [evs[i]];
      assert (evs[..i] + [evs[i]])[..i] == evs[..i];
      match evs[i]
      case ResponseArrived(ev) =>
        if ev.requestId == captured then Some((i, ev.response))
        else FirstAccepted(ops, target, evs, i + 1, captured)
      case RequestStarted(req) =>
        FirstAccepted(ops, target, evs, i + 1, if Matches(ops, target, evs[i]) then req.requestId else captured)
  }

  datatype NavigationOutcome = Navigated(response: Response) | Rejected(message: string) | AwaitingResponse

  /** The outcome, and whether both listeners have been removed. */
  datatype NavigationEnd = NavigationEnd(outcome: NavigationOutcome, listenersRemoved: bool)

  function ReasonMessage(url: string, errorText: string): (m: string)
    ensures IsPrefix("Navigation to url " + url + " failed.\n REASON: ", m)
  {
    "Navigation to url " + url + " failed.\n REASON: " + errorText
  }

  function StatusMessage(url: string, r: Response): (m: string)
    ensures IsPrefix("Navigation to url " + url + " failed.\n STATUS: ", m)
  {
    "Navigation to url " + url + " failed.\n STATUS: " + IntToString(r.status) + ", STATUS_TEXT: " + r.statusText
  }

  /** `handleNavigation(url)`: `page.navigate` reported `errorText` (`""`
      for none) and `evs` are the request/response events the listeners
      saw before the call settled. */
  function HandleNavigation(ops: UrlOps, url: string, errorText: string, evs: seq<NetEvent>)
    : (r: NavigationEnd)
    // both listeners are removed exactly when the call has settled
    ensures r.listenersRemoved <==> !r.outcome.AwaitingResponse?
    // a reported error fails the navigation, whatever the responses
    ensures errorText != "" ==> r.outcome == Rejected(ReasonMessage(url, errorText))
    ensures errorText == "" ==>
              var url' := ops.normalize(url);
              match r.outcome
              case Navigated(resp) =>
                resp.status < 400 &&
                exists j :: 0 <= j < |evs| && Accepts(ops, url', evs, j) && evs[j].event.response == resp
                  && forall k :: 0 <= k < j ==> !Accepts(ops, url', evs, k)
              case Rejected(msg) =>
                exists j :: 0 <= j < |evs| && Accepts(ops, url', evs, j) && evs[j].event.response.status >= 400
                  && msg == StatusMessage(url, evs[j].event.response)
                  && forall k :: 0 <= k < j ==> !Accepts(ops, url', evs, k)
              case AwaitingResponse =>
                forall j :: 0 <= j < |evs| ==> !Accepts(ops, url', evs, j)
  {
    if errorText != "" then NavigationEnd(Rejected(ReasonMessage(url, errorText)), true)
    else
      assert evs[..0] == [];
      match FirstAccepted(ops, ops.normalize(url), evs, 0, None)
      case None => NavigationEnd(AwaitingResponse, false)
      case Some((_, resp)) =>
        if resp.status >= 400 then NavigationEnd(Rejected(StatusMessage(url, resp)), true)
        else NavigationEnd(Navigated(resp), true)
  }

  /** A request without a url leaves the captured id as it was. */
  lemma {:induction false} UrlLessRequestIgnored(ops: UrlOps, target: string, evs: seq<NetEvent>,
                                                 id: Option<string>, fragment: Option<string>)
    ensures CapturedBy(ops, target, evs + [RequestStarted(Request(id, "", fragment))]) == CapturedBy(ops, target, evs)
  {
    assert (evs + [RequestStarted(Request(id, "", fragment))])[..|evs|] == evs;
  }

  /** A same-document navigation succeeds through the synthetic response
      when no request has been captured: undefined equals undefined. */
  lemma SameDocumentSucceeds(ops: UrlOps, url: string, evs: seq<NetEvent>)
    requires |evs| > 0 && evs[0] == ResponseArrived(SameDocumentResponse)
    ensures HandleNavigation(ops, url, "", evs) == NavigationEnd(Navigated(Response(200, "")), true)
  {
    assert Accepts(ops, ops.normalize(url), evs, 0) by {
      assert evs[..0] == [];
    }
  }

  /** Once a request with an id has matched, the synthetic response no
      longer resolves the navigation. */
  lemma {:induction false} CapturedIdFiltersSameDocument(ops: UrlOps, url: string, req: Request, id: string)
    requires Matches(ops, ops.normalize(url), RequestStarted(req)) && req.requestId == Some(id)
    ensures HandleNavigation(ops, url, "", [RequestStarted(req), ResponseArrived(SameDocumentResponse)]).outcome
            == AwaitingResponse
  {
    var evs := [RequestStarted(req), ResponseArrived(SameDocumentResponse)];
    var target := ops.normalize(url);
    assert evs[..1] == [RequestStarted(req)];
    assert evs[..1][..0] == [];
    assert CapturedBy(ops, target, evs[..1]) == Some(id);
    assert !Accepts(ops, target, evs, 1);
    assert evs[..0] == [];
    assert !Accepts(ops, target, evs, 0);
  }
}
