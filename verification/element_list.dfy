/** The lazily searched element list of src/ts/element_wrapper_list.ts.

    The object's one mutable field, the cache `_elements`, becomes part of
    an immutable value that `Elements` returns updated. Each `find` the
    poll makes is one step of a clock trace (see module Retry). */
module ElementList {
  import opened Wrappers
  import opened Strings
  import opened Selectors
  import opened Retry

  /** `ElementWrapper`: a node id and the descriptor it was found by. */
  datatype ElementWrapper = ElementWrapper(nodeId: string, selectorDesc: SelectorDesc)

  /** `ElementWrapperList`: its descriptor and its `_elements` cache. */
  datatype ElementWrapperList = ElementWrapperList(selectorDesc: SelectorDesc, cache: seq<ElementWrapper>)

  /** `TypeError('expected selectorDesct or element')`. */
  datatype ListError = ExpectedSelectorOrElement

  const PollInterval := 100
  const PollTimeout := 3000

  /** The constructor: a given element wins over a given descriptor and
      seeds the cache; with neither it throws. */
  function NewList(selectorDesc: Option<SelectorDesc>, element: Option<ElementWrapper>)
    : (r: Result<ElementWrapperList, ListError>)
    ensures r.Failure? <==> selectorDesc.None? && element.None?
    ensures r.Success? ==> r.value.selectorDesc == if element.Some? then element.value.selectorDesc
                                                   else selectorDesc.value
    ensures r.Success? ==> (|r.value.cache| > 0 <==> element.Some?)
    ensures r.Success? && element.Some? ==> r.value.cache == [element.value]
  {
    if element.Some? then Success(ElementWrapperList(element.value.selectorDesc, [element.value]))
    else if selectorDesc.Some? then Success(ElementWrapperList(selectorDesc.value, []))
    else Failure(ExpectedSelectorOrElement)
  }

  /** One wrapper per id, in order, each carrying `sd`. */
  function Wrap(ids: seq<string>, sd: SelectorDesc): (r: seq<ElementWrapper>)
    ensures |r| == |ids|
    ensures forall k :: 0 <= k < |ids| ==> r[k] == ElementWrapper(ids[k], sd)
  {
    seq(|ids|, k requires 0 <= k < |ids| => ElementWrapper(ids[k], sd))
  }

  /** One call of `find` during the poll: the ids found or the error
      thrown, and the clock reading after the condition returned. */
  datatype Search = Search(found: Result<seq<string>, string>, now: int)

  /** The poll condition's view of a search: true on a non-empty result,
      false on an empty one, a throw on an error. */
  function ConditionStep(s: Search): Step<()> {
    match s.found
    case Success(ids) => Step(if |ids| > 0 then Ok(()) else NotYet, s.now)
    case Failure(e) => Step(Err(e), s.now)
  }

  function ConditionSteps(searches: seq<Search>): (r: seq<Step<()>>)
    ensures |r| == |searches|
    ensures forall k :: 0 <= k < |searches| ==> r[k] == ConditionStep(searches[k])
  {
    seq(|searches|, k requires 0 <= k < |searches| => ConditionStep(searches[k]))
  }

  /** `elements()`: the cache when it is non-empty, without searching;
      otherwise a `waitUntil` poll (every 100 ms for up to 3000 ms) that
      fills the cache from the first non-empty `find`, its failure
      swallowed. `None` when the trace ends before the poll does. */
  function Elements(list: ElementWrapperList, searches: seq<Search>, start: int)
    : (r: Option<(ElementWrapperList, seq<ElementWrapper>)>)
    ensures |list.cache| > 0 ==> r == Some((list, list.cache))
    ensures r.Some? ==> r.value.0.selectorDesc == list.selectorDesc && r.value.1 == r.value.0.cache
    ensures r.Some? && |list.cache| == 0 && |r.value.1| > 0 ==>
              exists n :: 0 <= n < |searches| && searches[n].found == Success(IdsOf(r.value.1))
    ensures r.Some? && |list.cache| == 0 ==>
              forall k :: 0 <= k < |r.value.1| ==> r.value.1[k].selectorDesc == list.selectorDesc
  {
    if |list.cache| > 0 then Some((list, list.cache))
    else
      var steps := ConditionSteps(searches);
      match WaitUntil(steps, start, Some(PollTimeout))
      case Finished(_, n) =>
        var ids := searches[n - 1].found.value;
        var cache := Wrap(ids, list.selectorDesc);
        assert IdsOf(cache) == ids;
        Some((list.(cache := cache), cache))
      case Failed(_, _) => Some((list, list.cache))
      case Pending(_) => None
  }

  function IdsOf(ws: seq<ElementWrapper>): (r: seq<string>)
    ensures |r| == |ws|
    ensures forall k :: 0 <= k < |ws| ==> r[k] == ws[k].nodeId
  {
    seq(|ws|, k requires 0 <= k < |ws| => ws[k].nodeId)
  }

  /** `firstElement()`: the head of `elements()`, or undefined. */
  function FirstElement(list: ElementWrapperList, searches: seq<Search>, start: int)
    : (r: Option<(ElementWrapperList, Option<ElementWrapper>)>)
    ensures r.Some? <==> Elements(list, searches, start).Some?
    ensures r.Some? ==> r.value.0 == Elements(list, searches, start).value.0
    ensures r.Some? ==> (r.value.1.Some? <==> |r.value.0.cache| > 0)
    ensures r.Some? && r.value.1.Some? ==> r.value.1.value == r.value.0.cache[0]
  {
    match Elements(list, searches, start)
    case None => None
    case Some((list', elems)) => Some((list', if |elems| > 0 then Some(elems[0]) else None))
  }

  /** `exists()`: whether `firstElement()` is defined. */
  function ElementExists(list: ElementWrapperList, searches: seq<Search>, start: int): (r: Option<bool>)
    ensures r.Some? <==> Elements(list, searches, start).Some?
    ensures r.Some? ==> (r.value <==> |Elements(list, searches, start).value.1| > 0)
  {
    match FirstElement(list, searches, start)
    case None => None
    case Some((_, first)) => Some(first.Some?)
  }

  /** `description`, `toString()` and `toJSON()`: the printed descriptor. */
  function Description(list: ElementWrapperList): (r: Result<string, TypeError>)
    ensures r.Success? <==> KnownTypes(list.selectorDesc)
    ensures r.Success? ==> IsPrefix(ContentText(list.selectorDesc.content).value + " ", r.value)
    // the selector text, one space, then the constraint texts joined with " and "
    ensures r.Success? ==>
              r.value == ContentText(list.selectorDesc.content).value + " "
                         + Join(StringifyConstraints(list.selectorDesc).value, " and ")
  {
    StringifySelector(list.selectorDesc)
  }

  // ---------------------------------------------------------------------
  // Properties

  /** Once a poll has found elements, every later `elements()` returns
      them again without searching, whatever the page does meanwhile. */
  lemma ElementsCached(list: ElementWrapperList, searches: seq<Search>, start: int,
                       later: seq<Search>, laterStart: int)
    requires Elements(list, searches, start).Some?
    requires |Elements(list, searches, start).value.1| > 0
    ensures var (list', elems) := Elements(list, searches, start).value;
            Elements(list', later, laterStart) == Some((list', elems))
  {
  }

  /** The poll keeps the first search that finds something: when search
      `n` is the first non-empty one and no earlier search ended past the
      3000 ms deadline, the cache is filled with its ids, in order, each
      wrapped with the list's descriptor. Failed searches in between are
      retried, not reported. */
  lemma {:induction false} ElementsFindsFirst(list: ElementWrapperList, searches: seq<Search>, start: int, n: nat)
    requires |list.cache| == 0
    requires n < |searches| && searches[n].found.Success? && |searches[n].found.value| > 0
    requires forall k :: 0 <= k < n ==>
               !(searches[k].found.Success? && |searches[k].found.value| > 0) && searches[k].now <= start + PollTimeout
    ensures var w := Wrap(searches[n].found.value, list.selectorDesc);
            Elements(list, searches, start) == Some((list.(cache := w), w))
  {
    var steps := ConditionSteps(searches);
    var deadline := start + PollTimeout;
    assert steps[n].outcome.Ok?;
    assert forall k :: 0 <= k < n ==> !Stops(steps[k], deadline);
    var r := WaitUntil(steps, start, Some(PollTimeout));
    assert r.Finished?;
  }

  /** A poll that keeps finding nothing gives up after its 3000 ms and
      returns the empty cache instead of throwing. */
  lemma {:induction false} TimeoutSwallowed(list: ElementWrapperList, searches: seq<Search>, start: int, n: nat)
    requires |list.cache| == 0
    requires n < |searches| && searches[n].now > start + PollTimeout
    requires forall k :: 0 <= k <= n ==> !(searches[k].found.Success? && |searches[k].found.value| > 0)
    ensures Elements(list, searches, start) == Some((list, []))
  {
    var steps := ConditionSteps(searches);
    var r := WaitUntil(steps, start, Some(PollTimeout));
    assert Stops(steps[n], start + PollTimeout);
    assert forall k :: 0 <= k <= n ==> !steps[k].outcome.Ok?;
  }

  /** Polling every 100 ms, a run of at most 32 searches always ends the
      wait, found or not. */
  lemma ElementsTerminates(list: ElementWrapperList, searches: seq<Search>, start: int)
    requires Paced(ConditionSteps(searches), start, PollInterval)
    requires |searches| >= PollTimeout / PollInterval + 2
    ensures Elements(list, searches, start).Some?
  {
    PollBound(ConditionSteps(searches), start, PollInterval, PollTimeout);
  }
}
