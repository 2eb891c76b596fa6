/** The selector resolution engine (src/ts/find.ts), as a pure function
    of a document snapshot.

    The browser-side DOM access (tree walker, `querySelectorAll`, ranges,
    `getBoundingClientRect`) is replaced by an explicit `Snapshot`: the
    nodes in document order, each a text node or an element, with its
    parent and its rectangle. A node is identified by its index. */
module Find {
  import opened Wrappers
  import opened Strings
  import opened Selectors

  /** A client rectangle; coordinates grow rightwards and downwards. */
  datatype Rect = Rect(top: int, left: int, right: int, bottom: int)

  datatype Tag = Input | TextArea | OtherTag(name: string)

  datatype NodeKind =
      /** `clientRect` is the first client rect of a range over the node,
          `None` when the text is not rendered. */
    | TextNode(data: string, clientRect: Option<Rect>)
      /** `inputType`, `value` and `placeholder` are the element's
          properties (the empty string when unset); `props` holds the
          properties a text box filter can name; `box` is its bounding
          client rect. */
    | ElementNode(tag: Tag, inputType: string, value: string, placeholder: string,
                  textContent: string, props: map<string, Value>, box: Rect)

  datatype DomNode = DomNode(kind: NodeKind, parent: Option<nat>)

  /** The document as resolution sees it. `matchesCss(css, i)` says
      whether element `i` matches the CSS selector `css`;
      `centreDistance` is the Euclidean distance between the centres of
      two rectangles, which the model leaves abstract. */
  datatype Snapshot = Snapshot(nodes: seq<DomNode>,
                               matchesCss: (string, nat) -> bool,
                               centreDistance: (Rect, Rect) -> nat)

  datatype Candidate = Candidate(node: nat, rect: Rect, score: int)

  /** A constraint whose reference selector has been resolved to its own
      ranked elements. */
  datatype ResolvedConstraint = ResolvedConstraint(ctype: ConstraintType, refs: seq<Candidate>)

  /** The errors `resolveSelector` throws; the top level turns each into
      an empty result. */
  datatype FindError =
    | NotSelectorDesc
    | NotConstraintDesc
    | UnexpectedContent(error: TypeError)
    | NoCandidates   // "no matching elements, even without applying constraints"
    | NoMatch        // "no matching elements"

  const MaxResults := 50
  const TextLikeInputTypes := ["email", "number", "password", "text", "url", "tel", "search"]

  // ---------------------------------------------------------------------
  // The snapshot's views of a node

  predicate IsTextNode(snap: Snapshot, i: nat) {
    i < |snap.nodes| && snap.nodes[i].kind.TextNode?
  }

  predicate IsElement(snap: Snapshot, i: nat) {
    i < |snap.nodes| && snap.nodes[i].kind.ElementNode?
  }

  /** The elements `querySelectorAll('input,textarea')` returns that the
      text and textBox selectors keep: every textarea, and every input
      whose type is text-like or empty. */
  predicate IsTextLikeInput(snap: Snapshot, i: nat) {
    && IsElement(snap, i)
    && var e := snap.nodes[i].kind;
       (e.tag.TextArea? || (e.tag.Input? && (e.inputType in TextLikeInputTypes || e.inputType == "")))
  }

  function TextContent(n: DomNode): string {
    match n.kind
    case TextNode(data, _) => data
    case ElementNode(_, _, _, _, textContent, _, _) => textContent
  }

  /** `getRect`: a text node's first client rect, an element's box. */
  function GetRect(n: DomNode): Option<Rect> {
    match n.kind
    case TextNode(_, clientRect) => clientRect
    case ElementNode(_, _, _, _, _, _, box) => Some(box)
  }

  /** `input.value || input.placeholder || ''`. */
  function InputText(n: DomNode): string
    requires n.kind.ElementNode?
  {
    if n.kind.value != "" then n.kind.value else n.kind.placeholder
  }

  /** `node.parentNode`, when it is a node of the snapshot. */
  function ParentNode(snap: Snapshot, i: nat): Option<nat>
    requires i < |snap.nodes|
  {
    match snap.nodes[i].parent
    case Some(p) => if p < |snap.nodes| then Some(p) else None
    case None => None
  }

  /** `node.parentElement`. */
  predicate HasParentElement(snap: Snapshot, i: nat)
    requires i < |snap.nodes|
  {
    ParentNode(snap, i).Some? && IsElement(snap, ParentNode(snap, i).value)
  }

  predicate Visible(r: Rect) {
    r.bottom > r.top && r.right > r.left
  }

  // ---------------------------------------------------------------------
  // Document-order queries

  /** Every entry of `idxs` names a node of the snapshot. */
  predicate NodeIndices(snap: Snapshot, idxs: seq<nat>) {
    forall k :: 0 <= k < |idxs| ==> idxs[k] < |snap.nodes|
  }

  /** The indices below `n` that satisfy `f`, in increasing order. */
  function Where(n: nat, f: nat -> bool): (r: seq<nat>)
    ensures forall i: nat :: i in r <==> i < n && f(i)
    ensures forall k :: 0 <= k < |r| ==> r[k] < n
    ensures forall j, k :: 0 <= j < k < |r| ==> r[j] < r[k]
  {
    if n == 0 then []
    else
      var rest := Where(n - 1, f);
      var r := rest + (if f(n - 1) then [n - 1] else []);
      assert forall i: nat :: i in r <==> i in rest || (i == n - 1 && f(i));
      assert forall k :: |rest| <= k < |r| ==> r[k] == n - 1;
      r
  }

  function TextNodes(snap: Snapshot): (r: seq<nat>)
    ensures forall i: nat :: i in r <==> IsTextNode(snap, i)
    ensures NodeIndices(snap, r)
  {
    Where(|snap.nodes|, (i: nat) => IsTextNode(snap, i))
  }

  function TextLikeInputs(snap: Snapshot): (r: seq<nat>)
    ensures forall i: nat :: i in r <==> IsTextLikeInput(snap, i)
    ensures NodeIndices(snap, r)
  {
    Where(|snap.nodes|, (i: nat) => IsTextLikeInput(snap, i))
  }

  /** `texts.map((t) => t.parentNode).filter(Boolean)`: one entry per text
      node that has a parent, so a parent with several text children
      appears several times. */
  function ParentsOf(snap: Snapshot, texts: seq<nat>): (r: seq<nat>)
    requires NodeIndices(snap, texts)
    ensures forall p :: p in r <==> exists k :: 0 <= k < |texts| && ParentNode(snap, texts[k]) == Some(p)
    ensures NodeIndices(snap, r)
  {
    if |texts| == 0 then []
    else
      var rest := ParentsOf(snap, texts[1..]);
      assert forall k :: 1 <= k < |texts| ==> texts[k] == texts[1..][k - 1];
      match ParentNode(snap, texts[0])
      case Some(p) => [p] + rest
      case None => rest
  }

  // ---------------------------------------------------------------------
  // Candidates before constraints

  /** The three matching passes of the text selector: text nodes, their
      parent nodes, text-like inputs. */
  datatype Pass = TextNodePass | ParentPass | InputPass

  function ExactScore(pass: Pass): int {
    match pass
    case TextNodePass => 0
    case ParentPass => 5
    case InputPass => 0
  }

  function ContainScore(pass: Pass): int {
    match pass
    case TextNodePass => 10
    case ParentPass => 15
    case InputPass => 10
  }

  function PassText(snap: Snapshot, i: nat, pass: Pass): string
    requires i < |snap.nodes|
  {
    if pass == InputPass && snap.nodes[i].kind.ElementNode? then InputText(snap.nodes[i])
    else TextContent(snap.nodes[i])
  }

  /** Inputs use their bounding rect unconditionally; the other passes
      keep a node only when `getRect` finds a rectangle. */
  function PassRect(snap: Snapshot, i: nat, pass: Pass): Option<Rect>
    requires i < |snap.nodes|
  {
    GetRect(snap.nodes[i])
  }

  /** A contains-match of a text node or parent needs a parent element. */
  predicate ContainGuard(snap: Snapshot, i: nat, pass: Pass)
    requires i < |snap.nodes|
  {
    pass == InputPass || HasParentElement(snap, i)
  }

  predicate ExactMatch(snap: Snapshot, i: nat, q: string, pass: Pass)
    requires i < |snap.nodes|
  {
    PassText(snap, i, pass) == q && PassRect(snap, i, pass).Some?
  }

  predicate ContainMatch(snap: Snapshot, i: nat, q: string, exact: bool, pass: Pass)
    requires i < |snap.nodes|
  {
    && PassText(snap, i, pass) != q
    && !exact
    && Contains(PassText(snap, i, pass), q)
    && ContainGuard(snap, i, pass)
    && PassRect(snap, i, pass).Some?
  }

  /** One `forEach` of the text selector: the exact matches and the
      contains matches of the nodes `idxs`, each in the order visited. */
  function RunPass(snap: Snapshot, idxs: seq<nat>, q: string, exact: bool, pass: Pass)
    : (r: (seq<Candidate>, seq<Candidate>))
    requires NodeIndices(snap, idxs)
    ensures forall c :: c in r.0 ==>
              && c.node in idxs && c.score == ExactScore(pass)
              && ExactMatch(snap, c.node, q, pass) && Some(c.rect) == PassRect(snap, c.node, pass)
    ensures forall c :: c in r.1 ==>
              && c.node in idxs && c.score == ContainScore(pass)
              && ContainMatch(snap, c.node, q, exact, pass) && Some(c.rect) == PassRect(snap, c.node, pass)
    ensures forall i :: i in idxs && ExactMatch(snap, i, q, pass) ==>
              Candidate(i, PassRect(snap, i, pass).value, ExactScore(pass)) in r.0
    ensures forall i :: i in idxs && ContainMatch(snap, i, q, exact, pass) ==>
              Candidate(i, PassRect(snap, i, pass).value, ContainScore(pass)) in r.1
  {
    if |idxs| == 0 then ([], [])
    else
      var i := idxs[0];
      var rest := RunPass(snap, idxs[1..], q, exact, pass);
      assert forall j :: j in idxs <==> j == i || j in idxs[1..];
      var text := PassText(snap, i, pass);
      var rect := PassRect(snap, i, pass);
      if text == q then
        if rect.Some? then ([Candidate(i, rect.value, ExactScore(pass))] + rest.0, rest.1) else rest
      else if !exact && Contains(text, q) && ContainGuard(snap, i, pass) && rect.Some? then
        (rest.0, [Candidate(i, rect.value, ContainScore(pass))] + rest.1)
      else rest
  }

  /** A parent node of some text node. */
  ghost predicate IsTextParent(snap: Snapshot, p: nat) {
    exists i :: IsTextNode(snap, i) && ParentNode(snap, i) == Some(p)
  }

  /** A pass keeps candidate `c`: its node matches the query exactly or
      by containment, with that kind of match's score and the node's
      rectangle. */
  ghost predicate PassFinds(snap: Snapshot, c: Candidate, q: string, exact: bool, pass: Pass)
    requires c.node < |snap.nodes|
  {
    && Some(c.rect) == PassRect(snap, c.node, pass)
    && ((c.score == ExactScore(pass) && ExactMatch(snap, c.node, q, pass))
        || (c.score == ContainScore(pass) && ContainMatch(snap, c.node, q, exact, pass)))
  }

  /** The text selector: every exact match (text nodes, then parents, then
      inputs) followed by every contains match in the same pass order. A
      candidate is found exactly when one of the three passes keeps it. */
  function TextCandidates(snap: Snapshot, q: string, exact: bool): (r: seq<Candidate>)
    ensures forall c :: c in r <==>
              && c.node < |snap.nodes|
              && ((IsTextNode(snap, c.node) && PassFinds(snap, c, q, exact, TextNodePass))
                  || (IsTextParent(snap, c.node) && PassFinds(snap, c, q, exact, ParentPass))
                  || (IsTextLikeInput(snap, c.node) && PassFinds(snap, c, q, exact, InputPass)))
  {
    var texts := TextNodes(snap);
    var parents := ParentsOf(snap, texts);
    TextParents(snap);
    var t := RunPass(snap, texts, q, exact, TextNodePass);
    var p := RunPass(snap, parents, q, exact, ParentPass);
    var n := RunPass(snap, TextLikeInputs(snap), q, exact, InputPass);
    t.0 + p.0 + n.0 + t.1 + p.1 + n.1
  }

  /** The parent pass visits exactly the parents of text nodes. */
  lemma TextParents(snap: Snapshot)
    ensures forall p: nat :: p in ParentsOf(snap, TextNodes(snap)) <==> IsTextParent(snap, p)
  {
    var texts := TextNodes(snap);
    forall p: nat ensures p in ParentsOf(snap, texts) <==> IsTextParent(snap, p) {
      if IsTextParent(snap, p) {
        var i :| IsTextNode(snap, i) && ParentNode(snap, i) == Some(p);
        assert i in texts;
        var k :| 0 <= k < |texts| && texts[k] == i;
      }
    }
  }

  /** The text box filter: `every` key/value pair names a property of the
      element that is loosely equal (`==`) to the value. An absent property
      reads as `undefined`, which equals neither a boolean nor a string. */
  function AttributesMatch(snap: Snapshot, i: nat, attrs: seq<(string, Value)>): (r: bool)
    requires IsElement(snap, i)
    ensures r <==> forall k :: 0 <= k < |attrs| ==>
                     attrs[k].0 in snap.nodes[i].kind.props
                     && LooseEquals(snap.nodes[i].kind.props[attrs[k].0], attrs[k].1)
    decreases |attrs|
  {
    if |attrs| == 0 then true
    else
      var props := snap.nodes[i].kind.props;
      var rest := AttributesMatch(snap, i, attrs[1..]);
      assert forall k :: 1 <= k < |attrs| ==> attrs[k] == attrs[1..][k - 1];
      attrs[0].0 in props && LooseEquals(props[attrs[0].0], attrs[0].1) && rest
  }

  predicate TextBoxMatch(snap: Snapshot, i: nat, attributes: Option<seq<(string, Value)>>) {
    IsTextLikeInput(snap, i) && (attributes.Some? ==> AttributesMatch(snap, i, attributes.value))
  }

  function TextBoxCandidates(snap: Snapshot, idxs: seq<nat>, attributes: Option<seq<(string, Value)>>)
    : (r: seq<Candidate>)
    requires NodeIndices(snap, idxs)
    ensures forall c :: c in r ==>
              c.node in idxs && TextBoxMatch(snap, c.node, attributes)
              && c.rect == snap.nodes[c.node].kind.box && c.score == 0
    ensures forall i :: i in idxs && TextBoxMatch(snap, i, attributes) ==>
              Candidate(i, snap.nodes[i].kind.box, 0) in r
  {
    if |idxs| == 0 then []
    else
      var i := idxs[0];
      var rest := TextBoxCandidates(snap, idxs[1..], attributes);
      assert forall j :: j in idxs <==> j == i || j in idxs[1..];
      if TextBoxMatch(snap, i, attributes) then [Candidate(i, snap.nodes[i].kind.box, 0)] + rest else rest
  }

  /** The CSS selector: every matching element that has a rectangle. */
  function CssCandidates(snap: Snapshot, idxs: seq<nat>): (r: seq<Candidate>)
    requires NodeIndices(snap, idxs)
    ensures forall c :: c in r ==> c.node in idxs && Some(c.rect) == GetRect(snap.nodes[c.node]) && c.score == 0
    ensures forall i :: i in idxs && GetRect(snap.nodes[i]).Some? ==> Candidate(i, GetRect(snap.nodes[i]).value, 0) in r
  {
    if |idxs| == 0 then []
    else
      var i := idxs[0];
      var rest := CssCandidates(snap, idxs[1..]);
      assert forall j :: j in idxs <==> j == i || j in idxs[1..];
      match GetRect(snap.nodes[i])
      case Some(rect) => [Candidate(i, rect, 0)] + rest
      case None => rest
  }

  /** The elements `querySelectorAll(css)` returns, in document order. */
  function CssMatches(snap: Snapshot, css: string): (r: seq<nat>)
    ensures forall i: nat :: i in r <==> IsElement(snap, i) && snap.matchesCss(css, i)
    ensures NodeIndices(snap, r)
  {
    Where(|snap.nodes|, (i: nat) => IsElement(snap, i) && snap.matchesCss(css, i))
  }

  /** `resolveSelectorWithoutConstraint`: the base candidates and their
      match-quality scores. */
  function ResolveWithoutConstraint(snap: Snapshot, content: Content): (r: Result<seq<Candidate>, FindError>)
    ensures r.Failure? <==> content.UnknownContent?
    ensures r.Success? ==> forall c :: c in r.value ==> c.node < |snap.nodes| && c.score >= 0
  {
    match content
    case CssSelector(css) =>
      Success(CssCandidates(snap, CssMatches(snap, css)))
    case Text(q, exact) =>
      var r := TextCandidates(snap, q, exact);
      TextCandidatesValid(snap, q, exact);
      Success(r)
    case TextBox(attributes) =>
      Success(TextBoxCandidates(snap, TextLikeInputs(snap), attributes))
    case UnknownContent(name) =>
      Failure(UnexpectedContent(UnexpectedType(name)))
  }

  lemma TextCandidatesValid(snap: Snapshot, q: string, exact: bool)
    ensures forall c :: c in TextCandidates(snap, q, exact) ==> c.node < |snap.nodes| && c.score >= 0
  {
  }

  // ---------------------------------------------------------------------
  // Distances

  /** `getDistance`: how far the candidate `rect` lies in the constraint's
      direction from the reference `ref`; negative when it lies the other
      way. An unknown type falls out of the `switch` as `undefined`. */
  function GetDistance(snap: Snapshot, ref: Rect, rect: Rect, t: ConstraintType): (r: Option<int>)
    ensures r.None? <==> t.UnknownConstraint?
    ensures t.Above? ==> (r.value >= 0 <==> rect.bottom <= ref.top)
    ensures t.Below? ==> (r.value >= 0 <==> ref.bottom <= rect.top)
    ensures t.ToLeftOf? ==> (r.value >= 0 <==> rect.right <= ref.left)
    ensures t.ToRightOf? ==> (r.value >= 0 <==> ref.right <= rect.left)
    ensures t.Near? ==> r.value >= 0
  {
    match t
    case Above => Some(ref.top - rect.bottom)
    case Below => Some(rect.top - ref.bottom)
    case ToLeftOf => Some(ref.left - rect.right)
    case ToRightOf => Some(rect.left - ref.right)
    case Near => Some(snap.centreDistance(ref, rect))
    case UnknownConstraint(_) => None
  }

  /** A reference rectangle counts for a constraint when its distance is
      a number `>= 0` (touching counts). */
  predicate Admissible(snap: Snapshot, ref: Rect, rect: Rect, t: ConstraintType) {
    GetDistance(snap, ref, rect, t).Some? && GetDistance(snap, ref, rect, t).value >= 0
  }

  /** The inner loop of constraint application: the least admissible
      distance to any reference element, `None` (JavaScript's `Infinity`)
      when there is none. */
  function MinDistance(snap: Snapshot, refs: seq<Candidate>, rect: Rect, t: ConstraintType): (r: Option<int>)
    ensures r.None? <==> forall j :: 0 <= j < |refs| ==> !Admissible(snap, refs[j].rect, rect, t)
    ensures r.Some? ==> r.value >= 0
    ensures r.Some? ==> exists j :: 0 <= j < |refs| && GetDistance(snap, refs[j].rect, rect, t) == r
    ensures r.Some? ==> forall j :: 0 <= j < |refs| && Admissible(snap, refs[j].rect, rect, t) ==>
                          r.value <= GetDistance(snap, refs[j].rect, rect, t).value
  {
    if |refs| == 0 then None
    else
      var rest := MinDistance(snap, refs[1..], rect, t);
      var d := GetDistance(snap, refs[0].rect, rect, t);
      if Admissible(snap, refs[0].rect, rect, t) && (rest.None? || d.value <= rest.value) then
        d
      else
        assert rest.Some? ==> exists j :: 1 <= j < |refs| && GetDistance(snap, refs[j].rect, rect, t) == rest by {
          if rest.Some? {
            var j :| 0 <= j < |refs[1..]| && GetDistance(snap, refs[1..][j].rect, rect, t) == rest;
            assert refs[1..][j] == refs[j + 1];
          }
        }
        rest
  }

  predicate Satisfies(snap: Snapshot, rect: Rect, rc: ResolvedConstraint) {
    MinDistance(snap, rc.refs, rect, rc.ctype).Some?
  }

  /** The per-candidate loop over the constraints: every constraint adds
      its least distance to the score, and the first constraint with no
      admissible reference marks the candidate with -1. */
  function ApplyConstraints(snap: Snapshot, score: int, rect: Rect, rcs: seq<ResolvedConstraint>): (r: int)
    ensures r >= 0 ==> forall k :: 0 <= k < |rcs| ==> Satisfies(snap, rect, rcs[k])
    ensures score >= 0 && (forall k :: 0 <= k < |rcs| ==> Satisfies(snap, rect, rcs[k])) ==> r >= 0
    ensures r >= 0 ==> r >= score
    decreases |rcs|
  {
    if |rcs| == 0 then score
    else
      match MinDistance(snap, rcs[0].refs, rect, rcs[0].ctype)
      case None => -1
      case Some(d) =>
        var r := ApplyConstraints(snap, score + d, rect, rcs[1..]);
        assert Satisfies(snap, rect, rcs[0]);
        assert forall k :: 1 <= k < |rcs| ==> rcs[k] == rcs[1..][k - 1];
        assert (forall k :: 0 <= k < |rcs| ==> Satisfies(snap, rect, rcs[k])) <==>
               (forall k :: 0 <= k < |rcs[1..]| ==> Satisfies(snap, rect, rcs[1..][k]));
        r
  }

  /** The visibility filter: collapsed rectangles are never eligible. */
  function VisibleOnly(cands: seq<Candidate>): (r: seq<Candidate>)
    ensures forall c :: c in r <==> c in cands && Visible(c.rect)
    ensures |r| <= |cands|
  {
    if |cands| == 0 then []
    else (if Visible(cands[0].rect) then [cands[0]] else []) + VisibleOnly(cands[1..])
  }

  /** A candidate with its constraint distances added to its score. */
  function Scored(snap: Snapshot, b: Candidate, rcs: seq<ResolvedConstraint>): Candidate {
    Candidate(b.node, b.rect, ApplyConstraints(snap, b.score, b.rect, rcs))
  }

  /** Scoring and the `score >= 0` filter, in input order. */
  function ScoreAll(snap: Snapshot, cands: seq<Candidate>, rcs: seq<ResolvedConstraint>): (r: seq<Candidate>)
    ensures forall c :: c in r ==> c.score >= 0 && exists b :: b in cands && c == Scored(snap, b, rcs)
    ensures forall b :: b in cands && Scored(snap, b, rcs).score >= 0 ==> Scored(snap, b, rcs) in r
  {
    if |cands| == 0 then []
    else
      var c := Scored(snap, cands[0], rcs);
      var rest := ScoreAll(snap, cands[1..], rcs);
      assert forall x :: x in cands <==> x == cands[0] || x in cands[1..];
      var r := (if c.score >= 0 then [c] else []) + rest;
      assert forall x :: x in r ==> (x == c && c.score >= 0) || x in rest;
      r
  }

  /** Without constraints every base candidate survives scoring unchanged. */
  lemma {:induction false} ScoreAllUnconstrained(snap: Snapshot, cands: seq<Candidate>)
    requires forall b :: b in cands ==> b.score >= 0
    ensures ScoreAll(snap, cands, []) == cands
  {
    if |cands| > 0 {
      assert Scored(snap, cands[0], []) == cands[0];
      assert forall x :: x in cands[1..] ==> x in cands;
      ScoreAllUnconstrained(snap, cands[1..]);
    }
  }

  // ---------------------------------------------------------------------
  // Stable sort by score

  predicate SortedByScore(s: seq<Candidate>) {
    forall j, k :: 0 <= j < k < |s| ==> s[j].score <= s[k].score
  }

  /** The candidates of `s` with score `v`, in their order in `s`. */
  function WithScore(s: seq<Candidate>, v: int): (r: seq<Candidate>)
    ensures forall c :: c in r <==> c in s && c.score == v
  {
    if |s| == 0 then [] else (if s[0].score == v then [s[0]] else []) + WithScore(s[1..], v)
  }

  /** Inserts `x` before the first element that does not score lower. */
  function Insert(x: Candidate, s: seq<Candidate>): (r: seq<Candidate>)
    requires SortedByScore(s)
    ensures SortedByScore(r)
    ensures |r| == |s| + 1
    ensures forall c :: c in r <==> c == x || c in s
  {
    if |s| == 0 then [x]
    else if x.score <= s[0].score then [x] + s
    else
      var rest := Insert(x, s[1..]);
      assert s == [s[0]] + s[1..];
      var r := [s[0]] + rest;
      assert forall k :: 1 <= k < |r| ==> r[k] == rest[k - 1];
      assert forall k :: 0 <= k < |rest| ==> rest[k] in rest;
      r
  }

  lemma {:induction false} InsertPermutes(x: Candidate, s: seq<Candidate>)
    requires SortedByScore(s)
    ensures multiset(Insert(x, s)) == multiset(s) + multiset{x}
  {
    if |s| > 0 && x.score > s[0].score {
      InsertPermutes(x, s[1..]);
      assert Insert(x, s) == [s[0]] + Insert(x, s[1..]);
      assert s == [s[0]] + s[1..];
    }
  }

  lemma {:induction false} InsertWithScore(x: Candidate, s: seq<Candidate>, v: int)
    requires SortedByScore(s)
    ensures WithScore(Insert(x, s), v) == (if x.score == v then [x] else []) + WithScore(s, v)
  {
    if |s| == 0 {
      assert WithScore([x], v) == (if x.score == v then [x] else []) + WithScore([], v);
    } else if x.score <= s[0].score {
      assert ([x] + s)[1..] == s;
    } else {
      var rest := Insert(x, s[1..]);
      assert Insert(x, s) == [s[0]] + rest;
      assert ([s[0]] + rest)[1..] == rest;
      InsertWithScore(x, s[1..], v);
      if x.score == v {
        // `s[0]` scores less than `x`, so only `x` is kept of the two
        assert WithScore(Insert(x, s), v) == WithScore(rest, v);
        assert WithScore(rest, v) == [x] + WithScore(s[1..], v);
        assert WithScore(s, v) == WithScore(s[1..], v);
      } else {
        assert WithScore(rest, v) == WithScore(s[1..], v);
        assert WithScore(Insert(x, s), v) == (if s[0].score == v then [s[0]] else []) + WithScore(s[1..], v);
      }
    }
  }

  /** `Array.prototype.sort` with `(a, b) => a.score - b.score`, as an
      insertion sort: ascending by score. */
  function SortByScore(s: seq<Candidate>): (r: seq<Candidate>)
    ensures SortedByScore(r)
    ensures |r| == |s|
    ensures forall c :: c in r <==> c in s
  {
    if |s| == 0 then []
    else
      var r := Insert(s[0], SortByScore(s[1..]));
      assert forall c :: c in s <==> c == s[0] || c in s[1..];
      r
  }

  /** The sort neither drops nor duplicates a candidate. */
  lemma {:induction false} SortByScorePermutes(s: seq<Candidate>)
    ensures multiset(SortByScore(s)) == multiset(s)
  {
    if |s| > 0 {
      SortByScorePermutes(s[1..]);
      InsertPermutes(s[0], SortByScore(s[1..]));
      assert s == [s[0]] + s[1..];
    }
  }

  /** The sort is stable, as `Array.prototype.sort` is since ECMAScript
      2019: the candidates of any one score keep their input order. */
  lemma {:induction false} SortByScoreIsStable(s: seq<Candidate>, v: int)
    ensures WithScore(SortByScore(s), v) == WithScore(s, v)
  {
    if |s| > 0 {
      SortByScoreIsStable(s[1..], v);
      InsertWithScore(s[0], SortByScore(s[1..]), v);
    }
  }

  /** `.slice(0, 50)`. */
  function Truncate(s: seq<Candidate>): (r: seq<Candidate>)
    ensures |r| <= MaxResults
    ensures |s| > 0 ==> |r| > 0
    ensures IsPrefixOf(r, s)
  {
    if |s| <= MaxResults then s else s[..MaxResults]
  }

  predicate IsPrefixOf<T(==)>(p: seq<T>, s: seq<T>) {
    |p| <= |s| && s[..|p|] == p
  }

  // ---------------------------------------------------------------------
  // Resolution

  /** The candidates that survive visibility and constraints, ranked. */
  function Rank(snap: Snapshot, raw: seq<Candidate>, rcs: seq<ResolvedConstraint>): (r: seq<Candidate>)
    ensures |r| <= MaxResults && SortedByScore(r)
    ensures |r| == 0 <==> |ScoreAll(snap, VisibleOnly(raw), rcs)| == 0
    ensures forall c :: c in r ==> c in ScoreAll(snap, VisibleOnly(raw), rcs)
  {
    var scored := ScoreAll(snap, VisibleOnly(raw), rcs);
    var r := Truncate(SortByScore(scored));
    assert forall c :: c in r ==> c in SortByScore(scored);
    r
  }

  /** `resolveSelector`: the kind check, the constraints' reference
      selectors (each fully resolved, in order; the first error wins), the
      base candidates, and the ranked survivors. */
  function ResolveSelector(snap: Snapshot, sel: SelectorDesc): (r: Result<seq<Candidate>, FindError>)
    ensures r.Success? ==> 0 < |r.value| <= MaxResults && SortedByScore(r.value)
    ensures r.Success? ==> forall c :: c in r.value ==> Visible(c.rect) && c.score >= 0 && c.node < |snap.nodes|
    ensures sel.kind != SelectorKind ==> r == Failure(NotSelectorDesc)
    decreases sel, 1
  {
    if sel.kind != SelectorKind then Failure(NotSelectorDesc)
    else
      match ResolveConstraints(snap, sel)
      case Failure(e) => Failure(e)
      case Success(rcs) => ResolveAgainst(snap, sel.content, rcs)
  }

  /** The rest of `resolveSelector` once the constraints are resolved:
      base candidates, then the ranked survivors. */
  function ResolveAgainst(snap: Snapshot, content: Content, rcs: seq<ResolvedConstraint>)
    : (r: Result<seq<Candidate>, FindError>)
    ensures r.Success? ==> 0 < |r.value| <= MaxResults && SortedByScore(r.value)
    ensures r.Success? ==> forall c :: c in r.value ==> Visible(c.rect) && c.score >= 0 && c.node < |snap.nodes|
    ensures content.UnknownContent? ==> r == Failure(UnexpectedContent(UnexpectedType(content.name)))
    ensures !content.UnknownContent? && r.Failure? ==> r.error == NoCandidates || r.error == NoMatch
  {
    match ResolveWithoutConstraint(snap, content)
    case Failure(e) => Failure(e)
    case Success(raw) =>
      if |raw| == 0 then Failure(NoCandidates)
      else
        var out := Rank(snap, raw, rcs);
        if |out| == 0 then Failure(NoMatch) else Success(out)
  }

  /** The `constraints.map(...)` of `resolveSelector`: every constraint of
      `sel` resolved in order, the first error winning. */
  function ResolveConstraints(snap: Snapshot, sel: SelectorDesc): (r: Result<seq<ResolvedConstraint>, FindError>)
    ensures r.Success? ==> |r.value| == |sel.constraints|
    decreases sel, 0
  {
    Collect(seq(|sel.constraints|, k requires 0 <= k < |sel.constraints| => ResolveConstraint(snap, sel.constraints[k])))
  }

  /** One constraint: its kind check, then its reference selector resolved
      in full. */
  function ResolveConstraint(snap: Snapshot, c: ConstraintDesc): (r: Result<ResolvedConstraint, FindError>)
    ensures r.Success? ==> r.value.ctype == c.ctype && c.kind == ConstraintKind
    decreases c
  {
    if c.kind != ConstraintKind then Failure(NotConstraintDesc)
    else
      match ResolveSelector(snap, c.selector)
      case Failure(e) => Failure(e)
      case Success(refs) => Success(ResolvedConstraint(c.ctype, refs))
  }

  /** A constraint whose resolution throws: a wrong kind tag, or a
      reference selector that fails to resolve. */
  predicate ReferenceFails(snap: Snapshot, c: ConstraintDesc)
    decreases c, 1
  {
    c.kind != ConstraintKind || ResolveSelector(snap, c.selector).Failure?
  }

  /** Each constraint is resolved against the reference selector's own
      fully resolved list: recursively constrained, sorted and truncated. */
  lemma ResolvedReferences(snap: Snapshot, sel: SelectorDesc)
    requires ResolveConstraints(snap, sel).Success?
    ensures forall k :: 0 <= k < |sel.constraints| ==>
              && sel.constraints[k].kind == ConstraintKind
              && ResolveSelector(snap, sel.constraints[k].selector).Success?
              && ResolveConstraints(snap, sel).value[k] ==
                   ResolvedConstraint(sel.constraints[k].ctype, ResolveSelector(snap, sel.constraints[k].selector).value)
  {
    var rs := seq(|sel.constraints|, k requires 0 <= k < |sel.constraints| => ResolveConstraint(snap, sel.constraints[k]));
    CollectSuccess(rs);
    forall k | 0 <= k < |sel.constraints|
      ensures && sel.constraints[k].kind == ConstraintKind
              && ResolveSelector(snap, sel.constraints[k].selector).Success?
              && ResolveConstraints(snap, sel).value[k] ==
                   ResolvedConstraint(sel.constraints[k].ctype, ResolveSelector(snap, sel.constraints[k].selector).value)
    {
      assert rs[k] == ResolveConstraint(snap, sel.constraints[k]);
    }
  }

  /** Any error while resolving a reference selector, or a constraint
      with the wrong kind tag, fails the whole resolution with the error of
      the first such constraint. */
  lemma ReferenceFailurePropagates(snap: Snapshot, sel: SelectorDesc)
    ensures ResolveConstraints(snap, sel).Failure? <==>
              exists k :: 0 <= k < |sel.constraints| && ReferenceFails(snap, sel.constraints[k])
    ensures ResolveConstraints(snap, sel).Failure? ==>
              exists k :: 0 <= k < |sel.constraints| &&
                          ResolveConstraint(snap, sel.constraints[k]) == Failure(ResolveConstraints(snap, sel).error) &&
                          forall m :: 0 <= m < k ==> !ReferenceFails(snap, sel.constraints[m])
  {
    var rs := seq(|sel.constraints|, k requires 0 <= k < |sel.constraints| => ResolveConstraint(snap, sel.constraints[k]));
    CollectSuccess(rs);
    assert forall k :: 0 <= k < |rs| ==> (rs[k].Failure? <==> ReferenceFails(snap, sel.constraints[k]));
    if Collect(rs).Failure? {
      CollectFirstFailure(rs);
    }
  }

  /** `findSelectorFunc`: the resolved nodes, or nothing when resolution
      throws anywhere. */
  function FindSelector(snap: Snapshot, sel: SelectorDesc): (r: seq<nat>)
    ensures |r| <= MaxResults
    ensures r == [] <==> ResolveSelector(snap, sel).Failure?
    ensures ResolveSelector(snap, sel).Success? ==>
              |r| == |ResolveSelector(snap, sel).value| &&
              forall k :: 0 <= k < |r| ==> r[k] == ResolveSelector(snap, sel).value[k].node
  {
    match ResolveSelector(snap, sel)
    case Failure(_) => []
    case Success(cands) => seq(|cands|, k requires 0 <= k < |cands| => cands[k].node)
  }

  // ---------------------------------------------------------------------
  // Properties of resolution

  /** Without constraints the result is the visible base candidates,
      stably sorted by match quality and cut to 50. */
  lemma UnconstrainedOrder(snap: Snapshot, sel: SelectorDesc)
    requires sel.kind == SelectorKind && sel.constraints == []
    requires ResolveWithoutConstraint(snap, sel.content).Success?
    ensures var raw := ResolveWithoutConstraint(snap, sel.content).value;
            var out := Truncate(SortByScore(VisibleOnly(raw)));
            ResolveSelector(snap, sel) ==
              if |raw| == 0 then Failure(NoCandidates)
              else if |out| == 0 then Failure(NoMatch)
              else Success(out)
  {
    var raw := ResolveWithoutConstraint(snap, sel.content).value;
    assert ResolveConstraints(snap, sel) == Success([]);
    ScoreAllUnconstrained(snap, VisibleOnly(raw));
  }

  /** A base candidate that survives: visible, and every constraint has an
      admissible reference element. */
  predicate Survives(snap: Snapshot, b: Candidate, rcs: seq<ResolvedConstraint>) {
    Visible(b.rect) && forall k :: 0 <= k < |rcs| ==> Satisfies(snap, b.rect, rcs[k])
  }

  /** A successful resolution, unfolded: the visible base candidates,
      scored, sorted and cut. */
  lemma ResolveUnfold(snap: Snapshot, sel: SelectorDesc)
    requires sel.kind == SelectorKind
    requires ResolveConstraints(snap, sel).Success? && ResolveWithoutConstraint(snap, sel.content).Success?
    ensures var raw := ResolveWithoutConstraint(snap, sel.content).value;
            ResolveSelector(snap, sel).Success? ==>
              ResolveSelector(snap, sel).value
                == Truncate(SortByScore(ScoreAll(snap, VisibleOnly(raw), ResolveConstraints(snap, sel).value)))
  {
  }

  /** The ranking keeps only surviving base candidates, each with its
      constrained score, and short of the cut it keeps all of them. */
  lemma {:induction false} RankSoundComplete(snap: Snapshot, raw: seq<Candidate>, rcs: seq<ResolvedConstraint>)
    requires forall b :: b in raw ==> b.score >= 0
    ensures var out := Truncate(SortByScore(ScoreAll(snap, VisibleOnly(raw), rcs)));
            && (forall c :: c in out ==> exists b :: b in raw && Survives(snap, b, rcs) && c == Scored(snap, b, rcs))
            && (|out| < MaxResults ==> forall b :: b in raw && Survives(snap, b, rcs) ==> Scored(snap, b, rcs) in out)
  {
    var vis := VisibleOnly(raw);
    var scored := ScoreAll(snap, vis, rcs);
    var out := Truncate(SortByScore(scored));
    forall c | c in out
      ensures exists b :: b in raw && Survives(snap, b, rcs) && c == Scored(snap, b, rcs)
    {
      assert c in SortByScore(scored);
      var b :| b in vis && c == Scored(snap, b, rcs);
    }
    if |out| < MaxResults {
      assert out == SortByScore(scored);
      forall b | b in raw && Survives(snap, b, rcs)
        ensures Scored(snap, b, rcs) in out
      {
        assert b in vis;
        assert Scored(snap, b, rcs).score >= 0;
      }
    }
  }

  /** Every element found is a surviving base candidate with its constraint
      distances added; when fewer than 50 are found, every surviving base
      candidate is among them. */
  lemma {:induction false} ResolveSoundComplete(snap: Snapshot, sel: SelectorDesc)
    requires sel.kind == SelectorKind
    requires ResolveConstraints(snap, sel).Success? && ResolveWithoutConstraint(snap, sel.content).Success?
    ensures var raw := ResolveWithoutConstraint(snap, sel.content).value;
            var rcs := ResolveConstraints(snap, sel).value;
            ResolveSelector(snap, sel).Success? ==>
            var out := ResolveSelector(snap, sel).value;
            && (forall c :: c in out ==> exists b :: b in raw && Survives(snap, b, rcs) && c == Scored(snap, b, rcs))
            && (|out| < MaxResults ==> forall b :: b in raw && Survives(snap, b, rcs) ==> Scored(snap, b, rcs) in out)
  {
    ResolveUnfold(snap, sel);
    RankSoundComplete(snap, ResolveWithoutConstraint(snap, sel.content).value, ResolveConstraints(snap, sel).value);
  }

  /** The two "not found" errors: no base candidate at all, or base
      candidates none of which survives. */
  lemma {:induction false} NotFoundErrors(snap: Snapshot, sel: SelectorDesc)
    requires sel.kind == SelectorKind
    requires ResolveConstraints(snap, sel).Success? && ResolveWithoutConstraint(snap, sel.content).Success?
    ensures var raw := ResolveWithoutConstraint(snap, sel.content).value;
            var rcs := ResolveConstraints(snap, sel).value;
            && (ResolveSelector(snap, sel) == Failure(NoCandidates) <==> |raw| == 0)
            && (ResolveSelector(snap, sel) == Failure(NoMatch) <==>
                  |raw| > 0 && forall b :: b in raw ==> !Survives(snap, b, rcs))
  {
    var raw := ResolveWithoutConstraint(snap, sel.content).value;
    var rcs := ResolveConstraints(snap, sel).value;
    var vis := VisibleOnly(raw);
    var scored := ScoreAll(snap, vis, rcs);
    if |raw| > 0 {
      if |scored| == 0 {
        forall b | b in raw && Survives(snap, b, rcs) ensures Scored(snap, b, rcs) in scored {
          assert b in vis;
        }
      } else {
        var c := scored[0];
        var b :| b in vis && c == Scored(snap, b, rcs);
        assert Survives(snap, b, rcs);
      }
    }
  }

  /** A `near` constraint never eliminates a candidate: its reference list
      is never empty and every centre distance is admissible. */
  lemma NearNeverEliminates(snap: Snapshot, sel: SelectorDesc, rect: Rect, k: nat)
    requires ResolveConstraints(snap, sel).Success?
    requires k < |sel.constraints| && sel.constraints[k].ctype == Near
    ensures Satisfies(snap, rect, ResolveConstraints(snap, sel).value[k])
  {
    ResolvedReferences(snap, sel);
    var rc := ResolveConstraints(snap, sel).value[k];
    assert Admissible(snap, rc.refs[0].rect, rect, rc.ctype);
  }

  /** The directional constraints are dual: `a` lies above `b` exactly as
      far as `b` lies below `a`, and likewise left of and right of. */
  lemma DirectionDuality(snap: Snapshot, a: Rect, b: Rect)
    ensures GetDistance(snap, b, a, Above) == GetDistance(snap, a, b, Below)
    ensures GetDistance(snap, b, a, ToLeftOf) == GetDistance(snap, a, b, ToRightOf)
    ensures Admissible(snap, b, a, Above) <==> Admissible(snap, a, b, Below)
    ensures Admissible(snap, b, a, ToLeftOf) <==> Admissible(snap, a, b, ToRightOf)
  {
  }

  /** The text selector's match-quality scale: exact matches score 0 (text
      node or input) or 5 (parent element), contains matches 10 or 15; an
      exact-only query yields exact matches only; and every exact match
      comes before every contains match. */
  lemma TextScores(snap: Snapshot, q: string, exact: bool)
    ensures var r := TextCandidates(snap, q, exact);
            && (forall c :: c in r ==> c.score == 0 || c.score == 5 || c.score == 10 || c.score == 15)
            && (exact ==> forall c :: c in r ==> c.score <= 5)
            && (forall j, k :: 0 <= j < k < |r| && r[j].score >= 10 ==> r[k].score >= 10)
  {
    var texts := TextNodes(snap);
    var t := RunPass(snap, texts, q, exact, TextNodePass);
    var p := RunPass(snap, ParentsOf(snap, texts), q, exact, ParentPass);
    var n := RunPass(snap, TextLikeInputs(snap), q, exact, InputPass);
    var exacts := t.0 + p.0 + n.0;
    var contains := t.1 + p.1 + n.1;
    assert TextCandidates(snap, q, exact) == exacts + contains;
    assert forall c :: c in exacts ==> c.score == 0 || c.score == 5;
    assert forall c :: c in contains ==> (c.score == 10 || c.score == 15) && !exact;
    ExactBeforeContains(exacts, contains);
  }

  lemma ExactBeforeContains(exacts: seq<Candidate>, contains: seq<Candidate>)
    requires forall c :: c in exacts ==> c.score <= 5
    requires forall c :: c in contains ==> c.score >= 10
    ensures var r := exacts + contains;
            forall j, k :: 0 <= j < k < |r| && r[j].score >= 10 ==> r[k].score >= 10
  {
    var r := exacts + contains;
    forall j, k | 0 <= j < k < |r| && r[j].score >= 10 ensures r[k].score >= 10 {
      assert r[k] == contains[k - |exacts|];
    }
  }

  /** Every text node whose text equals the query exactly and that has a
      client rect is a base candidate. */
  lemma ExactTextFound(snap: Snapshot, q: string, exact: bool, i: nat)
    requires IsTextNode(snap, i) && TextContent(snap.nodes[i]) == q && GetRect(snap.nodes[i]).Some?
    ensures Candidate(i, GetRect(snap.nodes[i]).value, 0) in TextCandidates(snap, q, exact)
  {
    var texts := TextNodes(snap);
    assert i in texts;
    assert ExactMatch(snap, i, q, TextNodePass);
  }

  /** The worked example of the `below` constraint: with the reference at
      rows 100 to 120, a candidate starting at row 130 scores 10 and one
      starting at row 230 scores 110, so the nearer ranks first even when
      the document lists it second. */
  lemma BelowExample(snap: Snapshot)
    ensures var reference := Candidate(0, Rect(100, 10, 50, 120), 0);
            var c1 := Candidate(1, Rect(130, 10, 50, 150), 0);
            var c2 := Candidate(2, Rect(230, 10, 50, 250), 0);
            Rank(snap, [c2, c1], [ResolvedConstraint(Below, [reference])]) ==
              [Candidate(1, c1.rect, 10), Candidate(2, c2.rect, 110)]
  {
    var reference := Candidate(0, Rect(100, 10, 50, 120), 0);
    var c1 := Candidate(1, Rect(130, 10, 50, 150), 0);
    var c2 := Candidate(2, Rect(230, 10, 50, 250), 0);
    var rcs := [ResolvedConstraint(Below, [reference])];
    BelowScores(snap, reference, c1, c2);
    SortTwo(Candidate(2, c2.rect, 110), Candidate(1, c1.rect, 10));
    assert Truncate([Candidate(1, c1.rect, 10), Candidate(2, c2.rect, 110)])
        == [Candidate(1, c1.rect, 10), Candidate(2, c2.rect, 110)];
  }

  /** The scoring half of the example: each candidate's distance below the
      reference is added to its base score of 0. */
  lemma BelowScores(snap: Snapshot, reference: Candidate, c1: Candidate, c2: Candidate)
    requires reference == Candidate(0, Rect(100, 10, 50, 120), 0)
    requires c1 == Candidate(1, Rect(130, 10, 50, 150), 0)
    requires c2 == Candidate(2, Rect(230, 10, 50, 250), 0)
    ensures ScoreAll(snap, VisibleOnly([c2, c1]), [ResolvedConstraint(Below, [reference])])
            == [Candidate(2, c2.rect, 110), Candidate(1, c1.rect, 10)]
  {
    var rcs := [ResolvedConstraint(Below, [reference])];
    assert rcs[1..] == [];
    assert MinDistance(snap, [reference], c1.rect, Below) == Some(10);
    assert MinDistance(snap, [reference], c2.rect, Below) == Some(110);
    var s1 := Scored(snap, c1, rcs);
    var s2 := Scored(snap, c2, rcs);
    assert ApplyConstraints(snap, 10, c1.rect, []) == 10;
    assert ApplyConstraints(snap, 110, c2.rect, []) == 110;
    assert s1.score == 10 && s2.score == 110;
    assert VisibleOnly([c2, c1]) == [c2, c1];
    assert [c2, c1][1..] == [c1];
    assert ScoreAll(snap, [c1], rcs) == [s1] + ScoreAll(snap, [], rcs);
    assert ScoreAll(snap, [c2, c1], rcs) == [s2] + ScoreAll(snap, [c1], rcs);
  }

  /** Sorting two candidates that are out of order swaps them. */
  lemma SortTwo(a: Candidate, b: Candidate)
    requires b.score < a.score
    ensures SortByScore([a, b]) == [b, a]
  {
    assert [b][1..] == [] && [a, b][1..] == [b];
    assert SortByScore([b]) == Insert(b, []) == [b];
    assert Insert(a, [b]) == [b] + Insert(a, []) == [b, a];
  }

  /** For a descriptor `createSelectorDesc` built, resolution can only end
      in one of the two "not found" errors. */
  lemma {:induction false} WellFormedOnlyNotFound(snap: Snapshot, sel: SelectorDesc)
    requires WellFormed(sel)
    requires ResolveSelector(snap, sel).Failure?
    ensures ResolveSelector(snap, sel).error == NoCandidates || ResolveSelector(snap, sel).error == NoMatch
    decreases sel
  {
    if ResolveConstraints(snap, sel).Failure? {
      ReferenceFailurePropagates(snap, sel);
      var k :| 0 <= k < |sel.constraints| &&
               ResolveConstraint(snap, sel.constraints[k]) == Failure(ResolveConstraints(snap, sel).error) &&
               forall m :: 0 <= m < k ==> !ReferenceFails(snap, sel.constraints[m]);
      assert ConstraintWellFormed(sel.constraints[k]);
      WellFormedOnlyNotFound(snap, sel.constraints[k].selector);
    }
  }
}
