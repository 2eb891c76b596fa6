/** Selector and constraint descriptors and their printer
    (src/ts/taiko_types.ts).

    A descriptor is plain serialisable data: it crosses into the page as
    JSON, so its `kind` tag and its `type` are checked again at run time.
    The model keeps both tags as data: `kind` is a string, and a type the
    code does not know is an explicit `Unknown…` constructor, so that the
    `assertNever` and "not SelectorDesc" error paths can be stated. */
module Selectors {
  import opened Wrappers
  import opened Strings
  import opened JsNumber

  /** A JavaScript primitive stored in an options or attributes object. */
  datatype Value = Bool(b: bool) | Str(s: string)

  /** Template-literal printing of a primitive. */
  function ValueText(v: Value): string {
    match v
    case Bool(b) => if b then "true" else "false"
    case Str(s) => s
  }

  /** JavaScript's loose `==` between two primitives (IsLooselyEqual,
      section 7.2.14 of ECMAScript 2023): values of one type compare
      strictly, and a boolean against a string converts both to numbers,
      so that `"" == false` and `"1" == true`. */
  function LooseEquals(a: Value, b: Value): (r: bool)
    ensures a.Bool? == b.Bool? ==> (r <==> a == b)
    ensures a.Bool? && b.Str? ==> (r <==> StringToNumber(b.s) == Finite(BoolNumber(a.b)))
    ensures a.Str? && b.Bool? ==> (r <==> StringToNumber(a.s) == Finite(BoolNumber(b.b)))
  {
    match (a, b)
    case (Bool(x), Bool(y)) => x == y
    case (Str(x), Str(y)) => x == y
    case (Bool(x), Str(y)) => NumberEquals(Finite(BoolNumber(x)), StringToNumber(y))
    case (Str(x), Bool(y)) => NumberEquals(StringToNumber(x), Finite(BoolNumber(y)))
  }

  /** A blank string (empty or white space only) is loosely equal to
      `false` and not to `true`. */
  lemma BlankLooselyFalse(s: string)
    requires IsBlank(s)
    ensures LooseEquals(Str(s), Bool(false)) && !LooseEquals(Str(s), Bool(true))
    ensures LooseEquals(Bool(false), Str(s)) && !LooseEquals(Bool(true), Str(s))
  {
  }

  /** The words are not the booleans: `"true" == true` and
      `"false" == false` are both false, since neither word is a number. */
  lemma WordsAreNotBooleans()
    ensures !LooseEquals(Str("true"), Bool(true)) && !LooseEquals(Str("false"), Bool(false))
  {
    LetterStartIsNaN("true");
    LetterStartIsNaN("false");
  }

  /** The decimal text of an integer is loosely equal to a boolean exactly
      when the integer is that boolean's number, 1 or 0. */
  lemma IntTextLooseEquals(n: int, b: bool)
    ensures LooseEquals(Str(IntToString(n)), Bool(b)) <==> n == (if b then 1 else 0)
    ensures LooseEquals(Bool(b), Str(IntToString(n))) <==> n == (if b then 1 else 0)
  {
    IntToStringToNumber(n);
  }

  datatype ConstraintType =
    | Above | Below | ToLeftOf | ToRightOf | Near
    | UnknownConstraint(name: string)

  datatype Content =
    | CssSelector(cssSelector: string)
    | Text(text: string, exact: bool)
      /** `attributes` is `None` when the property is absent; an empty
          object is `Some([])` and is still truthy. */
    | TextBox(attributes: Option<seq<(string, Value)>>)
    | UnknownContent(name: string)

  datatype SelectorDesc = SelectorDesc(kind: string, content: Content, constraints: seq<ConstraintDesc>)

  datatype ConstraintDesc = ConstraintDesc(kind: string, ctype: ConstraintType, selector: SelectorDesc)

  /** The TypeError raised by `assertNever`, naming the unexpected type. */
  datatype TypeError = UnexpectedType(name: string)

  const SelectorKind := "SelectorDesc"
  const ConstraintKind := "ConstraintDesc"

  function CreateSelectorDesc(content: Content, constraints: seq<ConstraintDesc>): (r: SelectorDesc)
    ensures r.kind == SelectorKind
    ensures r.content == content && r.constraints == constraints
  {
    SelectorDesc(SelectorKind, content, constraints)
  }

  function CreateConstraintDesc(selector: SelectorDesc, ctype: ConstraintType): (r: ConstraintDesc)
    ensures r.kind == ConstraintKind
    ensures r.ctype == ctype && r.selector == selector
  {
    ConstraintDesc(ConstraintKind, ctype, selector)
  }

  /** Every type in the tree is one the printer and the resolver know. */
  predicate KnownTypes(sel: SelectorDesc)
    decreases sel, 1
  {
    && !sel.content.UnknownContent?
    && forall i :: 0 <= i < |sel.constraints| ==> KnownConstraintTypes(sel.constraints[i])
  }

  predicate KnownConstraintTypes(c: ConstraintDesc)
    decreases c.selector, 2
  {
    !c.ctype.UnknownConstraint? && KnownTypes(c.selector)
  }

  /** A descriptor as `createSelectorDesc`/`createConstraintDesc` build it:
      every kind tag is right and every type is known. */
  predicate WellFormed(sel: SelectorDesc)
    decreases sel, 1
  {
    && sel.kind == SelectorKind
    && !sel.content.UnknownContent?
    && forall i :: 0 <= i < |sel.constraints| ==> ConstraintWellFormed(sel.constraints[i])
  }

  predicate ConstraintWellFormed(c: ConstraintDesc)
    decreases c.selector, 2
  {
    c.kind == ConstraintKind && !c.ctype.UnknownConstraint? && WellFormed(c.selector)
  }

  lemma {:induction false} WellFormedHasKnownTypes(sel: SelectorDesc)
    requires WellFormed(sel)
    ensures KnownTypes(sel)
    decreases sel
  {
    forall i | 0 <= i < |sel.constraints|
      ensures KnownConstraintTypes(sel.constraints[i])
    {
      assert ConstraintWellFormed(sel.constraints[i]);
      WellFormedHasKnownTypes(sel.constraints[i].selector);
    }
  }

  /** The word(s) `stringifyConstraint` puts before the reference selector. */
  function ConstraintWords(t: ConstraintType): string
    requires !t.UnknownConstraint?
  {
    match t
    case Above => "above"
    case Below => "below"
    case ToLeftOf => "to left of"
    case ToRightOf => "to right of"
    case Near => "near"
  }

  function AttributeTexts(attrs: seq<(string, Value)>): (r: seq<string>)
    ensures |r| == |attrs|
    ensures forall i :: 0 <= i < |attrs| ==> r[i] == attrs[i].0 + "=" + ValueText(attrs[i].1)
  {
    if |attrs| == 0 then [] else [attrs[0].0 + "=" + ValueText(attrs[0].1)] + AttributeTexts(attrs[1..])
  }

  /** The selector part of the description, before the constraints. */
  function ContentText(content: Content): (r: Result<string, TypeError>)
    ensures r.Success? <==> !content.UnknownContent?
    ensures content.CssSelector? ==> r == Success("$(" + content.cssSelector + ")")
    ensures content.Text? ==> r == Success(content.text)
    ensures content.TextBox? && content.attributes.None? ==> r == Success("text box")
    // the `key=value` texts, joined with ", ", inside parentheses
    ensures content.TextBox? && content.attributes.Some? ==>
              r == Success("text box (" + Join(AttributeTexts(content.attributes.value), ", ") + ")")
  {
    match content
    case CssSelector(css) => Success("$(" + css + ")")
    case Text(text, _) => Success(text)
    case TextBox(None) => Success("text box")
    case TextBox(Some(attrs)) => Success("text box (" + Join(AttributeTexts(attrs), ", ") + ")")
    case UnknownContent(name) => Failure(UnexpectedType(name))
  }

  /** `stringifyConstraint`. */
  function StringifyConstraint(c: ConstraintDesc): (r: Result<string, TypeError>)
    ensures r.Success? <==> KnownConstraintTypes(c)
    // the direction's words, then the reference's own description
    ensures r.Success? ==> IsPrefix(ConstraintWords(c.ctype) + " ", r.value)
    ensures r.Success? ==> r.value == ConstraintWords(c.ctype) + " " + StringifySelector(c.selector).value
    // an unknown type is reported before the reference is printed
    ensures c.ctype.UnknownConstraint? ==> r == Failure(UnexpectedType(c.ctype.name))
    ensures !c.ctype.UnknownConstraint? && r.Failure? ==> r == StringifySelector(c.selector)
    decreases c.selector, 2
  {
    match c.ctype
    case UnknownConstraint(name) => Failure(UnexpectedType(name))
    case _ =>
      match StringifySelector(c.selector)
      case Failure(e) => Failure(e)
      case Success(s) =>
        assert (ConstraintWords(c.ctype) + " " + s)[..|ConstraintWords(c.ctype) + " "|]
            == ConstraintWords(c.ctype) + " ";
        Success(ConstraintWords(c.ctype) + " " + s)
  }

  /** `constraints.map(stringifyConstraint)`: every constraint printed in
      order; the first that throws ends the map with its error. */
  function StringifyConstraints(sel: SelectorDesc): (r: Result<seq<string>, TypeError>)
    ensures r.Success? <==> forall j :: 0 <= j < |sel.constraints| ==> KnownConstraintTypes(sel.constraints[j])
    ensures r.Success? ==> |r.value| == |sel.constraints|
    decreases sel, 0
  {
    var rs := seq(|sel.constraints|, k requires 0 <= k < |sel.constraints| => StringifyConstraint(sel.constraints[k]));
    CollectSuccess(rs);
    assert forall k :: 0 <= k < |rs| ==> rs[k] == StringifyConstraint(sel.constraints[k]);
    Collect(rs)
  }

  /** On success, each constraint's text sits at its own position. */
  lemma StringifyConstraintsValues(sel: SelectorDesc)
    requires StringifyConstraints(sel).Success?
    ensures forall j :: 0 <= j < |sel.constraints| ==>
              StringifyConstraints(sel).value[j] == StringifyConstraint(sel.constraints[j]).value
  {
    var rs := seq(|sel.constraints|, k requires 0 <= k < |sel.constraints| => StringifyConstraint(sel.constraints[k]));
    CollectSuccess(rs);
    assert forall k :: 0 <= k < |rs| ==> rs[k] == StringifyConstraint(sel.constraints[k]);
  }

  /** The first constraint that cannot be printed decides the error. */
  lemma StringifyConstraintsFirstFailure(sel: SelectorDesc)
    requires StringifyConstraints(sel).Failure?
    ensures exists j :: 0 <= j < |sel.constraints|
                        && StringifyConstraint(sel.constraints[j]) == Failure(StringifyConstraints(sel).error)
                        && forall k :: 0 <= k < j ==> StringifyConstraint(sel.constraints[k]).Success?
  {
    var rs := seq(|sel.constraints|, k requires 0 <= k < |sel.constraints| => StringifyConstraint(sel.constraints[k]));
    assert forall k :: 0 <= k < |rs| ==> rs[k] == StringifyConstraint(sel.constraints[k]);
    CollectFirstFailure(rs);
  }

  /** `stringifySelector`: the selector text and the constraint texts
      joined with " and ", separated by one space, so an unconstrained
      selector's description ends in a space. */
  function StringifySelector(sel: SelectorDesc): (r: Result<string, TypeError>)
    ensures r.Success? <==> KnownTypes(sel)
    ensures r.Success? ==> IsPrefix(ContentText(sel.content).value + " ", r.value)
    ensures r.Success? ==>
              r.value == ContentText(sel.content).value + " " + Join(StringifyConstraints(sel).value, " and ")
    ensures r.Success? && sel.constraints == [] ==> r.value == ContentText(sel.content).value + " "
    // the constraints are printed first, so their error wins
    ensures StringifyConstraints(sel).Failure? ==> r == Failure(StringifyConstraints(sel).error)
    ensures StringifyConstraints(sel).Success? && r.Failure? ==> r == ContentText(sel.content)
    decreases sel, 1
  {
    match StringifyConstraints(sel)
    case Failure(e) => Failure(e)
    case Success(constraintTexts) =>
      match ContentText(sel.content)
      case Failure(e) => Failure(e)
      case Success(selectorText) =>
        var s := selectorText + " " + Join(constraintTexts, " and ");
        assert s[..|selectorText + " "|] == selectorText + " ";
        Success(s)
  }

  /** The layout of a description: after the selector text and one space,
      the text of constraint `j` (`texts[j]`, which
      `StringifyConstraintsValues` ties to that constraint) starts at its
      join offset. */
  lemma StringifySelectorLayout(sel: SelectorDesc, texts: seq<string>, j: nat)
    requires StringifySelector(sel).Success?
    requires StringifyConstraints(sel) == Success(texts)
    requires j < |texts|
    ensures OccursAt(StringifySelector(sel).value, |ContentText(sel.content).value + " "| + JoinOffset(texts, " and ", j), texts[j])
  {
    var out := StringifySelector(sel).value;
    var head := ContentText(sel.content).value + " ";
    assert out == head + Join(texts, " and ");
    JoinPartAt(out, head, texts, " and ", j);
  }

  /** The text of the last constraint ends the description. */
  lemma StringifySelectorEnd(sel: SelectorDesc, texts: seq<string>)
    requires StringifySelector(sel).Success?
    requires StringifyConstraints(sel) == Success(texts)
    requires |texts| > 0
    ensures |ContentText(sel.content).value + " "| + JoinOffset(texts, " and ", |texts| - 1) + |texts[|texts| - 1]|
            == |StringifySelector(sel).value|
  {
    var out := StringifySelector(sel).value;
    var head := ContentText(sel.content).value + " ";
    assert out == head + Join(texts, " and ");
    JoinEndAt(out, head, texts, " and ");
  }

  /** Between the texts of two consecutive constraints stands " and ". */
  lemma StringifySelectorSeparator(sel: SelectorDesc, texts: seq<string>, j: nat)
    requires StringifySelector(sel).Success?
    requires StringifyConstraints(sel) == Success(texts)
    requires j + 1 < |texts|
    ensures OccursAt(StringifySelector(sel).value,
                     |ContentText(sel.content).value + " "| + JoinOffset(texts, " and ", j) + |texts[j]|, " and ")
  {
    var out := StringifySelector(sel).value;
    var head := ContentText(sel.content).value + " ";
    assert out == head + Join(texts, " and ");
    JoinSeparatorAfter(out, head, texts, " and ", j);
  }

  /** The trailing space of a reference's description is kept inside the
      constraint text: `text('a', below('b'))` prints as "a below b ". */
  lemma StringifyNested()
    ensures var b := CreateSelectorDesc(Text("b", false), []);
            var a := CreateSelectorDesc(Text("a", false), [CreateConstraintDesc(b, Below)]);
            StringifySelector(a) == Success("a below b ")
  {
    var b := CreateSelectorDesc(Text("b", false), []);
    var c := CreateConstraintDesc(b, Below);
    var a := CreateSelectorDesc(Text("a", false), [c]);
    assert StringifyConstraints(b) == Success([]);
    assert Join([], " and ") == "";
    assert "b" + " " + "" == "b ";
    assert StringifySelector(b) == Success("b ");
    assert ConstraintWords(Below) + " " + "b " == "below b ";
    assert StringifyConstraint(c) == Success("below b ");
    assert a.constraints[0] == c;
    assert ["below b "] + [] == ["below b "];
    assert StringifyConstraints(a) == Success(["below b "]);
    assert Join(["below b "], " and ") == "below b ";
    assert "a" + " " + "below b " == "a below b ";
  }
}
