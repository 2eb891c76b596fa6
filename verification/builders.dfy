/** The selector builders and argument parsing of src/ts/taiko_ts.ts.

    Arguments arrive untyped at run time. `Arg` is what a builder can be
    handed after the selector: a relative search element (folded here
    into the constraint it carries), a plain object, a primitive, `null`
    or `undefined`. Objects keep their own keys in insertion order. */
module Builders {
  import opened Wrappers
  import opened Selectors
  import opened ElementList

  datatype Arg =
    | Rel(constraint: ConstraintDesc)
    | Obj(entries: seq<(string, Value)>)
    | Prim(value: Value)
    | Null
    | Undefined

  /** The first argument of `select`. */
  datatype SelectorArg =
    | StrSelector(s: string)
    | WrapperSelector(element: ElementWrapper)
    | ListSelector(list: ElementWrapperList)

  /** A property read: the value of the first entry named `key`. */
  function Lookup(entries: seq<(string, Value)>, key: string): (r: Option<Value>)
    ensures r.None? <==> forall k :: 0 <= k < |entries| ==> entries[k].0 != key
    ensures r.Some? ==> exists k :: 0 <= k < |entries| && entries[k] == (key, r.value)
  {
    if |entries| == 0 then None
    else if entries[0].0 == key then Some(entries[0].1)
    else
      var r := Lookup(entries[1..], key);
      assert forall k :: 1 <= k < |entries| ==> entries[k] == entries[1..][k - 1];
      r
  }

  /** `.filter(isRelativeSearchElement).map((r) => r.constaintDesc)`. */
  function RelsOf(args: seq<Arg>): (r: seq<ConstraintDesc>)
    ensures |r| <= |args|
    ensures forall c :: c in r <==> Rel(c) in args
  {
    if |args| == 0 then []
    else
      assert forall a :: a in args <==> a == args[0] || a in args[1..];
      (if args[0].Rel? then [args[0].constraint] else []) + RelsOf(args[1..])
  }

  /** The relative search elements carrying `cs`. */
  function RelArgs(cs: seq<ConstraintDesc>): (r: seq<Arg>)
    ensures |r| == |cs|
    ensures forall k :: 0 <= k < |cs| ==> r[k] == Rel(cs[k])
  {
    seq(|cs|, k requires 0 <= k < |cs| => Rel(cs[k]))
  }

  lemma {:induction false} RelsOfAppend(a: seq<Arg>, b: seq<Arg>)
    ensures RelsOf(a + b) == RelsOf(a) + RelsOf(b)
    decreases |a|
  {
    if |a| > 0 {
      assert (a + b)[0] == a[0];
      assert (a + b)[1..] == a[1..] + b;
      RelsOfAppend(a[1..], b);
      var head := if a[0].Rel? then [a[0].constraint] else [];
      assert RelsOf(a + b) == head + RelsOf(a[1..] + b);
      assert RelsOf(a) == head + RelsOf(a[1..]);
      assert head + (RelsOf(a[1..]) + RelsOf(b)) == (head + RelsOf(a[1..])) + RelsOf(b);
    } else {
      assert a + b == b;
    }
  }

  /** Filtering relative search elements gives back their constraints, in
      order. */
  lemma {:induction false} RelsOfRelArgs(cs: seq<ConstraintDesc>)
    ensures RelsOf(RelArgs(cs)) == cs
    decreases |cs|
  {
    if |cs| > 0 {
      assert RelArgs(cs)[1..] == RelArgs(cs[1..]);
      RelsOfRelArgs(cs[1..]);
    }
  }

  /** A list searched by `desc`, its cache empty. */
  function ListOf(desc: SelectorDesc): (r: ElementWrapperList)
    ensures r.selectorDesc == desc && r.cache == []
  {
    ElementWrapperList(desc, [])
  }

  /** `desc` with `rels` appended to its constraints. */
  function WithConstraints(desc: SelectorDesc, rels: seq<ConstraintDesc>): (r: SelectorDesc)
    ensures r.kind == desc.kind && r.content == desc.content
    ensures r.constraints == desc.constraints + rels
  {
    desc.(constraints := desc.constraints + rels)
  }

  /** `select(selector, relativeSelectors)`. */
  function Select(selector: SelectorArg, rels: seq<ConstraintDesc>): (r: ElementWrapperList)
    ensures selector.StrSelector? ==> r.cache == [] && r.selectorDesc.content == Text(selector.s, false)
    ensures !selector.StrSelector? && |rels| > 0 ==> r.cache == []
    ensures selector.ListSelector? && |rels| == 0 ==> r == selector.list
    ensures selector.WrapperSelector? && |rels| == 0 ==>
              r == ElementWrapperList(selector.element.selectorDesc, [selector.element])
    ensures selector.StrSelector? ==> r.selectorDesc.kind == SelectorKind
    ensures selector.WrapperSelector? ==>
              r.selectorDesc.kind == selector.element.selectorDesc.kind &&
              r.selectorDesc.content == selector.element.selectorDesc.content
    ensures selector.ListSelector? ==>
              r.selectorDesc.kind == selector.list.selectorDesc.kind &&
              r.selectorDesc.content == selector.list.selectorDesc.content
    ensures r.selectorDesc.constraints ==
              match selector
              case StrSelector(_) => rels
              case WrapperSelector(e) => e.selectorDesc.constraints + rels
              case ListSelector(l) => l.selectorDesc.constraints + rels
  {
    match selector
    case StrSelector(s) =>
      var r := TextSelector(s, if |rels| > 0 then Rel(rels[0]) else Undefined, RelArgs(if |rels| > 0 then rels[1..] else []));
      SelectTextConstraints(s, rels);
      r
    case ListSelector(l) =>
      if |rels| > 0 then ListOf(WithConstraints(l.selectorDesc, rels)) else l
    case WrapperSelector(e) =>
      if |rels| > 0 then ListOf(WithConstraints(e.selectorDesc, rels))
      else NewList(None, Some(e)).value
  }

  lemma SelectTextConstraints(s: string, rels: seq<ConstraintDesc>)
    ensures TextSelector(s, if |rels| > 0 then Rel(rels[0]) else Undefined,
                         RelArgs(if |rels| > 0 then rels[1..] else [])).selectorDesc.constraints == rels
  {
    var first := if |rels| > 0 then Rel(rels[0]) else Undefined;
    var rest := if |rels| > 0 then rels[1..] else [];
    var r := TextSelector(s, first, RelArgs(rest));
    assert r.selectorDesc.constraints == RelsOf([first] + RelArgs(rest));
    RelsOfAppend([first], RelArgs(rest));
    RelsOfRelArgs(rest);
    if |rels| > 0 {
      assert RelsOf([first]) == [rels[0]];
      assert rels == [rels[0]] + rest;
    } else {
      assert RelsOf([first]) == [];
    }
  }

  /** `$(cssSelector, ...relatives)`. */
  function Dollar(css: string, relatives: seq<Arg>): (r: ElementWrapperList)
    ensures r.cache == []
    ensures r.selectorDesc.kind == SelectorKind && r.selectorDesc.content == CssSelector(css)
    ensures forall c :: c in r.selectorDesc.constraints <==> Rel(c) in relatives
  {
    ListOf(CreateSelectorDesc(CssSelector(css), RelsOf(relatives)))
  }

  /** Whether `text`'s options ask for an exact match: only an object whose
      `exactMatch` is a boolean sets it; anything else means `false`. */
  function ExactOption(options: Arg): (exact: bool)
    ensures exact <==> options.Obj? && Lookup(options.entries, "exactMatch") == Some(Bool(true))
  {
    match options
    case Obj(entries) =>
      (match Lookup(entries, "exactMatch")
       case Some(Bool(b)) => b
       case _ => false)
    case _ => false
  }

  /** `text(str, options, ...relatives)`; the options argument counts as a
      constraint when it is a relative search element. */
  function TextSelector(str: string, options: Arg, relatives: seq<Arg>): (r: ElementWrapperList)
    ensures r.cache == []
    ensures r.selectorDesc.kind == SelectorKind
    ensures r.selectorDesc.content.Text? && r.selectorDesc.content.text == str
    ensures r.selectorDesc.content.exact <==>
              options.Obj? && Lookup(options.entries, "exactMatch") == Some(Bool(true))
    ensures forall c :: c in r.selectorDesc.constraints <==> options == Rel(c) || Rel(c) in relatives
  {
    var args := [options] + relatives;
    assert forall a :: a in args <==> a == options || a in relatives;
    ListOf(CreateSelectorDesc(Text(str, ExactOption(options)), RelsOf(args)))
  }

  /** The `args.find(...) || undefined` of `textBox`: the first argument
      that is an object and not a relative search element. `null` is such
      an object, and then `|| undefined` turns it into no attributes. */
  function TextBoxAttributes(args: seq<Arg>): (r: Option<seq<(string, Value)>>)
    ensures r.Some? <==> exists k :: 0 <= k < |args| && args[k].Obj? && FirstObjectAt(args, k)
    ensures r.Some? ==> exists k :: 0 <= k < |args| && args[k] == Obj(r.value) && FirstObjectAt(args, k)
  {
    if |args| == 0 then None
    else
      match args[0]
      case Obj(entries) =>
        assert FirstObjectAt(args, 0);
        Some(entries)
      case Null =>
        assert forall k :: 0 < k < |args| ==> !FirstObjectAt(args, k);
        None
      case _ =>
        var r := TextBoxAttributes(args[1..]);
        assert forall k :: 1 <= k < |args| ==> args[k] == args[1..][k - 1];
        assert forall k :: 1 <= k < |args| ==> (FirstObjectAt(args, k) <==> FirstObjectAt(args[1..], k - 1));
        r
  }

  /** `typeof a === 'object' && !isRelativeSearchElement(a)`. */
  predicate IsPlainObject(a: Arg) {
    a.Obj? || a.Null?
  }

  /** The argument at `k` is the first plain object (or `null`). */
  predicate FirstObjectAt(args: seq<Arg>, k: nat)
    requires k < |args|
  {
    IsPlainObject(args[k]) && forall j :: 0 <= j < k ==> !IsPlainObject(args[j])
  }

  /** `textBox(attrValuePairs, ...relatives)`. */
  function TextBoxSelector(attrValuePairs: Arg, relatives: seq<Arg>): (r: ElementWrapperList)
    ensures r.cache == []
    ensures r.selectorDesc.kind == SelectorKind
    ensures r.selectorDesc.content == TextBox(TextBoxAttributes([attrValuePairs] + relatives))
    ensures forall c :: c in r.selectorDesc.constraints <==> attrValuePairs == Rel(c) || Rel(c) in relatives
  {
    var args := [attrValuePairs] + relatives;
    assert forall a :: a in args <==> a == attrValuePairs || a in relatives;
    ListOf(CreateSelectorDesc(TextBox(TextBoxAttributes(args)), RelsOf(args)))
  }

  /** `createRelativeApi(type)(selector)`: `above`, `below`, `toLeftOf`,
      `toRightOf` and `near`. */
  function RelativeApi(ctype: ConstraintType, selector: SelectorArg): (r: ConstraintDesc)
    ensures r.kind == ConstraintKind && r.ctype == ctype
    ensures r.selector == Select(selector, []).selectorDesc
    ensures selector.WrapperSelector? ==> r.selector == selector.element.selectorDesc
    ensures selector.ListSelector? ==> r.selector == selector.list.selectorDesc
    ensures selector.StrSelector? ==> r.selector == CreateSelectorDesc(Text(selector.s, false), [])
  {
    CreateConstraintDesc(Select(selector, []).selectorDesc, ctype)
  }

  // ---------------------------------------------------------------------
  // Properties of the builders

  /** `select` on a string is the non-exact text selector with the given
      constraints. */
  lemma SelectString(s: string, rels: seq<ConstraintDesc>)
    ensures Select(StrSelector(s), rels).selectorDesc == CreateSelectorDesc(Text(s, false), rels)
  {
  }

  /** Built from well-formed constraints, every builder yields a
      descriptor that resolution accepts: right kind tags, known types. */
  lemma {:induction false} BuildersWellFormed(css: string, str: string, options: Arg, relatives: seq<Arg>)
    requires forall c :: Rel(c) in relatives ==> ConstraintWellFormed(c)
    requires options.Rel? ==> ConstraintWellFormed(options.constraint)
    ensures WellFormed(Dollar(css, relatives).selectorDesc)
    ensures WellFormed(TextSelector(str, options, relatives).selectorDesc)
    ensures WellFormed(TextBoxSelector(options, relatives).selectorDesc)
  {
    var d := Dollar(css, relatives).selectorDesc;
    assert forall k :: 0 <= k < |d.constraints| ==> d.constraints[k] in d.constraints;
    var t := TextSelector(str, options, relatives).selectorDesc;
    assert forall k :: 0 <= k < |t.constraints| ==> t.constraints[k] in t.constraints;
    var b := TextBoxSelector(options, relatives).selectorDesc;
    assert forall k :: 0 <= k < |b.constraints| ==> b.constraints[k] in b.constraints;
  }

  /** The builders keep the relative search elements' constraints in
      argument order, the options argument first when it is one. */
  lemma {:induction false} BuilderConstraintsInOrder(css: string, str: string, options: Arg, cs: seq<ConstraintDesc>)
    ensures Dollar(css, RelArgs(cs)).selectorDesc.constraints == cs
    ensures var first := if options.Rel? then [options.constraint] else [];
            && TextSelector(str, options, RelArgs(cs)).selectorDesc.constraints == first + cs
            && TextBoxSelector(options, RelArgs(cs)).selectorDesc.constraints == first + cs
  {
    RelsOfRelArgs(cs);
    RelsOfAppend([options], RelArgs(cs));
    assert RelsOf([options]) == (if options.Rel? then [options.constraint] else []) + RelsOf([]);
  }

  /** A proximity constraint on a well-formed reference is well-formed. */
  lemma RelativeWellFormed(ctype: ConstraintType, selector: SelectorArg)
    requires !ctype.UnknownConstraint?
    requires selector.WrapperSelector? ==> WellFormed(selector.element.selectorDesc)
    requires selector.ListSelector? ==> WellFormed(selector.list.selectorDesc)
    ensures ConstraintWellFormed(RelativeApi(ctype, selector))
  {
  }

  // ---------------------------------------------------------------------
  // press and click

  datatype KeyEvent = KeyDown(key: string) | Pause(ms: nat) | KeyUp(key: string)

  /** `press(keys)`: every key down in order, a 10 ms pause, every key up
      in reverse order. `[].concat(keys)` makes one key a list of one. */
  function Press(keys: seq<string>): (r: seq<KeyEvent>)
    ensures |r| == 2 * |keys| + 1
    ensures forall i :: 0 <= i < |keys| ==> r[i] == KeyDown(keys[i])
    ensures r[|keys|] == Pause(10)
    ensures forall i :: |keys| < i < |r| ==> r[i] == KeyUp(keys[2 * |keys| - i])
  {
    var n := |keys|;
    seq(n, i requires 0 <= i < n => KeyDown(keys[i]))
      + [Pause(10)]
      + seq(n, i requires 0 <= i < n => KeyUp(keys[n - 1 - i]))
  }

  /** Keys are released in the reverse order of being pressed: a key
      pressed later is released earlier. */
  lemma PressNests(keys: seq<string>, i: nat, j: nat)
    requires i < j < |keys|
    ensures var r := Press(keys);
            var n := |keys|;
            && i < j < n < 2 * n - j < 2 * n - i < |r|
            && r[i] == KeyDown(keys[i]) && r[j] == KeyDown(keys[j])
            && r[2 * n - j] == KeyUp(keys[j]) && r[2 * n - i] == KeyUp(keys[i])
  {
  }

  /** The mouse button and constraints `click(selector, options,
      ...relativeSelectors)` uses: `button` defaults to "left" and a
      relative `options` argument is a constraint, not options. */
  function ClickArgs(options: Arg, relatives: seq<Arg>): (r: (Value, seq<ConstraintDesc>))
    ensures !options.Obj? ==> r.0 == Str("left")
    ensures options.Obj? ==> r.0 == Lookup(options.entries, "button").GetOr(Str("left"))
    ensures forall c :: c in r.1 <==> options == Rel(c) || Rel(c) in relatives
  {
    var args := [options] + relatives;
    assert forall a :: a in args <==> a == options || a in relatives;
    var button := match options
                  case Obj(entries) => Lookup(entries, "button").GetOr(Str("left"))
                  case _ => Str("left");
    (button, RelsOf(args))
  }
}
