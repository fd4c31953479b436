/**
 * RuleHandler.InputOutputHandler.parseRules and createFunction: turning the
 * element tree of a rules document into an ordered list of rules.
 *
 * The functions (…Of) say what a document denotes; the methods (Parse…)
 * walk it with the source's index loops and are proved to compute exactly
 * those functions. A failure is one of the two ways parseRules ends early:
 * an IOException it logs and turns into null (Swallowed), or an unchecked
 * exception that escapes it (Thrown).
 */
module Codec {
  import opened Wrappers
  import opened Dom
  import opened Rules

  /** The unchecked exceptions that escape parseRules. */
  datatype Unchecked =
    | IllegalArgument  // Enum.valueOf on a name that is not a constant
    | NullPointer      // an event element without any param element

  datatype Parsed<+T> = Ok(value: T) | Swallowed | Thrown(error: Unchecked) {

    predicate IsFailure() {
      !Ok?
    }

    function PropagateFailure<U>(): (r: Parsed<U>)
      requires !Ok?
    {
      if Swallowed? then Swallowed else Thrown(error)
    }

    function Extract(): T
      requires Ok?
    {
      value
    }
  }

  /** The items collected so far followed by what the rest of the list yields, or the rest's failure. */
  function Prefixed<T>(done: seq<T>, rest: Parsed<seq<T>>): Parsed<seq<T>> {
    match rest
    case Ok(v) => Ok(done + v)
    case Swallowed => Swallowed
    case Thrown(x) => Thrown(x)
  }

  // ---------------------------------------------------------------------
  // What a document denotes
  // ---------------------------------------------------------------------

  /** One event element: its type must name an Event.Type constant, its first param descendant gives the pattern. */
  function EventOf(ev: Node): Parsed<Event>
    requires ev.Element?
  {
    match EventTypeNamed(Attribute(ev, "type"))
    case None => Thrown(IllegalArgument)
    case Some(t) =>
      var ps := ElementsByTag(ev, "param");
      if ps == [] then Thrown(NullPointer)
      else Ok(Event(t, Trim(TextContent(ps[0]))))
  }

  /** Every event element of a rule, in order: each must parse, and the last one is the rule's event. */
  function EventsOf(evs: seq<Node>): Parsed<Option<Event>>
    requires AllElements(evs)
  {
    if evs == [] then Ok(None)
    else
      var e :- EventOf(evs[0]);
      var later :- EventsOf(evs[1..]);
      Ok(if later.Some? then later else Some(e))
  }

  /** The event in force once the later event elements have been read over the current one. */
  function Overridden(current: Option<Event>, later: Parsed<Option<Event>>): Parsed<Option<Event>> {
    match later
    case Ok(e) => Ok(if e.Some? then e else current)
    case Swallowed => Swallowed
    case Thrown(x) => Thrown(x)
  }

  /** A binding argument: an untyped element is a literal of its untrimmed text, a typed one a nested call. */
  function ArgOf(p: Node): Expr
    requires p.Element?
    decreases p
  {
    var t := Attribute(p, "type");
    if t == "" then Literal(TextContent(p)) else Call(t, ArgsOf(p.children))
  }

  /** createFunction's arguments: one per element child, in order; text children are skipped. */
  function ArgsOf(ps: seq<Node>): seq<Expr>
    decreases ps
  {
    if ps == [] then []
    else (if ps[0].Element? then [ArgOf(ps[0])] else []) + ArgsOf(ps[1..])
  }

  /** A binding element: untyped, a literal of its trimmed text; typed, a call over its element children. */
  function BindingOf(b: Node): Binding
    requires b.Element?
  {
    var t := Attribute(b, "type");
    var strict := "strict" in b.attrs && BooleanValueOf(b.attrs["strict"]);
    var f := if t == "" then Literal(Trim(TextContent(b))) else Call(t, ArgsOf(b.children));
    Binding(Attribute(b, "name"), f, strict)
  }

  function BindingsOf(bs: seq<Node>): seq<Binding>
    requires AllElements(bs)
  {
    if bs == [] then [] else [BindingOf(bs[0])] + BindingsOf(bs[1..])
  }

  /** A condition element: a catalogued type and exactly two param descendants. */
  function ConditionOf(c: Node, cat: Catalog): Parsed<Condition>
    requires c.Element?
  {
    var t := Attribute(c, "type");
    if t !in cat.conditionTypes then Thrown(IllegalArgument)
    else
      var ps := ElementsByTag(c, "param");
      if |ps| != 2 then Swallowed
      else Ok(Condition(t, Trim(TextContent(ps[0])), Trim(TextContent(ps[1]))))
  }

  function ConditionsOf(cs: seq<Node>, cat: Catalog): Parsed<seq<Condition>>
    requires AllElements(cs)
  {
    if cs == [] then Ok([])
    else
      var c :- ConditionOf(cs[0], cat);
      var rest :- ConditionsOf(cs[1..], cat);
      Ok([c] + rest)
  }

  /** The trimmed text of each node, in order. */
  function TrimmedTexts(ps: seq<Node>): (r: seq<string>)
    ensures |r| == |ps|
  {
    seq(|ps|, k requires 0 <= k < |ps| => Trim(TextContent(ps[k])))
  }

  /** An action element: a catalogued type, and every param descendant's trimmed text in document order. */
  function ActionOf(a: Node, cat: Catalog): Parsed<Action>
    requires a.Element?
  {
    var t := Attribute(a, "type");
    if t !in cat.actionTypes then Thrown(IllegalArgument)
    else Ok(Action(t, TrimmedTexts(ElementsByTag(a, "param"))))
  }

  function ActionsOf(acts: seq<Node>, cat: Catalog): Parsed<seq<Action>>
    requires AllElements(acts)
  {
    if acts == [] then Ok([])
    else
      var a :- ActionOf(acts[0], cat);
      var rest :- ActionsOf(acts[1..], cat);
      Ok([a] + rest)
  }

  /** The element children of the first descendant with the tag, or none when there is no such descendant. */
  function FirstGroup(e: Node, tag: string): (es: seq<Node>)
    requires e.Element?
    ensures AllElements(es)
  {
    var gs := ElementsByTag(e, tag);
    if gs == [] then [] else Elements(gs[0].children)
  }

  /**
   * One rule element: its events are read first, a rule without any event is
   * rejected, then the first bindings, conditions and actions groups.
   */
  function RuleOf(e: Node, cat: Catalog): Parsed<Rule>
    requires e.Element?
  {
    var event :- EventsOf(ElementsByTag(e, "event"));
    if event.None? then Swallowed
    else
      var conditions :- ConditionsOf(FirstGroup(e, "conditions"), cat);
      var actions :- ActionsOf(FirstGroup(e, "actions"), cat);
      Ok(Rule(Attribute(e, "name"), event.value, BindingsOf(FirstGroup(e, "bindings")), conditions, actions))
  }

  /** The rule elements of a document, in order; the first one that fails ends the parse. */
  function RulesOf(es: seq<Node>, cat: Catalog): Parsed<seq<Rule>>
    requires AllElements(es)
  {
    if es == [] then Ok([])
    else
      var r :- RuleOf(es[0], cat);
      var rest :- RulesOf(es[1..], cat);
      Ok([r] + rest)
  }

  // ---------------------------------------------------------------------
  // The parser as written: index loops over child nodes
  // ---------------------------------------------------------------------

  /** Stepping over one node of a child list: an element contributes itself, a text node nothing. */
  lemma ElementsStep(ns: seq<Node>, i: nat)
    requires i < |ns|
    ensures !ns[i].Element? ==> Elements(ns[i..]) == Elements(ns[i + 1..])
    ensures ns[i].Element? ==> Elements(ns[i..]) != [] && Elements(ns[i..])[0] == ns[i]
                               && Elements(ns[i..])[1..] == Elements(ns[i + 1..])
  {
    assert ns[i..][1..] == ns[i + 1..];
  }

  lemma PrefixedNothing<T>(rest: Parsed<seq<T>>)
    ensures Prefixed([], rest) == rest
  {
    if rest.Ok? {
      assert [] + rest.value == rest.value;
    }
  }

  /** Reading an event over the current one and then the later ones leaves whatever the later ones leave. */
  lemma OverriddenStep(current: Option<Event>, e: Event, later: Parsed<Option<Event>>)
    ensures Overridden(current, Overridden(Some(e), later)) == Overridden(Some(e), later)
  {
  }

  /** One step of the events loop: an event element that parses becomes the current event. */
  lemma EventsStep(evs: seq<Node>, j: nat)
    requires AllElements(evs) && j < |evs|
    ensures EventOf(evs[j]).Ok? ==> EventsOf(evs[j..]) == Overridden(Some(EventOf(evs[j]).value), EventsOf(evs[j + 1..]))
    ensures !EventOf(evs[j]).Ok? ==> EventsOf(evs[j..]) == EventOf(evs[j]).PropagateFailure()
  {
    assert evs[j..][0] == evs[j];
    assert evs[j..][1..] == evs[j + 1..];
  }

  /** One step of the bindings loop. */
  lemma BindingsStep(children: seq<Node>, j: nat)
    requires j < |children|
    ensures !children[j].Element? ==> BindingsOf(Elements(children[j..])) == BindingsOf(Elements(children[j + 1..]))
    ensures children[j].Element? ==>
      BindingsOf(Elements(children[j..])) == [BindingOf(children[j])] + BindingsOf(Elements(children[j + 1..]))
  {
    ElementsStep(children, j);
  }

  /** The bindings loop's invariant survives one more child, given the binding it built for an element. */
  lemma BindingsAdvance(children: seq<Node>, j: nat, bs: seq<Binding>, b: Binding)
    requires j < |children|
    requires BindingsOf(Elements(children)) == bs + BindingsOf(Elements(children[j..]))
    requires children[j].Element? ==> b == BindingOf(children[j])
    ensures BindingsOf(Elements(children))
         == (if children[j].Element? then bs + [b] else bs) + BindingsOf(Elements(children[j + 1..]))
  {
    BindingsStep(children, j);
    if children[j].Element? {
      ConcatAssoc(bs, [b], BindingsOf(Elements(children[j + 1..])));
    }
  }

  lemma ConcatAssoc<T>(a: seq<T>, b: seq<T>, c: seq<T>)
    ensures a + (b + c) == (a + b) + c
  {
  }

  lemma PrefixedAssoc<T>(done: seq<T>, more: seq<T>, rest: Parsed<seq<T>>)
    ensures Prefixed(done, Prefixed(more, rest)) == Prefixed(done + more, rest)
  {
    if rest.Ok? {
      assert done + (more + rest.value) == (done + more) + rest.value;
    }
  }

  /** parseRules: every element child of the document element, in order, becomes one rule. */
  method ParseRules(root: Node, cat: Catalog) returns (r: Parsed<seq<Rule>>)
    requires root.Element?
    ensures r == RulesOf(Elements(root.children), cat)
  {
    var nodes := root.children;
    var rules: seq<Rule> := [];
    var i := 0;
    assert nodes[i..] == nodes;
    PrefixedNothing(RulesOf(Elements(nodes), cat));
    while i < |nodes|
      invariant 0 <= i <= |nodes|
      invariant RulesOf(Elements(nodes), cat) == Prefixed(rules, RulesOf(Elements(nodes[i..]), cat))
    {
      ElementsStep(nodes, i);
      if nodes[i].Element? {
        var rule := ParseRule(nodes[i], cat);
        if rule.IsFailure() {
          return rule.PropagateFailure();
        }
        PrefixedAssoc(rules, [rule.value], RulesOf(Elements(nodes[i + 1..]), cat));
        rules := rules + [rule.value];
      }
      i := i + 1;
    }
    assert nodes[i..] == [] && rules + [] == rules;
    return Ok(rules);
  }

  /** The body of parseRules' outer loop for one rule element. */
  method ParseRule(e: Node, cat: Catalog) returns (r: Parsed<Rule>)
    requires e.Element?
    ensures r == RuleOf(e, cat)
  {
    var id := Attribute(e, "name");
    var events := ElementsByTag(e, "event");
    var bindings := ElementsByTag(e, "bindings");
    var conditions := ElementsByTag(e, "conditions");
    var actions := ElementsByTag(e, "actions");

    var event := ParseEvents(events);
    if event.IsFailure() {
      return event.PropagateFailure();
    }
    if event.value.None? {
      return Swallowed;
    }

    var bs: seq<Binding> := [];
    if |bindings| > 0 {
      bs := ParseBindings(bindings[0].children);
    }

    var cs: seq<Condition> := [];
    if |conditions| > 0 {
      var parsed := ParseConditions(conditions[0].children, cat);
      if parsed.IsFailure() {
        return parsed.PropagateFailure();
      }
      cs := parsed.value;
    }

    var acts: seq<Action> := [];
    if |actions| > 0 {
      var parsed := ParseActions(actions[0].children, cat);
      if parsed.IsFailure() {
        return parsed.PropagateFailure();
      }
      acts := parsed.value;
    }

    return Ok(Rule(id, event.value.value, bs, cs, acts));
  }

  /** The events loop: each event element overwrites the one before. */
  method ParseEvents(evs: seq<Node>) returns (r: Parsed<Option<Event>>)
    requires AllElements(evs)
    ensures r == EventsOf(evs)
  {
    var event: Option<Event> := None;
    var j := 0;
    assert evs[j..] == evs;
    while j < |evs|
      invariant 0 <= j <= |evs|
      invariant EventsOf(evs) == Overridden(event, EventsOf(evs[j..]))
    {
      EventsStep(evs, j);
      var ev := evs[j];
      var t := EventTypeNamed(Attribute(ev, "type"));
      if t.None? {
        assert EventOf(ev) == Thrown(IllegalArgument);
        return Thrown(IllegalArgument);
      }
      var params := ElementsByTag(ev, "param");
      if |params| == 0 {
        assert EventOf(ev) == Thrown(NullPointer);
        return Thrown(NullPointer);
      }
      var e := Event(t.value, Trim(TextContent(params[0])));
      assert EventOf(ev) == Ok(e);
      OverriddenStep(event, e, EventsOf(evs[j + 1..]));
      event := Some(e);
      j := j + 1;
    }
    assert evs[j..] == [];
    return Ok(event);
  }

  /** The bindings loop: one binding per element child of the bindings group. */
  method ParseBindings(children: seq<Node>) returns (bs: seq<Binding>)
    ensures bs == BindingsOf(Elements(children))
  {
    bs := [];
    var j := 0;
    assert children[j..] == children;
    while j < |children|
      invariant 0 <= j <= |children|
      invariant BindingsOf(Elements(children)) == bs + BindingsOf(Elements(children[j..]))
    {
      var node := children[j];
      if node.Element? {
        var name := Attribute(node, "name");
        var t := Attribute(node, "type");
        var strict := if "strict" in node.attrs then BooleanValueOf(node.attrs["strict"]) else false;
        var f: Expr;
        if t == "" {
          f := Literal(Trim(TextContent(node)));
        } else {
          f := Call(t, ArgsOf(node.children));
        }
        BindingsAdvance(children, j, bs, Binding(name, f, strict));
        bs := bs + [Binding(name, f, strict)];
      } else {
        BindingsAdvance(children, j, bs, Binding("", Literal(""), false));
      }
      j := j + 1;
    }
    assert children[j..] == [] && bs + [] == bs;
  }

  /** The conditions loop: the type is looked up before the parameter count is checked. */
  method ParseConditions(children: seq<Node>, cat: Catalog) returns (r: Parsed<seq<Condition>>)
    ensures r == ConditionsOf(Elements(children), cat)
  {
    var cs: seq<Condition> := [];
    var j := 0;
    assert children[j..] == children;
    PrefixedNothing(ConditionsOf(Elements(children), cat));
    while j < |children|
      invariant 0 <= j <= |children|
      invariant ConditionsOf(Elements(children), cat) == Prefixed(cs, ConditionsOf(Elements(children[j..]), cat))
    {
      ElementsStep(children, j);
      var node := children[j];
      if node.Element? {
        var t := Attribute(node, "type");
        if t !in cat.conditionTypes {
          return Thrown(IllegalArgument);
        }
        var params := ElementsByTag(node, "param");
        if |params| != 2 {
          return Swallowed;
        }
        var c := Condition(t, Trim(TextContent(params[0])), Trim(TextContent(params[1])));
        PrefixedAssoc(cs, [c], ConditionsOf(Elements(children[j + 1..]), cat));
        cs := cs + [c];
      }
      j := j + 1;
    }
    assert children[j..] == [] && cs + [] == cs;
    return Ok(cs);
  }

  /** The actions loop: one action per element child of the actions group. */
  method ParseActions(children: seq<Node>, cat: Catalog) returns (r: Parsed<seq<Action>>)
    ensures r == ActionsOf(Elements(children), cat)
  {
    var acts: seq<Action> := [];
    var j := 0;
    assert children[j..] == children;
    PrefixedNothing(ActionsOf(Elements(children), cat));
    while j < |children|
      invariant 0 <= j <= |children|
      invariant ActionsOf(Elements(children), cat) == Prefixed(acts, ActionsOf(Elements(children[j..]), cat))
    {
      ElementsStep(children, j);
      var node := children[j];
      if node.Element? {
        var t := Attribute(node, "type");
        if t !in cat.actionTypes {
          return Thrown(IllegalArgument);
        }
        var params := ParseActionParams(ElementsByTag(node, "param"));
        var a := Action(t, params);
        assert a == ActionOf(node, cat).value;
        PrefixedAssoc(acts, [a], ActionsOf(Elements(children[j + 1..]), cat));
        acts := acts + [a];
      }
      j := j + 1;
    }
    assert children[j..] == [] && acts + [] == acts;
    return Ok(acts);
  }

  /** The params array of an action: slot k holds the trimmed text of the k-th param descendant. */
  method ParseActionParams(ps: seq<Node>) returns (texts: seq<string>)
    ensures |texts| == |ps|
    ensures forall k | 0 <= k < |ps| :: texts[k] == Trim(TextContent(ps[k]))
  {
    var params := new string[|ps|];
    var k := 0;
    while k < |ps|
      invariant 0 <= k <= |ps|
      invariant forall m | 0 <= m < k :: params[m] == Trim(TextContent(ps[m]))
    {
      params[k] := Trim(TextContent(ps[k]));
      k := k + 1;
    }
    texts := params[..];
  }
}
