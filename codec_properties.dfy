/**
 * What parseRules promises about the rules it returns and the ways it
 * fails: order is document order, the first failing element decides the
 * outcome, and which malformed inputs are swallowed and which escape.
 */
module CodecProperties {
  import opened Wrappers
  import opened Dom
  import opened Rules
  import opened Codec

  // ---------------------------------------------------------------------
  // Lists of parse results
  // ---------------------------------------------------------------------

  /** Parse results read in order: the first failure, or else every value. */
  function Collected<T>(ps: seq<Parsed<T>>): Parsed<seq<T>> {
    if ps == [] then Ok([])
    else
      var v :- ps[0];
      var rest :- Collected(ps[1..]);
      Ok([v] + rest)
  }

  /** A list is collected exactly when each of its results is a value, and then into those values, in order. */
  lemma {:induction false} CollectedInOrder<T>(ps: seq<Parsed<T>>)
    ensures Collected(ps).Ok? <==> forall i | 0 <= i < |ps| :: ps[i].Ok?
    ensures Collected(ps).Ok? ==>
      |Collected(ps).value| == |ps| && forall i | 0 <= i < |ps| :: Collected(ps).value[i] == ps[i].value
  {
    if ps != [] {
      CollectedInOrder(ps[1..]);
      assert forall i | 1 <= i < |ps| :: ps[1..][i - 1] == ps[i];
    }
  }

  /** The first failing result is the outcome of the whole list. */
  lemma {:induction false} CollectedFirstFailure<T>(ps: seq<Parsed<T>>, k: nat)
    requires k < |ps|
    requires forall i | 0 <= i < k :: ps[i].Ok?
    requires !ps[k].Ok?
    ensures Collected(ps) == ps[k].PropagateFailure()
  {
    if k > 0 {
      assert ps[0].Ok?;
      assert forall i | 0 <= i < k - 1 :: ps[1..][i] == ps[i + 1];
      CollectedFirstFailure(ps[1..], k - 1);
    }
  }

  /** Each rule element's own parse, in order. */
  function RuleResults(es: seq<Node>, cat: Catalog): (ps: seq<Parsed<Rule>>)
    requires AllElements(es)
    ensures |ps| == |es|
  {
    if es == [] then [] else [RuleOf(es[0], cat)] + RuleResults(es[1..], cat)
  }

  lemma {:induction false} RuleResultsAt(es: seq<Node>, cat: Catalog, i: nat)
    requires AllElements(es) && i < |es|
    ensures RuleResults(es, cat)[i] == RuleOf(es[i], cat)
  {
    if i > 0 {
      RuleResultsAt(es[1..], cat, i - 1);
    }
  }

  lemma {:induction false} RulesCollected(es: seq<Node>, cat: Catalog)
    requires AllElements(es)
    ensures RulesOf(es, cat) == Collected(RuleResults(es, cat))
  {
    if es != [] {
      RulesCollected(es[1..], cat);
      assert RuleResults(es, cat)[1..] == RuleResults(es[1..], cat);
    }
  }

  /** Each condition element's own parse, in order. */
  function ConditionResults(cs: seq<Node>, cat: Catalog): (ps: seq<Parsed<Condition>>)
    requires AllElements(cs)
    ensures |ps| == |cs|
  {
    if cs == [] then [] else [ConditionOf(cs[0], cat)] + ConditionResults(cs[1..], cat)
  }

  lemma {:induction false} ConditionResultsAt(cs: seq<Node>, cat: Catalog, i: nat)
    requires AllElements(cs) && i < |cs|
    ensures ConditionResults(cs, cat)[i] == ConditionOf(cs[i], cat)
  {
    if i > 0 {
      ConditionResultsAt(cs[1..], cat, i - 1);
    }
  }

  lemma {:induction false} ConditionsCollected(cs: seq<Node>, cat: Catalog)
    requires AllElements(cs)
    ensures ConditionsOf(cs, cat) == Collected(ConditionResults(cs, cat))
  {
    if cs != [] {
      ConditionsCollected(cs[1..], cat);
      assert ConditionResults(cs, cat)[1..] == ConditionResults(cs[1..], cat);
    }
  }

  /** Each action element's own parse, in order. */
  function ActionResults(acts: seq<Node>, cat: Catalog): (ps: seq<Parsed<Action>>)
    requires AllElements(acts)
    ensures |ps| == |acts|
  {
    if acts == [] then [] else [ActionOf(acts[0], cat)] + ActionResults(acts[1..], cat)
  }

  lemma {:induction false} ActionResultsAt(acts: seq<Node>, cat: Catalog, i: nat)
    requires AllElements(acts) && i < |acts|
    ensures ActionResults(acts, cat)[i] == ActionOf(acts[i], cat)
  {
    if i > 0 {
      ActionResultsAt(acts[1..], cat, i - 1);
    }
  }

  lemma {:induction false} ActionsCollected(acts: seq<Node>, cat: Catalog)
    requires AllElements(acts)
    ensures ActionsOf(acts, cat) == Collected(ActionResults(acts, cat))
  {
    if acts != [] {
      ActionsCollected(acts[1..], cat);
      assert ActionResults(acts, cat)[1..] == ActionResults(acts[1..], cat);
    }
  }

  // ---------------------------------------------------------------------
  // Rules
  // ---------------------------------------------------------------------

  /** The document parses exactly when every rule element does, into one rule per element, in order. */
  lemma {:induction false} RulesInOrder(es: seq<Node>, cat: Catalog)
    requires AllElements(es)
    ensures RulesOf(es, cat).Ok? <==> forall i | 0 <= i < |es| :: RuleOf(es[i], cat).Ok?
    ensures RulesOf(es, cat).Ok? ==>
      |RulesOf(es, cat).value| == |es|
      && forall i | 0 <= i < |es| :: RulesOf(es, cat).value[i] == RuleOf(es[i], cat).value
  {
    RulesCollected(es, cat);
    CollectedInOrder(RuleResults(es, cat));
    forall i | 0 <= i < |es|
      ensures RuleResults(es, cat)[i] == RuleOf(es[i], cat)
    {
      RuleResultsAt(es, cat, i);
    }
  }

  /** The first rule element that fails decides the outcome: swallowed or thrown alike. */
  lemma {:induction false} RulesFirstFailure(es: seq<Node>, cat: Catalog, k: nat)
    requires AllElements(es) && k < |es|
    requires forall i | 0 <= i < k :: RuleOf(es[i], cat).Ok?
    requires !RuleOf(es[k], cat).Ok?
    ensures RulesOf(es, cat) == RuleOf(es[k], cat).PropagateFailure()
  {
    RulesCollected(es, cat);
    forall i | 0 <= i <= k
      ensures RuleResults(es, cat)[i] == RuleOf(es[i], cat)
    {
      RuleResultsAt(es, cat, i);
    }
    CollectedFirstFailure(RuleResults(es, cat), k);
  }

  /** A rule element without any event descendant is rejected, and the error is swallowed. */
  lemma EventlessRuleIsSwallowed(e: Node, cat: Catalog)
    requires e.Element? && ElementsByTag(e, "event") == []
    ensures RuleOf(e, cat) == Swallowed
  {
  }

  /** A rule's parse fails as its conditions group fails, once its events have parsed. */
  lemma RuleFailsWithConditions(e: Node, cat: Catalog)
    requires e.Element?
    requires EventsOf(ElementsByTag(e, "event")).Ok? && EventsOf(ElementsByTag(e, "event")).value.Some?
    requires !ConditionsOf(FirstGroup(e, "conditions"), cat).Ok?
    ensures RuleOf(e, cat) == ConditionsOf(FirstGroup(e, "conditions"), cat).PropagateFailure()
  {
  }

  /** A rule's parse fails as its actions group fails, once its events and conditions have parsed. */
  lemma RuleFailsWithActions(e: Node, cat: Catalog)
    requires e.Element?
    requires EventsOf(ElementsByTag(e, "event")).Ok? && EventsOf(ElementsByTag(e, "event")).value.Some?
    requires ConditionsOf(FirstGroup(e, "conditions"), cat).Ok?
    requires !ActionsOf(FirstGroup(e, "actions"), cat).Ok?
    ensures RuleOf(e, cat) == ActionsOf(FirstGroup(e, "actions"), cat).PropagateFailure()
  {
  }

  /**
   * A parsed rule takes its id from the name attribute ("" when absent), its
   * event from the last event element (every one of which parsed), one
   * binding per element of the first bindings group, and its conditions and
   * actions from the first groups of each kind.
   */
  lemma RuleParts(e: Node, cat: Catalog)
    requires e.Element? && RuleOf(e, cat).Ok?
    ensures var r := RuleOf(e, cat).value;
      var evs := ElementsByTag(e, "event");
      && r.id == Attribute(e, "name")
      && |evs| > 0
      && (forall i | 0 <= i < |evs| :: EventOf(evs[i]).Ok?)
      && r.event == EventOf(evs[|evs| - 1]).value
    ensures var r := RuleOf(e, cat).value;
      var bs := FirstGroup(e, "bindings");
      && |r.bindings| == |bs|
      && forall i | 0 <= i < |bs| :: r.bindings[i] == BindingOf(bs[i])
    ensures var r := RuleOf(e, cat).value;
      && Ok(r.conditions) == ConditionsOf(FirstGroup(e, "conditions"), cat)
      && Ok(r.actions) == ActionsOf(FirstGroup(e, "actions"), cat)
  {
    RuleOk(e, cat);
    LastEventWins(ElementsByTag(e, "event"));
    BindingsInOrder(FirstGroup(e, "bindings"));
  }

  /** What a successful RuleOf is made of, one part per step of its definition. */
  lemma RuleOk(e: Node, cat: Catalog)
    requires e.Element? && RuleOf(e, cat).Ok?
    ensures var r := RuleOf(e, cat).value;
      && r.id == Attribute(e, "name")
      && EventsOf(ElementsByTag(e, "event")) == Ok(Some(r.event))
      && r.bindings == BindingsOf(FirstGroup(e, "bindings"))
      && Ok(r.conditions) == ConditionsOf(FirstGroup(e, "conditions"), cat)
      && Ok(r.actions) == ActionsOf(FirstGroup(e, "actions"), cat)
  {
  }

  // ---------------------------------------------------------------------
  // Events
  // ---------------------------------------------------------------------

  /** Parse results read in order, each replacing the one before: the first failure, or else the last value. */
  function Latest<T>(ps: seq<Parsed<T>>): Parsed<Option<T>> {
    if ps == [] then Ok(None)
    else
      var v :- ps[0];
      var later :- Latest(ps[1..]);
      Ok(if later.Some? then later else Some(v))
  }

  lemma {:induction false} LatestInOrder<T>(ps: seq<Parsed<T>>)
    ensures Latest(ps).Ok? <==> forall i | 0 <= i < |ps| :: ps[i].Ok?
    ensures Latest(ps).Ok? ==> Latest(ps).value == if ps == [] then None else Some(ps[|ps| - 1].value)
  {
    if ps != [] {
      LatestInOrder(ps[1..]);
      assert forall i | 1 <= i < |ps| :: ps[1..][i - 1] == ps[i];
    }
  }

  lemma {:induction false} LatestFirstFailure<T>(ps: seq<Parsed<T>>, k: nat)
    requires k < |ps|
    requires forall i | 0 <= i < k :: ps[i].Ok?
    requires !ps[k].Ok?
    ensures Latest(ps) == ps[k].PropagateFailure()
  {
    if k > 0 {
      assert ps[0].Ok?;
      assert forall i | 0 <= i < k - 1 :: ps[1..][i] == ps[i + 1];
      LatestFirstFailure(ps[1..], k - 1);
    }
  }

  /** Each event element's own parse, in order. */
  function EventResults(evs: seq<Node>): (ps: seq<Parsed<Event>>)
    requires AllElements(evs)
    ensures |ps| == |evs|
  {
    if evs == [] then [] else [EventOf(evs[0])] + EventResults(evs[1..])
  }

  lemma {:induction false} EventResultsAt(evs: seq<Node>, i: nat)
    requires AllElements(evs) && i < |evs|
    ensures EventResults(evs)[i] == EventOf(evs[i])
  {
    if i > 0 {
      EventResultsAt(evs[1..], i - 1);
    }
  }

  lemma {:induction false} EventsLatest(evs: seq<Node>)
    requires AllElements(evs)
    ensures EventsOf(evs) == Latest(EventResults(evs))
  {
    if evs != [] {
      EventsLatest(evs[1..]);
      assert EventResults(evs)[1..] == EventResults(evs[1..]);
    }
  }

  /**
   * The events of a rule parse exactly when each event element does; the
   * rule's event is then the last one, and there is none only when there
   * are no event elements.
   */
  lemma {:induction false} LastEventWins(evs: seq<Node>)
    requires AllElements(evs)
    ensures EventsOf(evs).Ok? <==> forall i | 0 <= i < |evs| :: EventOf(evs[i]).Ok?
    ensures EventsOf(evs).Ok? ==>
      EventsOf(evs).value == if evs == [] then None else Some(EventOf(evs[|evs| - 1]).value)
  {
    EventsLatest(evs);
    LatestInOrder(EventResults(evs));
    forall i | 0 <= i < |evs|
      ensures EventResults(evs)[i] == EventOf(evs[i])
    {
      EventResultsAt(evs, i);
    }
  }

  /** The first event element that fails decides the outcome. */
  lemma {:induction false} EventsFirstFailure(evs: seq<Node>, k: nat)
    requires AllElements(evs) && k < |evs|
    requires forall i | 0 <= i < k :: EventOf(evs[i]).Ok?
    requires !EventOf(evs[k]).Ok?
    ensures EventsOf(evs) == EventOf(evs[k]).PropagateFailure()
  {
    EventsLatest(evs);
    forall i | 0 <= i <= k
      ensures EventResults(evs)[i] == EventOf(evs[i])
    {
      EventResultsAt(evs, i);
    }
    LatestFirstFailure(EventResults(evs), k);
  }

  /**
   * An event element fails by an escaping exception, never a swallowed one:
   * IllegalArgument for a type that names no Event.Type constant, NullPointer
   * for a known type without a param element.
   */
  lemma EventFailures(ev: Node)
    requires ev.Element?
    ensures EventOf(ev) != Swallowed
    ensures EventOf(ev) == Thrown(IllegalArgument) <==> EventTypeNamed(Attribute(ev, "type")).None?
    ensures EventOf(ev) == Thrown(NullPointer)
        <==> EventTypeNamed(Attribute(ev, "type")).Some? && ElementsByTag(ev, "param") == []
  {
  }

  // ---------------------------------------------------------------------
  // Bindings and their function trees
  // ---------------------------------------------------------------------

  /** One binding per element of the bindings group, in order. */
  lemma {:induction false} BindingsInOrder(bs: seq<Node>)
    requires AllElements(bs)
    ensures |BindingsOf(bs)| == |bs|
    ensures forall i | 0 <= i < |bs| :: BindingsOf(bs)[i] == BindingOf(bs[i])
  {
    if bs != [] {
      BindingsInOrder(bs[1..]);
      assert forall i | 1 <= i < |bs| :: bs[1..][i - 1] == bs[i];
    }
  }

  /**
   * createFunction's arguments are the element children, in order: an untyped
   * one is a literal of its untrimmed text, a typed one a call built the same
   * way from its own children.
   */
  lemma {:induction false} ArgsInOrder(ps: seq<Node>)
    ensures |ArgsOf(ps)| == |Elements(ps)|
    ensures forall i | 0 <= i < |Elements(ps)| ::
      var p := Elements(ps)[i];
      ArgsOf(ps)[i] == if Attribute(p, "type") == "" then Literal(TextContent(p))
                       else Call(Attribute(p, "type"), ArgsOf(p.children))
  {
    if ps != [] {
      ArgsInOrder(ps[1..]);
      var es, rest := Elements(ps), Elements(ps[1..]);
      if ps[0].Element? {
        assert es == [ps[0]] + rest;
        assert ArgsOf(ps) == [ArgOf(ps[0])] + ArgsOf(ps[1..]);
        forall i | 1 <= i < |es|
          ensures es[i] == rest[i - 1] && ArgsOf(ps)[i] == ArgsOf(ps[1..])[i - 1]
        {
        }
      } else {
        assert es == rest && ArgsOf(ps) == ArgsOf(ps[1..]);
      }
    }
  }

  /**
   * An untyped binding is a literal of its trimmed text; a typed one is a
   * call of that type whose arguments are createFunction's, one per element
   * child in order, each built as ArgOf describes.
   */
  lemma BindingShape(b: Node)
    requires b.Element?
    ensures Attribute(b, "type") == "" ==> BindingOf(b).expr == Literal(Trim(TextContent(b)))
    ensures Attribute(b, "type") != "" ==>
      var ps := Elements(b.children);
      && BindingOf(b).expr == Call(Attribute(b, "type"), ArgsOf(b.children))
      && |BindingOf(b).expr.args| == |ps|
      && forall i | 0 <= i < |ps| :: BindingOf(b).expr.args[i] == ArgOf(ps[i])
    ensures BindingOf(b).name == Attribute(b, "name")
    ensures BindingOf(b).strict <==> "strict" in b.attrs && BooleanValueOf(b.attrs["strict"])
  {
    ArgsInOrder(b.children);
  }

  // ---------------------------------------------------------------------
  // Conditions
  // ---------------------------------------------------------------------

  lemma {:induction false} ConditionsInOrder(cs: seq<Node>, cat: Catalog)
    requires AllElements(cs)
    ensures ConditionsOf(cs, cat).Ok? <==> forall i | 0 <= i < |cs| :: ConditionOf(cs[i], cat).Ok?
    ensures ConditionsOf(cs, cat).Ok? ==>
      |ConditionsOf(cs, cat).value| == |cs|
      && forall i | 0 <= i < |cs| :: ConditionsOf(cs, cat).value[i] == ConditionOf(cs[i], cat).value
  {
    ConditionsCollected(cs, cat);
    CollectedInOrder(ConditionResults(cs, cat));
    forall i | 0 <= i < |cs|
      ensures ConditionResults(cs, cat)[i] == ConditionOf(cs[i], cat)
    {
      ConditionResultsAt(cs, cat, i);
    }
  }

  lemma {:induction false} ConditionsFirstFailure(cs: seq<Node>, cat: Catalog, k: nat)
    requires AllElements(cs) && k < |cs|
    requires forall i | 0 <= i < k :: ConditionOf(cs[i], cat).Ok?
    requires !ConditionOf(cs[k], cat).Ok?
    ensures ConditionsOf(cs, cat) == ConditionOf(cs[k], cat).PropagateFailure()
  {
    ConditionsCollected(cs, cat);
    forall i | 0 <= i <= k
      ensures ConditionResults(cs, cat)[i] == ConditionOf(cs[i], cat)
    {
      ConditionResultsAt(cs, cat, i);
    }
    CollectedFirstFailure(ConditionResults(cs, cat), k);
  }

  /**
   * A condition with an unknown type escapes (the type is looked up first);
   * one with a known type but not exactly two param descendants is swallowed.
   */
  lemma ConditionFailures(c: Node, cat: Catalog)
    requires c.Element?
    ensures ConditionOf(c, cat) == Thrown(IllegalArgument) <==> Attribute(c, "type") !in cat.conditionTypes
    ensures ConditionOf(c, cat) == Swallowed
        <==> Attribute(c, "type") in cat.conditionTypes && |ElementsByTag(c, "param")| != 2
    ensures ConditionOf(c, cat) != Thrown(NullPointer)
    ensures "type" !in c.attrs ==> ConditionOf(c, cat) == Thrown(IllegalArgument)
  {
  }

  // ---------------------------------------------------------------------
  // Actions
  // ---------------------------------------------------------------------

  lemma {:induction false} ActionsInOrder(acts: seq<Node>, cat: Catalog)
    requires AllElements(acts)
    ensures ActionsOf(acts, cat).Ok? <==> forall i | 0 <= i < |acts| :: ActionOf(acts[i], cat).Ok?
    ensures ActionsOf(acts, cat).Ok? ==>
      |ActionsOf(acts, cat).value| == |acts|
      && forall i | 0 <= i < |acts| :: ActionsOf(acts, cat).value[i] == ActionOf(acts[i], cat).value
  {
    ActionsCollected(acts, cat);
    CollectedInOrder(ActionResults(acts, cat));
    forall i | 0 <= i < |acts|
      ensures ActionResults(acts, cat)[i] == ActionOf(acts[i], cat)
    {
      ActionResultsAt(acts, cat, i);
    }
  }

  lemma {:induction false} ActionsFirstFailure(acts: seq<Node>, cat: Catalog, k: nat)
    requires AllElements(acts) && k < |acts|
    requires forall i | 0 <= i < k :: ActionOf(acts[i], cat).Ok?
    requires !ActionOf(acts[k], cat).Ok?
    ensures ActionsOf(acts, cat) == ActionOf(acts[k], cat).PropagateFailure()
  {
    ActionsCollected(acts, cat);
    forall i | 0 <= i <= k
      ensures ActionResults(acts, cat)[i] == ActionOf(acts[i], cat)
    {
      ActionResultsAt(acts, cat, i);
    }
    CollectedFirstFailure(ActionResults(acts, cat), k);
  }

  /**
   * An action fails only on an unknown type, by an escaping exception; a
   * parsed action's params are all its param descendants' trimmed texts.
   */
  lemma ActionFailures(a: Node, cat: Catalog)
    requires a.Element?
    ensures !ActionOf(a, cat).Ok? <==> Attribute(a, "type") !in cat.actionTypes
    ensures !ActionOf(a, cat).Ok? ==> ActionOf(a, cat) == Thrown(IllegalArgument)
    ensures "type" !in a.attrs ==> ActionOf(a, cat) == Thrown(IllegalArgument)
    ensures ActionOf(a, cat).Ok? ==>
      var ps := ElementsByTag(a, "param");
      |ActionOf(a, cat).value.params| == |ps|
      && forall k | 0 <= k < |ps| :: ActionOf(a, cat).value.params[k] == Trim(TextContent(ps[k]))
  {
  }
}
