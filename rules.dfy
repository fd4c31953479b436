/**
 * The rule graph the engine works with: a rule has an id, one event, and
 * ordered bindings, conditions and actions. A binding computes a value from
 * a tree of function calls whose leaves are static literals.
 */
module Rules {
  import opened Wrappers

  /** Event.Type: which change notifications a rule reacts to. */
  datatype EventType = NodeCreated | NodeUpdated | NodeCreatedUpdated | NodeDeleted

  /** The constant names Event.Type.valueOf accepts. */
  function EventTypeName(t: EventType): string {
    match t
    case NodeCreated => "nodeCreated"
    case NodeUpdated => "nodeUpdated"
    case NodeCreatedUpdated => "nodeCreatedUpdated"
    case NodeDeleted => "nodeDeleted"
  }

  /** Event.Type.valueOf: None stands for the IllegalArgumentException it throws on any other name. */
  function EventTypeNamed(s: string): (r: Option<EventType>)
    ensures r.Some? ==> EventTypeName(r.value) == s
  {
    if s == "nodeCreated" then Some(NodeCreated)
    else if s == "nodeUpdated" then Some(NodeUpdated)
    else if s == "nodeCreatedUpdated" then Some(NodeCreatedUpdated)
    else if s == "nodeDeleted" then Some(NodeDeleted)
    else None
  }

  /** valueOf accepts exactly the four constant names and inverts EventTypeName. */
  lemma EventTypeNamedInverse(t: EventType, s: string)
    ensures EventTypeNamed(s) == Some(t) <==> s == EventTypeName(t)
  {
  }

  /** The event part of a rule: its type and the path pattern it listens on. */
  datatype Event = Event(eventType: EventType, pattern: string)

  /**
   * A binding's function tree: a StaticValueFunction holding literal text,
   * or a function from the factory applied to argument functions in order.
   */
  datatype Expr =
    | Literal(text: string)
    | Call(name: string, args: seq<Expr>)

  datatype Binding = Binding(name: string, expr: Expr, strict: bool)

  /** A condition of a catalogued type over two parameter strings. */
  datatype Condition = Condition(conditionType: string, left: string, right: string)

  /** An action of a catalogued type over an ordered list of parameter strings. */
  datatype Action = Action(actionType: string, params: seq<string>)

  datatype Rule = Rule(
    id: string,
    event: Event,
    bindings: seq<Binding>,
    conditions: seq<Condition>,
    actions: seq<Action>)

  /** The constant names of the Condition.Type and Action.Type enumerations. */
  datatype TypeNames = TypeNames(conditionTypes: set<string>, actionTypes: set<string>)

  /**
   * An enumeration constant is a Java identifier, never the empty string, so
   * valueOf("") (a missing type attribute) always throws.
   */
  type Catalog = c: TypeNames | "" !in c.conditionTypes && "" !in c.actionTypes
    witness TypeNames({}, {})

  /** Boolean.valueOf: true exactly for "true" in any mix of upper and lower case. */
  predicate BooleanValueOf(s: string) {
    |s| == 4 && s[0] in "tT" && s[1] in "rR" && s[2] in "uU" && s[3] in "eE"
  }
}
