# RuleHandler: the event-condition-action core of nodekeeper

nodekeeper keeps a tree of nodes in a coordination store and lets
event-condition-action rules react to changes in it. `RuleHandler` is the
engine behind those rules. It has three parts:

- a **registry** of rules keyed by id, where each stored rule has one node
  listener registered with the store under the rule's path pattern;
- a **dispatcher**, the listener each rule gets. On a matching change
  notification it binds named variables, checks the rule's conditions, and
  runs its actions;
- a **reader** (`InputOutputHandler.parseRules` and `createFunction`) that
  turns a rules document into an ordered list of rules. In that list,
  bindings are trees of function calls.

The Dafny model follows the Java class part by part:

| file | models |
|---|---|
| `dom.dfy` | The already-parsed element tree, plus the DOM queries the reader uses. These are `getAttribute` (empty string when the attribute is absent), `getTextContent`, `getElementsByTagName` (descendants in document order) and Java's `String.trim`. |
| `rules.dfy` | The rule graph: `Event.Type` and its `valueOf`, events, binding function trees, conditions, actions and rules. |
| `codec.dfy` | `parseRules`/`createFunction`. Functions (`RulesOf`, `RuleOf`, `EventsOf`, …) say what a document denotes. Methods with the source's index loops (`ParseRules`, `ParseRule`, …) are proved to compute exactly those functions. |
| `codec_properties.dfy` | What the reader promises: document order, which failure wins, which malformed inputs are swallowed and which escape. |
| `dispatch.dfy` | The anonymous listener: `bindVariables`, `checkConditions`, `execute` and the three `onNode*` entry points. |
| `registry.dfy` | The class `RuleHandler`: `addRule`, `removeRule`, `getRule`, `getRuleIds`, `readRules`, `activateRule`/`deactivateRule`. Also a corrected `readRules` (see Findings). |

Parsing can end in one of three ways, all visible in the source:

- it returns the rule list (`Ok`);
- an `IOException` raised inside it is logged and turned into `null` (`Swallowed`, lines 314-321);
- an unchecked exception escapes it (`Thrown`). Either `Enum.valueOf` rejects a type name (`IllegalArgument`), or an event has no `param` element (`NullPointer`, line 216).

The store is not modelled. The handler's calls on it (`addListener`,
`removeListener`, `startListeners`) are recorded in a ghost trace `calls`.
The listeners the store holds for the handler are what that trace adds and
removes (`Registered`).

The class invariant `Valid` says that the store holds exactly one
registration per stored rule. That registration is the rule's own listener
under the rule's own pattern.

The pluggable parts are also outside the model: `FunctionFactory`,
`Binding.execute`, `Condition.execute` and `Action.execute`. They enter the
dispatcher as inputs:

- each binding's result, or `None` when it threw a `RuntimeException`;
- a truth function for conditions;
- each action's outcome, where an unchecked `RuntimeException` is an
  escaping `Raised(RuntimeError)` like the checked exceptions other than
  `ActionException`.

The enumerations `Condition.Type` and `Action.Type` enter the reader as a
`Catalog` of constant names. A constant is a Java identifier, so the catalog
never holds `""`, and a missing `type` attribute always escapes.

### Where the code departs from the intended behaviour

The model follows the code in each case:

- **Unknown type names escape.** An unknown event, condition or action type
  is an unchecked exception that escapes `parseRules`. It is not a handled
  parse error. The `null` checks after `getAttribute` and `valueOf` can
  never fire: `getAttribute` returns `""` and `valueOf` throws.
- **The length test at line 211 never fails.** An event without a `param`
  element fails at line 216 with a `NullPointerException`. That exception
  escapes before the registry is touched.
- **A rule with several events is accepted.** When a rule has several
  `event` elements, the last one wins (lines 204-218). A rule is meant to
  have exactly one event.
- **Two condition params are counted among descendants.** A condition needs
  exactly two `param` elements, but they are counted among all its
  descendants (`getElementsByTagName`), not only among its children.
- **Function arguments are not filtered by tag.** The arguments of a typed
  binding are all its element children, whatever their tag. The text of an
  untyped argument is not trimmed (line 336). The text of an untyped
  binding is trimmed (line 234).
- **Reload is not atomic.** A reload is meant to be atomic: a document that
  fails to parse should leave the registry as it was. This holds for errors
  that escape the parser. A swallowed error, however, empties the registry
  (see Findings).

## Model

| member | source | states |
|---|---|---|
| Rules.EventTypeNamed | src/main/java/at/salzburgresearch/nodekeeper/eca/RuleHandler.java:213 | `Event.Type.valueOf` returns a constant only when the string is exactly that constant's name. |
| Rules.EventTypeNamedInverse | src/main/java/at/salzburgresearch/nodekeeper/eca/RuleHandler.java:213 | `valueOf(s)` is `t` if and only if `s` is `t`'s name. So exactly the four names are accepted, and naming then `valueOf` is the identity. |
| Dom.Elements | src/main/java/at/salzburgresearch/nodekeeper/eca/RuleHandler.java:189-192 | The ELEMENT_NODE filter over a child list yields only elements and never more nodes than it was given. |
| Dom.ElementsMembers | src/main/java/at/salzburgresearch/nodekeeper/eca/RuleHandler.java:189-192 | The filter keeps every element node of the list and adds nothing that was not in it. |
| Dom.ElementsConcat | src/main/java/at/salzburgresearch/nodekeeper/eca/RuleHandler.java:189-192 | The filter keeps the elements in the order they come: filtering a concatenation is concatenating the filtered parts, and a single node is kept exactly when it is an element. |
| Dom.ElementsByTag | src/main/java/at/salzburgresearch/nodekeeper/eca/RuleHandler.java:199-202 | `getElementsByTagName` yields only elements, all with the requested tag. |
| Dom.ElementsByTagIsPreOrder | src/main/java/at/salzburgresearch/nodekeeper/eca/RuleHandler.java:199-202 | `getElementsByTagName` equals the pre-order list of the element's descendants filtered by tag. So it finds exactly the descendants with that tag, in document order, and `item(0)`, `item(1)` are the first ones in that order. |
| Dom.ChildIsFound | src/main/java/at/salzburgresearch/nodekeeper/eca/RuleHandler.java:199-202 | `getElementsByTagName` reaches every level: a child with the tag is found, and so is everything found below that child. |
| Dom.TrimStart | src/main/java/at/salzburgresearch/nodekeeper/eca/RuleHandler.java:216 | Removes exactly the leading run of characters up to U+0020. The result is a suffix that does not start with one. |
| Dom.TrimEnd | src/main/java/at/salzburgresearch/nodekeeper/eca/RuleHandler.java:216 | Removes exactly the trailing run of such characters. The result is a prefix that does not end with one. |
| Dom.Trim | src/main/java/at/salzburgresearch/nodekeeper/eca/RuleHandler.java:216 | `String.trim` returns a contiguous slice of its input. Everything cut off on either side is space, and the slice neither starts nor ends with space. |
| Dom.TrimKeepsInner | src/main/java/at/salzburgresearch/nodekeeper/eca/RuleHandler.java:216 | Trimming a string with no space at either end returns it unchanged. |
| Codec.ParseRules | src/main/java/at/salzburgresearch/nodekeeper/eca/RuleHandler.java:178-322 | The loop over the document element's children computes exactly `RulesOf`. On `Ok`, the rule elements are parsed in order. The first failing element's outcome is returned. |
| Codec.ParseRule | src/main/java/at/salzburgresearch/nodekeeper/eca/RuleHandler.java:192-307 | Building one rule computes exactly `RuleOf`. The id comes from `name`, then events, bindings, conditions and actions follow in that order, and a missing event is swallowed. |
| Codec.ParseEvents | src/main/java/at/salzburgresearch/nodekeeper/eca/RuleHandler.java:204-219 | The event loop computes exactly `EventsOf`: each event element overwrites the previous one, and the first failure ends the loop. |
| Codec.ParseBindings | src/main/java/at/salzburgresearch/nodekeeper/eca/RuleHandler.java:221-242 | The binding loop computes exactly `BindingsOf` over the element children of the group. |
| Codec.ParseConditions | src/main/java/at/salzburgresearch/nodekeeper/eca/RuleHandler.java:244-274 | The condition loop computes exactly `ConditionsOf` over the element children of the group. |
| Codec.ParseActions | src/main/java/at/salzburgresearch/nodekeeper/eca/RuleHandler.java:277-305 | The action loop computes exactly `ActionsOf` over the element children of the group. |
| Codec.ParseActionParams | src/main/java/at/salzburgresearch/nodekeeper/eca/RuleHandler.java:292-300 | The params array has one slot per param element, and slot k holds the trimmed text of param k. |
| CodecProperties.RulesInOrder | src/main/java/at/salzburgresearch/nodekeeper/eca/RuleHandler.java:189-312 | The document parses if and only if every rule element does. The result then has one rule per element, in document order. |
| CodecProperties.RulesFirstFailure | src/main/java/at/salzburgresearch/nodekeeper/eca/RuleHandler.java:189-321 | The first rule element that fails decides the outcome, whether that failure is swallowed or thrown. |
| CodecProperties.EventlessRuleIsSwallowed | src/main/java/at/salzburgresearch/nodekeeper/eca/RuleHandler.java:219 | A rule element without any event descendant makes the parse return null. |
| CodecProperties.RuleFailsWithConditions | src/main/java/at/salzburgresearch/nodekeeper/eca/RuleHandler.java:244-274 | Once the events have parsed, a failing conditions group fails the rule the same way. |
| CodecProperties.RuleFailsWithActions | src/main/java/at/salzburgresearch/nodekeeper/eca/RuleHandler.java:277-305 | Once the events and conditions have parsed, a failing actions group fails the rule the same way. |
| CodecProperties.RuleParts | src/main/java/at/salzburgresearch/nodekeeper/eca/RuleHandler.java:195-307 | A parsed rule's id is the `name` attribute (`""` when it is absent). It has at least one event element, every event element parsed, and its event is the last one's. It has one binding per element of the first bindings group, in order, and its conditions and actions come from the first group of each kind. |
| CodecProperties.LastEventWins | src/main/java/at/salzburgresearch/nodekeeper/eca/RuleHandler.java:204-218 | The events parse if and only if each event element does. The rule's event is then the last one, and it is absent only when there are no event elements. |
| CodecProperties.EventsFirstFailure | src/main/java/at/salzburgresearch/nodekeeper/eca/RuleHandler.java:204-218 | The first failing event element decides the outcome. |
| CodecProperties.EventFailures | src/main/java/at/salzburgresearch/nodekeeper/eca/RuleHandler.java:208-216 | An event is never swallowed. An unknown type throws `IllegalArgument`, and a known type without a param throws `NullPointer` (both if and only if). |
| CodecProperties.BindingsInOrder | src/main/java/at/salzburgresearch/nodekeeper/eca/RuleHandler.java:221-242 | There is one binding per element of the bindings group, in order. |
| CodecProperties.ArgsInOrder | src/main/java/at/salzburgresearch/nodekeeper/eca/RuleHandler.java:324-346 | `createFunction` takes its arguments from the element children, in order. An untyped argument becomes an untrimmed literal, and a typed one recursively becomes a call. |
| CodecProperties.BindingShape | src/main/java/at/salzburgresearch/nodekeeper/eca/RuleHandler.java:228-239 | An untyped binding is a literal of its trimmed text. A typed binding is a call of that type over `createFunction`'s arguments: one per element child, in order, each built as `ArgOf` describes. The name comes from `name`, and `strict` is the case-insensitive `"true"`. |
| CodecProperties.ConditionsInOrder | src/main/java/at/salzburgresearch/nodekeeper/eca/RuleHandler.java:244-274 | The conditions parse if and only if each one does. They then come in document order. |
| CodecProperties.ConditionsFirstFailure | src/main/java/at/salzburgresearch/nodekeeper/eca/RuleHandler.java:244-274 | The first failing condition decides the outcome. |
| CodecProperties.ConditionFailures | src/main/java/at/salzburgresearch/nodekeeper/eca/RuleHandler.java:250-263 | An unknown condition type escapes, and so does a missing `type` attribute. A known type with a param-descendant count other than 2 is swallowed (both if and only if), and a condition never throws `NullPointer`. |
| CodecProperties.ActionsInOrder | src/main/java/at/salzburgresearch/nodekeeper/eca/RuleHandler.java:277-305 | The actions parse if and only if each one does. They then come in document order. |
| CodecProperties.ActionsFirstFailure | src/main/java/at/salzburgresearch/nodekeeper/eca/RuleHandler.java:277-305 | The first failing action decides the outcome. |
| CodecProperties.ActionFailures | src/main/java/at/salzburgresearch/nodekeeper/eca/RuleHandler.java:283-302 | An action fails only on an unknown type (a missing `type` attribute included), and then by an escaping exception. Its params are all its param descendants' trimmed texts, in document order. |
| Dispatch.BindingIsolation | src/main/java/at/salzburgresearch/nodekeeper/eca/RuleHandler.java:107-122 | A name is bound if and only if some binding of that name did not throw. Its value is the last such binding's result, and failing bindings are omitted. |
| Dispatch.BindVariables | src/main/java/at/salzburgresearch/nodekeeper/eca/RuleHandler.java:107-122 | The binding loop builds exactly the map `Bound` describes. |
| Dispatch.ConditionsShortCircuit | src/main/java/at/salzburgresearch/nodekeeper/eca/RuleHandler.java:124-129 | `checkConditions` holds if and only if every condition holds, so an empty list passes. Evaluation stops at the first condition that does not hold. |
| Dispatch.RunFromInvoked | src/main/java/at/salzburgresearch/nodekeeper/eca/RuleHandler.java:97-103 | From any action on, actions are invoked in declared order. Action k is invoked if and only if no earlier action raised anything other than an `ActionException`. |
| Dispatch.RunFromWarned | src/main/java/at/salzburgresearch/nodekeeper/eca/RuleHandler.java:100-102 | An `ActionException` is logged if and only if its action was invoked and raised one. Nothing outside the remaining actions is logged. |
| Dispatch.RunFromEscaped | src/main/java/at/salzburgresearch/nodekeeper/eca/RuleHandler.java:97-103 | An exception escapes if and only if some remaining action raises one that is not an `ActionException`. It is the last invoked action's exception, so that action ends the loop. |
| Dispatch.ActionIsolation | src/main/java/at/salzburgresearch/nodekeeper/eca/RuleHandler.java:97-103 | The same over the whole actions loop: an `ActionException` from action k does not stop actions k+1 onwards. |
| Dispatch.Execute | src/main/java/at/salzburgresearch/nodekeeper/eca/RuleHandler.java:94-105 | `execute` binds, checks, and runs the actions only when every condition holds. The result is exactly `DispatchOf`. |
| Dispatch.OnNodeCreated | src/main/java/at/salzburgresearch/nodekeeper/eca/RuleHandler.java:132-138 | It dispatches if and only if the rule's type is `nodeCreated` or `nodeCreatedUpdated`. An `IOException` from `execute` is caught, and the other exceptions pass through. |
| Dispatch.OnNodeUpdated | src/main/java/at/salzburgresearch/nodekeeper/eca/RuleHandler.java:141-147 | It dispatches if and only if the type is `nodeUpdated` or `nodeCreatedUpdated`, with the same catch. |
| Dispatch.OnNodeDeleted | src/main/java/at/salzburgresearch/nodekeeper/eca/RuleHandler.java:150-156 | It dispatches if and only if the type is `nodeDeleted`, with the same catch. |
| Registry.RegisteredActivate | src/main/java/at/salzburgresearch/nodekeeper/eca/RuleHandler.java:164-165 | Activation registers exactly one more listener with the store. |
| Registry.StoredLastWins | src/main/java/at/salzburgresearch/nodekeeper/eca/RuleHandler.java:57-59 | Adding rules in order stores exactly their ids, each rule under its own id. A later rule with the same id replaces an earlier one. |
| Registry.OneListenerPerRule | src/main/java/at/salzburgresearch/nodekeeper/eca/RuleHandler.java:70-74 | In a valid handler, the store holds each stored rule's listener exactly once, under that rule's pattern, and nothing else. No id ever has two listeners registered. |
| Registry.RuleHandler.constructor | src/main/java/at/salzburgresearch/nodekeeper/eca/RuleHandler.java:43-48 | A new handler stores no rules and has made no calls on the store. |
| Registry.RuleHandler.GetRule | src/main/java/at/salzburgresearch/nodekeeper/eca/RuleHandler.java:76-78 | It finds a rule if and only if the id is among `getRuleIds`, and the rule found carries that id. |
| Registry.RuleHandler.DeactivateRule | src/main/java/at/salzburgresearch/nodekeeper/eca/RuleHandler.java:168-174 | Only when a rule is stored under the id does it remove that stored rule's own listener, under the stored rule's own pattern. |
| Registry.RuleHandler.ActivateRule | src/main/java/at/salzburgresearch/nodekeeper/eca/RuleHandler.java:89-166 | It makes a fresh listener that captures the rule, registers it under the rule's pattern, then starts the listeners. |
| Registry.RuleHandler.AddRule | src/main/java/at/salzburgresearch/nodekeeper/eca/RuleHandler.java:70-74 | Afterwards the id maps to the new rule and other ids are unchanged. Any previous rule's listener is removed, under that rule's pattern, before the new listener is added. The invariant is kept. |
| Registry.RuleHandler.RemoveRule | src/main/java/at/salzburgresearch/nodekeeper/eca/RuleHandler.java:84-87 | Afterwards the id is absent and other ids are unchanged. Only the stored rule's listener is removed, and an unknown id changes nothing. |
| Registry.RuleHandler.RemoveAll | src/main/java/at/salzburgresearch/nodekeeper/eca/RuleHandler.java:53-56 | The removal loop empties the map and only removes listeners. Afterwards the store holds none of the handler's. |
| Registry.RuleHandler.AddAll | src/main/java/at/salzburgresearch/nodekeeper/eca/RuleHandler.java:57-59 | From an empty map, the add loop leaves exactly `Stored(rules)` and keeps the invariant. |
| Registry.RuleHandler.ReadRules | src/main/java/at/salzburgresearch/nodekeeper/eca/RuleHandler.java:50-60 | An escaping parse error changes nothing. A swallowed one empties the registry and then throws `NullPointer`. A successful parse first clears every listener, then leaves exactly the parsed rules, with the last one winning for each id. |
| Registry.RuleHandler.Reload | src/main/java/at/salzburgresearch/nodekeeper/eca/RuleHandler.java:50-60 | The corrected reload: any parse failure leaves the map, the listeners and the store untouched. On success it behaves like `ReadRules`. |
| Findings.EventlessDocumentIsSwallowed | src/main/java/at/salzburgresearch/nodekeeper/eca/RuleHandler.java:219 | A document whose only rule lacks an event parses to a swallowed error. |
| Findings.SwallowedErrorDropsRules | src/main/java/at/salzburgresearch/nodekeeper/eca/RuleHandler.java:50-60 | In the source as written, reading that document into a handler holding one rule leaves no rules and throws `NullPointer`. |
| Findings.ParseFailureKeepsRules | src/main/java/at/salzburgresearch/nodekeeper/eca/RuleHandler.java:50-60 | The corrected reload of the same document keeps that rule. |

## Left out

- XML text parsing and serialization are not modelled: `DocumentBuilder.parse`, `serializeRules`, `writeRules` and the `ParserConfigurationException`/`SAXException` paths. The reader starts from an already-parsed element tree. Serialization depends on `Rule.toElement`, which is not part of this model, and on HashMap iteration order.
- The store client is not modelled. `addListener`, `removeListener` and `startListeners` are a ghost trace of calls, and their own failures (`NodeKeeperException`, `IOException`, `InterruptedException` from `activateRule`) are not modelled. Every call is taken to succeed.
- The removal loop of `readRules` visits ids in HashMap order. The model picks them in an arbitrary order, and its contracts hold for every order.
- Several implementations are not part of this model: `FunctionFactory`, `StaticValueFunction`, `Binding`, `Condition` and `Action`, including the `Condition.Type` and `Action.Type` enumerations. The enumerations are a catalog of type names given as a parameter. Binding results, condition truth and action outcomes are inputs to the dispatcher. A function-call tree records the factory name and its arguments, but not what the function computes.
- A `RuntimeException` from `Condition.execute` is not modelled. It would escape the listener.
- `Event.nodeType` and the listener's `getType` are not modelled. They are not used in dispatch.
- The `strict` flag of a binding is parsed and stored, but nothing reads it during dispatch. It has no further meaning in the model.
- Listener callbacks may run concurrently on the store's threads. Each dispatch is modelled as one sequential run.
- Logging is not modelled, and neither is `getDescription`, which relies on `Rule.getDescription`, which is not part of this model.
- BindingIsolation: holds only for a non-null node. The warning at line 117 parses as `("…" + node) != null ? node.getPath() : …`, so `node.getPath()` is evaluated whatever the node. With a `null` node (the case line 109 guards against), a binding that throws makes the catch block itself throw a `NullPointerException`, which escapes `bindVariables` and `onNode*`. The node is not part of the model, so this path is not modelled.
- BindingsOf: `FunctionFactory.createFunction` and `Function.init` (lines 233-237, 325, 344) are taken to succeed for every function name. `FunctionFactory` is not part of this model. An exception from it, or a `null` it returns that then fails at `f.init`, would escape `parseRules`. In the model a bindings group never fails the parse, and `ParseBindings`, `ParseRule` and `RulesInOrder` decide a rule's outcome without its bindings.
- Rule objects are values: a caller that changes a `Rule` after adding it is not modelled.
- `src/test/java/at/salzburgresearch/nodekeeper/tests/NodeKeeperTest.java` only starts and stops an embedded server. It makes no assertions about the rule engine.

## Findings

| source | as written | input that shows it | evidently intended | confidence | as-written member | corrected member |
|---|---|---|---|---|---|---|
| src/main/java/at/salzburgresearch/nodekeeper/eca/RuleHandler.java:50-60 | `readRules` removes every stored rule before it looks at the result of `parseRules`. When the parser swallows an error and returns null, every rule has already been removed, and then `for (Rule rule : rs)` throws a `NullPointerException`. | A handler holding rule `r1`, reading `<rules><rule name="r1"/></rules>`: the rule element has no event. | A document that does not parse leaves the registry as it was (a null result is checked before removal). | not executed | Registry.RuleHandler.ReadRules, Findings.SwallowedErrorDropsRules | Registry.RuleHandler.Reload, Findings.ParseFailureKeepsRules |
