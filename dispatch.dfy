/**
 * The listener RuleHandler.activateRule builds for a rule: on a matching
 * change notification it binds variables, checks conditions, and runs the
 * rule's actions.
 *
 * What the pluggable parts compute is not part of this model, so it enters
 * as input: for each binding, the value Binding.execute returned or None for
 * a RuntimeException; the truth of Condition.execute on a binding map; and
 * for each action, how Action.execute ended.
 */
module Dispatch {
  import opened Wrappers
  import opened Rules

  /** A NodeListener object made by one activation: its identity, and the rule it captured. */
  datatype Listener = Listener(serial: nat, rule: Rule)

  /**
   * The exceptions other than ActionException that Action.execute may raise:
   * the checked ones execute declares, and any unchecked RuntimeException.
   */
  datatype Escape = IoError | Interrupted | StoreError | RuntimeError

  /** How one Action.execute ended. */
  datatype ActionOutcome = Completed | ActionFailed | Raised(error: Escape)

  /**
   * What the actions loop did: the indices of the actions it invoked, those
   * whose ActionException it logged, and the exception that left the loop.
   */
  datatype ActionLog = ActionLog(invoked: seq<nat>, warned: seq<nat>, escaped: Option<Escape>)

  /** One run of execute: the binding map, whether the conditions held, and what the actions did. */
  datatype Run<V> = Run(bindings: map<string, V>, fired: bool, actions: ActionLog)

  /** What a notification entry point did: nothing, or a run and the exception it let through. */
  datatype Notified<V> = Ignored | Dispatched(run: Run<V>, thrown: Option<Escape>)

  // ---------------------------------------------------------------------
  // bindVariables
  // ---------------------------------------------------------------------

  /** The binding map after the bindings so far: each success is put under its name, each failure left out. */
  function Bound<V>(bs: seq<Binding>, results: seq<Option<V>>): map<string, V>
    requires |results| == |bs|
  {
    if bs == [] then map[]
    else
      var n := |bs| - 1;
      var m := Bound(bs[..n], results[..n]);
      if results[n].Some? then m[bs[n].name := results[n].value] else m
  }

  /** Binding i is the last binding named k that did not throw. */
  ghost predicate LastSuccess<V>(bs: seq<Binding>, results: seq<Option<V>>, k: string, i: int)
    requires |results| == |bs|
  {
    0 <= i < |bs| && bs[i].name == k && results[i].Some?
    && forall j | i < j < |bs| :: bs[j].name == k ==> results[j].None?
  }

  /**
   * A name is bound exactly when some binding of that name did not throw, and
   * its value is the one the last such binding returned; failing bindings
   * are simply omitted.
   */
  lemma {:induction false} BindingIsolation<V>(bs: seq<Binding>, results: seq<Option<V>>)
    requires |results| == |bs|
    ensures forall k :: k in Bound(bs, results) <==>
      exists i | 0 <= i < |bs| :: bs[i].name == k && results[i].Some?
    ensures forall k | k in Bound(bs, results) ::
      exists i :: LastSuccess(bs, results, k, i) && results[i].value == Bound(bs, results)[k]
  {
    if bs != [] {
      var n := |bs| - 1;
      var bs', rs' := bs[..n], results[..n];
      BindingIsolation(bs', rs');
      var m := Bound(bs', rs');
      forall k | k in Bound(bs, results)
        ensures exists i :: LastSuccess(bs, results, k, i) && results[i].value == Bound(bs, results)[k]
      {
        if results[n].Some? && bs[n].name == k {
          assert LastSuccess(bs, results, k, n);
        } else {
          var i :| LastSuccess(bs', rs', k, i) && rs'[i].value == m[k];
          assert LastSuccess(bs, results, k, i);
        }
      }
      forall k | exists i | 0 <= i < |bs| :: bs[i].name == k && results[i].Some?
        ensures k in Bound(bs, results)
      {
        var i :| 0 <= i < |bs| && bs[i].name == k && results[i].Some?;
        if i < n {
          assert bs'[i].name == k && rs'[i].Some?;
        }
      }
    }
  }

  /** bindVariables: evaluate the bindings in declared order, dropping those that throw. */
  method BindVariables<V>(bs: seq<Binding>, results: seq<Option<V>>) returns (bindings: map<string, V>)
    requires |results| == |bs|
    ensures bindings == Bound(bs, results)
  {
    bindings := map[];
    var i := 0;
    while i < |bs|
      invariant 0 <= i <= |bs|
      invariant bindings == Bound(bs[..i], results[..i])
    {
      assert bs[..i + 1][..i] == bs[..i] && results[..i + 1][..i] == results[..i];
      match results[i] {
        case Some(v) => bindings := bindings[bs[i].name := v];
        case None =>
      }
      i := i + 1;
    }
    assert bs[..i] == bs && results[..i] == results;
  }

  // ---------------------------------------------------------------------
  // checkConditions
  // ---------------------------------------------------------------------

  /** checkConditions: every condition holds on the binding map, checked in declared order. */
  function CheckConditions<V>(cs: seq<Condition>, b: map<string, V>, holds: (Condition, map<string, V>) -> bool): bool {
    if cs == [] then true
    else if !holds(cs[0], b) then false
    else CheckConditions(cs[1..], b, holds)
  }

  /** How many Condition.execute calls checkConditions makes before it returns. */
  ghost function ConditionsEvaluated<V>(cs: seq<Condition>, b: map<string, V>, holds: (Condition, map<string, V>) -> bool): nat {
    if cs == [] then 0
    else if !holds(cs[0], b) then 1
    else 1 + ConditionsEvaluated(cs[1..], b, holds)
  }

  /**
   * The conditions pass exactly when each holds (so an empty list passes),
   * and evaluation stops at the first one that does not.
   */
  lemma {:induction false} ConditionsShortCircuit<V>(cs: seq<Condition>, b: map<string, V>, holds: (Condition, map<string, V>) -> bool)
    ensures CheckConditions(cs, b, holds) <==> forall i | 0 <= i < |cs| :: holds(cs[i], b)
    ensures var n := ConditionsEvaluated(cs, b, holds);
      && n <= |cs|
      && (forall i | 0 <= i < n - 1 :: holds(cs[i], b))
      && (CheckConditions(cs, b, holds) ==> n == |cs|)
      && (!CheckConditions(cs, b, holds) ==> n > 0 && !holds(cs[n - 1], b))
  {
    if cs != [] {
      ConditionsShortCircuit(cs[1..], b, holds);
      assert forall i | 1 <= i < |cs| :: cs[1..][i - 1] == cs[i];
    }
  }

  // ---------------------------------------------------------------------
  // execute
  // ---------------------------------------------------------------------

  /** The actions loop from action i on: an ActionException is logged and the loop goes on; any other exception ends it. */
  function RunFrom(outcomes: seq<ActionOutcome>, i: nat): ActionLog
    decreases |outcomes| - i
  {
    if i >= |outcomes| then ActionLog([], [], None)
    else match outcomes[i]
      case Raised(e) => ActionLog([i], [], Some(e))
      case ActionFailed =>
        var rest := RunFrom(outcomes, i + 1);
        ActionLog([i] + rest.invoked, [i] + rest.warned, rest.escaped)
      case Completed =>
        var rest := RunFrom(outcomes, i + 1);
        ActionLog([i] + rest.invoked, rest.warned, rest.escaped)
  }

  /** One step of the actions loop. */
  lemma RunFromStep(outcomes: seq<ActionOutcome>, i: nat)
    requires i < |outcomes|
    ensures var rest := RunFrom(outcomes, i + 1);
      RunFrom(outcomes, i) == match outcomes[i]
        case Raised(e) => ActionLog([i], [], Some(e))
        case ActionFailed => ActionLog([i] + rest.invoked, [i] + rest.warned, rest.escaped)
        case Completed => ActionLog([i] + rest.invoked, rest.warned, rest.escaped)
  {
  }

  function ActionsRun(outcomes: seq<ActionOutcome>): ActionLog {
    RunFrom(outcomes, 0)
  }

  /**
   * The actions loop invokes actions in declared order, each one exactly when
   * no earlier action raised anything but an ActionException.
   */
  lemma {:induction false} RunFromInvoked(outcomes: seq<ActionOutcome>, i: nat)
    requires i <= |outcomes|
    ensures var log := RunFrom(outcomes, i);
      && i + |log.invoked| <= |outcomes|
      && (forall j | 0 <= j < |log.invoked| :: log.invoked[j] == i + j)
      && (forall k | i <= k < |outcomes| :: k in log.invoked <==> forall j | i <= j < k :: !outcomes[j].Raised?)
    decreases |outcomes| - i
  {
    if i < |outcomes| {
      RunFromInvoked(outcomes, i + 1);
      RunFromStep(outcomes, i);
      var rest := RunFrom(outcomes, i + 1);
      var log := RunFrom(outcomes, i);
      if !outcomes[i].Raised? {
        assert log.invoked == [i] + rest.invoked;
        forall k | i < k < |outcomes|
          ensures k in log.invoked <==> forall j | i <= j < k :: !outcomes[j].Raised?
        {
          assert k in log.invoked <==> k in rest.invoked;
        }
      }
    }
  }

  /** It logs exactly the ActionExceptions of the actions it invoked. */
  lemma {:induction false} RunFromWarned(outcomes: seq<ActionOutcome>, i: nat)
    requires i <= |outcomes|
    ensures var log := RunFrom(outcomes, i);
      && (forall k | i <= k < |outcomes| :: k in log.warned <==> k in log.invoked && outcomes[k] == ActionFailed)
      && (forall k | k in log.warned :: i <= k < |outcomes|)
    decreases |outcomes| - i
  {
    if i < |outcomes| {
      RunFromWarned(outcomes, i + 1);
      RunFromStep(outcomes, i);
      var rest := RunFrom(outcomes, i + 1);
      if !outcomes[i].Raised? {
        assert i !in rest.warned;
      }
    }
  }

  /** It stops at the first other exception, which is the one that leaves the loop. */
  lemma {:induction false} RunFromEscaped(outcomes: seq<ActionOutcome>, i: nat)
    requires i <= |outcomes|
    ensures var log := RunFrom(outcomes, i);
      && i + |log.invoked| <= |outcomes|
      && (log.escaped.Some? <==> exists k | i <= k < |outcomes| :: outcomes[k].Raised?)
      && (log.escaped.Some? ==> |log.invoked| > 0 && outcomes[i + |log.invoked| - 1] == Raised(log.escaped.value))
    decreases |outcomes| - i
  {
    if i < |outcomes| {
      RunFromEscaped(outcomes, i + 1);
      RunFromStep(outcomes, i);
      var rest := RunFrom(outcomes, i + 1);
      if !outcomes[i].Raised? && rest.escaped.Some? {
        assert |RunFrom(outcomes, i).invoked| == 1 + |rest.invoked|;
      }
      if !outcomes[i].Raised? && rest.escaped.None? {
        assert forall k | i < k < |outcomes| :: !outcomes[k].Raised?;
      }
    }
  }

  /** The whole actions loop: the theorem above from the first action on. */
  lemma ActionIsolation(outcomes: seq<ActionOutcome>)
    ensures var log := ActionsRun(outcomes);
      && |log.invoked| <= |outcomes|
      && (forall j | 0 <= j < |log.invoked| :: log.invoked[j] == j)
      && (forall k | 0 <= k < |outcomes| :: k in log.invoked <==> forall j | 0 <= j < k :: !outcomes[j].Raised?)
      && (forall k | 0 <= k < |outcomes| :: k in log.warned <==> k in log.invoked && outcomes[k] == ActionFailed)
      && (log.escaped.Some? <==> exists k | 0 <= k < |outcomes| :: outcomes[k].Raised?)
  {
    RunFromInvoked(outcomes, 0);
    RunFromWarned(outcomes, 0);
    RunFromEscaped(outcomes, 0);
  }

  /** What execute does for a rule: bind, check, and act only when every condition holds. */
  function DispatchOf<V>(rule: Rule, results: seq<Option<V>>, holds: (Condition, map<string, V>) -> bool,
                         outcomes: seq<ActionOutcome>): Run<V>
    requires |results| == |rule.bindings|
  {
    var b := Bound(rule.bindings, results);
    var pass := CheckConditions(rule.conditions, b, holds);
    Run(b, pass, if pass then ActionsRun(outcomes) else ActionLog([], [], None))
  }

  /** The log of the actions already run, followed by what the remaining ones do. */
  function Joined(invoked: seq<nat>, warned: seq<nat>, rest: ActionLog): ActionLog {
    ActionLog(invoked + rest.invoked, warned + rest.warned, rest.escaped)
  }

  /** One turn of the actions loop: action i is invoked, its ActionException logged, any other exception ends the loop. */
  lemma JoinedStep(outcomes: seq<ActionOutcome>, i: nat, invoked: seq<nat>, warned: seq<nat>)
    requires i < |outcomes|
    ensures outcomes[i] == Completed ==>
      Joined(invoked, warned, RunFrom(outcomes, i)) == Joined(invoked + [i], warned, RunFrom(outcomes, i + 1))
    ensures outcomes[i] == ActionFailed ==>
      Joined(invoked, warned, RunFrom(outcomes, i)) == Joined(invoked + [i], warned + [i], RunFrom(outcomes, i + 1))
    ensures outcomes[i].Raised? ==>
      Joined(invoked, warned, RunFrom(outcomes, i)) == ActionLog(invoked + [i], warned, Some(outcomes[i].error))
  {
    RunFromStep(outcomes, i);
    var rest := RunFrom(outcomes, i + 1);
    ConcatAssoc(invoked, [i], rest.invoked);
    ConcatAssoc(warned, [i], rest.warned);
    assert warned + [] == warned;
  }

  lemma ConcatAssoc(a: seq<nat>, b: seq<nat>, c: seq<nat>)
    ensures a + (b + c) == (a + b) + c
  {
  }

  /** execute: the actions loop with its per-action catch of ActionException. */
  method Execute<V>(rule: Rule, results: seq<Option<V>>, holds: (Condition, map<string, V>) -> bool,
                    outcomes: seq<ActionOutcome>) returns (run: Run<V>)
    requires |results| == |rule.bindings| && |outcomes| == |rule.actions|
    ensures run == DispatchOf(rule, results, holds, outcomes)
  {
    var bindings := BindVariables(rule.bindings, results);
    if !CheckConditions(rule.conditions, bindings, holds) {
      return Run(bindings, false, ActionLog([], [], None));
    }
    var invoked: seq<nat> := [];
    var warned: seq<nat> := [];
    var i := 0;
    while i < |rule.actions|
      invariant 0 <= i <= |rule.actions|
      invariant ActionsRun(outcomes) == Joined(invoked, warned, RunFrom(outcomes, i))
    {
      JoinedStep(outcomes, i, invoked, warned);
      match outcomes[i] {
        case Completed =>
          invoked := invoked + [i];
        case ActionFailed =>
          invoked := invoked + [i];
          warned := warned + [i];
        case Raised(e) =>
          return Run(bindings, true, ActionLog(invoked + [i], warned, Some(e)));
      }
      i := i + 1;
    }
    assert invoked + [] == invoked && warned + [] == warned;
    return Run(bindings, true, ActionLog(invoked, warned, None));
  }

  // ---------------------------------------------------------------------
  // The notification entry points
  // ---------------------------------------------------------------------

  /** onNode*: an IOException out of execute is caught and logged; the other exceptions propagate. */
  function Propagated(log: ActionLog): Option<Escape> {
    if log.escaped == Some(IoError) then None else log.escaped
  }

  /** onNodeCreated: dispatches only for nodeCreated and nodeCreatedUpdated rules. */
  method OnNodeCreated<V>(listener: Listener, results: seq<Option<V>>, holds: (Condition, map<string, V>) -> bool,
                          outcomes: seq<ActionOutcome>) returns (n: Notified<V>)
    requires |results| == |listener.rule.bindings| && |outcomes| == |listener.rule.actions|
    ensures n.Dispatched? <==> listener.rule.event.eventType in {NodeCreated, NodeCreatedUpdated}
    ensures n.Dispatched? ==>
      n.run == DispatchOf(listener.rule, results, holds, outcomes) && n.thrown == Propagated(n.run.actions)
  {
    var t := listener.rule.event.eventType;
    if t == NodeCreated || t == NodeCreatedUpdated {
      var run := Execute(listener.rule, results, holds, outcomes);
      return Dispatched(run, Propagated(run.actions));
    }
    return Ignored;
  }

  /** onNodeUpdated: dispatches only for nodeUpdated and nodeCreatedUpdated rules. */
  method OnNodeUpdated<V>(listener: Listener, results: seq<Option<V>>, holds: (Condition, map<string, V>) -> bool,
                          outcomes: seq<ActionOutcome>) returns (n: Notified<V>)
    requires |results| == |listener.rule.bindings| && |outcomes| == |listener.rule.actions|
    ensures n.Dispatched? <==> listener.rule.event.eventType in {NodeUpdated, NodeCreatedUpdated}
    ensures n.Dispatched? ==>
      n.run == DispatchOf(listener.rule, results, holds, outcomes) && n.thrown == Propagated(n.run.actions)
  {
    var t := listener.rule.event.eventType;
    if t == NodeUpdated || t == NodeCreatedUpdated {
      var run := Execute(listener.rule, results, holds, outcomes);
      return Dispatched(run, Propagated(run.actions));
    }
    return Ignored;
  }

  /** onNodeDeleted: dispatches only for nodeDeleted rules; there is no combined variant. */
  method OnNodeDeleted<V>(listener: Listener, results: seq<Option<V>>, holds: (Condition, map<string, V>) -> bool,
                          outcomes: seq<ActionOutcome>) returns (n: Notified<V>)
    requires |results| == |listener.rule.bindings| && |outcomes| == |listener.rule.actions|
    ensures n.Dispatched? <==> listener.rule.event.eventType == NodeDeleted
    ensures n.Dispatched? ==>
      n.run == DispatchOf(listener.rule, results, holds, outcomes) && n.thrown == Propagated(n.run.actions)
  {
    if listener.rule.event.eventType == NodeDeleted {
      var run := Execute(listener.rule, results, holds, outcomes);
      return Dispatched(run, Propagated(run.actions));
    }
    return Ignored;
  }
}
