/**
 * RuleHandler's registry: the rules map keyed by id, the listener each
 * stored rule carries, and the calls the handler makes on its NodeKeeper.
 *
 * NodeKeeper itself is not part of this model: the handler's calls on it
 * are recorded in a ghost trace, and the listeners NodeKeeper holds for this
 * handler are what that trace adds and removes.
 */
module Registry {
  import opened Wrappers
  import opened Dom
  import opened Rules
  import opened Codec
  import opened Dispatch

  /** A listener registered with NodeKeeper under a path pattern. */
  datatype Registration = Registration(pattern: string, listener: Listener)

  /** A call the handler makes on its NodeKeeper. */
  datatype StoreCall =
    | AddListener(reg: Registration)
    | RemoveListener(reg: Registration)
    | StartListeners

  /** The listeners NodeKeeper holds for the handler after the given calls, counted with multiplicity. */
  ghost function Registered(calls: seq<StoreCall>): multiset<Registration> {
    if calls == [] then multiset{}
    else
      var before := Registered(calls[..|calls| - 1]);
      var last := calls[|calls| - 1];
      if last.AddListener? then before + multiset{last.reg}
      else if last.RemoveListener? then before - multiset{last.reg}
      else before
  }

  lemma RegisteredAppend(calls: seq<StoreCall>, c: StoreCall)
    ensures Registered(calls + [c]) ==
      if c.AddListener? then Registered(calls) + multiset{c.reg}
      else if c.RemoveListener? then Registered(calls) - multiset{c.reg}
      else Registered(calls)
  {
    assert (calls + [c])[..|calls|] == calls;
  }

  /** activateRule's two calls register exactly one more listener. */
  lemma RegisteredActivate(calls: seq<StoreCall>, reg: Registration)
    ensures Registered(calls + [AddListener(reg), StartListeners]) == Registered(calls) + multiset{reg}
  {
    RegisteredAppend(calls, AddListener(reg));
    RegisteredAppend(calls + [AddListener(reg)], StartListeners);
    assert calls + [AddListener(reg), StartListeners] == calls + [AddListener(reg)] + [StartListeners];
  }

  ghost predicate OnlyRemovals(calls: seq<StoreCall>) {
    forall i | 0 <= i < |calls| :: calls[i].RemoveListener?
  }

  /** Up to position p the calls after `start` only remove listeners, and by then none is left. */
  ghost predicate ClearedAt(calls: seq<StoreCall>, start: nat, p: nat) {
    start <= p <= |calls| && OnlyRemovals(calls[start..p]) && Registered(calls[..p]) == multiset{}
  }

  /** The calls extend `start` by removals only. */
  ghost predicate RemovedSince(start: seq<StoreCall>, calls: seq<StoreCall>) {
    |start| <= |calls| && calls[..|start|] == start && OnlyRemovals(calls[|start|..])
  }

  lemma RemovedSinceGrow(start: seq<StoreCall>, previous: seq<StoreCall>, gone: Registration)
    requires RemovedSince(start, previous)
    ensures RemovedSince(start, previous + [RemoveListener(gone)])
  {
    var calls := previous + [RemoveListener(gone)];
    assert calls[..|previous|] == previous;
    assert calls[..|start|] == previous[..|start|];
    assert calls[|start|..] == previous[|start|..] + [RemoveListener(gone)];
  }

  lemma RemovedSinceCleared(start: seq<StoreCall>, calls: seq<StoreCall>)
    requires RemovedSince(start, calls) && Registered(calls) == multiset{}
    ensures ClearedAt(calls, |start|, |calls|)
  {
    assert calls[|start|..|calls|] == calls[|start|..];
    assert calls[..|calls|] == calls;
  }

  /** Calls made after the clearing point do not undo it. */
  lemma ClearedKept(calls: seq<StoreCall>, cleared: seq<StoreCall>, start: nat)
    requires ClearedAt(cleared, start, |cleared|)
    requires |cleared| <= |calls| && calls[..|cleared|] == cleared
    ensures ClearedAt(calls, start, |cleared|)
  {
    assert calls[start..|cleared|] == cleared[start..];
    assert cleared[..|cleared|] == cleared;
  }

  /** The rules map after putting rs in order into an empty map. */
  function Stored(rs: seq<Rule>): map<string, Rule> {
    if rs == [] then map[]
    else
      var n := |rs| - 1;
      Stored(rs[..n])[rs[n].id := rs[n]]
  }

  /** Rule i is the last one in rs with the given id. */
  ghost predicate LastWithId(rs: seq<Rule>, id: string, i: int) {
    0 <= i < |rs| && rs[i].id == id && forall j | i < j < |rs| :: rs[j].id != id
  }

  /** Adding rules in order stores exactly their ids. */
  lemma {:induction false} StoredKeys(rs: seq<Rule>)
    ensures Stored(rs).Keys == set i | 0 <= i < |rs| :: rs[i].id
  {
    if rs != [] {
      var n := |rs| - 1;
      var front := rs[..n];
      StoredKeys(front);
      assert forall i | 0 <= i < n :: front[i] == rs[i];
      assert (set i | 0 <= i < |rs| :: rs[i].id) == (set i | 0 <= i < n :: front[i].id) + {rs[n].id};
    }
  }

  /**
   * Adding rules in order stores exactly their ids, each under its own id,
   * and a later rule with an id replaces an earlier one.
   */
  lemma {:induction false} StoredLastWins(rs: seq<Rule>)
    ensures Stored(rs).Keys == set i | 0 <= i < |rs| :: rs[i].id
    ensures forall id | id in Stored(rs) :: Stored(rs)[id].id == id
    ensures forall id | id in Stored(rs) :: exists i :: LastWithId(rs, id, i) && Stored(rs)[id] == rs[i]
  {
    StoredKeys(rs);
    if rs != [] {
      var n := |rs| - 1;
      var front := rs[..n];
      var before := Stored(front);
      StoredLastWins(front);
      assert Stored(rs) == before[rs[n].id := rs[n]];
      forall id | id in Stored(rs)
        ensures Stored(rs)[id].id == id
        ensures exists i :: LastWithId(rs, id, i) && Stored(rs)[id] == rs[i]
      {
        if id == rs[n].id {
          assert LastWithId(rs, id, n);
        } else {
          var i :| LastWithId(front, id, i) && before[id] == front[i];
          assert rs[i] == front[i];
          forall j | i < j < |rs|
            ensures rs[j].id != id
          {
            if j < n {
              assert front[j].id != id;
              assert rs[j] == front[j];
            } else {
              assert j == n;
            }
          }
          assert LastWithId(rs, id, i);
        }
      }
    }
  }

  /** The registration a listener stands for: itself, under the pattern of the rule it captured. */
  function RegOf(l: Listener): Registration {
    Registration(l.rule.event.pattern, l)
  }

  /** The registrations a map of listeners stands for. */
  ghost function ActiveOf(ls: map<string, Listener>): set<Registration> {
    set id | id in ls :: RegOf(ls[id])
  }

  ghost predicate DistinctSerials(ls: map<string, Listener>) {
    forall id, id' | id in ls && id' in ls && id != id' :: ls[id].serial != ls[id'].serial
  }

  /** Dropping one id drops exactly its registration, which the others do not share. */
  lemma ActiveRemove(ls: map<string, Listener>, id: string)
    requires DistinctSerials(ls) && id in ls
    ensures DistinctSerials(ls - {id})
    ensures multiset(ActiveOf(ls - {id})) == multiset(ActiveOf(ls)) - multiset{RegOf(ls[id])}
  {
    var gone := RegOf(ls[id]);
    assert ActiveOf(ls - {id}) == ActiveOf(ls) - {gone} by {
      forall reg | reg in ActiveOf(ls) && reg != gone
        ensures reg in ActiveOf(ls - {id})
      {
        var k :| k in ls && reg == RegOf(ls[k]);
        assert k != id;
        assert (ls - {id})[k] == ls[k];
      }
    }
    forall z
      ensures multiset(ActiveOf(ls) - {gone})[z] == (multiset(ActiveOf(ls)) - multiset{gone})[z]
    {
    }
  }

  /**
   * Storing a listener whose serial no other listener has replaces the
   * registration of the id's previous listener, if any, by its own.
   */
  lemma ActivePut(ls: map<string, Listener>, id: string, l: Listener)
    requires DistinctSerials(ls - {id})
    requires forall k | k in ls - {id} :: (ls - {id})[k].serial != l.serial
    ensures multiset(ActiveOf(ls[id := l])) == multiset(ActiveOf(ls - {id})) + multiset{RegOf(l)}
  {
    var rest := ls - {id};
    assert RegOf(l) !in ActiveOf(rest);
    assert ActiveOf(ls[id := l]) == ActiveOf(rest) + {RegOf(l)} by {
      forall reg | reg in ActiveOf(rest)
        ensures reg in ActiveOf(ls[id := l])
      {
        var k :| k in rest && reg == RegOf(rest[k]);
        assert ls[id := l][k] == rest[k];
      }
      forall reg | reg in ActiveOf(ls[id := l]) && reg != RegOf(l)
        ensures reg in ActiveOf(rest)
      {
        var k :| k in ls[id := l] && reg == RegOf(ls[id := l][k]);
        assert k != id;
        assert rest[k] == ls[k];
      }
      assert RegOf(ls[id := l][id]) in ActiveOf(ls[id := l]);
    }
    forall z
      ensures multiset(ActiveOf(rest) + {RegOf(l)})[z] == (multiset(ActiveOf(rest)) + multiset{RegOf(l)})[z]
    {
    }
  }

  /**
   * Every stored rule is keyed by its id and carries a listener of its own,
   * made before the next serial, that captured it.
   */
  ghost predicate Consistent(rules: map<string, Rule>, ls: map<string, Listener>, created: nat) {
    && ls.Keys == rules.Keys
    && (forall id | id in rules :: rules[id].id == id && ls[id].rule == rules[id] && ls[id].serial < created)
    && DistinctSerials(ls)
  }

  lemma ConsistentPut(rules: map<string, Rule>, ls: map<string, Listener>, created: nat, rule: Rule)
    requires Consistent(rules, ls, created)
    ensures forall k | k in ls - {rule.id} :: (ls - {rule.id})[k].serial != created
    ensures Consistent(rules[rule.id := rule], ls[rule.id := Listener(created, rule)], created + 1)
  {
  }

  lemma ConsistentRemove(rules: map<string, Rule>, ls: map<string, Listener>, created: nat, id: string)
    requires Consistent(rules, ls, created)
    ensures Consistent(rules - {id}, ls - {id}, created)
  {
  }

  class RuleHandler {
    /** The rules field: every known rule, keyed by its id. */
    var rules: map<string, Rule>
    /** The node listener each stored rule carries (Rule.getNodeListener). */
    var listeners: map<string, Listener>
    /** How many listener objects activateRule has made; the next one gets this serial. */
    var created: nat
    /** Every call made on the NodeKeeper, in order. */
    ghost var calls: seq<StoreCall>

    /** The registrations the stored rules stand for: each rule's listener under its own pattern. */
    ghost function Active(): set<Registration>
      reads this
    {
      ActiveOf(listeners)
    }

    /**
     * Every stored rule is keyed by its id and carries a listener of its own
     * that captured it; NodeKeeper holds exactly those listeners, once each.
     */
    ghost predicate Valid()
      reads this
    {
      && Consistent(rules, listeners, created)
      && Registered(calls) == multiset(Active())
    }

    constructor ()
      ensures Valid()
      ensures rules == map[] && calls == []
    {
      rules := map[];
      listeners := map[];
      created := 0;
      calls := [];
    }

    /** getRule: the rule stored under id, or None (null) when there is none. */
    function GetRule(id: string): (r: Option<Rule>)
      reads this
      requires Valid()
      ensures r.Some? <==> id in RuleIds()
      ensures r.Some? ==> r.value.id == id
    {
      if id in rules then Some(rules[id]) else None
    }

    /** getRuleIds: the ids of the stored rules. */
    function RuleIds(): set<string>
      reads this
    {
      rules.Keys
    }

    /** deactivateRule: remove the listener of the rule stored under the same id, if any, using its own pattern. */
    method DeactivateRule(rule: Rule)
      requires rules.Keys <= listeners.Keys
      modifies this`calls
      ensures calls == old(calls) + if rule.id in rules
        then [RemoveListener(Registration(rules[rule.id].event.pattern, listeners[rule.id]))] else []
    {
      if rule.id in rules {
        var r := rules[rule.id];
        calls := calls + [RemoveListener(Registration(r.event.pattern, listeners[rule.id]))];
      }
    }

    /** activateRule: make a new listener capturing the rule, register it under its pattern, start delivery. */
    method ActivateRule(rule: Rule) returns (l: Listener)
      modifies this`created, this`calls
      ensures l == Listener(old(created), rule) && created == old(created) + 1
      ensures calls == old(calls) + [AddListener(Registration(rule.event.pattern, l)), StartListeners]
    {
      l := Listener(created, rule);
      created := created + 1;
      calls := calls + [AddListener(Registration(rule.event.pattern, l)), StartListeners];
    }

    /**
     * addRule: the listener of a rule already stored under the id is removed
     * first, with that rule's own pattern; then the new rule's listener is
     * registered and the rule replaces the entry.
     */
    method AddRule(rule: Rule)
      requires Valid()
      modifies this
      ensures Valid()
      ensures RuleIds() == old(RuleIds()) + {rule.id}
      ensures rules == old(rules)[rule.id := rule]
      ensures listeners == old(listeners)[rule.id := Listener(old(created), rule)] && created == old(created) + 1
      ensures calls == old(calls)
        + (if rule.id in old(rules)
           then [RemoveListener(Registration(old(rules)[rule.id].event.pattern, old(listeners)[rule.id]))] else [])
        + [AddListener(Registration(rule.event.pattern, Listener(old(created), rule))), StartListeners]
    {
      ghost var before := calls;
      ghost var rest := listeners - {rule.id};
      if rule.id in listeners {
        ActiveRemove(listeners, rule.id);
      } else {
        assert rest == listeners;
      }
      DeactivateRule(rule);
      ghost var middle := calls;
      if rule.id in rules {
        RegisteredAppend(before, RemoveListener(RegOf(listeners[rule.id])));
      } else {
        assert middle == before;
      }
      assert Registered(middle) == multiset(ActiveOf(rest));
      ConsistentPut(rules, listeners, created, rule);
      var l := ActivateRule(rule);
      ActivePut(listeners, rule.id, l);
      rules := rules[rule.id := rule];
      listeners := listeners[rule.id := l];
      RegisteredActivate(middle, RegOf(l));
    }

    /** removeRule: remove the stored rule's listener, then evict the id; an unknown id changes nothing. */
    method RemoveRule(rule: Rule)
      requires Valid()
      modifies this
      ensures Valid()
      ensures RuleIds() == old(RuleIds()) - {rule.id}
      ensures rules == old(rules) - {rule.id} && listeners == old(listeners) - {rule.id} && created == old(created)
      ensures calls == old(calls)
        + if rule.id in old(rules)
          then [RemoveListener(Registration(old(rules)[rule.id].event.pattern, old(listeners)[rule.id]))] else []
    {
      ghost var before := calls;
      if rule.id in listeners {
        ActiveRemove(listeners, rule.id);
        RegisteredAppend(before, RemoveListener(RegOf(listeners[rule.id])));
      } else {
        assert listeners - {rule.id} == listeners;
      }
      DeactivateRule(rule);
      if rule.id !in old(rules) {
        assert calls == before;
      }
      ConsistentRemove(rules, listeners, created, rule.id);
      rules := rules - {rule.id};
      listeners := listeners - {rule.id};
    }

    /** The removal loop of readRules: remove the rule stored under each id the map held when it started. */
    method RemoveAll()
      requires Valid()
      modifies this
      ensures Valid()
      ensures rules == map[] && created == old(created)
      ensures ClearedAt(calls, |old(calls)|, |calls|)
    {
      ghost var start := calls;
      var keys := rules.Keys;
      assert calls[..|start|] == start && calls[|start|..] == [];
      while keys != {}
        invariant Valid()
        invariant rules.Keys == keys && created == old(created)
        invariant RemovedSince(start, calls)
        decreases keys
      {
        var id :| id in keys;
        ghost var previous := calls;
        ghost var gone := Registration(rules[id].event.pattern, listeners[id]);
        RemoveRule(rules[id]);
        assert calls == previous + [RemoveListener(gone)];
        RemovedSinceGrow(start, previous, gone);
        keys := keys - {id};
      }
      assert Active() == {};
      RemovedSinceCleared(start, calls);
    }

    /** The adding loop of readRules: add each rule in order. */
    method AddAll(rs: seq<Rule>)
      requires Valid() && rules == map[]
      modifies this
      ensures Valid()
      ensures rules == Stored(rs)
      ensures |calls| >= |old(calls)| && calls[..|old(calls)|] == old(calls)
    {
      var i := 0;
      while i < |rs|
        invariant 0 <= i <= |rs|
        invariant Valid()
        invariant rules == Stored(rs[..i])
        invariant |calls| >= |old(calls)| && calls[..|old(calls)|] == old(calls)
      {
        assert rs[..i + 1][..i] == rs[..i];
        AddRule(rs[i]);
        i := i + 1;
      }
      assert rs[..i] == rs;
    }

    /**
     * readRules as written: parse first; an exception out of the parser
     * leaves the registry untouched, but a swallowed parse error (null) still
     * removes every rule before the adding loop fails on the null list.
     */
    method ReadRules(root: Node, cat: Catalog) returns (thrown: Option<Unchecked>)
      requires Valid() && root.Element?
      modifies this
      ensures Valid()
      ensures RulesOf(Elements(root.children), cat).Thrown? ==>
        && thrown == Some(RulesOf(Elements(root.children), cat).error)
        && rules == old(rules) && listeners == old(listeners) && calls == old(calls) && created == old(created)
      ensures RulesOf(Elements(root.children), cat).Swallowed? ==>
        thrown == Some(NullPointer) && rules == map[] && ClearedAt(calls, |old(calls)|, |calls|)
      ensures RulesOf(Elements(root.children), cat).Ok? ==>
        && thrown == None && rules == Stored(RulesOf(Elements(root.children), cat).value)
        && exists p :: ClearedAt(calls, |old(calls)|, p)
    {
      var parsed := ParseRules(root, cat);
      if parsed.Thrown? {
        return Some(parsed.error);
      }
      RemoveAll();
      ghost var cleared := calls;
      if parsed.Swallowed? {
        return Some(NullPointer);
      }
      AddAll(parsed.value);
      ClearedKept(calls, cleared, |old(calls)|);
      return None;
    }

    /**
     * readRules as evidently intended: a document that does not parse leaves
     * the registry untouched, whichever way the parse fails.
     */
    method Reload(root: Node, cat: Catalog) returns (parsed: Parsed<seq<Rule>>)
      requires Valid() && root.Element?
      modifies this
      ensures Valid()
      ensures parsed == RulesOf(Elements(root.children), cat)
      ensures !parsed.Ok? ==>
        rules == old(rules) && listeners == old(listeners) && calls == old(calls) && created == old(created)
      ensures parsed.Ok? ==> rules == Stored(parsed.value) && exists p :: ClearedAt(calls, |old(calls)|, p)
    {
      parsed := ParseRules(root, cat);
      if !parsed.Ok? {
        return;
      }
      RemoveAll();
      ghost var cleared := calls;
      AddAll(parsed.value);
      ClearedKept(calls, cleared, |old(calls)|);
    }
  }

  /**
   * NodeKeeper holds each stored rule's listener once, under that rule's
   * pattern, and nothing else; so no id ever has two listeners registered.
   */
  lemma OneListenerPerRule(h: RuleHandler)
    requires h.Valid()
    ensures forall id | id in h.rules :: Registration(h.rules[id].event.pattern, h.listeners[id]) in Registered(h.calls)
    ensures forall reg | reg in Registered(h.calls) ::
      Registered(h.calls)[reg] == 1 && reg.listener.rule.id in h.rules && h.listeners[reg.listener.rule.id] == reg.listener
    ensures forall r1, r2 | r1 in Registered(h.calls) && r2 in Registered(h.calls) ::
      r1.listener.rule.id == r2.listener.rule.id ==> r1 == r2
  {
    forall reg | reg in Registered(h.calls)
      ensures reg.listener.rule.id in h.rules && h.listeners[reg.listener.rule.id] == reg.listener
    {
      var id :| id in h.listeners && reg == Registration(h.listeners[id].rule.event.pattern, h.listeners[id]);
      assert h.rules[id].id == id;
    }
  }
}

/** readRules on a document whose parse error the parser swallows, as written and as corrected. */
module Findings {
  import opened Wrappers
  import opened Dom
  import opened Rules
  import opened Codec
  import opened Registry

  /** A rules document whose only rule has no event element. */
  const Eventless: Node := Element("rules", map[], [Element("rule", map["name" := "r1"], [])])

  lemma EventlessDocumentIsSwallowed(cat: Catalog)
    ensures Eventless.Element?
    ensures RulesOf(Elements(Eventless.children), cat) == Swallowed
  {
    var e := Eventless.children[0];
    assert Elements(Eventless.children) == [e];
    assert ElementsByTag(e, "event") == [];
    assert RuleOf(e, cat) == Swallowed;
  }

  /**
   * readRules as written, on a handler holding one rule and the eventless
   * document: the rule is gone and a NullPointerException escapes.
   */
  method SwallowedErrorDropsRules(rule: Rule, cat: Catalog) returns (before: set<string>, thrown: Option<Unchecked>, after: set<string>)
    ensures before == {rule.id}
    ensures thrown == Some(NullPointer) && after == {}
  {
    var h := new RuleHandler();
    h.AddRule(rule);
    before := h.RuleIds();
    EventlessDocumentIsSwallowed(cat);
    thrown := h.ReadRules(Eventless, cat);
    after := h.RuleIds();
  }

  /** The corrected reload on the same handler and document keeps the rule. */
  method ParseFailureKeepsRules(rule: Rule, cat: Catalog) returns (before: set<string>, parsed: Parsed<seq<Rule>>, after: set<string>)
    ensures before == {rule.id}
    ensures parsed == Swallowed && after == before
  {
    var h := new RuleHandler();
    h.AddRule(rule);
    before := h.RuleIds();
    EventlessDocumentIsSwallowed(cat);
    parsed := h.Reload(Eventless, cat);
    after := h.RuleIds();
  }
}
