/** The binding handler's per-element operations: `setProperty`,
    `removeListenerByKey`, the two phases of `update` (prune, then assign) and the
    teardown loop of the dispose callback. Each takes the element's registry and
    returns the new registry with the trace of DOM calls it made, in order. */
module Binding {
  import opened Wrappers
  import opened Dom
  import opened Registry
  import opened EventNames

  datatype Step = Step(registry: Registry, effects: seq<Effect>)

  /** `paramName.startsWith("on") && typeof prop === "function"`. */
  predicate IsListenerParam(name: string, prop: Value) {
    IsOnName(name) && prop.Function?
  }

  /** The `removeEventListener` call for whatever the registry holds under `key`; none
      when it holds nothing. */
  function Detach(reg: Registry, key: string): seq<Effect> {
    match Get(reg, key)
    case None => []
    case Some(previous) => [RemoveListener(key, previous)]
  }

  /** One `removeEventListener` call per entry, in the entries' order. */
  function Removals(entries: seq<Entry>): (effs: seq<Effect>)
    ensures |effs| == |entries|
    decreases |entries|
  {
    if |entries| == 0 then []
    else [RemoveListener(entries[0].event, entries[0].listener)] + Removals(entries[1..])
  }

  /** `setProperty(element, prop, listeners, paramName)`. */
  function SetProperty(reg: Registry, prop: Value, name: string): (s: Step)
    // the same function object is already registered: no DOM call, no registry change
    ensures IsListenerParam(name, prop) && Get(reg, EventName(name)) == Some(prop.ref) ==>
      s == Step(reg, [])
    // another function, or none, is registered: detach it, attach and record the new one
    ensures IsListenerParam(name, prop) && Get(reg, EventName(name)) != Some(prop.ref) ==>
      && Get(s.registry, EventName(name)) == Some(prop.ref)
      && Keys(s.registry) == Keys(reg) + {EventName(name)}
      && (forall k :: k != EventName(name) ==> Get(s.registry, k) == Get(reg, k))
      && s.effects == Detach(reg, EventName(name)) + [AddListener(EventName(name), prop.ref)]
    // anything else is written to the element under its own name, registry untouched
    ensures !IsListenerParam(name, prop) ==> s == Step(reg, [SetProp(name, prop)])
  {
    if IsListenerParam(name, prop) then
      var event := EventName(name);
      if Get(reg, event) == Some(prop.ref) then Step(reg, [])
      else Step(Put(reg, event, prop.ref), Detach(reg, event) + [AddListener(event, prop.ref)])
    else
      Step(reg, [SetProp(name, prop)])
  }

  /** `removeListenerByKey(element, key, listeners)`. For a key the registry does not
      hold, `removeEventListener(key, undefined)` detaches nothing, so no call is
      recorded. */
  function RemoveListenerByKey(reg: Registry, key: string): (s: Step)
    ensures Keys(s.registry) == Keys(reg) - {key}
    ensures forall k :: Get(s.registry, k) == if k == key then None else Get(reg, k)
    ensures Get(reg, key).Some? ==> s.effects == [RemoveListener(key, Get(reg, key).value)]
    ensures Get(reg, key).None? ==> s.effects == []
  {
    Step(Delete(reg, key), Detach(reg, key))
  }

  /** `removeListenerByKey` for each key in turn, on the registry as it evolves. */
  function RemoveKeys(reg: Registry, keys: seq<string>): Step
    decreases |keys|
  {
    if |keys| == 0 then Step(reg, [])
    else
      var first := RemoveListenerByKey(reg, keys[0]);
      var rest := RemoveKeys(first.registry, keys[1..]);
      Step(rest.registry, first.effects + rest.effects)
  }

  /** Removing the keys of entries the registry holds, each once, detaches exactly
      those entries' listeners in that order and leaves every other key as it was. */
  lemma {:induction false} RemoveKeysOfEntries(reg: Registry, entries: seq<Entry>)
    requires Distinct(entries)
    requires forall i :: 0 <= i < |entries| ==> Get(reg, entries[i].event) == Some(entries[i].listener)
    ensures var s := RemoveKeys(reg, OwnKeys(entries));
      && s.effects == Removals(entries)
      && Keys(s.registry) == Keys(reg) - Keys(entries)
      && forall k :: k !in Keys(entries) ==> Get(s.registry, k) == Get(reg, k)
    decreases |entries|
  {
    if |entries| > 0 {
      var head, rest := entries[0], entries[1..];
      assert entries == [head] + rest;
      ConsViews(head, rest);
      var first := RemoveListenerByKey(reg, head.event);
      forall i | 0 <= i < |rest|
        ensures Get(first.registry, rest[i].event) == Some(rest[i].listener)
      {
        assert rest[i] in rest;
        KeysContainEvents(rest, rest[i]);
        assert Get(reg, entries[i + 1].event) == Some(entries[i + 1].listener);
      }
      RemoveKeysOfEntries(first.registry, rest);
    }
  }

  /** The event names some parameter name normalises to. */
  function Targets(names: seq<string>): set<string> {
    set n | n in names :: EventName(n)
  }

  /** The keys a prune keeps: `paramNames.some(name => getEventName(name) === key)`. */
  lemma TargetsMeaning(names: seq<string>, key: string)
    ensures key in Targets(names) <==> exists i :: 0 <= i < |names| && EventName(names[i]) == key
  {
    if key in Targets(names) {
      var n :| n in names && EventName(n) == key;
      var i :| 0 <= i < |names| && names[i] == n;
    }
  }

  /** `Object.keys(listeners).filter(key => !paramNames.some(...))`. */
  function StaleKeys(keys: seq<string>, targets: set<string>): seq<string>
    decreases |keys|
  {
    if |keys| == 0 then []
    else if keys[0] in targets then StaleKeys(keys[1..], targets)
    else [keys[0]] + StaleKeys(keys[1..], targets)
  }

  /** The entries of a registry whose keys are not targeted, in registry order. */
  function Dropped(entries: seq<Entry>, targets: set<string>): seq<Entry>
    decreases |entries|
  {
    if |entries| == 0 then []
    else if entries[0].event in targets then Dropped(entries[1..], targets)
    else [entries[0]] + Dropped(entries[1..], targets)
  }

  /** The stale keys are the keys of the dropped entries, and those entries are entries
      of the registry with distinct keys. */
  lemma {:induction false} DroppedFacts(reg: Registry, targets: set<string>)
    ensures OwnKeys(Dropped(reg, targets)) == StaleKeys(OwnKeys(reg), targets)
    ensures Distinct(Dropped(reg, targets))
    ensures Keys(Dropped(reg, targets)) == Keys(reg) - targets
    ensures forall e :: e in Dropped(reg, targets) ==> e in reg
    decreases |reg|
  {
    if |reg| > 0 {
      var head, rest := reg[0], reg[1..];
      assert reg == [head] + rest;
      ConsViews(head, rest);
      DroppedFacts(rest, targets);
      if head.event !in targets {
        ConsViews(head, Dropped(rest, targets));
      }
    }
  }

  /** Step 1 of `update`: detach and forget every registered listener whose key no
      parameter name normalises to. Only the names decide, not the values. */
  function Prune(reg: Registry, names: seq<string>): (s: Step)
    ensures Keys(s.registry) == Keys(reg) * Targets(names)
    ensures forall k :: k in Targets(names) ==> Get(s.registry, k) == Get(reg, k)
    ensures s.effects == Removals(Dropped(reg, Targets(names)))
  {
    var targets := Targets(names);
    DroppedFacts(reg, targets);
    var dropped := Dropped(reg, targets);
    forall i | 0 <= i < |dropped|
      ensures Get(reg, dropped[i].event) == Some(dropped[i].listener)
    {
      assert dropped[i] in dropped;
      EntryIsFound(reg, dropped[i]);
    }
    RemoveKeysOfEntries(reg, dropped);
    RemoveKeys(reg, StaleKeys(OwnKeys(reg), targets))
  }

  /** The dispose callback's loop: `removeListenerByKey` for every registered key. */
  function Teardown(reg: Registry): (s: Step)
    ensures s.registry == []
    ensures s.effects == Removals(reg)
  {
    forall i | 0 <= i < |reg|
      ensures Get(reg, reg[i].event) == Some(reg[i].listener)
    {
      assert reg[i] in reg;
      EntryIsFound(reg, reg[i]);
    }
    RemoveKeysOfEntries(reg, reg);
    var s := RemoveKeys(reg, OwnKeys(reg));
    assert Keys(s.registry) == {};
    EmptyKeys(s.registry);
    s
  }

  /** The registry entry a parameter asks for, when it is a listener parameter; the
      value is resolved first, as `ko.toJS(params[name])` does. */
  function Binds<R>(param: (string, R), resolve: R -> Value): Option<Entry> {
    var prop := resolve(param.1);
    if IsListenerParam(param.0, prop) then Some(Entry(EventName(param.0), prop.ref)) else None
  }

  /** Reference for what the assign loop leaves registered: the function of the last
      listener parameter bound to `event`, found by scanning from the end. */
  function LastBinding<R>(params: seq<(string, R)>, resolve: R -> Value, event: string): Option<FnRef>
    decreases |params|
  {
    if |params| == 0 then None
    else
      var b := Binds(params[|params| - 1], resolve);
      if b.Some? && b.value.event == event then Some(b.value.listener)
      else LastBinding(params[..|params| - 1], resolve, event)
  }

  /** What a single parameter binds to `event`. */
  function BindingOf<R>(param: (string, R), resolve: R -> Value, event: string): Option<FnRef> {
    var b := Binds(param, resolve);
    if b.Some? && b.value.event == event then Some(b.value.listener) else None
  }

  /** The last binding of a list is the last binding of its tail, else its head's. */
  lemma {:induction false} LastBindingFromFront<R>(params: seq<(string, R)>, resolve: R -> Value, event: string)
    requires |params| > 0
    ensures LastBinding(params, resolve, event)
         == LastBinding(params[1..], resolve, event).OrElse(BindingOf(params[0], resolve, event))
    decreases |params|
  {
    if |params| > 1 {
      var init := params[..|params| - 1];
      assert init[1..] == params[1..][..|params[1..]| - 1];
      assert params[1..][|params[1..]| - 1] == params[|params| - 1];
      assert init[0] == params[0];
      LastBindingFromFront(init, resolve, event);
    }
  }

  /** The property writes a parameter list asks for, in order: one per parameter that
      is not a listener parameter. */
  function PropertyParams<R>(params: seq<(string, R)>, resolve: R -> Value): seq<Effect>
    decreases |params|
  {
    if |params| == 0 then []
    else
      var prop := resolve(params[0].1);
      (if IsListenerParam(params[0].0, prop) then [] else [SetProp(params[0].0, prop)])
        + PropertyParams(params[1..], resolve)
  }

  /** The property writes of a trace, in order. */
  function PropertyWrites(effs: seq<Effect>): seq<Effect>
    decreases |effs|
  {
    if |effs| == 0 then []
    else (if effs[0].SetProp? then [effs[0]] else []) + PropertyWrites(effs[1..])
  }

  lemma {:induction false} PropertyWritesAppend(a: seq<Effect>, b: seq<Effect>)
    ensures PropertyWrites(a + b) == PropertyWrites(a) + PropertyWrites(b)
    decreases |a|
  {
    if |a| == 0 {
      assert a + b == b;
    } else {
      assert (a + b)[1..] == a[1..] + b;
      PropertyWritesAppend(a[1..], b);
    }
  }

  lemma {:induction false} RemovalsWriteNoProperty(entries: seq<Entry>)
    ensures PropertyWrites(Removals(entries)) == []
    decreases |entries|
  {
    if |entries| > 0 {
      RemovalsWriteNoProperty(entries[1..]);
    }
  }

  /** Step 2 of `update`: `setProperty` for every parameter in key order. Each event
      name ends up bound to its last listener parameter's function, every other key keeps
      its entry, and every other parameter is written to the element in order. */
  function Assign<R>(reg: Registry, params: seq<(string, R)>, resolve: R -> Value): (s: Step)
    ensures forall k :: Get(s.registry, k) == LastBinding(params, resolve, k).OrElse(Get(reg, k))
    ensures PropertyWrites(s.effects) == PropertyParams(params, resolve)
    decreases |params|
  {
    if |params| == 0 then Step(reg, [])
    else
      var first := SetProperty(reg, resolve(params[0].1), params[0].0);
      var rest := Assign(first.registry, params[1..], resolve);
      forall k
        ensures Get(rest.registry, k) == LastBinding(params, resolve, k).OrElse(Get(reg, k))
      {
        LastBindingFromFront(params, resolve, k);
      }
      PropertyWritesAppend(first.effects, rest.effects);
      Step(rest.registry, first.effects + rest.effects)
  }

  /** `Object.keys(params)`. */
  function Names<R>(params: seq<(string, R)>): (names: seq<string>)
    ensures |names| == |params|
  {
    seq(|params|, i requires 0 <= i < |params| => params[i].0)
  }

  /** The parameters come from one object, so their names are distinct. */
  predicate DistinctNames<R>(params: seq<(string, R)>) {
    forall i, j :: 0 <= i < j < |params| ==> params[i].0 != params[j].0
  }

  /** `bindingHandler.update` on an element whose registry is `reg`: prune, then
      assign. After it, an event name is bound to its last listener parameter's function,
      or keeps its old listener if some parameter name still normalises to it, or is
      gone; the trace opens with the pruned listeners' removals and writes every
      non-listener parameter. */
  function Update<R>(reg: Registry, params: seq<(string, R)>, resolve: R -> Value): (s: Step)
    requires DistinctNames(params)
    ensures forall k ::
              Get(s.registry, k)
              == LastBinding(params, resolve, k).OrElse(if k in Targets(Names(params)) then Get(reg, k) else None)
    ensures var dropped := Dropped(reg, Targets(Names(params)));
      |dropped| <= |s.effects| && s.effects[..|dropped|] == Removals(dropped)
    ensures PropertyWrites(s.effects) == PropertyParams(params, resolve)
  {
    var pruned := Prune(reg, Names(params));
    var applied := Assign(pruned.registry, params, resolve);
    RemovalsWriteNoProperty(Dropped(reg, Targets(Names(params))));
    PropertyWritesAppend(pruned.effects, applied.effects);
    assert (pruned.effects + applied.effects)[..|pruned.effects|] == pruned.effects;
    Step(applied.registry, pruned.effects + applied.effects)
  }
}
