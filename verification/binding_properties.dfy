/** Properties relating several calls of the binding: the listeners attached through
    it are always exactly the registry's pairs, and a second `update` with the same
    parameters makes no listener call exactly when listener parameters for one event
    carry one function. */
module BindingProperties {
  import opened Wrappers
  import opened Dom
  import opened Registry
  import opened EventNames
  import opened Binding

  /** The listeners attached through the binding are exactly the registered pairs. */
  predicate InSync(e: Element, reg: Registry) {
    e.listeners == Pairs(reg)
  }

  /** Registering `f` under `key` in place of what was there, and detaching the old
      listener and attaching `f`, keep element and registry in step. */
  lemma RebindKeepsSync(e: Element, reg: Registry, key: string, f: FnRef, r: Registry)
    requires InSync(e, reg)
    requires Get(r, key) == Some(f)
    requires forall k :: k != key ==> Get(r, k) == Get(reg, k)
    ensures InSync(ApplyAll(e, Detach(reg, key) + [AddListener(key, f)]), r)
  {
    ApplyAllAppend(e, Detach(reg, key), [AddListener(key, f)]);
    PairsAreLookupGraph(reg);
    PairsAreLookupGraph(r);
    var mid := ApplyAll(e, Detach(reg, key));
    assert mid.listeners == Pairs(reg) - (set p | p in Pairs(reg) && p.0 == key);
  }

  /** Forgetting `key` and detaching its listener keep element and registry in step. */
  lemma ForgetKeepsSync(e: Element, reg: Registry, key: string, r: Registry)
    requires InSync(e, reg)
    requires Get(r, key) == None
    requires forall k :: k != key ==> Get(r, k) == Get(reg, k)
    ensures InSync(ApplyAll(e, Detach(reg, key)), r)
  {
    PairsAreLookupGraph(reg);
    PairsAreLookupGraph(r);
    assert ApplyAll(e, Detach(reg, key)).listeners == Pairs(reg) - (set p | p in Pairs(reg) && p.0 == key);
  }

  lemma SetPropertyKeepsSync(e: Element, reg: Registry, prop: Value, name: string)
    requires InSync(e, reg)
    ensures InSync(ApplyAll(e, SetProperty(reg, prop, name).effects), SetProperty(reg, prop, name).registry)
  {
    var s := SetProperty(reg, prop, name);
    if IsListenerParam(name, prop) && Get(reg, EventName(name)) != Some(prop.ref) {
      RebindKeepsSync(e, reg, EventName(name), prop.ref, s.registry);
    }
  }

  lemma RemoveListenerByKeyKeepsSync(e: Element, reg: Registry, key: string)
    requires InSync(e, reg)
    ensures InSync(ApplyAll(e, RemoveListenerByKey(reg, key).effects), RemoveListenerByKey(reg, key).registry)
  {
    ForgetKeepsSync(e, reg, key, RemoveListenerByKey(reg, key).registry);
  }

  lemma {:induction false} RemoveKeysKeepsSync(e: Element, reg: Registry, keys: seq<string>)
    requires InSync(e, reg)
    ensures InSync(ApplyAll(e, RemoveKeys(reg, keys).effects), RemoveKeys(reg, keys).registry)
    decreases |keys|
  {
    if |keys| > 0 {
      var first := RemoveListenerByKey(reg, keys[0]);
      var rest := RemoveKeys(first.registry, keys[1..]);
      RemoveListenerByKeyKeepsSync(e, reg, keys[0]);
      RemoveKeysKeepsSync(ApplyAll(e, first.effects), first.registry, keys[1..]);
      ApplyAllAppend(e, first.effects, rest.effects);
    }
  }

  lemma {:induction false} AssignKeepsSync<R>(e: Element, reg: Registry, params: seq<(string, R)>, resolve: R -> Value)
    requires InSync(e, reg)
    ensures InSync(ApplyAll(e, Assign(reg, params, resolve).effects), Assign(reg, params, resolve).registry)
    decreases |params|
  {
    if |params| > 0 {
      var first := SetProperty(reg, resolve(params[0].1), params[0].0);
      var rest := Assign(first.registry, params[1..], resolve);
      SetPropertyKeepsSync(e, reg, resolve(params[0].1), params[0].0);
      AssignKeepsSync(ApplyAll(e, first.effects), first.registry, params[1..], resolve);
      ApplyAllAppend(e, first.effects, rest.effects);
    }
  }

  /** `update` keeps the attached listeners equal to the registered pairs, hence at
      most one listener per event name. */
  lemma UpdateKeepsSync<R>(e: Element, reg: Registry, params: seq<(string, R)>, resolve: R -> Value)
    requires DistinctNames(params)
    requires InSync(e, reg)
    ensures InSync(ApplyAll(e, Update(reg, params, resolve).effects), Update(reg, params, resolve).registry)
  {
    var targets := Targets(Names(params));
    var pruned := Prune(reg, Names(params));
    RemoveKeysKeepsSync(e, reg, StaleKeys(OwnKeys(reg), targets));
    AssignKeepsSync(ApplyAll(e, pruned.effects), pruned.registry, params, resolve);
    ApplyAllAppend(e, pruned.effects, Assign(pruned.registry, params, resolve).effects);
  }

  /** The dispose loop leaves no listener attached through the binding. */
  lemma TeardownDetachesAll(e: Element, reg: Registry)
    requires InSync(e, reg)
    ensures ApplyAll(e, Teardown(reg).effects).listeners == {}
  {
    RemoveKeysKeepsSync(e, reg, OwnKeys(reg));
  }

  /** Listener parameters that bind the same event name carry the same function. */
  predicate ListenerEventsAgree<R>(params: seq<(string, R)>, resolve: R -> Value) {
    forall i, j ::
      && 0 <= i < j < |params|
      && Binds(params[i], resolve).Some? && Binds(params[j], resolve).Some?
      && Binds(params[i], resolve).value.event == Binds(params[j], resolve).value.event
      ==> Binds(params[i], resolve).value.listener == Binds(params[j], resolve).value.listener
  }

  /** A listener parameter whose function every later listener parameter for the same
      event repeats decides the binding of that event. */
  lemma {:induction false} LastBindingOfAgreeing<R>(params: seq<(string, R)>, resolve: R -> Value, i: nat)
    requires i < |params| && Binds(params[i], resolve).Some?
    requires forall j :: i < j < |params| && Binds(params[j], resolve).Some?
               && Binds(params[j], resolve).value.event == Binds(params[i], resolve).value.event
               ==> Binds(params[j], resolve).value.listener == Binds(params[i], resolve).value.listener
    ensures LastBinding(params, resolve, Binds(params[i], resolve).value.event)
         == Some(Binds(params[i], resolve).value.listener)
    decreases |params|
  {
    var last := Binds(params[|params| - 1], resolve);
    var b := Binds(params[i], resolve).value;
    if i < |params| - 1 && !(last.Some? && last.value.event == b.event) {
      var init := params[..|params| - 1];
      assert init[i] == params[i];
      forall j | i < j < |init| && Binds(init[j], resolve).Some?
                 && Binds(init[j], resolve).value.event == Binds(init[i], resolve).value.event
        ensures Binds(init[j], resolve).value.listener == Binds(init[i], resolve).value.listener
      {
        assert init[j] == params[j];
      }
      LastBindingOfAgreeing(init, resolve, i);
    }
  }

  /** An event name bound by some listener parameter is one a parameter name
      normalises to, so the prune keeps it. */
  lemma {:induction false} LastBindingIsTargeted<R>(params: seq<(string, R)>, resolve: R -> Value, event: string)
    requires LastBinding(params, resolve, event).Some?
    ensures event in Targets(Names(params))
    decreases |params|
  {
    var last := params[|params| - 1];
    var init := params[..|params| - 1];
    if Binds(last, resolve).Some? && Binds(last, resolve).value.event == event {
      assert Names(params)[|params| - 1] == last.0;
    } else {
      LastBindingIsTargeted(init, resolve, event);
      var n :| n in Names(init) && EventName(n) == event;
      var i :| 0 <= i < |init| && Names(init)[i] == n;
      assert Names(params)[i] == n;
    }
  }

  /** A prune changes nothing when every registered key is still targeted. */
  lemma PruneOfTargeted(reg: Registry, names: seq<string>)
    requires Keys(reg) <= Targets(names)
    ensures Prune(reg, names) == Step(reg, [])
  {
    DroppedFacts(reg, Targets(names));
    EmptyKeys(Dropped(reg, Targets(names)));
  }

  /** Assigning parameters whose listeners are all registered already makes no
      listener call: only the property writes remain. */
  lemma {:induction false} AssignOverRegistered<R>(reg: Registry, params: seq<(string, R)>, resolve: R -> Value)
    requires forall i :: 0 <= i < |params| && Binds(params[i], resolve).Some?
               ==> Get(reg, Binds(params[i], resolve).value.event) == Some(Binds(params[i], resolve).value.listener)
    ensures Assign(reg, params, resolve) == Step(reg, PropertyParams(params, resolve))
    decreases |params|
  {
    if |params| > 0 {
      forall i | 0 <= i < |params[1..]| && Binds(params[1..][i], resolve).Some?
        ensures Get(reg, Binds(params[1..][i], resolve).value.event)
             == Some(Binds(params[1..][i], resolve).value.listener)
      {
        assert params[1..][i] == params[i + 1];
      }
      AssignOverRegistered(reg, params[1..], resolve);
      var head := Binds(params[0], resolve);
      assert head.Some? ==> Get(reg, head.value.event) == Some(head.value.listener);
    }
  }

  /** Running `update` twice with the same parameters: the second pass makes no
      `addEventListener` or `removeEventListener` call and leaves the registry as it
      is, but writes every non-listener parameter to the element again. This needs the
      listener parameters to bind distinct event names (see `CollidingListenersChurn`). */
  /** The second `update` with the same parameters prunes nothing: every key the first
      left registered is one a parameter name normalises to. */
  lemma SecondPruneIsQuiet<R>(reg: Registry, params: seq<(string, R)>, resolve: R -> Value)
    requires DistinctNames(params)
    ensures var first := Update(reg, params, resolve);
            Prune(first.registry, Names(params)) == Step(first.registry, [])
  {
    var first := Update(reg, params, resolve);
    forall k | k in Keys(first.registry)
      ensures k in Targets(Names(params))
    {
      if LastBinding(params, resolve, k).Some? {
        LastBindingIsTargeted(params, resolve, k);
      }
    }
    PruneOfTargeted(first.registry, Names(params));
  }

  /** Running `update` twice with the same parameters: the second pass makes no
      `addEventListener` or `removeEventListener` call and leaves the registry as it
      is, but writes every non-listener parameter to the element again. This needs the
      listener parameters for one event to carry one function (see
      `CollidingListenersChurn`, and `UpdateTwiceQuietIff` for the converse). */
  lemma UpdateTwiceIsQuiet<R>(reg: Registry, params: seq<(string, R)>, resolve: R -> Value)
    requires DistinctNames(params)
    requires ListenerEventsAgree(params, resolve)
    ensures var first := Update(reg, params, resolve);
            var second := Update(first.registry, params, resolve);
            second == Step(first.registry, PropertyParams(params, resolve))
  {
    var first := Update(reg, params, resolve);
    SecondPruneIsQuiet(reg, params, resolve);
    forall i | 0 <= i < |params| && Binds(params[i], resolve).Some?
      ensures Get(first.registry, Binds(params[i], resolve).value.event)
           == Some(Binds(params[i], resolve).value.listener)
    {
      LastBindingOfAgreeing(params, resolve, i);
    }
    AssignOverRegistered(first.registry, params, resolve);
    assert [] + PropertyParams(params, resolve) == PropertyParams(params, resolve);
  }

  /** The property writes a parameter list asks for contain no listener call. */
  lemma {:induction false} PropertyParamsAreQuiet<R>(params: seq<(string, R)>, resolve: R -> Value)
    ensures NoListenerCall(PropertyParams(params, resolve))
    decreases |params|
  {
    if |params| > 0 {
      PropertyParamsAreQuiet(params[1..], resolve);
    }
  }

  /** An assign loop that makes no listener call found every listener parameter's
      function already registered for its event. */
  lemma {:induction false} QuietAssignFoundRegistered<R>(reg: Registry, params: seq<(string, R)>, resolve: R -> Value)
    requires NoListenerCall(Assign(reg, params, resolve).effects)
    ensures forall i :: 0 <= i < |params| && Binds(params[i], resolve).Some?
              ==> Get(reg, Binds(params[i], resolve).value.event) == Some(Binds(params[i], resolve).value.listener)
    decreases |params|
  {
    if |params| > 0 {
      var prop := resolve(params[0].1);
      var first := SetProperty(reg, prop, params[0].0);
      var rest := Assign(first.registry, params[1..], resolve);
      assert Assign(reg, params, resolve).effects == first.effects + rest.effects;
      assert NoListenerCall(rest.effects) by {
        forall k | 0 <= k < |rest.effects|
          ensures !IsListenerCall(rest.effects[k])
        {
          assert rest.effects[k] == (first.effects + rest.effects)[|first.effects| + k];
        }
      }
      if IsListenerParam(params[0].0, prop) && Get(reg, EventName(params[0].0)) != Some(prop.ref) {
        assert false;
      }
      assert first.registry == reg;
      QuietAssignFoundRegistered(reg, params[1..], resolve);
      forall i | 0 <= i < |params| && Binds(params[i], resolve).Some?
        ensures Get(reg, Binds(params[i], resolve).value.event) == Some(Binds(params[i], resolve).value.listener)
      {
        if i > 0 {
          assert params[1..][i - 1] == params[i];
        }
      }
    }
  }

  /** The second `update` with the same parameters makes no listener call exactly when
      listener parameters for one event carry one function. */
  lemma UpdateTwiceQuietIff<R>(reg: Registry, params: seq<(string, R)>, resolve: R -> Value)
    requires DistinctNames(params)
    ensures var first := Update(reg, params, resolve);
            NoListenerCall(Update(first.registry, params, resolve).effects) <==> ListenerEventsAgree(params, resolve)
  {
    var first := Update(reg, params, resolve);
    var second := Update(first.registry, params, resolve);
    if ListenerEventsAgree(params, resolve) {
      UpdateTwiceIsQuiet(reg, params, resolve);
      PropertyParamsAreQuiet(params, resolve);
    }
    if NoListenerCall(second.effects) {
      SecondPruneIsQuiet(reg, params, resolve);
      var applied := Assign(first.registry, params, resolve);
      assert second.effects == [] + applied.effects;
      assert [] + applied.effects == applied.effects;
      QuietAssignFoundRegistered(first.registry, params, resolve);
    }
  }

  /** On an element in step with the registry, the second `update` leaves the attached
      listeners exactly as the first left them. */
  lemma SecondPassKeepsListeners<R>(e: Element, reg: Registry, params: seq<(string, R)>, resolve: R -> Value)
    requires DistinctNames(params)
    requires ListenerEventsAgree(params, resolve)
    ensures var first := Update(reg, params, resolve);
            var e1 := ApplyAll(e, first.effects);
            ApplyAll(e1, Update(first.registry, params, resolve).effects).listeners == e1.listeners
  {
    var first := Update(reg, params, resolve);
    UpdateTwiceIsQuiet(reg, params, resolve);
    PropertyParamsAreQuiet(params, resolve);
    PropertyWritesKeepListeners(ApplyAll(e, first.effects), PropertyParams(params, resolve));
  }

  /** Without any hypothesis on event names, a second `update` leaves every event name
      bound to what the first left it bound to; only the DOM calls can differ. */
  lemma UpdateTwiceSameBindings<R>(reg: Registry, params: seq<(string, R)>, resolve: R -> Value, key: string)
    requires DistinctNames(params)
    ensures var first := Update(reg, params, resolve);
            Get(Update(first.registry, params, resolve).registry, key) == Get(first.registry, key)
  {
  }

  /** Two elements with the same properties still agree on them after the same trace. */
  lemma {:induction false} PropsIgnoreListeners(e1: Element, e2: Element, effs: seq<Effect>)
    requires e1.props == e2.props
    ensures ApplyAll(e1, effs).props == ApplyAll(e2, effs).props
    decreases |effs|
  {
    if |effs| > 0 {
      PropsIgnoreListeners(Apply(e1, effs[0]), Apply(e2, effs[0]), effs[1..]);
    }
  }

  /** Listener calls do not touch properties: a trace's effect on them is that of its
      property writes alone. */
  lemma {:induction false} PropsFollowWrites(e: Element, effs: seq<Effect>)
    ensures ApplyAll(e, effs).props == ApplyAll(e, PropertyWrites(effs)).props
    decreases |effs|
  {
    if |effs| > 0 {
      var e1 := Apply(e, effs[0]);
      PropsFollowWrites(e1, effs[1..]);
      if effs[0].SetProp? {
        assert ([effs[0]] + PropertyWrites(effs[1..]))[1..] == PropertyWrites(effs[1..]);
      } else {
        assert PropertyWrites(effs) == PropertyWrites(effs[1..]);
        PropsIgnoreListeners(e1, e, PropertyWrites(effs[1..]));
      }
    }
  }

  /** The names of the parameters that are written to the element as properties. */
  function WrittenNames<R>(params: seq<(string, R)>, resolve: R -> Value): set<string> {
    set i | 0 <= i < |params| && Binds(params[i], resolve).None? :: params[i].0
  }

  /** Performing a parameter list's property writes leaves each written name holding
      its parameter's resolved value and every other property as it was. */
  lemma {:induction false} PropertyParamsSetProps<R>(e: Element, params: seq<(string, R)>, resolve: R -> Value)
    requires DistinctNames(params)
    ensures var props := ApplyAll(e, PropertyParams(params, resolve)).props;
      && (forall i :: 0 <= i < |params| && Binds(params[i], resolve).None? ==>
            params[i].0 in props && props[params[i].0] == resolve(params[i].1))
      && (forall n :: n !in WrittenNames(params, resolve) ==>
            (n in props <==> n in e.props) && (n in props ==> props[n] == e.props[n]))
    decreases |params|
  {
    if |params| > 0 {
      var prop := resolve(params[0].1);
      var head: seq<Effect> := if IsListenerParam(params[0].0, prop) then [] else [SetProp(params[0].0, prop)];
      var e1 := ApplyAll(e, head);
      var rest := params[1..];
      ApplyAllAppend(e, head, PropertyParams(rest, resolve));
      PropertyParamsSetProps(e1, rest, resolve);
      var props := ApplyAll(e, PropertyParams(params, resolve)).props;
      forall i | 0 <= i < |params| && Binds(params[i], resolve).None?
        ensures params[i].0 in props && props[params[i].0] == resolve(params[i].1)
      {
        if i > 0 {
          assert rest[i - 1] == params[i];
        } else {
          assert params[0].0 !in WrittenNames(rest, resolve);
        }
      }
      forall n | n !in WrittenNames(params, resolve)
        ensures (n in props <==> n in e.props) && (n in props ==> props[n] == e.props[n])
      {
        assert n !in WrittenNames(rest, resolve);
        assert Binds(params[0], resolve).None? ==> params[0].0 in WrittenNames(params, resolve);
      }
    }
  }

  /** After `update`, every non-listener parameter's name holds its resolved value and
      no other property has changed. */
  lemma UpdateSetsProperties<R>(e: Element, reg: Registry, params: seq<(string, R)>, resolve: R -> Value)
    requires DistinctNames(params)
    ensures var props := ApplyAll(e, Update(reg, params, resolve).effects).props;
      && (forall i :: 0 <= i < |params| && Binds(params[i], resolve).None? ==>
            params[i].0 in props && props[params[i].0] == resolve(params[i].1))
      && (forall n :: n !in WrittenNames(params, resolve) ==>
            (n in props <==> n in e.props) && (n in props ==> props[n] == e.props[n]))
  {
    PropsFollowWrites(e, Update(reg, params, resolve).effects);
    PropertyParamsSetProps(e, params, resolve);
  }
}
