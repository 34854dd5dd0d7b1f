/** Concrete reconciliations: listener replacement and removal, properties written on
    every pass, an "on" name whose value stops being a function, two parameter names
    that share an event name, a full teardown, and observable resolution. */
module BindingExamples {
  import opened Wrappers
  import opened Dom
  import opened Registry
  import opened EventNames
  import opened Binding
  import opened BindingProperties
  import opened Lifecycle

  /** Parameters given as already-plain values. */
  function Plain(v: Value): Value { v }

  /** `update` with no stale key is the assign loop alone. */
  lemma UpdateOfTargeted<R>(reg: Registry, params: seq<(string, R)>, resolve: R -> Value)
    requires DistinctNames(params)
    requires Keys(reg) <= Targets(Names(params))
    ensures Update(reg, params, resolve) == Assign(reg, params, resolve)
  {
    PruneOfTargeted(reg, Names(params));
    assert [] + Assign(reg, params, resolve).effects == Assign(reg, params, resolve).effects;
  }

  /** The assign loop over one parameter is one `setProperty`. */
  lemma AssignOne<R>(reg: Registry, p: (string, R), resolve: R -> Value)
    ensures Assign(reg, [p], resolve) == SetProperty(reg, resolve(p.1), p.0)
  {
    assert [p][1..] == [];
    var s := SetProperty(reg, resolve(p.1), p.0);
    assert s.effects + [] == s.effects;
  }

  /** The assign loop over two parameters is two `setProperty` calls in order. */
  lemma AssignTwo<R>(reg: Registry, p: (string, R), q: (string, R), resolve: R -> Value)
    ensures var s1 := SetProperty(reg, resolve(p.1), p.0);
      var s2 := SetProperty(s1.registry, resolve(q.1), q.0);
      Assign(reg, [p, q], resolve) == Step(s2.registry, s1.effects + s2.effects)
  {
    assert [p, q][1..] == [q];
    var s1 := SetProperty(reg, resolve(p.1), p.0);
    AssignOne(s1.registry, q, resolve);
  }

  /** `update` with one parameter and no stale key is one `setProperty`. */
  lemma UpdateOne<R>(reg: Registry, p: (string, R), resolve: R -> Value)
    requires Keys(reg) <= {EventName(p.0)}
    ensures Update(reg, [p], resolve) == SetProperty(reg, resolve(p.1), p.0)
  {
    assert Names([p]) == [p.0];
    assert Targets([p.0]) == {EventName(p.0)} by {
      assert forall n :: n in [p.0] <==> n == p.0;
    }
    UpdateOfTargeted(reg, [p], resolve);
    AssignOne(reg, p, resolve);
  }

  /** `update` with two parameters and no stale key is two `setProperty` calls. */
  lemma UpdateTwo<R>(reg: Registry, p: (string, R), q: (string, R), resolve: R -> Value)
    requires p.0 != q.0
    requires Keys(reg) <= {EventName(p.0), EventName(q.0)}
    ensures var s1 := SetProperty(reg, resolve(p.1), p.0);
      var s2 := SetProperty(s1.registry, resolve(q.1), q.0);
      Update(reg, [p, q], resolve) == Step(s2.registry, s1.effects + s2.effects)
  {
    assert Names([p, q]) == [p.0, q.0];
    assert Targets([p.0, q.0]) == {EventName(p.0), EventName(q.0)} by {
      assert forall n :: n in [p.0, q.0] <==> n == p.0 || n == q.0;
    }
    UpdateOfTargeted(reg, [p, q], resolve);
    AssignTwo(reg, p, q, resolve);
  }

  lemma ClickNames()
    ensures EventName("onClick") == "click"
    ensures EventName("onclick") == "click"
  {
    EventNameExamples();
    assert "onclick" == "on" + ['c'] + "lick";
    EventNameOfOnPrefix('c', "lick");
  }

  /** The registry holding `f` for `event` and nothing else. */
  function SingleRegistry(event: string, f: FnRef): (r: Registry)
    ensures Keys(r) == {event} && Get(r, event) == Some(f)
    ensures Pairs(r) == {(event, f)}
  {
    ConsViews(Entry(event, f), []);
    [Entry(event, f)]
  }

  /** `setProperty` of a listener on an empty registry attaches and records it. */
  lemma AttachOnEmpty(name: string, f: FnRef)
    requires IsOnName(name)
    ensures SetProperty([], Function(f), name)
         == Step(SingleRegistry(EventName(name), f), [AddListener(EventName(name), f)])
  {
    assert Put([], EventName(name), f) == [Entry(EventName(name), f)];
  }

  /** `setProperty` of a new listener where another one is registered swaps them. */
  lemma SwapOnSingle(name: string, g: FnRef, f: FnRef)
    requires IsOnName(name) && f != g
    ensures var event := EventName(name);
      SetProperty(SingleRegistry(event, g), Function(f), name)
      == Step(SingleRegistry(event, f), [RemoveListener(event, g), AddListener(event, f)])
  {
    var event := EventName(name);
    assert Put(SingleRegistry(event, g), event, f) == [Entry(event, f)];
  }

  /** From `{onX: f1}` to `{onX: f2}`: `f1` is removed and `f2` attached, once each,
      and the event is registered to `f2` alone. */
  lemma ListenerReplacement(name: string, f1: FnRef, f2: FnRef)
    requires IsOnName(name) && f1 != f2
    ensures var event := EventName(name);
      var s := Update(SingleRegistry(event, f1), [(name, Function(f2))], Plain);
      && s.registry == SingleRegistry(event, f2)
      && s.effects == [RemoveListener(event, f1), AddListener(event, f2)]
  {
    UpdateOne(SingleRegistry(EventName(name), f1), (name, Function(f2)), Plain);
    SwapOnSingle(name, f1, f2);
  }

  /** From `{onX: f1}` to `{}`: `f1` is removed and the event forgotten. */
  lemma ListenerRemovedOnOmission(event: string, f1: FnRef)
    ensures var s := Update(SingleRegistry(event, f1), [], Plain);
      && s.registry == []
      && s.effects == [RemoveListener(event, f1)]
  {
    var reg := SingleRegistry(event, f1);
    var params: seq<(string, Value)> := [];
    assert Targets(Names(params)) == {};
    var pruned := Prune(reg, Names(params));
    EmptyKeys(pruned.registry);
    assert reg == [Entry(event, f1)];
    assert Dropped(reg, {}) == reg;
    assert Assign(pruned.registry, params, Plain) == Step([], []);
  }

  /** `{label: a}` reconciled twice writes `label` twice. */
  lemma PropertyAlwaysReassigned(a: nat)
    ensures var first := Update([], [("label", Data(a))], Plain);
      && first == Step([], [SetProp("label", Data(a))])
      && Update(first.registry, [("label", Data(a))], Plain) == first
  {
    assert Keys([]) == {};
    UpdateOne([], ("label", Data(a)), Plain);
  }

  /** From `{onX: f}` to `{onX: 5}`: the prune looks at names only, so `f` stays
      attached and registered, and the number is written to the `onX` property too. */
  lemma NonFunctionKeepsListener(name: string, f: FnRef, five: nat)
    ensures var reg := SingleRegistry(EventName(name), f);
      var s := Update(reg, [(name, Data(five))], Plain);
      && s.registry == reg
      && s.effects == [SetProp(name, Data(five))]
  {
    UpdateOne(SingleRegistry(EventName(name), f), (name, Data(five)), Plain);
  }

  /** Two "on" names that normalise to the same event, from an empty registry: the
      second name's function ends up registered. */
  lemma CollidingListenersFirstPass(a: string, b: string, f: FnRef, g: FnRef)
    requires IsOnName(a) && IsOnName(b) && a != b && EventName(a) == EventName(b)
    requires f != g
    ensures Update([], [(a, Function(f)), (b, Function(g))], Plain).registry == SingleRegistry(EventName(a), g)
  {
    assert Keys([]) == {};
    UpdateTwo([], (a, Function(f)), (b, Function(g)), Plain);
    AttachOnEmpty(a, f);
    SwapOnSingle(b, f, g);
  }

  /** Two "on" names that normalise to the same event (`onClick` and `onclick`): a pass
      with the same parameters, the second included, swaps the second function for
      the first and back. */
  lemma CollidingListenersChurn(a: string, b: string, f: FnRef, g: FnRef)
    requires IsOnName(a) && IsOnName(b) && a != b && EventName(a) == EventName(b)
    requires f != g
    ensures var event := EventName(a);
      var params := [(a, Function(f)), (b, Function(g))];
      Update(SingleRegistry(event, g), params, Plain).effects
      == [RemoveListener(event, g), AddListener(event, f), RemoveListener(event, f), AddListener(event, g)]
  {
    UpdateTwo(SingleRegistry(EventName(a), g), (a, Function(f)), (b, Function(g)), Plain);
    SwapAndBack(a, b, f, g);
  }

  /** Setting `f` under `a` over `{event: g}`, then `g` under `b`, swaps and swaps back. */
  lemma SwapAndBack(a: string, b: string, f: FnRef, g: FnRef)
    requires IsOnName(a) && IsOnName(b) && EventName(a) == EventName(b) && f != g
    ensures var event := EventName(a);
      var s1 := SetProperty(SingleRegistry(event, g), Function(f), a);
      var s2 := SetProperty(s1.registry, Function(g), b);
      s1.effects + s2.effects
      == [RemoveListener(event, g), AddListener(event, f), RemoveListener(event, f), AddListener(event, g)]
  {
    var event := EventName(a);
    SwapOnSingle(a, g, f);
    var s1 := SetProperty(SingleRegistry(event, g), Function(f), a);
    assert s1.registry == SingleRegistry(event, f);
    SwapOnSingle(b, f, g);
    var s2 := SetProperty(s1.registry, Function(g), b);
    assert s2.effects == [RemoveListener(event, f), AddListener(event, g)];
    assert s1.effects + s2.effects
        == [RemoveListener(event, g), AddListener(event, f), RemoveListener(event, f), AddListener(event, g)];
  }

  /** The instance the binding's users would meet: `onClick` and `onclick`. */
  lemma ClickCollision(f: FnRef, g: FnRef)
    requires f != g
    ensures var params := [("onClick", Function(f)), ("onclick", Function(g))];
      Update(Update([], params, Plain).registry, params, Plain).effects
      == [RemoveListener("click", g), AddListener("click", f), RemoveListener("click", f), AddListener("click", g)]
  {
    ClickNames();
    CollidingListenersFirstPass("onClick", "onclick", f, g);
    CollidingListenersChurn("onClick", "onclick", f, g);
  }

  /** Two "on" names for one event carrying the same function: both passes agree on the
      registered function, so the second makes no call at all. */
  lemma SameFunctionCollisionIsQuiet(a: string, b: string, f: FnRef)
    requires IsOnName(a) && IsOnName(b) && a != b && EventName(a) == EventName(b)
    ensures var params := [(a, Function(f)), (b, Function(f))];
      var first := Update([], params, Plain);
      Update(first.registry, params, Plain) == Step(first.registry, [])
  {
    var params := [(a, Function(f)), (b, Function(f))];
    assert DistinctNames(params);
    assert ListenerEventsAgree(params, Plain) by {
      assert Binds(params[0], Plain) == Some(Entry(EventName(a), f));
      assert Binds(params[1], Plain) == Some(Entry(EventName(b), f));
    }
    assert params[1..] == [(b, Function(f))];
    assert PropertyParams(params[1..], Plain) == [];
    assert PropertyParams(params, Plain) == [];
    UpdateTwiceIsQuiet([], params, Plain);
  }

  /** `{onClick: f, onclick: f}` reconciled twice: the second pass makes no call. */
  lemma ClickSameFunction(f: FnRef)
    ensures var params := [("onClick", Function(f)), ("onclick", Function(f))];
      var first := Update([], params, Plain);
      Update(first.registry, params, Plain) == Step(first.registry, [])
  {
    ClickNames();
    SameFunctionCollisionIsQuiet("onClick", "onclick", f);
  }

  /** Attach with `{onX: f1, onY: f2}` for two distinct events: both listeners are
      attached and registered. */
  lemma TwoListenersAttached(a: string, b: string, f1: FnRef, f2: FnRef)
    requires IsOnName(a) && IsOnName(b) && EventName(a) != EventName(b)
    ensures var s := Update([], [(a, Function(f1)), (b, Function(f2))], Plain);
      Pairs(s.registry) == {(EventName(a), f1), (EventName(b), f2)}
  {
    assert Keys([]) == {};
    UpdateTwo([], (a, Function(f1)), (b, Function(f2)), Plain);
    AttachOnEmpty(a, f1);
    var first := SingleRegistry(EventName(a), f1);
    var both := Put(first, EventName(b), f2);
    assert both == [Entry(EventName(a), f1), Entry(EventName(b), f2)];
    assert SetProperty(first, Function(f2), b).registry == both;
    assert [Entry(EventName(a), f1), Entry(EventName(b), f2)][1..] == [Entry(EventName(b), f2)];
  }

  /** Attach with `{onX: f1, onY: f2}` for two distinct events, then dispose: both
      listeners are attached after the update, both are removed by the dispose, and
      the element has no registry left. */
  lemma FullTeardown(a: string, b: string, f1: FnRef, f2: FnRef)
    requires IsOnName(a) && IsOnName(b) && EventName(a) != EventName(b)
    ensures var w0 := World(map[0 := Element(map[], {})], map[]);
      var w1 := UpdateElement(Init(w0, 0), 0, [(a, Function(f1)), (b, Function(f2))], Plain);
      var w2 := Dispose(w1, 0);
      && w1.nodes[0].listeners == {(EventName(a), f1), (EventName(b), f2)}
      && w2.nodes[0].listeners == {}
      && 0 !in w2.listenerMap
  {
    var w0 := World(map[0 := Element(map[], {})], map[]);
    var params := [(a, Function(f1)), (b, Function(f2))];
    assert Synced(w0);
    var wi := Init(w0, 0);
    InitKeepsSynced(w0, 0);
    var w1 := UpdateElement(wi, 0, params, Plain);
    UpdateElementKeepsSynced(wi, 0, params, Plain);
    DisposeKeepsSynced(w1, 0);
    TwoListenersAttached(a, b, f1, f2);
  }

  /** A parameter value as Knockout supplies it: plain, or an observable holding a
      current value. */
  datatype Raw = Given(v: Value) | Observable(current: Value)

  function Unwrap(raw: Raw): Value {
    match raw
    case Given(v) => v
    case Observable(v) => v
  }

  /** Classification looks at the resolved value: an observable holding a function is
      a listener, an observable holding a datum is a property write. */
  lemma ObservableResolution(a: string, b: string, f: FnRef, d: nat)
    requires IsOnName(a) && !IsOnName(b)
    ensures var s := Update([], [(a, Observable(Function(f))), (b, Observable(Data(d)))], Unwrap);
      && s.registry == SingleRegistry(EventName(a), f)
      && s.effects == [AddListener(EventName(a), f), SetProp(b, Data(d))]
  {
    assert Keys([]) == {};
    UpdateTwo([], (a, Observable(Function(f))), (b, Observable(Data(d))), Unwrap);
  }
}
