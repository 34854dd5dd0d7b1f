/** The binding's lifecycle across elements: `init` installs an empty registry in the
    element-to-registry map, `update` reconciles one element, and the dispose callback
    detaches every registered listener and drops the element's registry. */
module Lifecycle {
  import opened Dom
  import opened Registry
  import opened Binding
  import opened BindingProperties

  /** Identity of a DOM node. */
  type NodeId = nat

  /** The elements' observable state and the module-level map from element to
      registry (a `WeakMap` in the source, with explicit deletion here). */
  datatype World = World(nodes: map<NodeId, Element>, listenerMap: map<NodeId, Registry>)

  /** Every registry belongs to a live element, and each element's listeners attached
      through the binding are exactly its registry's pairs, or none without a registry. */
  predicate Synced(w: World) {
    && (forall n :: n in w.listenerMap ==> n in w.nodes)
    && (forall n :: n in w.nodes ==>
          w.nodes[n].listeners == (if n in w.listenerMap then Pairs(w.listenerMap[n]) else {}))
  }

  /** `bindingHandler.init`: the element gets an empty registry. Registering the
      dispose callback is the caller's part (see `Dispose`). */
  function Init(w: World, n: NodeId): (r: World)
    ensures n in r.listenerMap && r.listenerMap[n] == []
    ensures r.nodes == w.nodes
    ensures forall m :: m != n ==> (m in r.listenerMap <==> m in w.listenerMap)
    ensures forall m :: m != n && m in w.listenerMap ==> r.listenerMap[m] == w.listenerMap[m]
  {
    w.(listenerMap := w.listenerMap[n := []])
  }

  /** `bindingHandler.update` for element `n`, whose registry must exist (the source
      dereferences it unguarded). */
  function UpdateElement<R>(w: World, n: NodeId, params: seq<(string, R)>, resolve: R -> Value): (r: World)
    requires n in w.listenerMap && n in w.nodes
    requires DistinctNames(params)
    ensures r.listenerMap.Keys == w.listenerMap.Keys && r.nodes.Keys == w.nodes.Keys
    ensures forall m :: m != n && m in w.listenerMap ==> r.listenerMap[m] == w.listenerMap[m]
    ensures forall m :: m != n && m in w.nodes ==> r.nodes[m] == w.nodes[m]
    ensures var s := Update(w.listenerMap[n], params, resolve);
      r.listenerMap[n] == s.registry && r.nodes[n] == ApplyAll(w.nodes[n], s.effects)
  {
    var s := Update(w.listenerMap[n], params, resolve);
    World(w.nodes[n := ApplyAll(w.nodes[n], s.effects)], w.listenerMap[n := s.registry])
  }

  /** The dispose callback registered by `init` for element `n`: detach every
      registered listener, then delete the registry association. Without a registry it
      only performs the (no-op) delete. */
  function Dispose(w: World, n: NodeId): (r: World)
    requires n in w.nodes
    ensures n !in r.listenerMap
    ensures r.listenerMap == w.listenerMap - {n}
    ensures n !in w.listenerMap ==> r == w
    ensures n in w.listenerMap ==> r.nodes == w.nodes[n := ApplyAll(w.nodes[n], Removals(w.listenerMap[n]))]
  {
    if n in w.listenerMap then
      var s := Teardown(w.listenerMap[n]);
      World(w.nodes[n := ApplyAll(w.nodes[n], s.effects)], w.listenerMap - {n})
    else
      assert w.listenerMap - {n} == w.listenerMap;
      World(w.nodes, w.listenerMap - {n})
  }

  /** A fresh `init` keeps the world in step. */
  lemma InitKeepsSynced(w: World, n: NodeId)
    requires Synced(w)
    requires n in w.nodes && n !in w.listenerMap
    ensures Synced(Init(w, n))
  {
  }

  /** `init` on an element whose registry holds a listener replaces the registry by an
      empty one, so that listener stays attached with no entry left to remove it by. */
  lemma ReinitOrphansListeners(w: World, n: NodeId)
    requires Synced(w)
    requires n in w.listenerMap && w.listenerMap[n] != []
    ensures !Synced(Init(w, n))
  {
    var reg := w.listenerMap[n];
    assert (reg[0].event, reg[0].listener) in w.nodes[n].listeners;
  }

  lemma UpdateElementKeepsSynced<R>(w: World, n: NodeId, params: seq<(string, R)>, resolve: R -> Value)
    requires Synced(w)
    requires n in w.listenerMap && DistinctNames(params)
    ensures Synced(UpdateElement(w, n, params, resolve))
  {
    UpdateKeepsSync(w.nodes[n], w.listenerMap[n], params, resolve);
  }

  /** Dispose leaves no listener attached through the binding and no registry. */
  lemma DisposeKeepsSynced(w: World, n: NodeId)
    requires Synced(w) && n in w.nodes
    ensures Synced(Dispose(w, n))
    ensures Dispose(w, n).nodes[n].listeners == {}
  {
    if n in w.listenerMap {
      TeardownDetachesAll(w.nodes[n], w.listenerMap[n]);
    }
  }

  /** Disposing twice is disposing once: the second call finds no registry. */
  lemma DisposeTwice(w: World, n: NodeId)
    requires n in w.nodes
    ensures Dispose(Dispose(w, n), n) == Dispose(w, n)
  {
  }
}
