/** The element side of the binding: the values a web component's properties can
    hold, the three DOM calls the binding makes, and what those calls do to the
    element. */
module Dom {

  /** Identity of a JavaScript function object. Listeners are compared by reference
      (`!==`), which is equality of these identities. */
  type FnRef = nat

  /** A parameter value after it has been resolved to plain JavaScript. Only what the
      binding inspects is kept: whether `typeof` reports "function" and, if so, which
      function object it is. Every other value is an opaque datum. */
  datatype Value = Function(ref: FnRef) | Data(id: nat)

  /** One call the binding makes on the element. */
  datatype Effect =
    | SetProp(name: string, value: Value)            // element[name] = value
    | AddListener(event: string, listener: FnRef)     // element.addEventListener(event, listener)
    | RemoveListener(event: string, listener: FnRef)  // element.removeEventListener(event, listener)

  predicate IsListenerCall(eff: Effect) {
    eff.AddListener? || eff.RemoveListener?
  }

  /** A trace that calls neither `addEventListener` nor `removeEventListener`. */
  predicate NoListenerCall(effs: seq<Effect>) {
    forall i :: 0 <= i < |effs| ==> !IsListenerCall(effs[i])
  }

  /** The observable state of a web component as far as the binding is concerned:
      its own properties, and the (event, listener) pairs attached through the binding. */
  datatype Element = Element(props: map<string, Value>, listeners: set<(string, FnRef)>)

  /** The DOM keeps at most one registration of an identical (event, listener) pair,
      so the listener registrations form a set. */
  function Apply(e: Element, eff: Effect): Element {
    match eff
    case SetProp(name, value) => e.(props := e.props[name := value])
    case AddListener(event, listener) => e.(listeners := e.listeners + {(event, listener)})
    case RemoveListener(event, listener) => e.(listeners := e.listeners - {(event, listener)})
  }

  /** The calls of a trace, performed in order. */
  function ApplyAll(e: Element, effs: seq<Effect>): Element
    decreases |effs|
  {
    if |effs| == 0 then e else ApplyAll(Apply(e, effs[0]), effs[1..])
  }

  /** Performing two traces one after the other is performing their concatenation. */
  lemma {:induction false} ApplyAllAppend(e: Element, a: seq<Effect>, b: seq<Effect>)
    ensures ApplyAll(e, a + b) == ApplyAll(ApplyAll(e, a), b)
    decreases |a|
  {
    if |a| == 0 {
      assert a + b == b;
    } else {
      assert (a + b)[1..] == a[1..] + b;
      ApplyAllAppend(Apply(e, a[0]), a[1..], b);
    }
  }

  /** A trace without listener calls leaves the listener registrations alone. */
  lemma {:induction false} PropertyWritesKeepListeners(e: Element, effs: seq<Effect>)
    requires NoListenerCall(effs)
    ensures ApplyAll(e, effs).listeners == e.listeners
    decreases |effs|
  {
    if |effs| > 0 {
      PropertyWritesKeepListeners(Apply(e, effs[0]), effs[1..]);
    }
  }
}
