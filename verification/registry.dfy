/** The per-element listener registry: a JavaScript object mapping a normalised event
    name to the listener currently attached for it. It is modelled as the object's own
    entries in insertion order, which is the order `Object.keys` reports them in. */
module Registry {
  import opened Wrappers
  import opened Dom

  datatype Entry = Entry(event: string, listener: FnRef)

  /** The event names of a list of entries, in order (`Object.keys`). */
  function OwnKeys(entries: seq<Entry>): (ks: seq<string>)
    ensures |ks| == |entries|
    decreases |entries|
  {
    if |entries| == 0 then [] else [entries[0].event] + OwnKeys(entries[1..])
  }

  function Keys(entries: seq<Entry>): set<string>
    decreases |entries|
  {
    if |entries| == 0 then {} else {entries[0].event} + Keys(entries[1..])
  }

  /** An object has at most one own property of each name. */
  predicate Distinct(entries: seq<Entry>)
    decreases |entries|
  {
    |entries| == 0 || (entries[0].event !in Keys(entries[1..]) && Distinct(entries[1..]))
  }

  type Registry = r: seq<Entry> | Distinct(r) witness []

  /** `listeners[key]`, with `None` for an absent key. */
  function Get(entries: seq<Entry>, key: string): (r: Option<FnRef>)
    ensures r.Some? <==> key in Keys(entries)
    ensures r.Some? ==> Entry(key, r.value) in entries
    decreases |entries|
  {
    if |entries| == 0 then None
    else if entries[0].event == key then Some(entries[0].listener)
    else Get(entries[1..], key)
  }

  /** The (event, listener) pairs a registry records. */
  function Pairs(entries: seq<Entry>): set<(string, FnRef)>
    decreases |entries|
  {
    if |entries| == 0 then {}
    else {(entries[0].event, entries[0].listener)} + Pairs(entries[1..])
  }

  /** An entry of a registry is what a lookup of its key finds. */
  lemma {:induction false} EntryIsFound(reg: Registry, e: Entry)
    requires e in reg
    ensures Get(reg, e.event) == Some(e.listener)
    decreases |reg|
  {
    if reg[0] != e {
      assert e in reg[1..];
      EntryIsFound(reg[1..], e);
      KeysContainEvents(reg[1..], e);
    }
  }

  lemma {:induction false} KeysContainEvents(entries: seq<Entry>, e: Entry)
    requires e in entries
    ensures e.event in Keys(entries)
    decreases |entries|
  {
    if entries[0] != e {
      assert e in entries[1..];
      KeysContainEvents(entries[1..], e);
    }
  }

  /** The recorded pairs are exactly the graph of the lookup, so a registry records at
      most one listener per event name. */
  lemma {:induction false} PairsAreLookupGraph(reg: Registry)
    ensures forall p :: p in Pairs(reg) <==> Get(reg, p.0) == Some(p.1)
    decreases |reg|
  {
    if |reg| > 0 {
      PairsAreLookupGraph(reg[1..]);
      forall p | p in Pairs(reg[1..])
        ensures p.0 != reg[0].event
      {
        assert Get(reg[1..], p.0).Some?;
      }
    }
  }

  /** At most one listener per event name. */
  lemma AtMostOnePerEvent(reg: Registry, p: (string, FnRef), q: (string, FnRef))
    requires p in Pairs(reg) && q in Pairs(reg) && p.0 == q.0
    ensures p == q
  {
    PairsAreLookupGraph(reg);
  }

  /** How each view of a registry decomposes on its first entry. */
  lemma ConsViews(e: Entry, tail: seq<Entry>)
    ensures ([e] + tail)[1..] == tail
    ensures Keys([e] + tail) == {e.event} + Keys(tail)
    ensures OwnKeys([e] + tail) == [e.event] + OwnKeys(tail)
    ensures Distinct([e] + tail) <==> e.event !in Keys(tail) && Distinct(tail)
    ensures forall k :: Get([e] + tail, k) == if e.event == k then Some(e.listener) else Get(tail, k)
  {
    assert ([e] + tail)[1..] == tail;
  }

  /** `listeners[key] = listener`: an existing key keeps its position, a new key is
      appended, as JavaScript orders an object's own string keys. */
  function Put(reg: Registry, key: string, listener: FnRef): (r: Registry)
    ensures Keys(r) == Keys(reg) + {key}
    ensures forall k :: Get(r, k) == if k == key then Some(listener) else Get(reg, k)
    ensures OwnKeys(r) == if key in Keys(reg) then OwnKeys(reg) else OwnKeys(reg) + [key]
    decreases |reg|
  {
    if |reg| == 0 then
      ConsViews(Entry(key, listener), []);
      [Entry(key, listener)]
    else if reg[0].event == key then
      PutAtHead(reg, listener);
      [Entry(key, listener)] + reg[1..]
    else
      var tail := Put(reg[1..], key, listener);
      PutBehindHead(reg, key, listener, tail);
      [reg[0]] + tail
  }

  lemma PutAtHead(reg: Registry, listener: FnRef)
    requires |reg| > 0
    ensures var r := [Entry(reg[0].event, listener)] + reg[1..];
      && Distinct(r)
      && Keys(r) == Keys(reg)
      && Get(r, reg[0].event) == Some(listener)
      && (forall k :: k != reg[0].event ==> Get(r, k) == Get(reg, k))
      && OwnKeys(r) == OwnKeys(reg)
  {
    assert reg == [reg[0]] + reg[1..];
    ConsViews(reg[0], reg[1..]);
    ConsViews(Entry(reg[0].event, listener), reg[1..]);
  }

  lemma PutBehindHead(reg: Registry, key: string, listener: FnRef, tail: Registry)
    requires |reg| > 0 && reg[0].event != key
    requires Keys(tail) == Keys(reg[1..]) + {key}
    requires Get(tail, key) == Some(listener)
    requires forall k :: k != key ==> Get(tail, k) == Get(reg[1..], k)
    requires key in Keys(reg[1..]) ==> OwnKeys(tail) == OwnKeys(reg[1..])
    requires key !in Keys(reg[1..]) ==> OwnKeys(tail) == OwnKeys(reg[1..]) + [key]
    ensures var r := [reg[0]] + tail;
      && Distinct(r)
      && Keys(r) == Keys(reg) + {key}
      && Get(r, key) == Some(listener)
      && (forall k :: k != key ==> Get(r, k) == Get(reg, k))
      && (key in Keys(reg) ==> OwnKeys(r) == OwnKeys(reg))
      && (key !in Keys(reg) ==> OwnKeys(r) == OwnKeys(reg) + [key])
  {
    var head, rest := reg[0], reg[1..];
    assert reg == [head] + rest;
    ConsViews(head, rest);
    ConsViews(head, tail);
    OwnKeysBehindHead(reg, key, tail);
  }

  lemma OwnKeysBehindHead(reg: Registry, key: string, tail: Registry)
    requires |reg| > 0 && reg[0].event != key
    requires key in Keys(reg[1..]) ==> OwnKeys(tail) == OwnKeys(reg[1..])
    requires key !in Keys(reg[1..]) ==> OwnKeys(tail) == OwnKeys(reg[1..]) + [key]
    ensures key in Keys(reg) ==> OwnKeys([reg[0]] + tail) == OwnKeys(reg)
    ensures key !in Keys(reg) ==> OwnKeys([reg[0]] + tail) == OwnKeys(reg) + [key]
  {
    var head, rest := reg[0], reg[1..];
    assert reg == [head] + rest;
    ConsViews(head, rest);
    ConsViews(head, tail);
    assert OwnKeys(reg) + [key] == [head.event] + (OwnKeys(rest) + [key]);
  }

  /** `delete listeners[key]`; deleting an absent key changes nothing. */
  function Delete(reg: Registry, key: string): (r: Registry)
    ensures Keys(r) == Keys(reg) - {key}
    ensures Get(r, key) == None
    ensures forall k :: k != key ==> Get(r, k) == Get(reg, k)
    ensures key !in Keys(reg) ==> r == reg
    decreases |reg|
  {
    if |reg| == 0 then []
    else
      var head, rest := reg[0], reg[1..];
      assert reg == [head] + rest;
      ConsViews(head, rest);
      if head.event == key then rest
      else
        var tail := Delete(rest, key);
        ConsViews(head, tail);
        [head] + tail
  }

  lemma EmptyKeys(entries: seq<Entry>)
    requires Keys(entries) == {}
    ensures entries == []
  {
  }
}
