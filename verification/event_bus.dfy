/**
 * The publish/subscribe bus (`EventManager`). Listeners are opaque ids; a
 * publication returns the list of deliveries it makes, in subscription order,
 * and what each listener then does is a separate step of its owner.
 */
module EventBus {
  import opened Wrappers
  import opened GameData
  import opened IdLists

  /** An opaque listener callback. */
  type Listener = nat

  /** Event name to the listeners registered for it, in registration order. */
  datatype Bus = Bus(table: map<string, seq<Listener>>)

  /** One listener invoked with one payload. */
  datatype Delivery = Delivery(listener: Listener, payload: Payload)

  /**
   * How `UnityEvent.RemoveListener` treats a listener registered more than once.
   * The engine does not document it, so the model is parametric in it.
   */
  datatype RemovalPolicy = RemoveFirstOccurrence | RemoveEveryOccurrence

  function Empty(): (b: Bus)
    ensures forall name :: !HasSubscribers(b, name)
  {
    Bus(map[])
  }

  /** How many times `l` is registered under `name`. */
  function Registrations(b: Bus, name: string, l: Listener): nat {
    if name in b.table then multiset(b.table[name])[l] else 0
  }

  /** `Subscribe(name, listener)`: refused for an empty name or a null listener; otherwise appended, duplicates allowed. */
  function Subscribe(b: Bus, name: string, listener: Option<Listener>): (r: Bus)
    ensures name == "" || listener.None? ==> r == b
    ensures name != "" && listener.Some? ==>
      name in r.table && r.table[name] == (if name in b.table then b.table[name] else []) + [listener.value]
    ensures forall n :: n != name ==> (n in r.table <==> n in b.table) && (n in b.table ==> r.table[n] == b.table[n])
  {
    if name == "" || listener.None? then b
    else
      var current := if name in b.table then b.table[name] else [];
      Bus(b.table[name := current + [listener.value]])
  }

  /** Remove `l` from a listener list under the given policy. */
  function RemoveListener(ls: seq<Listener>, l: Listener, policy: RemovalPolicy): (r: seq<Listener>)
    ensures policy == RemoveFirstOccurrence ==> multiset(r) == multiset(ls) - multiset{l}
    ensures policy == RemoveEveryOccurrence ==> l !in r && forall x :: x != l ==> multiset(r)[x] == multiset(ls)[x]
  {
    match policy
    case RemoveFirstOccurrence => RemoveFirst(ls, l)
    case RemoveEveryOccurrence => RemoveAll(ls, l)
  }

  /** Every occurrence of `l` dropped, the rest kept in order. */
  function RemoveAll(ls: seq<Listener>, l: Listener): (r: seq<Listener>)
    ensures l !in r
    ensures forall x :: x != l ==> multiset(r)[x] == multiset(ls)[x]
  {
    if |ls| == 0 then []
    else
      assert ls == [ls[0]] + ls[1..];
      if ls[0] == l then RemoveAll(ls[1..], l) else [ls[0]] + RemoveAll(ls[1..], l)
  }

  /** `Unsubscribe(name, listener)`: a no-op for an empty or unknown name or a null listener; the entry itself is never removed. */
  function Unsubscribe(b: Bus, name: string, listener: Option<Listener>, policy: RemovalPolicy): (r: Bus)
    ensures name == "" || listener.None? || name !in b.table ==> r == b
    ensures forall n :: n in r.table <==> n in b.table
    ensures forall n :: n in b.table && n != name ==> r.table[n] == b.table[n]
    ensures name in b.table && listener.Some? && name != "" ==>
      r.table[name] == RemoveListener(b.table[name], listener.value, policy)
  {
    if name == "" || listener.None? || name !in b.table then b
    else Bus(b.table[name := RemoveListener(b.table[name], listener.value, policy)])
  }

  /** `Publish(name, data)`: every listener registered under the name, once per registration, in order, with that payload. */
  function Publish(b: Bus, name: string, data: Payload): (ds: seq<Delivery>)
    ensures name == "" || name !in b.table ==> ds == []
    ensures name != "" && name in b.table ==>
      |ds| == |b.table[name]| &&
      forall i :: 0 <= i < |ds| ==> ds[i] == Delivery(b.table[name][i], data)
  {
    if name == "" || name !in b.table then [] else Deliver(b.table[name], data)
  }

  function Deliver(ls: seq<Listener>, data: Payload): (ds: seq<Delivery>)
    ensures |ds| == |ls|
    ensures forall i :: 0 <= i < |ds| ==> ds[i] == Delivery(ls[i], data)
  {
    if |ls| == 0 then [] else [Delivery(ls[0], data)] + Deliver(ls[1..], data)
  }

  /** `ClearEvent(name)`: the listeners go, the entry stays. */
  function ClearEvent(b: Bus, name: string): (r: Bus)
    ensures name !in b.table ==> r == b
    ensures name in b.table ==> name in r.table && r.table[name] == []
    ensures forall n :: n in r.table <==> n in b.table
    ensures forall n :: n in b.table && n != name ==> r.table[n] == b.table[n]
  {
    if name in b.table then Bus(b.table[name := []]) else b
  }

  /** `ClearAllEvents()`: no entry survives. */
  function ClearAllEvents(b: Bus): (r: Bus)
    ensures forall name :: !HasSubscribers(r, name)
    ensures forall name, data :: Publish(r, name, data) == []
  {
    Bus(map[])
  }

  /** `HasSubscribers(name)`, as written: whether an entry exists, whatever its listener count. */
  function HasSubscribers(b: Bus, name: string): (r: bool)
    ensures !r ==> forall data :: Publish(b, name, data) == []
  {
    name in b.table
  }

  /** What the method's documentation promises: an entry exists and it has listeners. */
  predicate HasListeners(b: Bus, name: string) {
    name in b.table && |b.table[name]| > 0
  }

  /** A publication reaches a listener exactly as many times as it is registered. */
  lemma {:induction false} DeliveriesCountRegistrations(b: Bus, name: string, l: Listener, data: Payload)
    requires name != ""
    ensures multiset(Publish(b, name, data))[Delivery(l, data)] == Registrations(b, name, l)
  {
    if name in b.table {
      DeliverCount(b.table[name], l, data);
    }
  }

  lemma {:induction false} DeliverCount(ls: seq<Listener>, l: Listener, data: Payload)
    ensures multiset(Deliver(ls, data))[Delivery(l, data)] == multiset(ls)[l]
  {
    if |ls| > 0 {
      var tail := ls[1..];
      DeliverCount(tail, l, data);
      assert Deliver(ls, data) == [Delivery(ls[0], data)] + Deliver(tail, data);
      CountCons(Delivery(ls[0], data), Deliver(tail, data), Delivery(l, data));
      assert ls == [ls[0]] + tail;
      CountCons(ls[0], tail, l);
    }
  }

  /** Subscribing once more makes the next publication reach the listener once more. */
  lemma SubscribeAddsDelivery(b: Bus, name: string, l: Listener, data: Payload)
    requires name != ""
    ensures var r := Subscribe(b, name, Some(l));
      multiset(Publish(r, name, data))[Delivery(l, data)] ==
      multiset(Publish(b, name, data))[Delivery(l, data)] + 1
  {
    DeliveriesCountRegistrations(b, name, l, data);
    DeliveriesCountRegistrations(Subscribe(b, name, Some(l)), name, l, data);
  }

  /** Unsubscribing the only registration of a listener keeps the entry: `HasSubscribers` stays true. */
  lemma UnsubscribeKeepsEntry(b: Bus, name: string, l: Listener, policy: RemovalPolicy)
    requires name != "" && name in b.table && b.table[name] == [l]
    ensures var r := Unsubscribe(b, name, Some(l), policy);
      HasSubscribers(r, name) && Publish(r, name, NoData) == []
  {
    assert [l] == [l] + [];
    assert RemoveAll([], l) == [];
  }

  /**
   * The discrepancy between `HasSubscribers` and its documentation: after
   * subscribing and clearing, it reports subscribers though none remain.
   */
  lemma HasSubscribersAfterClear(name: string, l: Listener)
    requires name != ""
    ensures var b := ClearEvent(Subscribe(Empty(), name, Some(l)), name);
      HasSubscribers(b, name) && !HasListeners(b, name)
  {
  }

  /** `HasListeners` is true exactly when a publication would reach someone. */
  lemma HasListenersIffDelivers(b: Bus, name: string, data: Payload)
    requires name != ""
    ensures HasListeners(b, name) <==> Publish(b, name, data) != []
  {
  }
}
