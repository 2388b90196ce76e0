/**
 * One-shot activation (`ActivateOnEvent`): on a named event, switch some scene
 * objects on and others off, at most once when `runOnce` is set. Scene objects
 * are referred to by handle; their active flags form a map.
 */
module Activation {
  import opened Wrappers
  import GameData
  import Bus = EventBus

  type ObjectHandle = nat

  /** Active flag of each scene object. */
  type Flags = map<ObjectHandle, bool>

  datatype Activator = Activator(
    eventName: string,
    objectsToActivate: seq<Option<ObjectHandle>>,
    objectsToDeactivate: seq<Option<ObjectHandle>>,
    runOnce: bool,
    hasFired: bool)

  /** The activator, the objects' flags and the bus after one delivery. */
  datatype Fired = Fired(a: Activator, flags: Flags, bus: Bus.Bus)

  /** `OnEnable()`: subscribe `self` under the event name, unless the name is empty. */
  function OnEnable(a: Activator, b: Bus.Bus, self: Bus.Listener): (r: Bus.Bus)
    ensures a.eventName == "" ==> r == b
    ensures a.eventName != "" ==> r == Bus.Subscribe(b, a.eventName, Some(self))
  {
    if a.eventName == "" then b else Bus.Subscribe(b, a.eventName, Some(self))
  }

  /** Set every present entry of `objs` to `active`, skipping null entries. */
  function SetAll(flags: Flags, objs: seq<Option<ObjectHandle>>, active: bool): (r: Flags)
    ensures forall o :: o in r <==> o in flags || Some(o) in objs
    ensures forall o :: Some(o) in objs ==> r[o] == active
    ensures forall o :: o in flags && Some(o) !in objs ==> r[o] == flags[o]
  {
    if |objs| == 0 then flags
    else
      var rest := SetAll(flags, objs[1..], active);
      assert forall x :: x in objs <==> x == objs[0] || x in objs[1..];
      match objs[0]
      case None => rest
      case Some(o) => rest[o := active]
  }

  /**
   * `OnEventReceived`: ignored after the first time when `runOnce` is set;
   * otherwise the activations are applied, then the deactivations, and a
   * run-once activator unsubscribes `self`.
   */
  function OnEventReceived(a: Activator, flags: Flags, b: Bus.Bus, self: Bus.Listener, policy: Bus.RemovalPolicy): (r: Fired)
    ensures a.runOnce && a.hasFired ==> r == Fired(a, flags, b)
    ensures !(a.runOnce && a.hasFired) ==>
      r.a == a.(hasFired := true) &&
      r.flags == SetAll(SetAll(flags, a.objectsToActivate, true), a.objectsToDeactivate, false) &&
      r.bus == (if a.runOnce then Bus.Unsubscribe(b, a.eventName, Some(self), policy) else b)
    ensures !(a.runOnce && a.hasFired) ==>
      forall o :: o in r.flags ==>
        r.flags[o] == (if Some(o) in a.objectsToDeactivate then false
                       else if Some(o) in a.objectsToActivate then true
                       else flags[o])
  {
    if a.runOnce && a.hasFired then Fired(a, flags, b)
    else
      var flags1 := SetAll(SetAll(flags, a.objectsToActivate, true), a.objectsToDeactivate, false);
      var b1 := if a.runOnce then Bus.Unsubscribe(b, a.eventName, Some(self), policy) else b;
      Fired(a.(hasFired := true), flags1, b1)
  }

  /** With `runOnce`, a second event has no effect at all. */
  lemma RunOnceFiresOnce(a: Activator, flags: Flags, b: Bus.Bus, self: Bus.Listener, policy: Bus.RemovalPolicy)
    requires a.runOnce
    ensures var first := OnEventReceived(a, flags, b, self, policy);
      OnEventReceived(first.a, first.flags, first.bus, self, policy) == first
  {
  }

  /** Without `runOnce`, every event applies the actions again, and the result does not depend on earlier firings. */
  lemma RepeatableWithoutRunOnce(a: Activator, flags: Flags, b: Bus.Bus, self: Bus.Listener, policy: Bus.RemovalPolicy)
    requires !a.runOnce
    ensures var first := OnEventReceived(a, flags, b, self, policy);
      OnEventReceived(first.a, first.flags, first.bus, self, policy) == first
  {
    var f2 := SetAll(SetAll(flags, a.objectsToActivate, true), a.objectsToDeactivate, false);
    ActionsSettle(f2, flags, a.objectsToActivate, a.objectsToDeactivate);
  }

  /** Applying the activations and deactivations to their own result changes no flag. */
  lemma ActionsSettle(f2: Flags, flags: Flags, act: seq<Option<ObjectHandle>>, deact: seq<Option<ObjectHandle>>)
    requires f2 == SetAll(SetAll(flags, act, true), deact, false)
    ensures SetAll(SetAll(f2, act, true), deact, false) == f2
  {
    var g1 := SetAll(f2, act, true);
    var g2 := SetAll(g1, deact, false);
    forall o | o in g2 ensures o in f2 && g2[o] == f2[o] {
      if Some(o) !in deact && Some(o) !in act {
        assert g2[o] == g1[o] == f2[o];
      }
    }
    assert g2.Keys == f2.Keys;
  }

  /** A run-once activator subscribed only once no longer hears its event after firing. */
  lemma RunOnceUnsubscribes(a: Activator, flags: Flags, self: Bus.Listener, policy: Bus.RemovalPolicy)
    requires a.runOnce && !a.hasFired && a.eventName != ""
    ensures var b := OnEnable(a, Bus.Empty(), self);
      var first := OnEventReceived(a, flags, b, self, policy);
      Bus.Publish(first.bus, a.eventName, GameData.NoData) == []
  {
    var b := OnEnable(a, Bus.Empty(), self);
    assert b.table[a.eventName] == [self];
    Bus.UnsubscribeKeepsEntry(b, a.eventName, self, policy);
  }
}
