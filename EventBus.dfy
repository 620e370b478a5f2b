/**
 A typed publish/subscribe registry. Handler bindings are stored per event type
 key, in subscription order; publishing an event runs every binding stored under
 the key of the type the event is published as, in that order.

 The event type key (a `std::type_index` in the C++ source) is the type parameter
 `K`: all the model relies on is equality. An event is its type key together
 with its payload. A binding records the subscriber it was made for, the member
 function it calls, and the event type that member function accepts; invoking
 it casts the event to that type, which is sound only when the event was
 published as that type.
 */
module EventBus {

  /** Address of a subscriber object (the `T* instance` a binding holds). */
  type InstanceId = nat

  /** Identity of a member function pointer (`void (T::*)(EventT*)`). */
  type MemberId = nat

  /**
   An event loaned to `publish`: the key of `publish`'s type argument and the
   event's fields. That key comes from the static type of the pointer passed in,
   which is the object's own type or one of its base types; no runtime type is
   consulted.
   */
  datatype Event<K, P> = Event(key: K, payload: P)

  /** A type-erased handler binding (`MemberFunctionHandler<T, EventT>`). */
  datatype Binding<K> = Binding(instance: InstanceId, member: MemberId, expected: K)

  /** One call `(instance->*member)(event)` made during a dispatch. */
  datatype Invocation<K, P> = Invocation(instance: InstanceId, member: MemberId, event: Event<K, P>)

  /** The registry's state: event type key to the bindings stored under it. */
  type Registry<K(==)> = map<K, seq<Binding<K>>>

  /** Every binding is stored under the key of the event type it was built for. */
  ghost predicate WellTyped<K>(reg: Registry<K>)
  {
    forall k, i :: k in reg && 0 <= i < |reg[k]| ==> reg[k][i].expected == k
  }

  /** The bindings stored under `k`; a key with no entry has none. */
  function Handlers<K(==)>(reg: Registry<K>, k: K): (hs: seq<Binding<K>>)
  {
    if k in reg then reg[k] else []
  }

  /**
   Invoking a binding on an event. The binding casts the event to the type it
   was built for, so it may only be reached with an event published as exactly
   that type: that demand is the precondition. The callee then receives that
   very event.
   */
  function Call<K, P>(b: Binding<K>, e: Event<K, P>): (inv: Invocation<K, P>)
    requires b.expected == e.key
    ensures inv.instance == b.instance && inv.member == b.member && inv.event == e
  {
    Invocation(b.instance, b.member, e)
  }

  /** The registry after `subscribe` stored binding `b` (under its own event type). */
  function Registered<K(==)>(reg: Registry<K>, b: Binding<K>): (r: Registry<K>)
    ensures r.Keys == reg.Keys + {b.expected}
    ensures r[b.expected] == Handlers(reg, b.expected) + [b]
    ensures forall k :: k in reg && k != b.expected ==> r[k] == reg[k]
    ensures WellTyped(reg) ==> WellTyped(r)
  {
    reg[b.expected := Handlers(reg, b.expected) + [b]]
  }

  /** Every binding in `hs` accepts events of type `k`. */
  ghost predicate AllExpect<K>(hs: seq<Binding<K>>, k: K)
  {
    forall i :: 0 <= i < |hs| ==> hs[i].expected == k
  }

  /** The calls made by running the bindings `hs`, first to last, on event `e`. */
  function Calls<K, P>(hs: seq<Binding<K>>, e: Event<K, P>): (trace: seq<Invocation<K, P>>)
    requires AllExpect(hs, e.key)
    ensures |trace| == |hs|
    ensures forall i :: 0 <= i < |hs| ==>
      trace[i].instance == hs[i].instance && trace[i].member == hs[i].member && trace[i].event == e
  {
    if |hs| == 0 then [] else Calls(hs[..|hs| - 1], e) + [Call(hs[|hs| - 1], e)]
  }

  /**
   What `publish(e)` invokes: nothing when no entry exists for the event's type,
   otherwise every binding stored under that type, once each, in stored order,
   each with the event itself.
   */
  function Dispatch<K(==), P>(reg: Registry<K>, e: Event<K, P>): (trace: seq<Invocation<K, P>>)
    requires WellTyped(reg)
    ensures e.key !in reg ==> trace == []
    ensures |trace| == |Handlers(reg, e.key)|
    ensures forall i :: 0 <= i < |trace| ==>
      trace[i].instance == reg[e.key][i].instance && trace[i].member == reg[e.key][i].member &&
      trace[i].event == e
  {
    if e.key in reg then Calls(reg[e.key], e) else []
  }

  /** The registry object (`class EventBus`). */
  class EventBus<K(==), P> {
    var subscribers: Registry<K>

    ghost predicate Valid()
      reads this
    {
      WellTyped(subscribers)
    }

    /** A new registry holds no bindings. */
    constructor ()
      ensures Valid() && subscribers == map[]
    {
      subscribers := map[];
    }

    /**
     Store a binding of member function `member` of subscriber `instance` under
     `eventType`, the key the caller gives for that member's parameter type (C++
     derives it from the member's signature; here it is an argument). An entry for
     that key is created when missing, then the binding is appended to it.
     Nothing is deduplicated.
     */
    method Subscribe(instance: InstanceId, member: MemberId, eventType: K)
      requires Valid()
      modifies this
      ensures Valid()
      ensures subscribers == Registered(old(subscribers), Binding(instance, member, eventType))
      ensures subscribers.Keys == old(subscribers).Keys + {eventType}
      ensures subscribers[eventType] == Handlers(old(subscribers), eventType) + [Binding(instance, member, eventType)]
      ensures forall k :: k in old(subscribers) && k != eventType ==> subscribers[k] == old(subscribers)[k]
    {
      if eventType !in subscribers {
        subscribers := subscribers[eventType := []];
      }
      var handler := Binding(instance, member, eventType);
      subscribers := subscribers[eventType := subscribers[eventType] + [handler]];
    }

    /**
     Run every binding stored under the key of the type `e` is published as, in
     stored order, and
     return the calls made. The registry is only read (no `modifies` clause).
     */
    method Publish(e: Event<K, P>) returns (trace: seq<Invocation<K, P>>)
      requires Valid()
      ensures trace == Dispatch(subscribers, e)
    {
      trace := [];
      if e.key in subscribers {
        var handlers := subscribers[e.key];
        for i := 0 to |handlers|
          invariant trace == Calls(handlers[..i], e)
        {
          assert handlers[..i + 1][..i] == handlers[..i];
          trace := trace + [Call(handlers[i], e)];
        }
        assert handlers[..|handlers|] == handlers;
      }
    }
  }
}
