/**
 The demonstration program: two systems each subscribe a handler for two event
 types, one event of each type is published, and each system's running total
 `foobar` ends up reflecting both events.

 A handler's effect on its subscriber is an update of that subscriber's total;
 the calls a publish makes are applied, in order, to the totals of all systems.
 */
module Example {
  import opened EventBus

  /** The two concrete event types of the program. */
  datatype EventType = EventA | EventB

  /** The fields of each event type (`EventA{foo, bar}`, `EventB{foo}`). */
  datatype Fields = FieldsA(foo: int, bar: int) | FieldsB(foo: int)

  /** The two subscriber objects, by address. */
  const SystemA: InstanceId := 0
  const SystemB: InstanceId := 1

  /** The member functions `handleEventA` and `handleEventB` of either system. */
  const HandleEventA: MemberId := 0
  const HandleEventB: MemberId := 1

  /** Each subscriber's `foobar`. */
  type Totals = map<InstanceId, int>

  /** A default-initialised event of each type. */
  const DefaultEventA: Event<EventType, Fields> := Event(EventA, FieldsA(111, 22))
  const DefaultEventB: Event<EventType, Fields> := Event(EventB, FieldsB(3))

  /**
   What one call does to the totals: SystemA adds `foo + bar` of an EventA and
   subtracts `foo` of an EventB; SystemB does the opposite. Member ids carry no
   parameter type here, so the remaining combinations (a handler given the fields
   of another event type, which C++ typing excludes) leave the totals alone.
   */
  function Apply(totals: Totals, inv: Invocation<EventType, Fields>): (r: Totals)
    ensures r.Keys == totals.Keys
    ensures forall s :: s in totals && s != inv.instance ==> r[s] == totals[s]
  {
    var e := inv.event.payload;
    if inv.instance !in totals then totals
    else if inv.instance == SystemA && inv.member == HandleEventA && e.FieldsA? then
      totals[SystemA := totals[SystemA] + e.foo + e.bar]
    else if inv.instance == SystemA && inv.member == HandleEventB && e.FieldsB? then
      totals[SystemA := totals[SystemA] - e.foo]
    else if inv.instance == SystemB && inv.member == HandleEventA && e.FieldsA? then
      totals[SystemB := totals[SystemB] - e.foo - e.bar]
    else if inv.instance == SystemB && inv.member == HandleEventB && e.FieldsB? then
      totals[SystemB := totals[SystemB] + e.foo]
    else totals
  }

  /** The totals after the calls of `trace`, first to last. */
  function Deliver(totals: Totals, trace: seq<Invocation<EventType, Fields>>): (r: Totals)
    ensures r.Keys == totals.Keys
    decreases |trace|
  {
    if trace == [] then totals else Deliver(Apply(totals, trace[0]), trace[1..])
  }

  /** Two calls in a row apply one after the other. */
  lemma DeliverPair(totals: Totals, first: Invocation<EventType, Fields>, second: Invocation<EventType, Fields>)
    ensures Deliver(totals, [first, second]) == Apply(Apply(totals, first), second)
  {
    var once := Apply(totals, first);
    assert [first, second][1..] == [second];
    assert Deliver(totals, [first, second]) == Deliver(once, [second]);
    assert [second][1..] == [];
    assert Deliver(once, [second]) == Deliver(Apply(once, second), []);
  }

  /**
   The program: subscribe both handlers of SystemA, then both of SystemB,
   publish an EventA and then an EventB, and return both systems' totals.
   */
  method Demo() returns (foobarA: int, foobarB: int)
    ensures foobarA == DefaultEventA.payload.foo + DefaultEventA.payload.bar - DefaultEventB.payload.foo
    ensures foobarB == DefaultEventB.payload.foo - DefaultEventA.payload.foo - DefaultEventA.payload.bar
  {
    var bus := new EventBus<EventType, Fields>();
    bus.Subscribe(SystemA, HandleEventA, EventA);
    bus.Subscribe(SystemA, HandleEventB, EventB);
    bus.Subscribe(SystemB, HandleEventA, EventA);
    bus.Subscribe(SystemB, HandleEventB, EventB);

    assert bus.subscribers[EventA] == [Binding(SystemA, HandleEventA, EventA), Binding(SystemB, HandleEventA, EventA)];
    assert bus.subscribers[EventB] == [Binding(SystemA, HandleEventB, EventB), Binding(SystemB, HandleEventB, EventB)];

    var totals: Totals := map[SystemA := 0, SystemB := 0];
    var trace := bus.Publish(DefaultEventA);
    assert trace == [Invocation(SystemA, HandleEventA, DefaultEventA), Invocation(SystemB, HandleEventA, DefaultEventA)];
    DeliverPair(totals, trace[0], trace[1]);
    totals := Deliver(totals, trace);
    assert totals == map[SystemA := 133, SystemB := -133];
    trace := bus.Publish(DefaultEventB);
    assert trace == [Invocation(SystemA, HandleEventB, DefaultEventB), Invocation(SystemB, HandleEventB, DefaultEventB)];
    DeliverPair(totals, trace[0], trace[1]);
    totals := Deliver(totals, trace);

    foobarA, foobarB := totals[SystemA], totals[SystemB];
  }
}
