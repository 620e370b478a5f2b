# EventBus: a typed publish/subscribe registry, modelled in Dafny

The model covers the `EventBus` class. The class keeps a map from an event type's
identity to an ordered vector of type-erased handler bindings. `subscribe` appends
one binding (subscriber pointer, member function pointer) under the key of the member
function's parameter type. It creates the vector first when the key has none.
`publish` looks up the key of its template argument, the static type of the pointer it
is given (the object's own type or one of its bases; `Event` has no virtual members,
so no runtime type is involved). When there is no entry it does nothing. Otherwise it
calls every stored binding, in vector order. Each binding casts the event to the type
it was built for.

- `EventBus.dfy` (module `EventBus`). It holds the data model: `Binding`, `Event`,
  `Invocation` and the `Registry` map. It holds the specification functions
  `Registered`, `Calls` and `Dispatch`, and the class `EventBus`, whose field
  `subscribers` is updated in place by `Subscribe`. `Publish` only reads it and returns
  the calls it made, as a trace.
- `Properties.dfy` (module `EventBusProperties`). It holds lemmas over a whole history
  of subscriptions: ordering, fan-out, type isolation and multiplicity. It also ties
  such a history to a registry object driven by a run of `Subscribe` calls.
- `Example.dfy` (module `Example`). It holds the demonstration program: two systems,
  two event types, and the totals it asserts.

The event type key (`std::type_index`) is the type parameter `K`; only its equality
is used. The cast in `MemberFunctionHandler::call` is modelled as the precondition
of `Call`: the binding's expected type must be the type the event is published as. `Publish` discharges
that precondition for every call from the class invariant `Valid()`, which says every
binding is stored under the key it was built for. `Subscribe` preserves the invariant.
So the verifier checks that the cast always targets the type the event was published
as, which is the object's type or one of its bases.

## Model

| member | source | states |
|---|---|---|
| `EventBus.Call` | EventBus.h:56-60 | A binding may be run only on an event of the type it was built for (the downcast's soundness condition). The call goes to the binding's own subscriber and member function, with that very event. |
| `EventBus.Registered` | EventBus.h:96-104 | After a subscription the key set gains the binding's event type and nothing else. That key's sequence is the old one, or empty when absent, with the new binding appended at the end. Every other key's sequence is unchanged. A registry whose bindings all sit under their own type stays so. |
| `EventBus.Calls` | EventBus.h:88-89 | Running a vector of bindings makes exactly one call per binding, in vector order, each to that binding's subscriber and member function with the published event. |
| `EventBus.Dispatch` | EventBus.h:79-90 | Publishing an event whose type has no entry calls nothing. Otherwise it calls the bindings stored under that type: as many calls as bindings, the i-th call to the i-th binding, each with the event. |
| `EventBus.EventBus.constructor` | EventBus.h:66 | A new registry holds no entry, and the typing invariant holds. |
| `EventBus.EventBus.Subscribe` | EventBus.h:93-105 | It keeps the invariant that every binding sits under the type it expects. The new map equals `Registered` of the old one. The key set only gains `eventType`. The sequence for `eventType` is the old one, or empty, plus the one new binding. Every other key's sequence is unchanged. |
| `EventBus.EventBus.Publish` | EventBus.h:76-91 | The calls made are exactly `Dispatch` of the registry and the event. Every downcast is proved to meet `Call`'s precondition. The method has no `modifies` clause, so `subscribers` is the same before and after. |
| `EventBusProperties.RegisterAll` | EventBus.h:93-105 | Any sequence of subscriptions keeps every binding under the key of the type it was built for. |
| `EventBusProperties.RegisterAllSnoc` | EventBus.h:96-104 | Adding one subscription at the end of a history gives the registry of that history after one more `subscribe`, so a history read front to back matches a run of `subscribe` calls. |
| `EventBusProperties.SubscribeAll` | EventBus.h:93-105 | A registry object that runs `Subscribe` on each binding of a sequence, in order, keeps its invariant and ends holding `RegisterAll` of its previous map and that sequence. |
| `EventBusProperties.PublishAfterSubscribing` | EventBus.h:76-105 | On a new registry object, subscribing a sequence of bindings and then publishing an event returns exactly the subscriptions made for the event's type, each once, in subscription order. |
| `EventBusProperties.RegisterAllHandlers` | EventBus.h:99-104 | After subscribing a sequence of bindings, each type's vector is its old vector followed by exactly the new bindings for that type, in subscription order. |
| `EventBusProperties.CallsAppend` | EventBus.h:88-89 | Running two vectors one after the other makes the calls of the first and then those of the second. |
| `EventBusProperties.OccurrencesOfCalls` | EventBus.h:88-89 | Running a vector calls a given (subscriber, member function) pair as many times as the vector holds that binding. |
| `EventBusProperties.PublishRunsSubscriptionsInOrder` | EventBus.h:79-104 | On a registry built from empty by a sequence of subscriptions, publishing an event calls exactly the subscriptions made for its type, each once, in subscription order. Subscriptions for other types play no part. |
| `EventBusProperties.CallCountIsSubscriptionCount` | EventBus.h:85-104 | After any sequence of subscriptions, a publish calls a (subscriber, member function) pair exactly as many times as that pair was subscribed for the event's type. |
| `EventBusProperties.OtherTypesNeverCalled` | EventBus.h:79-89 | A pair subscribed only for other event types is never called when the event is published (type isolation). |
| `EventBusProperties.RepeatedSubscription` | EventBus.h:102-104 | Subscribing the same pair n more times, on any registry, makes a later publish of that type call it n more times. There is no deduplication. |
| `EventBusProperties.SubscribeThenPublish` | EventBus.h:96-104 | A subscription for another type leaves what a publish calls unchanged. A subscription for the event's own type adds exactly its call, at the end. |
| `Example.Apply` | example.cpp:31-65 | One handler call keeps the set of tracked subscribers and changes only the total of the subscriber it was made on. The per-handler arithmetic is in its body, and `Example.Demo`'s postcondition checks its outcome. |
| `Example.Deliver` | example.cpp:86-89 | Applying a publish's calls in order keeps the set of subscribers whose totals are tracked. |
| `Example.Demo` | example.cpp:69-94 | With the four subscriptions, publishing the default EventA and then the default EventB leaves SystemA at foo(A) + bar(A) - foo(B) (130) and SystemB at foo(B) - foo(A) - bar(A) (-130). |

## Left out

- The destructor (EventBus.h:69-74) deletes every binding. That is manual memory release, and Dafny's heap is garbage-collected.
- `std::type_index`, `typeid` and the ordering of keys in `std::map` (EventBus.h:66, 79, 96) are not modelled. The key is an abstract type with equality, and dispatch never depends on key order.
- Member-function pointers, the `HandlerFunctionBase` virtual interface and `static_cast` (EventBus.h:19-37, 43, 59) are C++ machinery. A binding is data that carries its expected key, and the cast's soundness is proved as `Call`'s precondition instead.
- Handlers that throw, and so stop a dispatch part-way, are not modelled. Every handler is assumed to return.
- The lifetime of subscriber objects (a dangling `instance` pointer) and thread safety are not modelled.
- EventBus.EventBus.Publish: handlers' side effects on their subscribers are not performed inside the loop. The method returns the ordered calls it made, and `Example.Deliver` applies them to the subscribers' totals afterwards.
- Re-entrant `subscribe` or `publish` from inside a handler is not modelled; a handler's subscriber may hold the bus and call either during a dispatch. In the source, a re-entrant `subscribe` for the type being dispatched calls `push_back` on the vector the loop at EventBus.h:88 is iterating: `push_back` invalidates the end iterator that loop compares against, so this is undefined behaviour in either case; without a reallocation, common implementations just skip the new binding.
- Example.Apply: `foobar` is an unbounded integer, so C++'s signed overflow (undefined behaviour) in the handlers is not modelled.
- Example.Apply: the C++ typing of handlers is not captured. A member id is untyped, and a payload is not tied to its event's key (`Event(EventA, FieldsB(3))` can be built). So a call can reach a handler with fields of another event type. In C++ neither can happen, since `EventT` is derived from the member function's own signature (EventBus.h:43, 94) and an `EventA*` points at an `EventA`. `Apply` leaves the totals unchanged for such calls, and `Example.Demo` makes none.
- EventBus.EventBus.Subscribe: `eventType` is the caller's statement of the member function's parameter type. The model does not derive it from the member, as EventBus.h:94 does, so a member id can be subscribed under a key its C++ signature would not allow. What is proved is that every call goes to a binding stored under the key it was subscribed with.
- The example program's printing (`std::cout`, `typeName`, example.cpp:7-11, 33, 41, 54, 62) and its final `assert` are not modelled. `Example.Demo`'s postcondition states what that `assert` checks.
