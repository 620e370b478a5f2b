/**
 Properties of the registry over a whole history of subscriptions: the order in
 which bindings run, which of them a publish reaches, and how many times a
 subscriber's member function is called.
 */
module EventBusProperties {
  import opened EventBus

  /** The registry after subscribing the bindings `bs`, first to last. */
  function RegisterAll<K(==)>(reg: Registry<K>, bs: seq<Binding<K>>): (r: Registry<K>)
    ensures WellTyped(reg) ==> WellTyped(r)
    decreases |bs|
  {
    if bs == [] then reg else RegisterAll(Registered(reg, bs[0]), bs[1..])
  }

  /** The bindings of `bs` built for event type `k`, in their order in `bs`. */
  function OfType<K(==)>(bs: seq<Binding<K>>, k: K): (hs: seq<Binding<K>>)
    ensures AllExpect(hs, k)
  {
    if bs == [] then [] else (if bs[0].expected == k then [bs[0]] else []) + OfType(bs[1..], k)
  }

  /** How many calls in `trace` went to member `member` of subscriber `instance`. */
  function Occurrences<K, P>(trace: seq<Invocation<K, P>>, instance: InstanceId, member: MemberId): nat
  {
    if trace == [] then 0
    else (if trace[0].instance == instance && trace[0].member == member then 1 else 0)
         + Occurrences(trace[1..], instance, member)
  }

  /**
   One more subscription at the end of a history is one more `subscribe` call on
   the registry that history built.
   */
  lemma {:induction false} RegisterAllSnoc<K>(reg: Registry<K>, bs: seq<Binding<K>>, b: Binding<K>)
    ensures RegisterAll(reg, bs + [b]) == Registered(RegisterAll(reg, bs), b)
    decreases |bs|
  {
    if bs == [] {
      assert (bs + [b])[1..] == [];
    } else {
      assert (bs + [b])[1..] == bs[1..] + [b];
      RegisterAllSnoc(Registered(reg, bs[0]), bs[1..], b);
    }
  }

  /**
   Subscribing `bs` appends to the entry of every event type exactly the bindings
   of `bs` built for that type, in subscription order; the bindings already
   stored keep their places in front.
   */
  lemma {:induction false} RegisterAllHandlers<K>(reg: Registry<K>, bs: seq<Binding<K>>, k: K)
    ensures Handlers(RegisterAll(reg, bs), k) == Handlers(reg, k) + OfType(bs, k)
    decreases |bs|
  {
    if bs != [] {
      var reg' := Registered(reg, bs[0]);
      RegisterAllHandlers(reg', bs[1..], k);
      if bs[0].expected == k {
        assert Handlers(reg', k) == Handlers(reg, k) + [bs[0]];
      } else {
        assert Handlers(reg', k) == Handlers(reg, k);
      }
    }
  }

  /** Running the bindings of `a` then those of `b` makes the calls of each, in turn. */
  lemma CallsAppend<K, P>(a: seq<Binding<K>>, b: seq<Binding<K>>, e: Event<K, P>)
    requires AllExpect(a, e.key) && AllExpect(b, e.key)
    ensures AllExpect(a + b, e.key)
    ensures Calls(a + b, e) == Calls(a, e) + Calls(b, e)
  {
  }

  /** Counting calls is additive over concatenated traces. */
  lemma {:induction false} OccurrencesAppend<K, P>(s: seq<Invocation<K, P>>, t: seq<Invocation<K, P>>,
                                                   instance: InstanceId, member: MemberId)
    ensures Occurrences(s + t, instance, member) == Occurrences(s, instance, member) + Occurrences(t, instance, member)
    decreases |s|
  {
    if s != [] {
      assert (s + t)[1..] == s[1..] + t;
      OccurrencesAppend(s[1..], t, instance, member);
    } else {
      assert s + t == t;
    }
  }

  /**
   The calls made by running `hs` include member `member` of subscriber
   `instance` once for every binding of `hs` that names that pair.
   */
  lemma {:induction false} OccurrencesOfCalls<K, P>(hs: seq<Binding<K>>, e: Event<K, P>,
                                                    instance: InstanceId, member: MemberId)
    requires AllExpect(hs, e.key)
    ensures Occurrences(Calls(hs, e), instance, member) == multiset(hs)[Binding(instance, member, e.key)]
    decreases |hs|
  {
    if hs != [] {
      var init, last := hs[..|hs| - 1], hs[|hs| - 1];
      assert hs == init + [last];
      OccurrencesOfCalls(init, e, instance, member);
      OccurrencesAppend(Calls(init, e), [Call(last, e)], instance, member);
      assert Occurrences([Call(last, e)], instance, member)
          == if last == Binding(instance, member, e.key) then 1 else 0;
    }
  }

  /** `OfType` keeps every binding built for `k` as often as `bs` holds it. */
  lemma {:induction false} OfTypeCount<K>(bs: seq<Binding<K>>, k: K, b: Binding<K>)
    requires b.expected == k
    ensures multiset(OfType(bs, k))[b] == multiset(bs)[b]
    decreases |bs|
  {
    if bs != [] {
      assert bs == [bs[0]] + bs[1..];
      OfTypeCount(bs[1..], k, b);
    }
  }

  /**
   Ordering and fan-out: on a registry built from nothing by the subscriptions
   `bs`, publishing `e` calls exactly the bindings of `bs` made for `e`'s type,
   each once, in the order they were subscribed.
   */
  lemma PublishRunsSubscriptionsInOrder<K, P>(bs: seq<Binding<K>>, e: Event<K, P>)
    ensures WellTyped(RegisterAll(map[], bs))
    ensures Dispatch(RegisterAll(map[], bs), e) == Calls(OfType(bs, e.key), e)
  {
    var reg := RegisterAll(map[], bs);
    RegisterAllHandlers(map[], bs, e.key);
    assert Handlers(reg, e.key) == OfType(bs, e.key);
  }

  /**
   Multiplicity: after the subscriptions `bs`, publishing `e` calls member
   `member` of subscriber `instance` exactly as many times as `bs` subscribed
   that pair for `e`'s type. No subscription is merged with another.
   */
  lemma CallCountIsSubscriptionCount<K, P>(bs: seq<Binding<K>>, e: Event<K, P>,
                                               instance: InstanceId, member: MemberId)
    ensures WellTyped(RegisterAll(map[], bs))
    ensures Occurrences(Dispatch(RegisterAll(map[], bs), e), instance, member)
         == multiset(bs)[Binding(instance, member, e.key)]
  {
    PublishRunsSubscriptionsInOrder(bs, e);
    OccurrencesOfCalls(OfType(bs, e.key), e, instance, member);
    OfTypeCount(bs, e.key, Binding(instance, member, e.key));
  }

  /**
   Type isolation: a member function that was subscribed only for other event
   types is never called when `e` is published.
   */
  lemma OtherTypesNeverCalled<K, P>(bs: seq<Binding<K>>, e: Event<K, P>,
                                        instance: InstanceId, member: MemberId)
    requires forall i :: 0 <= i < |bs| && bs[i].instance == instance && bs[i].member == member ==>
      bs[i].expected != e.key
    ensures WellTyped(RegisterAll(map[], bs))
    ensures Occurrences(Dispatch(RegisterAll(map[], bs), e), instance, member) == 0
  {
    CallCountIsSubscriptionCount(bs, e, instance, member);
    assert Binding(instance, member, e.key) !in bs;
  }

  /**
   Subscribing the same pair `n` more times on any registry makes a later
   publish of that type call it `n` more times.
   */
  lemma {:induction false} RepeatedSubscription<K, P>(reg: Registry<K>, b: Binding<K>, n: nat, e: Event<K, P>)
    requires WellTyped(reg) && b.expected == e.key
    ensures WellTyped(RegisterAll(reg, seq(n, _ => b)))
    ensures Occurrences(Dispatch(RegisterAll(reg, seq(n, _ => b)), e), b.instance, b.member)
         == Occurrences(Dispatch(reg, e), b.instance, b.member) + n
    decreases n
  {
    if n > 0 {
      var reg' := Registered(reg, b);
      var rest := seq(n - 1, _ => b);
      assert seq(n, _ => b) == [b] + rest;
      assert seq(n, _ => b)[1..] == rest;
      RepeatedSubscription(reg', b, n - 1, e);
      var old_hs := Handlers(reg, e.key);
      assert Handlers(reg', e.key) == old_hs + [b];
      CallsAppend(old_hs, [b], e);
      assert Dispatch(reg', e) == Dispatch(reg, e) + [Call(b, e)];
      OccurrencesAppend(Dispatch(reg, e), [Call(b, e)], b.instance, b.member);
    }
  }

  /**
   A subscription for another event type leaves what a publish of `e` calls
   unchanged, and a subscription for `e`'s type only adds its call at the end.
   */
  lemma SubscribeThenPublish<K, P>(reg: Registry<K>, b: Binding<K>, e: Event<K, P>)
    requires WellTyped(reg)
    ensures b.expected != e.key ==> Dispatch(Registered(reg, b), e) == Dispatch(reg, e)
    ensures b.expected == e.key ==> Dispatch(Registered(reg, b), e) == Dispatch(reg, e) + [Call(b, e)]
  {
  }

  /**
   A registry object that goes through the subscriptions `bs`, first to last,
   holds `RegisterAll` of what it held before.
   */
  method SubscribeAll<K(==), P>(bus: EventBus<K, P>, bs: seq<Binding<K>>)
    requires bus.Valid()
    modifies bus
    ensures bus.Valid()
    ensures bus.subscribers == RegisterAll(old(bus.subscribers), bs)
  {
    for i := 0 to |bs|
      invariant bus.Valid()
      invariant bus.subscribers == RegisterAll(old(bus.subscribers), bs[..i])
    {
      assert bs[..i + 1] == bs[..i] + [bs[i]];
      RegisterAllSnoc(old(bus.subscribers), bs[..i], bs[i]);
      bus.Subscribe(bs[i].instance, bs[i].member, bs[i].expected);
    }
    assert bs[..|bs|] == bs;
  }

  /**
   A new registry object, given the subscriptions `bs` and then published `e`,
   calls exactly the subscriptions of `bs` made for `e`'s type, in order.
   */
  method PublishAfterSubscribing<K(==), P>(bs: seq<Binding<K>>, e: Event<K, P>)
    returns (trace: seq<Invocation<K, P>>)
    ensures trace == Calls(OfType(bs, e.key), e)
  {
    var bus := new EventBus<K, P>();
    SubscribeAll(bus, bs);
    trace := bus.Publish(e);
    PublishRunsSubscriptionsInOrder(bs, e);
  }
}
