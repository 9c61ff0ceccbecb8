/**
 * A C# `event Action<M>`: an ordered invocation list of handlers and what they have been
 * handed. Handlers are identified by number; every delivery is recorded, in order, in
 * `deliveries`, which stands for the observations of all subscribed handlers.
 */
module Events {
  import opened Counting

  type HandlerId = nat

  datatype Delivery<M> = Delivery(handler: HandlerId, message: M)

  /** What one invocation hands out: `m` to each handler of `handlers`, in list order. */
  function Fanout<M>(handlers: seq<HandlerId>, m: M): (r: seq<Delivery<M>>)
    ensures |r| == |handlers|
    ensures forall i :: 0 <= i < |r| ==> r[i] == Delivery(handlers[i], m)
  {
    if handlers == [] then [] else [Delivery(handlers[0], m)] + Fanout(handlers[1..], m)
  }

  /** The messages handler `h` has been handed, in delivery order. */
  function Received<M>(log: seq<Delivery<M>>, h: HandlerId): (r: seq<M>)
    ensures |r| <= |log|
    ensures forall i :: 0 <= i < |r| ==> Delivery(h, r[i]) in log
    ensures (forall d :: d in log ==> d.handler != h) ==> r == []
  {
    if log == [] then []
    else
      var rest := Received(log[1..], h);
      assert forall i :: 0 <= i < |rest| ==> Delivery(h, rest[i]) in log by {
        forall i | 0 <= i < |rest| ensures Delivery(h, rest[i]) in log {
          assert Delivery(h, rest[i]) in log[1..];
        }
      }
      (if log[0].handler == h then [log[0].message] else []) + rest
  }

  /** The position of the last occurrence of `h`. */
  function LastIndex(handlers: seq<HandlerId>, h: HandlerId): (k: nat)
    requires h in handlers
    ensures k < |handlers| && handlers[k] == h
    ensures h !in handlers[k + 1..]
  {
    if handlers[|handlers| - 1] == h then |handlers| - 1
    else
      var front := handlers[..|handlers| - 1];
      assert handlers == front + [handlers[|handlers| - 1]];
      var k := LastIndex(front, h);
      assert handlers[k + 1..] == front[k + 1..] + [handlers[|handlers| - 1]];
      k
  }

  /**
   * The invocation list after `-= h`: the last occurrence of `h` is removed and the other
   * handlers keep their order; a list without `h` is left as it is.
   */
  function RemoveLast(handlers: seq<HandlerId>, h: HandlerId): (r: seq<HandlerId>)
    ensures h !in handlers ==> r == handlers
    ensures h in handlers ==>
      exists k :: 0 <= k < |handlers| && handlers[k] == h && h !in handlers[k + 1..] &&
                  r == handlers[..k] + handlers[k + 1..]
    ensures Count(r, h) == if h in handlers then Count(handlers, h) - 1 else 0
  {
    CountIsMultiplicity(handlers, h);
    if h !in handlers then
      assert multiset(handlers)[h] == 0;
      handlers
    else
      var k := LastIndex(handlers, h);
      assert handlers == handlers[..k] + [h] + handlers[k + 1..];
      assert multiset(handlers) == multiset(handlers[..k] + handlers[k + 1..]) + multiset{h};
      CountIsMultiplicity(handlers[..k] + handlers[k + 1..], h);
      handlers[..k] + handlers[k + 1..]
  }

  /** `-=` on concrete lists: the last occurrence goes, the others keep their order. */
  lemma RemoveLastExamples()
    ensures RemoveLast([1, 2], 1) == [2]
    ensures RemoveLast([1, 2, 1], 1) == [1, 2]
    ensures RemoveLast([1, 2], 3) == [1, 2]
  {
    var a: seq<HandlerId> := [1, 2];
    assert LastIndex(a, 1) == 0 by { assert a[..1] == [1]; }
    var b: seq<HandlerId> := [1, 2, 1];
    assert LastIndex(b, 1) == 2;
  }

  lemma {:induction false} ReceivedAppend<M>(a: seq<Delivery<M>>, b: seq<Delivery<M>>, h: HandlerId)
    ensures Received(a + b, h) == Received(a, h) + Received(b, h)
  {
    if a != [] {
      assert (a + b)[1..] == a[1..] + b;
      ReceivedAppend(a[1..], b, h);
    } else {
      assert a + b == b;
    }
  }

  /** One invocation hands `h` exactly one copy of `m` per subscription of `h`, and nothing else. */
  lemma {:induction false} ReceivedFanout<M>(handlers: seq<HandlerId>, m: M, h: HandlerId)
    ensures Received(Fanout(handlers, m), h) == seq(Count(handlers, h), _ => m)
  {
    if handlers != [] {
      var r := Fanout(handlers, m);
      assert r[1..] == Fanout(handlers[1..], m);
      ReceivedFanout(handlers[1..], m, h);
    }
  }

  /**
   * What an invocation adds to any one handler's observations: a handler subscribed once
   * gets exactly one more message, and it is `m`; an unsubscribed one gets nothing.
   */
  lemma InvokeDeliversToEach<M>(log: seq<Delivery<M>>, handlers: seq<HandlerId>, m: M, h: HandlerId)
    ensures Received(log + Fanout(handlers, m), h)
         == Received(log, h) + seq(Count(handlers, h), _ => m)
  {
    ReceivedAppend(log, Fanout(handlers, m), h);
    ReceivedFanout(handlers, m, h);
  }

  class Event<M> {
    /** The invocation list, in subscription order. */
    var handlers: seq<HandlerId>
    /** Every message handed to a handler so far, in order. */
    var deliveries: seq<Delivery<M>>

    /** An event field starts out with no subscribers (`null` in C#). */
    constructor()
      ensures handlers == [] && deliveries == []
    {
      handlers := [];
      deliveries := [];
    }

    /** `event += h` */
    method Subscribe(h: HandlerId)
      modifies this
      ensures handlers == old(handlers) + [h]
      ensures deliveries == old(deliveries)
    {
      handlers := handlers + [h];
    }

    /** `event -= h` */
    method Unsubscribe(h: HandlerId)
      modifies this
      ensures handlers == RemoveLast(old(handlers), h)
      ensures deliveries == old(deliveries)
    {
      handlers := RemoveLast(handlers, h);
    }

    /** `event?.Invoke(m)`: each handler, in list order, is handed `m` once. */
    method Invoke(m: M)
      modifies this
      ensures handlers == old(handlers)
      ensures deliveries == old(deliveries) + Fanout(old(handlers), m)
    {
      var i := 0;
      while i < |handlers|
        invariant 0 <= i <= |handlers|
        invariant handlers == old(handlers)
        invariant deliveries == old(deliveries) + Fanout(handlers[..i], m)
      {
        assert Fanout(handlers[..i + 1], m) == Fanout(handlers[..i], m) + [Delivery(handlers[i], m)];
        deliveries := deliveries + [Delivery(handlers[i], m)];
        i := i + 1;
      }
      assert handlers[..i] == handlers;
    }
  }
}
