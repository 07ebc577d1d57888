/**
The objects behind the events: promises resolved in place, the dictionary of tails, and subscriptions
that move along the chain.  Each method is proved against the step functions of `Events`.
*/
module ContextEvents {
  import opened Events

  datatype Resolution = Unresolved | Resolved(payload: Payload, next: Promise) | Failed | Cancelled

  class Promise {
    ghost const index: nat
    var result: Resolution

    constructor (ghost index: nat)
      ensures this.index == index && result == Unresolved
    {
      this.index := index;
      result := Unresolved;
    }
  }

  /** Making the next future before the tail is resolved comes to the same. */
  lemma SendInTwo(bus: Bus, payload: Payload)
    requires payload.kind in bus.threads && bus.threads[payload.kind] < |bus.futures| && !Rejects(bus, payload.kind)
    ensures SendTo(bus, payload) ==
            Bus((bus.futures + [Pending])[bus.threads[payload.kind] := Done(payload, |bus.futures|)],
                bus.threads[payload.kind := |bus.futures|])
  {
    var f := bus.threads[payload.kind];
    assert (bus.futures + [Pending])[f := Done(payload, |bus.futures|)] ==
           bus.futures[f := Done(payload, |bus.futures|)] + [Pending];
  }

  lemma AbandonKeepsBus(bus: Bus, f: nat)
    requires InvBus(bus) && f < |bus.futures|
    ensures InvBus(Abandon(bus, f))
  {
  }

  class EventBus {
    var threads: map<Kind, Promise>
    /** The promises in the order of their creation, and the abstract state they represent. */
    ghost var created: seq<Promise>
    ghost var bus: Bus

    ghost predicate Represents(f: nat)
      requires f < |created| == |bus.futures|
      reads this, created
    {
      && created[f].index == f
      && match created[f].result
         case Unresolved => bus.futures[f] == Pending
         case Failed => bus.futures[f] == Stopped
         case Cancelled => bus.futures[f] == Abandoned
         case Resolved(payload, next) =>
           && next.index < |created| && created[next.index] == next
           && bus.futures[f] == Done(payload, next.index)
    }

    ghost predicate Owns(promise: Promise)
      reads this
    {
      promise.index < |created| && created[promise.index] == promise
    }

    ghost predicate Valid()
      reads this, created
    {
      && InvBus(bus)
      && |created| == |bus.futures|
      && (forall f | 0 <= f < |created| :: Represents(f))
      && threads.Keys == bus.threads.Keys
      && (forall k <- threads :: Owns(threads[k]) && threads[k].index == bus.threads[k])
    }

    constructor ()
      ensures Valid() && bus == Bus([], map[])
    {
      threads, created, bus := map[], [], Bus([], map[]);
    }

    /** A future is created that no thread knows yet. */
    method AddPromise() returns (next: Promise)
      requires Valid()
      modifies this`created, this`bus
      ensures Valid() && fresh(next) && created == old(created) + [next] && next.index == |old(created)|
      ensures bus == Bus(old(bus).futures + [Pending], old(bus).threads)
    {
      next := new Promise(|created|);
      created := created + [next];
      bus := Bus(bus.futures + [Pending], bus.threads);
      forall f | 0 <= f < |created| ensures Represents(f) {
        assert f < |old(created)| ==> old(Represents(f));
      }
    }

    /** The tail of a thread is resolved and replaced by a new one. */
    method Advance(payload: Payload, next: Promise)
      requires Valid() && payload.kind in threads && threads[payload.kind].result.Unresolved?
      requires Owns(next) && next.index == |created| - 1 && bus.futures[next.index] == Pending
      requires threads[payload.kind].index < next.index && next.index !in bus.threads.Values
      modifies this`threads, this`bus, threads[payload.kind]
      ensures Valid() && created == old(created)
      ensures bus == Bus(old(bus).futures[old(bus).threads[payload.kind] := Done(payload, next.index)],
                         old(bus).threads[payload.kind := next.index])
    {
      var current := threads[payload.kind];
      assert Represents(current.index);
      assert forall f | 0 <= f < |created| :: Represents(f) && (f != current.index ==> created[f] != current);
      threads := threads[payload.kind := next];
      current.result := Resolved(payload, next);
      bus := Bus(bus.futures[current.index := Done(payload, next.index)], bus.threads[payload.kind := next.index]);
    }

    /** `_send`; it fails when the tail was cancelled. */
    method Send(payload: Payload) returns (failed: bool)
      requires Valid()
      modifies this, created
      ensures Valid() && bus == SendTo(old(bus), payload)
      ensures failed <==> Rejects(old(bus), payload.kind)
      ensures old(created) <= created && fresh(created[|old(created)|..])
    {
      if payload.kind !in threads {
        return false;
      }
      assert Represents(threads[payload.kind].index);
      if !threads[payload.kind].result.Unresolved? {
        return true;  // the assertion in the code
      }
      ghost var before := bus;
      var next := AddPromise();
      Advance(payload, next);
      SendInTwo(before, payload);
      return false;
    }

    /** A task that awaits the promise is cancelled. */
    method CancelAwait(awaited: Promise)
      requires Valid() && Owns(awaited)
      modifies this`bus, awaited
      ensures Valid() && bus == Abandon(old(bus), awaited.index) && created == old(created)
    {
      assert Represents(awaited.index);
      assert forall f | 0 <= f < |created| :: Represents(f) && (f != awaited.index ==> created[f] != awaited);
      if awaited.result.Unresolved? {
        awaited.result := Cancelled;
      }
      AbandonKeepsBus(bus, awaited.index);
      bus := Abandon(bus, awaited.index);
      forall f | 0 <= f < |created| ensures Represents(f) {
        assert old(Represents(f));
      }
    }

    /** `_subscribe`. */
    method Subscribe(kind: Kind) returns (subscription: Subscriber)
      requires Valid()
      modifies this
      ensures Valid() && fresh(subscription) && Owns(subscription.future)
      ensures (bus, subscription.future.index) == SubscribeTo(old(bus), kind)
      ensures old(created) <= created && fresh(created[|old(created)|..])
    {
      if kind !in threads {
        var current := AddPromise();
        SetTail(kind, current);
      }
      label Registered:
      subscription := new Subscriber(threads[kind]);
      forall f | 0 <= f < |created| ensures Represents(f) {
        assert old@Registered(Represents(f));
      }
    }

    /** The first future of a type. */
    method SetTail(kind: Kind, current: Promise)
      requires Valid() && kind !in threads && Owns(current)
      requires bus.futures[current.index] == Pending && current.index !in bus.threads.Values
      modifies this`threads, this`bus
      ensures Valid() && bus == Bus(old(bus).futures, old(bus).threads[kind := current.index])
      ensures threads == old(threads)[kind := current]
    {
      assert forall f | 0 <= f < |created| :: Represents(f);
      threads := threads[kind := current];
      bus := Bus(bus.futures, bus.threads[kind := current.index]);
      forall f | 0 <= f < |created| ensures Represents(f) {
        assert old(Represents(f));
      }
    }

    /** The loop of `_close`. */
    method StopTails()
      requires Valid()
      modifies created
      ensures forall f | 0 <= f < |created| ::
                created[f].result ==
                if created[f] in threads.Values && old(created[f].result).Unresolved? then Failed
                else old(created[f].result)
    {
      var rest := threads.Values;
      while rest != {}
        invariant rest <= threads.Values
        invariant forall f | 0 <= f < |created| ::
                    created[f].result ==
                    if created[f] in threads.Values - rest && old(created[f].result).Unresolved? then Failed
                    else old(created[f].result)
        decreases rest
      {
        var future :| future in rest;
        rest := rest - {future};
        assert exists k :: k in threads && threads[k] == future;
        assert old(Represents(future.index));
        if future.result.Unresolved? {
          future.result := Failed;
        }
      }
    }

    /** `_close`. */
    method Close()
      requires Valid()
      modifies this, created
      ensures Valid() && bus == CloseAll(old(bus)) && created == old(created)
    {
      StopTails();
      forall f | 0 <= f < |created|
        ensures created[f] in threads.Values <==> f in bus.threads.Values
      {
        assert old(Represents(f));
        if created[f] in threads.Values {
          var k :| k in threads && threads[k] == created[f];
          assert bus.threads[k] == f;
        }
      }
      threads := map[];
      bus := CloseAll(bus);
      forall f | 0 <= f < |created| ensures Represents(f) {
        assert old(Represents(f));
      }
    }
  }

  class Subscriber {
    var future: Promise

    constructor (future: Promise)
      ensures this.future == future
    {
      this.future := future;
    }

    /** `__anext__` up to its suspension; the promise it awaits is what it is resumed with. */
    method Next(ghost events: EventBus) returns (outcome: Outcome, awaited: Promise)
      requires events.Valid() && events.Owns(future)
      modifies this
      ensures awaited == old(future) && events.Owns(future)
      ensures (outcome, future.index) == Await(events.bus, old(future.index))
    {
      awaited := future;
      outcome := Resume(events, future);
    }

    /** The rest of it, once the awaited promise is done; meanwhile another reader may have moved on. */
    method Resume(ghost events: EventBus, awaited: Promise) returns (outcome: Outcome)
      requires events.Valid() && events.Owns(future) && events.Owns(awaited)
      modifies this
      ensures events.Owns(future)
      ensures outcome == Await(events.bus, awaited.index).0
      ensures future.index == if outcome.Receives? then Await(events.bus, awaited.index).1 else old(future.index)
    {
      assert events.Represents(awaited.index);
      match awaited.result
      case Unresolved => outcome := Waits;
      case Failed => outcome := Stops;
      case Cancelled => outcome := Interrupts;
      case Resolved(payload, next) =>
        future := next;
        outcome := Receives(payload);
    }
  }
}
