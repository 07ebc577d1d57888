/**
Context events: a linked chain of futures per payload type.  The bus only remembers the tail of each
chain; a subscription remembers a future somewhere on the chain and follows it at its own pace.
*/
module Events {
  import opened Wrappers

  type Kind = nat

  /** An event payload together with its concrete type. */
  datatype Payload = Payload(kind: Kind, content: int)

  /** A future of the event loop: unresolved, resolved with an event that carries the next future,
      failed with `StopAsyncIteration`, or cancelled together with a task that awaited it. */
  datatype Future = Pending | Done(payload: Payload, next: nat) | Stopped | Abandoned

  /** All futures ever created (a future is named by its position), and the tail of each open chain. */
  datatype Bus = Bus(futures: seq<Future>, threads: map<Kind, nat>)

  /** A subscription with what its readers have got, and the futures that its reads in flight are waiting
      for.  Several tasks may read from one subscription. */
  datatype Subscription = Subscription(kind: Kind, future: nat, received: seq<Payload>, waiting: seq<nat>)

  datatype World = World(bus: Bus, subscriptions: seq<Subscription>)

  datatype Action =
    | Send(payload: Payload)
    | Subscribe(kind: Kind)
    | Read(subscription: nat)
    | Resume(subscription: nat, read: nat)
    | Cancel(subscription: nat, read: nat)
    | Close

  /** What awaiting a subscription's future gives at this moment. */
  datatype Outcome = Waits | Receives(payload: Payload) | Stops | Interrupts

  const START := World(Bus([], map[]), [])

  // ----- The code -------------------------------------------------------------------------------

  /** The assertion in `_send` fails: the tail that it is about to resolve was cancelled. */
  predicate Rejects(bus: Bus, kind: Kind)
    requires kind in bus.threads ==> bus.threads[kind] < |bus.futures|
  {
    kind in bus.threads && bus.futures[bus.threads[kind]].Abandoned?
  }

  /** `ContextEvents._send`. */
  function SendTo(bus: Bus, payload: Payload): Bus
    requires payload.kind in bus.threads ==> bus.threads[payload.kind] < |bus.futures|
  {
    if payload.kind !in bus.threads || Rejects(bus, payload.kind) then bus
    else
      var current, next := bus.threads[payload.kind], |bus.futures|;
      Bus(bus.futures[current := Done(payload, next)] + [Pending], bus.threads[payload.kind := next])
  }

  /** `ContextEvents._subscribe`: the future that the new subscription starts with. */
  function SubscribeTo(bus: Bus, kind: Kind): (Bus, nat) {
    if kind in bus.threads then (bus, bus.threads[kind])
    else (Bus(bus.futures + [Pending], bus.threads[kind := |bus.futures|]), |bus.futures|)
  }

  /** `ContextEvents._close`: unfinished tails fail, finished ones would be left alone. */
  function CloseAll(bus: Bus): Bus {
    Bus(seq(|bus.futures|, i requires 0 <= i < |bus.futures| =>
              if i in bus.threads.Values && bus.futures[i].Pending? then Stopped else bus.futures[i]),
        map[])
  }

  /** What awaiting a future gives, and the future that a subscription continues with. */
  function Await(bus: Bus, future: nat): (Outcome, nat)
    requires future < |bus.futures|
  {
    match bus.futures[future]
    case Pending => (Waits, future)
    case Done(payload, next) => (Receives(payload), next)
    case Stopped => (Stops, future)
    case Abandoned => (Interrupts, future)
  }

  /** The rest of `__anext__`, once the awaited future is done: it moves the subscription to what follows
      that future, wherever the subscription is by then. */
  function Take(bus: Bus, s: Subscription, awaited: nat): Subscription
    requires awaited < |bus.futures|
  {
    match bus.futures[awaited]
    case Done(payload, next) => s.(future := next, received := s.received + [payload])
    case _ => s
  }

  /** `__anext__` up to its suspension: a done future is not waited for. */
  function StartRead(bus: Bus, s: Subscription): Subscription
    requires s.future < |bus.futures|
  {
    if bus.futures[s.future].Pending? then s.(waiting := s.waiting + [s.future]) else Take(bus, s, s.future)
  }

  /** A read in flight whose future is done is resumed by the loop. */
  function ResumeRead(bus: Bus, s: Subscription, read: nat): Subscription
    requires read < |s.waiting| && s.waiting[read] < |bus.futures|
  {
    if bus.futures[s.waiting[read]].Pending? then s
    else Take(bus, s, s.waiting[read]).(waiting := s.waiting[..read] + s.waiting[read + 1..])
  }

  /** Cancelling a task cancels the future it awaits, unless that is done. */
  function Abandon(bus: Bus, future: nat): Bus
    requires future < |bus.futures|
  {
    if bus.futures[future].Pending? then bus.(futures := bus.futures[future := Abandoned]) else bus
  }

  /** A read in flight is cancelled. */
  function CancelRead(w: World, i: nat, read: nat): World
    requires i < |w.subscriptions| && read < |w.subscriptions[i].waiting|
    requires w.subscriptions[i].waiting[read] < |w.bus.futures|
  {
    var s := w.subscriptions[i];
    World(Abandon(w.bus, s.waiting[read]),
          w.subscriptions[i := s.(waiting := s.waiting[..read] + s.waiting[read + 1..])])
  }

  /** One atomic step of the event loop. */
  ghost function Step(w: World, a: Action): World
    requires Inv(w)
  {
    match a
    case Send(payload) => w.(bus := SendTo(w.bus, payload))
    case Subscribe(kind) =>
      var (bus, future) := SubscribeTo(w.bus, kind);
      World(bus, w.subscriptions + [Subscription(kind, future, [], [])])
    case Close => w.(bus := CloseAll(w.bus))
    case Read(i) =>
      if i < |w.subscriptions| then
        assert InvSubscription(w.bus, w.subscriptions[i]);
        w.(subscriptions := w.subscriptions[i := StartRead(w.bus, w.subscriptions[i])])
      else w
    case Resume(i, read) =>
      if i < |w.subscriptions| && read < |w.subscriptions[i].waiting| then
        assert InvSubscription(w.bus, w.subscriptions[i]);
        w.(subscriptions := w.subscriptions[i := ResumeRead(w.bus, w.subscriptions[i], read)])
      else w
    case Cancel(i, read) =>
      if i < |w.subscriptions| && read < |w.subscriptions[i].waiting| then
        assert InvSubscription(w.bus, w.subscriptions[i]);
        CancelRead(w, i, read)
      else w
  }

  // ----- Chains ---------------------------------------------------------------------------------

  ghost predicate Linked(futures: seq<Future>) {
    forall f | 0 <= f < |futures| :: futures[f].Done? ==> f < futures[f].next < |futures|
  }

  /** The payloads reachable from a future, in order. */
  ghost function Chain(futures: seq<Future>, f: nat): seq<Payload>
    requires Linked(futures) && f < |futures|
    decreases |futures| - f
  {
    if futures[f].Done? then [futures[f].payload] + Chain(futures, futures[f].next) else []
  }

  /** The future in which the chain from `f` ends. */
  ghost function Tail(futures: seq<Future>, f: nat): (t: nat)
    requires Linked(futures) && f < |futures|
    ensures t < |futures| && !futures[t].Done?
    decreases |futures| - f
  {
    if futures[f].Done? then Tail(futures, futures[f].next) else f
  }

  ghost predicate InvBus(bus: Bus) {
    && Linked(bus.futures)
    // a tail is never done when a send resolves it, and chains do not share tails
    && (forall k <- bus.threads ::
          && bus.threads[k] < |bus.futures|
          && (bus.futures[bus.threads[k]].Pending? || bus.futures[bus.threads[k]].Abandoned?))
    && (forall k, l | k in bus.threads && l in bus.threads && k != l :: bus.threads[k] != bus.threads[l])
  }

  /** The chain from a future ends in the tail of the type. */
  ghost predicate AtTail(bus: Bus, kind: Kind, f: nat)
    requires InvBus(bus) && f < |bus.futures|
  {
    kind in bus.threads && Tail(bus.futures, f) == bus.threads[kind]
  }

  /** It does so, or the bus was closed on it. */
  ghost predicate InvFuture(bus: Bus, kind: Kind, f: nat)
    requires InvBus(bus)
  {
    && f < |bus.futures|
    && (AtTail(bus, kind, f) || !bus.futures[Tail(bus.futures, f)].Pending?)
  }

  /** That is where a subscription and all its reads in flight are. */
  ghost predicate InvSubscription(bus: Bus, s: Subscription)
    requires InvBus(bus)
  {
    InvFuture(bus, s.kind, s.future) && forall r | 0 <= r < |s.waiting| :: InvFuture(bus, s.kind, s.waiting[r])
  }

  ghost predicate Inv(w: World) {
    InvBus(w.bus) && forall i | 0 <= i < |w.subscriptions| :: InvSubscription(w.bus, w.subscriptions[i])
  }

  /** The chain of a subscription is extended by a send exactly when it ends in the resolved tail. */
  lemma {:induction false} ChainAfterSend(bus: Bus, payload: Payload, f: nat)
    requires InvBus(bus) && payload.kind in bus.threads && !Rejects(bus, payload.kind) && f < |bus.futures|
    ensures var futures := SendTo(bus, payload).futures;
            && Linked(futures)
            && (if Tail(bus.futures, f) == bus.threads[payload.kind]
                then Chain(futures, f) == Chain(bus.futures, f) + [payload] && Tail(futures, f) == |bus.futures|
                else Chain(futures, f) == Chain(bus.futures, f) && Tail(futures, f) == Tail(bus.futures, f))
    decreases |bus.futures| - f
  {
    var futures := SendTo(bus, payload).futures;
    if bus.futures[f].Done? {
      ChainAfterSend(bus, payload, bus.futures[f].next);
      assert futures[f] == bus.futures[f];
    } else if f == bus.threads[payload.kind] {
      assert Chain(futures, |bus.futures|) == [];
      assert futures[f] == Done(payload, |bus.futures|);
    }
  }

  lemma {:induction false} ChainAfterSubscribe(bus: Bus, kind: Kind, f: nat)
    requires InvBus(bus) && f < |bus.futures|
    ensures var futures := SubscribeTo(bus, kind).0.futures;
            && Linked(futures)
            && Chain(futures, f) == Chain(bus.futures, f) && Tail(futures, f) == Tail(bus.futures, f)
    decreases |bus.futures| - f
  {
    if bus.futures[f].Done? {
      ChainAfterSubscribe(bus, kind, bus.futures[f].next);
    }
  }

  lemma {:induction false} ChainAfterAbandon(bus: Bus, g: nat, f: nat)
    requires InvBus(bus) && g < |bus.futures| && f < |bus.futures|
    ensures var futures := Abandon(bus, g).futures;
            && Linked(futures)
            && Chain(futures, f) == Chain(bus.futures, f) && Tail(futures, f) == Tail(bus.futures, f)
    decreases |bus.futures| - f
  {
    if bus.futures[f].Done? {
      ChainAfterAbandon(bus, g, bus.futures[f].next);
    }
  }

  lemma {:induction false} ChainAfterClose(bus: Bus, f: nat)
    requires InvBus(bus) && f < |bus.futures|
    ensures var futures := CloseAll(bus).futures;
            && Linked(futures)
            && Chain(futures, f) == Chain(bus.futures, f) && Tail(futures, f) == Tail(bus.futures, f)
    decreases |bus.futures| - f
  {
    if bus.futures[f].Done? {
      ChainAfterClose(bus, bus.futures[f].next);
    }
  }

  // ----- Single steps ---------------------------------------------------------------------------

  /** A send resolves the tail of its thread, which becomes a new future, and touches nothing else. */
  lemma SendEffect(bus: Bus, payload: Payload)
    requires InvBus(bus) && payload.kind in bus.threads && !Rejects(bus, payload.kind)
    ensures var u := SendTo(bus, payload);
            && InvBus(u) && |u.futures| == |bus.futures| + 1
            && u.threads == bus.threads[payload.kind := |bus.futures|]
            && u.futures[bus.threads[payload.kind]] == Done(payload, |bus.futures|)
            && u.futures[|bus.futures|] == Pending
            && forall f | 0 <= f < |bus.futures| && f != bus.threads[payload.kind] :: u.futures[f] == bus.futures[f]
  {
  }

  lemma SendKeepsFuture(bus: Bus, payload: Payload, kind: Kind, f: nat)
    requires InvBus(bus) && payload.kind in bus.threads && !Rejects(bus, payload.kind) && InvFuture(bus, kind, f)
    ensures InvBus(SendTo(bus, payload)) && InvFuture(SendTo(bus, payload), kind, f)
  {
    SendEffect(bus, payload);
    ChainAfterSend(bus, payload, f);
  }

  lemma SendKeepsInv(w: World, payload: Payload)
    requires Inv(w)
    ensures Inv(Step(w, Send(payload)))
  {
    if payload.kind in w.bus.threads && !Rejects(w.bus, payload.kind) {
      SendEffect(w.bus, payload);
      forall i | 0 <= i < |w.subscriptions| ensures InvSubscription(SendTo(w.bus, payload), w.subscriptions[i]) {
        var s := w.subscriptions[i];
        assert InvSubscription(w.bus, s);
        SendKeepsFuture(w.bus, payload, s.kind, s.future);
        forall r | 0 <= r < |s.waiting| ensures InvFuture(SendTo(w.bus, payload), s.kind, s.waiting[r]) {
          SendKeepsFuture(w.bus, payload, s.kind, s.waiting[r]);
        }
      }
    }
  }

  lemma SubscribeKeepsBus(bus: Bus, kind: Kind)
    requires InvBus(bus)
    ensures InvBus(SubscribeTo(bus, kind).0) && InvFuture(SubscribeTo(bus, kind).0, kind, SubscribeTo(bus, kind).1)
    ensures Chain(SubscribeTo(bus, kind).0.futures, SubscribeTo(bus, kind).1) == []
  {
  }

  lemma SubscribeKeepsFuture(bus: Bus, kind: Kind, other: Kind, f: nat)
    requires InvBus(bus) && InvFuture(bus, other, f)
    ensures InvBus(SubscribeTo(bus, kind).0) && InvFuture(SubscribeTo(bus, kind).0, other, f)
  {
    SubscribeKeepsBus(bus, kind);
    ChainAfterSubscribe(bus, kind, f);
  }

  lemma SubscribeKeepsInv(w: World, kind: Kind)
    requires Inv(w)
    ensures Inv(Step(w, Subscribe(kind)))
  {
    SubscribeKeepsBus(w.bus, kind);
    forall i | 0 <= i < |w.subscriptions| ensures InvSubscription(SubscribeTo(w.bus, kind).0, w.subscriptions[i]) {
      var s := w.subscriptions[i];
      assert InvSubscription(w.bus, s);
      SubscribeKeepsFuture(w.bus, kind, s.kind, s.future);
      forall r | 0 <= r < |s.waiting| ensures InvFuture(SubscribeTo(w.bus, kind).0, s.kind, s.waiting[r]) {
        SubscribeKeepsFuture(w.bus, kind, s.kind, s.waiting[r]);
      }
    }
  }

  /** Closing ends every chain. */
  lemma CloseStops(bus: Bus, kind: Kind, f: nat)
    requires InvBus(bus) && InvFuture(bus, kind, f)
    ensures InvBus(CloseAll(bus)) && InvFuture(CloseAll(bus), kind, f)
    ensures !AtTail(CloseAll(bus), kind, f)
  {
    ChainAfterClose(bus, f);
  }

  lemma CloseKeepsInv(w: World)
    requires Inv(w)
    ensures Inv(Step(w, Close))
  {
    forall i | 0 <= i < |w.subscriptions| ensures InvSubscription(CloseAll(w.bus), w.subscriptions[i]) {
      var s := w.subscriptions[i];
      assert InvSubscription(w.bus, s);
      CloseStops(w.bus, s.kind, s.future);
      forall r | 0 <= r < |s.waiting| ensures InvFuture(CloseAll(w.bus), s.kind, s.waiting[r]) {
        CloseStops(w.bus, s.kind, s.waiting[r]);
      }
    }
  }

  lemma TakeKeepsInv(bus: Bus, s: Subscription, awaited: nat)
    requires InvBus(bus) && InvSubscription(bus, s) && InvFuture(bus, s.kind, awaited)
    ensures InvSubscription(bus, Take(bus, s, awaited))
  {
  }

  lemma ReadKeepsInv(w: World, a: Action)
    requires Inv(w) && (a.Read? || a.Resume?)
    ensures Inv(Step(w, a))
  {
    var i := a.subscription;
    if i < |w.subscriptions| {
      var s := w.subscriptions[i];
      assert InvSubscription(w.bus, s);
      TakeKeepsInv(w.bus, s, s.future);
      if a.Resume? && a.read < |s.waiting| {
        TakeKeepsInv(w.bus, s, s.waiting[a.read]);
      }
    }
  }

  lemma AbandonKeepsFuture(bus: Bus, g: nat, kind: Kind, f: nat)
    requires InvBus(bus) && g < |bus.futures| && InvFuture(bus, kind, f)
    ensures InvBus(Abandon(bus, g)) && InvFuture(Abandon(bus, g), kind, f)
    ensures AtTail(Abandon(bus, g), kind, f) <==> AtTail(bus, kind, f)
  {
    ChainAfterAbandon(bus, g, f);
  }

  lemma CancelKeepsInv(w: World, i: nat, read: nat)
    requires Inv(w)
    ensures Inv(Step(w, Cancel(i, read)))
  {
    if i < |w.subscriptions| && read < |w.subscriptions[i].waiting| {
      assert InvSubscription(w.bus, w.subscriptions[i]);
      var g, u := w.subscriptions[i].waiting[read], Step(w, Cancel(i, read));
      AbandonKeepsFuture(w.bus, g, w.subscriptions[i].kind, w.subscriptions[i].future);
      forall j | 0 <= j < |u.subscriptions| ensures InvSubscription(u.bus, u.subscriptions[j]) {
        var s := w.subscriptions[j];
        assert InvSubscription(w.bus, s);
        AbandonKeepsFuture(w.bus, g, s.kind, s.future);
        forall r | 0 <= r < |s.waiting| ensures InvFuture(u.bus, s.kind, s.waiting[r]) {
          AbandonKeepsFuture(w.bus, g, s.kind, s.waiting[r]);
        }
      }
    }
  }

  lemma StepKeepsInv(w: World, a: Action)
    requires Inv(w)
    ensures Inv(Step(w, a))
  {
    match a
    case Send(payload) => SendKeepsInv(w, payload);
    case Subscribe(kind) => SubscribeKeepsInv(w, kind);
    case Close => CloseKeepsInv(w);
    case Read(_) => ReadKeepsInv(w, a);
    case Resume(_, _) => ReadKeepsInv(w, a);
    case Cancel(i, read) => CancelKeepsInv(w, i, read);
  }

  // ----- Runs -----------------------------------------------------------------------------------

  /** The state after any interleaving of sends, subscriptions, reads and closes. */
  ghost function After(actions: seq<Action>): (w: World)
    ensures Inv(w)
  {
    if actions == [] then START
    else
      var before, last := After(actions[..|actions| - 1]), actions[|actions| - 1];
      StepKeepsInv(before, last);
      Step(before, last)
  }

  /** The positions in a run at which the subscriptions were made. */
  ghost function Starts(actions: seq<Action>): seq<nat> {
    if actions == [] then []
    else
      var n := |actions| - 1;
      Starts(actions[..n]) + (if actions[n].Subscribe? then [n] else [])
  }

  /** What a subscriber is owed by the actions after its subscription: every event of its type, in
      order, until the bus is closed. */
  ghost function Owed(kind: Kind, actions: seq<Action>): seq<Payload> {
    if actions == [] then []
    else
      var n := |actions| - 1;
      var before := Owed(kind, actions[..n]);
      if Close !in actions[..n] && actions[n].Send? && actions[n].payload.kind == kind
      then before + [actions[n].payload]
      else before
  }

  /** The account of one subscription, `since` being what happened after it was made: what was received,
      followed by what can be reached from it, is what it is owed. */
  ghost predicate Accounted(w: World, i: nat, since: seq<Action>)
    requires Inv(w) && i < |w.subscriptions|
  {
    var s := w.subscriptions[i];
    assert InvSubscription(w.bus, s);
    && s.received + Chain(w.bus.futures, s.future) == Owed(s.kind, since)
    && (AtTail(w.bus, s.kind, s.future) <==> Close !in since)
  }

  /** The second future can be reached from the first. */
  ghost predicate Behind(futures: seq<Future>, f: nat, g: nat)
    requires Linked(futures) && f < |futures|
    decreases |futures| - f
  {
    f == g || (futures[f].Done? && Behind(futures, futures[f].next, g))
  }

  /** No read in flight awaits a future that the subscription has not come to yet. */
  ghost predicate NoneAhead(w: World, i: nat)
    requires Inv(w) && i < |w.subscriptions|
  {
    var s := w.subscriptions[i];
    assert InvSubscription(w.bus, s);
    forall r | 0 <= r < |s.waiting| :: Behind(w.bus.futures, s.waiting[r], s.future)
  }

  /** The step resumes a read whose future the subscription has left behind. */
  ghost predicate Stale(w: World, a: Action, i: nat)
    requires Inv(w) && i < |w.subscriptions|
  {
    var s := w.subscriptions[i];
    assert InvSubscription(w.bus, s);
    && a.Resume? && a.subscription == i && a.read < |s.waiting|
    && w.bus.futures[s.waiting[a.read]].Done? && s.waiting[a.read] != s.future
  }

  /** The step sends an event that the subscription is owed, to a tail that was cancelled. */
  ghost predicate Rejected(w: World, a: Action, i: nat)
    requires Inv(w) && i < |w.subscriptions|
  {
    var s := w.subscriptions[i];
    assert InvSubscription(w.bus, s);
    a.Send? && a.payload.kind == s.kind && AtTail(w.bus, s.kind, s.future) && Rejects(w.bus, s.kind)
  }

  ghost predicate Breaks(w: World, a: Action, i: nat)
    requires Inv(w) && i < |w.subscriptions|
  {
    Stale(w, a, i) || Rejected(w, a, i)
  }

  lemma {:induction false} BehindIsLonger(futures: seq<Future>, f: nat, g: nat)
    requires Linked(futures) && f < |futures| && Behind(futures, f, g)
    ensures g < |futures| && |Chain(futures, f)| >= |Chain(futures, g)|
    ensures f != g ==> |Chain(futures, f)| > |Chain(futures, g)|
    decreases |futures| - f
  {
    if f != g {
      BehindIsLonger(futures, futures[f].next, g);
    }
  }

  lemma {:induction false} BehindNext(futures: seq<Future>, f: nat, g: nat)
    requires Linked(futures) && f < |futures| && g < |futures| && Behind(futures, f, g) && futures[g].Done?
    ensures Behind(futures, f, futures[g].next)
    decreases |futures| - f
  {
    if f != g {
      BehindNext(futures, futures[f].next, g);
    } else {
      assert Behind(futures, futures[g].next, futures[g].next);
    }
  }

  /** Done futures never change. */
  lemma {:induction false} BehindLater(futures: seq<Future>, later: seq<Future>, f: nat, g: nat)
    requires Linked(futures) && Linked(later) && f < |futures| <= |later| && Behind(futures, f, g)
    requires forall h | 0 <= h < |futures| && futures[h].Done? :: later[h] == futures[h]
    ensures Behind(later, f, g)
    decreases |futures| - f
  {
    if f != g {
      BehindLater(futures, later, futures[f].next, g);
    }
  }

  lemma NoneAheadLater(w: World, u: World, i: nat)
    requires Inv(w) && Inv(u) && i < |w.subscriptions| && i < |u.subscriptions| && NoneAhead(w, i)
    requires u.subscriptions[i] == w.subscriptions[i] && |w.bus.futures| <= |u.bus.futures|
    requires forall h | 0 <= h < |w.bus.futures| && w.bus.futures[h].Done? :: u.bus.futures[h] == w.bus.futures[h]
    ensures NoneAhead(u, i)
  {
    var s := w.subscriptions[i];
    assert InvSubscription(w.bus, s);
    forall r | 0 <= r < |s.waiting| ensures Behind(u.bus.futures, s.waiting[r], s.future) {
      BehindLater(w.bus.futures, u.bus.futures, s.waiting[r], s.future);
    }
  }

  /** A step that resumes no stale read and sends no event to a cancelled tail keeps the account of a
      subscription; one that does breaks it. */
  lemma StepAccounts(w: World, a: Action, i: nat, since: seq<Action>)
    requires Inv(w) && i < |w.subscriptions| && Accounted(w, i, since) && NoneAhead(w, i)
    ensures Inv(Step(w, a)) && i < |Step(w, a).subscriptions|
    ensures Step(w, a).subscriptions[i].kind == w.subscriptions[i].kind
    ensures Accounted(Step(w, a), i, since + [a]) <==> !Breaks(w, a, i)
    ensures !Breaks(w, a, i) ==> NoneAhead(Step(w, a), i)
  {
    StepKeepsInv(w, a);
    match a
    case Send(payload) => SendAccounts(w, payload, i, since);
    case Subscribe(kind) => SubscribeAccounts(w, kind, i, since);
    case Close => CloseAccounts(w, i, since);
    case Read(j) => ReadAccounts(w, a, i, since);
    case Resume(j, _) => ResumeAccounts(w, a, i, since);
    case Cancel(j, read) => CancelAccounts(w, j, read, i, since);
  }

  lemma SubscribeAccounts(w: World, kind: Kind, i: nat, since: seq<Action>)
    requires Inv(w) && i < |w.subscriptions| && Accounted(w, i, since) && NoneAhead(w, i)
    ensures var a := Subscribe(kind);
            Inv(Step(w, a)) && Accounted(Step(w, a), i, since + [a]) && NoneAhead(Step(w, a), i)
  {
    SubscribeKeepsInv(w, kind);
    assert InvSubscription(w.bus, w.subscriptions[i]);
    ChainAfterSubscribe(w.bus, kind, w.subscriptions[i].future);
    assert (since + [Subscribe(kind)])[..|since|] == since;
    NoneAheadLater(w, Step(w, Subscribe(kind)), i);
  }

  lemma SendAccounts(w: World, payload: Payload, i: nat, since: seq<Action>)
    requires Inv(w) && i < |w.subscriptions| && Accounted(w, i, since) && NoneAhead(w, i)
    ensures var a := Send(payload);
            && Inv(Step(w, a)) && NoneAhead(Step(w, a), i)
            && (Accounted(Step(w, a), i, since + [a]) <==> !Rejected(w, a, i))
  {
    var s := w.subscriptions[i];
    SendKeepsInv(w, payload);
    assert InvSubscription(w.bus, s);
    assert (since + [Send(payload)])[..|since|] == since;
    var chain := Chain(w.bus.futures, s.future);
    if payload.kind in w.bus.threads && !Rejects(w.bus, payload.kind) {
      SendEffect(w.bus, payload);
      ChainAfterSend(w.bus, payload, s.future);
      assert s.received + (chain + [payload]) == s.received + chain + [payload];
      NoneAheadLater(w, Step(w, Send(payload)), i);
    } else {
      assert Rejected(w, Send(payload), i) ==> |Owed(s.kind, since + [Send(payload)])| == |s.received + chain| + 1;
    }
  }

  lemma CancelAccounts(w: World, j: nat, read: nat, i: nat, since: seq<Action>)
    requires Inv(w) && i < |w.subscriptions| && Accounted(w, i, since) && NoneAhead(w, i)
    ensures var a := Cancel(j, read);
            Inv(Step(w, a)) && Accounted(Step(w, a), i, since + [a]) && NoneAhead(Step(w, a), i)
  {
    var a := Cancel(j, read);
    var s, u := w.subscriptions[i], Step(w, a);
    CancelKeepsInv(w, j, read);
    assert InvSubscription(w.bus, s) && InvSubscription(u.bus, u.subscriptions[i]);
    ReadOwesNothing(s.kind, since, a);
    if j < |w.subscriptions| && read < |w.subscriptions[j].waiting| {
      assert InvSubscription(w.bus, w.subscriptions[j]);
      var g := w.subscriptions[j].waiting[read];
      ChainAfterAbandon(w.bus, g, s.future);
      AbandonKeepsFuture(w.bus, g, s.kind, s.future);
      forall r | 0 <= r < |u.subscriptions[i].waiting|
        ensures Behind(u.bus.futures, u.subscriptions[i].waiting[r], s.future)
      {
        var k := if i == j && r >= read then r + 1 else r;
        assert u.subscriptions[i].waiting[r] == s.waiting[k];
        BehindLater(w.bus.futures, u.bus.futures, s.waiting[k], s.future);
      }
    }
  }

  lemma CloseAccounts(w: World, i: nat, since: seq<Action>)
    requires Inv(w) && i < |w.subscriptions| && Accounted(w, i, since) && NoneAhead(w, i)
    ensures Inv(Step(w, Close)) && Accounted(Step(w, Close), i, since + [Close]) && NoneAhead(Step(w, Close), i)
  {
    var s := w.subscriptions[i];
    CloseKeepsInv(w);
    assert InvSubscription(w.bus, s);
    ChainAfterClose(w.bus, s.future);
    CloseStops(w.bus, s.kind, s.future);
    assert (since + [Close])[..|since|] == since;
    NoneAheadLater(w, Step(w, Close), i);
  }

  lemma ReadOwesNothing(kind: Kind, since: seq<Action>, a: Action)
    requires a.Read? || a.Resume? || a.Cancel?
    ensures Owed(kind, since + [a]) == Owed(kind, since)
    ensures Close in since + [a] <==> Close in since
  {
    assert (since + [a])[..|since|] == since;
  }

  /** Taking an event from where the subscription is moves it from the chain to what was received. */
  lemma TakeAccounts(bus: Bus, s: Subscription)
    requires InvBus(bus) && InvSubscription(bus, s)
    ensures var t := Take(bus, s, s.future);
            && InvSubscription(bus, t)
            && t.received + Chain(bus.futures, t.future) == s.received + Chain(bus.futures, s.future)
            && Tail(bus.futures, t.future) == Tail(bus.futures, s.future)
            && forall r | 0 <= r < |s.waiting| ::
                 Behind(bus.futures, s.waiting[r], s.future) ==> Behind(bus.futures, s.waiting[r], t.future)
  {
    TakeKeepsInv(bus, s, s.future);
    if bus.futures[s.future].Done? {
      var payload, next := bus.futures[s.future].payload, bus.futures[s.future].next;
      assert s.received + ([payload] + Chain(bus.futures, next)) == s.received + [payload] + Chain(bus.futures, next);
      forall r | 0 <= r < |s.waiting| && Behind(bus.futures, s.waiting[r], s.future)
        ensures Behind(bus.futures, s.waiting[r], next)
      {
        BehindNext(bus.futures, s.waiting[r], s.future);
      }
    }
  }

  lemma ReadAccounts(w: World, a: Action, i: nat, since: seq<Action>)
    requires Inv(w) && i < |w.subscriptions| && Accounted(w, i, since) && NoneAhead(w, i) && a.Read?
    ensures Inv(Step(w, a)) && i < |Step(w, a).subscriptions|
    ensures Accounted(Step(w, a), i, since + [a]) && NoneAhead(Step(w, a), i)
  {
    var s := w.subscriptions[i];
    ReadKeepsInv(w, a);
    assert InvSubscription(w.bus, s);
    ReadOwesNothing(s.kind, since, a);
    TakeAccounts(w.bus, s);
    assert Behind(w.bus.futures, s.future, s.future);
  }

  lemma ResumeAccounts(w: World, a: Action, i: nat, since: seq<Action>)
    requires Inv(w) && i < |w.subscriptions| && Accounted(w, i, since) && NoneAhead(w, i) && a.Resume?
    ensures Inv(Step(w, a)) && i < |Step(w, a).subscriptions|
    ensures Accounted(Step(w, a), i, since + [a]) <==> !Stale(w, a, i)
    ensures !Stale(w, a, i) ==> NoneAhead(Step(w, a), i)
  {
    var s := w.subscriptions[i];
    ReadKeepsInv(w, a);
    assert InvSubscription(w.bus, s);
    ReadOwesNothing(s.kind, since, a);
    if Stale(w, a, i) {
      StaleBreaks(w.bus, s, a.read);
    } else {
      TakeAccounts(w.bus, s);
    }
  }

  /** A stale read gets an event again, and takes the subscription back to what follows it. */
  lemma StaleBreaks(bus: Bus, s: Subscription, read: nat)
    requires InvBus(bus) && InvSubscription(bus, s) && read < |s.waiting|
    requires bus.futures[s.waiting[read]].Done? && s.waiting[read] != s.future
    requires Behind(bus.futures, s.waiting[read], s.future)
    ensures var t := ResumeRead(bus, s, read);
            && t.future < |bus.futures|
            && |t.received + Chain(bus.futures, t.future)| > |s.received + Chain(bus.futures, s.future)|
  {
    BehindIsLonger(bus.futures, s.waiting[read], s.future);
  }

  /** A new subscription starts with nothing received and nothing owed. */
  lemma FreshAccount(w: World, kind: Kind)
    requires Inv(w)
    ensures var w' := Step(w, Subscribe(kind));
            && Inv(w') && |w'.subscriptions| == |w.subscriptions| + 1
            && w'.subscriptions[|w.subscriptions|].kind == kind
            && Accounted(w', |w.subscriptions|, []) && NoneAhead(w', |w.subscriptions|)
  {
    SubscribeKeepsInv(w, kind);
    SubscribeKeepsBus(w.bus, kind);
  }

  lemma {:induction false} SubscriptionsCounted(actions: seq<Action>)
    ensures |After(actions).subscriptions| == |Starts(actions)|
    decreases |actions|
  {
    if actions != [] {
      SubscriptionsCounted(actions[..|actions| - 1]);
    }
  }

  lemma Unfold(prefix: seq<Action>, last: Action)
    ensures After(prefix + [last]) == Step(After(prefix), last)
    ensures Starts(prefix + [last]) == Starts(prefix) + (if last.Subscribe? then [|prefix|] else [])
  {
    var actions := prefix + [last];
    assert actions[..|actions| - 1] == prefix && actions[|actions| - 1] == last;
    AfterLast(actions);
    StartsLast(actions);
  }

  lemma AfterLast(actions: seq<Action>)
    requires actions != []
    ensures After(actions) == Step(After(actions[..|actions| - 1]), actions[|actions| - 1])
  {
  }

  lemma StartsLast(actions: seq<Action>)
    requires actions != []
    ensures var n := |actions| - 1;
            Starts(actions) == Starts(actions[..n]) + (if actions[n].Subscribe? then [n] else [])
  {
  }

  /** The account of a subscription at the end of a run. */
  ghost predicate Delivered(actions: seq<Action>, i: nat) {
    DeliveredIn(After(actions), Starts(actions), actions, i)
  }

  ghost predicate DeliveredIn(w: World, starts: seq<nat>, actions: seq<Action>, i: nat)
    requires Inv(w)
  {
    && i < |starts| == |w.subscriptions|
    && starts[i] < |actions|
    && actions[starts[i]] == Subscribe(w.subscriptions[i].kind)
    && Accounted(w, i, actions[starts[i] + 1..])
  }

  /** It was right in all states since the subscription was made. */
  ghost predicate AlwaysDelivered(actions: seq<Action>, i: nat) {
    i < |Starts(actions)| ==>
      Delivered(actions, i) && (actions != [] ==> AlwaysDelivered(actions[..|actions| - 1], i))
  }

  /** No stale read of the subscription was resumed, and no event it is owed was sent to a cancelled tail. */
  ghost predicate NeverBroken(actions: seq<Action>, i: nat) {
    actions != [] ==>
      var n := |actions| - 1;
      var before := After(actions[..n]);
      NeverBroken(actions[..n], i) && (i < |before.subscriptions| ==> !Breaks(before, actions[n], i))
  }

  lemma SinceThen(prefix: seq<Action>, last: Action, start: nat)
    requires start < |prefix|
    ensures (prefix + [last])[start] == prefix[start]
    ensures (prefix + [last])[start + 1..] == prefix[start + 1..] + [last]
  {
  }

  lemma DeliveredNext(w: World, starts: seq<nat>, prefix: seq<Action>, last: Action, i: nat)
    requires Inv(w) && DeliveredIn(w, starts, prefix, i) && NoneAhead(w, i)
    ensures Inv(Step(w, last)) && i < |Step(w, last).subscriptions|
    ensures DeliveredIn(Step(w, last), starts + (if last.Subscribe? then [|prefix|] else []), prefix + [last], i) <==>
            !Breaks(w, last, i)
    ensures !Breaks(w, last, i) ==> NoneAhead(Step(w, last), i)
  {
    StepAccounts(w, last, i, prefix[starts[i] + 1..]);
    SinceThen(prefix, last, starts[i]);
  }

  lemma DeliveryGoesOn(prefix: seq<Action>, last: Action, i: nat)
    requires Delivered(prefix, i) && NoneAhead(After(prefix), i)
    ensures Delivered(prefix + [last], i) <==> !Breaks(After(prefix), last, i)
    ensures !Breaks(After(prefix), last, i) ==>
              i < |After(prefix + [last]).subscriptions| && NoneAhead(After(prefix + [last]), i)
  {
    Unfold(prefix, last);
    DeliveredNext(After(prefix), Starts(prefix), prefix, last, i);
  }

  lemma DeliveryBegins(prefix: seq<Action>, kind: Kind)
    ensures Delivered(prefix + [Subscribe(kind)], |Starts(prefix)|)
    ensures NoneAhead(After(prefix + [Subscribe(kind)]), |Starts(prefix)|)
  {
    var actions, i := prefix + [Subscribe(kind)], |Starts(prefix)|;
    Unfold(prefix, Subscribe(kind));
    SubscriptionsCounted(prefix);
    FreshAccount(After(prefix), kind);
    assert Starts(actions)[i] == |prefix|;
    assert actions[|prefix|] == Subscribe(kind) && actions[|prefix| + 1..] == [];
  }

  /** Events are delivered exactly as long as no stale read is resumed and no tail was cancelled: what a subscriber
      has received, followed by what it can still reach, is what was sent since it subscribed, and its
      chain is that of the type as long as the bus is open. */
  lemma {:induction false} DeliveryIsExact(actions: seq<Action>, i: nat)
    requires i < |Starts(actions)| && NeverBroken(actions, i)
    ensures Delivered(actions, i) && NoneAhead(After(actions), i)
    decreases |actions|
  {
    var n := |actions| - 1;
    var prefix, last := actions[..n], actions[n];
    assert actions == prefix + [last];
    Unfold(prefix, last);
    SubscriptionsCounted(prefix);
    if i < |Starts(prefix)| {
      DeliveryIsExact(prefix, i);
      DeliveryGoesOn(prefix, last, i);
    } else {
      DeliveryBegins(prefix, last.kind);
    }
  }

  /** For every interleaving: the account of a subscription is right all the time if and only if no stale read
      of it is ever resumed and no event it is owed is sent to a cancelled tail. */
  lemma {:induction false} DeliveryIsExactIff(actions: seq<Action>, i: nat)
    requires i < |Starts(actions)|
    ensures AlwaysDelivered(actions, i) <==> NeverBroken(actions, i)
    decreases |actions|
  {
    var n := |actions| - 1;
    var prefix, last := actions[..n], actions[n];
    assert actions == prefix + [last];
    Unfold(prefix, last);
    SubscriptionsCounted(prefix);
    if i < |Starts(prefix)| {
      DeliveryIsExactIff(prefix, i);
      if NeverBroken(prefix, i) {
        DeliveryIsExact(prefix, i);
        DeliveryGoesOn(prefix, last, i);
      }
    } else {
      NotBrokenBefore(prefix, i);
      DeliveryBegins(prefix, last.kind);
    }
  }

  lemma {:induction false} NotBrokenBefore(actions: seq<Action>, i: nat)
    requires i >= |Starts(actions)|
    ensures NeverBroken(actions, i)
    decreases |actions|
  {
    if actions != [] {
      var n := |actions| - 1;
      SubscriptionsCounted(actions[..n]);
      NotBrokenBefore(actions[..n], i);
    }
  }

  // ----- One reader at a time -------------------------------------------------------------------

  /** No read of the subscription is started while another one is in flight. */
  ghost predicate OneReader(actions: seq<Action>, i: nat) {
    actions != [] ==>
      var n := |actions| - 1;
      var before := After(actions[..n]);
      && OneReader(actions[..n], i)
      && (actions[n] == Read(i) && i < |before.subscriptions| ==> before.subscriptions[i].waiting == [])
  }

  /** Then the read in flight awaits the future that the subscription is at. */
  ghost predicate ReadsHere(s: Subscription) {
    s.waiting == [] || s.waiting == [s.future]
  }

  lemma OneReaderStep(w: World, a: Action, i: nat)
    requires Inv(w) && (i < |w.subscriptions| ==> ReadsHere(w.subscriptions[i]))
    requires a == Read(i) && i < |w.subscriptions| ==> w.subscriptions[i].waiting == []
    ensures i < |w.subscriptions| ==> !Stale(w, a, i)
    ensures i < |Step(w, a).subscriptions| ==> ReadsHere(Step(w, a).subscriptions[i])
  {
  }

  ghost predicate NobodyCancelled(actions: seq<Action>) {
    forall a <- actions :: !a.Cancel?
  }

  lemma AbandonedByCancel(w: World, a: Action)
    requires Inv(w) && !a.Cancel? && forall f <- w.bus.futures :: !f.Abandoned?
    ensures forall f <- Step(w, a).bus.futures :: !f.Abandoned?
  {
  }

  lemma {:induction false} OneReaderIsNeverBroken(actions: seq<Action>, i: nat)
    requires OneReader(actions, i) && NobodyCancelled(actions)
    ensures NeverBroken(actions, i)
    ensures i < |After(actions).subscriptions| ==> ReadsHere(After(actions).subscriptions[i])
    ensures forall f <- After(actions).bus.futures :: !f.Abandoned?
    decreases |actions|
  {
    if actions != [] {
      var n := |actions| - 1;
      assert actions[n] in actions;
      OneReaderIsNeverBroken(actions[..n], i);
      OneReaderStep(After(actions[..n]), actions[n], i);
      AbandonedByCancel(After(actions[..n]), actions[n]);
      AfterLast(actions);
    }
  }

  /** With at most one read in flight at a time, and none cancelled, delivery is exact, whatever else is
      interleaved. */
  lemma OneReaderDeliveryIsExact(actions: seq<Action>, i: nat)
    requires i < |Starts(actions)| && OneReader(actions, i) && NobodyCancelled(actions)
    ensures AlwaysDelivered(actions, i)
  {
    OneReaderIsNeverBroken(actions, i);
    DeliveryIsExactIff(actions, i);
  }

  // ----- What a read gives ----------------------------------------------------------------------

  /** What the next read of a subscription means: when the subscriber has not yet got everything it is owed, it
      gives the next event; otherwise it stops if the bus was closed, waits if it was not, and is
      interrupted if the tail was cancelled before that. */
  ghost predicate NextIsOwed(w: World, i: nat, since: seq<Action>)
    requires Inv(w) && i < |w.subscriptions|
  {
    var s := w.subscriptions[i];
    assert InvSubscription(w.bus, s);
    var owed, outcome := Owed(s.kind, since), Await(w.bus, s.future).0;
    var cancelled := w.bus.futures[Tail(w.bus.futures, s.future)].Abandoned?;
    && s.received <= owed
    && (outcome.Stops? <==> s.received == owed && !cancelled && Close in since)
    && (outcome.Waits? <==> s.received == owed && !cancelled && Close !in since)
    && (outcome.Interrupts? <==> s.received == owed && cancelled)
    && (outcome.Receives? ==> |s.received| < |owed| && outcome.payload == owed[|s.received|])
  }

  lemma ReadIsComplete(w: World, i: nat, since: seq<Action>)
    requires Inv(w) && i < |w.subscriptions| && Accounted(w, i, since)
    ensures NextIsOwed(w, i, since)
  {
    var s := w.subscriptions[i];
    assert InvSubscription(w.bus, s);
    var chain := Chain(w.bus.futures, s.future);
    assert |s.received + chain| == |s.received| + |chain|;
    assert chain == [] ==> s.received + chain == s.received;
    if w.bus.futures[s.future].Done? {
      assert (s.received + chain)[|s.received|] == chain[0];
    }
  }

  /** What a read does to its subscription: it takes the next event owed at once, is in flight only when it waits, and
      otherwise leaves everything as it is. */
  ghost predicate ReadTakesNext(w: World, i: nat, since: seq<Action>)
    requires Inv(w) && i < |w.subscriptions|
  {
    var s, owed, u := w.subscriptions[i], Owed(w.subscriptions[i].kind, since), Step(w, Read(i));
    assert InvSubscription(w.bus, s);
    && |s.received| <= |owed|
    && u == w.(subscriptions := w.subscriptions[i := u.subscriptions[i]])
    && var t := u.subscriptions[i];
       if |s.received| < |owed| then
         t.received == s.received + [owed[|s.received|]] && t.waiting == s.waiting && t.kind == s.kind
       else if Close in since || w.bus.futures[Tail(w.bus.futures, s.future)].Abandoned? then t == s
       else t == s.(waiting := s.waiting + [s.future])
  }

  lemma ReadsTakeNext(actions: seq<Action>, i: nat)
    requires i < |Starts(actions)| && NeverBroken(actions, i)
    ensures i < |After(actions).subscriptions| && Starts(actions)[i] < |actions|
    ensures ReadTakesNext(After(actions), i, actions[Starts(actions)[i] + 1..])
  {
    DeliveryIsExact(actions, i);
    ReadIsComplete(After(actions), i, actions[Starts(actions)[i] + 1..]);
    assert InvSubscription(After(actions).bus, After(actions).subscriptions[i]);
  }

  lemma ReadsAreComplete(actions: seq<Action>, i: nat)
    requires i < |Starts(actions)| && NeverBroken(actions, i)
    ensures i < |After(actions).subscriptions| && Starts(actions)[i] < |actions|
    ensures NextIsOwed(After(actions), i, actions[Starts(actions)[i] + 1..])
  {
    DeliveryIsExact(actions, i);
    ReadIsComplete(After(actions), i, actions[Starts(actions)[i] + 1..]);
  }

  // ----- Two readers, and a cancelled one -------------------------------------------------------

  /** A run up to the moment before the first of two reads is resumed. */
  ghost function TwoReads(payload: Payload): seq<Action> {
    [Subscribe(payload.kind), Read(0), Read(0), Send(payload)]
  }

  lemma OneMore(prefix: seq<Action>, last: Action, w: World)
    requires After(prefix) == w
    ensures Inv(w) && After(prefix + [last]) == Step(w, last)
  {
    Unfold(prefix, last);
  }

  /** Both reads are in flight on the future that has just been resolved. */
  lemma AfterTwoReads(payload: Payload)
    ensures After(TwoReads(payload)) ==
            World(Bus([Done(payload, 1), Pending], map[payload.kind := 1]), [Subscription(payload.kind, 0, [], [0, 0])])
  {
    var kind := payload.kind;
    var bus := Bus([Pending], map[kind := 0]);
    AfterSecondRead(kind);
    OneMore([Subscribe(kind), Read(0), Read(0)], Send(payload), World(bus, [Subscription(kind, 0, [], [0, 0])]));
    SendOne(bus, payload);
    assert [Subscribe(kind), Read(0), Read(0)] + [Send(payload)] == TwoReads(payload);
  }

  lemma AfterSecondRead(kind: Kind)
    ensures After([Subscribe(kind), Read(0), Read(0)]) ==
            World(Bus([Pending], map[kind := 0]), [Subscription(kind, 0, [], [0, 0])])
  {
    AfterOneRead(kind);
    var w := World(Bus([Pending], map[kind := 0]), [Subscription(kind, 0, [], [0])]);
    OneMore([Subscribe(kind), Read(0)], Read(0), w);
    StartOne(w, Subscription(kind, 0, [], [0]));
    assert [0] + [0] == [0, 0];
    assert [Subscribe(kind), Read(0)] + [Read(0)] == [Subscribe(kind), Read(0), Read(0)];
  }

  lemma AfterOneRead(kind: Kind)
    ensures After([Subscribe(kind), Read(0)]) == World(Bus([Pending], map[kind := 0]), [Subscription(kind, 0, [], [0])])
  {
    var none: seq<Action> := [];
    OneMore(none, Subscribe(kind), START);
    assert none + [Subscribe(kind)] == [Subscribe(kind)];
    var w0 := World(Bus([Pending], map[kind := 0]), [Subscription(kind, 0, [], [])]);
    assert Step(START, Subscribe(kind)) == w0;
    OneMore([Subscribe(kind)], Read(0), w0);
    StartOne(w0, Subscription(kind, 0, [], []));
    assert [] + [0] == [0];
    assert [Subscribe(kind)] + [Read(0)] == [Subscribe(kind), Read(0)];
  }

  lemma StartOne(w: World, s: Subscription)
    requires Inv(w) && w.subscriptions == [s] && w.bus.futures == [Pending] && s.future == 0
    ensures Step(w, Read(0)) == World(w.bus, [s.(waiting := s.waiting + [0])])
  {
    assert InvSubscription(w.bus, w.subscriptions[0]);
    assert [s][0 := s.(waiting := s.waiting + [0])] == [s.(waiting := s.waiting + [0])];
  }

  lemma SendOne(bus: Bus, payload: Payload)
    requires bus == Bus([Pending], map[payload.kind := 0])
    ensures SendTo(bus, payload) == Bus([Done(payload, 1), Pending], map[payload.kind := 1])
  {
    assert [Pending][0 := Done(payload, 1)] + [Pending] == [Done(payload, 1), Pending];
    assert bus.threads[payload.kind := 1] == map[payload.kind := 1];
  }

  lemma ResumeOne(w: World, payload: Payload, s: Subscription, rest: seq<nat>)
    requires Inv(w) && w.subscriptions == [s] && s.waiting == [0] + rest
    requires w.bus.futures == [Done(payload, 1), Pending]
    ensures Step(w, Resume(0, 0)) == World(w.bus, [Subscription(s.kind, 1, s.received + [payload], rest)])
  {
    var t := Subscription(s.kind, 1, s.received + [payload], rest);
    assert InvSubscription(w.bus, w.subscriptions[0]);
    assert s.waiting[..0] + s.waiting[1..] == rest;
    assert [s][0 := t] == [t];
  }

  /** Two reads of one subscription are in flight when an event is sent: both get it. */
  lemma TwoReadersShareAnEvent(payload: Payload)
    ensures var w := After(TwoReads(payload) + [Resume(0, 0)] + [Resume(0, 0)]);
            |w.subscriptions| == 1 && w.subscriptions[0].received == [payload, payload]
    ensures Owed(payload.kind, [Read(0), Read(0), Send(payload), Resume(0, 0), Resume(0, 0)]) == [payload]
  {
    var kind := payload.kind;
    var bus := Bus([Done(payload, 1), Pending], map[kind := 1]);
    AfterTwoReads(payload);
    var w := World(bus, [Subscription(kind, 0, [], [0, 0])]);
    OneMore(TwoReads(payload), Resume(0, 0), w);
    assert [0, 0] == [0] + [0] && [] + [payload] == [payload];
    ResumeOne(w, payload, Subscription(kind, 0, [], [0, 0]), [0]);
    var u := World(bus, [Subscription(kind, 1, [payload], [0])]);
    OneMore(TwoReads(payload) + [Resume(0, 0)], Resume(0, 0), u);
    assert [0] == [0] + [] && [payload] + [payload] == [payload, payload];
    ResumeOne(u, payload, Subscription(kind, 1, [payload], [0]), []);
    OwedOnce(payload);
  }

  lemma OwedOnce(payload: Payload)
    ensures Owed(payload.kind, [Read(0), Read(0), Send(payload), Resume(0, 0), Resume(0, 0)]) == [payload]
  {
    var started := [Read(0), Read(0)];
    assert [] + [Read(0)] == [Read(0)] && [Read(0)] + [Read(0)] == started;
    ReadOwesNothing(payload.kind, [], Read(0));
    ReadOwesNothing(payload.kind, [Read(0)], Read(0));
    var sent := started + [Send(payload)];
    assert sent[..2] == started;
    assert Owed(payload.kind, sent) == [payload];
    ReadOwesNothing(payload.kind, sent, Resume(0, 0));
    ReadOwesNothing(payload.kind, sent + [Resume(0, 0)], Resume(0, 0));
    assert sent + [Resume(0, 0)] + [Resume(0, 0)] == [Read(0), Read(0), Send(payload), Resume(0, 0), Resume(0, 0)];
  }

  /** The step cancels a read in flight on the open tail of the type. */
  ghost predicate CancelsTail(w: World, a: Action, kind: Kind)
    requires Inv(w)
  {
    && a.Cancel? && a.subscription < |w.subscriptions| && a.read < |w.subscriptions[a.subscription].waiting|
    && kind in w.bus.threads && w.subscriptions[a.subscription].waiting[a.read] == w.bus.threads[kind]
  }

  lemma RejectsWithoutCancel(w: World, a: Action, kind: Kind)
    requires Inv(w) && !a.Cancel? && Inv(Step(w, a))
    ensures Rejects(Step(w, a).bus, kind) <==> a != Close && Rejects(w.bus, kind)
  {
  }

  lemma RejectsAfterCancel(w: World, i: nat, read: nat, kind: Kind)
    requires Inv(w) && Inv(Step(w, Cancel(i, read)))
    ensures Rejects(Step(w, Cancel(i, read)).bus, kind) <==>
            Rejects(w.bus, kind) || CancelsTail(w, Cancel(i, read), kind)
  {
    if i < |w.subscriptions| && read < |w.subscriptions[i].waiting| {
      assert InvSubscription(w.bus, w.subscriptions[i]);
      assert InvFuture(w.bus, w.subscriptions[i].kind, w.subscriptions[i].waiting[read]);
    }
  }

  /** Sending an event of a type fails exactly from the cancellation of a read on its tail until the bus is closed,
      whoever else subscribes or reads meanwhile. */
  lemma RejectsIff(w: World, a: Action, kind: Kind)
    requires Inv(w)
    ensures Inv(Step(w, a))
    ensures Rejects(Step(w, a).bus, kind) <==> a != Close && (Rejects(w.bus, kind) || CancelsTail(w, a, kind))
  {
    StepKeepsInv(w, a);
    if a.Cancel? {
      RejectsAfterCancel(w, a.subscription, a.read, kind);
    } else {
      RejectsWithoutCancel(w, a, kind);
    }
  }

  /** Two subscriptions of one type, and a read of the first in flight that is cancelled. */
  ghost function CancelledRead(kind: Kind): seq<Action> {
    [Subscribe(kind)] + [Subscribe(kind)] + [Read(0)] + [Cancel(0, 0)]
  }

  lemma AfterSubscribe(kind: Kind)
    ensures After([Subscribe(kind)]) == World(Bus([Pending], map[kind := 0]), [Subscription(kind, 0, [], [])])
    ensures Starts([Subscribe(kind)]) == [0]
  {
    assert [] + [Subscribe(kind)] == [Subscribe(kind)];
    Unfold([], Subscribe(kind));
  }

  lemma AfterCancelledRead(kind: Kind)
    ensures After(CancelledRead(kind)) ==
            World(Bus([Abandoned], map[kind := 0]), [Subscription(kind, 0, [], []), Subscription(kind, 0, [], [])])
  {
    var bus, s := Bus([Pending], map[kind := 0]), Subscription(kind, 0, [], []);
    AfterSubscribe(kind);
    OneMore([Subscribe(kind)], Subscribe(kind), World(bus, [s]));
    OneMore([Subscribe(kind)] + [Subscribe(kind)], Read(0), World(bus, [s, s]));
    OneMore([Subscribe(kind)] + [Subscribe(kind)] + [Read(0)], Cancel(0, 0), World(bus, [s.(waiting := [0]), s]));
  }

  lemma NoStart(prefix: seq<Action>, last: Action)
    requires !last.Subscribe?
    ensures Starts(prefix + [last]) == Starts(prefix)
  {
    Unfold(prefix, last);
  }

  lemma StartsOfCancelledRead(payload: Payload)
    ensures Starts(CancelledRead(payload.kind) + [Send(payload)]) == [0, 1]
  {
    var two := [Subscribe(payload.kind)] + [Subscribe(payload.kind)];
    AfterSubscribe(payload.kind);
    StartsLast(two);
    assert two[..1] == [Subscribe(payload.kind)];
    NoStart(two, Read(0));
    NoStart(two + [Read(0)], Cancel(0, 0));
    NoStart(CancelledRead(payload.kind), Send(payload));
  }

  /** An event that is sent then is lost for the other subscription as well. */
  lemma CancelledReadStopsOthers(payload: Payload)
    ensures var actions := CancelledRead(payload.kind) + [Send(payload)];
            Starts(actions) == [0, 1] && !AlwaysDelivered(actions, 1)
  {
    var actions := CancelledRead(payload.kind);
    StartsOfCancelledRead(payload);
    AfterCancelledRead(payload.kind);
    assert Rejected(After(actions), Send(payload), 1);
    assert (actions + [Send(payload)])[..|actions|] == actions;
    assert !NeverBroken(actions + [Send(payload)], 1);
    DeliveryIsExactIff(actions + [Send(payload)], 1);
  }
}
