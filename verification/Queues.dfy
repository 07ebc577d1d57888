/**
The buffering queue: producers never wait, a bounded buffer drops its oldest element, and a single
consumer may be waiting, resolved but not yet resumed, or cancelled while waiting.
*/
module Queues {
  import opened Wrappers

  /** The future of the waiting consumer.  A delivered element is known by its position as well. */
  datatype Waiting<+E> =
    | Nobody
    | Unresolved
    | Delivered(element: E, position: nat)
    | Refused(reason: Reason)
    | Abandoned

  /** `buffer`, `waiting`, `finished` and `limit` are the fields of the queue.  `accepted` records every
      element put in, `handed` the positions of those handed over, in that order, and `lost` counts the
      elements dropped by overflow or by clearing.  Of the handed positions, `returned` are those a caller
      has returned with, and `forsaken` those delivered to a consumer that was cancelled before it ran. */
  datatype Queue<+E> = Queue(
    buffer: seq<E>,
    waiting: Waiting<E>,
    finished: Option<Reason>,
    limit: Option<nat>,
    accepted: seq<E>,
    handed: seq<nat>,
    lost: nat,
    returned: set<nat>,
    forsaken: set<nat>)

  datatype Action<+E> =
    | Enqueue(element: E)
    | Finish(reason: Reason)
    | PendingNext
    | Next
    | Resume
    | CancelConsumer
    | Clear

  // ----- The code -------------------------------------------------------------------------------

  /** `deque(maxlen=limit)`: appending to a full deque drops from the left. */
  function Trim<E>(buffer: seq<E>, limit: Option<nat>): seq<E> {
    if limit.Some? && |buffer| > limit.value then buffer[|buffer| - limit.value..] else buffer
  }

  function Create<E>(elements: seq<E>, limit: Option<nat>): Queue<E> {
    var buffer := Trim(elements, limit);
    Queue(buffer, Nobody, None, limit, elements, [], |elements| - |buffer|, {}, {})
  }

  /** `enqueue`; on a finished queue the code raises and changes nothing. */
  function EnqueueStep<E>(q: Queue<E>, element: E): Queue<E> {
    if q.finished.Some? then q
    else if q.waiting.Unresolved? then
      q.(waiting := Delivered(element, |q.accepted|),
         accepted := q.accepted + [element],
         handed := q.handed + [|q.accepted|])
    else
      var buffer := Trim(q.buffer + [element], q.limit);
      q.(buffer := buffer, accepted := q.accepted + [element], lost := q.lost + |q.buffer| + 1 - |buffer|)
  }

  function FinishStep<E>(q: Queue<E>, reason: Reason): Queue<E> {
    if q.finished.Some? then q
    else q.(finished := Some(reason), waiting := if q.waiting.Unresolved? then Refused(reason) else q.waiting)
  }

  /** `popleft` on a buffer that is not empty. */
  function Pop<E>(q: Queue<E>): Queue<E>
    requires q.buffer != [] && |q.buffer| <= |q.accepted|
  {
    var position := |q.accepted| - |q.buffer|;
    q.(buffer := q.buffer[1..], handed := q.handed + [position], returned := q.returned + {position})
  }

  function PendingNextStep<E>(q: Queue<E>): Queue<E>
    requires |q.buffer| <= |q.accepted|
  {
    if q.buffer != [] then Pop(q) else q
  }

  /** `__anext__` up to its suspension.  With a consumer already waiting the code's assertion fails. */
  function NextStep<E>(q: Queue<E>): Queue<E>
    requires |q.buffer| <= |q.accepted|
  {
    if !q.waiting.Nobody? then q
    else if q.buffer != [] then Pop(q)
    else if q.finished.Some? then q
    else q.(waiting := Unresolved)
  }

  function ResumeStep<E>(q: Queue<E>): Queue<E> {
    match q.waiting
    case Delivered(_, position) => q.(waiting := Nobody, returned := q.returned + {position})
    case Refused(_) => q.(waiting := Nobody)
    case Abandoned => q.(waiting := Nobody)
    case _ => q
  }

  /** The task that waits in `__anext__` is cancelled. */
  function CancelStep<E>(q: Queue<E>): Queue<E> {
    match q.waiting
    case Nobody => q
    case Delivered(_, position) => q.(waiting := Abandoned, forsaken := q.forsaken + {position})
    case _ => q.(waiting := Abandoned)
  }

  function ClearStep<E>(q: Queue<E>): Queue<E> {
    if q.waiting.Unresolved? then q else q.(buffer := [], lost := q.lost + |q.buffer|)
  }

  function Step<E>(q: Queue<E>, a: Action<E>): Queue<E>
    requires |q.buffer| <= |q.accepted|
  {
    match a
    case Enqueue(element) => EnqueueStep(q, element)
    case Finish(reason) => FinishStep(q, reason)
    case PendingNext => PendingNextStep(q)
    case Next => NextStep(q)
    case Resume => ResumeStep(q)
    case CancelConsumer => CancelStep(q)
    case Clear => ClearStep(q)
  }

  // ----- The invariant --------------------------------------------------------------------------

  ghost predicate StrictlyIncreasing(positions: seq<nat>) {
    forall i, j | 0 <= i < j < |positions| :: positions[i] < positions[j]
  }

  ghost predicate Inv<E>(q: Queue<E>) {
    // the buffer holds the latest elements, no more than the limit
    && |q.buffer| <= |q.accepted|
    && q.buffer == q.accepted[|q.accepted| - |q.buffer|..]
    && (q.limit.Some? ==> |q.buffer| <= q.limit.value)
    // a consumer waits only for an open, empty queue; it is refused only when nothing is left
    && (q.waiting.Unresolved? ==> q.finished.None? && q.buffer == [])
    && (q.waiting.Refused? ==> q.finished == Some(q.waiting.reason) && q.buffer == [])
    // elements are handed over in order, each at most once, and none of them is still buffered
    && StrictlyIncreasing(q.handed)
    && (forall i | 0 <= i < |q.handed| :: q.handed[i] < |q.accepted| - |q.buffer|)
    // every element is handed over, buffered or lost
    && |q.handed| + |q.buffer| + q.lost == |q.accepted|
    && Returns(q)
  }

  function Elements(positions: seq<nat>): set<nat> {
    set p | p in positions
  }

  /** What was handed over was returned, is on its way to a resumed consumer, or was forsaken. */
  ghost predicate Returns<E>(q: Queue<E>) {
    var underway := if q.waiting.Delivered? then {q.waiting.position} else {};
    && Elements(q.handed) == q.returned + underway + q.forsaken
    && q.returned !! underway && q.returned !! q.forsaken && underway !! q.forsaken
    && (q.waiting.Delivered? ==>
          q.waiting.position < |q.accepted| && q.accepted[q.waiting.position] == q.waiting.element)
  }

  lemma ElementsAppend(positions: seq<nat>, p: nat)
    ensures Elements(positions + [p]) == Elements(positions) + {p}
  {
    assert (positions + [p])[|positions|] == p;
    assert forall x :: x in positions + [p] <==> x in positions || x == p;
  }

  lemma PopKeepsInv<E>(q: Queue<E>)
    requires Inv(q) && q.buffer != []
    ensures Inv(Pop(q)) && q.buffer[0] == q.accepted[|q.accepted| - |q.buffer|]
  {
    var position := |q.accepted| - |q.buffer|;
    ElementsAppend(q.handed, position);
    assert position !in Elements(q.handed);
  }

  lemma BufferIsSuffix<E>(q: Queue<E>, element: E)
    requires Inv(q) && q.finished.None? && !q.waiting.Unresolved?
    ensures var u := EnqueueStep(q, element);
            u.buffer == u.accepted[|u.accepted| - |u.buffer|..]
  {
    var u := EnqueueStep(q, element);
    var all := q.buffer + [element];
    assert all == u.accepted[|u.accepted| - |all|..];
  }

  lemma EnqueueKeepsInv<E>(q: Queue<E>, element: E)
    requires Inv(q)
    ensures Inv(EnqueueStep(q, element))
  {
    if q.finished.None? {
      if q.waiting.Unresolved? {
        ElementsAppend(q.handed, |q.accepted|);
        assert |q.accepted| !in Elements(q.handed);
      } else {
        BufferIsSuffix(q, element);
      }
    }
  }

  lemma StepKeepsInv<E>(q: Queue<E>, a: Action<E>)
    requires Inv(q)
    ensures Inv(Step(q, a))
  {
    match a
    case Enqueue(element) => EnqueueKeepsInv(q, element);
    case Finish(reason) =>
    case PendingNext => if q.buffer != [] { PopKeepsInv(q); }
    case Next => if q.buffer != [] { PopKeepsInv(q); }
    case Resume =>
    case CancelConsumer =>
    case Clear =>
  }

  // ----- Runs -----------------------------------------------------------------------------------

  ghost function After<E>(elements: seq<E>, limit: Option<nat>, actions: seq<Action<E>>): (q: Queue<E>)
    ensures Inv(q)
  {
    if actions == [] then Create(elements, limit)
    else
      var before, last := After(elements, limit, actions[..|actions| - 1]), actions[|actions| - 1];
      StepKeepsInv(before, last);
      Step(before, last)
  }

  /** The elements enqueued before the first finish. */
  ghost function Enqueued<E>(actions: seq<Action<E>>): seq<E> {
    if actions == [] then []
    else
      var n := |actions| - 1;
      var before := Enqueued(actions[..n]);
      if actions[n].Enqueue? && !HasFinish(actions[..n]) then before + [actions[n].element] else before
  }

  ghost predicate HasFinish<E>(actions: seq<Action<E>>) {
    exists i :: 0 <= i < |actions| && actions[i].Finish?
  }

  lemma FinishAtEnd<E>(actions: seq<Action<E>>, last: Action<E>)
    ensures HasFinish(actions + [last]) <==> HasFinish(actions) || last.Finish?
  {
    var all := actions + [last];
    assert all[|actions|] == last;
    assert forall i | 0 <= i < |actions| :: all[i] == actions[i];
  }

  lemma StepAccepts<E>(q: Queue<E>, a: Action<E>)
    requires |q.buffer| <= |q.accepted|
    ensures Step(q, a).accepted == q.accepted + (if q.finished.None? && a.Enqueue? then [a.element] else [])
    ensures Step(q, a).finished.Some? <==> q.finished.Some? || a.Finish?
    ensures Step(q, a).limit == q.limit
  {
  }

  lemma AfterOneMore<E>(elements: seq<E>, limit: Option<nat>, actions: seq<Action<E>>)
    requires actions != []
    ensures var before := After(elements, limit, actions[..|actions| - 1]);
            After(elements, limit, actions) == Step(before, actions[|actions| - 1])
  {
  }

  /** The queue accepts exactly what was enqueued before it finished. */
  lemma {:induction false} AcceptsUntilFinished<E>(elements: seq<E>, limit: Option<nat>, actions: seq<Action<E>>)
    ensures var q := After(elements, limit, actions);
            && q.accepted == elements + Enqueued(actions)
            && (q.finished.Some? <==> HasFinish(actions))
            && q.limit == limit
    decreases |actions|
  {
    if actions == [] {
      assert elements + [] == elements;
    } else {
      var n := |actions| - 1;
      AcceptsUntilFinished(elements, limit, actions[..n]);
      AfterOneMore(elements, limit, actions);
      StepAccepts(After(elements, limit, actions[..n]), actions[n]);
      FinishAtEnd(actions[..n], actions[n]);
      assert actions[..n] + [actions[n]] == actions;
      if actions[n].Enqueue? {
        assert elements + (Enqueued(actions[..n]) + [actions[n].element]) ==
               elements + Enqueued(actions[..n]) + [actions[n].element];
      }
    }
  }

  lemma {:induction false} IncreasingFromZero(positions: seq<nat>, n: nat)
    requires StrictlyIncreasing(positions) && |positions| == n
    requires forall i | 0 <= i < n :: positions[i] < n
    ensures forall i | 0 <= i < n :: positions[i] == i
    decreases n
  {
    if n > 0 {
      var rest := positions[..n - 1];
      forall i | 0 <= i < n - 1 ensures rest[i] < n - 1 {
        assert positions[i] < positions[n - 1];
      }
      IncreasingFromZero(rest, n - 1);
      assert n >= 2 ==> rest[n - 2] == positions[n - 2] == n - 2;
    }
  }

  /** A full queue drops its oldest element for a new one, and only then is anything dropped. */
  lemma EnqueueDropsOldest<E>(q: Queue<E>, element: E)
    requires Inv(q) && q.finished.None? && !q.waiting.Unresolved?
    ensures var u := EnqueueStep(q, element);
            if q.limit.None? || |q.buffer| < q.limit.value
            then u.buffer == q.buffer + [element] && u.lost == q.lost
            else u.buffer == (q.buffer + [element])[1..] && u.lost == q.lost + 1
  {
  }

  /** The queue holds the latest elements, as many as it may. */
  ghost predicate HoldsLatest<E>(q: Queue<E>) {
    && |q.buffer| == (if q.limit.Some? && q.limit.value < |q.accepted| then q.limit.value else |q.accepted|)
    && q.buffer == q.accepted[|q.accepted| - |q.buffer|..]
    && q.finished.None? && q.waiting.Nobody?
  }

  lemma EnqueueHoldsLatest<E>(q: Queue<E>, element: E)
    requires Inv(q) && HoldsLatest(q)
    ensures HoldsLatest(EnqueueStep(q, element))
  {
    EnqueueDropsOldest(q, element);
    EnqueueKeepsInv(q, element);
  }

  /** As long as nothing but elements come, that is so. */
  lemma {:induction false} LatestAreKept<E>(elements: seq<E>, limit: Option<nat>, actions: seq<Action<E>>)
    requires forall a <- actions :: a.Enqueue?
    ensures var q := After(elements, limit, actions);
            HoldsLatest(q) && q.accepted == elements + Enqueued(actions) && q.limit == limit
    decreases |actions|
  {
    AcceptsUntilFinished(elements, limit, actions);
    if actions != [] {
      var n := |actions| - 1;
      assert actions[n] in actions;
      LatestAreKept(elements, limit, actions[..n]);
      AfterOneMore(elements, limit, actions);
      EnqueueHoldsLatest(After(elements, limit, actions[..n]), actions[n].element);
    }
  }

  /** Without overflow and clearing, what was handed over followed by what is buffered is everything that
      was accepted, in order; if moreover no consumer was cancelled, all of it but the element on its way
      has been returned to a caller. */
  lemma LosslessQueueKeepsEverything<E>(elements: seq<E>, limit: Option<nat>, actions: seq<Action<E>>)
    requires After(elements, limit, actions).lost == 0
    ensures var q := After(elements, limit, actions);
            && (forall i | 0 <= i < |q.handed| :: q.handed[i] == i)
            && elements + Enqueued(actions) == q.accepted[..|q.handed|] + q.buffer
    ensures var q := After(elements, limit, actions);
            q.forsaken == {} ==>
              forall i | 0 <= i < |q.handed| :: i in q.returned || (q.waiting.Delivered? && q.waiting.position == i)
  {
    AcceptsUntilFinished(elements, limit, actions);
    LosslessState(After(elements, limit, actions));
  }

  lemma LosslessState<E>(q: Queue<E>)
    requires Inv(q) && q.lost == 0
    ensures forall i | 0 <= i < |q.handed| :: q.handed[i] == i
    ensures |q.handed| <= |q.accepted| && q.accepted == q.accepted[..|q.handed|] + q.buffer
    ensures q.forsaken == {} ==>
              forall i | 0 <= i < |q.handed| :: i in q.returned || (q.waiting.Delivered? && q.waiting.position == i)
  {
    IncreasingFromZero(q.handed, |q.handed|);
    forall i | 0 <= i < |q.handed| ensures i in Elements(q.handed) {
      assert q.handed[i] == i;
    }
  }

  /** An unbounded queue that is never cleared loses nothing, and without cancellation forsakes nothing. */
  lemma {:induction false} UnboundedQueueIsLossless<E>(elements: seq<E>, actions: seq<Action<E>>)
    requires forall i | 0 <= i < |actions| :: !actions[i].Clear?
    ensures After(elements, None, actions).lost == 0
    ensures (forall i | 0 <= i < |actions| :: !actions[i].CancelConsumer?) ==>
              After(elements, None, actions).forsaken == {}
    decreases |actions|
  {
    if actions != [] {
      var n := |actions| - 1;
      assert !actions[n].Clear?;
      UnboundedQueueIsLossless(elements, actions[..n]);
      AcceptsUntilFinished(elements, None, actions[..n]);
    }
  }

  /** `k` reads in a row. */
  ghost function ReadTimes<E>(q: Queue<E>, k: nat): (u: Queue<E>)
    requires |q.buffer| <= |q.accepted|
    ensures |u.buffer| <= |u.accepted|
  {
    if k == 0 then q else PendingNextStep(ReadTimes(q, k - 1))
  }

  /** Reading gives the buffer away element by element and in order. */
  lemma {:induction false} ReadsDrain<E>(q: Queue<E>, k: nat)
    requires k <= |q.buffer| <= |q.accepted|
    ensures var u := ReadTimes(q, k);
            && u.buffer == q.buffer[k..]
            && u.handed == q.handed + seq(k, i => |q.accepted| - |q.buffer| + i)
            && u == q.(buffer := u.buffer, handed := u.handed, returned := u.returned)
    decreases k
  {
    if k == 0 {
      assert q.handed + [] == q.handed;
    } else {
      ReadsDrain(q, k - 1);
      var base := |q.accepted| - |q.buffer|;
      assert q.handed + seq(k, i => base + i) == q.handed + seq(k - 1, i => base + i) + [base + k - 1];
    }
  }

  /** A finished queue is drained completely before the reason is raised: after as many reads as there are
      buffered elements nothing is buffered, all those elements were handed over, and only then do reads
      leave the queue unchanged. */
  lemma FinishedQueueDrains<E>(elements: seq<E>, limit: Option<nat>, actions: seq<Action<E>>)
    requires HasFinish(actions)
    ensures var q := After(elements, limit, actions);
            var u := ReadTimes(q, |q.buffer|);
            && q.finished.Some? && !q.waiting.Unresolved? && (q.waiting.Refused? ==> q.buffer == [])
            && u.buffer == [] && |u.handed| == |q.handed| + |q.buffer|
            && u.accepted == elements + Enqueued(actions) && |u.handed| + u.lost == |u.accepted|
            && PendingNextStep(u) == u == NextStep(u)
  {
    AcceptsUntilFinished(elements, limit, actions);
    var q := After(elements, limit, actions);
    ReadsDrain(q, |q.buffer|);
  }

  // ----- One consumer ---------------------------------------------------------------------------

  /** Elements that were accepted and neither handed over nor lost. */
  ghost function Owed<E>(q: Queue<E>): int {
    |q.accepted| - |q.handed| - q.lost
  }

  /** A caller of `__anext__` returns at once exactly when an element is owed and nobody else waits, and gets the
      oldest one that is owed; it waits exactly when nothing is owed and the queue was not finished. */
  lemma NextIff<E>(elements: seq<E>, limit: Option<nat>, actions: seq<Action<E>>)
    ensures var q := After(elements, limit, actions);
            && q.accepted == elements + Enqueued(actions)
            && (q.waiting.Nobody? && Owed(q) > 0 ==> TakesOldest(q, Step(q, Next)))
            && (q.waiting.Nobody? && Owed(q) == 0 && !HasFinish(actions) ==> Step(q, Next) == q.(waiting := Unresolved))
            && (!q.waiting.Nobody? || (Owed(q) == 0 && HasFinish(actions)) ==> Step(q, Next) == q)
  {
    AcceptsUntilFinished(elements, limit, actions);
    var q := After(elements, limit, actions);
    if q.waiting.Nobody? {
      NextTakesOldest(q);
    }
  }

  /** The oldest element owed is returned, and no longer owed. */
  ghost predicate TakesOldest<E>(q: Queue<E>, u: Queue<E>) {
    var oldest := |q.accepted| - Owed(q);
    && oldest !in q.returned && u.returned == q.returned + {oldest} && Owed(u) == Owed(q) - 1
    && |u.buffer| == |q.buffer| - 1 && u.waiting.Nobody?
    && u == q.(buffer := u.buffer, handed := u.handed, returned := u.returned)
  }

  lemma NextTakesOldest<E>(q: Queue<E>)
    requires Inv(q) && q.waiting.Nobody?
    ensures Owed(q) > 0 ==> TakesOldest(q, NextStep(q)) && NextStep(q) == PendingNextStep(q)
    ensures Owed(q) == 0 && q.finished.None? ==> NextStep(q) == q.(waiting := Unresolved)
    ensures Owed(q) == 0 && q.finished.Some? ==> NextStep(q) == q
  {
    if q.buffer != [] {
      assert |q.accepted| - |q.buffer| !in Elements(q.handed);
    }
  }

  /** Whoever waits is served by the next element or refused by the finish, and resumes with nobody waiting.  A
      cancelled one is resumed as well, and its element was not given to anybody. */
  lemma WaitingEnds<E>(q: Queue<E>, element: E, reason: Reason)
    requires Inv(q) && q.waiting.Unresolved?
    ensures var served := Step(q, Enqueue(element));
            && served.waiting == Delivered(element, |q.accepted|) && served.buffer == []
            && Step(served, Resume).returned == q.returned + {|q.accepted|} && Step(served, Resume).waiting.Nobody?
            && Step(Step(served, CancelConsumer), Resume).forsaken == q.forsaken + {|q.accepted|}
            && Step(Step(served, CancelConsumer), Resume).returned == q.returned
    ensures var refused := Step(q, Finish(reason));
            && refused.waiting == Refused(reason)
            && Step(refused, Resume) == refused.(waiting := Nobody)
    ensures Step(Step(q, CancelConsumer), Resume) == q.(waiting := Nobody)
    ensures Step(q, Resume) == q
  {
  }

  /** Clearing leaves nothing buffered, and everything that was as lost. */
  lemma ClearLosesBuffer<E>(q: Queue<E>)
    requires Inv(q)
    ensures Step(q, Clear).buffer == [] && Step(q, Clear).lost == q.lost + |q.buffer|
    ensures Step(q, Clear) == q.(buffer := [], lost := q.lost + |q.buffer|)
  {
  }
}
