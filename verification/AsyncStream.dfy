/**
The stream object itself: the deque of waiting producers, the slot of the waiting consumer and the finish
reason are updated in place, futures are resolved in place.
*/
module AsyncStream {
  import opened Wrappers
  import opened Streams

  /** The future of one suspended send; setting the result of a cancelled one raises. */
  class Consumption {
    ghost const ticket: nat
    var resolved: bool
    var cancelled: bool

    constructor (ghost ticket: nat)
      ensures this.ticket == ticket && !resolved && !cancelled
    {
      this.ticket, resolved, cancelled := ticket, false, false;
    }
  }

  ghost predicate Says(future: Consumption, ticket: Ticket)
    reads future
  {
    && (future.cancelled <==> ticket.status.Withdrawn?)
    && (future.resolved <==> ticket.status.Consumed? || ticket.status.Released?)
  }

  ghost predicate AllSay(futures: seq<Consumption>, tickets: seq<Ticket>)
    reads futures
  {
    && |futures| == |tickets|
    && forall i | 0 <= i < |futures| :: futures[i].ticket == i && Says(futures[i], tickets[i])
  }

  /** The queue of the stream is the abstract one, with futures for tickets. */
  ghost predicate Matches<E>(pending: seq<(E, Consumption)>, entries: seq<Entry<E>>, futures: seq<Consumption>) {
    && |pending| == |entries|
    && forall j | 0 <= j < |pending| ::
         entries[j].ticket < |futures| && pending[j] == (entries[j].element, futures[entries[j].ticket])
  }

  datatype Pulled<+E> = Got(element: E) | Fails(reason: Reason) | InvalidState | Suspended | Reused

  class AsyncStream<E> {
    var pending: seq<(E, Consumption)>
    var waiting: Waiting<E>
    var finishReason: Option<Reason>
    /** The futures of all suspended sends, and the abstract state. */
    ghost var futures: seq<Consumption>
    ghost var state: Stream<E>

    ghost predicate Valid()
      reads this, futures
    {
      && Inv(state)
      && waiting == state.waiting && finishReason == state.finished
      && AllSay(futures, state.tickets)
      && Matches(pending, state.pending, futures)
    }

    constructor ()
      ensures Valid() && state == Fresh() && futures == []
    {
      pending, waiting, finishReason := [], Nobody, None;
      futures, state := [], Fresh();
    }

    /** `send`: the returned future is the one to wait for, if the send suspends. */
    method Send(element: E) returns (consumed: Option<Consumption>)
      requires Valid()
      modifies this
      ensures Valid() && state == SendStep(old(state), element)
      ensures consumed.Some? <==> Suspends(old(state))
      ensures consumed.Some? ==> fresh(consumed.value) && futures == old(futures) + [consumed.value]
      ensures consumed.None? ==> futures == old(futures)
    {
      SendKeepsInv(state, element);
      consumed := None;
      if finishReason.Some? {
        return;
      }
      if waiting.Unresolved? {
        waiting := Delivered(element);
      } else {
        var future := Queue(element);
        consumed := Some(future);
      }
      state := SendStep(state, element);
    }

    /** A new future is queued with the element. */
    method Queue(element: E) returns (future: Consumption)
      requires AllSay(futures, state.tickets) && Matches(pending, state.pending, futures)
      modifies this`pending, this`futures
      ensures fresh(future) && futures == old(futures) + [future]
      ensures AllSay(futures, state.tickets + [Ticket(Open, |state.sent|)])
      ensures Matches(pending, state.pending + [Entry(element, |state.tickets|)], futures)
    {
      future := new Consumption(|futures|);
      pending := pending + [(element, future)];
      futures := futures + [future];
    }

    /** The loop of `finish`; it fails at the first suspended send that was cancelled. */
    method ReleasePending() returns (failed: bool)
      requires Valid()
      modifies this`pending, futures
      ensures failed <==> FirstWithdrawn(state) < |state.pending|
      ensures pending == if failed then old(pending)[FirstWithdrawn(state) + 1..] else []
      ensures forall i | 0 <= i < |futures| ::
                && futures[i].cancelled == old(futures[i].cancelled)
                && (futures[i].resolved <==>
                      old(futures[i].resolved) || i in TicketsOf(state.pending[..FirstWithdrawn(state)]))
    {
      ghost var first := FirstWithdrawn(state);
      ghost var k := 0;
      while pending != []
        invariant k <= first && pending == old(pending)[k..]
        invariant forall i | 0 <= i < |futures| ::
                    && futures[i].cancelled == old(futures[i].cancelled)
                    && (futures[i].resolved <==> old(futures[i].resolved) || i in TicketsOf(state.pending[..k]))
        decreases |pending|
      {
        var future := pending[0].1;
        assert future == futures[state.pending[k].ticket];
        assert future.cancelled <==> IsWithdrawn(state, k);
        pending := pending[1..];
        if future.cancelled {
          assert k == first;
          return true;
        }
        future.resolved := true;
        k := k + 1;
        OneMoreTicket(state.pending, k);
      }
      return false;
    }

    /** The same in terms of tickets. */
    method ReleaseQueued() returns (failed: bool)
      requires Valid()
      modifies this`pending, futures
      ensures failed <==> FirstWithdrawn(state) < |state.pending|
      ensures AllSay(futures, AfterReleasing(state, FirstWithdrawn(state)))
      ensures Matches(pending, if failed then state.pending[FirstWithdrawn(state) + 1..] else [], futures)
    {
      failed := ReleasePending();
      NoneWithdrawnBefore(state);
      forall i | 0 <= i < |futures| ensures Says(futures[i], AfterReleasing(state, FirstWithdrawn(state))[i]) {
        assert old(Says(futures[i], state.tickets[i]));
      }
    }

    /** `finish`. */
    method Finish(reason: Reason) returns (failed: bool)
      requires Valid()
      modifies this, futures
      ensures Valid() && state == FinishStep(old(state), reason) && futures == old(futures)
      ensures failed <==> old(state).finished.None? && FirstWithdrawn(old(state)) < |old(state).pending|
    {
      if finishReason.Some? {
        return false;
      }
      failed := ReleaseQueued();
      Conclude(reason, failed);
    }

    /** The rest of it, after the loop. */
    method Conclude(reason: Reason, failed: bool)
      requires Inv(state) && waiting == state.waiting && finishReason == state.finished == None
      requires failed <==> FirstWithdrawn(state) < |state.pending|
      requires AllSay(futures, AfterReleasing(state, FirstWithdrawn(state)))
      requires Matches(pending, if failed then state.pending[FirstWithdrawn(state) + 1..] else [], futures)
      modifies this`waiting, this`finishReason, this`state
      ensures Valid() && state == FinishStep(old(state), reason)
    {
      FinishEffect(state, reason);
      finishReason := Some(reason);
      if !failed && waiting.Unresolved? {
        waiting := Refused(reason);
      }
      state := FinishStep(state, reason);
    }

    /** `__anext__` up to its suspension; a read that meets a cancelled send drops it and fails. */
    method Next() returns (pulled: Pulled<E>)
      requires Valid()
      modifies this, futures
      ensures Valid() && state == NextStep(old(state)) && futures == old(futures)
      ensures pulled == match old(state.waiting)
                        case Nobody =>
                          if old(state.finished).Some? then Fails(old(state.finished).value)
                          else if old(state.pending) == [] then Suspended
                          else if IsWithdrawn(old(state), 0) then InvalidState
                          else Got(old(state.pending)[0].element)
                        case _ => Reused
    {
      NextKeepsInv(state);
      if !waiting.Nobody? {
        return Reused;
      }
      if finishReason.Some? {
        return Fails(finishReason.value);
      }
      if pending != [] {
        ghost var ticket := state.pending[0].ticket;
        NoTicketTwice(state);
        var (element, future) := pending[0];
        pending := pending[1..];
        state := NextStep(state);
        if future.cancelled {
          pulled := InvalidState;
        } else {
          future.resolved := true;
          pulled := Got(element);
        }
        return;
      }
      waiting := Unresolved;
      state := NextStep(state);
      return Suspended;
    }

    /** The consumer is resumed by the loop; when it was cancelled it finishes the stream, which may fail. */
    method Resume() returns (pulled: Pulled<E>)
      requires Valid() && !waiting.Nobody?
      modifies this, futures
      ensures Valid() && state == ResumeStep(old(state)) && futures == old(futures)
      ensures pulled == match old(state.waiting)
                        case Delivered(element) => Got(element)
                        case Refused(reason) => Fails(reason)
                        case Interrupted =>
                          if old(state).finished.None? && FirstWithdrawn(old(state)) < |old(state).pending|
                          then InvalidState else Fails(Cancelled)
                        case _ => Suspended
    {
      ResumeKeepsInv(state);
      match waiting
      case Unresolved =>
        pulled := Suspended;
      case Delivered(element) =>
        pulled := Got(element);
        state := ResumeStep(state);
        waiting := Nobody;
      case Refused(reason) =>
        pulled := Fails(reason);
        state := ResumeStep(state);
        waiting := Nobody;
      case Interrupted =>
        var failed := Finish(Cancelled);
        pulled := if failed then InvalidState else Fails(Cancelled);
        state := ResumeStep(old(state));
        waiting := Nobody;
    }

    /** The task of a suspended send is cancelled, and with it the future. */
    method Withdraw(consumed: Consumption)
      requires Valid() && consumed.ticket < |futures| && futures[consumed.ticket] == consumed
      modifies this`state, consumed`cancelled
      ensures Valid() && state == WithdrawStep(old(state), consumed.ticket) && futures == old(futures)
    {
      WithdrawKeepsInv(state, consumed.ticket);
      if !consumed.resolved {
        consumed.cancelled := true;
      }
      state := WithdrawStep(state, consumed.ticket);
    }

    /** The task of the suspended consumer is cancelled. */
    method Interrupt()
      requires Valid()
      modifies this
      ensures Valid() && state == InterruptStep(old(state)) && futures == old(futures)
    {
      StepKeepsInv(state, Action.Interrupt);
      if !waiting.Nobody? {
        waiting := Interrupted;
      }
      state := InterruptStep(state);
    }
  }

  lemma NoTicketTwice<E>(s: Stream<E>)
    requires Inv(s)
    ensures forall i, j | 0 <= i < j < |s.pending| :: s.pending[i].ticket != s.pending[j].ticket
  {
    forall i, j | 0 <= i < j < |s.pending| ensures s.pending[i].ticket != s.pending[j].ticket {
      assert s.tickets[s.pending[i].ticket].position == Base(s) + i;
      assert s.tickets[s.pending[j].ticket].position == Base(s) + j;
    }
  }

  lemma FinishEffect<E>(s: Stream<E>, reason: Reason)
    requires Inv(s) && s.finished.None?
    ensures var u, first := FinishStep(s, reason), FirstWithdrawn(s);
            && Inv(u)
            && u.finished == Some(reason)
            && u.waiting == (if first == |s.pending| && s.waiting.Unresolved? then Refused(reason) else s.waiting)
            && u.pending == (if first < |s.pending| then s.pending[first + 1..] else [])
            && u.tickets == AfterReleasing(s, first)
  {
    FinishKeepsInv(s, reason);
  }

  /** The tickets after the first `k` queued sends were released. */
  ghost function AfterReleasing<E>(s: Stream<E>, k: nat): (tickets: seq<Ticket>)
    requires k <= |s.pending|
    ensures |tickets| == |s.tickets|
  {
    Release(s.tickets, TicketsOf(s.pending[..k]))
  }

  lemma NoneWithdrawnBefore<E>(s: Stream<E>)
    requires Inv(s)
    ensures forall i <- TicketsOf(s.pending[..FirstWithdrawn(s)]) :: i < |s.tickets| && !s.tickets[i].status.Withdrawn?
  {
    forall i <- TicketsOf(s.pending[..FirstWithdrawn(s)])
      ensures i < |s.tickets| && !s.tickets[i].status.Withdrawn?
    {
      var j :| 0 <= j < FirstWithdrawn(s) && s.pending[..FirstWithdrawn(s)][j].ticket == i;
      assert !IsWithdrawn(s, j);
    }
  }

  lemma OneMoreTicket<E>(pending: seq<Entry<E>>, k: nat)
    requires 0 < k <= |pending|
    ensures TicketsOf(pending[..k]) == TicketsOf(pending[..k - 1]) + {pending[k - 1].ticket}
  {
    assert pending[..k] == pending[..k - 1] + [pending[k - 1]];
    forall t | t in TicketsOf(pending[..k - 1]) + {pending[k - 1].ticket} ensures t in TicketsOf(pending[..k]) {
      if t == pending[k - 1].ticket {
        assert pending[..k][k - 1].ticket == t;
      } else {
        var j :| 0 <= j < k - 1 && pending[..k - 1][j].ticket == t;
        assert pending[..k][j].ticket == t;
      }
    }
  }
}
