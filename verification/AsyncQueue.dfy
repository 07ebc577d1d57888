/**
The queue object itself: the bounded deque, the slot of the waiting consumer and the finish reason are
updated in place.  Each method is proved against the step functions of `Queues`.
*/
module AsyncQueue {
  import opened Wrappers
  import opened Queues

  /** The future in the `_waiting` field. */
  datatype Slot<+E> = Unset | Pending | Value(element: E) | Failure(reason: Reason) | CancelledSlot

  datatype Read<+E> = Got(element: E) | Raises(reason: Reason) | NothingYet | Suspended | Interrupted | Refusal

  ghost function SlotOf<E>(waiting: Waiting<E>): Slot<E> {
    match waiting
    case Nobody => Unset
    case Unresolved => Pending
    case Delivered(element, _) => Value(element)
    case Refused(reason) => Failure(reason)
    case Abandoned => CancelledSlot
  }

  class AsyncQueue<E> {
    var buffer: seq<E>
    var waiting: Slot<E>
    var finishReason: Option<Reason>
    const limit: Option<nat>
    ghost var state: Queue<E>

    ghost predicate Valid()
      reads this
    {
      && Inv(state)
      && buffer == state.buffer && finishReason == state.finished && limit == state.limit
      && waiting == SlotOf(state.waiting)
    }

    constructor (elements: seq<E>, limit: Option<nat>)
      requires limit.Some? ==> limit.value > 0
      ensures Valid() && state == Create(elements, limit)
    {
      this.limit := limit;
      buffer := Trim(elements, limit);
      waiting, finishReason := Unset, None;
      state := Create(elements, limit);
    }

    /** `enqueue`: false stands for the error raised on a finished queue. */
    method Enqueue(element: E) returns (accepted: bool)
      requires Valid()
      modifies this
      ensures Valid() && state == EnqueueStep(old(state), element)
      ensures accepted <==> old(state.finished).None?
    {
      EnqueueKeepsInv(state, element);
      if finishReason.Some? {
        return false;
      }
      if waiting.Pending? {
        waiting := Value(element);
      } else {
        buffer := buffer + [element];
        if limit.Some? && |buffer| > limit.value {
          buffer := buffer[1..];
        }
      }
      state := EnqueueStep(state, element);
      return true;
    }

    /** `finish`. */
    method Finish(reason: Reason)
      requires Valid()
      modifies this
      ensures Valid() && state == FinishStep(old(state), reason)
    {
      StepKeepsInv(state, Action.Finish(reason));
      if finishReason.Some? {
        return;
      }
      finishReason := Some(reason);
      if waiting.Pending? {
        waiting := Failure(reason);
      }
      state := FinishStep(state, reason);
    }

    /** `pending_next`. */
    method PendingNext() returns (read: Read<E>)
      requires Valid()
      modifies this
      ensures Valid() && state == PendingNextStep(old(state))
      ensures read == if old(state.buffer) != []
                      then Got(old(state.accepted)[|old(state.accepted)| - |old(state.buffer)|])
                      else if old(state.finished).Some? then Raises(old(state.finished).value)
                      else NothingYet
    {
      if buffer != [] {
        PopKeepsInv(state);
        read := Got(buffer[0]);
        buffer := buffer[1..];
        state := Pop(state);
      } else if finishReason.Some? {
        read := Raises(finishReason.value);
      } else {
        read := NothingYet;
      }
    }

    /** `__anext__` up to its suspension; a second consumer meets the assertion of the code. */
    method Next() returns (read: Read<E>)
      requires Valid()
      modifies this
      ensures Valid() && state == NextStep(old(state))
      ensures read == if !old(state.waiting).Nobody? then Refusal
                      else if old(state.buffer) != []
                      then Got(old(state.accepted)[|old(state.accepted)| - |old(state.buffer)|])
                      else if old(state.finished).Some? then Raises(old(state.finished).value)
                      else Suspended
    {
      if !waiting.Unset? {
        return Refusal;
      }
      if buffer != [] {
        PopKeepsInv(state);
        read := Got(buffer[0]);
        buffer := buffer[1..];
        state := Pop(state);
        return;
      }
      if finishReason.Some? {
        return Raises(finishReason.value);
      }
      StepKeepsInv(state, Action.Next);
      waiting := Pending;
      state := NextStep(state);
      return Suspended;
    }

    /** The waiting consumer is resumed by the loop. */
    method Resume() returns (read: Read<E>)
      requires Valid() && !waiting.Unset? && !waiting.Pending?
      modifies this
      ensures Valid() && state == ResumeStep(old(state))
      ensures match old(state.waiting)
              case Delivered(_, position) =>
                position < |old(state.accepted)| && read == Got(old(state.accepted)[position])
              case Refused(reason) => read == Raises(reason)
              case _ => read == Interrupted
    {
      StepKeepsInv(state, Action.Resume);
      match waiting {
        case Value(element) => read := Got(element);
        case Failure(reason) => read := Raises(reason);
        case CancelledSlot => read := Interrupted;
      }
      waiting := Unset;
      state := ResumeStep(state);
    }

    /** `clear`. */
    method Clear()
      requires Valid()
      modifies this
      ensures Valid() && state == ClearStep(old(state))
    {
      StepKeepsInv(state, Action.Clear);
      if !waiting.Pending? {
        buffer := [];
      }
      state := ClearStep(state);
    }
  }
}
