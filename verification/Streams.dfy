/**
The flow-controlled stream: producers hand elements over one by one to a single consumer and wait until
an element is taken.  Steps are what happens between two suspension points of the event loop; a send
that suspends holds a ticket, the consumer that suspends holds the waiting slot.  Suspended tasks can be
cancelled.
*/
module Streams {
  import opened Wrappers

  /** The future a consumer waits on; a resolved one stays until the consumer is resumed.  It is interrupted
      when the consumer was cancelled meanwhile. */
  datatype Waiting<+E> = Nobody | Unresolved | Delivered(element: E) | Refused(reason: Reason) | Interrupted

  /** The future a suspended send waits on, and the position of its element among all sends.  It is withdrawn
      when the producer was cancelled. */
  datatype Status = Open | Consumed | Released | Withdrawn
  datatype Ticket = Ticket(status: Status, position: nat)

  datatype Entry<+E> = Entry(element: E, ticket: nat)

  /** `pending`, `waiting` and `finished` are the fields of the stream.  The logs record the accepted
      sends, how many of them have left the stream by a delivery or a read, the elements handed to the
      consumer, those the consumer has returned with, the positions of withdrawn sends, and the elements
      delivered to a consumer that was cancelled before it ran. */
  datatype Stream<+E> = Stream(
    pending: seq<Entry<E>>,
    waiting: Waiting<E>,
    finished: Option<Reason>,
    tickets: seq<Ticket>,
    sent: seq<E>,
    taken: nat,
    handed: seq<E>,
    received: seq<E>,
    withdrawn: set<nat>,
    forsaken: seq<E>)

  /** `Withdraw` cancels a suspended producer, `Interrupt` the suspended consumer. */
  datatype Action<+E> = Send(element: E) | Finish(reason: Reason) | Next | Resume | Withdraw(ticket: nat) | Interrupt

  function Fresh<E>(): Stream<E> {
    Stream([], Nobody, None, [], [], 0, [], [], {}, [])
  }

  // ----- The code -------------------------------------------------------------------------------

  /** `send` up to its suspension: discarded, delivered to a waiting consumer, or queued. */
  function SendStep<E>(s: Stream<E>, element: E): Stream<E> {
    if s.finished.Some? then s
    else if s.waiting.Unresolved? then
      s.(waiting := Delivered(element),
         sent := s.sent + [element],
         taken := s.taken + 1,
         handed := s.handed + [element])
    else
      s.(pending := s.pending + [Entry(element, |s.tickets|)],
         tickets := s.tickets + [Ticket(Open, |s.sent|)],
         sent := s.sent + [element])
  }

  /** Whether that send suspends. */
  predicate Suspends<E>(s: Stream<E>) {
    s.finished.None? && !s.waiting.Unresolved?
  }

  predicate Queued<E>(s: Stream<E>) {
    forall j | 0 <= j < |s.pending| :: s.pending[j].ticket < |s.tickets|
  }

  predicate IsWithdrawn<E>(s: Stream<E>, j: nat)
    requires Queued(s) && j < |s.pending|
  {
    s.tickets[s.pending[j].ticket].status.Withdrawn?
  }

  /** The position of the first withdrawn send in the queue, or the length of the queue. */
  function FirstWithdrawn<E>(s: Stream<E>, from: nat := 0): (k: nat)
    requires Queued(s) && from <= |s.pending|
    ensures from <= k <= |s.pending|
    ensures forall j | from <= j < k :: !IsWithdrawn(s, j)
    ensures k < |s.pending| ==> IsWithdrawn(s, k)
    decreases |s.pending| - from
  {
    if from == |s.pending| || IsWithdrawn(s, from) then from else FirstWithdrawn(s, from + 1)
  }

  function Release(tickets: seq<Ticket>, entries: set<nat>): seq<Ticket> {
    seq(|tickets|, i requires 0 <= i < |tickets| =>
      if i in entries then tickets[i].(status := Released) else tickets[i])
  }

  function TicketsOf<E>(entries: seq<Entry<E>>): set<nat> {
    set j | 0 <= j < |entries| :: entries[j].ticket
  }

  /** `finish`: releasing a withdrawn send raises, and leaves everything behind it as it is. */
  function FinishStep<E>(s: Stream<E>, reason: Reason): Stream<E>
    requires Queued(s)
  {
    if s.finished.Some? then s
    else
      var k := FirstWithdrawn(s);
      var released := s.(finished := Some(reason), tickets := Release(s.tickets, TicketsOf(s.pending[..k])));
      if k < |s.pending| then released.(pending := s.pending[k + 1..])
      else released.(pending := [], waiting := if s.waiting.Unresolved? then Refused(reason) else s.waiting)
  }

  /** `__anext__` up to its suspension.  With a consumer already waiting the code's assertion fails; a withdrawn
      send at the front is dropped, and an error raised. */
  function NextStep<E>(s: Stream<E>): Stream<E>
    requires Queued(s)
  {
    if !s.waiting.Nobody? || s.finished.Some? then s
    else if s.pending != [] then
      var Entry(element, ticket) := s.pending[0];
      var popped := s.(pending := s.pending[1..], taken := s.taken + 1);
      if IsWithdrawn(s, 0) then popped
      else
        popped.(tickets := s.tickets[ticket := s.tickets[ticket].(status := Consumed)],
                handed := s.handed + [element], received := s.received + [element])
    else s.(waiting := Unresolved)
  }

  /** The consumer continues after its future was resolved, or its task cancelled. */
  function ResumeStep<E>(s: Stream<E>): Stream<E>
    requires Queued(s)
  {
    match s.waiting
    case Delivered(element) => s.(waiting := Nobody, received := s.received + [element])
    case Refused(_) => s.(waiting := Nobody)
    case Interrupted => FinishStep(s, Cancelled).(waiting := Nobody)
    case _ => s
  }

  /** Cancelling the task of a suspended send cancels its future; later it makes no difference to the stream. */
  function WithdrawStep<E>(s: Stream<E>, ticket: nat): Stream<E> {
    if ticket < |s.tickets| && s.tickets[ticket].status.Open? then
      s.(tickets := s.tickets[ticket := s.tickets[ticket].(status := Withdrawn)],
         withdrawn := s.withdrawn + {s.tickets[ticket].position})
    else s
  }

  /** Cancelling the task of the suspended consumer: what its future was resolved with is lost. */
  function InterruptStep<E>(s: Stream<E>): Stream<E> {
    match s.waiting
    case Nobody => s
    case Delivered(element) => s.(waiting := Interrupted, forsaken := s.forsaken + [element])
    case _ => s.(waiting := Interrupted)
  }

  function Step<E>(s: Stream<E>, a: Action<E>): Stream<E>
    requires Queued(s)
  {
    match a
    case Send(element) => SendStep(s, element)
    case Finish(reason) => FinishStep(s, reason)
    case Next => NextStep(s)
    case Resume => ResumeStep(s)
    case Withdraw(ticket) => WithdrawStep(s, ticket)
    case Interrupt => InterruptStep(s)
  }

  // ----- The invariant --------------------------------------------------------------------------

  /** The first `n` sends without the withdrawn ones. */
  ghost function Without<E>(sent: seq<E>, withdrawn: set<nat>, n: nat): seq<E>
    requires n <= |sent|
  {
    if n == 0 then []
    else Without(sent, withdrawn, n - 1) + (if n - 1 in withdrawn then [] else [sent[n - 1]])
  }

  /** Nothing is lost, repeated or reordered between a send and the consumer, but what was withdrawn before
      it was taken, and one element when the consumer is cancelled. */
  ghost predicate Handoff<E>(s: Stream<E>) {
    && s.taken <= |s.sent|
    && s.handed == Without(s.sent, s.withdrawn, s.taken)
    && (s.finished.None? ==> s.taken + |s.pending| == |s.sent|)
    && (s.finished.None? ==> forall j | 0 <= j < |s.pending| :: s.pending[j].element == s.sent[s.taken + j])
    && s.handed == s.received + Underway(s) + s.forsaken
    && |s.forsaken| <= 1
    && (s.forsaken != [] ==> s.waiting.Interrupted? || (s.waiting.Nobody? && s.finished.Some?))
  }

  /** The element that a resumed consumer is about to return with. */
  function Underway<E>(s: Stream<E>): seq<E> {
    if s.waiting.Delivered? then [s.waiting.element] else []
  }

  /** The position of the first queued send. */
  ghost function Base<E>(s: Stream<E>): int {
    |s.sent| - |s.pending|
  }

  /** What the future of a suspended send says.  In a finished stream those behind a withdrawn one stay open. */
  ghost predicate RightStatus<E>(s: Stream<E>, i: nat)
    requires i < |s.tickets|
  {
    var Ticket(status, position) := s.tickets[i];
    && position < |s.sent|
    && (status.Withdrawn? <==> position in s.withdrawn)
    && (status.Consumed? ==> position < s.taken)
    && (status.Released? ==> s.finished.Some? && s.taken <= position < Base(s))
    && (status.Open? ==> Base(s) <= position)
    && (position < s.taken ==> status.Consumed? || status.Withdrawn?)
    && (Base(s) <= position ==> status.Open? || status.Withdrawn?)
  }

  ghost predicate Tickets<E>(s: Stream<E>) {
    && s.taken <= Base(s)
    && (forall i | 0 <= i < |s.tickets| :: RightStatus(s, i))
    && (forall j | 0 <= j < |s.pending| ::
          && s.pending[j].ticket < |s.tickets|
          && s.tickets[s.pending[j].ticket].position == Base(s) + j)
    && (forall i, j {:trigger InOrder(s.tickets, i, j)} | 0 <= i < j < |s.tickets| :: InOrder(s.tickets, i, j))
    && (forall p <- s.withdrawn :: p < |s.sent|)
  }

  ghost predicate InOrder(tickets: seq<Ticket>, i: nat, j: nat)
    requires i < |tickets| && j < |tickets|
  {
    tickets[i].position < tickets[j].position
  }

  ghost predicate Inv<E>(s: Stream<E>) {
    && Handoff(s)
    && Tickets(s)
    && (s.waiting.Unresolved? ==> s.finished.None? && s.pending == [])
    && (s.waiting.Refused? ==> s.finished == Some(s.waiting.reason))
  }

  /** A waiting consumer and a suspended producer never coexist. */
  lemma NoMutualWaiting<E>(s: Stream<E>, i: nat)
    requires Inv(s) && i < |s.tickets|
    ensures !(s.waiting.Unresolved? && s.tickets[i].status.Open?)
  {
    assert RightStatus(s, i);
  }

  lemma {:induction false} WithoutMore<E>(sent: seq<E>, more: seq<E>, withdrawn: set<nat>, n: nat)
    requires n <= |sent| && sent <= more
    ensures Without(sent, withdrawn, n) == Without(more, withdrawn, n)
  {
    if n > 0 {
      WithoutMore(sent, more, withdrawn, n - 1);
    }
  }

  /** What is withdrawn later makes no difference to the sends before it. */
  lemma {:induction false} WithoutLater<E>(sent: seq<E>, withdrawn: set<nat>, position: nat, n: nat)
    requires n <= |sent| && n <= position
    ensures Without(sent, withdrawn, n) == Without(sent, withdrawn + {position}, n)
  {
    if n > 0 {
      WithoutLater(sent, withdrawn, position, n - 1);
    }
  }

  lemma {:induction false} WithoutNone<E>(sent: seq<E>, n: nat)
    requires n <= |sent|
    ensures Without(sent, {}, n) == sent[..n]
  {
    if n > 0 {
      WithoutNone(sent, n - 1);
      assert sent[..n] == sent[..n - 1] + [sent[n - 1]];
    }
  }

  lemma SendKeepsInv<E>(s: Stream<E>, element: E)
    requires Inv(s)
    ensures Inv(SendStep(s, element))
  {
    var u := SendStep(s, element);
    if s.finished.None? {
      WithoutMore(s.sent, u.sent, s.withdrawn, s.taken);
      forall i | 0 <= i < |u.tickets| ensures RightStatus(u, i) {
        assert i < |s.tickets| ==> RightStatus(s, i);
      }
      forall i, j | 0 <= i < j < |u.tickets| ensures InOrder(u.tickets, i, j) {
        assert RightStatus(s, i);
        assert j < |s.tickets| ==> InOrder(s.tickets, i, j);
      }
    }
  }

  /** The queued sends that are not withdrawn are exactly the open ones. */
  lemma OpenIsPending<E>(s: Stream<E>, i: nat) returns (j: nat)
    requires Inv(s) && i < |s.tickets| && Base(s) <= s.tickets[i].position
    ensures j < |s.pending| && s.pending[j].ticket == i && s.tickets[i].position == Base(s) + j
  {
    assert RightStatus(s, i);
    j := s.tickets[i].position - Base(s);
    var k := s.pending[j].ticket;
    assert s.tickets[k].position == s.tickets[i].position;
    assert k < i ==> InOrder(s.tickets, k, i);
    assert i < k ==> InOrder(s.tickets, i, k);
  }

  lemma FinishKeepsInv<E>(s: Stream<E>, reason: Reason)
    requires Inv(s)
    ensures Inv(FinishStep(s, reason))
  {
    if s.finished.None? {
      var u := FinishStep(s, reason);
      forall i | 0 <= i < |u.tickets| ensures RightStatus(u, i) {
        StatusWhenFinished(s, reason, i);
      }
      forall i, j | 0 <= i < j < |u.tickets| ensures InOrder(u.tickets, i, j) {
        assert InOrder(s.tickets, i, j);
      }
    }
  }

  lemma StatusWhenFinished<E>(s: Stream<E>, reason: Reason, i: nat)
    requires Inv(s) && s.finished.None? && i < |s.tickets|
    ensures RightStatus(FinishStep(s, reason), i)
  {
    var k := FirstWithdrawn(s);
    assert RightStatus(s, i);
    if s.taken <= s.tickets[i].position {
      var j := OpenIsPending(s, i);
      if j < k {
        assert !IsWithdrawn(s, j) && s.pending[..k][j].ticket == i;
      } else {
        NotReleased(s, i, j, k);
      }
    } else {
      NotQueued(s, i, k);
    }
  }

  lemma NotReleased<E>(s: Stream<E>, i: nat, j: nat, k: nat)
    requires Inv(s) && i < |s.tickets| && k <= j < |s.pending| && s.tickets[i].position == Base(s) + j
    ensures i !in TicketsOf(s.pending[..k])
  {
    forall l | 0 <= l < k ensures s.pending[..k][l].ticket != i {
      assert s.tickets[s.pending[l].ticket].position == Base(s) + l;
    }
  }

  lemma NotQueued<E>(s: Stream<E>, i: nat, k: nat)
    requires Inv(s) && i < |s.tickets| && k <= |s.pending| && s.tickets[i].position < Base(s)
    ensures i !in TicketsOf(s.pending[..k])
  {
    forall l | 0 <= l < k ensures s.pending[..k][l].ticket != i {
      assert s.tickets[s.pending[l].ticket].position == Base(s) + l;
    }
  }

  lemma NextKeepsInv<E>(s: Stream<E>)
    requires Inv(s)
    ensures Inv(NextStep(s))
  {
    var u := NextStep(s);
    if s.waiting.Nobody? && s.finished.None? && s.pending != [] {
      var ticket := s.pending[0].ticket;
      assert s.tickets[ticket].position == s.taken && RightStatus(s, ticket);
      forall i | 0 <= i < |u.tickets| ensures RightStatus(u, i) {
        assert RightStatus(s, i);
        assert i < ticket ==> InOrder(s.tickets, i, ticket);
        assert ticket < i ==> InOrder(s.tickets, ticket, i);
      }
      forall i, j | 0 <= i < j < |u.tickets| ensures InOrder(u.tickets, i, j) {
        assert InOrder(s.tickets, i, j);
      }
    } else {
      SameTickets(s, u);
    }
  }

  lemma WithdrawKeepsInv<E>(s: Stream<E>, ticket: nat)
    requires Inv(s)
    ensures Inv(WithdrawStep(s, ticket))
  {
    if ticket < |s.tickets| && s.tickets[ticket].status.Open? {
      var u := WithdrawStep(s, ticket);
      assert RightStatus(s, ticket);
      WithoutLater(s.sent, s.withdrawn, s.tickets[ticket].position, s.taken);
      forall i | 0 <= i < |u.tickets| ensures RightStatus(u, i) {
        assert RightStatus(s, i);
        assert i < ticket ==> InOrder(s.tickets, i, ticket);
        assert ticket < i ==> InOrder(s.tickets, ticket, i);
      }
      forall i, j | 0 <= i < j < |u.tickets| ensures InOrder(u.tickets, i, j) {
        assert InOrder(s.tickets, i, j);
      }
    }
  }

  lemma ResumeKeepsInv<E>(s: Stream<E>)
    requires Inv(s)
    ensures Inv(ResumeStep(s))
  {
    if s.waiting.Interrupted? {
      FinishKeepsInv(s, Cancelled);
    }
    SameTickets(s, s.(waiting := Nobody));
    SameTickets(if s.waiting.Interrupted? then FinishStep(s, Cancelled) else s, ResumeStep(s));
  }

  lemma SameTickets<E>(s: Stream<E>, u: Stream<E>)
    requires Tickets(s) && u.tickets == s.tickets && u.sent == s.sent && u.pending == s.pending
    requires u.taken == s.taken && u.withdrawn == s.withdrawn && u.finished == s.finished
    ensures Tickets(u)
  {
    forall i | 0 <= i < |u.tickets| ensures RightStatus(u, i) {
      assert RightStatus(s, i);
    }
  }

  lemma StepKeepsInv<E>(s: Stream<E>, a: Action<E>)
    requires Inv(s)
    ensures Inv(Step(s, a))
  {
    match a
    case Send(element) => SendKeepsInv(s, element);
    case Finish(reason) => FinishKeepsInv(s, reason);
    case Next => NextKeepsInv(s);
    case Resume => ResumeKeepsInv(s);
    case Withdraw(ticket) => WithdrawKeepsInv(s, ticket);
    case Interrupt => SameTickets(s, InterruptStep(s));
  }

  // ----- Runs -----------------------------------------------------------------------------------

  ghost function After<E>(actions: seq<Action<E>>): (s: Stream<E>)
    ensures Inv(s)
  {
    if actions == [] then Fresh()
    else
      var before, last := After(actions[..|actions| - 1]), actions[|actions| - 1];
      StepKeepsInv(before, last);
      Step(before, last)
  }

  /** What the last action finishes an open stream with: a finish, or a cancelled consumer that goes on. */
  ghost function FinishedBy<E>(before: seq<Action<E>>, last: Action<E>): Option<Reason> {
    match last
    case Finish(reason) => Some(reason)
    case Resume => if After(before).waiting.Interrupted? then Some(Cancelled) else None
    case _ => None
  }

  /** The reason of the first finish, if any. */
  ghost function FirstFinish<E>(actions: seq<Action<E>>): Option<Reason> {
    if actions == [] then None
    else
      var before, last := actions[..|actions| - 1], actions[|actions| - 1];
      if FirstFinish(before).Some? then FirstFinish(before) else FinishedBy(before, last)
  }

  /** The elements sent before the first finish, in the order of arrival. */
  ghost function Sends<E>(actions: seq<Action<E>>): seq<E> {
    if actions == [] then []
    else
      var before, last := actions[..|actions| - 1], actions[|actions| - 1];
      Sends(before) + (if FirstFinish(before).None? && last.Send? then [last.element] else [])
  }

  /** Only a send to an open stream is accepted, and only the first finish counts. */
  lemma StepAccepts<E>(s: Stream<E>, a: Action<E>)
    requires Queued(s)
    ensures Step(s, a).sent == s.sent + (if s.finished.None? && a.Send? then [a.element] else [])
    ensures Step(s, a).finished ==
            if s.finished.Some? then s.finished
            else if a.Finish? then Some(a.reason)
            else if a.Resume? && s.waiting.Interrupted? then Some(Cancelled) else None
  {
  }

  lemma AfterOneMore<E>(actions: seq<Action<E>>)
    requires actions != []
    ensures var before := After(actions[..|actions| - 1]);
            Queued(before) && After(actions) == Step(before, actions[|actions| - 1])
  {
  }

  lemma OneMore<E>(before: seq<Action<E>>, last: Action<E>)
    ensures Queued(After(before)) && After(before + [last]) == Step(After(before), last)
  {
    assert (before + [last])[..|before|] == before;
  }

  lemma {:induction false} SendsAreAccepted<E>(actions: seq<Action<E>>)
    ensures After(actions).sent == Sends(actions)
    ensures After(actions).finished == FirstFinish(actions)
    decreases |actions|
  {
    if actions != [] {
      var n := |actions| - 1;
      SendsAreAccepted(actions[..n]);
      AfterOneMore(actions);
      StepAccepts(After(actions[..n]), actions[n]);
    }
  }

  /** Whatever the interleaving, and whoever is cancelled: what the consumer is handed is what was sent before
      the stream finished, in order, up to what is still queued, without the sends that were withdrawn
      from the queue; it is refused with the first reason only; and it returns with all it was handed, but for
      an element that is still under way, and one that is lost exactly when the consumer was cancelled while
      a delivery was under way. */
  lemma HandoffIsExact<E>(actions: seq<Action<E>>)
    ensures Handed(After(actions), Sends(actions), FirstFinish(actions))
    ensures After(actions).forsaken != [] <==> Forsakes(actions)
  {
    SendsAreAccepted(actions);
    ForsakenIff(actions);
    StateHandsOver(After(actions));
  }

  /** The consumer was cancelled after an element was delivered to it and before it returned with that. */
  ghost predicate Forsakes<E>(actions: seq<Action<E>>) {
    actions != [] &&
    var before, last := actions[..|actions| - 1], actions[|actions| - 1];
    Forsakes(before) || (last == Interrupt && After(before).waiting.Delivered?)
  }

  lemma {:induction false} ForsakenIff<E>(actions: seq<Action<E>>)
    ensures After(actions).forsaken != [] <==> Forsakes(actions)
    decreases |actions|
  {
    if actions != [] {
      var n := |actions| - 1;
      ForsakenIff(actions[..n]);
      AfterOneMore(actions);
      StepForsakes(After(actions[..n]), actions[n]);
    }
  }

  lemma StepForsakes<E>(s: Stream<E>, a: Action<E>)
    requires Queued(s)
    ensures Step(s, a).forsaken == s.forsaken + (if a == Interrupt then Underway(s) else [])
  {
  }

  ghost predicate Handed<E>(s: Stream<E>, sends: seq<E>, finish: Option<Reason>) {
    && s.finished == finish
    && s.taken <= |sends|
    && s.handed == Without(sends, s.withdrawn, s.taken)
    && (finish.None? ==> |s.pending| == |sends| - s.taken)
    && (finish.None? ==> forall j | 0 <= j < |s.pending| :: s.pending[j].element == sends[s.taken + j])
    && s.handed == s.received + Underway(s) + s.forsaken && |s.forsaken| <= 1
    && (s.waiting.Refused? ==> finish == Some(s.waiting.reason))
  }

  lemma StateHandsOver<E>(s: Stream<E>)
    requires Inv(s)
    ensures Handed(s, s.sent, s.finished)
  {
  }

  function Elements<E>(pending: seq<Entry<E>>): seq<E> {
    seq(|pending|, i requires 0 <= i < |pending| => pending[i].element)
  }

  /** What the consumer was handed, followed by what is queued in an open stream, is what was sent, and sends are
      suspended exactly as long as their elements are queued. */
  ghost predicate Exact<E>(s: Stream<E>) {
    && Queued(s)
    && s.handed <= s.sent
    && (if s.finished.None? then s.handed + Elements(s.pending) == s.sent else s.pending == [])
    && s.handed == s.received + (if s.waiting.Delivered? then [s.waiting.element] else [])
    && (forall i | 0 <= i < |s.tickets| ::
          && s.tickets[i].position < |s.sent|
          && (s.tickets[i].status.Consumed? <==> s.tickets[i].position < |s.handed|)
          && (s.tickets[i].status.Open? <==> s.tickets[i].position >= |s.handed| && s.finished.None?)
          && !s.tickets[i].status.Withdrawn?)
    && !s.waiting.Interrupted?
    && (s.waiting.Unresolved? ==> s.finished.None? && s.pending == [])
    && (s.waiting.Refused? ==> s.finished == Some(s.waiting.reason))
  }

  /** No cancellation has left its traces. */
  ghost predicate Plain<E>(s: Stream<E>) {
    s.withdrawn == {} && s.forsaken == [] && !s.waiting.Interrupted? && (s.finished.Some? ==> s.pending == [])
  }

  lemma ExactByLogs<E>(s: Stream<E>)
    requires Inv(s) && Plain(s)
    ensures Exact(s)
  {
    WithoutNone(s.sent, s.taken);
    forall i | 0 <= i < |s.tickets|
      ensures s.tickets[i].position < |s.sent|
      ensures s.tickets[i].status.Consumed? <==> s.tickets[i].position < |s.handed|
      ensures s.tickets[i].status.Open? <==> s.tickets[i].position >= |s.handed| && s.finished.None?
      ensures !s.tickets[i].status.Withdrawn?
    {
      assert RightStatus(s, i);
    }
    if s.finished.None? {
      assert s.handed + Elements(s.pending) == s.sent;
    }
  }

  ghost predicate NobodyCancelled<E>(actions: seq<Action<E>>) {
    forall a <- actions :: !a.Withdraw? && !a.Interrupt?
  }

  lemma {:induction false} NothingWithdrawn<E>(actions: seq<Action<E>>)
    requires NobodyCancelled(actions)
    ensures Plain(After(actions))
    decreases |actions|
  {
    if actions != [] {
      var n := |actions| - 1;
      assert actions[n] in actions;
      NothingWithdrawn(actions[..n]);
      AfterOneMore(actions);
      StepWithdrawsNothing(After(actions[..n]), actions[n]);
    }
  }

  lemma StepWithdrawsNothing<E>(s: Stream<E>, a: Action<E>)
    requires Inv(s) && Plain(s)
    requires !a.Withdraw? && !a.Interrupt?
    ensures Plain(Step(s, a))
  {
    forall j | 0 <= j < |s.pending| ensures !IsWithdrawn(s, j) {
      assert RightStatus(s, s.pending[j].ticket);
    }
    assert a.Finish? ==> FirstWithdrawn(s) == |s.pending|;
  }

  /** When nobody is cancelled the consumer is handed a prefix of the sends, and while the stream is open the
      queue is the rest of them. */
  lemma UncancelledHandoffIsExact<E>(actions: seq<Action<E>>)
    requires NobodyCancelled(actions)
    ensures Exact(After(actions)) && After(actions).sent == Sends(actions)
  {
    SendsAreAccepted(actions);
    NothingWithdrawn(actions);
    ExactByLogs(After(actions));
  }

  /** A state that the stream gets into when nobody is cancelled. */
  ghost predicate Undisturbed<E(!new)>(s: Stream<E>) {
    exists actions :: NobodyCancelled(actions) && After(actions) == s
  }

  lemma FreshIsUndisturbed<E(!new)>()
    ensures Undisturbed(Fresh<E>()) && Exact(Fresh<E>())
  {
    assert NobodyCancelled<E>([]) && After<E>([]) == Fresh();
  }

  lemma UndisturbedStep<E(!new)>(s: Stream<E>, a: Action<E>)
    requires Undisturbed(s) && !a.Withdraw? && !a.Interrupt?
    ensures Queued(s) && Undisturbed(Step(s, a)) && Exact(Step(s, a))
  {
    var actions :| NobodyCancelled(actions) && After(actions) == s;
    OneMore(actions, a);
    assert NobodyCancelled(actions + [a]);
    UncancelledHandoffIsExact(actions + [a]);
  }

  /** What a step leaves alone. */
  ghost predicate SameSends<E>(s: Stream<E>, u: Stream<E>) {
    && u.sent == s.sent && |u.tickets| == |s.tickets|
    && forall i | 0 <= i < |s.tickets| :: u.tickets[i].position == s.tickets[i].position
  }

  lemma ExactFinish<E>(s: Stream<E>, reason: Reason)
    requires Exact(s)
    ensures var u := FinishStep(s, reason);
            && SameSends(s, u) && u.handed == s.handed && u.received == s.received
            && u.finished == Some(if s.finished.Some? then s.finished.value else reason)
            && (s.waiting.Nobody? ==> u.waiting.Nobody?)
  {
  }

  lemma ExactRead<E>(s: Stream<E>)
    requires Exact(s)
    ensures var u := NextStep(s);
            SameSends(s, u) && s.handed <= u.handed && u.finished == s.finished && (s.finished.Some? ==> u == s)
    ensures var u := ResumeStep(s);
            && SameSends(s, u) && u.handed == s.handed && u.finished == s.finished
            && (s.waiting.Refused? ==> s.finished == Some(s.waiting.reason) && u.waiting.Nobody?)
  {
  }

  /** What the future of a suspended send tells its producer: it is resolved exactly when its own element
      was taken or the stream finished without taking it, unless the producer was cancelled before that. */
  lemma SuspendedSendsMeanWhatTheySay<E>(actions: seq<Action<E>>, i: nat)
    requires i < |After(actions).tickets|
    ensures var s, sends := After(actions), Sends(actions);
            var Ticket(status, position) := s.tickets[i];
            && position < |sends|
            && (status.Withdrawn? <==> position in s.withdrawn)
            && (status.Consumed? <==> position < s.taken && position !in s.withdrawn)
            && (status.Released? ==> s.taken <= position && FirstFinish(actions).Some?)
            && (status.Open? ==> exists j :: 0 <= j < |s.pending| && s.pending[j].ticket == i)
  {
    SendsAreAccepted(actions);
    var s := After(actions);
    assert RightStatus(s, i);
    if s.tickets[i].status.Open? {
      var j := OpenIsPending(s, i);
    }
  }

  // ----- Sends that are never released ----------------------------------------------------------

  /** A send is queued behind a withdrawn one. */
  ghost predicate StuckBehind<E>(s: Stream<E>, i: nat)
    requires Queued(s)
  {
    exists j, k :: 0 <= j < k < |s.pending| && IsWithdrawn(s, j) && !IsWithdrawn(s, k) && s.pending[k].ticket == i
  }

  /** Finishing an open stream leaves a send suspended if and only if it is queued behind a withdrawn one. */
  lemma FinishForgetsIff<E>(s: Stream<E>, reason: Reason, i: nat)
    requires Inv(s) && s.finished.None? && i < |s.tickets|
    ensures FinishStep(s, reason).tickets[i].status.Open? <==> StuckBehind(s, i)
  {
    var k := FirstWithdrawn(s);
    assert RightStatus(s, i);
    if s.tickets[i].status.Open? {
      var j := OpenIsPending(s, i);
      assert !IsWithdrawn(s, j);
      if j < k {
        assert s.pending[..k][j].ticket == i;
        forall l | 0 <= l < |s.pending| && s.pending[l].ticket == i ensures l == j {
          assert s.tickets[s.pending[l].ticket].position == Base(s) + l;
        }
      } else {
        NotReleased(s, i, j, k);
      }
    }
  }

  /** Such a send stays suspended for ever, whatever happens, unless it is cancelled itself. */
  lemma ForgottenForever<E>(s: Stream<E>, i: nat, a: Action<E>)
    requires Inv(s) && s.finished.Some? && i < |s.tickets| && s.tickets[i].status.Open?
    ensures i < |Step(s, a).tickets|
    ensures Step(s, a).finished.Some? && (Step(s, a).tickets[i].status.Open? <==> a != Withdraw(i))
  {
  }

  /** The stream in which some sends are suspended and nothing else has happened. */
  function Holding<E>(sent: seq<E>, statuses: seq<Status>, withdrawn: set<nat>): Stream<E>
    requires |sent| == |statuses|
  {
    Stream(seq(|sent|, i requires 0 <= i < |sent| => Entry(sent[i], i)), Nobody, None,
           seq(|sent|, i requires 0 <= i < |sent| => Ticket(statuses[i], i)), sent, 0, [], [], withdrawn, [])
  }

  lemma HoldOne<E>(first: E)
    ensures After([] + [Send(first)]) == Holding([first], [Open], {})
  {
    OneMore([], Send(first));
  }

  lemma HoldTwo<E>(first: E, second: E)
    ensures SendStep(Holding([first], [Open], {}), second) == Holding([first, second], [Open, Open], {})
    ensures WithdrawStep(Holding([first, second], [Open, Open], {}), 0) ==
            Holding([first, second], [Withdrawn, Open], {0})
  {
  }

  /** Two sends are suspended and the first is cancelled. */
  lemma SecondSendIsStuck<E>(first: E, second: E)
    ensures After([] + [Send(first)] + [Send(second)] + [Withdraw(0)]) ==
            Holding([first, second], [Withdrawn, Open], {0})
  {
    TwoAreHeld(first, second);
    HoldTwo(first, second);
    OneMore([] + [Send(first)] + [Send(second)], Withdraw(0));
  }

  lemma TwoAreHeld<E>(first: E, second: E)
    ensures After([] + [Send(first)] + [Send(second)]) == Holding([first, second], [Open, Open], {})
  {
    HoldOne(first);
    HoldTwo(first, second);
    OneMore([] + [Send(first)], Send(second));
  }

  /** When the stream finishes then, the second send is not released, and never will be. */
  lemma WithdrawnSendForgetsNext<E>(first: E, second: E)
    ensures var s := After([] + [Send(first)] + [Send(second)] + [Withdraw(0)] + [Finish(Exhausted)]);
            |s.tickets| == 2 && s.finished == Some(Exhausted) && s.tickets[1].status.Open?
  {
    SecondSendIsStuck(first, second);
    var before := [] + [Send(first)] + [Send(second)] + [Withdraw(0)];
    OneMore(before, Finish(Exhausted));
    var s := After(before);
    assert IsWithdrawn(s, 0) && !IsWithdrawn(s, 1) && s.pending[1].ticket == 1;
    FinishForgetsIff(s, Exhausted, 1);
  }

  // ----- Progress -------------------------------------------------------------------------------

  /** The tickets stay, but that of the send at the position, if it is open. */
  ghost predicate OnlyTicketAt<E>(s: Stream<E>, u: Stream<E>, position: nat, status: Status) {
    && |u.tickets| == |s.tickets|
    && forall i | 0 <= i < |s.tickets| ::
         u.tickets[i] == if s.tickets[i] == Ticket(Open, position) then Ticket(status, position) else s.tickets[i]
  }

  /** A consumer of an open stream returns with the first send that was not taken and was not withdrawn meanwhile,
      and resumes its producer; it fails over a withdrawn one, which is taken all the same; it waits exactly when
      everything sent is taken.  Nothing happens in a finished stream, or while another consumer waits. */
  lemma NextIff<E>(s: Stream<E>)
    requires Inv(s)
    ensures var u := NextStep(s);
            if s.finished.Some? || !s.waiting.Nobody? then u == s
            else if s.taken == |s.sent| then u == s.(waiting := Unresolved)
            else
              && u.taken == s.taken + 1 && u.waiting.Nobody? && u.finished.None?
              && u.received == s.received + (if s.taken in s.withdrawn then [] else [s.sent[s.taken]])
              && OnlyTicketAt(s, u, s.taken, Consumed) && u.withdrawn == s.withdrawn && u.sent == s.sent
  {
    if s.waiting.Nobody? && s.finished.None? && s.pending != [] {
      var ticket := s.pending[0].ticket;
      assert RightStatus(s, ticket);
      forall i | 0 <= i < |s.tickets|
        ensures NextStep(s).tickets[i] ==
                if s.tickets[i] == Ticket(Open, s.taken) then Ticket(Consumed, s.taken) else s.tickets[i]
      {
        assert RightStatus(s, i);
        assert i < ticket ==> InOrder(s.tickets, i, ticket);
        assert ticket < i ==> InOrder(s.tickets, ticket, i);
      }
    }
  }

  /** A send to an open stream suspends with a ticket of its own, unless a consumer waits, which is given it. */
  lemma SendIff<E>(s: Stream<E>, element: E)
    requires Inv(s)
    ensures var u := SendStep(s, element);
            if s.finished.Some? then u == s
            else if s.waiting.Unresolved? then
              && u.tickets == s.tickets && u.waiting == Delivered(element) && u.handed == s.handed + [element]
              && ResumeStep(u).received == s.received + [element] && ResumeStep(u).waiting.Nobody?
            else
              && u.tickets == s.tickets + [Ticket(Open, |s.sent|)] && u.waiting == s.waiting
              && u.handed == s.handed && u.taken == s.taken
  {
  }

  /** A waiting consumer is refused by a finish; when it is cancelled, it finishes the stream as cancelled. */
  lemma WaitingEnds<E>(s: Stream<E>, reason: Reason)
    requires Inv(s) && s.waiting.Unresolved?
    ensures var u := FinishStep(s, reason);
            u == s.(finished := Some(reason), waiting := Refused(reason)) && ResumeStep(u) == u.(waiting := Nobody)
    ensures var u := ResumeStep(InterruptStep(s));
            u == s.(finished := Some(Cancelled), waiting := Nobody)
  {
    assert s.tickets == Release(s.tickets, {});
    assert TicketsOf(s.pending) == {};
  }

  /** An element that is delivered to a consumer is lost when that is cancelled before it goes on. */
  lemma InterruptedDelivery<E>(s: Stream<E>, element: E)
    requires Inv(s) && s.waiting == Delivered(element)
    ensures var u := ResumeStep(InterruptStep(s));
            && u.received == s.received && u.forsaken == s.forsaken + [element] && u.waiting.Nobody?
            && u.finished == Some(if s.finished.Some? then s.finished.value else Cancelled)
  {
  }

  /** Exactly the suspended sends can be withdrawn. */
  lemma WithdrawIff<E>(s: Stream<E>, i: nat)
    requires Inv(s) && i < |s.tickets|
    ensures var u, position := WithdrawStep(s, i), s.tickets[i].position;
            if s.tickets[i].status.Open? then
              && u.withdrawn == s.withdrawn + {position} && OnlyTicketAt(s, u, position, Withdrawn)
              && u == s.(tickets := u.tickets, withdrawn := u.withdrawn)
            else u == s
  {
    forall j | 0 <= j < |s.tickets| && j != i ensures s.tickets[j].position != s.tickets[i].position {
      assert i < j ==> InOrder(s.tickets, i, j);
      assert j < i ==> InOrder(s.tickets, j, i);
    }
  }
}
