/**
Two sources merged through one stream.  Each source has a producer task that sends its items one by one;
the consumer reads the stream.  A schedule picks, step by step, which of the three tasks continues.
*/
module Merge {
  import opened Wrappers
  import opened Streams

  datatype Side = A | B {
    function Other(): Side { if A? then B else A }
  }

  /** A stream element together with the source it came from. */
  datatype Tagged<V> = Tagged(side: Side, value: V)

  datatype Phase = Running | Blocked(ticket: nat) | Done

  /** A source yields `items` and then ends, or raises.  `taken` counts the items pulled so far. */
  datatype Producer<V> = Producer(items: seq<V>, fails: Option<int>, taken: nat, phase: Phase, cancelled: bool)

  /** `stopped` is what ended the consumer's loop; `ender` is the source whose end finished the stream. */
  datatype Merge<V> = Merge(
    stream: Stream<Tagged<V>>,
    a: Producer<V>,
    b: Producer<V>,
    exhaustive: bool,
    stopped: Option<Reason>,
    ender: Option<Side>)
  {
    function Get(side: Side): Producer<V> {
      if side.A? then a else b
    }

    function With(side: Side, p: Producer<V>): Merge<V> {
      if side.A? then this.(a := p) else this.(b := p)
    }
  }

  datatype Task = Produce(side: Side) | Consume

  // ----- The code -------------------------------------------------------------------------------

  function Begin<V>(a: seq<V>, failsA: Option<int>, b: seq<V>, failsB: Option<int>, exhaustive: bool): Merge<V> {
    Merge(Fresh(), Producer(a, failsA, 0, Running, false), Producer(b, failsB, 0, Running, false),
          exhaustive, None, None)
  }

  /** `except BaseException as exc: merged_stream.finish(exception=exc)`. */
  function Abort<V>(m: Merge<V>, side: Side, reason: Reason): Merge<V>
    requires Queued(m.stream)
  {
    m.(stream := FinishStep(m.stream, reason)).With(side, m.Get(side).(phase := Done))
  }

  /** What follows the loop of a producer. */
  function End<V>(m: Merge<V>, side: Side): Merge<V>
    requires Queued(m.stream)
  {
    var other := m.Get(side.Other());
    var done := m.With(side, m.Get(side).(phase := Done));
    var ended := done.(stream := FinishStep(m.stream, Exhausted),
                       ender := if m.stream.finished.None? then Some(side) else m.ender);
    if !m.exhaustive then
      if other.phase.Done? then ended else ended.With(side.Other(), other.(cancelled := true))
    else if other.phase.Done? then ended
    else done
  }

  function ProducerStep<V>(m: Merge<V>, side: Side): Merge<V>
    requires Queued(m.stream)
  {
    var p := m.Get(side);
    match p.phase
    case Done => m
    case Blocked(ticket) =>
      if ticket < |m.stream.tickets| && m.stream.tickets[ticket].status.Open? then m
      else if p.cancelled then Abort(m, side, Cancelled)
      else m.With(side, p.(phase := Running))
    case Running =>
      if p.cancelled then Abort(m, side, Cancelled)
      else if p.taken < |p.items| then
        var pulled := p.(taken := p.taken + 1);
        if m.stream.finished.Some? then End(m.With(side, pulled), side)
        else
          m.(stream := SendStep(m.stream, Tagged(side, p.items[p.taken])))
           .With(side, pulled.(phase := if Suspends(m.stream) then Blocked(|m.stream.tickets|) else Running))
      else if p.fails.Some? then Abort(m, side, Raised(p.fails.value))
      else End(m, side)
  }

  function ConsumerStep<V>(m: Merge<V>): Merge<V>
    requires Queued(m.stream)
  {
    if m.stopped.Some? then m
    else if m.stream.waiting.Nobody? then
      m.(stream := NextStep(m.stream), stopped := m.stream.finished)
    else
      m.(stream := ResumeStep(m.stream),
         stopped := if m.stream.waiting.Refused? then Some(m.stream.waiting.reason) else None)
  }

  // ----- Projections ----------------------------------------------------------------------------

  /** The items of one source, in the order in which they occur. */
  ghost function Project<V>(t: seq<Tagged<V>>, side: Side): seq<V> {
    if t == [] then []
    else
      var n := |t| - 1;
      Project(t[..n], side) + (if t[n].side == side then [t[n].value] else [])
  }

  ghost function Values<V>(t: seq<Tagged<V>>): seq<V> {
    seq(|t|, i requires 0 <= i < |t| => t[i].value)
  }

  /** `out` consists of all of `a` and all of `b`, each in its own order. */
  ghost predicate Interleaves<V>(out: seq<V>, a: seq<V>, b: seq<V>) {
    if out == [] then a == [] && b == []
    else
      var n := |out| - 1;
      || (a != [] && a[|a| - 1] == out[n] && Interleaves(out[..n], a[..|a| - 1], b))
      || (b != [] && b[|b| - 1] == out[n] && Interleaves(out[..n], a, b[..|b| - 1]))
  }

  lemma {:induction false} ProjectionsInterleave<V>(t: seq<Tagged<V>>)
    ensures Interleaves(Values(t), Project(t, A), Project(t, B))
  {
    if t != [] {
      var n := |t| - 1;
      ProjectionsInterleave(t[..n]);
      assert Values(t)[..n] == Values(t[..n]);
      var side := t[n].side;
      assert Project(t, side)[..|Project(t, side)| - 1] == Project(t[..n], side);
      assert Project(t, side.Other()) == Project(t[..n], side.Other());
    }
  }

  lemma ProjectAppend<V>(t: seq<Tagged<V>>, e: Tagged<V>, side: Side)
    ensures Project(t + [e], side) == Project(t, side) + (if e.side == side then [e.value] else [])
  {
    assert (t + [e])[..|t|] == t;
  }

  /** The projection of a prefix is a prefix, and all of it if the rest is from the other source. */
  lemma {:induction false} ProjectPrefix<V>(t: seq<Tagged<V>>, k: nat, side: Side)
    requires k <= |t|
    ensures Project(t[..k], side) <= Project(t, side)
    ensures (forall i | k <= i < |t| :: t[i].side != side) ==> Project(t[..k], side) == Project(t, side)
    decreases |t|
  {
    if k == |t| {
      assert t[..k] == t;
    } else {
      var n := |t| - 1;
      ProjectPrefix(t[..n], k, side);
      assert t[..n][..k] == t[..k];
    }
  }

  // ----- The invariant --------------------------------------------------------------------------

  /** While the stream is open, every item pulled from a source has been sent, and only the item that its
      producer is blocked on has not been handed over yet. */
  ghost predicate OpenSide<V>(m: Merge<V>, side: Side) {
    var p, s := m.Get(side), m.stream;
    && p.taken <= |p.items|
    && Project(s.sent, side) == p.items[..p.taken]
    && !p.cancelled
    && (p.phase.Done? ==> m.exhaustive && p.taken == |p.items| && p.fails.None?)
    && (p.phase.Blocked? ==> p.phase.ticket < |s.tickets|)
    && (forall k | |s.handed| <= k < |s.sent| && s.sent[k].side == side ::
          p.phase.Blocked? && s.tickets[p.phase.ticket].position == k)
  }

  /** Once it is finished, the way it was finished tells which sources were handed over in full. */
  ghost predicate FinishedRight<V>(m: Merge<V>)
    requires m.stream.finished.Some?
  {
    var handed := m.stream.handed;
    && Project(handed, A) <= m.a.items && Project(handed, B) <= m.b.items
    && match m.stream.finished.value
       case Cancelled => false
       case Raised(error) => m.a.fails == Some(error) || m.b.fails == Some(error)
       case Exhausted =>
         && m.ender.Some?
         && Project(handed, m.ender.value) == m.Get(m.ender.value).items
         && m.Get(m.ender.value).fails.None?
         && (m.exhaustive ==> Project(handed, A) == m.a.items && Project(handed, B) == m.b.items)
  }

  ghost predicate Inv<V>(m: Merge<V>) {
    && Exact(m.stream)
    && (if m.stream.finished.None? then OpenSide(m, A) && OpenSide(m, B) && !(m.a.phase.Done? && m.b.phase.Done?)
        else FinishedRight(m))
    && (m.stopped.Some? ==> m.stream.finished == m.stopped && m.stream.waiting.Nobody?)
  }

  /** Everything a producer that is not blocked has sent was handed over. */
  lemma NotBlockedIsHandedOver<V>(m: Merge<V>, side: Side)
    requires Inv(m) && m.stream.finished.None?
    requires var p := m.Get(side); p.phase.Blocked? ==> !m.stream.tickets[p.phase.ticket].status.Open?
    ensures Project(m.stream.handed, side) == m.Get(side).items[..m.Get(side).taken]
  {
    var s := m.stream;
    assert OpenSide(m, side);
    assert s.handed == s.sent[..|s.handed|];
    ProjectPrefix(s.sent, |s.handed|, side);
  }

  lemma HandedIsPrefix<V>(m: Merge<V>, side: Side)
    requires Inv(m)
    ensures Project(m.stream.handed, side) <= m.Get(side).items
  {
    if m.stream.finished.None? {
      var s := m.stream;
      assert OpenSide(m, side);
      assert s.handed == s.sent[..|s.handed|];
      ProjectPrefix(s.sent, |s.handed|, side);
    }
  }

  // ----- Steps ----------------------------------------------------------------------------------

  lemma AbortKeepsInv<V>(m: Merge<V>, side: Side, reason: Reason)
    requires Inv(m)
    requires m.stream.finished.None? ==> reason.Raised? && m.Get(side).fails == Some(reason.error)
    requires Exact(Abort(m, side, reason).stream)
    ensures Inv(Abort(m, side, reason))
  {
    ExactFinish(m.stream, reason);
    HandedIsPrefix(m, A);
    HandedIsPrefix(m, B);
  }

  /** The stream had been finished before: that does not change. */
  lemma EndAfterFinish<V>(m: Merge<V>, side: Side)
    requires Inv(m) && m.stream.finished.Some? && Exact(End(m, side).stream)
    ensures Inv(End(m, side))
  {
    ExactFinish(m.stream, Exhausted);
  }

  /** The other producer goes on. */
  lemma EndOfFirst<V>(m: Merge<V>, side: Side)
    requires Inv(m) && m.stream.finished.None? && m.exhaustive && !m.Get(side.Other()).phase.Done?
    requires var p := m.Get(side); p.phase.Running? && p.taken == |p.items| && p.fails.None?
    ensures Inv(End(m, side))
  {
    assert OpenSide(m, side) && OpenSide(m, side.Other());
    assert OpenSide(End(m, side), side) && OpenSide(End(m, side), side.Other());
  }

  /** It finishes the stream. */
  lemma EndOfStream<V>(m: Merge<V>, side: Side)
    requires Inv(m) && m.stream.finished.None? && (m.exhaustive ==> m.Get(side.Other()).phase.Done?)
    requires var p := m.Get(side); p.phase.Running? && p.taken == |p.items| && p.fails.None?
    requires Exact(End(m, side).stream)
    ensures Inv(End(m, side))
  {
    ExactFinish(m.stream, Exhausted);
    NotBlockedIsHandedOver(m, side);
    HandedIsPrefix(m, side.Other());
    if m.exhaustive {
      assert OpenSide(m, side.Other());
      NotBlockedIsHandedOver(m, side.Other());
    }
  }

  lemma EndKeepsInv<V>(m: Merge<V>, side: Side)
    requires Inv(m)
    requires var p := m.Get(side);
             m.stream.finished.None? ==> p.phase.Running? && p.taken == |p.items| && p.fails.None?
    requires Exact(End(m, side).stream)
    ensures Inv(End(m, side))
  {
    if m.stream.finished.Some? {
      EndAfterFinish(m, side);
    } else if m.exhaustive && !m.Get(side.Other()).phase.Done? {
      EndOfFirst(m, side);
    } else {
      EndOfStream(m, side);
    }
  }

  lemma OneMoreSent<V>(m: Merge<V>, side: Side)
    requires OpenSide(m, side) && m.Get(side).taken < |m.Get(side).items|
    ensures var p := m.Get(side);
            Project(m.stream.sent + [Tagged(side, p.items[p.taken])], side) == p.items[..p.taken + 1]
  {
    var p := m.Get(side);
    ProjectAppend(m.stream.sent, Tagged(side, p.items[p.taken]), side);
    assert p.items[..p.taken] + [p.items[p.taken]] == p.items[..p.taken + 1];
  }

  lemma WaitingMeansHandedOver<V>(s: Stream<V>)
    requires Exact(s) && s.finished.None? && s.waiting.Unresolved?
    ensures |s.handed| == |s.sent|
  {
    assert s.handed + Elements(s.pending) == s.handed;
  }

  /** A send extends what its own side has sent; the sent item is pending only if its producer blocks. */
  lemma SendKeepsOwnSide<V>(m: Merge<V>, side: Side)
    requires Inv(m) && m.stream.finished.None?
    requires var p := m.Get(side); p.phase.Running? && p.taken < |p.items| && !p.cancelled
    ensures OpenSide(ProducerStep(m, side), side)
  {
    var p, s, u := m.Get(side), m.stream, ProducerStep(m, side);
    assert OpenSide(m, side);
    OneMoreSent(m, side);
    assert u.Get(side).taken == p.taken + 1 && u.stream.sent == s.sent + [Tagged(side, p.items[p.taken])];
    if s.waiting.Unresolved? {
      WaitingMeansHandedOver(s);
      assert u.Get(side).phase.Running? && |u.stream.handed| == |u.stream.sent|;
    } else {
      assert u.Get(side).phase == Blocked(|s.tickets|) && u.stream.tickets[|s.tickets|].position == |s.sent|;
      assert u.stream.handed == s.handed;
    }
  }

  /** The state of a side stays right when only the other side sends. */
  lemma SideUndisturbed<V>(m: Merge<V>, u: Merge<V>, side: Side, e: Tagged<V>)
    requires OpenSide(m, side) && |m.stream.handed| <= |m.stream.sent| && e.side != side
    requires u.Get(side) == m.Get(side) && u.exhaustive == m.exhaustive
    requires u.stream.sent == m.stream.sent + [e] && |m.stream.handed| <= |u.stream.handed|
    requires m.stream.tickets <= u.stream.tickets
    ensures OpenSide(u, side)
  {
    ProjectAppend(m.stream.sent, e, side);
  }

  lemma SendKeepsOtherSide<V>(m: Merge<V>, side: Side)
    requires Inv(m) && m.stream.finished.None?
    requires var p := m.Get(side); p.phase.Running? && p.taken < |p.items| && !p.cancelled
    ensures OpenSide(ProducerStep(m, side), side.Other())
  {
    var p := m.Get(side);
    assert OpenSide(m, side.Other());
    SideUndisturbed(m, ProducerStep(m, side), side.Other(), Tagged(side, p.items[p.taken]));
  }

  lemma SendKeepsSides<V>(m: Merge<V>, side: Side)
    requires Inv(m) && m.stream.finished.None?
    requires var p := m.Get(side); p.phase.Running? && p.taken < |p.items| && !p.cancelled
    requires Exact(ProducerStep(m, side).stream)
    ensures Inv(ProducerStep(m, side))
  {
    var p := m.Get(side);
    SendKeepsOwnSide(m, side);
    SendKeepsOtherSide(m, side);
  }

  lemma UnblockKeepsInv<V>(m: Merge<V>, side: Side)
    requires Inv(m) && m.Get(side).phase.Blocked?
    requires var t := m.Get(side).phase.ticket; !(t < |m.stream.tickets| && m.stream.tickets[t].status.Open?)
    ensures Inv(m.With(side, m.Get(side).(phase := Running)))
  {
    if m.stream.finished.None? {
      var u := m.With(side, m.Get(side).(phase := Running));
      assert OpenSide(m, side) && OpenSide(m, side.Other());
      assert OpenSide(u, side) && OpenSide(u, side.Other());
    }
  }

  lemma ProducerKeepsInv<V>(m: Merge<V>, side: Side)
    requires Inv(m)
    requires Exact(ProducerStep(m, side).stream)
    ensures Inv(ProducerStep(m, side))
  {
    var p := m.Get(side);
    match p.phase
    case Done =>
    case Blocked(ticket) =>
      if !(ticket < |m.stream.tickets| && m.stream.tickets[ticket].status.Open?) {
        if p.cancelled {
          CancelledKeepsInv(m, side);
        } else {
          UnblockKeepsInv(m, side);
        }
      }
    case Running =>
      if p.cancelled {
        CancelledKeepsInv(m, side);
      } else if p.taken < |p.items| {
        if m.stream.finished.Some? {
          LateEndKeepsInv(m, side);
        } else {
          SendKeepsSides(m, side);
        }
      } else if p.fails.Some? {
        AbortKeepsInv(m, side, Raised(p.fails.value));
      } else {
        SourceEndKeepsInv(m, side);
      }
  }

  /** A producer is cancelled only after the stream finished. */
  lemma CancelledKeepsInv<V>(m: Merge<V>, side: Side)
    requires Inv(m) && m.Get(side).cancelled
    requires Exact(Abort(m, side, Cancelled).stream)
    ensures Inv(Abort(m, side, Cancelled))
  {
    assert m.stream.finished.None? ==> OpenSide(m, side);
    AbortKeepsInv(m, side, Cancelled);
  }

  lemma LateEndKeepsInv<V>(m: Merge<V>, side: Side)
    requires Inv(m) && m.stream.finished.Some? && m.Get(side).taken < |m.Get(side).items|
    requires Exact(End(m.With(side, m.Get(side).(taken := m.Get(side).taken + 1)), side).stream)
    ensures Inv(End(m.With(side, m.Get(side).(taken := m.Get(side).taken + 1)), side))
  {
    EndKeepsInv(m.With(side, m.Get(side).(taken := m.Get(side).taken + 1)), side);
  }

  lemma SourceEndKeepsInv<V>(m: Merge<V>, side: Side)
    requires Inv(m) && m.Get(side).phase.Running? && m.Get(side).fails.None?
    requires m.Get(side).taken >= |m.Get(side).items|
    requires Exact(End(m, side).stream)
    ensures Inv(End(m, side))
  {
    assert m.stream.finished.None? ==> OpenSide(m, side);
    EndKeepsInv(m, side);
  }

  lemma SideStays<V>(m: Merge<V>, u: Merge<V>, side: Side)
    requires OpenSide(m, side) && u.Get(side) == m.Get(side) && u.exhaustive == m.exhaustive
    requires SameSends(m.stream, u.stream) && |m.stream.handed| <= |u.stream.handed|
    ensures OpenSide(u, side)
  {
  }

  lemma PullEffect<V>(m: Merge<V>)
    requires Exact(m.stream)
    ensures var u := ConsumerStep(m);
            && SameSends(m.stream, u.stream) && |m.stream.handed| <= |u.stream.handed|
            && u.stream.finished == m.stream.finished
            && (m.stopped.None? && u.stopped.Some? ==> u.stream.finished == u.stopped && u.stream.waiting.Nobody?)
            && (m.stream.finished.Some? ==> u.stream.handed == m.stream.handed)
  {
    ExactRead(m.stream);
  }

  lemma ConsumerKeepsInv<V>(m: Merge<V>)
    requires Inv(m)
    requires Exact(ConsumerStep(m).stream)
    ensures Inv(ConsumerStep(m))
  {
    PullEffect(m);
    if m.stream.finished.None? {
      SideStays(m, ConsumerStep(m), A);
      SideStays(m, ConsumerStep(m), B);
    }
  }

  // ----- Runs -----------------------------------------------------------------------------------

  /** What a task does to the stream, if anything. */
  function StreamAction<V>(m: Merge<V>, task: Task): Option<Action<Tagged<V>>> {
    match task
    case Consume =>
      if m.stopped.Some? then None else if m.stream.waiting.Nobody? then Some(Next) else Some(Resume)
    case Produce(side) =>
      var p := m.Get(side);
      if p.phase.Done? then None
      else if p.phase.Blocked? then
        if p.phase.ticket < |m.stream.tickets| && m.stream.tickets[p.phase.ticket].status.Open? then None
        else if p.cancelled then Some(Finish(Cancelled)) else None
      else if p.cancelled then Some(Finish(Cancelled))
      else if p.taken < |p.items| then
        if m.stream.finished.Some? then None else Some(Send(Tagged(side, p.items[p.taken])))
      else if p.fails.Some? then Some(Finish(Raised(p.fails.value)))
      else if m.exhaustive && !m.Get(side.Other()).phase.Done? then None
      else Some(Finish(Exhausted))
  }

  function Continue<V>(m: Merge<V>, task: Task): Merge<V>
    requires Queued(m.stream)
  {
    if task.Produce? then ProducerStep(m, task.side) else ConsumerStep(m)
  }

  lemma StreamActionIsDone<V>(m: Merge<V>, task: Task)
    requires Queued(m.stream)
    ensures Continue(m, task).stream ==
            match StreamAction(m, task) case None => m.stream case Some(a) => Streams.Step(m.stream, a)
  {
  }

  /** No task that uses the stream is cancelled while it is suspended there, so the stream stays exact. */
  lemma StreamStaysExact<V(!new)>(m: Merge<V>, task: Task)
    requires Undisturbed(m.stream) && Exact(m.stream)
    ensures Undisturbed(Continue(m, task).stream) && Exact(Continue(m, task).stream)
  {
    StreamActionIsDone(m, task);
    if StreamAction(m, task).Some? {
      UndisturbedStep(m.stream, StreamAction(m, task).value);
    }
  }

  ghost function Step<V(!new)>(m: Merge<V>, task: Task): (u: Merge<V>)
    requires Inv(m) && Undisturbed(m.stream)
    ensures Inv(u) && Undisturbed(u.stream)
  {
    StreamStaysExact(m, task);
    match task
    case Produce(side) => ProducerKeepsInv(m, side); ProducerStep(m, side)
    case Consume => ConsumerKeepsInv(m); ConsumerStep(m)
  }

  /** The state after any schedule. */
  ghost function After<V(!new)>(m: Merge<V>, schedule: seq<Task>): (u: Merge<V>)
    requires Inv(m) && Undisturbed(m.stream)
    ensures Inv(u) && Undisturbed(u.stream)
  {
    if schedule == [] then m
    else Step(After(m, schedule[..|schedule| - 1]), schedule[|schedule| - 1])
  }

  /** The sources and the mode are the same throughout. */
  ghost predicate SameSources<V>(m: Merge<V>, u: Merge<V>) {
    && u.a.items == m.a.items && u.b.items == m.b.items
    && u.a.fails == m.a.fails && u.b.fails == m.b.fails
    && u.exhaustive == m.exhaustive
  }

  lemma ProducerKeepsSources<V>(m: Merge<V>, side: Side)
    requires Queued(m.stream)
    ensures SameSources(m, ProducerStep(m, side))
  {
  }

  lemma {:induction false} SourcesNeverChange<V(!new)>(m: Merge<V>, schedule: seq<Task>)
    requires Inv(m) && Undisturbed(m.stream)
    ensures SameSources(m, After(m, schedule))
    decreases |schedule|
  {
    if schedule != [] {
      var n := |schedule| - 1;
      SourcesNeverChange(m, schedule[..n]);
      if schedule[n].Produce? {
        ProducerKeepsSources(After(m, schedule[..n]), schedule[n].side);
      }
    }
  }

  lemma BeginInv<V>(a: seq<V>, failsA: Option<int>, b: seq<V>, failsB: Option<int>, exhaustive: bool)
    requires Exact(Fresh<Tagged<V>>())
    ensures Inv(Begin(a, failsA, b, failsB, exhaustive))
  {
    var m := Begin(a, failsA, b, failsB, exhaustive);
    assert OpenSide(m, A) && OpenSide(m, B);
  }

  lemma Begins<V(!new)>(a: seq<V>, failsA: Option<int>, b: seq<V>, failsB: Option<int>, exhaustive: bool)
    ensures var m := Begin(a, failsA, b, failsB, exhaustive);
            Inv(m) && Undisturbed(m.stream)
  {
    FreshIsUndisturbed<Tagged<V>>();
    BeginInv(a, failsA, b, failsB, exhaustive);
  }

  /** At any moment of any schedule the output is an interleaving of a prefix of each source. */
  lemma OutputIsInterleaving<V(!new)>(a: seq<V>, failsA: Option<int>, b: seq<V>, failsB: Option<int>, exhaustive: bool,
                                schedule: seq<Task>)
    ensures Inv(Begin(a, failsA, b, failsB, exhaustive)) && Undisturbed(Begin(a, failsA, b, failsB, exhaustive).stream)
    ensures var m := After(Begin(a, failsA, b, failsB, exhaustive), schedule);
            var received := m.stream.received;
            && Interleaves(Values(received), Project(received, A), Project(received, B))
            && Project(received, A) <= a && Project(received, B) <= b
  {
    Begins(a, failsA, b, failsB, exhaustive);
    var m := After(Begin(a, failsA, b, failsB, exhaustive), schedule);
    SourcesNeverChange(Begin(a, failsA, b, failsB, exhaustive), schedule);
    var s := m.stream;
    ProjectionsInterleave(s.received);
    assert s.received == s.handed[..|s.received|];
    ProjectPrefix(s.handed, |s.received|, A);
    ProjectPrefix(s.handed, |s.received|, B);
    HandedIsPrefix(m, A);
    HandedIsPrefix(m, B);
  }

  lemma CompleteWhenExhausted<V>(m: Merge<V>)
    requires Inv(m) && m.stopped == Some(Exhausted) && m.exhaustive
    ensures Interleaves(Values(m.stream.received), m.a.items, m.b.items)
  {
    assert m.stream.handed == m.stream.received;
    ProjectionsInterleave(m.stream.received);
  }

  lemma FirstEnderIsComplete<V>(m: Merge<V>)
    requires Inv(m) && m.stopped == Some(Exhausted)
    ensures m.ender.Some?
    ensures exists k: nat :: k <= |m.Get(m.ender.value.Other()).items| &&
              var rest := m.Get(m.ender.value.Other()).items[..k];
              if m.ender.value.A? then Interleaves(Values(m.stream.received), m.a.items, rest)
              else Interleaves(Values(m.stream.received), rest, m.b.items)
  {
    var received := m.stream.received;
    assert m.stream.handed == received;
    ProjectionsInterleave(received);
    var other := m.ender.value.Other();
    var k := |Project(received, other)|;
    assert Project(received, other) == m.Get(other).items[..k];
  }

  /** In exhaustive mode the stream is finished by the time both producers are done, and a consumer whose
      loop ended normally has got all of both sources, interleaved in order. */
  lemma ExhaustiveMergeIsComplete<V(!new)>(a: seq<V>, failsA: Option<int>, b: seq<V>, failsB: Option<int>,
                                           schedule: seq<Task>)
    ensures Inv(Begin(a, failsA, b, failsB, true)) && Undisturbed(Begin(a, failsA, b, failsB, true).stream)
    ensures var m := After(Begin(a, failsA, b, failsB, true), schedule);
            && (m.a.phase.Done? && m.b.phase.Done? ==> m.stream.finished.Some?)
            && (m.stopped == Some(Exhausted) ==> Interleaves(Values(m.stream.received), a, b))
  {
    Begins(a, failsA, b, failsB, true);
    SourcesNeverChange(Begin(a, failsA, b, failsB, true), schedule);
    var m := After(Begin(a, failsA, b, failsB, true), schedule);
    if m.stopped == Some(Exhausted) {
      CompleteWhenExhausted(m);
    }
  }

  /** Otherwise a consumer whose loop ended normally has got all of the source that ended first and a
      prefix of the other. */
  lemma MergeEndsWithFirstSource<V(!new)>(a: seq<V>, failsA: Option<int>, b: seq<V>, failsB: Option<int>,
                                          schedule: seq<Task>)
    ensures Inv(Begin(a, failsA, b, failsB, false)) && Undisturbed(Begin(a, failsA, b, failsB, false).stream)
    ensures var m := After(Begin(a, failsA, b, failsB, false), schedule);
            m.stopped == Some(Exhausted) ==>
              || (m.ender == Some(A) && exists k: nat :: k <= |b| && Interleaves(Values(m.stream.received), a, b[..k]))
              || (m.ender == Some(B) && exists k: nat :: k <= |a| && Interleaves(Values(m.stream.received), a[..k], b))
  {
    Begins(a, failsA, b, failsB, false);
    SourcesNeverChange(Begin(a, failsA, b, failsB, false), schedule);
    var m := After(Begin(a, failsA, b, failsB, false), schedule);
    if m.stopped == Some(Exhausted) {
      FirstEnderIsComplete(m);
    }
  }

  lemma StopsForAReason<V>(m: Merge<V>)
    requires Inv(m) && m.stopped.Some?
    ensures || m.stopped == Some(Exhausted)
            || (m.a.fails.Some? && m.stopped == Some(Raised(m.a.fails.value)))
            || (m.b.fails.Some? && m.stopped == Some(Raised(m.b.fails.value)))
  {
  }

  /** The consumer's loop ends with an exception only if one of the sources raised that exception. */
  lemma MergeRaisesOnlySourceErrors<V(!new)>(a: seq<V>, failsA: Option<int>, b: seq<V>, failsB: Option<int>,
                                             exhaustive: bool,
                                       schedule: seq<Task>)
    ensures Inv(Begin(a, failsA, b, failsB, exhaustive)) && Undisturbed(Begin(a, failsA, b, failsB, exhaustive).stream)
    ensures var m := After(Begin(a, failsA, b, failsB, exhaustive), schedule);
            m.stopped.Some? ==>
              || m.stopped == Some(Exhausted)
              || (failsA.Some? && m.stopped == Some(Raised(failsA.value)))
              || (failsB.Some? && m.stopped == Some(Raised(failsB.value)))
  {
    Begins(a, failsA, b, failsB, exhaustive);
    SourcesNeverChange(Begin(a, failsA, b, failsB, exhaustive), schedule);
    var m := After(Begin(a, failsA, b, failsB, exhaustive), schedule);
    if m.stopped.Some? {
      StopsForAReason(m);
    }
  }

  // ----- The end of the producers ---------------------------------------------------------------

  /** The first source that ends cancels the producer of the other one. */
  lemma FirstEndCancelsOther<V(!new)>(m: Merge<V>, side: Side)
    requires Inv(m) && Undisturbed(m.stream) && !m.exhaustive && m.stream.finished.None?
    requires var p := m.Get(side); p.phase.Running? && p.taken == |p.items| && p.fails.None?
    ensures var u := Step(m, Produce(side));
            && u.Get(side).phase.Done? && u.stream.finished == Some(Exhausted) && u.ender == Some(side)
            && u.Get(side.Other()) == m.Get(side.Other()).(cancelled := true)
  {
    assert OpenSide(m, side) && OpenSide(m, side.Other());
  }

  lemma NothingIsSent<V(!new)>(m: Merge<V>, side: Side)
    requires Inv(m) && Undisturbed(m.stream) && m.stream.finished.Some?
    ensures var u := Step(m, Produce(side));
            u.stream.finished == m.stream.finished && u.stream.sent == m.stream.sent
  {
    StreamActionIsDone(m, Produce(side));
    if StreamAction(m, Produce(side)).Some? {
      StepAccepts(m.stream, StreamAction(m, Produce(side)).value);
    }
  }

  /** After one step of its own a producer with a finished stream is no longer blocked, and over if it was not blocked
      before, or was cancelled. */
  lemma StepAfterFinish<V>(m: Merge<V>, side: Side)
    requires Exact(m.stream) && m.stream.finished.Some?
    ensures var p, r := m.Get(side), ProducerStep(m, side).Get(side);
            if p.phase.Blocked? && !p.cancelled then r == p.(phase := Running)
            else r.phase.Done? && p.taken <= r.taken <= p.taken + (if p.cancelled then 0 else 1)
  {
  }

  /** Once the stream is finished each producer is over after two steps of its own; it pulls at most one more item,
      which it does not send, and none if it was cancelled. */
  lemma ProducersEnd<V(!new)>(m: Merge<V>, side: Side)
    requires Inv(m) && Undisturbed(m.stream) && m.stream.finished.Some?
    ensures var u, p := Step(Step(m, Produce(side)), Produce(side)), m.Get(side);
            && u.Get(side).phase.Done? && u.stream.sent == m.stream.sent
            && u.Get(side).taken <= p.taken + (if p.cancelled then 0 else 1)
  {
    NothingIsSent(m, side);
    NothingIsSent(Step(m, Produce(side)), side);
    StepAfterFinish(m, side);
    StepAfterFinish(Step(m, Produce(side)), side);
  }
}
