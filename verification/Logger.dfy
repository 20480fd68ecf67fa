/**
 LoggerHandler: producers append to a queue and wake a worker that hands the entries to the sink.
 Each step is one critical section, or one operation outside of the lock, of one thread; a run is
 any interleaving of them.
 */
module LogQueue {
  import opened Results

  type Message = int

  /** A producer may append a null pointer; the worker drops it. */
  type Entry = Option<Message>

  datatype Worker =
    | Ready               // runs, or has been woken: it will take the lock and look
    | Asleep              // in wait(), which has released the lock
    | Delivering(entry: Entry)
    | Exited

  /** How far the destructor is. */
  datatype Closing = Open | Stopped | Notified | Joined

  datatype State = State(
    queue: seq<Entry>,    // log_msg_fifo
    closing: Closing,     // run_task is true while this is Open
    worker: Worker,
    notifications: nat,   // producers between their critical section and notify_one
    sink: seq<Message>)

  const INITIAL := State([], Open, Ready, 0, [])

  datatype Step =
    | Push(entry: Entry)  // setLogEntry, under the lock
    | Notify              // setLogEntry, notify_one
    | SpuriousWake
    | Look                // the worker: test the condition and sleep, take an entry, or leave
    | Deliver             // the worker: hand the entry to the sink
    | Stop                // destructor: run_task = false, under the lock
    | NotifyAll           // destructor
    | Join                // destructor

  predicate Enabled(s: State, step: Step) {
    match step
    case Push(_) => s.closing != Joined
    case Notify => s.notifications > 0
    case SpuriousWake => s.worker == Asleep
    case Look => s.worker == Ready
    case Deliver => s.worker.Delivering?
    case Stop => s.closing == Open
    case NotifyAll => s.closing == Stopped
    case Join => s.closing == Notified && s.worker == Exited
  }

  function Woken(worker: Worker): Worker {
    if worker == Asleep then Ready else worker
  }

  function After(s: State, step: Step): State
    requires Enabled(s, step)
  {
    match step
    case Push(entry) => s.(queue := s.queue + [entry], notifications := s.notifications + 1)
    case Notify => s.(notifications := s.notifications - 1, worker := Woken(s.worker))
    case SpuriousWake => s.(worker := Ready)
    case Look =>
      if s.queue == [] && s.closing == Open then s.(worker := Asleep)
      else if s.queue == [] then s.(worker := Exited)
      else s.(worker := Delivering(s.queue[0]), queue := s.queue[1..])
    case Deliver => s.(worker := Ready, sink := s.sink + Messages([s.worker.entry]))
    case Stop => s.(closing := Stopped)
    case NotifyAll => s.(closing := Notified, worker := Woken(s.worker))
    case Join => s.(closing := Joined)
  }

  /** The entries that are not null. */
  function Messages(entries: seq<Entry>): seq<Message> {
    if entries == [] then []
    else
      var front := Messages(entries[..|entries| - 1]);
      var last := entries[|entries| - 1];
      if last.Some? then front + [last.value] else front
  }

  lemma {:induction false} MessagesConcat(a: seq<Entry>, b: seq<Entry>)
    ensures Messages(a + b) == Messages(a) + Messages(b)
  {
    if b == [] {
      assert a + b == a;
    } else {
      var n := |b| - 1;
      MessagesConcat(a, b[..n]);
      assert (a + b)[..|a + b| - 1] == a + b[..n];
    }
  }

  // ----- Runs -----

  predicate IsRun(steps: seq<Step>)
    decreases |steps|, 0
  {
    steps == [] ||
    (IsRun(steps[..|steps| - 1]) && Enabled(End(steps[..|steps| - 1]), steps[|steps| - 1]))
  }

  function End(steps: seq<Step>): State
    requires IsRun(steps)
    decreases |steps|, 1
  {
    if steps == [] then INITIAL else After(End(steps[..|steps| - 1]), steps[|steps| - 1])
  }

  /** The entries in the order in which the producers got the lock. */
  function Pushed(steps: seq<Step>): seq<Entry> {
    if steps == [] then []
    else
      var front := Pushed(steps[..|steps| - 1]);
      var last := steps[|steps| - 1];
      if last.Push? then front + [last.entry] else front
  }

  /** Those of them that were there when the destructor stopped the worker. */
  function PushedBeforeStop(steps: seq<Step>): (r: seq<Entry>)
    ensures r <= Pushed(steps)
  {
    if steps == [] then []
    else
      var front := steps[..|steps| - 1];
      if Stop in front then PushedBeforeStop(front) else Pushed(steps)
  }

  function InFlight(s: State): seq<Entry> {
    if s.worker.Delivering? then [s.worker.entry] else []
  }

  /** Everything the sink has received or will receive from the queue as it is. */
  function Total(s: State): seq<Message> {
    s.sink + Messages(InFlight(s) + s.queue)
  }

  /** Nothing is lost, duplicated or reordered. */
  ghost predicate Conserved(s: State, steps: seq<Step>) {
    Total(s) == Messages(Pushed(steps))
  }

  /** A sleeping worker that has something to do will be woken: there is a notification for every
      entry in the queue, and a stopped logger has not yet called notify_all. */
  ghost predicate WakeUpPending(s: State) {
    s.worker == Asleep ==> |s.queue| <= s.notifications && (s.closing == Open || s.closing == Stopped)
  }

  ghost predicate Complete(s: State, steps: seq<Step>) {
    && (s.closing == Open <==> Stop !in steps)
    && (s.closing == Joined ==> s.worker == Exited)
    && (s.worker == Exited ==> s.closing != Open && Messages(PushedBeforeStop(steps)) <= s.sink)
  }

  lemma PushAdds(s: State, entry: Entry)
    requires Enabled(s, Push(entry))
    ensures Total(After(s, Push(entry))) == Total(s) + Messages([entry])
  {
    hide Messages;
    var held := InFlight(s) + s.queue;
    var t := After(s, Push(entry));
    MessagesConcat(held, [entry]);
    assert InFlight(t) + t.queue == held + [entry];
  }

  lemma DeliverMoves(s: State)
    requires Enabled(s, Deliver)
    ensures Total(After(s, Deliver)) == Total(s)
  {
    hide Messages;
    var t := After(s, Deliver);
    MessagesConcat([s.worker.entry], s.queue);
    assert InFlight(t) + t.queue == s.queue;
  }

  lemma LookMoves(s: State)
    requires Enabled(s, Look)
    ensures Total(After(s, Look)) == Total(s)
  {
    hide Messages;
    var t := After(s, Look);
    assert InFlight(t) + t.queue == InFlight(s) + s.queue;
  }

  lemma OthersMoveNothing(s: State, step: Step)
    requires Enabled(s, step) && !step.Push? && step != Deliver && step != Look
    ensures Total(After(s, step)) == Total(s)
  {
    hide Messages;
  }

  lemma StepConserves(s: State, steps: seq<Step>, step: Step)
    requires Conserved(s, steps) && Enabled(s, step)
    ensures Conserved(After(s, step), steps + [step])
  {
    hide Messages, Total, After, Pushed;
    PushedStep(steps, step);
    match step
    case Push(entry) =>
      PushAdds(s, entry);
      MessagesConcat(Pushed(steps), [entry]);
    case Deliver => DeliverMoves(s);
    case Look => LookMoves(s);
    case _ => OthersMoveNothing(s, step);
  }

  lemma PushedStep(steps: seq<Step>, step: Step)
    ensures Pushed(steps + [step]) == (if step.Push? then Pushed(steps) + [step.entry] else Pushed(steps))
  {
    assert (steps + [step])[..|steps|] == steps;
  }

  lemma StepKeepsWakeUp(s: State, step: Step)
    requires WakeUpPending(s) && Enabled(s, step)
    ensures WakeUpPending(After(s, step))
  {
  }

  lemma MessagesPrefix(a: seq<Entry>, b: seq<Entry>)
    requires a <= b
    ensures Messages(a) <= Messages(b)
  {
    MessagesConcat(a, b[|a|..]);
    assert b == a + b[|a|..];
  }

  lemma StepCompletes(s: State, steps: seq<Step>, step: Step)
    requires Conserved(s, steps) && Complete(s, steps) && Enabled(s, step)
    ensures Complete(After(s, step), steps + [step])
  {
    hide Messages;
    var t := After(s, step);
    var more := steps + [step];
    assert more[..|steps|] == steps;
    assert Stop in steps ==> PushedBeforeStop(more) == PushedBeforeStop(steps);
    if step == Look && t.worker == Exited {
      StepConserves(s, steps, step);
      MessagesPrefix(PushedBeforeStop(more), Pushed(more));
      NoMessages(t);
    }
  }

  lemma NoMessages(s: State)
    requires s.worker == Exited && s.queue == []
    ensures Messages(InFlight(s) + s.queue) == []
  {
  }

  /** In every interleaving: conservation, no lost wake-up, and completeness at the exit. */
  lemma {:induction false} EveryRun(steps: seq<Step>)
    requires IsRun(steps)
    ensures var s := End(steps); Conserved(s, steps) && WakeUpPending(s) && Complete(s, steps)
  {
    if steps != [] {
      var n := |steps| - 1;
      var before := End(steps[..n]);
      assert End(steps) == After(before, steps[n]) && Enabled(before, steps[n]);
      assert steps == steps[..n] + [steps[n]];
      hide Conserved, WakeUpPending, Complete, After, Enabled;
      EveryRun(steps[..n]);
      StepConserves(before, steps[..n], steps[n]);
      StepKeepsWakeUp(before, steps[n]);
      StepCompletes(before, steps[..n], steps[n]);
    }
  }

  /** When the destructor returns, the sink has received every message that was queued before the
      stop, each once and in the order of the queue, and perhaps some that came later. */
  lemma DestructorDelivers(steps: seq<Step>)
    requires IsRun(steps) && End(steps).closing == Joined
    ensures Messages(PushedBeforeStop(steps)) <= End(steps).sink <= Messages(Pushed(steps))
  {
    hide Messages;
    EveryRun(steps);
  }

  // ----- Progress -----

  /** What producers and the operating system may do at will; everything else must happen. */
  predicate Voluntary(step: Step) {
    step.Push? || step.Stop? || step.SpuriousWake?
  }

  function Rank(s: State): nat {
    3 * |s.queue| + 2 * s.notifications
    + (match s.closing case Open => 6 case Stopped => 4 case Notified => 2 case Joined => 0)
    + (match s.worker case Delivering(_) => 2 case Ready => 1 case Asleep => 0 case Exited => 0)
  }

  /** The steps that must happen cannot go on for ever. */
  lemma StepsRunOut(s: State, step: Step)
    requires Enabled(s, step) && !Voluntary(step)
    ensures Rank(After(s, step)) < Rank(s)
  {
  }

  /** From any state on, at most Rank of them follow until the next voluntary step. */
  lemma {:induction false} QuietAfterRank(steps: seq<Step>, more: seq<Step>)
    requires IsRun(steps + more) && forall i :: 0 <= i < |more| ==> !Voluntary(more[i])
    ensures IsRun(steps) && |more| + Rank(End(steps + more)) <= Rank(End(steps))
  {
    if more == [] {
      assert steps + more == steps;
    } else {
      hide Rank, After, Enabled;
      var n := |more| - 1;
      var before := steps + more[..n];
      assert (steps + more)[..|steps + more| - 1] == before && (steps + more)[|steps + more| - 1] == more[n];
      QuietAfterRank(steps, more[..n]);
      StepsRunOut(End(before), more[n]);
    }
  }

  /** When no such step is left, the logger is either idle with everything delivered, or closed
      with everything delivered that came before the stop. No run hangs anywhere else. */
  lemma QuietMeansDelivered(steps: seq<Step>)
    requires IsRun(steps)
    requires forall step: Step :: !Voluntary(step) ==> !Enabled(End(steps), step)
    ensures var s := End(steps);
      || (s.closing == Open && s.worker == Asleep && s.queue == [] && s.sink == Messages(Pushed(steps)))
      || (s.closing == Joined && s.worker == Exited && Messages(PushedBeforeStop(steps)) <= s.sink)
  {
    hide Messages;
    var s := End(steps);
    EveryRun(steps);
    assert !Enabled(s, Notify) && !Enabled(s, Look) && !Enabled(s, NotifyAll) && !Enabled(s, Join);
    assert !Enabled(s, Deliver);
    if s.worker == Asleep {
      NothingLeft(s);
    }
  }

  lemma NothingLeft(s: State)
    requires s.worker == Asleep && s.queue == []
    ensures Messages(InFlight(s) + s.queue) == []
  {
  }

  // ----- Delivery, step by step -----

  /** The steps at which something other than a null pointer was appended. */
  function Positions(steps: seq<Step>): (r: seq<nat>)
    ensures forall k :: 0 <= k < |r| ==> r[k] < |steps|
    ensures forall j, k :: 0 <= j < k < |r| ==> r[j] < r[k]
  {
    if steps == [] then []
    else
      var n := |steps| - 1;
      var front := Positions(steps[..n]);
      if steps[n].Push? && steps[n].entry.Some? then front + [n] else front
  }

  lemma {:induction false} PositionsExactly(steps: seq<Step>)
    ensures var p := Positions(steps); var m := Messages(Pushed(steps));
      && |p| == |m|
      && (forall k :: 0 <= k < |p| ==> steps[p[k]] == Push(Some(m[k])))
      && (forall i :: 0 <= i < |steps| && steps[i].Push? && steps[i].entry.Some? ==> i in p)
  {
    if steps != [] {
      var n := |steps| - 1;
      PositionsExactly(steps[..n]);
      var p, front := Positions(steps), Positions(steps[..n]);
      assert forall i :: i in front ==> i in p;
      if steps[n].Push? {
        assert (Pushed(steps[..n]) + [steps[n].entry])[..|Pushed(steps[..n])|] == Pushed(steps[..n]);
      }
    }
  }

  lemma {:induction false} PositionsOfFront(steps: seq<Step>, n: nat)
    requires n <= |steps|
    ensures Positions(steps[..n]) <= Positions(steps)
  {
    if n < |steps| {
      PositionsOfFront(steps[..|steps| - 1], n);
      assert steps[..|steps| - 1][..n] == steps[..n];
    } else {
      assert steps[..n] == steps;
    }
  }

  lemma {:induction false} BeforeStop(steps: seq<Step>) returns (n: nat)
    ensures n <= |steps| && PushedBeforeStop(steps) == Pushed(steps[..n])
    ensures forall i :: 0 <= i < |steps| && Stop !in steps[..i] ==> i < n
  {
    var m := |steps|;
    if steps == [] {
      n := 0;
    } else if Stop in steps[..m - 1] {
      n := BeforeStop(steps[..m - 1]);
      assert steps[..m - 1][..n] == steps[..n];
      forall i | 0 <= i < m && Stop !in steps[..i] ensures i < n {
        if i < m - 1 {
          assert steps[..m - 1][..i] == steps[..i];
        }
      }
    } else {
      n := m;
      assert steps[..m] == steps;
    }
  }

  /** p are the steps whose entries the sink has received, in the order of the queue and without a gap. */
  ghost predicate Delivered(steps: seq<Step>, sink: seq<Message>, p: seq<nat>) {
    && |p| == |sink|
    && (forall k :: 0 <= k < |p| ==> p[k] < |steps| && steps[p[k]] == Push(Some(sink[k])))
    && (forall j, k :: 0 <= j < k < |p| ==> p[j] < p[k])
    && (forall i, k :: 0 <= k < |p| && 0 <= i < p[k] && steps[i].Push? && steps[i].entry.Some? ==> i in p)
  }

  lemma NoGap(all: seq<nat>, n: nat, i: nat)
    requires n <= |all| && (forall j, k :: 0 <= j < k < |all| ==> all[j] < all[k])
    requires i in all && i !in all[..n]
    ensures forall k :: 0 <= k < n ==> all[k] < i
  {
    forall k | 0 <= k < n ensures all[k] != i {
      assert all[..n][k] == all[k];
    }
  }

  lemma FrontIsDelivered(steps: seq<Step>, sink: seq<Message>)
    requires sink <= Messages(Pushed(steps))
    ensures |sink| <= |Positions(steps)| && Delivered(steps, sink, Positions(steps)[..|sink|])
  {
    hide Messages, Pushed;
    PositionsExactly(steps);
    var all := Positions(steps);
    var p := all[..|sink|];
    forall i | 0 <= i < |steps| && steps[i].Push? && steps[i].entry.Some? && i !in p
      ensures forall k :: 0 <= k < |p| ==> p[k] < i
    {
      NoGap(all, |sink|, i);
    }
  }

  lemma SinkIsFront(steps: seq<Step>)
    requires IsRun(steps)
    ensures End(steps).sink <= Messages(Pushed(steps))
  {
    hide Messages;
    EveryRun(steps);
  }

  /** What came before the stop is in any front of the messages that holds the messages from before it. */
  lemma FrontHoldsStopped(steps: seq<Step>, sink: seq<Message>)
    requires Messages(PushedBeforeStop(steps)) <= sink <= Messages(Pushed(steps))
    ensures |sink| <= |Positions(steps)|
    ensures forall i :: 0 <= i < |steps| && steps[i].Push? && steps[i].entry.Some? && Stop !in steps[..i] ==>
      i in Positions(steps)[..|sink|]
  {
    hide Messages, Pushed, PushedBeforeStop;
    var n := BeforeStop(steps);
    PositionsExactly(steps);
    PositionsExactly(steps[..n]);
    PositionsOfFront(steps, n);
    var p := Positions(steps)[..|sink|];
    forall i | 0 <= i < |steps| && steps[i].Push? && steps[i].entry.Some? && Stop !in steps[..i] ensures i in p {
      assert steps[..n][i] == steps[i];
      var j :| 0 <= j < |Positions(steps[..n])| && Positions(steps[..n])[j] == i;
      assert p[j] == i;
    }
  }

  /** The same, told by the steps of the producers alone: at any time the sink holds the first messages
      that were appended, each once. When the destructor has returned these include every message
      appended before the stop, and while the logger rests they are all of them. */
  lemma EveryMessageIsDelivered(steps: seq<Step>) returns (p: seq<nat>)
    requires IsRun(steps)
    ensures Delivered(steps, End(steps).sink, p)
    ensures End(steps).closing == Joined ==>
      forall i :: 0 <= i < |steps| && steps[i].Push? && steps[i].entry.Some? && Stop !in steps[..i] ==> i in p
    ensures End(steps).closing == Open && (forall step: Step :: !Voluntary(step) ==> !Enabled(End(steps), step)) ==>
      forall i :: 0 <= i < |steps| && steps[i].Push? && steps[i].entry.Some? ==> i in p
  {
    hide Messages, Pushed, PushedBeforeStop, Positions, Delivered;
    var s := End(steps);
    EveryRun(steps);
    SinkIsFront(steps);
    FrontIsDelivered(steps, s.sink);
    p := Positions(steps)[..|s.sink|];
    if s.closing == Joined {
      FrontHoldsStopped(steps, s.sink);
    }
    if s.closing == Open && forall step: Step :: !Voluntary(step) ==> !Enabled(s, step) {
      QuietMeansDelivered(steps);
      PositionsExactly(steps);
    }
  }
}
